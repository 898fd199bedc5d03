/**
 Percent-encoding byte for byte: which bytes are left alone, how the others are written,
 and how text is decoded.
 */
module PercentAlphabets {
  import opened Octets
  import opened HttpLength
  import HttpBody
  import opened HttpHex
  import opened UrlAlphabets
  import opened UrlFields
  import UrlGrammar
  import opened UrlPartition
  import opened PercentEncoding

  /** Letters, digits and eight marks are left alone. */
  predicate LeftAlone(ch: byte) {
    LetterOrDigit(ch) || Among(ch, "&*-./=?_")
  }

  lemma UnreservedIs(ch: byte)
    ensures Unreserved(ch) <==> LeftAlone(ch)
  {
    LettersAre(ch);
    UrlAlphabets.DigitsAre(ch);
    AmongCons(ch, "&*-./=?_");
    AmongCons(ch, "*-./=?_");
    AmongCons(ch, "-./=?_");
    AmongCons(ch, "./=?_");
    AmongCons(ch, "/=?_");
    AmongCons(ch, "=?_");
    AmongTwo(ch, "?_");
    hide Among;
  }

  lemma DigitIs(v: nat)
    requires v < 16
    ensures HexDigit(v) as int == UPPER[v] as int
  {
    if v < 10 {
      assert UPPER[v] as int == 48 + v;
    } else {
      assert UPPER[v] as int == 55 + v;
    }
  }

  lemma HexValueIs(ch: byte)
    ensures forall v: nat | v < 16 && IsDigit(ch, v) :: HexValue(ch) == v && UrlGrammar.IsHex(ch)
    ensures UrlGrammar.IsHex(ch) ==> HexValue(ch) < 16 && IsDigit(ch, HexValue(ch))
  {
    UnhexIs(ch);
    HexIsUnhex(ch);
    forall v: nat | v < 16 && IsDigit(ch, v)
      ensures ch < 128
    {
      DigitIsLow(ch, v);
    }
    hide IsDigit, HexValue;
  }

  lemma DigitIsLow(ch: byte, v: nat)
    requires v < 16 && IsDigit(ch, v)
    ensures ch < 128
  {
    if v < 10 {
      assert UPPER[v] as int == LOWER[v] as int == 48 + v;
    } else {
      assert UPPER[v] as int == 55 + v && LOWER[v] as int == 87 + v;
    }
  }

  lemma HexIsUnhex(ch: byte)
    ensures ch < 128 ==> HexValue(ch) == HttpBody.Unhex(ch)
    ensures ch >= 128 ==> !UrlGrammar.IsHex(ch)
  {
  }

  /** Every other byte is written as `%` and its two digits in upper case. */
  lemma EncodedByteIs(ch: byte)
    ensures EncodeByte(ch) ==
      if LeftAlone(ch) then [ch] else [37, UPPER[ch as int / 16] as int, UPPER[ch as int % 16] as int]
  {
    UnreservedIs(ch);
    DigitIs(ch / 16);
    DigitIs(ch % 16);
    hide LeftAlone, Unreserved, HexDigit;
  }

  lemma TripleIs(t: seq<byte>)
    ensures TripleAt(t, 0) <==> |t| >= 3 && t[0] == 37 && HexPair(t[1], t[2])
  {
    if |t| >= 3 {
      HexValueIs(t[1]);
      HexValueIs(t[2]);
    }
    hide IsDigit, HexValue, UrlGrammar.IsHex;
  }

  /** `%` and two digits of either case are the byte they spell. */
  lemma TripleIsDecoded(t: seq<byte>, v: nat, w: nat)
    requires |t| >= 3 && t[0] == 37 && v < 16 && w < 16 && IsDigit(t[1], v) && IsDigit(t[2], w)
    ensures Decode(t) == [16 * v + w] + Decode(t[3..])
  {
    TripleIs(t);
    HexValueIs(t[1]);
    HexValueIs(t[2]);
    hide IsDigit, HexValue, UrlGrammar.IsHex;
  }

  /** `+` is a blank; any other byte that begins no such triple is itself. */
  lemma OtherIsDecoded(t: seq<byte>)
    requires t != [] && !(|t| >= 3 && t[0] == 37 && HexPair(t[1], t[2]))
    ensures Decode(t) == [if t[0] == 43 then 32 else t[0]] + Decode(t[1..])
  {
    TripleIs(t);
    hide TripleAt, HexPair;
  }

  /** Two digits. */
  predicate HexPair(a: byte, b: byte) {
    (exists v: nat | v < 16 :: IsDigit(a, v)) && (exists w: nat | w < 16 :: IsDigit(b, w))
  }

  /** Without an offset the path of a plain URL is encoded from behind its slash, and without a path nothing is. */
  lemma PlainBegins(host: seq<byte>, port: seq<byte>, path: seq<byte>)
    requires PlainHost(host) && PlainPort(port) && PlainPath(path) && |PlainUrl(host, port, path)| <= 65535
    ensures Begin(PlainUrl(host, port, path), 0) ==
      7 + |host| + (if port == [] then 0 else 1 + |port|) + (if path == [] then 0 else 1)
  {
    PlainIsAccepted(host, port, path);
    hide Parse, PlainHost, PlainPort, PlainPath, PlainUrl, Decimal;
  }

  /** An offset is where encoding begins, as far as there is text. */
  lemma OffsetBegins(s: seq<byte>, offset: nat)
    requires offset != 0
    ensures Begin(s, offset) == if offset <= |s| then offset else |s|
  {
  }

  /** What is no URL is encoded from its beginning. */
  lemma OtherTextBegins(s: seq<byte>)
    requires Parse(false, s).Rejected?
    ensures Begin(s, 0) == 0
  {
  }
}
