/**
 Percent-encoding of URLs (section 2.1 of RFC 3986): `url_encode`, `url_decode` and
 `has_unencode_char`.
 */
module PercentEncoding {
  import opened Octets
  import opened UrlGrammar
  import opened UrlHost
  import opened UrlFields
  import opened UrlParser

  const PLUS: byte := 43
  const BLANK: byte := 32

  /** The table `unreserved_char`: letters, digits and `&*-./=?_`. */
  predicate Unreserved(ch: byte) {
    IsAlphaNum(ch) || ch in {38, 42, 45, 46, 47, 61, 63, 95}
  }

  function HexValue(ch: byte): (v: int)
    ensures IsHex(ch) <==> v >= 0
    ensures v < 16
  {
    if 48 <= ch <= 57 then ch - 48
    else if 97 <= ch <= 102 then ch - 87
    else if 65 <= ch <= 70 then ch - 55
    else -1
  }

  function HexDigit(v: int): (ch: byte)
    requires 0 <= v < 16
    ensures IsHex(ch) && HexValue(ch) == v && Unreserved(ch)
  {
    if v > 9 then v + 55 else v + 48
  }

  /** `%` and two hexadecimal digits stand at `i`. */
  predicate TripleAt(t: seq<byte>, i: nat) {
    i + 3 <= |t| && t[i] == PERCENT && IsHex(t[i + 1]) && IsHex(t[i + 2])
  }

  // ----- what the loops compute

  function Decode(t: seq<byte>): seq<byte> {
    if t == [] then []
    else if TripleAt(t, 0) then [HexValue(t[1]) * 16 + HexValue(t[2])] + Decode(t[3..])
    else [if t[0] == PLUS then BLANK else t[0]] + Decode(t[1..])
  }

  function EncodeByte(ch: byte): seq<byte> {
    if Unreserved(ch) then [ch] else [PERCENT, HexDigit(ch / 16), HexDigit(ch % 16)]
  }

  function EncodeBytes(s: seq<byte>): seq<byte> {
    if s == [] then [] else EncodeByte(s[0]) + EncodeBytes(s[1..])
  }

  /** Unreserved bytes and triples, and nothing else. */
  predicate WellEncoded(t: seq<byte>) {
    t != [] ==>
      if t[0] == PERCENT then TripleAt(t, 0) && WellEncoded(t[3..]) else Unreserved(t[0]) && WellEncoded(t[1..])
  }

  /**
   Where encoding begins: at the offset the caller gave, or, when it gave none, behind the
   first byte of the path, the port or the host of a URL, if the input is one.
   */
  function Begin(s: seq<byte>, offset: nat): nat {
    if offset != 0 then (if offset <= |s| then offset else |s|)
    else
      match Parse(false, s)
      case Rejected => 0
      case Accepted(u) =>
        if UfPath in u.fields then u.fields[UfPath].off + 1
        else if UfPort in u.fields then u.fields[UfPort].off + u.fields[UfPort].len
        else if UfHost in u.fields then u.fields[UfHost].off + u.fields[UfHost].len
        else 0
  }

  /** Whatever its length, the fields reported of an input lie in it. */
  lemma ReportedInBounds(connect: bool, text: seq<byte>, f: Field)
    requires Parse(connect, text).Accepted? && f in Parse(connect, text).url.fields
    ensures InBounds(Parse(connect, text).url.fields[f], text)
  {
    ScanIsGrammatical(connect, text);
    var x := Read(connect, text);
    if f in MainFields(x) { MainInBounds(x, f); }
    if UfHost in MainFields(x) {
      MainInBounds(x, UfHost);
      HostReportedInBounds(text, x, f);
    }
  }

  lemma HostReportedInBounds(text: seq<byte>, x: Parts, f: Field)
    requires Text(x) == text && UfHost in MainFields(x) && HostAccepted(text, x)
    requires f in MainFields(x) ==> InBounds(MainFields(x)[f], text)
    ensures var fields := HostFields(MainFields(x), MainFields(x)[UfHost].off, SecondReading(text, x));
            f in fields ==> InBounds(fields[f], text)
  {
    HostReading(text, x);
    var h, base := SecondReading(text, x), MainFields(x)[UfHost].off;
    hide *;
    RunsInBounds(base, h, text);
    HostFieldsInBounds(MainFields(x), base, h, text, f);
  }

  lemma HostReading(text: seq<byte>, x: Parts)
    requires Text(x) == text && UfHost in MainFields(x) && HostAccepted(text, x)
    ensures MainFields(x)[UfHost].off + |HostText(SecondReading(text, x))| <= |text| && SecondReading(text, x).address != []
  {
    ScanHostIsGrammatical(FoundAt(x), AuthorityOf(text, x));
    CompleteIff(SecondReading(text, x), FoundAt(x));
    MainInBounds(x, UfHost);
    hide MainFields, Text, HostText, HostPieces, Valid, Offset, ScanHost, ReadHost, HostSpan, PieceSpan, HostStateOf;
  }

  lemma HostFieldsInBounds(fields: map<Field, Span>, base: u16, h: Authority, text: seq<byte>, f: Field)
    requires UfHost in fields
    requires f in fields ==> InBounds(fields[f], text)
    requires InBounds(PieceSpan(HostPieces(h), 0, base), text) && InBounds(PieceSpan(HostPieces(h), 8, base), text)
    requires forall off :: InBounds(HostSpan(off, base, h), text)
    ensures f in HostFields(fields, base, h) ==> InBounds(HostFields(fields, base, h)[f], text)
  {
    hide HostSpan, PieceSpan, HostPieces, InBounds;
  }

  lemma RunsInBounds(base: u16, h: Authority, text: seq<byte>)
    requires base + |HostText(h)| <= |text| && h.address != []
    ensures InBounds(PieceSpan(HostPieces(h), 0, base), text) && InBounds(PieceSpan(HostPieces(h), 8, base), text)
    ensures forall off :: InBounds(HostSpan(off, base, h), text)
  {
    hide Offset, Concat, HostText;
    HostTextIsConcat(h);
    PieceAt(HostPieces(h), 0);
    PieceAt(HostPieces(h), 8);
    AddressInBounds(h);
  }

  lemma HostTextIsConcat(h: Authority)
    ensures HostText(h) == Concat(HostPieces(h))
  {
  }

  lemma AddressInBounds(h: Authority)
    ensures Offset(HostPieces(h), 3) + AddressLength(h) <= |HostText(h)|
  {
    hide Offset, Concat;
    PieceAt(HostPieces(h), 3);
    PieceAt(HostPieces(h), 4);
    PieceAt(HostPieces(h), 5);
  }

  lemma BeginInBounds(s: seq<byte>, offset: nat)
    ensures Begin(s, offset) <= |s|
  {
    if offset == 0 && Parse(false, s).Accepted? {
      var fields := Parse(false, s).url.fields;
      if UfPath in fields {
        PathIsLonger(s);
      } else if UfPort in fields {
        ReportedInBounds(false, s, UfPort);
      } else if UfHost in fields {
        ReportedInBounds(false, s, UfHost);
      }
    }
  }

  /** Behind a path's offset there is a byte, even where its length is cut to 16 bits. */
  lemma PathIsLonger(s: seq<byte>)
    requires Parse(false, s).Accepted? && UfPath in Parse(false, s).url.fields
    ensures Parse(false, s).url.fields[UfPath].off < |s|
  {
    hide Text, Offset, Scan, Read, Parse, Valid, MainFields;
    ScanIsGrammaticalIfAccepted(s);
    var x := Read(false, s);
    PathField(s);
    PieceAt(Pieces(x), 3);
    TextIs(x);
    PathSpan(x);
  }

  lemma ScanIsGrammaticalIfAccepted(s: seq<byte>)
    requires Parse(false, s).Accepted?
    ensures Text(Read(false, s)) == s
  {
    ScanIsGrammatical(false, s);
  }

  lemma PathSpan(x: Parts)
    ensures UfPath in MainFields(x) ==>
      x.path != [] && MainFields(x)[UfPath].off == Short(Offset(Pieces(x), 3))
  {
  }

  /** The second reading leaves the path alone. */
  lemma PathField(s: seq<byte>)
    requires Parse(false, s).Accepted? && UfPath in Parse(false, s).url.fields
    ensures UfPath in MainFields(Read(false, s))
    ensures Parse(false, s).url.fields[UfPath] == MainFields(Read(false, s))[UfPath]
  {
    hide MainFields, Scan, Read, Text, SecondReading, PortDigits, HostAccepted, HostSpan, PieceRun;
  }

  lemma TextIs(x: Parts)
    ensures Text(x) == Concat(Pieces(x))
  {
  }

  function Encode(s: seq<byte>, offset: nat): seq<byte> {
    BeginInBounds(s, offset);
    s[..Begin(s, offset)] + EncodeBytes(s[Begin(s, offset)..])
  }

  // ----- round trips

  lemma {:induction false} EncodeAppend(s: seq<byte>, ch: byte)
    ensures EncodeBytes(s + [ch]) == EncodeBytes(s) + EncodeByte(ch)
  {
    if s == [] {
      assert s + [ch] == [ch];
      assert EncodeBytes([]) == [];
      assert EncodeByte(ch) + [] == EncodeByte(ch) && [] + EncodeByte(ch) == EncodeByte(ch);
    } else {
      assert (s + [ch])[1..] == s[1..] + [ch];
      EncodeAppend(s[1..], ch);
      assert EncodeByte(s[0]) + (EncodeBytes(s[1..]) + EncodeByte(ch)) == EncodeByte(s[0]) + EncodeBytes(s[1..]) + EncodeByte(ch);
    }
  }

  /** What was encoded decodes to itself and is well encoded. */
  lemma {:induction false} EncodedDecodes(s: seq<byte>)
    ensures Decode(EncodeBytes(s)) == s
    ensures WellEncoded(EncodeBytes(s))
  {
    if s != [] {
      var rest := EncodeBytes(s[1..]);
      EncodedDecodes(s[1..]);
      var e := EncodeBytes(s);
      if Unreserved(s[0]) {
        assert e == [s[0]] + rest && e[1..] == rest;
        assert Decode(e) == [s[0]] + Decode(rest);
      } else {
        assert e == [PERCENT, HexDigit(s[0] / 16), HexDigit(s[0] % 16)] + rest && e[3..] == rest;
        assert TripleAt(e, 0);
        assert Decode(e) == [s[0]] + Decode(rest);
      }
      assert [s[0]] + s[1..] == s;
    }
  }

  /** The first `k` bytes decode to themselves wherever they stand. */
  predicate Plain(s: seq<byte>, k: nat)
    requires k <= |s|
  {
    PLUS !in s[..k] && forall i | 0 <= i < k :: !TripleAt(s, i)
  }

  lemma {:induction false} DecodeIsShorter(t: seq<byte>)
    ensures |Decode(t)| <= |t|
    ensures |t| > 0 && TripleAt(t, 0) ==> |Decode(t)| < |t|
  {
    if t != [] {
      DecodeIsShorter(if TripleAt(t, 0) then t[3..] else t[1..]);
    }
  }

  /** A prefix left as it is, in front of something encoded, decodes to itself exactly if it is plain. */
  lemma {:induction false} PrefixDecodes(s: seq<byte>, k: nat)
    requires k <= |s|
    ensures |Decode(s[..k] + EncodeBytes(s[k..]))| <= |s|
    ensures Decode(s[..k] + EncodeBytes(s[k..])) == s <==> Plain(s, k)
    decreases k
  {
    var e := s[..k] + EncodeBytes(s[k..]);
    if k == 0 {
      assert s[k..] == s && e == EncodeBytes(s);
      EncodedDecodes(s);
    } else {
      hide Decode, EncodeBytes, Plain, TripleAt;
      TripleSurvives(s, k);
      PrefixDecodes(s[1..], k - 1);
      EncodedTail(s, k);
      PlainTail(s, k);
      if TripleAt(s, 0) {
        EnoughBytes(s);
        if k >= 3 { PrefixDecodes(s[3..], k - 3); }
        TripleShortens(s, k);
      } else {
        DecodeFirst(e);
        assert s == [s[0]] + s[1..];
      }
    }
  }

  lemma EnoughBytes(s: seq<byte>)
    requires TripleAt(s, 0)
    ensures |s| >= 3
  {
  }

  lemma DecodeFirst(e: seq<byte>)
    requires e != [] && !TripleAt(e, 0)
    ensures Decode(e) == [if e[0] == PLUS then BLANK else e[0]] + Decode(e[1..])
  {
  }

  lemma EncodedTail(s: seq<byte>, k: nat)
    requires 0 < k <= |s|
    ensures (s[..k] + EncodeBytes(s[k..]))[1..] == s[1..][..k - 1] + EncodeBytes(s[1..][k - 1..])
  {
    assert s[1..][k - 1..] == s[k..];
    assert s[..k][1..] == s[1..][..k - 1];
  }

  lemma PlainTail(s: seq<byte>, k: nat)
    requires 0 < k <= |s|
    ensures Plain(s, k) <==> s[0] != PLUS && !TripleAt(s, 0) && Plain(s[1..], k - 1)
  {
    assert forall i | 0 < i < k :: TripleAt(s, i) <==> TripleAt(s[1..], i - 1);
    assert forall i | 0 <= i < k - 1 :: TripleAt(s[1..], i) <==> TripleAt(s, i + 1);
    assert s[..k] == [s[0]] + s[1..][..k - 1];
  }

  /** Hexadecimal digits are encoded as themselves, so encoding neither makes nor breaks a triple. */
  lemma TripleSurvives(s: seq<byte>, k: nat)
    requires 0 < k <= |s|
    ensures TripleAt(s[..k] + EncodeBytes(s[k..]), 0) <==> TripleAt(s, 0)
  {
  }

  /** A triple that begins in the prefix decodes to one byte. */
  lemma TripleShortens(s: seq<byte>, k: nat)
    requires 0 < k <= |s| && TripleAt(s, 0)
    requires k >= 3 ==> |Decode(s[3..][..k - 3] + EncodeBytes(s[3..][k - 3..]))| <= |s| - 3
    ensures |Decode(s[..k] + EncodeBytes(s[k..]))| < |s|
  {
    var e := s[..k] + EncodeBytes(s[k..]);
    TripleSurvives(s, k);
    assert |Decode(e)| == 1 + |Decode(e[3..])|;
    if k >= 3 {
      assert e[3..] == s[3..][..k - 3] + EncodeBytes(s[3..][k - 3..]) by {
        assert s[3..][k - 3..] == s[k..];
        assert s[..k][3..] == s[3..][..k - 3];
      }
    } else {
      DigitsAreUnreserved();
      DigitPair(s, k);
      EncodedDecodes(s[3..]);
    }
  }

  lemma DigitsAreUnreserved()
    ensures forall ch: byte | IsHex(ch) :: Unreserved(ch)
  {
  }

  lemma DigitPair(s: seq<byte>, k: nat)
    requires 0 < k < 3 <= |s| && Unreserved(s[1]) && Unreserved(s[2])
    ensures |s[..k] + EncodeBytes(s[k..])| >= 3
    ensures (s[..k] + EncodeBytes(s[k..]))[3..] == EncodeBytes(s[3..])
  {
    assert s[2..][1..] == s[3..];
    assert EncodeBytes(s[2..]) == [s[2]] + EncodeBytes(s[3..]);
    if k == 1 {
      assert s[1..][1..] == s[2..];
      assert EncodeBytes(s[1..]) == [s[1]] + EncodeBytes(s[2..]);
    }
  }

  /**
   Decoding undoes encoding exactly when the part that is not encoded has no `+` and no
   triple begins in it.
   */
  lemma DecodeUndoesEncodeIff(s: seq<byte>, offset: nat)
    ensures Begin(s, offset) <= |s|
    ensures Decode(Encode(s, offset)) == s <==> Plain(s, Begin(s, offset))
  {
    hide Begin;
    BeginInBounds(s, offset);
    PrefixDecodes(s, Begin(s, offset));
  }

  /** In particular when it has neither `%` nor `+`. */
  lemma DecodeUndoesEncode(s: seq<byte>, offset: nat)
    requires offset > 0
    requires forall i | 0 <= i < offset && i < |s| :: s[i] != PERCENT && s[i] != PLUS
    ensures Decode(Encode(s, offset)) == s
  {
    var k := Begin(s, offset);
    assert Plain(s, k);
    DecodeUndoesEncodeIff(s, offset);
  }

  // ----- well encoded texts

  datatype Token = Byte(ch: byte) | Triple(high: byte, low: byte)

  predicate ValidToken(t: Token) {
    match t
    case Byte(ch) => Unreserved(ch)
    case Triple(h, l) => IsHex(h) && IsHex(l)
  }

  function Spell(ts: seq<Token>): seq<byte> {
    if ts == [] then []
    else (match ts[0] case Byte(ch) => [ch] case Triple(h, l) => [PERCENT, h, l]) + Spell(ts[1..])
  }

  predicate ValidTokens(ts: seq<Token>) {
    forall i | 0 <= i < |ts| :: ValidToken(ts[i])
  }

  /** `WellEncoded` is the grammar `(unreserved / "%" HEXDIG HEXDIG)*`. */
  lemma WellEncodedIff(t: seq<byte>)
    ensures WellEncoded(t) <==> exists ts :: ValidTokens(ts) && Spell(ts) == t
  {
    if WellEncoded(t) {
      var ts := Tokens(t);
    }
    forall ts | ValidTokens(ts)
      ensures WellEncoded(Spell(ts))
    {
      TokensAreWellEncoded(ts);
    }
  }

  lemma {:induction false} Tokens(t: seq<byte>) returns (ts: seq<Token>)
    requires WellEncoded(t)
    ensures ValidTokens(ts) && Spell(ts) == t
    decreases |t|
  {
    if t == [] {
      ts := [];
    } else if t[0] == PERCENT {
      var rest := Tokens(t[3..]);
      ts := [Triple(t[1], t[2])] + rest;
      assert ts[1..] == rest;
      assert t == [t[0], t[1], t[2]] + t[3..];
    } else {
      var rest := Tokens(t[1..]);
      ts := [Byte(t[0])] + rest;
      assert ts[1..] == rest;
    }
  }

  lemma {:induction false} TokensAreWellEncoded(ts: seq<Token>)
    requires ValidTokens(ts)
    ensures WellEncoded(Spell(ts))
    decreases |ts|
  {
    if ts != [] {
      TokensAreWellEncoded(ts[1..]);
      var t, rest := Spell(ts), Spell(ts[1..]);
      match ts[0]
      case Byte(ch) => assert t[1..] == rest;
      case Triple(h, l) => assert t[3..] == rest;
    }
  }

  // ----- the loops

  lemma DecodeAt(url: seq<byte>, i: nat)
    requires i < |url|
    ensures Decode(url[i..]) ==
      if TripleAt(url, i) then [HexValue(url[i + 1]) * 16 + HexValue(url[i + 2])] + Decode(url[i + 3..])
      else [if url[i] == PLUS then BLANK else url[i]] + Decode(url[i + 1..])
  {
    assert i + 3 <= |url| ==> url[i..][3..] == url[i + 3..];
    assert url[i..][1..] == url[i + 1..];
  }

  /** `r` is what has been decoded of `url` before `i`. */
  predicate Decoded(r: seq<byte>, url: seq<byte>, i: nat)
    requires i <= |url|
  {
    r + Decode(url[i..]) == Decode(url)
  }

  lemma DecodeMore(r: seq<byte>, url: seq<byte>, i: nat)
    requires i < |url| && Decoded(r, url, i)
    ensures if TripleAt(url, i) then Decoded(r + [HexValue(url[i + 1]) * 16 + HexValue(url[i + 2])], url, i + 3)
            else Decoded(r + [if url[i] == PLUS then BLANK else url[i]], url, i + 1)
  {
    DecodeAt(url, i);
    hide Decode;
    if TripleAt(url, i) {
      Associate(r, [HexValue(url[i + 1]) * 16 + HexValue(url[i + 2])], Decode(url[i + 3..]));
    } else {
      Associate(r, [if url[i] == PLUS then BLANK else url[i]], Decode(url[i + 1..]));
    }
  }

  lemma DecodedEnds(url: seq<byte>)
    ensures Decoded([], url, 0)
    ensures forall r :: Decoded(r, url, |url|) ==> r == Decode(url)
  {
    assert url[0..] == url && url[|url|..] == [];
    assert [] + Decode(url) == Decode(url);
    forall r | Decoded(r, url, |url|)
      ensures r == Decode(url)
    {
      assert r + [] == r;
    }
  }

  lemma Associate(u: seq<byte>, v: seq<byte>, w: seq<byte>)
    ensures u + (v + w) == u + v + w
  {
  }

  method UrlDecode(url: seq<byte>) returns (r: seq<byte>)
    ensures r == Decode(url)
  {
    hide Decode, Decoded;
    r := [];
    var i := 0;
    DecodedEnds(url);
    while i < |url|
      invariant i <= |url| && Decoded(r, url, i)
    {
      hide HexValue;
      var c := url[i];
      DecodeMore(r, url, i);
      if c == PERCENT {
        if i + 3 <= |url| {
          var h, l := HexValue(url[i + 1]), HexValue(url[i + 2]);
          if h >= 0 && l >= 0 {
            r := r + [h * 16 + l];
            i := i + 2;
          } else {
            r := r + [c];
          }
        } else {
          r := r + [c];
        }
      } else if c == PLUS {
        r := r + [BLANK];
      } else {
        r := r + [c];
      }
      i := i + 1;
    }
  }

  /** The position both functions begin at; without an offset the URL parser is asked. */
  method FindBegin(url: seq<byte>, offset: nat) returns (i: nat)
    ensures i == Begin(url, offset)
  {
    if offset != 0 {
      return if offset <= |url| then offset else |url|;
    }
    i := 0;
    var u := new HttpParserUrl();
    var result := u.ParseUrl(false, url);
    if result == 0 {
      if UfPath in u.fields {
        i := u.fields[UfPath].off + 1;
      } else if UfPort in u.fields {
        i := u.fields[UfPort].off + u.fields[UfPort].len;
      } else if UfHost in u.fields {
        i := u.fields[UfHost].off + u.fields[UfHost].len;
      }
    }
  }

  lemma EncodedByte(r: seq<byte>, c: byte)
    ensures Unreserved(c) ==> r + EncodeByte(c) == r + [c]
    ensures !Unreserved(c) ==> r + EncodeByte(c) == r + [PERCENT] + [HexDigit(c / 16)] + [HexDigit(c % 16)]
  {
  }

  method UrlEncode(url: seq<byte>, offset: nat) returns (r: seq<byte>)
    ensures r == Encode(url, offset)
  {
    hide Begin, EncodeByte;
    BeginInBounds(url, offset);
    var i := FindBegin(url, offset);
    r := url[..i];
    ghost var b := i;
    assert url[b..b] == [];
    while i < |url|
      invariant b <= i <= |url| && r == url[..b] + EncodeBytes(url[b..i])
    {
      var c := url[i];
      hide EncodeBytes;
      EncodeAppend(url[b..i], c);
      assert url[b..i + 1] == url[b..i] + [c];
      Associate(url[..b], EncodeBytes(url[b..i]), EncodeByte(c));
      EncodedByte(r, c);
      if Unreserved(c) {
        r := r + [c];
      } else {
        r := r + [PERCENT];
        r := r + [HexDigit(c / 16)];
        r := r + [HexDigit(c % 16)];
      }
      i := i + 1;
    }
    assert url[b..i] == url[b..];
  }

  method HasUnencodeChar(url: seq<byte>, offset: nat) returns (r: bool)
    ensures Begin(url, offset) <= |url|
    ensures r == !WellEncoded(url[Begin(url, offset)..])
  {
    hide Begin;
    BeginInBounds(url, offset);
    var i := FindBegin(url, offset);
    ghost var b := i;
    while i < |url|
      invariant b <= i <= |url| && (WellEncoded(url[i..]) <==> WellEncoded(url[b..]))
    {
      var c := url[i];
      ghost var rest := url[i..];
      if c == PERCENT {
        if i + 3 <= |url| {
          if !IsHex(url[i + 1]) || !IsHex(url[i + 2]) {
            return true;
          }
          i := i + 2;
          assert rest[3..] == url[i + 1..];
        } else {
          return true;
        }
      } else if !Unreserved(c) {
        return true;
      } else {
        assert rest[1..] == url[i + 1..];
      }
      i := i + 1;
    }
    r := false;
  }

  /** What was encoded from an offset on has nothing left to encode from there. */
  lemma EncodedHasNothingToEncode(s: seq<byte>, offset: nat)
    requires offset > 0
    ensures offset <= |s| ==> Begin(Encode(s, offset), offset) == offset
    ensures WellEncoded(Encode(s, offset)[Begin(Encode(s, offset), offset)..])
  {
    var k := Begin(s, offset);
    EncodedDecodes(s[k..]);
    var e := Encode(s, offset);
    if offset <= |s| {
      assert e[offset..] == EncodeBytes(s[offset..]);
    } else {
      assert s[|s|..] == [] && e == s;
    }
  }

  /** Left as they are, a plus sign reads as a space, and a triple as one byte. */
  lemma LeftUnencodedIsLost()
    ensures Decode(Encode([97, 43], 2)) != [97, 43]
    ensures Decode(Encode([97, 37, 52, 49], 2)) != [97, 37, 52, 49]
  {
    DecodeUndoesEncodeIff([97, 43], 2);
    DecodeUndoesEncodeIff([97, 37, 52, 49], 2);
    hide Decode, Encode;
    var plus: seq<byte>, triple: seq<byte> := [97, 43], [97, 37, 52, 49];
    assert plus[..2][1] == PLUS;
    assert TripleAt(triple, 1);
  }
}
