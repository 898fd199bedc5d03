/**
 Chunk sizes as they are written: the two alphabets of hexadecimal digits, the numerals
 over them, and bodies whose chunks carry the size of their data.
 */
module HttpHex {
  import opened Octets
  import opened HttpBody
  import opened HttpSplitting
  import opened HttpChunks
  import opened HttpChunkGrammar

  const UPPER := "0123456789ABCDEF"
  const LOWER := "0123456789abcdef"

  /** The byte is the digit `v`, in either case. */
  predicate IsDigit(ch: byte, v: nat)
    requires v < 16
  {
    ch as int == UPPER[v] as int || ch as int == LOWER[v] as int
  }

  /** What the table makes of a byte: the digit's value, a refusal, or 0 beyond the listed half. */
  lemma UnhexIs(ch: byte)
    ensures forall v: nat | v < 16 && IsDigit(ch, v) :: Unhex(ch) == v
    ensures ch < 128 && Unhex(ch) != -1 ==> IsDigit(ch, Unhex(ch))
    ensures ch < 128 && (forall v: nat | v < 16 :: !IsDigit(ch, v)) ==> Unhex(ch) == -1
    ensures ch >= 128 ==> Unhex(ch) == 0
  {
    assert |UPPER| == 16 && |LOWER| == 16;
    if ch < 128 && Unhex(ch) != -1 {
      DigitIsListed(ch);
    }
    forall v: nat | v < 16 && IsDigit(ch, v)
      ensures Unhex(ch) == v
    {
      ListedIsDigit(ch, v);
    }
  }

  lemma DigitIsListed(ch: byte)
    requires ch < 128 && Unhex(ch) != -1
    ensures IsDigit(ch, Unhex(ch))
  {
    var v := Unhex(ch);
    if ch <= 57 {
      assert forall i: nat | i < 10 :: UPPER[i] as int == 48 + i;
    } else if ch <= 70 {
      assert forall i: nat | 10 <= i < 16 :: UPPER[i] as int == 55 + i;
    } else {
      assert forall i: nat | 10 <= i < 16 :: LOWER[i] as int == 87 + i;
    }
  }

  lemma ListedIsDigit(ch: byte, v: nat)
    requires v < 16 && IsDigit(ch, v)
    ensures Unhex(ch) == v
  {
    if v < 10 {
      assert UPPER[v] as int == LOWER[v] as int == 48 + v;
    } else {
      assert UPPER[v] as int == 55 + v && LOWER[v] as int == 87 + v;
    }
  }

  /** The text is a numeral for `n`: digits of either case, the last one counting units. */
  predicate Spells(text: seq<byte>, n: nat)
    decreases |text|
  {
    && text != [] && IsDigit(text[|text| - 1], n % 16)
    && if |text| == 1 then n < 16 else Spells(text[..|text| - 1], n / 16)
  }

  /** How a number is written, in upper case and without leading zeros. */
  function Hex(n: nat): seq<byte> {
    (if n < 16 then [] else Hex(n / 16)) + [UPPER[n % 16] as int]
  }

  lemma {:induction false} HexSpells(n: nat)
    ensures Spells(Hex(n), n)
  {
    var text := Hex(n);
    if n >= 16 {
      HexSpells(n / 16);
      assert text[..|text| - 1] == Hex(n / 16);
    }
  }

  /** Leading zeros change nothing. */
  lemma {:induction false} ZeroSpells(text: seq<byte>, n: nat)
    requires Spells(text, n)
    ensures Spells([48] + text, n)
    decreases |text|
  {
    var more := [48] + text;
    assert more[|more| - 1] == text[|text| - 1];
    if |text| == 1 {
      assert more[..1] == [48] && n / 16 == 0;
      assert IsDigit(48, 0);
    } else {
      assert more[..|more| - 1] == [48] + text[..|text| - 1];
      ZeroSpells(text[..|text| - 1], n / 16);
    }
  }

  /** The parser's digits and their value are those of the numeral. */
  lemma {:induction false} SpelledValue(text: seq<byte>, n: nat)
    requires Spells(text, n)
    ensures Digits(text) && Value(text) == n
    decreases |text|
  {
    hide Unhex;
    var front, last := text[..|text| - 1], text[|text| - 1];
    UnhexIs(last);
    UnfoldValue(text);
    if |text| == 1 {
      EmptyValue(front);
    } else {
      SpelledValue(front, n / 16);
      forall i | 0 <= i < |text|
        ensures Unhex(text[i]) != -1
      {
        if i < |front| {
          assert text[i] == front[i];
        }
      }
    }
  }

  /** And the other way round, for text of bytes below 128. */
  lemma {:induction false} ValueSpells(text: seq<byte>)
    requires Digits(text) && forall i | 0 <= i < |text| :: text[i] < 128
    ensures Spells(text, Value(text))
    decreases |text|
  {
    hide Unhex, IsDigit, Value;
    var front, last := text[..|text| - 1], text[|text| - 1];
    UnhexIs(last);
    UnfoldValue(text);
    EmptyValue(front);
    LastDigit(Value(front), Digit(last));
    if |text| > 1 {
      ValueSpells(front);
    }
  }

  lemma LastDigit(v: nat, d: nat)
    requires d < 16
    ensures (v * 16 + d) % 16 == d && (v * 16 + d) / 16 == v
  {
  }

  lemma LargestSize()
    ensures Largest(16) == 0xFFFF_FFFF_FFFF_FFEF && MAX_HEADER_SIZE == 80 * 1024
  {
  }

  // ----- sizes

  /** A size in any spelling leaves that number to read; a larger one than fits is refused. */
  lemma SpelledSizeIsRead(s: Parser, text: seq<byte>, n: nat)
    requires Sound(s) && s.phase == ChunkSizeStart && s.errno == Good && Spells(text, n) && |text| <= 80 * 1024
    ensures n <= 0xFFFF_FFFF_FFFF_FFEF ==>
      Run(s, text).contentLength == n && Run(s, text).phase == ChunkSize && Run(s, text).errno == Good
    ensures n > 0xFFFF_FFFF_FFFF_FFEF ==> Run(s, text).errno == InvalidContentLength
  {
    hide *;
    SpelledValue(text, n);
    LargestSize();
    SizeIsRead(s, text);
    if n <= Largest(16) {
      AfterDigitsIs(s, text);
    }
  }

  lemma AfterDigitsIs(s: Parser, text: seq<byte>)
    requires Value(text) <= Largest(16)
    ensures var t := AfterDigits(s, text);
            t.contentLength == Value(text) && t.phase == ChunkSize && t.errno == s.errno
  {
    hide Value, Largest;
  }

  /** A byte below 128 that is no digit is no part of a size: it is refused, or ends it. */
  lemma NoDigitIsRefused(s: Parser, ch: byte)
    requires Sound(s) && s.errno == Good && s.nread < 80 * 1024
    requires ch < 128 && forall v: nat | v < 16 :: !IsDigit(ch, v)
    ensures s.phase == ChunkSizeStart ==> Step(s, ch).errno == InvalidChunkSize
    ensures s.phase == ChunkSize && ch !in {13, 32, 59} ==> Step(s, ch).errno == InvalidChunkSize
    ensures s.phase == ChunkSize && ch in {13, 32, 59} ==>
      Step(s, ch).errno == Good && Step(s, ch).contentLength == s.contentLength
      && Step(s, ch).phase == if ch == 13 then ChunkSizeAlmostDone else ChunkParameters
  {
    UnhexIs(ch);
    hide Unhex, IsDigit, ReadBodyByte;
  }

  /** A line end that is not CR and LF is refused; so are size lines of more than 80 KiB. */
  lemma LineEndsAreStrict(s: Parser, ch: byte)
    requires Sound(s) && s.errno == Good
    ensures s.phase == ChunkDataAlmostDone && ch != 13 ==> Step(s, ch).errno == Strict
    ensures s.phase == ChunkDataDone && ch != 10 ==> Step(s, ch).errno == Strict
    ensures s.phase == ChunkSizeAlmostDone && s.nread < 80 * 1024 && ch != 10 ==> Step(s, ch).errno == Strict
    ensures s.phase in {ChunkSize, ChunkParameters, ChunkSizeAlmostDone} && s.nread >= 80 * 1024 ==>
      Step(s, ch).errno == HeaderOverflow
  {
    hide Unhex, Accumulate, RoomFor;
  }

  // ----- bodies

  /** Data as the chunks of a body, each behind its size in hexadecimal. */
  function Written(datas: seq<seq<byte>>): seq<byte> {
    if datas == [] then []
    else
      var last := datas[|datas| - 1];
      Written(datas[..|datas| - 1]) + (Hex(|last|) + [13, 10] + last + [13, 10])
  }

  function Joined(datas: seq<seq<byte>>): seq<byte> {
    if datas == [] then [] else Joined(datas[..|datas| - 1]) + datas[|datas| - 1]
  }

  function AsChunks(datas: seq<seq<byte>>): (cs: seq<Chunk>)
    ensures |cs| == |datas|
  {
    seq(|datas|, i requires 0 <= i < |datas| => Chunk(Hex(|datas[i]|), [], datas[i]))
  }

  lemma {:induction false} WrittenIs(datas: seq<seq<byte>>)
    ensures EncodeChunks(AsChunks(datas)) == Written(datas) && Datas(AsChunks(datas)) == Joined(datas)
    decreases |datas|
  {
    if datas != [] {
      var front, last := datas[..|datas| - 1], datas[|datas| - 1];
      var cs := AsChunks(datas);
      assert cs[..|cs| - 1] == AsChunks(front);
      WrittenIs(front);
      assert Hex(|last|) + [] == Hex(|last|);
      assert EncodeChunk(cs[|cs| - 1]) == Hex(|last|) + [13, 10] + last + [13, 10];
    }
  }

  lemma {:induction false} HexIsShort(n: nat, bound: nat, k: nat)
    requires k > 0 && n < bound
    requires bound == Power(k)
    ensures |Hex(n)| <= k
    decreases k
  {
    if n >= 16 {
      assert k > 1;
      HexIsShort(n / 16, Power(k - 1), k - 1);
    }
  }

  function Power(k: nat): nat {
    if k == 0 then 1 else 16 * Power(k - 1)
  }

  lemma SizeFits(n: nat)
    requires n <= 0xFFFF_FFFF_FFFF_FFEF
    ensures SizeLine(Hex(n), []) && Value(Hex(n)) == n
  {
    HexSpells(n);
    SpelledValue(Hex(n), n);
    assert Power(4) == 0x1_0000;
    assert Power(8) == 0x1_0000_0000;
    assert Power(12) == 0x1_0000_0000_0000;
    assert Power(16) == 0x1_0000_0000_0000_0000;
    HexIsShort(n, Power(16), 16);
    LargestSize();
    hide Value, Digits, Hex, Largest;
  }

  /**
   Data written as chunks, closed by `0`, is read to the trailer and delivered in order,
   however many chunks it is cut into.
   */
  lemma WrittenIsRead(s: Parser, datas: seq<seq<byte>>)
    requires Between(s) && s.phase == ChunkSizeStart && s.errno == Good
    requires forall i | 0 <= i < |datas| :: 0 < |datas[i]| <= 0xFFFF_FFFF_FFFF_FFEF
    ensures ReachesTrailer(s, Written(datas) + [48, 13, 10])
    ensures Call(s, Written(datas) + [48, 13, 10]).delivered == s.delivered + Joined(datas)
  {
    hide Run, Step, Value, Hex, SizeLine, Largest;
    WrittenIs(datas);
    var cs := AsChunks(datas);
    forall i | 0 <= i < |cs|
      ensures ValidChunk(cs[i])
    {
      SizeFits(|datas[i]|);
    }
    SizeFits(0);
    HexOfNone();
    BodyIsRead(s, cs, [48], []);
    assert [48] + [] + CRLF == [48, 13, 10];
  }

  lemma HexOfNone()
    ensures Hex(0) == [48]
  {
  }
}
