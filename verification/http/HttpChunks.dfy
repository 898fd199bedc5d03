/**
 The chunked transfer coding (section 4.1 of RFC 7230): what the chunk states accept is
 exactly a sequence of chunks, and what they deliver is the chunks' data.
 */
module HttpChunks {
  import opened Octets
  import opened HttpBody
  import opened HttpSplitting

  /** A chunk as it is written: the spelling of its size, its extension and its data. */
  datatype Chunk = Chunk(size: seq<byte>, extension: seq<byte>, data: seq<byte>)

  const CRLF: seq<byte> := [CR, LF]

  /** The number a digit string spells, without any bound. */
  function Value(digits: seq<byte>): nat {
    if digits == [] then 0 else Value(digits[..|digits| - 1]) * 16 + Digit(digits[|digits| - 1])
  }

  function Digit(ch: byte): nat {
    if Unhex(ch) == -1 then 0 else Unhex(ch)
  }

  predicate Digits(text: seq<byte>) {
    text != [] && forall i | 0 <= i < |text| :: Unhex(text[i]) != -1
  }

  predicate IsExtension(text: seq<byte>) {
    text != [] ==> (text[0] == SEMICOLON || text[0] == SPACE) && CR !in text
  }

  /** A size line the parser has room for: its length and its number. */
  predicate SizeLine(size: seq<byte>, extension: seq<byte>) {
    Digits(size) && IsExtension(extension)
    && |size| + |extension| + 2 <= MAX_HEADER_SIZE && Value(size) <= Largest(16)
  }

  predicate ValidChunk(c: Chunk) {
    SizeLine(c.size, c.extension) && Value(c.size) == |c.data| > 0
  }

  predicate ValidChunks(cs: seq<Chunk>) {
    forall i | 0 <= i < |cs| :: ValidChunk(cs[i])
  }

  function EncodeChunk(c: Chunk): seq<byte> {
    c.size + c.extension + CRLF + c.data + CRLF
  }

  function EncodeChunks(cs: seq<Chunk>): seq<byte> {
    if cs == [] then [] else EncodeChunks(cs[..|cs| - 1]) + EncodeChunk(cs[|cs| - 1])
  }

  function Datas(cs: seq<Chunk>): seq<byte> {
    if cs == [] then [] else Datas(cs[..|cs| - 1]) + cs[|cs| - 1].data
  }

  // ----- reading what was written

  function AfterDigits(s: Parser, text: seq<byte>): Parser
    requires Value(text) <= Largest(16)
  {
    s.(phase := ChunkSize, contentLength := Value(text), nread := |text|, consumed := s.consumed + |text|)
  }

  lemma NextDigit(s: Parser, text: seq<byte>)
    requires Sound(s) && s.phase == ChunkSizeStart && s.errno == Good
    requires Digits(text) && |text| <= MAX_HEADER_SIZE
    requires |text| > 1 ==> Value(text[..|text| - 1]) <= Largest(16)
    ensures var front := text[..|text| - 1];
            var t := if front == [] then s else AfterDigits(s, front);
            && Sound(t)
            && (Value(text) <= Largest(16) ==> Step(t, text[|text| - 1]) == AfterDigits(s, text))
            && (Value(text) > Largest(16) ==> Step(t, text[|text| - 1]).errno == InvalidContentLength)
  {
    var front, ch := text[..|text| - 1], text[|text| - 1];
    assert Unhex(ch) != -1 && ch != CR && Digit(ch) == Unhex(ch);
    hide Value, Unhex, ReadBodyByte, Accumulate, RoomFor;
    UnfoldValue(text);
    if front == [] {
      EmptyValue(front);
    } else {
      AccumulateIsExact(Value(front), 16, Unhex(ch));
    }
  }

  lemma EmptyValue(text: seq<byte>)
    ensures text == [] ==> Value(text) == 0
  {
  }

  lemma UnfoldValue(text: seq<byte>)
    requires text != []
    ensures Value(text) == Value(text[..|text| - 1]) * 16 + Digit(text[|text| - 1])
    ensures Value(text[..|text| - 1]) <= Value(text)
  {
  }

  /** The chunk-size loop accepts a digit string exactly when its number is small enough. */
  lemma {:induction false} SizeIsRead(s: Parser, text: seq<byte>)
    requires Sound(s) && s.phase == ChunkSizeStart && s.errno == Good
    requires Digits(text) && |text| <= MAX_HEADER_SIZE
    ensures Value(text) <= Largest(16) ==> Run(s, text) == AfterDigits(s, text)
    ensures Value(text) > Largest(16) ==> Run(s, text).errno == InvalidContentLength
    decreases |text|
  {
    hide Step, Value;
    var front, ch := text[..|text| - 1], text[|text| - 1];
    if front == [] {
      assert Run(s, front) == s;
      NextDigit(s, text);
    } else {
      SizeIsRead(s, front);
      UnfoldValue(text);
      if Value(front) <= Largest(16) {
        NextDigit(s, text);
      } else {
        StepCounts(Run(s, front), text[|text| - 1]);
      }
    }
  }

  lemma {:induction false} ExtensionIsRead(t: Parser, text: seq<byte>)
    requires Sound(t) && t.phase == ChunkSize && t.errno == Good
    requires IsExtension(text) && t.nread + |text| <= MAX_HEADER_SIZE
    ensures Run(t, text) ==
              t.(phase := if text == [] then ChunkSize else ChunkParameters, nread := t.nread + |text|,
                 consumed := t.consumed + |text|)
    decreases |text|
  {
    if text != [] {
      var front, ch := text[..|text| - 1], text[|text| - 1];
      assert ch in text;
      ExtensionIsRead(t, front);
    }
  }

  function TakeBlock(t: Parser, data: seq<byte>): Parser
    requires |data| <= t.contentLength
  {
    var u := t.(contentLength := t.contentLength - |data|, held := t.held + data, consumed := t.consumed + |data|);
    if u.contentLength > 0 then u
    else if u.phase == ChunkData then u.(phase := ChunkDataAlmostDone)
    else HandOver(u.(phase := Complete))
  }

  /** A block of a chunk's data, or of an identity body, read a byte at a time. */
  lemma {:induction false} BlockIsRead(t: Parser, data: seq<byte>)
    requires Sound(t) && t.phase in {ChunkData, BodyIdentity} && t.errno == Good && |data| <= t.contentLength
    ensures Run(t, data) == TakeBlock(t, data)
    decreases |data|
  {
    if data != [] {
      var front, ch := data[..|data| - 1], data[|data| - 1];
      BlockIsRead(t, front);
      assert t.held + data == t.held + front + [ch];
    } else {
      assert t.held + data == t.held;
    }
  }

  /**
   An identity body of `contentLength` bytes: a call delivers what it is given of it, takes no
   more, and is done with its last byte.
   */
  lemma IdentityIsRead(s: Parser, data: seq<byte>, more: seq<byte>)
    requires Between(s) && s.phase == BodyIdentity && s.errno == Good
    requires |data| <= s.contentLength && (more != [] ==> |data| == s.contentLength)
    ensures var r := Call(s, data + more);
            && r.delivered == s.delivered + data && r.errno == Good && r.consumed == s.consumed + |data|
            && r.contentLength == s.contentLength - |data| && r.phase == if |data| == s.contentLength then Complete else BodyIdentity
  {
    hide *;
    BetweenIs(s);
    BlockIsRead(s, data);
    RunSplit(s, data, more);
    TakenIs(s, data);
    var t := TakeBlock(s, data);
    if |data| == s.contentLength {
      StoppedStays(t, more);
    } else {
      assert data + more == data;
    }
    CallIs(s, data + more);
  }

  lemma BetweenIs(s: Parser)
    requires Between(s)
    ensures Sound(s) && s.held == []
  {
  }

  lemma CallIs(s: Parser, data: seq<byte>)
    requires Between(s) && s.errno == Good
    ensures Run(s, data).errno == Good ==> Call(s, data) == HandOver(Run(s, data))
    ensures var r := HandOver(Run(s, data)); r == Run(s, data).(delivered := Run(s, data).delivered + Run(s, data).held, held := [])
  {
    hide Run;
  }

  lemma TakenIs(s: Parser, data: seq<byte>)
    requires s.held == [] && s.phase == BodyIdentity && s.errno == Good && |data| <= s.contentLength
    ensures var t := TakeBlock(s, data);
            && t.delivered + t.held == s.delivered + data && t.errno == Good && t.consumed == s.consumed + |data|
            && t.contentLength == s.contentLength - |data|
            && t.phase == (if |data| == s.contentLength then Complete else BodyIdentity)
            && (|data| == s.contentLength ==> Stopped(t))
  {
    assert [] + data == data;
  }

  lemma {:induction false} EofBlockIsRead(s: Parser, data: seq<byte>)
    requires Sound(s) && s.phase == BodyIdentityEof && s.errno == Good
    ensures Run(s, data) == s.(held := s.held + data, consumed := s.consumed + |data|)
    decreases |data|
  {
    if data == [] {
      assert s.held + [] == s.held;
    } else {
      var front, ch := data[..|data| - 1], data[|data| - 1];
      EofBlockIsRead(s, front);
      assert s.held + data == s.held + front + [ch];
    }
  }

  /** A body that ends with the connection: every call delivers all it is given. */
  lemma EofIsRead(s: Parser, data: seq<byte>)
    requires Between(s) && s.phase == BodyIdentityEof && s.errno == Good
    ensures Call(s, data) == s.(delivered := s.delivered + data, consumed := s.consumed + |data|)
  {
    EofBlockIsRead(s, data);
    hide Run, Step;
    assert [] + data == data;
  }

  lemma TwoBytes(s: Parser, a: byte, b: byte)
    requires Sound(s)
    ensures Sound(Step(s, a)) && Run(s, [a, b]) == Step(Step(s, a), b)
  {
    StepKeepsSound(s, a);
    assert [a, b][..1] == [a];
    assert Run(s, [a]) == Step(Run(s, []), a);
  }

  /** The end of a size line. */
  lemma LineEndIsRead(t: Parser)
    requires Sound(t) && t.phase in {ChunkSize, ChunkParameters} && t.errno == Good && t.nread + 2 <= MAX_HEADER_SIZE
    ensures Run(t, CRLF) ==
              t.(phase := if t.contentLength == 0 then Trailer else ChunkData, nread := 0, consumed := t.consumed + 2)
  {
    hide Run, ReadBodyByte;
    TwoBytes(t, CR, LF);
  }

  /** A size line is read whole. */
  lemma SizeLineIsRead(s: Parser, size: seq<byte>, extension: seq<byte>)
    requires Sound(s) && s.phase == ChunkSizeStart && s.errno == Good && SizeLine(size, extension)
    ensures Run(s, size + extension + CRLF) ==
              s.(phase := if Value(size) == 0 then Trailer else ChunkData, contentLength := Value(size),
                 consumed := s.consumed + |size| + |extension| + 2)
  {
    hide Run, Step, Value, Digits, IsExtension;
    SizeIsRead(s, size);
    var t := Run(s, size);
    ExtensionIsRead(t, extension);
    RunSplit(s, size, extension);
    RunSplit(s, size + extension, CRLF);
    LineEndIsRead(Run(t, extension));
  }

  /** A chunk is read whole and its data delivered. */
  lemma ChunkIsRead(s: Parser, c: Chunk)
    requires Between(s) && s.phase == ChunkSizeStart && s.errno == Good && ValidChunk(c)
    ensures Run(s, EncodeChunk(c)) ==
              s.(contentLength := 0, delivered := s.delivered + c.data, consumed := s.consumed + |EncodeChunk(c)|)
  {
    hide Run;
    var line := c.size + c.extension + CRLF;
    SizeLineIsRead(s, c.size, c.extension);
    var t := Run(s, line);
    RunSplit(s, line, c.data);
    BlockIsRead(t, c.data);
    assert t.held + c.data == c.data;
    RunSplit(s, line + c.data, CRLF);
    TwoBytes(Run(t, c.data), CR, LF);
  }

  function AfterChunks(s: Parser, cs: seq<Chunk>): Parser {
    s.(contentLength := if cs == [] then s.contentLength else 0, delivered := s.delivered + Datas(cs),
       consumed := s.consumed + |EncodeChunks(cs)|)
  }

  /** Reading undoes writing. */
  lemma {:induction false} ChunksAreRead(s: Parser, cs: seq<Chunk>)
    requires Between(s) && s.phase == ChunkSizeStart && s.errno == Good && ValidChunks(cs)
    ensures Run(s, EncodeChunks(cs)) == AfterChunks(s, cs)
    decreases |cs|
  {
    hide Run, Step, EncodeChunk, ValidChunk, SizeLine;
    if cs == [] {
      EmptyRun(s);
      assert s.delivered + [] == s.delivered;
    } else {
      var front, c := cs[..|cs| - 1], cs[|cs| - 1];
      ChunksAreRead(s, front);
      RunSplit(s, EncodeChunks(front), EncodeChunk(c));
      ChunkIsRead(AfterChunks(s, front), c);
      assert s.delivered + Datas(front) + c.data == s.delivered + (Datas(front) + c.data);
      assert |EncodeChunks(cs)| == |EncodeChunks(front)| + |EncodeChunk(c)|;
    }
  }

  lemma EmptyRun(s: Parser)
    requires Sound(s)
    ensures Run(s, []) == s
  {
  }

  /**
   An input on which cutting is seen: a chunk whose data is not followed by CR. One call
   drops the chunk's data; cut before the wrong byte, the first call delivers it.
   */
  lemma WrongChunkEnd(s: Parser)
    requires Between(s) && s.phase == ChunkSizeStart && s.errno == Good
    ensures FailsAtChunkEnd(s, [49, CR, LF, 97, 88])
    ensures Call(s, [49, CR, LF, 97, 88]).delivered == s.delivered
    ensures Calls(s, [[49, CR, LF, 97], [88]]).delivered == s.delivered + [97]
  {
    hide Run, Step;
    var line: seq<byte> := [49] + [] + CRLF;
    EmptyValue([]);
    UnfoldValue([49]);
    SizeLineIsRead(s, [49], []);
    var t := Run(s, line);
    RunSplit(s, line, [97]);
    BlockIsRead(t, [97]);
    var u := Run(s, line + [97]);
    WrongEndByte(u);
    WrongEndByte(HandOver(u));
    RunSplit(s, line + [97], [88]);
    assert line + [97] == [49, CR, LF, 97];
    assert line + [97] + [88] == [49, CR, LF, 97, 88];
    TwoCalls(s, [49, CR, LF, 97], [88]);
  }

  lemma WrongEndByte(u: Parser)
    requires Sound(u) && u.phase == ChunkDataAlmostDone && u.errno == Good
    ensures Run(u, [88]) == Fail(u, Strict)
  {
    assert Run(u, [88]) == Step(Run(u, []), 88);
  }
}
