/**
 The converse of reading chunks: whatever the chunk states accept was a chunked body.
 */
module HttpChunkGrammar {
  import opened Octets
  import opened HttpBody
  import opened HttpSplitting
  import opened HttpChunks

  /** The chunks read so far and what has been read of the next one. */
  datatype Reading = Reading(chunks: seq<Chunk>, size: seq<byte>, extension: seq<byte>, data: seq<byte>)

  /** The text of the unfinished chunk, by the state the parser has reached in it. */
  function Unfinished(x: Reading, phase: Phase): seq<byte> {
    match phase
    case ChunkSize => x.size
    case ChunkParameters => x.size + x.extension
    case ChunkSizeAlmostDone => x.size + x.extension + [CR]
    case ChunkData => x.size + x.extension + CRLF + x.data
    case ChunkDataAlmostDone => x.size + x.extension + CRLF + x.data
    case ChunkDataDone => x.size + x.extension + CRLF + x.data + [CR]
    case Trailer => x.size + x.extension + CRLF
    case _ => []
  }

  predicate SizeInProgress(x: Reading, r: Parser) {
    && Digits(x.size) && IsExtension(x.extension) && x.data == []
    && r.contentLength == Value(x.size) <= Largest(16)
    && r.nread <= MAX_HEADER_SIZE
  }

  /** The state fits the text read. */
  predicate Fits(x: Reading, r: Parser) {
    match r.phase
    case ChunkSizeStart => x.size == x.extension == x.data == [] && r.nread == 0
    case ChunkSize => SizeInProgress(x, r) && x.extension == [] && r.nread == |x.size|
    case ChunkParameters => SizeInProgress(x, r) && x.extension != [] && r.nread == |x.size| + |x.extension|
    case ChunkSizeAlmostDone => SizeInProgress(x, r) && r.nread == |x.size| + |x.extension| + 1
    case ChunkData => SizeLine(x.size, x.extension) && r.contentLength + |x.data| == Value(x.size)
    case ChunkDataAlmostDone => SizeLine(x.size, x.extension) && |x.data| == Value(x.size) > 0
    case ChunkDataDone => SizeLine(x.size, x.extension) && |x.data| == Value(x.size) > 0
    case Trailer => SizeLine(x.size, x.extension) && Value(x.size) == 0 && x.data == []
    case _ => false
  }

  /** The reading accounts for the text and for the bytes the body callback has or will have. */
  predicate Explains(x: Reading, s: Parser, r: Parser, text: seq<byte>) {
    && r.errno == Good && Fits(x, r)
    && ValidChunks(x.chunks)
    && text == EncodeChunks(x.chunks) + Unfinished(x, r.phase)
    && r.delivered + r.held == s.delivered + Datas(x.chunks) + x.data
  }

  function Finished(x: Reading): Chunk {
    Chunk(x.size, x.extension, x.data)
  }

  /** The reading after one more byte. */
  function Advance(x: Reading, phase: Phase, ch: byte): Reading {
    match phase
    case ChunkSizeStart => x.(size := [ch])
    case ChunkSize =>
      if ch == CR then x
      else if Unhex(ch) != -1 then x.(size := x.size + [ch])
      else x.(extension := [ch])
    case ChunkParameters => if ch == CR then x else x.(extension := x.extension + [ch])
    case ChunkData => x.(data := x.data + [ch])
    case ChunkDataDone => Reading(x.chunks + [Finished(x)], [], [], [])
    case _ => x
  }

  lemma SizeByteExplains(x: Reading, s: Parser, r: Parser, ch: byte)
    requires Sound(r) && !Stopped(r) && r.phase in {ChunkSizeStart, ChunkSize} && Step(r, ch).errno == Good
    requires r.errno == Good && Fits(x, r)
    ensures Fits(Advance(x, r.phase, ch), Step(r, ch))
    ensures Unfinished(Advance(x, r.phase, ch), Step(r, ch).phase) == Unfinished(x, r.phase) + [ch]
  {
    hide ReadBodyByte, Accumulate, RoomFor, Value;
    var y := Advance(x, r.phase, ch);
    if Unhex(ch) != -1 && ch != CR {
      assert y.size == x.size + [ch];
      assert y.size[..|y.size| - 1] == x.size;
      UnfoldValue(y.size);
      EmptyValue(x.size);
      AccumulateIsExact(Value(x.size) % M64, 16, Unhex(ch));
    }
  }

  lemma LineByteExplains(x: Reading, s: Parser, r: Parser, ch: byte)
    requires Sound(r) && !Stopped(r) && r.phase in {ChunkParameters, ChunkSizeAlmostDone} && Step(r, ch).errno == Good
    requires r.errno == Good && Fits(x, r)
    ensures Fits(Advance(x, r.phase, ch), Step(r, ch))
    ensures Unfinished(Advance(x, r.phase, ch), Step(r, ch).phase) == Unfinished(x, r.phase) + [ch]
  {
    hide Value;
    if r.phase == ChunkSizeAlmostDone {
      assert x.data == [];
      assert x.size + x.extension + CRLF + [] == x.size + x.extension + [CR] + [LF];
    }
  }

  lemma StepExplains(x: Reading, s: Parser, r: Parser, text: seq<byte>, ch: byte)
    requires Sound(s) && Sound(r) && !Stopped(r) && Step(r, ch).errno == Good
    requires Explains(x, s, r, text)
    ensures Explains(Advance(x, r.phase, ch), s, Step(r, ch), text + [ch])
  {
    hide Value;
    var y, t := Advance(x, r.phase, ch), Step(r, ch);
    if r.phase in {ChunkSizeStart, ChunkSize} {
      SizeByteExplains(x, s, r, ch);
    } else if r.phase in {ChunkParameters, ChunkSizeAlmostDone} {
      LineByteExplains(x, s, r, ch);
    } else if r.phase == ChunkDataDone {
      ChunkEndExplains(x, s, r, text, ch);
    } else {
      assert Unfinished(y, t.phase) == Unfinished(x, r.phase) + [ch];
      AppendByte(r.delivered, r.held, ch);
      AppendByte(s.delivered + Datas(x.chunks), x.data, ch);
      assert r.delivered + r.held + [] == r.delivered + r.held;
    }
    AppendByte(EncodeChunks(x.chunks), Unfinished(x, r.phase), ch);
  }

  lemma AppendByte(u: seq<byte>, v: seq<byte>, ch: byte)
    ensures u + v + [ch] == u + (v + [ch])
  {
  }

  lemma ChunkEndStep(r: Parser, ch: byte)
    requires Sound(r) && r.errno == Good && r.phase == ChunkDataDone && Step(r, ch).errno == Good
    ensures ch == LF
    ensures Step(r, ch) == r.(phase := ChunkSizeStart, nread := 0, consumed := r.consumed + 1)
  {
  }

  lemma ChunkEndExplains(x: Reading, s: Parser, r: Parser, text: seq<byte>, ch: byte)
    requires Sound(s) && Sound(r) && !Stopped(r) && r.phase == ChunkDataDone && Step(r, ch).errno == Good
    requires Explains(x, s, r, text)
    ensures Explains(Advance(x, r.phase, ch), s, Step(r, ch), text + [ch])
  {
    hide Value, SizeLine, Step, Run;
    ChunkEndStep(r, ch);
    var cs := x.chunks + [Finished(x)];
    assert cs[..|cs| - 1] == x.chunks;
    assert Unfinished(x, r.phase) + [ch] == EncodeChunk(Finished(x));
    assert text + [ch] == EncodeChunks(cs) + [];
  }

  lemma {:induction false} RunExplains(s: Parser, data: seq<byte>) returns (x: Reading)
    requires Between(s) && s.phase == ChunkSizeStart && s.errno == Good
    requires Run(s, data).errno == Good && Taken(s, data) == |data|
    ensures Explains(x, s, Run(s, data), data)
    decreases |data|
  {
    hide Step, EncodeChunks, Datas;
    if data == [] {
      x := Reading([], [], [], []);
      NoChunks(s);
    } else {
      var front, ch := data[..|data| - 1], data[|data| - 1];
      TakenIsPosition(s, front);
      StepCounts(Run(s, front), ch);
      var y := RunExplains(s, front);
      StepExplains(y, s, Run(s, front), front, ch);
      x := Advance(y, Run(s, front).phase, ch);
      assert front + [ch] == data;
    }
  }

  lemma NoChunks(s: Parser)
    ensures EncodeChunks([]) == [] && s.delivered + Datas([]) + [] == s.delivered
  {
  }

  /** A chunked body up to its trailer. */
  function EncodeBody(cs: seq<Chunk>, zero: seq<byte>, extension: seq<byte>): seq<byte> {
    EncodeChunks(cs) + (zero + extension + CRLF)
  }

  predicate ValidBody(cs: seq<Chunk>, zero: seq<byte>, extension: seq<byte>) {
    ValidChunks(cs) && SizeLine(zero, extension) && Value(zero) == 0
  }

  predicate ReachesTrailer(s: Parser, data: seq<byte>)
    requires Sound(s)
  {
    Run(s, data).errno == Good && Run(s, data).phase == Trailer && Taken(s, data) == |data|
  }

  /** Every chunked body is read to its trailer, and its chunks' data delivered in order. */
  lemma BodyIsRead(s: Parser, cs: seq<Chunk>, zero: seq<byte>, extension: seq<byte>)
    requires Between(s) && s.phase == ChunkSizeStart && s.errno == Good && ValidBody(cs, zero, extension)
    ensures ReachesTrailer(s, EncodeBody(cs, zero, extension))
    ensures Call(s, EncodeBody(cs, zero, extension)).delivered == s.delivered + Datas(cs)
  {
    hide Run, Step;
    ChunksAreRead(s, cs);
    RunSplit(s, EncodeChunks(cs), zero + extension + CRLF);
    SizeLineIsRead(AfterChunks(s, cs), zero, extension);
    assert s.delivered + Datas(cs) + [] == s.delivered + Datas(cs);
  }

  /** The inputs read exactly to the trailer are the chunked bodies. */
  lemma TrailerIff(s: Parser, data: seq<byte>)
    requires Between(s) && s.phase == ChunkSizeStart && s.errno == Good
    ensures ReachesTrailer(s, data) <==>
            exists cs, zero, extension :: ValidBody(cs, zero, extension) && data == EncodeBody(cs, zero, extension)
  {
    hide Run, Step;
    if ReachesTrailer(s, data) {
      var x := RunExplains(s, data);
      assert ValidBody(x.chunks, x.size, x.extension) && data == EncodeBody(x.chunks, x.size, x.extension);
    } else {
      forall cs, zero, extension | ValidBody(cs, zero, extension)
        ensures data != EncodeBody(cs, zero, extension)
      {
        BodyIsRead(s, cs, zero, extension);
      }
    }
  }
}
