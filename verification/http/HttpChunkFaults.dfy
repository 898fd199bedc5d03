/**
 Which texts make the parser fail behind a chunk's data, told from the text alone, and so
 for which texts cutting the input can be seen.
 */
module HttpChunkFaults {
  import opened Octets
  import opened HttpBody
  import opened HttpSplitting
  import opened HttpChunks
  import opened HttpChunkGrammar

  // ----- from the start of a chunk

  /** Whole chunks, then one whose data is followed by another byte than CR. */
  ghost predicate WrongAt(data: seq<byte>, cs: seq<Chunk>, size: seq<byte>, extension: seq<byte>, d: seq<byte>,
                          ch: byte, rest: seq<byte>) {
    && ValidChunks(cs) && SizeLine(size, extension) && Value(size) == |d| > 0 && ch != CR
    && data == EncodeChunks(cs) + (size + extension + CRLF) + d + [ch] + rest
  }

  ghost predicate Wrong(data: seq<byte>) {
    exists cs, size, extension, d, ch, rest :: WrongAt(data, cs, size, extension, d, ch, rest)
  }

  /** The run ends on the byte behind a chunk's data. */
  predicate EndsWrong(s: Parser, data: seq<byte>)
    requires Sound(s)
  {
    Run(s, data).errno != Good && Run(s, data).phase == ChunkDataAlmostDone
  }

  /** Unless it stood there already, the parser has taken bytes before it fails there. */
  lemma FailsIfEndsWrong(s: Parser, data: seq<byte>)
    requires Sound(s) && s.errno == Good
    ensures s.phase != ChunkDataAlmostDone ==> (FailsAtChunkEnd(s, data) <==> EndsWrong(s, data))
    ensures FailsAtChunkEnd(s, data) ==> EndsWrong(s, data)
  {
    hide Step, Sound;
    if EndsWrong(s, data) {
      TakenIsPosition(s, data);
      if Taken(s, data) == 0 {
        assert data[..0] == [];
        EmptyRun(s);
        StepCounts(s, data[0]);
      }
    }
  }

  lemma FailingByte(t: Parser, ch: byte)
    requires Sound(t) && t.errno == Good && t.phase == ChunkDataAlmostDone
    ensures ch != CR <==> Step(t, ch).errno != Good
    ensures ch != CR ==> Step(t, ch) == Fail(t, Strict)
    ensures ch == CR ==> Step(t, ch) == HandOver(t.(phase := ChunkDataDone, consumed := t.consumed + 1))
  {
  }

  lemma OneByte(s: Parser, ch: byte)
    requires Sound(s)
    ensures Run(s, [ch]) == Step(s, ch)
  {
    assert Run(s, [ch]) == Step(Run(s, []), ch);
  }

  lemma FailsThenStays(s: Parser, u: seq<byte>, ch: byte, rest: seq<byte>)
    requires Sound(s) && Run(s, u).errno == Good && Run(s, u).phase == ChunkDataAlmostDone && ch != CR
    ensures EndsWrong(s, u + [ch] + rest)
  {
    hide Run, Step;
    var t := Run(s, u);
    FailingByte(t, ch);
    OneByte(t, ch);
    RunSplit(s, u, [ch]);
    RunSplit(s, u + [ch], rest);
    StoppedStays(Fail(t, Strict), rest);
  }

  lemma WrongFails(s: Parser, data: seq<byte>, cs: seq<Chunk>, size: seq<byte>, extension: seq<byte>, d: seq<byte>,
                   ch: byte, rest: seq<byte>)
    requires Between(s) && s.phase == ChunkSizeStart && s.errno == Good
    requires WrongAt(data, cs, size, extension, d, ch, rest)
    ensures EndsWrong(s, data)
  {
    hide Run, Step, EncodeChunks, SizeLine, ValidChunks;
    var line := size + extension + CRLF;
    ChunksAreRead(s, cs);
    RunSplit(s, EncodeChunks(cs), line);
    SizeLineIsRead(AfterChunks(s, cs), size, extension);
    RunSplit(s, EncodeChunks(cs) + line, d);
    BlockIsRead(Run(s, EncodeChunks(cs) + line), d);
    FailsThenStays(s, EncodeChunks(cs) + line + d, ch, rest);
  }

  lemma FailsWrong(s: Parser, data: seq<byte>)
    requires Between(s) && s.phase == ChunkSizeStart && s.errno == Good && EndsWrong(s, data)
    ensures Wrong(data)
  {
    hide Run, Step, EncodeChunks, Datas;
    TakenIsPosition(s, data);
    var k := Taken(s, data);
    var u := data[..k];
    var t := Run(s, u);
    TakenIsPosition(s, u);
    StepCounts(t, data[k]);
    FailingByte(t, data[k]);
    var x := RunExplains(s, u);
    assert data == u + [data[k]] + data[k + 1..];
    assert EncodeChunks(x.chunks) + (x.size + x.extension + CRLF + x.data)
        == EncodeChunks(x.chunks) + (x.size + x.extension + CRLF) + x.data;
    assert WrongAt(data, x.chunks, x.size, x.extension, x.data, data[k], data[k + 1..]);
  }

  /** From the start of a chunk the parser fails so on exactly the wrong texts. */
  lemma StartFailsIff(s: Parser, data: seq<byte>)
    requires Between(s) && s.phase == ChunkSizeStart && s.errno == Good
    ensures FailsAtChunkEnd(s, data) <==>
      exists cs, size, extension, d, ch, rest :: WrongAt(data, cs, size, extension, d, ch, rest)
  {
    hide Run, FailsAtChunkEnd, WrongAt;
    FailsIfEndsWrong(s, data);
    if EndsWrong(s, data) {
      FailsWrong(s, data);
    } else {
      forall cs, size, extension, d, ch, rest
        ensures !WrongAt(data, cs, size, extension, d, ch, rest)
      {
        if WrongAt(data, cs, size, extension, d, ch, rest) {
          WrongFails(s, data, cs, size, extension, d, ch, rest);
        }
      }
    }
  }

  // ----- from inside a chunk

  lemma StartEndsIff(s: Parser, data: seq<byte>)
    requires Sound(s) && s.phase == ChunkSizeStart && s.errno == Good
    ensures EndsWrong(s, data) <==> Wrong(data)
  {
    FailsIfEndsWrong(s, data);
    StartFailsIff(s, data);
  }

  lemma FirstByte(s: Parser, data: seq<byte>)
    requires Sound(s) && data != []
    ensures Sound(Step(s, data[0])) && Run(s, data) == Run(Step(s, data[0]), data[1..])
  {
    StepKeepsSound(s, data[0]);
    hide Run, Step, Sound;
    OneByte(s, data[0]);
    assert data == [data[0]] + data[1..];
    RunSplit(s, [data[0]], data[1..]);
  }

  /** Behind the CR: LF, and from the next chunk on a wrong text. */
  ghost predicate WrongAfterCr(data: seq<byte>) {
    data != [] && data[0] == LF && Wrong(data[1..])
  }

  lemma AfterCrIff(s: Parser, data: seq<byte>)
    requires Sound(s) && s.phase == ChunkDataDone && s.errno == Good
    ensures EndsWrong(s, data) <==> WrongAfterCr(data)
  {
    if data == [] {
      EmptyRun(s);
    } else {
      FirstByte(s, data);
      var t := Step(s, data[0]);
      if data[0] == LF {
        StartEndsIff(t, data[1..]);
      } else {
        StoppedStays(t, data[1..]);
      }
    }
  }

  /** Behind the data: another byte than CR, or CR and a wrong text. */
  ghost predicate WrongAfterData(data: seq<byte>) {
    data != [] && (data[0] != CR || WrongAfterCr(data[1..]))
  }

  lemma AfterDataIff(s: Parser, data: seq<byte>)
    requires Sound(s) && s.phase == ChunkDataAlmostDone && s.errno == Good
    ensures EndsWrong(s, data) <==> WrongAfterData(data)
    ensures FailsAtChunkEnd(s, data) <==> data != [] && data[0] == CR && WrongAfterCr(data[1..])
  {
    hide WrongAfterCr;
    if data == [] {
      EmptyRun(s);
    } else {
      hide Run, Step;
      FirstByte(s, data);
      FailingByte(s, data[0]);
      var t := Step(s, data[0]);
      if data[0] == CR {
        AfterCrIff(t, data[1..]);
        TakenIsPosition(t, data[1..]);
      } else {
        StoppedStays(t, data[1..]);
      }
    }
  }

  /** With `n` bytes of a chunk's data still to come: those, then what is wrong behind them. */
  ghost predicate WrongBlock(data: seq<byte>, n: nat) {
    |data| > n && WrongAfterData(data[n..])
  }

  /** Inside a chunk's data the parser fails so exactly if the text goes wrong behind it. */
  lemma BlockFailsIff(s: Parser, data: seq<byte>)
    requires Sound(s) && s.phase == ChunkData && s.errno == Good
    ensures EndsWrong(s, data) <==> WrongBlock(data, s.contentLength)
    ensures FailsAtChunkEnd(s, data) <==> WrongBlock(data, s.contentLength)
  {
    hide Run, WrongAfterData, FailsAtChunkEnd;
    FailsIfEndsWrong(s, data);
    var n := s.contentLength;
    if |data| <= n {
      BlockIsRead(s, data);
    } else {
      BlockIsRead(s, data[..n]);
      assert data == data[..n] + data[n..];
      RunSplit(s, data[..n], data[n..]);
      AfterDataIff(Run(s, data[..n]), data[n..]);
    }
  }

  // ----- from inside a size line

  /** A number read so far, and more digits. */
  function ValueFrom(value: nat, digits: seq<byte>): nat
    decreases |digits|
  {
    if digits == [] then value else ValueFrom(value * 16 + Digit(digits[0]), digits[1..])
  }

  lemma {:induction false} ValueGrows(value: nat, digits: seq<byte>)
    ensures value <= ValueFrom(value, digits)
    decreases |digits|
  {
    if digits != [] {
      ValueGrows(value * 16 + Digit(digits[0]), digits[1..]);
    }
  }

  predicate AllDigits(text: seq<byte>) {
    forall i | 0 <= i < |text| :: Unhex(text[i]) != -1
  }

  /** The rest of a size line of which digits have been read. */
  ghost predicate SizeRest(s: Parser, front: seq<byte>, n: nat, more: seq<byte>, extension: seq<byte>) {
    && AllDigits(more) && IsExtension(extension) && front == more + extension + CRLF
    && n == ValueFrom(s.contentLength, more) && (more != [] ==> n <= Largest(16))
  }

  /** `front` ends the size line the parser is in, and `n` bytes of data follow. */
  ghost predicate Opens(s: Parser, front: seq<byte>, n: nat) {
    && n > 0 && (InHeader(s.phase) ==> s.nread + |front| <= MAX_HEADER_SIZE)
    && match s.phase
       case ChunkSize => exists more, extension :: SizeRest(s, front, n, more, extension)
       case ChunkParameters => n == s.contentLength && exists extension :: CR !in extension && front == extension + CRLF
       case ChunkSizeAlmostDone => front == [LF] && n == s.contentLength
       case ChunkData => front == [] && n == s.contentLength
       case _ => false
  }

  /** One byte of a size line: the rest opens the chunk exactly if the whole did. */
  lemma LineByteOpens(s: Parser, front: seq<byte>, n: nat)
    requires Sound(s) && s.errno == Good && s.phase in {ChunkParameters, ChunkSizeAlmostDone} && front != []
    ensures Opens(s, front, n) <==> Step(s, front[0]).errno == Good && Opens(Step(s, front[0]), front[1..], n)
  {
    var t, tail := Step(s, front[0]), front[1..];
    if s.phase == ChunkParameters {
      if Opens(s, front, n) {
        var extension :| CR !in extension && front == extension + CRLF;
        if extension == [] {
          assert tail == [LF];
        } else {
          assert tail == extension[1..] + CRLF;
        }
      }
      if t.errno == Good && Opens(t, tail, n) {
        if front[0] == CR {
          assert front == [] + CRLF;
        } else {
          var extension :| CR !in extension && tail == extension + CRLF;
          assert front == ([front[0]] + extension) + CRLF;
        }
      }
    } else {
      assert front == [LF] <==> front[0] == LF && tail == [];
    }
  }

  /** What a byte in the size does. */
  lemma SizeByteIs(s: Parser, ch: byte)
    requires Sound(s) && s.errno == Good && s.phase == ChunkSize
    ensures Step(s, ch).errno == Good ==>
      && s.nread < MAX_HEADER_SIZE && Step(s, ch).nread == s.nread + 1
      && (Step(s, ch).phase == ChunkSizeAlmostDone <==> ch == CR)
      && (Step(s, ch).phase == ChunkParameters <==> ch in {SEMICOLON, SPACE})
      && (Step(s, ch).phase == ChunkSize <==> Unhex(ch) != -1)
      && Step(s, ch).phase in {ChunkSize, ChunkParameters, ChunkSizeAlmostDone}
      && (Unhex(ch) == -1 ==> Step(s, ch).contentLength == s.contentLength)
      && (Unhex(ch) != -1 ==> Step(s, ch).contentLength == s.contentLength * 16 + Digit(ch) <= Largest(16))
    ensures
      (&& s.nread < MAX_HEADER_SIZE && (ch in {CR, SEMICOLON, SPACE} || Unhex(ch) != -1)
       && (Unhex(ch) != -1 ==> s.contentLength * 16 + Digit(ch) <= Largest(16)))
      ==> Step(s, ch).errno == Good
  {
    hide Accumulate, RoomFor;
    if Unhex(ch) != -1 {
      AccumulateIsExact(s.contentLength, 16, Unhex(ch));
    }
  }

  lemma SizeByteOpens(s: Parser, front: seq<byte>, n: nat)
    requires Sound(s) && s.errno == Good && s.phase == ChunkSize && front != []
    requires Opens(s, front, n)
    ensures Step(s, front[0]).errno == Good && Opens(Step(s, front[0]), front[1..], n)
  {
    hide Step, Unhex, Digit;
    var ch, t, tail := front[0], Step(s, front[0]), front[1..];
    SizeByteIs(s, ch);
    CodesOf();
    var more, extension :| SizeRest(s, front, n, more, extension);
    if more != [] {
      ValueGrows(s.contentLength * 16 + Digit(ch), more[1..]);
      assert tail == more[1..] + extension + CRLF;
      assert SizeRest(t, tail, n, more[1..], extension);
    } else if extension != [] {
      assert tail == extension[1..] + CRLF;
    } else {
      assert front == CRLF && tail == [LF];
    }
  }

  lemma CodesOf()
    ensures Unhex(CR) == Unhex(SEMICOLON) == Unhex(SPACE) == -1
  {
  }

  lemma SizeByteOpened(s: Parser, front: seq<byte>, n: nat)
    requires Sound(s) && s.errno == Good && s.phase == ChunkSize && front != []
    requires Step(s, front[0]).errno == Good && Opens(Step(s, front[0]), front[1..], n)
    ensures Opens(s, front, n)
  {
    hide Step, Unhex, Digit;
    var ch, t, tail := front[0], Step(s, front[0]), front[1..];
    SizeByteIs(s, ch);
    CodesOf();
    if t.phase == ChunkSize {
      var more, extension :| SizeRest(t, tail, n, more, extension);
      var all := [ch] + more;
      assert all[1..] == more && front == all + extension + CRLF;
      assert SizeRest(s, front, n, all, extension);
    } else if t.phase == ChunkParameters {
      var extension :| CR !in extension && tail == extension + CRLF;
      assert front == [] + ([ch] + extension) + CRLF;
      assert SizeRest(s, front, n, [], [ch] + extension);
    } else {
      assert front == [] + [] + CRLF;
      assert SizeRest(s, front, n, [], []);
    }
  }

  predicate InSizeLine(phase: Phase) {
    phase in {ChunkSize, ChunkParameters, ChunkSizeAlmostDone}
  }

  lemma ByteOpens(s: Parser, front: seq<byte>, n: nat)
    requires Sound(s) && s.errno == Good && InSizeLine(s.phase) && front != []
    ensures Opens(s, front, n) <==> Step(s, front[0]).errno == Good && Opens(Step(s, front[0]), front[1..], n)
  {
    hide Step, Opens, Sound;
    if s.phase != ChunkSize {
      LineByteOpens(s, front, n);
    } else if Opens(s, front, n) {
      SizeByteOpens(s, front, n);
    } else if Step(s, front[0]).errno == Good && Opens(Step(s, front[0]), front[1..], n) {
      SizeByteOpened(s, front, n);
    }
  }

  /** The rest of a size line leads into the chunk's data. */
  lemma {:induction false} OpeningIsRead(s: Parser, front: seq<byte>, n: nat)
    requires Sound(s) && s.errno == Good && Opens(s, front, n)
    ensures var t := Run(s, front); t.errno == Good && t.phase == ChunkData && t.contentLength == n
    decreases |front|
  {
    hide Step, Run;
    if s.phase == ChunkData {
      EmptyRun(s);
    } else {
      FirstByte(s, front);
      ByteOpens(s, front, n);
      OpeningIsRead(Step(s, front[0]), front[1..], n);
    }
  }

  /** The rest of a size line, and behind it what is wrong. */
  ghost predicate WrongChunk(s: Parser, data: seq<byte>, front: seq<byte>, n: nat) {
    Opens(s, front, n) && front <= data && WrongBlock(data[|front|..], n)
  }

  lemma WrongChunkFails(s: Parser, data: seq<byte>, front: seq<byte>, n: nat)
    requires Sound(s) && s.errno == Good && WrongChunk(s, data, front, n)
    ensures EndsWrong(s, data)
  {
    hide Step, Run, Opens, WrongBlock;
    OpeningIsRead(s, front, n);
    assert data == front + data[|front|..];
    RunSplit(s, front, data[|front|..]);
    BlockFailsIff(Run(s, front), data[|front|..]);
  }

  /** Where there is no chunk to come the run does not end so. */
  lemma {:induction false} NoChunkToCome(s: Parser, data: seq<byte>)
    requires Sound(s) && s.errno == Good && s.phase in {BodyIdentity, BodyIdentityEof, Trailer, Complete}
    ensures Run(s, data).errno == Good && Run(s, data).phase in {BodyIdentity, BodyIdentityEof, Trailer, Complete}
    decreases |data|
  {
    if data != [] {
      NoChunkToCome(s, data[..|data| - 1]);
    }
  }

  lemma {:induction false} FailsInChunk(s: Parser, data: seq<byte>) returns (front: seq<byte>, n: nat)
    requires Sound(s) && s.errno == Good && (InSizeLine(s.phase) || s.phase == ChunkData) && EndsWrong(s, data)
    ensures WrongChunk(s, data, front, n)
    decreases |data|
  {
    hide Step, Run, Opens, WrongBlock;
    if s.phase == ChunkData {
      front, n := [], s.contentLength;
      BlockFailsIff(s, data);
      assert data[0..] == data;
      DataOpens(s);
    } else {
      NotEmpty(s, data);
      FirstByte(s, data);
      var t := Step(s, data[0]);
      LineByteLeads(s, data[0]);
      if t.errno != Good {
        StoppedStays(t, data[1..]);
      } else if t.phase == Trailer {
        NoChunkToCome(t, data[1..]);
      }
      front, n := FailsInChunk(t, data[1..]);
      front := [data[0]] + front;
      assert front[1..] == front[1..] && front[0] == data[0];
      ByteOpens(s, front, n);
      assert data[1..][|front| - 1..] == data[|front|..];
    }
  }

  lemma DataOpens(s: Parser)
    requires Sound(s) && s.errno == Good && s.phase == ChunkData
    ensures Opens(s, [], s.contentLength)
  {
  }

  lemma NotEmpty(s: Parser, data: seq<byte>)
    requires Sound(s) && s.errno == Good && EndsWrong(s, data)
    ensures data != []
  {
  }

  lemma LineByteLeads(s: Parser, ch: byte)
    requires Sound(s) && s.errno == Good && InSizeLine(s.phase)
    ensures Step(s, ch).errno == Good ==> InSizeLine(Step(s, ch).phase) || Step(s, ch).phase in {ChunkData, Trailer}
    ensures Step(s, ch).errno != Good ==> Step(s, ch).phase == s.phase
  {
    hide Unhex, RoomFor, Accumulate;
  }

  // ----- every state

  /**
   The texts that go wrong behind a chunk's data, from any state: the rest of what the
   parser is in, whole chunks, and a chunk whose data is not followed by CR.
   */
  ghost predicate Faulty(s: Parser, data: seq<byte>) {
    match s.phase
    case ChunkSizeStart => Wrong(data)
    case ChunkSize | ChunkParameters | ChunkSizeAlmostDone => exists front, n :: WrongChunk(s, data, front, n)
    case ChunkData => WrongBlock(data, s.contentLength)
    case ChunkDataAlmostDone => data != [] && data[0] == CR && WrongAfterCr(data[1..])
    case ChunkDataDone => WrongAfterCr(data)
    case _ => false
  }

  lemma FailsIffFaulty(s: Parser, data: seq<byte>)
    requires Between(s) && s.errno == Good
    ensures FailsAtChunkEnd(s, data) <==> Faulty(s, data)
  {
    hide Run, WrongChunk, WrongBlock, WrongAfterCr, Wrong, FailsAtChunkEnd;
    FailsIfEndsWrong(s, data);
    match s.phase
    case ChunkSizeStart => StartEndsIff(s, data);
    case ChunkData => BlockFailsIff(s, data);
    case ChunkDataAlmostDone => AfterDataIff(s, data);
    case ChunkDataDone => AfterCrIff(s, data);
    case ChunkSize | ChunkParameters | ChunkSizeAlmostDone =>
      if EndsWrong(s, data) {
        var front, n := FailsInChunk(s, data);
      } else {
        forall front, n: nat
          ensures !WrongChunk(s, data, front, n)
        {
          if WrongChunk(s, data, front, n) {
            WrongChunkFails(s, data, front, n);
          }
        }
      }
    case _ => NoChunkToCome(s, data);
  }

  /** Cutting is invisible to the body callback exactly on the texts that are not faulty. */
  lemma CutsAgreeIff(s: Parser, data: seq<byte>)
    requires Between(s) && s.errno == Good
    ensures (forall pieces | Cuts(pieces, data) :: Calls(s, pieces) == Call(s, data)) <==> !Faulty(s, data)
  {
    hide Faulty, FailsAtChunkEnd, Cuts, Calls, Call;
    FailsIffFaulty(s, data);
    CutsAgreeUnlessFailing(s, data);
  }

  /** The body of a message without chunks may be cut anywhere. */
  lemma IdentityCutsAgree(s: Parser, pieces: seq<seq<byte>>)
    requires Between(s) && s.errno == Good && s.phase in {BodyIdentity, BodyIdentityEof}
    requires forall i | 0 <= i < |pieces| :: pieces[i] != []
    ensures Calls(s, pieces) == Call(s, Concat(pieces))
  {
    hide Calls, Call;
    CutsAgreeIff(s, Concat(pieces));
    assert Cuts(pieces, Concat(pieces));
  }
}
