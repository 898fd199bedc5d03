/**
 The body states of `http_parser_execute` as they run: the fields are updated in place, and
 body data is skipped over a block at a time.
 */
module HttpParser {
  import opened Octets
  import opened HttpBody
  import opened HttpSplitting
  import opened HttpChunks

  /** The machine after a prefix of the input decides what it is after one byte more. */
  lemma NextByte(s: Parser, data: seq<byte>, p: nat)
    requires Sound(s) && p < |data|
    ensures Run(s, data[..p + 1]) == Step(Run(s, data[..p]), data[p])
  {
    assert data[..p + 1][..p] == data[..p];
  }

  lemma NextBlock(s: Parser, data: seq<byte>, p: nat, q: nat)
    requires Sound(s) && p <= q <= |data|
    ensures Run(s, data[..q]) == Run(Run(s, data[..p]), data[p..q])
  {
    hide Run, Step;
    RunSplit(s, data[..p], data[p..q]);
    assert data[..p] + data[p..q] == data[..q];
  }

  /** Once the machine has stopped, the rest of the input changes nothing. */
  lemma RestIsIgnored(s: Parser, data: seq<byte>, p: nat)
    requires Sound(s) && p <= |data| && Stopped(Run(s, data[..p]))
    ensures Run(s, data) == Run(s, data[..p])
  {
    hide Step, Run;
    NextBlock(s, data, p, |data|);
    assert data[..|data|] == data;
    StoppedStays(Run(s, data[..p]), data[p..]);
  }

  class Execution {
    var phase: Phase
    var errno: Errno
    var contentLength: u64
    var nread: nat

    /** Everything the body callback has been called with. */
    var delivered: seq<byte>

    /** The state in the terms of the specification, after `consumed` bytes of this call. */
    function State(held: seq<byte>, consumed: nat): Parser
      reads this
    {
      Parser(phase, errno, contentLength, nread, delivered, held, consumed)
    }

    /** A state of the chunk header: the byte is taken unless the machine fails on it. */
    method HeaderByte(ch: byte, ghost p: nat)
      requires InHeader(phase) && errno == Good && Sound(State([], p))
      modifies `phase, `errno, `contentLength, `nread
      ensures State([], if errno == Good then p + 1 else p) == Step(old(State([], p)), ch)
    {
      nread := nread + 1;
      if nread > MAX_HEADER_SIZE {
        errno := HeaderOverflow;
        return;
      }
      match phase
      case ChunkSizeStart =>
        assert nread == 1;
        var digit := Unhex(ch);
        if digit == -1 {
          errno := InvalidChunkSize;
          return;
        }
        contentLength := digit;
        phase := ChunkSize;
      case ChunkSize =>
        SizeByte(ch, p);
      case ChunkParameters =>
        if ch == CR {
          phase := ChunkSizeAlmostDone;
        }
      case ChunkSizeAlmostDone =>
        if ch != LF {
          errno := Strict;
          return;
        }
        nread := 0;
        phase := if contentLength == 0 then Trailer else ChunkData;
    }

    method SizeByte(ch: byte, ghost p: nat)
      requires phase == ChunkSize && errno == Good
      modifies `phase, `errno, `contentLength
      ensures State([], if errno == Good then p + 1 else p) == ReadChunkSize(old(State([], p)), ch)
    {
      if ch == CR {
        phase := ChunkSizeAlmostDone;
        return;
      }
      var digit := Unhex(ch);
      if digit == -1 {
        if ch == SEMICOLON || ch == SPACE {
          phase := ChunkParameters;
        } else {
          errno := InvalidChunkSize;
        }
        return;
      }
      var t := contentLength * 16 % M64;
      t := (t + digit) % M64;
      if (ABSENT - 16) / 16 < contentLength {
        errno := InvalidContentLength;
        return;
      }
      contentLength := t;
    }

    /**
     A state with body data: as much of the input as the content length allows is skipped
     at once. `p` moves past the block and `mark` is where the body data not yet handed to
     the callback begins.
     */
    method BodyBlock(data: seq<byte>, start: nat, marked: int) returns (p: nat, mark: int)
      requires phase in {ChunkData, BodyIdentity} && errno == Good
      requires start < |data| && marked < start && Sound(State(Held(data, marked, start), start))
      modifies `phase, `contentLength, `delivered
      ensures start < p <= |data| && mark < p
      ensures State(Held(data, mark, p), p) == Run(old(State(Held(data, marked, start), start)), data[start..p])
    {
      hide Run, Step;
      ghost var before := State(Held(data, marked, start), start);
      assert 0 < contentLength < ABSENT;
      var toRead := if contentLength <= |data| - start then contentLength else |data| - start;
      mark := if marked < 0 then start else marked;
      contentLength := contentLength - toRead;
      p := start + toRead;
      BlockIsRead(before, data[start..p]);
      assert before.held + data[start..p] == data[mark..p];
      if contentLength == 0 {
        if phase == ChunkData {
          phase := ChunkDataAlmostDone;
        } else {
          phase := Complete;
          delivered := delivered + data[mark..p];
          mark := -1;
        }
      }
    }

    /** The bytes that end a chunk. */
    method ChunkEnd(data: seq<byte>, p: nat, marked: int) returns (mark: int)
      requires phase in {ChunkDataAlmostDone, ChunkDataDone} && errno == Good
      requires p < |data| && marked < p && Sound(State(Held(data, marked, p), p))
      modifies `phase, `errno, `nread, `delivered
      ensures mark < p
      ensures errno == Good ==> mark < 0
      ensures Step(old(State(Held(data, marked, p), p)), data[p]) ==
        if errno == Good then State([], p + 1) else State(Held(data, mark, p), p)
    {
      mark := marked;
      if phase == ChunkDataAlmostDone {
        assert contentLength == 0;
        if data[p] != CR {
          errno := Strict;
          return;
        }
        phase := ChunkDataDone;
        if mark >= 0 {
          delivered := delivered + data[mark..p];
          mark := -1;
        } else {
          assert delivered + [] == delivered;
        }
      } else {
        if data[p] != LF {
          errno := Strict;
          return;
        }
        nread := 0;
        phase := ChunkSizeStart;
      }
    }

    /** The state after the call's first `p` bytes is the specification's. */
    ghost predicate At(s: Parser, data: seq<byte>, p: nat, mark: int)
      requires Sound(s)
      reads this
    {
      && mark < p <= |data|
      && State(Held(data, mark, p), p) == Run(s, data[..p])
    }

    /** A turn of the loop that looks at one byte. */
    method ByteTurn(data: seq<byte>, p: nat, marked: int, ghost s: Parser) returns (mark: int)
      requires p < |data| && Sound(s) && At(s, data, p, marked) && errno == Good
      requires phase in {ChunkDataAlmostDone, ChunkDataDone} || InHeader(phase)
      modifies this
      ensures errno == Good ==> At(s, data, p + 1, mark)
      ensures errno != Good ==> State([], p) == EndCall(Run(s, data))
    {
      hide Run, Step;
      NextByte(s, data, p);
      mark := marked;
      if InHeader(phase) {
        assert Held(data, marked, p) == [];
        HeaderByte(data[p], p);
      } else {
        mark := ChunkEnd(data, p, mark);
      }
      if errno != Good {
        RestIsIgnored(s, data, p + 1);
      }
    }

    /** A turn of the loop that skips a block. */
    method BlockTurn(data: seq<byte>, start: nat, marked: int, ghost s: Parser) returns (p: nat, mark: int)
      requires start < |data| && Sound(s) && At(s, data, start, marked) && errno == Good
      requires phase in {ChunkData, BodyIdentity, BodyIdentityEof}
      modifies this
      ensures start < p && errno == Good && At(s, data, p, mark)
    {
      hide Run, Step;
      if phase == BodyIdentityEof {
        mark := if marked < 0 then start else marked;
        p := |data|;
        EofBlockIsRead(Run(s, data[..start]), data[start..]);
        assert Held(data, marked, start) + data[start..] == data[mark..p];
        assert data[start..p] == data[start..];
      } else {
        p, mark := BodyBlock(data, start, marked);
      }
      NextBlock(s, data, start, p);
    }

    /**
     One call on one piece of the input. It stops where the body ends, or where an error is
     found; `n` is how many bytes were taken.
     */
    method Execute(data: seq<byte>) returns (n: nat)
      requires Between(State([], 0))
      modifies this
      ensures n <= |data|
      ensures State([], n) == Call(old(State([], 0)), data)
    {
      if errno != Good {
        return 0;
      }
      hide Run, Step;
      ghost var s := State([], 0);
      EmptyRun(s);
      assert data[..0] == [];
      var p, mark := 0, -1;
      while p < |data| && phase !in {Trailer, Complete}
        invariant p <= |data| && errno == Good && At(s, data, p, mark)
        decreases |data| - p
      {
        if phase in {ChunkData, BodyIdentity, BodyIdentityEof} {
          p, mark := BlockTurn(data, p, mark, s);
        } else {
          mark := ByteTurn(data, p, mark, s);
          if errno != Good {
            return p;
          }
          p := p + 1;
        }
      }
      if p < |data| {
        RestIsIgnored(s, data, p);
      } else {
        assert data[..p] == data;
      }
      if mark >= 0 {
        delivered := delivered + data[mark..p];
      } else {
        assert delivered + [] == delivered;
      }
      n := p;
    }
  }

  /** The body bytes between the mark and the read position. */
  function Held(data: seq<byte>, mark: int, p: nat): seq<byte>
    requires mark <= p <= |data|
  {
    if mark < 0 then [] else data[mark..p]
  }
}
