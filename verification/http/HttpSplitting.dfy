/**
 Calls of the parser on successive pieces of the input, and how far cutting the input
 into pieces can be seen.
 */
module HttpSplitting {
  import opened Octets
  import opened HttpBody

  /** What a call leaves of the marks: a call that failed does not pass on what it holds. */
  function EndCall(s: Parser): Parser {
    if s.errno == Good then HandOver(s) else s.(held := [])
  }

  /** Between two calls nothing is held. */
  predicate Between(s: Parser) {
    Sound(s) && s.held == []
  }

  /** One call: a parser in error takes nothing. */
  function Call(s: Parser, data: seq<byte>): (r: Parser)
    requires Between(s)
    ensures Between(r)
  {
    if s.errno != Good then s else EndCall(Run(s, data))
  }

  function Calls(s: Parser, pieces: seq<seq<byte>>): (r: Parser)
    requires Between(s)
    ensures Between(r)
  {
    if pieces == [] then s else Call(Calls(s, pieces[..|pieces| - 1]), pieces[|pieces| - 1])
  }

  // ----- runs

  lemma {:induction false} RunSplit(s: Parser, u: seq<byte>, v: seq<byte>)
    requires Sound(s)
    ensures Run(s, u + v) == Run(Run(s, u), v)
    decreases |v|
  {
    hide Step, Sound;
    if v == [] {
      assert u + v == u;
    } else {
      var n := |u + v| - 1;
      assert (u + v)[..n] == u + v[..|v| - 1];
      RunSplit(s, u, v[..|v| - 1]);
    }
  }

  lemma {:induction false} StoppedStays(s: Parser, v: seq<byte>)
    requires Sound(s) && Stopped(s)
    ensures Run(s, v) == s
    decreases |v|
  {
    if v != [] {
      StoppedStays(s, v[..|v| - 1]);
    }
  }

  /** `b` has handed over some of what `a` still holds; they differ in nothing else. */
  predicate Ahead(a: Parser, b: Parser) {
    && b == a.(delivered := b.delivered, held := b.held)
    && a.delivered + a.held == b.delivered + b.held
    && |b.held| <= |a.held|
  }

  lemma StepAhead(a: Parser, b: Parser, ch: byte)
    requires Sound(a) && Sound(b) && Ahead(a, b)
    ensures Ahead(Step(a, ch), Step(b, ch))
  {
    if InHeader(a.phase) {
      HeaderStepAhead(a, b, ch);
    } else if !Stopped(a) {
      BodyStepAhead(a, b, ch);
    }
  }

  lemma HeaderStepAhead(a: Parser, b: Parser, ch: byte)
    requires Sound(a) && Sound(b) && Ahead(a, b) && InHeader(a.phase)
    ensures Ahead(Step(a, ch), Step(b, ch))
  {
    hide Unhex, Accumulate, RoomFor, ReadBodyByte;
  }

  lemma BodyStepAhead(a: Parser, b: Parser, ch: byte)
    requires Sound(a) && Sound(b) && Ahead(a, b) && !InHeader(a.phase) && !Stopped(a)
    ensures Ahead(ReadBodyByte(a, ch), ReadBodyByte(b, ch))
  {
    assert a.delivered + (a.held + [ch]) == a.delivered + a.held + [ch];
    assert b.delivered + (b.held + [ch]) == b.delivered + b.held + [ch];
    assert a.delivered + a.held + [] == a.delivered + a.held;
    assert b.delivered + b.held + [] == b.delivered + b.held;
  }

  lemma {:induction false} RunAhead(a: Parser, b: Parser, v: seq<byte>)
    requires Sound(a) && Sound(b) && Ahead(a, b)
    ensures Ahead(Run(a, v), Run(b, v))
    decreases |v|
  {
    if v != [] {
      RunAhead(a, b, v[..|v| - 1]);
      StepAhead(Run(a, v[..|v| - 1]), Run(b, v[..|v| - 1]), v[|v| - 1]);
    }
  }

  // ----- where a run stops

  /** How many bytes of `data` the machine took. */
  function Taken(s: Parser, data: seq<byte>): int
    requires Sound(s)
  {
    Run(s, data).consumed - s.consumed
  }

  /** A byte is counted unless the machine had stopped or fails on it. */
  lemma StepCounts(s: Parser, ch: byte)
    requires Sound(s)
    ensures Stopped(s) ==> Step(s, ch) == s
    ensures !Stopped(s) ==> Step(s, ch).consumed == s.consumed + if Step(s, ch).errno == Good then 1 else 0
    ensures !Stopped(s) && Step(s, ch).errno != Good ==>
              && Step(s, ch) == s.(errno := Step(s, ch).errno, nread := Step(s, ch).nread)
              && s.phase !in {ChunkData, BodyIdentity, BodyIdentityEof}
    ensures Step(s, ch).errno == Good && Step(s, ch) != s && Step(s, ch).phase == ChunkDataAlmostDone ==> Step(s, ch).held != []
  {
  }

  lemma {:induction false} TakenIsPosition(s: Parser, data: seq<byte>)
    requires Sound(s)
    ensures 0 <= Taken(s, data) <= |data|
    ensures !Stopped(Run(s, data)) ==> Taken(s, data) == |data|
    ensures s.errno == Good && Run(s, data).errno != Good ==>
              && Taken(s, data) < |data|
              && !Stopped(Run(s, data[..Taken(s, data)]))
              && Run(s, data) == Step(Run(s, data[..Taken(s, data)]), data[Taken(s, data)])
    decreases |data|
  {
    hide Step;
    if data != [] {
      var front := data[..|data| - 1];
      TakenIsPosition(s, front);
      StepCounts(Run(s, front), data[|data| - 1]);
      if s.errno == Good && Run(s, data).errno != Good {
        var k := Taken(s, data);
        if Run(s, front).errno != Good {
          assert front[..k] == data[..k];
        } else {
          assert data[..k] == front;
        }
      }
    }
  }

  /** Standing before a chunk's final CR after taking bytes, the parser holds the chunk's end. */
  lemma {:induction false} HoldsChunkEnd(s: Parser, data: seq<byte>)
    requires Between(s)
    ensures Taken(s, data) == 0 ==> Run(s, data).held == []
    ensures Taken(s, data) > 0 && Run(s, data).phase == ChunkDataAlmostDone ==> Run(s, data).held != []
    decreases |data|
  {
    hide Step;
    if data != [] {
      HoldsChunkEnd(s, data[..|data| - 1]);
      TakenIsPosition(s, data[..|data| - 1]);
      StepCounts(Run(s, data[..|data| - 1]), data[|data| - 1]);
    }
  }

  /**
   The run ends in the check `HTTP_STRICT_CHECK(ch != HTTP_CR)` after a chunk's data, on a
   byte that is not the first of the input.
   */
  predicate FailsAtChunkEnd(s: Parser, data: seq<byte>)
    requires Sound(s)
  {
    Run(s, data).errno != Good && Run(s, data).phase == ChunkDataAlmostDone && Taken(s, data) > 0
  }

  /** Only there can a failing call hold body bytes. */
  lemma FailingHoldsNothingElsewhere(s: Parser, data: seq<byte>)
    requires Between(s) && s.errno == Good && Run(s, data).errno != Good
    ensures Run(s, data).held != [] <==> FailsAtChunkEnd(s, data)
  {
    hide Step;
    HoldsChunkEnd(s, data);
    TakenIsPosition(s, data);
    StepCounts(Run(s, data[..Taken(s, data)]), data[Taken(s, data)]);
  }

  // ----- cutting the input

  /**
   However the input is cut, the parser ends in the same state, with the same error and
   having taken the same bytes; the body callback has been given everything the calls saw,
   or at least all that one call would have passed on.
   */
  lemma {:induction false} CutsKeepTheState(s: Parser, pieces: seq<seq<byte>>)
    requires Between(s) && s.errno == Good
    ensures var t, c := Run(s, Concat(pieces)), Calls(s, pieces);
            && c == EndCall(t).(delivered := c.delivered)
            && t.delivered <= c.delivered <= t.delivered + t.held
            && (t.errno == Good ==> c.delivered == t.delivered + t.held)
    decreases |pieces|
  {
    if pieces != [] {
      var front, last := pieces[..|pieces| - 1], pieces[|pieces| - 1];
      CutsKeepTheState(s, front);
      var t, c := Run(s, Concat(front)), Calls(s, front);
      RunSplit(s, Concat(front), last);
      if t.errno != Good {
        StoppedStays(t, last);
      } else {
        assert c.delivered + c.held == c.delivered;
        RunAhead(t, c, last);
        DeliveredGrows(c, last);
        var r, d := Run(t, last), Run(c, last);
        assert r.delivered <= d.delivered by {
          assert r.delivered + r.held == d.delivered + d.held;
          assert |r.delivered| <= |d.delivered|;
          assert r.delivered == (r.delivered + r.held)[..|r.delivered|];
          assert r.delivered == d.delivered[..|r.delivered|];
        }
      }
    }
  }

  lemma HeaderDeliversNothing(s: Parser, ch: byte)
    requires InHeader(s.phase)
    ensures ReadHeaderByte(s, ch).delivered == s.delivered && ReadHeaderByte(s, ch).held == s.held
  {
  }

  lemma {:induction false} DeliveredGrows(s: Parser, data: seq<byte>)
    requires Sound(s)
    ensures s.delivered <= Run(s, data).delivered
    decreases |data|
  {
    hide ReadHeaderByte;
    if data != [] {
      DeliveredGrows(s, data[..|data| - 1]);
      var t := Run(s, data[..|data| - 1]);
      if !Stopped(t) && InHeader(t.phase) {
        HeaderDeliversNothing(t.(nread := t.nread + 1), data[|data| - 1]);
      }
    }
  }

  /** A way of cutting `data` into non-empty pieces. */
  predicate Cuts(pieces: seq<seq<byte>>, data: seq<byte>) {
    Concat(pieces) == data && forall i | 0 <= i < |pieces| :: pieces[i] != []
  }

  /** Cutting is invisible to the body callback exactly when the run does not fail at a chunk's end. */
  lemma CutsAgreeUnlessFailing(s: Parser, data: seq<byte>)
    requires Between(s) && s.errno == Good
    ensures (forall pieces | Cuts(pieces, data) :: Calls(s, pieces) == Call(s, data))
            <==> !FailsAtChunkEnd(s, data)
  {
    hide Run, Step, Calls;
    if FailsAtChunkEnd(s, data) {
      CutBeforeFailure(s, data);
      var i := Taken(s, data);
      assert Cuts([data[..i], data[i..]], data);
    } else {
      forall pieces | Cuts(pieces, data)
        ensures Calls(s, pieces) == Call(s, data)
      {
        CutsKeepTheState(s, pieces);
        var t := Run(s, data);
        if t.errno != Good {
          FailingHoldsNothingElsewhere(s, data);
          assert t.delivered + [] == t.delivered;
        }
      }
    }
  }

  lemma TwoCalls(s: Parser, u: seq<byte>, v: seq<byte>)
    requires Between(s) && s.errno == Good && Run(s, u).errno == Good
    ensures Concat([u, v]) == u + v
    ensures Calls(s, [u, v]) == EndCall(Run(HandOver(Run(s, u)), v))
  {
    hide Step, Run;
    assert [u, v][..1] == [u];
    assert Concat([u]) == [] + u == u;
    assert Calls(s, [u]) == Call(s, u);
  }

  lemma CutBeforeFailure(s: Parser, data: seq<byte>)
    requires Between(s) && s.errno == Good && FailsAtChunkEnd(s, data)
    ensures 0 < Taken(s, data) < |data|
    ensures var i := Taken(s, data);
            && Concat([data[..i], data[i..]]) == data
            && Calls(s, [data[..i], data[i..]]) != Call(s, data)
  {
    hide Step, Run;
    TakenIsPosition(s, data);
    FailingHoldsNothingElsewhere(s, data);
    var i := Taken(s, data);
    var u, v := data[..i], data[i..];
    var t := Run(s, u);
    StepCounts(t, data[i]);
    TwoCalls(s, u, v);
    assert u + v == data;
    DeliveredGrows(HandOver(t), v);
  }
}
