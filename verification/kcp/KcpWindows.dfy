/**
 What each operation keeps of the two windows when sequence numbers are unbounded:
 the buffer of segments in flight at the sender, the reorder buffer at the receiver, and
 the tie between them that rules out loss.
 */
module KcpWindows {
  import opened Arithmetic32
  import opened KcpWire
  import opened KcpState

  // ----- the sender

  ghost predicate SndSorted(buf: seq<SndSeg>) {
    forall i, j | 0 <= i < j < |buf| :: buf[i].sn < buf[j].sn
  }

  ghost predicate InBuf(buf: seq<SndSeg>, sn: int) {
    exists i :: 0 <= i < |buf| && buf[i].sn == sn
  }

  /** Every segment in flight is one of the numbered segments, under its own number. */
  ghost predicate SndMatches(buf: seq<SndSeg>, numbered: seq<Frag>) {
    forall i | 0 <= i < |buf| :: 0 <= buf[i].sn < |numbered| && buf[i].frag == numbered[buf[i].sn]
  }

  ghost predicate SenderOk(s: Sender, numbered: seq<Frag>) {
    && s.nxt == |numbered|
    && 0 <= s.una <= s.nxt <= s.una + 0xffff
    && SndSorted(s.buf)
    && SndMatches(s.buf, numbered)
    && s.una == (if s.buf == [] then s.nxt else s.buf[0].sn)
  }

  lemma {:induction false} ParseUnaExact(buf: seq<SndSeg>, una: int)
    requires SndSorted(buf)
    ensures var r := ParseUna(Exact, buf, una);
            && |r| <= |buf| && r == buf[|buf| - |r|..]
            && (forall sn :: InBuf(r, sn) <==> InBuf(buf, sn) && sn >= una)
  {
    var r := ParseUna(Exact, buf, una);
    if buf != [] && una > buf[0].sn {
      ParseUnaExact(buf[1..], una);
      forall sn ensures InBuf(r, sn) <==> InBuf(buf, sn) && sn >= una {
        if InBuf(buf, sn) && sn >= una {
          var i :| 0 <= i < |buf| && buf[i].sn == sn;
          assert buf[1..][i - 1].sn == sn;
        }
        if InBuf(buf[1..], sn) {
          var i :| 0 <= i < |buf[1..]| && buf[1..][i].sn == sn;
          assert buf[i + 1].sn == sn;
        }
      }
    }
  }

  lemma {:induction false} RemoveAckedContents(buf: seq<SndSeg>, sn: int, n: int)
    requires SndSorted(buf)
    ensures InBuf(RemoveAcked(Exact, buf, sn), n) <==> InBuf(buf, n) && n != sn
  {
    if buf != [] {
      InBufStep(buf, n);
      if sn > buf[0].sn {
        RemoveAckedContents(buf[1..], sn, n);
        InBufStep(RemoveAcked(Exact, buf, sn), n);
      }
    }
  }

  lemma {:induction false} RemoveAckedOrder(buf: seq<SndSeg>, sn: int, numbered: seq<Frag>)
    requires SndSorted(buf) && SndMatches(buf, numbered)
    ensures SndSorted(RemoveAcked(Exact, buf, sn)) && SndMatches(RemoveAcked(Exact, buf, sn), numbered)
  {
    if buf != [] && sn > buf[0].sn {
      var r := RemoveAcked(Exact, buf, sn);
      RemoveAckedOrder(buf[1..], sn, numbered);
      forall i | 0 < i < |r| ensures buf[0].sn < r[i].sn {
        assert InBuf(r[1..], r[1..][i - 1].sn);
        RemoveAckedContents(buf[1..], sn, r[i].sn);
      }
    }
  }

  lemma RemoveAckedExact(buf: seq<SndSeg>, sn: int, numbered: seq<Frag>)
    requires SndSorted(buf) && SndMatches(buf, numbered)
    ensures var r := RemoveAcked(Exact, buf, sn);
            && SndSorted(r) && SndMatches(r, numbered)
            && (forall n :: InBuf(r, n) <==> InBuf(buf, n) && n != sn)
  {
    RemoveAckedOrder(buf, sn, numbered);
    forall n ensures InBuf(RemoveAcked(Exact, buf, sn), n) <==> InBuf(buf, n) && n != sn {
      RemoveAckedContents(buf, sn, n);
    }
  }

  lemma InBufStep(buf: seq<SndSeg>, n: int)
    requires buf != []
    ensures InBuf(buf, n) <==> n == buf[0].sn || InBuf(buf[1..], n)
  {
    if InBuf(buf, n) && n != buf[0].sn {
      var i :| 0 <= i < |buf| && buf[i].sn == n;
      assert buf[1..][i - 1].sn == n;
    }
    if InBuf(buf[1..], n) {
      var i :| 0 <= i < |buf[1..]| && buf[1..][i].sn == n;
      assert buf[i + 1].sn == n;
    }
  }

  /** Same segments in the same places; only timers and counters differ. */
  ghost predicate SameSegs(a: seq<SndSeg>, b: seq<SndSeg>) {
    |a| == |b| && forall i | 0 <= i < |a| :: a[i].sn == b[i].sn && a[i].frag == b[i].frag
  }

  lemma {:induction false} BumpFastackSameSegs(ar: Arith, buf: seq<SndSeg>, sn: int)
    ensures SameSegs(buf, BumpFastack(ar, buf, sn))
  {
    if buf != [] && ar.Diff(sn, buf[0].sn) >= 0 {
      BumpFastackSameSegs(ar, buf[1..], sn);
    }
  }

  lemma {:induction false} SweepSameSegs(t: Stamp, c: Control, buf: seq<SndSeg>)
    ensures SameSegs(buf, SweepAll(t, c, buf).buf)
  {
    if buf != [] {
      SweepSameSegs(t, c, buf[..|buf| - 1]);
    }
  }

  lemma SameSegsKeep(a: seq<SndSeg>, b: seq<SndSeg>, numbered: seq<Frag>)
    requires SameSegs(a, b)
    ensures SndSorted(a) ==> SndSorted(b)
    ensures SndMatches(a, numbered) ==> SndMatches(b, numbered)
    ensures forall n :: InBuf(a, n) <==> InBuf(b, n)
  {
    forall n ensures InBuf(a, n) <==> InBuf(b, n) {
      if InBuf(a, n) { var i :| 0 <= i < |a| && a[i].sn == n; assert b[i].sn == n; }
      if InBuf(b, n) { var i :| 0 <= i < |b| && b[i].sn == n; assert a[i].sn == n; }
    }
  }

  // ----- the receiver

  ghost predicate RcvSorted(buf: seq<RcvSeg>) {
    forall i, j | 0 <= i < j < |buf| :: buf[i].sn < buf[j].sn
  }

  ghost predicate Waiting(buf: seq<RcvSeg>, sn: int) {
    exists i :: 0 <= i < |buf| && buf[i].sn == sn
  }

  /** The receiver has this segment for good: it was queued, or it waits for its turn. */
  ghost predicate Held(r: Receiver, sn: int) {
    0 <= sn < r.nxt || Waiting(r.buf, sn)
  }

  ghost predicate RcvMatches(buf: seq<RcvSeg>, numbered: seq<Frag>) {
    forall i | 0 <= i < |buf| :: 0 <= buf[i].sn < |numbered| && buf[i].frag == numbered[buf[i].sn]
  }

  ghost predicate RcvWithin(buf: seq<RcvSeg>, lo: int, hi: int) {
    forall i | 0 <= i < |buf| :: lo <= buf[i].sn < hi
  }

  /** The parts of the invariant a search of the reorder buffer relies on. */
  ghost predicate ReorderOk(r: Receiver, rcvWnd: int, numbered: seq<Frag>) {
    && 0 <= r.nxt <= |numbered|
    && RcvSorted(r.buf)
    && RcvWithin(r.buf, r.nxt, r.nxt + rcvWnd)
    && RcvMatches(r.buf, numbered)
    && |r.queue| <= rcvWnd
  }

  /** No segment waits whose turn has come, unless the receive queue is full. */
  ghost predicate Drained(r: Receiver, rcvWnd: int) {
    r.buf != [] && r.buf[0].sn == r.nxt ==> |r.queue| >= rcvWnd
  }

  ghost predicate AcksHeld(r: Receiver) {
    forall i | 0 <= i < |r.acks| :: Held(r, r.acks[i].sn)
  }

  ghost predicate ReceiverOk(r: Receiver, rcvWnd: int, numbered: seq<Frag>) {
    ReorderOk(r, rcvWnd, numbered) && Drained(r, rcvWnd) && AcksHeld(r)
  }

  /** What every receiver step does to the receive side: it only ever gains segments. */
  ghost predicate Gains(r: Receiver, r': Receiver) {
    r.nxt <= r'.nxt && forall n :: Held(r, n) ==> Held(r', n)
  }

  lemma {:induction false} DrainCountExact(buf: seq<RcvSeg>, nxt: int, room: int)
    ensures var n := DrainCount(Exact, buf, nxt, room);
            && (forall i | 0 <= i < n :: buf[i].sn == nxt + i)
            && (n < |buf| && buf[n].sn == nxt + n ==> n >= room)
  {
    if buf != [] && buf[0].sn == nxt && room > 0 {
      DrainCountExact(buf[1..], nxt + 1, room - 1);
      var n := DrainCount(Exact, buf, nxt, room);
      forall i | 0 <= i < n ensures buf[i].sn == nxt + i {
        if i > 0 { assert buf[i] == buf[1..][i - 1]; }
      }
      if n < |buf| { assert buf[n] == buf[1..][n - 1]; }
    }
  }

  /** Cutting `n` consecutive segments off the reorder buffer moves the window by `n`. */
  lemma CutOk(r: Receiver, rcvWnd: int, numbered: seq<Frag>, n: nat)
    requires ReorderOk(r, rcvWnd, numbered)
    requires n <= |r.buf| && forall i | 0 <= i < n :: r.buf[i].sn == r.nxt + i
    ensures r.nxt + n <= |numbered|
    ensures FragsOf(r.buf[..n]) == numbered[r.nxt..r.nxt + n]
    ensures RcvSorted(r.buf[n..]) && RcvMatches(r.buf[n..], numbered)
    ensures RcvWithin(r.buf[n..], r.nxt + n, r.nxt + n + rcvWnd)
  {
    if n > 0 { assert r.buf[n - 1].sn == r.nxt + n - 1; }
    forall i | 0 <= i < |r.buf| - n ensures r.nxt + n <= r.buf[n..][i].sn < r.nxt + n + rcvWnd {
      assert r.buf[n..][i] == r.buf[n + i];
      if n > 0 { assert r.buf[n - 1].sn < r.buf[n + i].sn; }
    }
  }

  lemma CutGains(r: Receiver, r': Receiver, n: nat)
    requires n <= |r.buf| && forall i | 0 <= i < n :: r.buf[i].sn == r.nxt + i
    requires 0 <= r.nxt && r'.nxt == r.nxt + n && r'.buf == r.buf[n..]
    ensures Gains(r, r')
  {
    forall m | Held(r, m) ensures Held(r', m) {
      if !(0 <= m < r.nxt) {
        var i :| 0 <= i < |r.buf| && r.buf[i].sn == m;
        if i >= n { assert r'.buf[i - n].sn == m; }
      }
    }
  }

  lemma GainsAcks(r: Receiver, r': Receiver)
    requires Gains(r, r') && AcksHeld(r) && r'.acks == r.acks
    ensures AcksHeld(r')
  {
  }

  lemma DrainOk(r: Receiver, rcvWnd: int, numbered: seq<Frag>)
    requires ReorderOk(r, rcvWnd, numbered) && AcksHeld(r)
    ensures var r' := Drain(Exact, r, rcvWnd);
            && ReceiverOk(r', rcvWnd, numbered)
            && Gains(r, r')
            && r'.queue == r.queue + numbered[r.nxt..r'.nxt]
  {
    hide AcksHeld, Gains;
    var r' := Drain(Exact, r, rcvWnd);
    var n := DrainCount(Exact, r.buf, r.nxt, rcvWnd - |r.queue|);
    DrainCountExact(r.buf, r.nxt, rcvWnd - |r.queue|);
    CutOk(r, rcvWnd, numbered, n);
    CutGains(r, r', n);
    GainsAcks(r, r');
    hide RcvSorted, RcvMatches, RcvWithin, DrainCount, FragsOf;
    assert Drained(r', rcvWnd);
  }

  lemma {:induction false} InsertSegContents(buf: seq<RcvSeg>, seg: RcvSeg, n: int)
    ensures Waiting(InsertSeg(Exact, buf, seg), n) <==> Waiting(buf, n) || n == seg.sn
  {
    var b := InsertSeg(Exact, buf, seg);
    WaitingStep(b, n);
    if buf != [] {
      WaitingStep(buf, n);
      if seg.sn < buf[|buf| - 1].sn {
        InsertSegContents(buf[..|buf| - 1], seg, n);
        assert b[..|b| - 1] == InsertSeg(Exact, buf[..|buf| - 1], seg);
      } else if seg.sn > buf[|buf| - 1].sn {
        assert b[..|b| - 1] == buf;
      }
    }
  }

  lemma {:induction false} InsertSegOrder(buf: seq<RcvSeg>, seg: RcvSeg, numbered: seq<Frag>)
    requires RcvSorted(buf) && RcvMatches(buf, numbered)
    requires 0 <= seg.sn < |numbered| && seg.frag == numbered[seg.sn]
    ensures RcvSorted(InsertSeg(Exact, buf, seg)) && RcvMatches(InsertSeg(Exact, buf, seg), numbered)
  {
    if buf != [] && seg.sn < buf[|buf| - 1].sn {
      var init := buf[..|buf| - 1];
      InsertSegOrder(init, seg, numbered);
      var b1 := InsertSeg(Exact, init, seg);
      forall i | 0 <= i < |b1| ensures b1[i].sn < buf[|buf| - 1].sn {
        assert Waiting(b1, b1[i].sn);
        InsertSegContents(init, seg, b1[i].sn);
      }
    }
  }

  lemma InsertSegExact(buf: seq<RcvSeg>, seg: RcvSeg, numbered: seq<Frag>)
    requires RcvSorted(buf) && RcvMatches(buf, numbered)
    requires 0 <= seg.sn < |numbered| && seg.frag == numbered[seg.sn]
    ensures var b := InsertSeg(Exact, buf, seg);
            && RcvSorted(b) && RcvMatches(b, numbered)
            && (forall n :: Waiting(b, n) <==> Waiting(buf, n) || n == seg.sn)
  {
    InsertSegOrder(buf, seg, numbered);
    forall n ensures Waiting(InsertSeg(Exact, buf, seg), n) <==> Waiting(buf, n) || n == seg.sn {
      InsertSegContents(buf, seg, n);
    }
  }

  lemma WaitingStep(buf: seq<RcvSeg>, n: int)
    requires buf != []
    ensures Waiting(buf, n) <==> n == buf[|buf| - 1].sn || Waiting(buf[..|buf| - 1], n)
  {
    var init := buf[..|buf| - 1];
    if Waiting(init, n) {
      var i :| 0 <= i < |init| && init[i].sn == n;
      assert buf[i].sn == n;
    }
    if Waiting(buf, n) && n != buf[|buf| - 1].sn {
      var i :| 0 <= i < |buf| && buf[i].sn == n;
      assert init[i].sn == n;
    }
  }

  /** The wire carries a numbered segment under its own number. */
  ghost predicate PushOk(w: Wire, numbered: seq<Frag>) {
    w.cmd == CMD_PUSH ==> 0 <= w.sn < |numbered| && Frag(w.frg, w.data) == numbered[w.sn]
  }

  /** The wire acknowledges only what its origin holds. */
  ghost predicate AckOk(w: Wire, r: Receiver) {
    0 <= w.una <= r.nxt && (w.cmd == CMD_ACK ==> Held(r, w.sn))
  }

  /** A segment inside the window is put in its place. */
  lemma ParseDataOk(r: Receiver, rcvWnd: int, numbered: seq<Frag>, seg: RcvSeg, ack: AckItem)
    requires ReceiverOk(r, rcvWnd, numbered) && ack.sn == seg.sn
    requires 0 <= seg.sn < |numbered| && seg.frag == numbered[seg.sn]
    requires r.nxt <= seg.sn < r.nxt + rcvWnd
    ensures var r' := ParseData(Exact, r.(acks := r.acks + [ack]), rcvWnd, seg);
            && ReceiverOk(r', rcvWnd, numbered)
            && Gains(r, r')
            && r'.queue == r.queue + numbered[r.nxt..r'.nxt]
  {
    InsertSegExact(r.buf, seg, numbered);
    var r1 := r.(acks := r.acks + [ack], buf := InsertSeg(Exact, r.buf, seg));
    hide InsertSeg, Drain;
    forall n | Held(r, n) ensures Held(r1, n) {}
    assert Held(r1, seg.sn);
    assert AcksHeld(r1);
    forall i | 0 <= i < |r1.buf| ensures r1.nxt <= r1.buf[i].sn < r1.nxt + rcvWnd {
      assert Waiting(r1.buf, r1.buf[i].sn);
    }
    DrainOk(r1, rcvWnd, numbered);
    hide Held, RcvSorted, RcvMatches, RcvWithin, AcksHeld;
  }

  lemma PushAck(r: Receiver, rcvWnd: int, numbered: seq<Frag>, ack: AckItem)
    requires ReceiverOk(r, rcvWnd, numbered) && 0 <= ack.sn < r.nxt
    ensures ReceiverOk(r.(acks := r.acks + [ack]), rcvWnd, numbered) && Gains(r, r.(acks := r.acks + [ack]))
  {
    var acked := r.(acks := r.acks + [ack]);
    forall n | Held(r, n) ensures Held(acked, n) {}
    assert AcksHeld(acked);
  }

  /** A data segment arrives. */
  lemma ReceiverTakes(r: Receiver, rcvWnd: int, numbered: seq<Frag>, w: Wire)
    requires ReceiverOk(r, rcvWnd, numbered)
    requires w.cmd == CMD_PUSH && PushOk(w, numbered)
    ensures var r' := Push(Exact, r, rcvWnd, w);
            && ReceiverOk(r', rcvWnd, numbered)
            && Gains(r, r')
            && r'.queue == r.queue + numbered[r.nxt..r'.nxt]
    ensures var r' := Push(Exact, r, rcvWnd, w);
            if w.sn < r.nxt + rcvWnd then r'.acks == r.acks + [AckItem(w.sn, w.ts)] && Held(r', w.sn) else r' == r
  {
    TakenIsAcked(r, rcvWnd, w);
    assert 0 <= r.nxt <= |numbered|;
    assert r.queue + numbered[r.nxt..r.nxt] == r.queue;
    var ack := AckItem(w.sn, w.ts);
    if w.sn < r.nxt + rcvWnd {
      if w.sn < r.nxt {
        PushAck(r, rcvWnd, numbered, ack);
      } else {
        ParseDataOk(r, rcvWnd, numbered, RcvSeg(w.sn, Frag(w.frg, w.data)), ack);
      }
    }
    var r' := Push(Exact, r, rcvWnd, w);
    assert w.sn < r.nxt + rcvWnd ==> r'.acks[|r.acks|] == ack;
    hide ReorderOk, Drained, ParseData;
  }

  lemma TakenIsAcked(r: Receiver, rcvWnd: int, w: Wire)
    ensures Push(Exact, r, rcvWnd, w).acks == if w.sn < r.nxt + rcvWnd then r.acks + [AckItem(w.sn, w.ts)] else r.acks
  {
    hide InsertSeg, DrainCount, FragsOf;
  }

  // ----- the tie between the two

  /** Nothing is lost: what the sender gave up, the receiver holds. */
  ghost predicate NoLoss(s: Sender, r: Receiver, numbered: seq<Frag>) {
    forall n | 0 <= n < |numbered| :: InBuf(s.buf, n) || Held(r, n)
  }

  /** The sender's share of one segment of a datagram from its peer. */
  function TakeAcks(ar: Arith, s: Sender, w: Wire): Sender {
    var s1 := ShrinkBuf(s.(buf := ParseUna(ar, s.buf, w.una)));
    if w.cmd == CMD_ACK then ShrinkBuf(ParseAck(ar, s1, w.sn)) else s1
  }

  lemma InputSegParts(ar: Arith, p: Parse, w: Wire)
    ensures var q := InputSeg(ar, p, w);
            && q.k.snd == TakeAcks(ar, p.k.snd, w)
            && q.k.rcv == (if w.cmd == CMD_PUSH then Push(ar, p.k.rcv, p.k.ctl.rcvWnd, w) else p.k.rcv)
            && q.k.ctl.rcvWnd == p.k.ctl.rcvWnd
            && q.newest == (if w.cmd == CMD_ACK then Mark(ar, p.newest, w.sn) else p.newest)
  {
  }

  /** Dropping acknowledged segments from the head keeps the window well-formed. */
  lemma SenderTakesUna(s: Sender, numbered: seq<Frag>, una: int)
    requires SenderOk(s, numbered) && una <= s.nxt
    ensures var s1 := ShrinkBuf(s.(buf := ParseUna(Exact, s.buf, una)));
            && SenderOk(s1, numbered) && s1.una >= s.una
            && (forall n :: InBuf(s1.buf, n) <==> InBuf(s.buf, n) && n >= una)
  {
    ParseUnaExact(s.buf, una);
    var s1 := ShrinkBuf(s.(buf := ParseUna(Exact, s.buf, una)));
    var k := |s.buf| - |s1.buf|;
    forall i | 0 <= i < |s1.buf| ensures s1.buf[i] == s.buf[k + i] {}
    if s1.buf != [] && k > 0 { assert s.buf[0].sn < s.buf[k].sn; }
    if s.buf != [] { assert s.una == s.buf[0].sn < |numbered|; }
  }

  lemma InWindow(s: Sender, numbered: seq<Frag>, n: int)
    requires SenderOk(s, numbered)
    ensures InBuf(s.buf, n) ==> s.una <= n < s.nxt
  {
    if InBuf(s.buf, n) {
      var i :| 0 <= i < |s.buf| && s.buf[i].sn == n;
      if i > 0 {
        assert s.buf[0].sn < s.buf[i].sn;
      }
    }
  }

  /** A selective acknowledgement removes the segment it names, and no other. */
  lemma SenderTakesAck(s: Sender, numbered: seq<Frag>, sn: int)
    requires SenderOk(s, numbered)
    ensures var s1 := ShrinkBuf(ParseAck(Exact, s, sn));
            && SenderOk(s1, numbered) && s1.una >= s.una
            && (forall n :: InBuf(s1.buf, n) <==> InBuf(s.buf, n) && n != sn)
  {
    RemoveAckedExact(s.buf, sn, numbered);
    InWindow(s, numbered, sn);
    var s1 := ShrinkBuf(ParseAck(Exact, s, sn));
    if s1.buf != [] {
      assert InBuf(s1.buf, s1.buf[0].sn);
      assert InBuf(s.buf, s1.buf[0].sn);
    }
  }

  /** One segment of a datagram arrives at the sender. */
  lemma SenderTakes(s: Sender, numbered: seq<Frag>, peer: Receiver, w: Wire)
    requires SenderOk(s, numbered) && NoLoss(s, peer, numbered)
    requires peer.nxt <= |numbered| && AckOk(w, peer)
    ensures var s' := TakeAcks(Exact, s, w);
            SenderOk(s', numbered) && NoLoss(s', peer, numbered) && s'.una >= s.una
  {
    SenderTakesUna(s, numbered, w.una);
    var s1 := ShrinkBuf(s.(buf := ParseUna(Exact, s.buf, w.una)));
    SenderTakesAck(s1, numbered, w.sn);
  }

  // ----- flushing

  lemma {:induction false} MoveCountExact(nxt: int, limit: int, queued: nat)
    ensures MoveCount(Exact, nxt, limit, queued) == if nxt >= limit then 0 else Min(limit - nxt, queued)
    decreases queued
  {
    if queued > 0 && nxt < limit {
      MoveCountExact(nxt + 1, limit, queued - 1);
    }
  }

  /** Segments numbered one after the other extend a window that ended just before them. */
  lemma NumberedOk(s: Sender, c: Control, numbered: seq<Frag>, frags: seq<Frag>)
    requires SenderOk(s, numbered)
    ensures var buf := s.buf + Numbered(Exact, c, s.nxt, frags);
            && SndSorted(buf) && SndMatches(buf, numbered + frags)
            && (buf != [] ==> buf[0].sn == s.una)
            && (forall n :: InBuf(s.buf, n) ==> InBuf(buf, n))
            && (forall n | s.nxt <= n < s.nxt + |frags| :: InBuf(buf, n))
  {
    var more := Numbered(Exact, c, s.nxt, frags);
    var buf := s.buf + more;
    forall i | 0 <= i < |buf| ensures
      buf[i].sn == (if i < |s.buf| then s.buf[i].sn else s.nxt + (i - |s.buf|))
      && buf[i].frag == (if i < |s.buf| then s.buf[i].frag else frags[i - |s.buf|])
    {
      if i >= |s.buf| {
        assert more[i - |s.buf|].sn == Exact.Norm(s.nxt + (i - |s.buf|));
      }
    }
    forall n | s.nxt <= n < s.nxt + |frags| ensures InBuf(buf, n) { assert buf[|s.buf| + (n - s.nxt)].sn == n; }
    forall n | InBuf(s.buf, n) ensures InBuf(buf, n) {
      var i :| 0 <= i < |s.buf| && s.buf[i].sn == n;
      assert buf[i].sn == n;
    }
  }

  /** Queued segments enter the window in order, and are numbered in order. */
  lemma MoveOk(s: Sender, c: Control, numbered: seq<Frag>, peer: Receiver)
    requires SenderOk(s, numbered) && NoLoss(s, peer, numbered)
    ensures var s' := Move(Exact, s, c);
            var n := |s.queue| - |s'.queue|;
            && n >= 0 && s'.queue == s.queue[n..]
            && SenderOk(s', numbered + s.queue[..n])
            && NoLoss(s', peer, numbered + s.queue[..n])
  {
    MoveCountExact(s.nxt, s.una + SendWindow(c), |s.queue|);
    var n := MoveCount(Exact, s.nxt, s.una + SendWindow(c), |s.queue|);
    NumberedOk(s, c, numbered, s.queue[..n]);
    hide SndSorted, SndMatches, InBuf, Held, Numbered, MoveCount, SendWindow;
    var s' := Move(Exact, s, c);
    assert s' == Sender(s.una, s.nxt + n, s.queue[n..], s.buf + Numbered(Exact, c, s.nxt, s.queue[..n]));
    assert |s.queue| - |s'.queue| == n;
  }

  lemma {:induction false} SweepWires(t: Stamp, c: Control, buf: seq<SndSeg>, numbered: seq<Frag>)
    requires SndMatches(buf, numbered)
    ensures forall w <- SweepAll(t, c, buf).wires ::
              w.cmd == CMD_PUSH && w.conv == t.conv && w.una == t.una && PushOk(w, numbered)
  {
    if buf != [] {
      var init, last := buf[..|buf| - 1], buf[|buf| - 1];
      SweepWires(t, c, init, numbered);
      assert PushOk(DataWire(t, c, last), numbered);
    }
  }

  /** Everything a flush puts out speaks the truth about both directions. */
  lemma FlushWires(k: Kcb, numbered: seq<Frag>, peer: Receiver)
    requires SenderOk(k.snd, numbered) && NoLoss(k.snd, peer, numbered)
    requires AcksHeld(k.rcv) && 0 <= k.rcv.nxt
    ensures var f := Flush(Exact, k);
            var more := numbered + k.snd.queue[..|k.snd.queue| - |f.k.snd.queue|];
            && |f.k.snd.queue| <= |k.snd.queue|
            && k.snd.queue == k.snd.queue[..|k.snd.queue| - |f.k.snd.queue|] + f.k.snd.queue
            && SenderOk(f.k.snd, more) && NoLoss(f.k.snd, peer, more)
            && f.k.rcv == k.rcv.(acks := if k.ctl.updated then [] else k.rcv.acks)
            && (forall w <- f.wires :: w.conv == k.ctl.conv && KnownCommand(w.cmd)
                                       && PushOk(w, more) && AckOk(w, k.rcv))
  {
    if k.ctl.updated {
      var t := StampOf(k);
      var c := ProbeTimer(k.ctl);
      MoveOk(k.snd, c, numbered, peer);
      var s := Move(Exact, k.snd, c);
      var more := numbered + k.snd.queue[..|k.snd.queue| - |s.queue|];
      SweepSameSegs(t, c, s.buf);
      SameSegsKeep(s.buf, SweepAll(t, c, s.buf).buf, more);
      SweepWires(t, c, s.buf, more);
      var acks := AckWires(t, k.rcv.acks);
      forall w <- acks ensures w.conv == k.ctl.conv && w.cmd == CMD_ACK && AckOk(w, k.rcv) {
        var i :| 0 <= i < |acks| && acks[i] == w;
        assert Held(k.rcv, k.rcv.acks[i].sn);
      }
    } else {
      assert numbered + k.snd.queue[..0] == numbered;
    }
  }
}
