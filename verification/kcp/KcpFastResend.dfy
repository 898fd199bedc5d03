/**
 Fast retransmission: what a datagram of acknowledgements counts, and that a segment passed
 over as often as the limit says is put out again by the next flush.
 */
module KcpFastResend {
  import opened Arithmetic32
  import opened KcpWire
  import opened KcpState
  import opened KcpWindows
  import opened KcpNetwork
  import opened KcpSafety
  import opened KcpDelivery
  import opened KcpProgress
  import opened KcpRoundTrips

  // ----- the newest number a datagram acknowledges

  ghost predicate Acks(ws: seq<Wire>, sn: int) {
    exists i | 0 <= i < |ws| :: ws[i].cmd == CMD_ACK && ws[i].sn == sn
  }

  ghost predicate NewestAck(ws: seq<Wire>, m: int) {
    Acks(ws, m) && forall sn | Acks(ws, sn) :: sn <= m
  }

  /** `q` is the newest of `p` and what `ws` acknowledge. */
  ghost predicate Newer(p: Newest, ws: seq<Wire>, q: Newest) {
    && (q.NoAck? ==> p.NoAck? && forall sn :: !Acks(ws, sn))
    && (q.MaxAck? ==> q == p || Acks(ws, q.sn))
    && (q.MaxAck? && p.MaxAck? ==> p.sn <= q.sn)
    && (q.MaxAck? ==> forall sn | Acks(ws, sn) :: sn <= q.sn)
  }

  lemma AcksStep(ws: seq<Wire>, sn: int)
    requires ws != []
    ensures Acks(ws, sn) <==> (ws[0].cmd == CMD_ACK && ws[0].sn == sn) || Acks(ws[1..], sn)
  {
    if Acks(ws, sn) {
      var i :| 0 <= i < |ws| && ws[i].cmd == CMD_ACK && ws[i].sn == sn;
      assert i > 0 ==> ws[1..][i - 1] == ws[i];
    }
    if Acks(ws[1..], sn) {
      var i :| 0 <= i < |ws[1..]| && ws[1..][i].cmd == CMD_ACK && ws[1..][i].sn == sn;
      assert ws[i + 1] == ws[1..][i];
    }
  }

  lemma NewerStep(p: Newest, ws: seq<Wire>, q: Newest)
    requires ws != []
    requires Newer(if ws[0].cmd == CMD_ACK then Mark(Exact, p, ws[0].sn) else p, ws[1..], q)
    ensures Newer(p, ws, q)
  {
    forall sn
      ensures Acks(ws, sn) <==> (ws[0].cmd == CMD_ACK && ws[0].sn == sn) || Acks(ws[1..], sn)
    {
      AcksStep(ws, sn);
    }
    hide Acks;
  }

  lemma {:induction false} InputSegsNewest(p: Parse, ws: seq<Wire>)
    ensures Newer(p.newest, ws, InputSegs(Exact, p, ws).newest)
    decreases |ws|
  {
    if ws != [] {
      InputSegParts(Exact, p, ws[0]);
      hide InputSeg, Newer, Mark;
      InputSegsNewest(InputSeg(Exact, p, ws[0]), ws[1..]);
      NewerStep(p.newest, ws, InputSegs(Exact, p, ws).newest);
    }
  }

  lemma NewerFromNone(ws: seq<Wire>, q: Newest)
    requires Newer(NoAck, ws, q)
    ensures q.NoAck? ==> forall sn :: !Acks(ws, sn)
    ensures forall m :: NewestAck(ws, m) <==> q == MaxAck(m)
  {
    hide Acks;
  }

  // ----- segments that stay keep their counters

  lemma {:induction false} ParseUnaOnlyDrops(buf: seq<SndSeg>, una: int)
    ensures forall s | s in ParseUna(Exact, buf, una) :: s in buf
  {
    if buf != [] && una > buf[0].sn {
      ParseUnaOnlyDrops(buf[1..], una);
    }
  }

  lemma {:induction false} RemoveOnlyDrops(buf: seq<SndSeg>, sn: int)
    ensures forall s | s in RemoveAcked(Exact, buf, sn) :: s in buf
  {
    if buf != [] && sn > buf[0].sn {
      RemoveOnlyDrops(buf[1..], sn);
    }
  }

  lemma TakeOnlyDrops(s: Sender, w: Wire)
    ensures forall t | t in TakeAcks(Exact, s, w).buf :: t in s.buf
    ensures TakeAcks(Exact, s, w).nxt == s.nxt
  {
    ParseUnaOnlyDrops(s.buf, w.una);
    RemoveOnlyDrops(ParseUna(Exact, s.buf, w.una), w.sn);
  }

  lemma {:induction false} InputSegsOnlyDrop(p: Parse, ws: seq<Wire>)
    ensures forall s | s in InputSegs(Exact, p, ws).k.snd.buf :: s in p.k.snd.buf
    ensures InputSegs(Exact, p, ws).k.snd.nxt == p.k.snd.nxt
    decreases |ws|
  {
    if ws != [] {
      InputSegParts(Exact, p, ws[0]);
      TakeOnlyDrops(p.k.snd, ws[0]);
      hide InputSeg, TakeAcks;
      InputSegsOnlyDrop(InputSeg(Exact, p, ws[0]), ws[1..]);
    }
  }

  /** One more pass, in 32 bits. */
  function Counted(s: SndSeg, passes: nat): SndSeg {
    s.(fastack := Wrap(s.fastack + passes))
  }

  lemma CountedNone(s: SndSeg)
    ensures Counted(s, 0) == s
  {
  }

  lemma CountedTwice(s: SndSeg, m: nat, n: nat)
    ensures Counted(Counted(s, m), n) == Counted(s, m + n)
  {
    var a, b := s.fastack + m, Wrap(s.fastack + m);
    assert a == M32 * (a / M32) + b;
    ModPeriodic(b + n, a / M32);
    hide Wrap;
  }

  lemma {:induction false} BumpPasses(buf: seq<SndSeg>, m: int)
    requires SndSorted(buf)
    ensures var r := BumpFastack(Exact, buf, m);
            |r| == |buf| && forall i | 0 <= i < |buf| :: r[i] == Counted(buf[i], if buf[i].sn < m then 1 else 0)
  {
    hide Wrap;
    if buf != [] {
      CountedNone(buf[0]);
      if m >= buf[0].sn {
        BumpPasses(buf[1..], m);
        var r := BumpFastack(Exact, buf, m);
        forall i | 0 <= i < |buf|
          ensures r[i] == Counted(buf[i], if buf[i].sn < m then 1 else 0)
        {
          if i > 0 {
            assert r[i] == r[1..][i - 1] && buf[i] == buf[1..][i - 1];
          }
        }
      } else {
        forall i | 0 <= i < |buf|
          ensures buf[i] == Counted(buf[i], if buf[i].sn < m then 1 else 0)
        {
          CountedNone(buf[i]);
          if i > 0 {
            assert buf[0].sn < buf[i].sn;
          }
        }
      }
    }
  }

  // ----- one datagram

  /** A datagram passes a segment: its newest number is in the window left behind it, above the segment. */
  ghost predicate PassedBy(una: int, nxt: int, ws: seq<Wire>, sn: int) {
    exists m | una <= m < nxt :: NewestAck(ws, m) && sn < m
  }

  ghost function Passes(una: int, nxt: int, ws: seq<Wire>, sn: int): nat {
    if PassedBy(una, nxt, ws, sn) then 1 else 0
  }

  /** What the closing step does to the buffer the segments left. */
  lemma TailPasses(q: Parse, prevUna: int, ws: seq<Wire>)
    requires SndSorted(q.k.snd.buf) && Newer(NoAck, ws, q.newest)
    ensures var s, t := q.k.snd, InputTail(Exact, prevUna, q).snd;
            && t.una == s.una && t.nxt == s.nxt && |t.buf| == |s.buf|
            && forall i | 0 <= i < |s.buf| ::
                 t.buf[i] == Counted(s.buf[i], Passes(t.una, t.nxt, ws, s.buf[i].sn))
  {
    NewerFromNone(ws, q.newest);
    hide Newer, NewestAck, Counted;
    var s := q.k.snd;
    if q.newest.MaxAck? {
      BumpPasses(s.buf, q.newest.sn);
    }
    forall i | 0 <= i < |s.buf|
      ensures Counted(s.buf[i], 0) == s.buf[i]
    {
      CountedNone(s.buf[i]);
    }
  }

  /**
   Every segment a datagram leaves in the buffer was there before; its counter is one higher
   if the newest number acknowledged lies in the window and above it, and unchanged otherwise.
   */
  lemma DatagramCounts(x: Node, y: Node, i: nat)
    requires PairOk(Pair(x, y)) && i < |y.out|
    ensures var s, s' := x.k.snd, InputWires(Exact, x.k, y.out[i]).snd;
            forall t' | t' in s'.buf :: exists t | t in s.buf ::
              t'.sn == t.sn && t' == Counted(t, Passes(s'.una, s'.nxt, y.out[i], t.sn))
  {
    var ws := y.out[i];
    var q := InputSegs(Exact, Parse(x.k, NoAck), ws);
    var s' := InputWires(Exact, x.k, ws).snd;
    BufferSorted(x, y, i);
    InputSegsNewest(Parse(x.k, NoAck), ws);
    InputSegsOnlyDrop(Parse(x.k, NoAck), ws);
    TailPasses(q, x.k.snd.una, ws);
    hide PairOk, InputSegs, InputTail, Newer, PassedBy, SndSorted;
    forall t' | t' in s'.buf
      ensures exists t | t in x.k.snd.buf ::
                t'.sn == t.sn && t' == Counted(t, Passes(s'.una, s'.nxt, ws, t.sn))
    {
      var j :| 0 <= j < |s'.buf| && s'.buf[j] == t';
      assert q.k.snd.buf[j] in x.k.snd.buf;
    }
  }

  /** Without an acknowledgement no counter changes. */
  lemma NoAcksNoCount(x: Node, y: Node, i: nat)
    requires PairOk(Pair(x, y)) && i < |y.out| && forall sn :: !Acks(y.out[i], sn)
    ensures forall t' | t' in InputWires(Exact, x.k, y.out[i]).snd.buf :: t' in x.k.snd.buf
  {
    DatagramCounts(x, y, i);
    var s' := InputWires(Exact, x.k, y.out[i]).snd;
    assert forall sn :: Passes(s'.una, s'.nxt, y.out[i], sn) == 0;
    hide PairOk, InputWires, Acks, Passes;
    forall t' | t' in InputWires(Exact, x.k, y.out[i]).snd.buf
      ensures t' in x.k.snd.buf
    {
      var t :| t in x.k.snd.buf && t'.sn == t.sn
            && t' == Counted(t, Passes(s'.una, s'.nxt, y.out[i], t.sn));
      CountedNone(t);
    }
  }

  lemma BufferSorted(x: Node, y: Node, i: nat)
    requires PairOk(Pair(x, y)) && i < |y.out|
    ensures SndSorted(InputSegs(Exact, Parse(x.k, NoAck), y.out[i]).k.snd.buf)
  {
    var d := y.out[i];
    assert DatagramOk(d, y);
    forall j | 0 <= j < |d|
      ensures PushOk(d[j], y.numbered) && AckOk(d[j], y.k.rcv)
    {
      assert WireOk(d[j], y);
    }
    assert x.k.rcv.queue + y.numbered[x.k.rcv.nxt..x.k.rcv.nxt] == x.k.rcv.queue;
    InputSegsKeep(x.k, Parse(x.k, NoAck), d, x.numbered, y);
    hide InputSegs, SndSorted, SndMatches, NoLoss, ReceiverOk;
  }

  // ----- one operation

  /** A datagram logged after `out` carries data segment `n`. */
  ghost predicate PutOut(out: seq<seq<Wire>>, out': seq<seq<Wire>>, n: int) {
    exists i | |out| <= i < |out'| :: Carries(out'[i], CMD_PUSH, n)
  }

  /** How often an operation passes segment `n`. */
  ghost function OpPasses(x: Node, y: Node, op: Op, n: int): nat {
    if op.Deliver? && op.i < |y.out| then
      var s := ActExact(x, y.out, op).k.snd; Passes(s.una, s.nxt, y.out[op.i], n)
    else 0
  }

  /** Segment `t` after an operation: gone, put out again, or still there with its passes counted. */
  ghost predicate Kept(x: Node, x': Node, t: SndSeg, passes: nat) {
    || !InBuf(x'.k.snd.buf, t.sn)
    || PutOut(x.out, x'.out, t.sn)
    || Counted(t, passes) in x'.k.snd.buf
  }

  lemma {:induction false} SweptOne(t: Stamp, c: Control, buf: seq<SndSeg>, i: nat)
    requires i < |buf|
    ensures SweepAll(t, c, buf).buf[i] == TrySend(c, buf[i]).seg
    decreases |buf|
  {
    hide TrySend, DataWire;
    if i < |buf| - 1 {
      SweptOne(t, c, buf[..|buf| - 1], i);
    }
  }

  lemma NotDueStays(c: Control, s: SndSeg)
    ensures !IsDue(c, s) ==> TrySend(c, s).seg == s
  {
    hide Wrap, Itimediff, Resent, Signed;
  }

  /** A flush puts a segment out, or leaves it as it is. */
  lemma FlushPutsOrLeaves(k: Kcb, t: SndSeg)
    requires t in k.snd.buf && k.ctl.updated
    ensures t in Flush(Exact, k).k.snd.buf || exists w | w in Flush(Exact, k).wires :: w.cmd == CMD_PUSH && w.sn == t.sn
  {
    var c, st := ProbeTimer(k.ctl), StampOf(k);
    var buf := Swept(Exact, k);
    MoveKeepsBuf(k.snd, c);
    var i :| 0 <= i < |k.snd.buf| && k.snd.buf[i] == t;
    assert buf[i] == t;
    SweptOne(st, c, buf, i);
    NotDueStays(c, t);
    FlushSendsDue(Exact, k);
    hide IsDue, TrySend, ProbeTimer, Shrink, Move, StampOf;
    if IsDue(c, t) {
      assert DataWire(st, c, buf[i]).sn == t.sn;
    } else {
      assert Flush(Exact, k).k.snd.buf == SweepAll(st, c, buf).buf;
    }
  }

  lemma MoveKeepsBuf(s: Sender, c: Control)
    ensures s.buf <= Move(Exact, s, c).buf
  {
    hide MoveCount, Numbered;
  }

  lemma FlushKeepsSeg(x: Node, y: Node, c: Control, t: SndSeg)
    requires PairOk(Pair(x, y)) && Config(c) == Config(x.k.ctl) && t in x.k.snd.buf
    ensures Kept(x, EmitExact(x, Flush(Exact, x.k.(ctl := c))), t, 0)
  {
    CountedNone(t);
    var f := Flush(Exact, x.k.(ctl := c));
    FlushFits(x, y, c);
    if c.updated {
      FlushPutsOrLeaves(x.k.(ctl := c), t);
      hide Flush, PairOk, Counted;
      if t !in f.k.snd.buf {
        var w :| w in f.wires && w.cmd == CMD_PUSH && w.sn == t.sn;
        var i := EmitHolds(x, f, w);
        CarriesIt(EmitExact(x, f).out[i], w);
      }
    }
  }

  lemma CarriesIt(d: seq<Wire>, w: Wire)
    requires w in d
    ensures Carries(d, w.cmd, w.sn)
  {
    var j :| 0 <= j < |d| && d[j] == w;
  }

  lemma SameNumber(buf: seq<SndSeg>, a: SndSeg, b: SndSeg)
    requires SndSorted(buf) && a in buf && b in buf && a.sn == b.sn
    ensures a == b
  {
    var i :| 0 <= i < |buf| && buf[i] == a;
    var j :| 0 <= j < |buf| && buf[j] == b;
    if i < j {
      assert buf[i].sn < buf[j].sn;
    } else if j < i {
      assert buf[j].sn < buf[i].sn;
    }
  }

  lemma SortedIn(x: Node, y: Node)
    requires PairOk(Pair(x, y))
    ensures SndSorted(x.k.snd.buf)
  {
  }

  lemma DeliverKeepsSeg(x: Node, y: Node, i: nat, t: SndSeg)
    requires PairOk(Pair(x, y)) && t in x.k.snd.buf
    ensures Kept(x, ActExact(x, y.out, Deliver(i)), t, OpPasses(x, y, Deliver(i), t.sn))
  {
    CountedNone(t);
    var x' := ActExact(x, y.out, Deliver(i));
    if i < |y.out| && InBuf(x'.k.snd.buf, t.sn) {
      DatagramCounts(x, y, i);
      SortedIn(x, y);
      hide PairOk, InputWires, Passes, SndSorted, Counted;
      var j :| 0 <= j < |x'.k.snd.buf| && x'.k.snd.buf[j].sn == t.sn;
      var t', s' := x'.k.snd.buf[j], x'.k.snd;
      var u :| u in x.k.snd.buf && t'.sn == u.sn && t' == Counted(u, Passes(s'.una, s'.nxt, y.out[i], u.sn));
      SameNumber(x.k.snd.buf, u, t);
    }
  }

  lemma SendKeepsBuf(k: Kcb, data: seq<byte>)
    ensures Send(k, data).0.snd.buf == k.snd.buf
  {
    hide Fragments, FragmentCount, Extension;
  }

  /** What an operation makes of a segment in flight. */
  lemma ActKeepsSeg(x: Node, y: Node, op: Op, t: SndSeg)
    requires PairOk(Pair(x, y)) && t in x.k.snd.buf
    ensures Kept(x, ActExact(x, y.out, op), t, OpPasses(x, y, op, t.sn))
  {
    hide PairOk, Flush, Tick, Send, Recv;
    CountedNone(t);
    match op
    case DoSend(data) =>
      SendKeepsBuf(x.k, data);
    case DoRecv(len) =>
      RecvKeepsAcks(x.k, len);
    case DoUpdate(now) =>
      var (c, due) := Tick(x.k.ctl, now);
      if due {
        FlushKeepsSeg(x, y, c, t);
      }
    case DoFlush =>
      assert x.k.(ctl := x.k.ctl) == x.k;
      FlushKeepsSeg(x, y, x.k.ctl, t);
    case Deliver(i) =>
      DeliverKeepsSeg(x, y, i, t);
  }

  // ----- a run

  /** How often the datagrams a run delivers at A pass segment `n`. */
  ghost function RunPasses(p: Pair, xs: seq<Action>, n: int): nat {
    if xs == [] then 0
    else
      var q, x := PairRun(p, xs[..|xs| - 1]), xs[|xs| - 1];
      RunPasses(p, xs[..|xs| - 1], n) + if x.AtA? then OpPasses(q.a, q.b, x.op, n) else 0
  }

  lemma FlushAddsOnlyNew(k: Kcb, n: int)
    requires n < k.snd.nxt && !InBuf(k.snd.buf, n)
    ensures !InBuf(Flush(Exact, k).k.snd.buf, n)
  {
    if k.ctl.updated {
      var c := ProbeTimer(k.ctl);
      var buf := Swept(Exact, k);
      MoveAddsOnlyNew(k.snd, c, n);
      SweepSameSegs(StampOf(k), c, buf);
      SameSegsKeep(buf, SweepAll(StampOf(k), c, buf).buf, []);
      hide SweepAll, Move, ProbeTimer, Shrink, StampOf, InBuf;
      assert Flush(Exact, k).k.snd.buf == SweepAll(StampOf(k), c, buf).buf;
    }
  }

  lemma MoveAddsOnlyNew(s: Sender, c: Control, n: int)
    requires n < s.nxt && !InBuf(s.buf, n)
    ensures !InBuf(Move(Exact, s, c).buf, n)
  {
    hide MoveCount;
    var buf := Move(Exact, s, c).buf;
    var taken := s.queue[..|buf| - |s.buf|];
    assert buf == s.buf + Numbered(Exact, c, s.nxt, taken);
    forall j | 0 <= j < |buf|
      ensures buf[j].sn != n
    {
      if j >= |s.buf| {
        assert buf[j].sn == Exact.Norm(s.nxt + (j - |s.buf|));
      } else {
        assert buf[j] == s.buf[j];
      }
    }
  }

  lemma ActGone(x: Node, y: Node, op: Op, n: int)
    requires PairOk(Pair(x, y)) && n < x.k.snd.nxt && !InBuf(x.k.snd.buf, n)
    ensures !InBuf(ActExact(x, y.out, op).k.snd.buf, n)
  {
    hide PairOk, Flush, Tick, Send, Recv, InBuf;
    match op
    case DoSend(data) =>
      SendKeepsBuf(x.k, data);
    case DoRecv(len) =>
      RecvKeepsAcks(x.k, len);
    case DoUpdate(now) =>
      var (c, due) := Tick(x.k.ctl, now);
      if due {
        FlushAddsOnlyNew(x.k.(ctl := c), n);
      }
    case DoFlush =>
      FlushAddsOnlyNew(x.k, n);
    case Deliver(i) =>
      if i < |y.out| {
        DatagramCounts(x, y, i);
        DropsOnly(x, y, i, n);
      }
  }

  lemma DropsOnly(x: Node, y: Node, i: nat, n: int)
    requires i < |y.out|
    requires var s, s' := x.k.snd, InputWires(Exact, x.k, y.out[i]).snd;
             forall t' | t' in s'.buf :: exists t | t in s.buf ::
               t'.sn == t.sn && t' == Counted(t, Passes(s'.una, s'.nxt, y.out[i], t.sn))
    ensures InBuf(ActExact(x, y.out, Deliver(i)).k.snd.buf, n) ==> InBuf(x.k.snd.buf, n)
  {
    hide InputWires, Passes;
    var s' := InputWires(Exact, x.k, y.out[i]).snd;
    if InBuf(s'.buf, n) {
      var j :| 0 <= j < |s'.buf| && s'.buf[j].sn == n;
      assert s'.buf[j] in s'.buf;
    }
  }

  lemma KeptOn(x: Node, y: Node, z: Node, t: SndSeg, m: nat, n: nat)
    requires Kept(x, y, t, m) && x.out <= y.out <= z.out
    requires !InBuf(y.k.snd.buf, t.sn) ==> !InBuf(z.k.snd.buf, t.sn)
    requires Counted(t, m) in y.k.snd.buf ==> Kept(y, z, Counted(t, m), n)
    ensures Kept(x, z, t, m + n)
  {
    CountedTwice(t, m, n);
    hide InBuf, Wrap, Carries;
    if PutOut(x.out, y.out, t.sn) {
      var i :| |x.out| <= i < |y.out| && Carries(y.out[i], CMD_PUSH, t.sn);
      assert z.out[i] == y.out[i];
    } else if PutOut(y.out, z.out, t.sn) {
      var i :| |y.out| <= i < |z.out| && Carries(z.out[i], CMD_PUSH, t.sn);
    }
  }

  lemma NumberBelow(x: Node, y: Node, t: SndSeg)
    requires PairOk(Pair(x, y)) && t in x.k.snd.buf
    ensures t.sn < x.k.snd.nxt
  {
    var i :| 0 <= i < |x.k.snd.buf| && x.k.snd.buf[i] == t;
  }

  lemma NxtGrows(x: Node, y: Node, x': Node, y': Node)
    requires PairOk(Pair(x, y)) && PairOk(Pair(x', y')) && Grows(x, x')
    ensures x.k.snd.nxt <= x'.k.snd.nxt
  {
  }

  lemma KeptItself(x: Node, t: SndSeg)
    requires t in x.k.snd.buf
    ensures Kept(x, x, t, 0)
  {
    CountedNone(t);
  }

  /** Over a run a segment is acknowledged, put out again, or counts every pass. */
  lemma {:induction false} RunKeepsSeg(p: Pair, xs: seq<Action>, t: SndSeg)
    requires PairOk(p) && t in p.a.k.snd.buf
    ensures Kept(p.a, PairRun(p, xs).a, t, RunPasses(p, xs, t.sn))
    decreases |xs|
  {
    hide PairOk, Kept, PairStep, Grows, OpPasses, InBuf, ActExact, Counted;
    if xs == [] {
      KeptItself(p.a, t);
    } else {
      var init, x := xs[..|xs| - 1], xs[|xs| - 1];
      var q := PairRun(p, init);
      var m := RunPasses(p, init, t.sn);
      RunKeepsSeg(p, init, t);
      RunGrows(p, init);
      GrowsMeans(p.a, q.a);
      PairSwapped(p);
      PairSwapped(q);
      NumberBelow(p.a, p.b, t);
      NxtGrows(p.a, p.b, q.a, q.b);
      match x
      case AtB(op) =>
        SideSteps(q, op);
      case AtA(op) =>
        StepGrows(q, x);
        SideSteps(q, op);
        GrowsMeans(q.a, PairStep(q, x).a);
        if InBuf(q.a.k.snd.buf, t.sn) {
          if Counted(t, m) in q.a.k.snd.buf {
            ActKeepsSeg(q.a, q.b, op, Counted(t, m));
            CountedNumber(t, m);
          }
        } else {
          ActGone(q.a, q.b, op, t.sn);
          CountedInBuf(q.a, t, m);
        }
        KeptOn(p.a, q.a, PairStep(q, x).a, t, m, OpPasses(q.a, q.b, op, t.sn));
    }
  }

  lemma CountedNumber(t: SndSeg, m: nat)
    ensures Counted(t, m).sn == t.sn && Counted(t, m).xmit == t.xmit
    ensures t.fastack + m < M32 ==> Counted(t, m).fastack == t.fastack + m
  {
  }

  lemma CountedInBuf(x: Node, t: SndSeg, m: nat)
    ensures Counted(t, m) in x.k.snd.buf ==> InBuf(x.k.snd.buf, t.sn)
  {
    CountedNumber(t, m);
    if Counted(t, m) in x.k.snd.buf {
      var i :| 0 <= i < |x.k.snd.buf| && x.k.snd.buf[i] == Counted(t, m);
    }
  }

  /** Passed over often enough, and not resent too often for that. */
  predicate PassedOver(c: Control, s: SndSeg) {
    0 < c.fastresend <= s.fastack && (c.fastlimit <= 0 || Signed(s.xmit) <= c.fastlimit)
  }

  lemma PassedOverIsDue(c: Control, s: SndSeg)
    requires PassedOver(c, s) && c.fastresend < M32
    ensures IsDue(c, s)
  {
  }

  /** The flush that finds a segment passed over puts it out. */
  lemma FlushPutsPassed(x: Node, y: Node, c: Control, t: SndSeg)
    requires PairOk(Pair(x, y)) && Config(c) == Config(x.k.ctl) && c.updated && t in x.k.snd.buf
    requires PassedOver(c, t) && c.fastresend < M32
    ensures PutOut(x.out, EmitExact(x, Flush(Exact, x.k.(ctl := c))).out, t.sn)
  {
    var k := x.k.(ctl := c);
    var st, buf := StampOf(k), Swept(Exact, k);
    FlushFits(x, y, c);
    FlushSendsDue(Exact, k);
    MoveKeepsBuf(k.snd, ProbeTimer(c));
    PassedOverIsDue(ProbeTimer(c), t);
    hide Flush, PairOk, IsDue, ProbeTimer, Move, StampOf;
    var i :| 0 <= i < |k.snd.buf| && k.snd.buf[i] == t;
    assert buf[i] == t;
    var w := DataWire(st, ProbeTimer(c), buf[i]);
    var j := EmitHolds(x, Flush(Exact, k), w);
    CarriesIt(EmitExact(x, Flush(Exact, k)).out[j], w);
  }

  lemma RunKeepsSettings(p: Pair, xs: seq<Action>)
    requires PairOk(p)
    ensures PairOk(PairRun(p, xs)) && Config(PairRun(p, xs).a.k.ctl) == Config(p.a.k.ctl)
    ensures p.a.out <= PairRun(p, xs).a.out
  {
    RunGrows(p, xs);
    hide PairOk, PairRun, Steady;
  }

  /**
   A segment whose counter and the passes of a run come to `fastresend`, and which was not
   resent more often than `fastlimit`, is acknowledged or put out again by the next flush,
   no matter what else happens and without waiting for its timeout.
   */
  lemma FastRetransmit(p: Pair, xs: seq<Action>, op: Op, t: SndSeg)
    requires PairOk(p) && t in p.a.k.snd.buf && Flushes(PairRun(p, xs).a.k, op)
    requires var c, n := p.a.k.ctl, t.fastack + RunPasses(p, xs, t.sn);
             0 < c.fastresend <= n < M32 && (c.fastlimit <= 0 || Signed(t.xmit) <= c.fastlimit)
    ensures var q := PairRun(p, xs + [AtA(op)]);
            !InBuf(q.a.k.snd.buf, t.sn) || PutOut(p.a.out, q.a.out, t.sn)
  {
    hide *;
    var q, n := PairRun(p, xs), RunPasses(p, xs, t.sn);
    RunKeepsSeg(p, xs, t);
    RunKeepsSettings(p, xs);
    ThenStep(p, xs, AtA(op));
    SideSteps(q, op);
    PairSwapped(q);
    FlushingAct(q.a, q.b.out, op);
    AtFlushKeepsConfig(q.a.k, op);
    PairSwapped(p);
    NumberBelow(p.a, p.b, t);
    RunGrows(p, xs);
    NxtGrows(p.a, p.b, q.a, q.b);
    FlushMeets(p, q, op, t, n);
  }

  lemma AtFlushKeepsConfig(k: Kcb, op: Op)
    ensures Config(AtFlush(k.ctl, op)) == Config(k.ctl)
  {
  }

  lemma FlushMeets(p: Pair, q: Pair, op: Op, t: SndSeg, n: nat)
    requires PairOk(Pair(q.a, q.b)) && Kept(p.a, q.a, t, n) && p.a.out <= q.a.out && Flushes(q.a.k, op)
    requires t in p.a.k.snd.buf && PairOk(Pair(p.a, p.b)) && t.sn < q.a.k.snd.nxt
    requires Config(q.a.k.ctl) == Config(p.a.k.ctl) == Config(AtFlush(q.a.k.ctl, op)) && AtFlush(q.a.k.ctl, op).updated
    requires var c := p.a.k.ctl;
             0 < c.fastresend <= t.fastack + n < M32 && (c.fastlimit <= 0 || Signed(t.xmit) <= c.fastlimit)
    ensures var x' := EmitExact(q.a, Flush(Exact, q.a.k.(ctl := AtFlush(q.a.k.ctl, op))));
            !InBuf(x'.k.snd.buf, t.sn) || PutOut(p.a.out, x'.out, t.sn)
  {
    var c := AtFlush(q.a.k.ctl, op);
    var x' := EmitExact(q.a, Flush(Exact, q.a.k.(ctl := c)));
    CountedNumber(t, n);
    hide PairOk, Flush, AtFlush, Flushes, InBuf, Counted, Signed, Carries;
    if Counted(t, n) in q.a.k.snd.buf {
      FlushPutsPassed(q.a, q.b, c, Counted(t, n));
      var i :| |q.a.out| <= i < |x'.out| && Carries(x'.out[i], CMD_PUSH, t.sn);
    } else if PutOut(p.a.out, q.a.out, t.sn) {
      var i :| |p.a.out| <= i < |q.a.out| && Carries(q.a.out[i], CMD_PUSH, t.sn);
      assert x'.out[i] == q.a.out[i];
    } else {
      FlushAddsOnlyNew(q.a.k.(ctl := c), t.sn);
    }
  }
}
