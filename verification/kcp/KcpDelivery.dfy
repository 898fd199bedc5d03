/**
 What two endpoints promise their callers, over every run of the 32-bit engine across a
 network that loses, duplicates, delays and reorders datagrams.
 */
module KcpDelivery {
  import opened Arithmetic32
  import opened KcpWire
  import opened KcpState
  import opened KcpWindows
  import opened KcpNetwork
  import opened KcpSafety
  import opened KcpMessages
  import opened KcpSimulation

  // ----- the assumption about the network

  ghost predicate TimelyStep(p: Pair, x: Action) {
    match x
    case AtA(op) => Timely(p.a, p.b, op)
    case AtB(op) => Timely(p.b, p.a, op)
  }

  /** No datagram is delivered after half the number range has gone by. */
  ghost predicate TimelyRun(p: Pair, xs: seq<Action>) {
    xs != [] ==> TimelyRun(p, xs[..|xs| - 1]) && TimelyStep(PairRun(p, xs[..|xs| - 1]), xs[|xs| - 1])
  }

  // ----- the invariant of every run

  ghost predicate RunOk(w: World, p: Pair) {
    && PairOk(p)
    && UserOk(p.a, p.b) && UserOk(p.b, p.a)
    && InStep(w.a, p.a) && InStep(w.b, p.b)
    && WND_RCV <= p.a.k.ctl.rcvWnd < M31
    && WND_RCV <= p.b.k.ctl.rcvWnd < M31
  }

  lemma StartInStep(e: End)
    requires FreshKcb(e.k) && e == End(e.k, FRESH_CALLER, [])
    ensures InStep(e, Twin(e))
  {
    assert LowSnd([]) == [] && LowRcv([]) == [] && LowAcks([]) == [];
    assert EncodeEach([]) == [];
  }

  lemma StartUserOk(x: End, y: End)
    requires FreshKcb(x.k) && FreshKcb(y.k)
    ensures UserOk(Twin(x), Twin(y))
  {
  }

  lemma StartRunOk(w: World)
    requires FreshWorld(w)
    ensures RunOk(w, TwinWorld(w))
  {
    hide PairOk, UserOk, InStep;
    StartOk(w);
    StartUserOk(w.a, w.b);
    StartUserOk(w.b, w.a);
    StartInStep(w.a);
    StartInStep(w.b);
  }

  lemma ActKeepsConfig(x: Node, peerOut: seq<seq<Wire>>, op: Op)
    ensures Config(ActExact(x, peerOut, op).k.ctl) == Config(x.k.ctl)
  {
    match op
    case DoSend(data) =>
    case DoRecv(len) =>
    case DoUpdate(now) =>
    case DoFlush =>
    case Deliver(i) => if i < |peerOut| { InputWiresKeepsConfig(x.k, peerOut[i]); }
  }

  lemma {:induction false} InputSegsKeepConfig(p: Parse, ws: seq<Wire>)
    ensures Config(InputSegs(Exact, p, ws).k.ctl) == Config(p.k.ctl)
    decreases |ws|
  {
    if ws != [] {
      InputSegsKeepConfig(InputSeg(Exact, p, ws[0]), ws[1..]);
    }
  }

  lemma InputWiresKeepsConfig(k: Kcb, ws: seq<Wire>)
    ensures Config(InputWires(Exact, k, ws).ctl) == Config(k.ctl)
  {
    InputSegsKeepConfig(Parse(k, NoAck), ws);
  }

  lemma StepKeepsRunOk(w: World, p: Pair, x: Action)
    requires RunOk(w, p) && TimelyStep(p, x)
    ensures RunOk(WorldStep(w, x), PairStep(p, x))
  {
    hide UserOk, PairOk, InStep, Timely, Act, ActExact;
    StepKeeps(p, x);
    match x
    case AtA(op) =>
      Outputs(w, p);
      SameTwin(p);
      ActKeepsUser(p.a, p.b, op);
      ActInStep(w.a, p.a, p.b, op);
      ActKeepsConfig(p.a, p.b.out, op);
    case AtB(op) =>
      Outputs(w, p);
      SameTwin(p);
      ActKeepsUser(p.b, p.a, op);
      ActInStep(w.b, p.b, p.a, op);
      ActKeepsConfig(p.b, p.a.out, op);
  }

  lemma Outputs(w: World, p: Pair)
    requires InStep(w.a, p.a) && InStep(w.b, p.b)
    ensures w.a.out == EncodeEach(p.a.out) && w.b.out == EncodeEach(p.b.out)
  {
  }

  lemma SameTwin(p: Pair)
    requires PairOk(p)
    ensures PairOk(Pair(p.a, p.b)) && PairOk(Pair(p.b, p.a))
  {
  }

  /** Every run keeps the engine in step with its twin, and both invariants. */
  lemma {:induction false} EveryRunOk(w: World, xs: seq<Action>)
    requires FreshWorld(w) && TimelyRun(TwinWorld(w), xs)
    ensures RunOk(WorldRun(w, xs), PairRun(TwinWorld(w), xs))
  {
    hide RunOk, FreshWorld, WorldStep, PairStep, TimelyStep, TwinWorld;
    if xs == [] {
      StartRunOk(w);
    } else {
      var init := xs[..|xs| - 1];
      EveryRunOk(w, init);
      StepKeepsRunOk(WorldRun(w, init), PairRun(TwinWorld(w), init), xs[|xs| - 1]);
    }
  }

  // ----- what follows for the callers

  /** In message mode the messages returned are a prefix of the messages accepted. */
  lemma MessagesArriveInOrder(w: World, xs: seq<Action>)
    requires FreshWorld(w) && TimelyRun(TwinWorld(w), xs)
    ensures !WorldRun(w, xs).a.k.ctl.stream
            ==> WorldRun(w, xs).b.user.returned <= WorldRun(w, xs).a.user.accepted
    ensures !WorldRun(w, xs).b.k.ctl.stream
            ==> WorldRun(w, xs).a.user.returned <= WorldRun(w, xs).b.user.accepted
  {
    EveryRunOk(w, xs);
  }

  lemma BytesPrefix(a: seq<Frag>, b: seq<Frag>)
    requires a <= b
    ensures Bytes(a) <= Bytes(b)
  {
    assert b == a + b[|a|..];
    BytesAppend(a, b[|a|..]);
  }

  lemma ReadIsPrefix(x: Node, y: Node)
    requires PairOk(Pair(x, y)) && BytesOk(x, y)
    ensures y.user.read <= x.user.written
  {
    var all := x.numbered + x.k.snd.queue;
    assert Consumed(y) <= y.delivered;
    assert y.delivered <= x.numbered;
    hide PairOk, Consumed;
    assert Consumed(y) <= all;
    BytesPrefix(Consumed(y), all);
  }

  /** In either mode the bytes read are a prefix of the bytes written. */
  lemma BytesArriveInOrder(w: World, xs: seq<Action>)
    requires FreshWorld(w) && TimelyRun(TwinWorld(w), xs)
    ensures WorldRun(w, xs).b.user.read <= WorldRun(w, xs).a.user.written
    ensures WorldRun(w, xs).a.user.read <= WorldRun(w, xs).b.user.written
  {
    hide PairRun, WorldRun;
    EveryRunOk(w, xs);
    var p := PairRun(TwinWorld(w), xs);
    SameTwin(p);
    ReadIsPrefix(p.a, p.b);
    ReadIsPrefix(p.b, p.a);
  }

  /**
   Where the segment numbered `n` is: still in the sender's buffer, waiting in the
   receiver's, or delivered in its place.
   */
  ghost predicate Somewhere(x: End, y: End, n: int, frag: Frag, delivered: seq<Frag>) {
    || (exists i :: 0 <= i < |x.k.snd.buf| && x.k.snd.buf[i].sn == Wrap(n) && x.k.snd.buf[i].frag == frag)
    || (exists i :: 0 <= i < |y.k.rcv.buf| && y.k.rcv.buf[i] == RcvSeg(Wrap(n), frag))
    || (0 <= n < |delivered| && delivered[n] == frag)
  }

  lemma NotLost(ex: End, ey: End, x: Node, y: Node, n: int)
    requires PairOk(Pair(x, y)) && InStep(ex, x) && InStep(ey, y) && 0 <= n < |x.numbered|
    ensures Somewhere(ex, ey, n, x.numbered[n], y.delivered)
  {
    if InBuf(x.k.snd.buf, n) {
      var i :| 0 <= i < |x.k.snd.buf| && x.k.snd.buf[i].sn == n;
      assert ex.k.snd.buf[i].sn == Wrap(n) && ex.k.snd.buf[i].frag == x.numbered[n];
    } else if Waiting(y.k.rcv.buf, n) {
      var i :| 0 <= i < |y.k.rcv.buf| && y.k.rcv.buf[i].sn == n;
      assert ey.k.rcv.buf[i] == RcvSeg(Wrap(n), x.numbered[n]);
    } else {
      assert Held(y.k.rcv, n);
    }
  }

  /**
   What was ever appended to a receive queue is a prefix of what the peer numbered: no
   gap, no duplicate, same payload and fragment count. And no numbered segment is lost.
   */
  lemma SegmentsArriveInOrder(w: World, xs: seq<Action>)
    requires FreshWorld(w) && TimelyRun(TwinWorld(w), xs)
    ensures var p := PairRun(TwinWorld(w), xs);
            && p.b.delivered <= p.a.numbered
            && p.a.delivered <= p.b.numbered
    ensures var p, v := PairRun(TwinWorld(w), xs), WorldRun(w, xs);
            && (forall n | 0 <= n < |p.a.numbered| :: Somewhere(v.a, v.b, n, p.a.numbered[n], p.b.delivered))
            && (forall n | 0 <= n < |p.b.numbered| :: Somewhere(v.b, v.a, n, p.b.numbered[n], p.a.delivered))
  {
    EveryRunOk(w, xs);
    hide PairRun, WorldRun, Somewhere, InStep, UserOk;
    var p, v := PairRun(TwinWorld(w), xs), WorldRun(w, xs);
    SameTwin(p);
    forall n | 0 <= n < |p.a.numbered| ensures Somewhere(v.a, v.b, n, p.a.numbered[n], p.b.delivered) {
      NotLost(v.a, v.b, p.a, p.b, n);
    }
    forall n | 0 <= n < |p.b.numbered| ensures Somewhere(v.b, v.a, n, p.b.numbered[n], p.a.delivered) {
      NotLost(v.b, v.a, p.b, p.a, n);
    }
  }

  lemma OutFits(e: End, n: Node, i: int)
    requires OutOk(n) && InStep(e, n) && 0 <= i < |e.out|
    ensures OVERHEAD <= |e.out[i]| <= e.k.ctl.mtu
  {
    var d := n.out[i];
    assert DatagramOk(d, n);
    assert TotalSize(d) >= OVERHEAD;
  }

  /** Every datagram ever put out is at least a header and at most the mtu long. */
  lemma DatagramsFit(w: World, xs: seq<Action>)
    requires FreshWorld(w) && TimelyRun(TwinWorld(w), xs)
    ensures var v := WorldRun(w, xs);
            && (forall i | 0 <= i < |v.a.out| :: OVERHEAD <= |v.a.out[i]| <= v.a.k.ctl.mtu)
            && (forall i | 0 <= i < |v.b.out| :: OVERHEAD <= |v.b.out[i]| <= v.b.k.ctl.mtu)
  {
    EveryRunOk(w, xs);
    var p, v := PairRun(TwinWorld(w), xs), WorldRun(w, xs);
    forall i | 0 <= i < |v.a.out| ensures OVERHEAD <= |v.a.out[i]| <= v.a.k.ctl.mtu { OutFits(v.a, p.a, i); }
    forall i | 0 <= i < |v.b.out| ensures OVERHEAD <= |v.b.out[i]| <= v.b.k.ctl.mtu { OutFits(v.b, p.b, i); }
  }

  /** The send window as the 32-bit block shows it. */
  ghost predicate SendWindowHolds(s: Sender) {
    && Wrap(s.nxt - s.una) <= 0xffff
    && s.una == (if s.buf == [] then s.nxt else s.buf[0].sn)
    && (forall i | 0 <= i < |s.buf| :: Wrap(s.buf[i].sn - s.una) < Wrap(s.nxt - s.una))
    && (forall i, j | 0 <= i < j < |s.buf| :: Itimediff(s.buf[j].sn, s.buf[i].sn) > 0)
  }

  /** The receive window as the 32-bit block shows it. */
  ghost predicate ReceiveWindowHolds(r: Receiver, rcvWnd: int) {
    && (forall i | 0 <= i < |r.buf| :: 0 <= Itimediff(r.buf[i].sn, r.nxt) < rcvWnd)
    && (forall i, j | 0 <= i < j < |r.buf| :: Itimediff(r.buf[j].sn, r.buf[i].sn) > 0)
    && |r.queue| <= rcvWnd
    && (r.buf != [] && r.buf[0].sn == r.nxt ==> |r.queue| == rcvWnd)
  }

  lemma InFlightBounds(s: Sender, numbered: seq<Frag>, i: nat)
    requires SenderOk(s, numbered) && i < |s.buf|
    ensures s.una <= s.buf[i].sn < s.nxt
  {
    if i > 0 { assert s.buf[0].sn < s.buf[i].sn; }
  }

  lemma OffsetShows(s: Sender, numbered: seq<Frag>, i: nat)
    requires SenderOk(s, numbered) && i < |s.buf|
    ensures Wrap(Wrap(s.buf[i].sn) - Wrap(s.una)) < Wrap(Wrap(s.nxt) - Wrap(s.una)) <= 0xffff
  {
    InFlightBounds(s, numbered, i);
    WrapOfDifference(s.nxt, s.una);
    WrapOfDifference(s.buf[i].sn, s.una);
  }

  lemma OrderShows(s: Sender, numbered: seq<Frag>, i: nat, j: nat)
    requires SenderOk(s, numbered) && i < j < |s.buf|
    ensures Itimediff(Wrap(s.buf[j].sn), Wrap(s.buf[i].sn)) > 0
  {
    InFlightBounds(s, numbered, i);
    InFlightBounds(s, numbered, j);
    hide Wrap, Itimediff;
    ItimediffIsExact(s.buf[j].sn, s.buf[i].sn);
  }

  lemma SendWindowShows(s: Sender, numbered: seq<Frag>)
    requires SenderOk(s, numbered)
    ensures SendWindowHolds(LowSender(s))
  {
    WrapOfDifference(s.nxt, s.una);
    assert Wrap(Wrap(s.nxt) - Wrap(s.una)) <= 0xffff;
    assert s.una == if s.buf == [] then s.nxt else s.buf[0].sn;
    hide Wrap, Itimediff, LowSnd, SenderOk;
    var e := LowSender(s);
    forall i | 0 <= i < |e.buf| ensures Wrap(e.buf[i].sn - e.una) < Wrap(e.nxt - e.una) {
      OffsetShows(s, numbered, i);
    }
    forall i, j | 0 <= i < j < |e.buf| ensures Itimediff(e.buf[j].sn, e.buf[i].sn) > 0 {
      OrderShows(s, numbered, i, j);
    }
  }

  lemma ReceiveWindowShows(r: Receiver, rcvWnd: int, numbered: seq<Frag>)
    requires ReceiverOk(r, rcvWnd, numbered) && rcvWnd < M31
    ensures ReceiveWindowHolds(LowReceiver(r), rcvWnd)
  {
    var e := LowReceiver(r);
    forall i | 0 <= i < |e.buf| ensures 0 <= Itimediff(e.buf[i].sn, e.nxt) < rcvWnd {
      ItimediffIsExact(r.buf[i].sn, r.nxt);
    }
    forall i, j | 0 <= i < j < |e.buf| ensures Itimediff(e.buf[j].sn, e.buf[i].sn) > 0 {
      ItimediffIsExact(r.buf[j].sn, r.buf[i].sn);
    }
    if e.buf != [] {
      WrapInjectiveNear(r.buf[0].sn, r.nxt);
    }
  }

  ghost predicate WindowsHold(k: Kcb) {
    SendWindowHolds(k.snd) && ReceiveWindowHolds(k.rcv, k.ctl.rcvWnd)
  }

  lemma WindowsShow(ex: End, x: Node, y: Node)
    requires PairOk(Pair(x, y)) && InStep(ex, x) && x.k.ctl.rcvWnd < M31
    ensures WindowsHold(ex.k)
  {
    SendWindowShows(x.k.snd, x.numbered);
    ReceiveWindowShows(x.k.rcv, x.k.ctl.rcvWnd, y.numbered);
    hide SendWindowHolds, ReceiveWindowHolds, SenderOk, ReceiverOk, LowSender, LowReceiver;
  }

  /** Both windows are well-formed in every reachable state, across wraparound. */
  lemma WindowsAlwaysHold(w: World, xs: seq<Action>)
    requires FreshWorld(w) && TimelyRun(TwinWorld(w), xs)
    ensures WindowsHold(WorldRun(w, xs).a.k) && WindowsHold(WorldRun(w, xs).b.k)
  {
    EveryRunOk(w, xs);
    hide PairRun, WorldRun, WindowsHold, PairOk, UserOk, InStep;
    var p, v := PairRun(TwinWorld(w), xs), WorldRun(w, xs);
    SameTwin(p);
    WindowsShow(v.a, p.a, p.b);
    WindowsShow(v.b, p.b, p.a);
  }

  /** In message mode a full receive queue can always be read from. */
  lemma NeverStalls(w: World, xs: seq<Action>)
    requires FreshWorld(w) && TimelyRun(TwinWorld(w), xs)
    ensures var v := WorldRun(w, xs);
            !v.a.k.ctl.stream && |v.b.k.rcv.queue| >= v.b.k.ctl.rcvWnd ==> PeekSize(v.b.k.rcv) >= 0
    ensures var v := WorldRun(w, xs);
            !v.b.k.ctl.stream && |v.a.k.rcv.queue| >= v.a.k.ctl.rcvWnd ==> PeekSize(v.a.k.rcv) >= 0
  {
    EveryRunOk(w, xs);
    hide PairRun, WorldRun, PeekSize, PairOk, MessagesOk, BytesOk;
    var p, v := PairRun(TwinWorld(w), xs), WorldRun(w, xs);
    SameTwin(p);
    PeekLow(p.a.k.rcv);
    PeekLow(p.b.k.rcv);
    if !v.a.k.ctl.stream && |v.b.k.rcv.queue| >= v.b.k.ctl.rcvWnd { FullQueueIsReadable(p.a, p.b); }
    if !v.b.k.ctl.stream && |v.a.k.rcv.queue| >= v.a.k.ctl.rcvWnd { FullQueueIsReadable(p.b, p.a); }
  }

  lemma PeekLow(r: Receiver)
    ensures PeekSize(LowReceiver(r)) == PeekSize(r)
  {
  }

  lemma NextIsNotWaiting(r: Receiver, rcvWnd: int, numbered: seq<Frag>)
    requires ReorderOk(r, rcvWnd, numbered) && Drained(r, rcvWnd) && |r.queue| < rcvWnd
    ensures !Held(r, r.nxt)
  {
    forall i | 0 <= i < |r.buf| ensures r.buf[i].sn > r.nxt {
      if i > 0 { assert r.buf[0].sn < r.buf[i].sn; }
    }
  }

  lemma AllHeldIsDelivered(x: Node, y: Node)
    requires PairOk(Pair(x, y)) && x.k.snd.buf == [] && y.k.rcv.queue == [] && y.k.ctl.rcvWnd > 0
    ensures Consumed(y) == x.numbered
  {
    var n := y.k.rcv.nxt;
    NextIsNotWaiting(y.k.rcv, y.k.ctl.rcvWnd, x.numbered);
    assert !InBuf(x.k.snd.buf, n);
    assert n == |x.numbered|;
  }

  lemma SameFragsSameMessages(mss: int, a: seq<seq<byte>>, b: seq<seq<byte>>)
    requires mss > 0 && a <= b && AllFrags(mss, a) == AllFrags(mss, b)
    requires forall i | 0 <= i < |b| :: FragmentCount(mss, |b[i]|) < WND_RCV
    ensures a == b
  {
    if |a| < |b| {
      assert b[..|a|] == a;
      AllFragsAt(mss, b, |a|);
      CountSuffices(mss, |b[|a|]|);
      FragmentsCarry(mss, b[|a|], FragmentCount(mss, |b[|a|]|), false);
    }
  }

  lemma AllReturned(x: Node, y: Node)
    requires PairOk(Pair(x, y)) && MessagesOk(x, y)
    requires x.k.snd.buf == [] && x.k.snd.queue == [] && y.k.rcv.queue == [] && y.k.ctl.rcvWnd > 0
    ensures y.user.returned == x.user.accepted
  {
    AllHeldIsDelivered(x, y);
    assert x.numbered + [] == x.numbered;
    SameFragsSameMessages(Mss(x.k.ctl), y.user.returned, x.user.accepted);
  }

  /**
   Acknowledgements can be believed: once `ikcp_waitsnd` is 0 on one side and the other
   side's receive queue is empty, every message accepted has been returned.
   */
  lemma NothingPendingMeansAllReturned(w: World, xs: seq<Action>)
    requires FreshWorld(w) && TimelyRun(TwinWorld(w), xs)
    ensures var v := WorldRun(w, xs);
            && !v.a.k.ctl.stream && |v.a.k.snd.buf| + |v.a.k.snd.queue| == 0 && v.b.k.rcv.queue == []
            ==> v.b.user.returned == v.a.user.accepted
    ensures var v := WorldRun(w, xs);
            && !v.b.k.ctl.stream && |v.b.k.snd.buf| + |v.b.k.snd.queue| == 0 && v.a.k.rcv.queue == []
            ==> v.a.user.returned == v.b.user.accepted
  {
    EveryRunOk(w, xs);
    hide PairRun, WorldRun, PairOk, MessagesOk, BytesOk;
    var p, v := PairRun(TwinWorld(w), xs), WorldRun(w, xs);
    SameTwin(p);
    if !v.a.k.ctl.stream && |v.a.k.snd.buf| + |v.a.k.snd.queue| == 0 && v.b.k.rcv.queue == [] {
      AllReturned(p.a, p.b);
    }
    if !v.b.k.ctl.stream && |v.b.k.snd.buf| + |v.b.k.snd.queue| == 0 && v.a.k.rcv.queue == [] {
      AllReturned(p.b, p.a);
    }
  }

  // ----- when the assumption comes for free

  lemma ShortStepIsTimely(x: Node, y: Node, op: Op)
    requires PairOk(Pair(x, y))
    requires |x.numbered| <= M31 && |y.numbered| + x.k.ctl.rcvWnd <= M31
    ensures Timely(x, y, op)
  {
    if op.Deliver? && op.i < |y.out| {
      var d := y.out[op.i];
      assert DatagramOk(d, y);
      forall j | 0 <= j < |d| ensures TimelyWire(d[j], x, y) {
        assert WireOk(d[j], y);
        if d[j].cmd == CMD_ACK { AckBelowNxt(x, y, d[j]); }
      }
    }
  }

  lemma StepOnlyNumbersMore(p: Pair, x: Action)
    ensures var q := PairStep(p, x);
            && p.a.numbered <= q.a.numbered && p.b.numbered <= q.b.numbered
            && q.a.k.ctl.rcvWnd == p.a.k.ctl.rcvWnd && q.b.k.ctl.rcvWnd == p.b.k.ctl.rcvWnd
  {
    match x
    case AtA(op) => ActKeepsConfig(p.a, p.b.out, op);
    case AtB(op) => ActKeepsConfig(p.b, p.a.out, op);
  }

  /** A run in which neither side numbers 2^31 segments, less a window, is timely. */
  lemma {:induction false} ShortRunIsTimely(p: Pair, xs: seq<Action>)
    requires PairOk(p)
    requires |PairRun(p, xs).a.numbered| + PairRun(p, xs).b.k.ctl.rcvWnd <= M31
    requires |PairRun(p, xs).b.numbered| + PairRun(p, xs).a.k.ctl.rcvWnd <= M31
    ensures TimelyRun(p, xs)
  {
    if xs != [] {
      hide PairOk, PairStep, Timely;
      var init := xs[..|xs| - 1];
      var q := PairRun(p, init);
      StepOnlyNumbersMore(q, xs[|xs| - 1]);
      ShortRunIsTimely(p, init);
      RunKeeps(p, init);
      SameTwin(q);
      match xs[|xs| - 1]
      case AtA(op) => ShortStepIsTimely(q.a, q.b, op);
      case AtB(op) => ShortStepIsTimely(q.b, q.a, op);
    }
  }
}
