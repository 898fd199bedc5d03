/**
 Round trips: what one exchange of datagrams that get through brings about, whatever else
 the two sides and the network do before, between and after.
 */
module KcpRoundTrips {
  import opened Arithmetic32
  import opened KcpWire
  import opened KcpState
  import opened KcpWindows
  import opened KcpNetwork
  import opened KcpSafety
  import opened KcpSimulation
  import opened KcpDelivery
  import opened KcpProgress

  // ----- operations that flush

  /** The operation flushes: `ikcp_flush`, or an `ikcp_update` that is due. */
  predicate Flushes(k: Kcb, op: Op) {
    match op
    case DoFlush => k.ctl.updated
    case DoUpdate(now) => Tick(k.ctl, now).1
    case _ => false
  }

  /** The control block the flush sees. */
  function AtFlush(c: Control, op: Op): (r: Control)
    ensures Config(r) == Config(c)
  {
    if op.DoUpdate? then Tick(c, op.now).0 else c
  }

  lemma FlushingAct(x: Node, peerOut: seq<seq<Wire>>, op: Op)
    requires Flushes(x.k, op)
    ensures AtFlush(x.k.ctl, op).updated
    ensures ActExact(x, peerOut, op) == EmitExact(x, Flush(Exact, x.k.(ctl := AtFlush(x.k.ctl, op))))
  {
    hide Flush;
    assert x.k.(ctl := x.k.ctl) == x.k;
  }

  // ----- one round trip

  /** The oldest segment the sender still has is inside the window of a receiver with room in its queue. */
  lemma RoomForOldest(x: Node, y: Node)
    requires PairOk(Pair(x, y)) && |y.k.rcv.queue| < y.k.ctl.rcvWnd
    ensures x.k.snd.una <= y.k.rcv.nxt < y.k.rcv.nxt + y.k.ctl.rcvWnd
  {
    NextIsNotWaiting(y.k.rcv, y.k.ctl.rcvWnd, x.numbered);
    InWindow(x.k.snd, x.numbered, y.k.rcv.nxt);
  }

  /** The operation flushes, and the oldest segment is due at that flush. */
  ghost predicate SendsOldest(ar: Arith, k: Kcb, op: Op) {
    Flushes(k, op) && HeadDue(ar, k.(ctl := AtFlush(k.ctl, op)))
  }

  /** First leg: the oldest segment is put out. */
  lemma FirstLeg(p: Pair, op: Op)
    requires PairOk(p) && SendsOldest(Exact, p.a.k, op)
    ensures var q := PairStep(p, AtA(op)); var sn := p.a.k.snd.una;
            Logged(q.a.out, CMD_PUSH, sn) && sn < |q.a.numbered|
  {
    PairSwapped(p);
    hide PairOk, Flushes, HeadDue, Flush, Logged, EmitExact, ActExact, AtFlush;
    var c := AtFlush(p.a.k.ctl, op);
    FlushingAct(p.a, p.b.out, op);
    FlushSendsHead(p.a, p.b, c);
    HeadIsNumbered(p.a, p.b, c);
  }

  /** Second leg: delivered below the end of the window it is acknowledged. */
  lemma SecondLeg(p: Pair, i: nat, sn: int)
    requires i < |p.a.out| && Carries(p.a.out[i], CMD_PUSH, sn) && sn < p.b.k.rcv.nxt + p.b.k.ctl.rcvWnd
    ensures AckUnderWay(PairStep(p, AtB(Deliver(i))).b, sn)
  {
    hide HasAck, Carries, Logged, ActExact;
    DeliveryIsAcked(p.b, p.a.out, i, sn);
  }

  /** Third leg: the acknowledgement is put out. */
  lemma ThirdLeg(p: Pair, op: Op, sn: int)
    requires PairOk(p) && AckUnderWay(p.b, sn) && Flushes(p.b.k, op)
    ensures Logged(PairStep(p, AtB(op)).b.out, CMD_ACK, sn)
  {
    PairSwapped(p);
    hide PairOk, AckUnderWay, Flush, Logged, Flushes, EmitExact, ActExact, AtFlush;
    FlushingAct(p.b, p.a.out, op);
    FlushLogsAck(p.b, p.a, AtFlush(p.b.k.ctl, op), sn);
  }

  /** Last leg: delivered, it moves the window. */
  lemma LastLeg(p: Pair, j: nat, sn: int)
    requires PairOk(p) && j < |p.b.out| && Carries(p.b.out[j], CMD_ACK, sn)
    requires sn <= p.a.k.snd.una && sn < |p.a.numbered|
    ensures PairStep(p, AtA(Deliver(j))).a.k.snd.una > sn
  {
    PairSwapped(p);
    hide PairOk, Carries, ActExact;
    DeliveryClears(p.a, p.b, j, sn);
  }

  /** The way there: A flushes, and B is handed datagram `i` of A's log. */
  function There(op: Op, xs: seq<Action>, i: nat): seq<Action> {
    [AtA(op)] + xs + [AtB(Deliver(i))]
  }

  /** The way back: B flushes, and A is handed datagram `j` of B's log. */
  function Back(op: Op, zs: seq<Action>, j: nat): seq<Action> {
    [AtB(op)] + zs + [AtA(Deliver(j))]
  }

  lemma ThereIs(p: Pair, op: Op, xs: seq<Action>, i: nat)
    ensures PairRun(p, There(op, xs, i)) == PairStep(PairRun(PairStep(p, AtA(op)), xs), AtB(Deliver(i)))
  {
    hide PairStep, PairRun;
    NoRun(p);
    ThenStep(p, [], AtA(op));
    assert [] + [AtA(op)] == [AtA(op)];
    RunInParts(p, [AtA(op)], xs);
    ThenStep(p, [AtA(op)] + xs, AtB(Deliver(i)));
  }

  lemma BackIs(p: Pair, op: Op, zs: seq<Action>, j: nat)
    ensures PairRun(p, Back(op, zs, j)) == PairStep(PairRun(PairStep(p, AtB(op)), zs), AtA(Deliver(j)))
  {
    hide PairStep, PairRun;
    NoRun(p);
    ThenStep(p, [], AtB(op));
    assert [] + [AtB(op)] == [AtB(op)];
    RunInParts(p, [AtB(op)], zs);
    ThenStep(p, [AtB(op)] + zs, AtA(Deliver(j)));
  }

  lemma ThereArrives(p: Pair, op: Op, xs: seq<Action>) returns (i: nat)
    requires PairOk(p) && SendsOldest(Exact, p.a.k, op)
    requires p.a.k.snd.una < p.b.k.rcv.nxt + p.b.k.ctl.rcvWnd
    ensures var q := PairRun(p, There(op, xs, i)); var sn := p.a.k.snd.una;
            AckUnderWay(q.b, sn) && sn < |q.a.numbered|
  {
    hide *;
    var sn := p.a.k.snd.una;
    var p1 := PairStep(p, AtA(op));
    var p2 := PairRun(p1, xs);
    FirstLeg(p, op);
    StepGrows(p, AtA(op));
    RunGrows(p1, xs);
    GrowsOn(p.b, p1.b, p2.b);
    GrowsMeans(p.b, p2.b);
    GrowsMeans(p1.a, p2.a);
    LogStays(p1.a.out, p2.a.out, CMD_PUSH, sn);
    i := WhereLogged(p2.a.out, CMD_PUSH, sn);
    SecondLeg(p2, i, sn);
    StepGrows(p2, AtB(Deliver(i)));
    GrowsMeans(p2.a, PairStep(p2, AtB(Deliver(i))).a);
    ThereIs(p, op, xs, i);
  }

  lemma WhereLogged(out: seq<seq<Wire>>, cmd: byte, sn: int) returns (i: nat)
    requires Logged(out, cmd, sn)
    ensures i < |out| && Carries(out[i], cmd, sn)
  {
    i :| i < |out| && Carries(out[i], cmd, sn);
  }

  lemma BackArrives(p: Pair, op: Op, zs: seq<Action>, sn: int) returns (j: nat)
    requires PairOk(p) && AckUnderWay(p.b, sn) && Flushes(p.b.k, op)
    requires sn <= p.a.k.snd.una && sn < |p.a.numbered|
    ensures PairRun(p, Back(op, zs, j)).a.k.snd.una > sn
  {
    hide *;
    var p1 := PairStep(p, AtB(op));
    var p2 := PairRun(p1, zs);
    ThirdLeg(p, op, sn);
    StepGrows(p, AtB(op));
    RunGrows(p1, zs);
    GrowsOn(p.a, p1.a, p2.a);
    GrowsMeans(p.a, p2.a);
    GrowsMeans(p1.b, p2.b);
    LogStays(p1.b.out, p2.b.out, CMD_ACK, sn);
    j := WhereLogged(p2.b.out, CMD_ACK, sn);
    LastLeg(p2, j, sn);
    BackIs(p, op, zs, j);
  }

  /** The whole trip, with `xs`, `ys` and `zs` in between. */
  function Trip(a: Op, xs: seq<Action>, i: nat, ys: seq<Action>, b: Op, zs: seq<Action>, j: nat): seq<Action> {
    There(a, xs, i) + ys + Back(b, zs, j)
  }

  lemma TripIs(p: Pair, a: Op, xs: seq<Action>, i: nat, ys: seq<Action>, b: Op, zs: seq<Action>, j: nat)
    ensures PairRun(p, Trip(a, xs, i, ys, b, zs, j))
         == PairRun(PairRun(PairRun(p, There(a, xs, i)), ys), Back(b, zs, j))
    ensures PairRun(p, There(a, xs, i) + ys) == PairRun(PairRun(p, There(a, xs, i)), ys)
  {
    hide PairRun, There, Back;
    RunInParts(p, There(a, xs, i), ys);
    RunInParts(p, There(a, xs, i) + ys, Back(b, zs, j));
  }

  /**
   A due segment that gets through and an acknowledgement that gets through move the send
   window past that segment.
   */
  lemma RoundTripMakesProgress(p: Pair, a: Op, xs: seq<Action>, ys: seq<Action>, b: Op, zs: seq<Action>)
    returns (i: nat, j: nat)
    requires PairOk(p) && SendsOldest(Exact, p.a.k, a)
    requires p.a.k.snd.una < p.b.k.rcv.nxt + p.b.k.ctl.rcvWnd
    ensures Flushes(PairRun(p, There(a, xs, i) + ys).b.k, b) ==>
      PairRun(p, Trip(a, xs, i, ys, b, zs, j)).a.k.snd.una > p.a.k.snd.una
  {
    hide *;
    var sn := p.a.k.snd.una;
    i := ThereArrives(p, a, xs);
    j := 0;
    var p1 := PairRun(p, There(a, xs, i));
    var p2 := PairRun(p1, ys);
    RunGrows(p, There(a, xs, i));
    RunGrows(p1, ys);
    RunKeepsAck(p1, ys, sn);
    GrowsMeans(p1.a, p2.a);
    GrowsMeans(p.a, p1.a);
    TripIs(p, a, xs, i, ys, b, zs, j);
    if Flushes(p2.b.k, b) {
      j := BackArrives(p2, b, zs, sn);
      TripIs(p, a, xs, i, ys, b, zs, j);
    }
  }

  // ----- the same for the blocks that run

  /** A run that is timely is timely as far as it has got. */
  lemma {:induction false} TimelySoFar(p: Pair, xs: seq<Action>, ys: seq<Action>)
    requires TimelyRun(p, xs + ys)
    ensures TimelyRun(p, xs)
    decreases |ys|
  {
    hide TimelyStep, PairRun;
    if ys == [] {
      assert xs + ys == xs;
    } else {
      assert (xs + ys)[..|xs + ys| - 1] == xs + ys[..|ys| - 1];
      TimelySoFar(p, xs, ys[..|ys| - 1]);
    }
  }

  lemma SeenLow(w: World, xs: seq<Action>)
    requires FreshWorld(w) && TimelyRun(TwinWorld(w), xs)
    ensures var v, p := WorldRun(w, xs), PairRun(TwinWorld(w), xs);
            && PairOk(p) && v.a.k == Low(p.a.k) && v.b.k == Low(p.b.k)
            && p.a.k.ctl.rcvWnd < M31 && p.b.k.ctl.rcvWnd < M31
  {
    EveryRunOk(w, xs);
    hide PairOk, PairRun, WorldRun, TimelyRun, FreshWorld, TwinWorld;
  }

  lemma DueLow(k: Kcb, c: Control, numbered: seq<Frag>)
    requires SenderOk(k.snd, numbered)
    ensures HeadDue(Mod32, Low(k).(ctl := c)) <==> HeadDue(Exact, k.(ctl := c))
  {
    MoveLow(k.snd, ProbeTimer(c), numbered);
    hide Move, ProbeTimer, Resent;
  }

  lemma SendsLow(x: Node, y: Node, op: Op)
    requires PairOk(Pair(x, y)) && SendsOldest(Mod32, Low(x.k), op)
    ensures SendsOldest(Exact, x.k, op)
  {
    hide HeadDue, Tick;
    DueLow(x.k, AtFlush(x.k.ctl, op), x.numbered);
  }

  /** How many segments A has given a number. */
  ghost function NumberedBy(w: World, xs: seq<Action>): nat {
    |PairRun(TwinWorld(w), xs).a.numbered|
  }

  lemma MovedAhead(s: Sender, n: seq<Frag>, s': Sender, n': seq<Frag>)
    requires SenderOk(s, n) && SenderOk(s', n') && s.una < s'.una && |n'| <= |n| + M31 - M16
    ensures Itimediff(Wrap(s'.una), Wrap(s.una)) > 0
  {
    ItimediffIsExact(s'.una, s.una);
  }

  lemma UnaAhead(w: World, xs: seq<Action>, ys: seq<Action>)
    requires FreshWorld(w) && TimelyRun(TwinWorld(w), xs + ys)
    requires NumberedBy(w, xs + ys) <= NumberedBy(w, xs) + M31 - M16
    requires var p := PairRun(TwinWorld(w), xs); PairRun(p, ys).a.k.snd.una > p.a.k.snd.una
    ensures Itimediff(WorldRun(w, xs + ys).a.k.snd.una, WorldRun(w, xs).a.k.snd.una) > 0
  {
    hide PairRun, WorldRun, TimelyRun, FreshWorld, TwinWorld;
    TimelySoFar(TwinWorld(w), xs, ys);
    SeenLow(w, xs);
    SeenLow(w, xs + ys);
    RunInParts(TwinWorld(w), xs, ys);
    var x, x' := PairRun(TwinWorld(w), xs).a, PairRun(TwinWorld(w), xs + ys).a;
    MovedAhead(x.k.snd, x.numbered, x'.k.snd, x'.numbered);
  }

  /**
   So it is for the 32-bit blocks: from any state of any run, if the oldest segment is due
   when A flushes and B has room in its queue, `snd_una` has moved ahead after the trip.
   */
  lemma WorldRoundTrip(w: World, before: seq<Action>, a: Op, xs: seq<Action>, ys: seq<Action>, b: Op, zs: seq<Action>)
    returns (i: nat, j: nat)
    requires FreshWorld(w) && TimelyRun(TwinWorld(w), before)
    requires var v := WorldRun(w, before);
             SendsOldest(Mod32, v.a.k, a) && |v.b.k.rcv.queue| < v.b.k.ctl.rcvWnd
    ensures var run := before + Trip(a, xs, i, ys, b, zs, j);
            && TimelyRun(TwinWorld(w), run)
            && Flushes(WorldRun(w, before + (There(a, xs, i) + ys)).b.k, b)
            && NumberedBy(w, run) <= NumberedBy(w, before) + M31 - M16
            ==> Itimediff(WorldRun(w, run).a.k.snd.una, WorldRun(w, before).a.k.snd.una) > 0
  {
    hide *;
    var p := PairRun(TwinWorld(w), before);
    SeenLow(w, before);
    LowIs(p.b.k);
    PairSwapped(p);
    SendsLow(p.a, p.b, a);
    RoomForOldest(p.a, p.b);
    i, j := RoundTripMakesProgress(p, a, xs, ys, b, zs);
    var there := There(a, xs, i) + ys;
    var trip := Trip(a, xs, i, ys, b, zs, j);
    if TimelyRun(TwinWorld(w), before + trip) && Flushes(WorldRun(w, before + there).b.k, b)
      && NumberedBy(w, before + trip) <= NumberedBy(w, before) + M31 - M16 {
      TripBegins(before, a, xs, i, ys, b, zs, j);
      TimelySoFar(TwinWorld(w), before + there, Back(b, zs, j));
      SeenLow(w, before + there);
      RunInParts(TwinWorld(w), before, there);
      LowFlushes(PairRun(p, there).b.k, b);
      UnaAhead(w, before, trip);
    }
  }

  lemma TripBegins(before: seq<Action>, a: Op, xs: seq<Action>, i: nat, ys: seq<Action>, b: Op, zs: seq<Action>, j: nat)
    ensures before + Trip(a, xs, i, ys, b, zs, j) == before + (There(a, xs, i) + ys) + Back(b, zs, j)
  {
    hide There, Back;
  }

  lemma LowIs(k: Kcb)
    ensures Low(k).rcv.queue == k.rcv.queue && Low(k).ctl == k.ctl && WndUnused(Low(k)) == WndUnused(k)
  {
  }

  lemma LowFlushes(k: Kcb, op: Op)
    ensures Flushes(Low(k), op) <==> Flushes(k, op)
  {
  }

  // ----- a window of zero

  /** The peer has no room, and it is time to ask again. */
  predicate ProbeDue(c: Control) {
    c.updated && c.rmtWnd == 0 && c.probeWait != 0 && Itimediff(c.current, c.tsProbe) >= 0
  }

  ghost predicate Asks(ws: seq<Wire>) {
    exists w | w in ws :: w.cmd == CMD_WASK
  }

  lemma ProbeIsSent(k: Kcb)
    requires ProbeDue(k.ctl)
    ensures Asks(Flush(Exact, k).wires)
  {
    hide SweepAll, Move, Shrink, AckWires;
    var c := ProbeTimer(k.ctl);
    var w := ProbeWire(StampOf(k), CMD_WASK, LastAck(k.rcv.acks));
    assert w in ProbeWires(StampOf(k), c, LastAck(k.rcv.acks));
    assert w in Flush(Exact, k).wires;
  }

  lemma InputSegTells(p: Parse, w: Wire)
    ensures var q := InputSeg(Exact, p, w);
            && q.k.ctl.rmtWnd == w.wnd && (p.k.ctl.askTell || w.cmd == CMD_WASK ==> q.k.ctl.askTell)
            && (p.k.ctl.updated ==> q.k.ctl.updated)
  {
    hide ParseUna, ParseAck, Push, NextSrtt, NextRttval, NextRto, Mark;
  }

  lemma {:induction false} InputSegsTell(p: Parse, ws: seq<Wire>)
    ensures var q := InputSegs(Exact, p, ws);
            && (p.k.ctl.askTell || Asks(ws) ==> q.k.ctl.askTell)
            && (ws != [] ==> q.k.ctl.rmtWnd == ws[|ws| - 1].wnd)
    decreases |ws|
  {
    hide InputSeg;
    if ws != [] {
      InputSegTells(p, ws[0]);
      InputSegsTell(InputSeg(Exact, p, ws[0]), ws[1..]);
      assert forall w | w in ws :: w == ws[0] || w in ws[1..];
    }
  }

  lemma TailKeepsTell(q: Parse, prevUna: int)
    ensures var k := InputTail(Exact, prevUna, q);
            k.ctl.askTell == q.k.ctl.askTell && k.ctl.rmtWnd == q.k.ctl.rmtWnd
  {
    hide ParseFastack, AvoidanceStep, CeilDiv, Wrap;
  }

  /** What a datagram leaves of the two windows' talk. */
  lemma DeliveryTells(x: Node, peerOut: seq<seq<Wire>>, i: nat)
    requires i < |peerOut| && peerOut[i] != []
    ensures var k := ActExact(x, peerOut, Deliver(i)).k;
            && (Asks(peerOut[i]) ==> k.ctl.askTell) && k.ctl.rmtWnd == peerOut[i][|peerOut[i]| - 1].wnd
  {
    var d := peerOut[i];
    InputSegsTell(Parse(x.k, NoAck), d);
    TailKeepsTell(InputSegs(Exact, Parse(x.k, NoAck), d), x.k.snd.una);
    hide InputSegs, InputTail, Asks;
  }

  /** All a flush puts out announces the same window. */
  lemma FlushAnnounces(k: Kcb)
    requires k.ctl.updated
    ensures forall w | w in Flush(Exact, k).wires :: w.wnd == WndUnused(k) % M16
    ensures k.ctl.askTell ==> exists w :: w in Flush(Exact, k).wires && w.cmd == CMD_WINS
  {
    var c, t := ProbeTimer(k.ctl), StampOf(k);
    var buf, acks, last := Swept(Exact, k), k.rcv.acks, LastAck(k.rcv.acks);
    var sent, probes := SweepAll(t, c, buf).wires, ProbeWires(t, c, last);
    SweepSendsDue(t, c, buf);
    ProbesAnnounce(t, k.ctl, last);
    hide SweepAll, Move, Shrink, IsDue, LastAck, ProbeTimer, ProbeWires, ProbeWire;
    var ws := Flush(Exact, k).wires;
    assert ws == AckWires(t, acks) + probes + sent;
    assert forall w | w in ws :: w in AckWires(t, acks) || w in probes || w in sent;
    assert forall w | w in probes :: w in ws;
  }

  lemma ProbesAnnounce(t: Stamp, k: Control, last: AckItem)
    ensures forall w | w in ProbeWires(t, ProbeTimer(k), last) :: w.wnd == t.wnd
    ensures k.askTell ==> exists w :: w in ProbeWires(t, ProbeTimer(k), last) && w.cmd == CMD_WINS
  {
    hide Wrap, Itimediff;
    assert k.askTell ==> ProbeWire(t, CMD_WINS, last) in ProbeWires(t, ProbeTimer(k), last);
  }

  /** The datagram of a flush that a segment is in, which holds segments of that flush only. */
  lemma EmitHolds(x: Node, f: FlushResult, w: Wire) returns (i: nat)
    requires w in f.wires && forall i | 0 <= i < |f.wires| :: Size(f.wires[i]) <= x.k.ctl.mtu
    ensures |x.out| <= i < |EmitExact(x, f).out| && w in EmitExact(x, f).out[i]
    ensures forall v | v in EmitExact(x, f).out[i] :: v in f.wires
  {
    PackIsGood(x.k.ctl.mtu, f.wires);
    var ds := Datagrams(x.k, f.wires);
    FlattenedFrom(ds, w);
    var n :| 0 <= n < |ds| && w in ds[n];
    forall v | v in ds[n]
      ensures v in f.wires
    {
      var j :| 0 <= j < |ds[n]| && ds[n][j] == v;
      FlattenMember(ds, n, j);
    }
    i := |x.out| + n;
    assert EmitExact(x, f).out[i] == ds[n];
  }

  /** The answer to a probe: the datagram it is in announces the room there is at the flush. */
  lemma AnswerAnnounces(x: Node, y: Node, op: Op) returns (i: nat)
    requires PairOk(Pair(x, y)) && Flushes(x.k, op) && x.k.ctl.askTell
    ensures var out := ActExact(x, y.out, op).out;
            && i < |out| && out[i] != [] && forall v | v in out[i] :: v.wnd == WndUnused(x.k) % M16
  {
    hide *;
    var c := AtFlush(x.k.ctl, op);
    var f := Flush(Exact, x.k.(ctl := c));
    FlushingAct(x, y.out, op);
    AtFlushKeeps(x.k, op);
    FlushAnnounces(x.k.(ctl := c));
    FlushFits(x, y, c);
    var w :| w in f.wires && w.cmd == CMD_WINS;
    i := EmitHolds(x, f, w);
  }

  lemma AtFlushKeeps(k: Kcb, op: Op)
    ensures var c := AtFlush(k.ctl, op);
            c.askTell == k.ctl.askTell && WndUnused(k.(ctl := c)) == WndUnused(k) && c.rmtWnd == k.ctl.rmtWnd
  {
    hide Wrap, Itimediff;
  }

  lemma Asked(ws: seq<Wire>) returns (w: Wire)
    requires Asks(ws)
    ensures w in ws && w.cmd == CMD_WASK
  {
    w :| w in ws && w.cmd == CMD_WASK;
  }

  lemma ItAsks(ws: seq<Wire>, w: Wire)
    requires w in ws && w.cmd == CMD_WASK
    ensures Asks(ws)
  {
  }

  /** The operation flushes, and a probe is due at that flush. */
  predicate SendsProbe(k: Kcb, op: Op) {
    Flushes(k, op) && ProbeDue(AtFlush(k.ctl, op))
  }

  lemma ProbeAsks(x: Node, y: Node, op: Op) returns (i: nat)
    requires PairOk(Pair(x, y)) && SendsProbe(x.k, op)
    ensures var out := ActExact(x, y.out, op).out; i < |out| && out[i] != [] && Asks(out[i])
  {
    var c := AtFlush(x.k.ctl, op);
    hide *;
    ProbeIsAtFlush(x.k, op);
    var f := Flush(Exact, x.k.(ctl := c));
    FlushingAct(x, y.out, op);
    ProbeIsSent(x.k.(ctl := c));
    FlushFits(x, y, c);
    var w := Asked(f.wires);
    i := EmitHolds(x, f, w);
    ItAsks(ActExact(x, y.out, op).out[i], w);
  }

  lemma ProbeIsAtFlush(k: Kcb, op: Op)
    requires SendsProbe(k, op)
    ensures Flushes(k, op) && ProbeDue(AtFlush(k.ctl, op))
  {
  }

  lemma SideSteps(p: Pair, op: Op)
    ensures PairStep(p, AtA(op)) == p.(a := ActExact(p.a, p.b.out, op))
    ensures PairStep(p, AtB(op)) == p.(b := ActExact(p.b, p.a.out, op))
  {
  }

  /** An operation that does not flush leaves a pending answer pending. */
  lemma AskedStaysAsked(x: Node, y: Node, op: Op)
    requires x.k.ctl.askTell && !Flushes(x.k, op)
    ensures ActExact(x, y.out, op).k.ctl.askTell
  {
    match op
    case DoSend(data) => SendKeepsTell(x, y, data);
    case DoRecv(len) => RecvKeepsTell(x, y, len);
    case DoUpdate(now) => UpdateKeepsTell(x, y, now);
    case DoFlush => NoFlushKeepsTell(x, y);
    case Deliver(i) => DeliverKeepsTell(x, y, i);
  }

  lemma SendKeepsTell(x: Node, y: Node, data: seq<byte>)
    ensures ActExact(x, y.out, DoSend(data)).k.ctl == x.k.ctl
  {
    hide Fragments, FragmentCount, AfterSend;
  }

  lemma RecvKeepsTell(x: Node, y: Node, len: int)
    requires x.k.ctl.askTell
    ensures ActExact(x, y.out, DoRecv(len)).k.ctl.askTell
  {
    hide PeekSize, MessageLength, Bytes, Drain, AfterRecv;
  }

  lemma UpdateKeepsTell(x: Node, y: Node, now: u32)
    requires x.k.ctl.askTell && !Tick(x.k.ctl, now).1
    ensures ActExact(x, y.out, DoUpdate(now)).k.ctl.askTell
  {
    AtFlushKeeps(x.k, DoUpdate(now));
    hide Tick, Flush, Datagrams;
  }

  lemma NoFlushKeepsTell(x: Node, y: Node)
    requires x.k.ctl.askTell && !x.k.ctl.updated
    ensures ActExact(x, y.out, DoFlush).k.ctl.askTell
  {
  }

  lemma DeliverKeepsTell(x: Node, y: Node, i: nat)
    requires x.k.ctl.askTell
    ensures ActExact(x, y.out, Deliver(i)).k.ctl.askTell
  {
    if i < |y.out| {
      InputSegsTell(Parse(x.k, NoAck), y.out[i]);
      TailKeepsTell(InputSegs(Exact, Parse(x.k, NoAck), y.out[i]), x.k.snd.una);
      hide InputSegs, InputTail;
    }
  }

  /** Datagram `j` announces the room there was after the first `n` actions. */
  ghost predicate Announced(p: Pair, ys: seq<Action>, n: nat, j: nat) {
    var out := PairRun(p, ys).b.out;
    && n <= |ys| && j < |out| && out[j] != []
    && forall v | v in out[j] :: v.wnd == WndUnused(PairRun(p, ys[..n]).b.k) % M16
  }

  lemma AnnouncedStays(p: Pair, ys: seq<Action>, x: Action, n: nat, j: nat)
    requires PairOk(p) && Announced(p, ys, n, j)
    ensures Announced(p, ys + [x], n, j)
  {
    hide PairRun, PairOk, WndUnused, Grows;
    RunGrows(p, ys);
    var q := PairRun(p, ys);
    RunInParts(p, ys, [x]);
    RunGrows(q, [x]);
    GrowsMeans(q.b, PairRun(p, ys + [x]).b);
    assert (ys + [x])[..n] == ys[..n];
  }

  lemma AnsweredBy(p: Pair, ys: seq<Action>, op: Op) returns (j: nat)
    requires PairOk(p) && PairRun(p, ys).b.k.ctl.askTell && Flushes(PairRun(p, ys).b.k, op)
    ensures Announced(p, ys + [AtB(op)], |ys|, j)
  {
    hide PairRun, PairOk, PairStep, WndUnused, Flushes, ActExact;
    RunGrows(p, ys);
    var q := PairRun(p, ys);
    PairSwapped(q);
    j := AnswerAnnounces(q.b, q.a, op);
    SideSteps(q, op);
    ThenStep(p, ys, AtB(op));
    assert (ys + [AtB(op)])[..|ys|] == ys;
  }

  /** The answer is pending until a flush puts it out. */
  lemma {:induction false} AnswerFollows(p: Pair, ys: seq<Action>) returns (pending: bool, n: nat, j: nat)
    requires PairOk(p) && p.b.k.ctl.askTell
    ensures if pending then PairRun(p, ys).b.k.ctl.askTell else Announced(p, ys, n, j)
    decreases |ys|
  {
    hide PairRun, PairOk, PairStep, Announced, Flushes, ActExact;
    n, j := 0, 0;
    if ys == [] {
      NoRun(p);
      pending := true;
    } else {
      var front, x := ys[..|ys| - 1], ys[|ys| - 1];
      assert front + [x] == ys;
      pending, n, j := AnswerFollows(p, front);
      var q := PairRun(p, front);
      ThenStep(p, front, x);
      if !pending {
        AnnouncedStays(p, front, x, n, j);
      } else if x.AtA? {
        SideSteps(q, x.op);
      } else if Flushes(q.b.k, x.op) {
        pending, n := false, |front|;
        j := AnsweredBy(p, front, x.op);
      } else {
        SideSteps(q, x.op);
        AskedStaysAsked(q.b, q.a, x.op);
      }
    }
  }

  /** The probe arrives, whatever happens on the way. */
  lemma ProbeArrives(p: Pair, op: Op, xs: seq<Action>) returns (i: nat)
    requires PairOk(p) && SendsProbe(p.a.k, op)
    ensures PairRun(p, There(op, xs, i)).b.k.ctl.askTell
  {
    hide *;
    PairSwapped(p);
    i := ProbeAsks(p.a, p.b, op);
    var p1 := PairStep(p, AtA(op));
    var p2 := PairRun(p1, xs);
    SideSteps(p, op);
    StepGrows(p, AtA(op));
    RunGrows(p1, xs);
    GrowsMeans(p1.a, p2.a);
    DeliveryTells(p2.b, p2.a.out, i);
    SideSteps(p2, Deliver(i));
    ThereIs(p, op, xs, i);
  }

  lemma AnnouncedThen(p: Pair, ys: seq<Action>, zs: seq<Action>, n: nat, j: nat)
    requires PairOk(p) && Announced(p, ys, n, j)
    ensures PairRun(p, ys + zs + [AtA(Deliver(j))]).a.k.ctl.rmtWnd == WndUnused(PairRun(p, ys[..n]).b.k) % M16
  {
    hide PairRun, PairOk, PairStep, WndUnused, Grows;
    RunGrows(p, ys);
    var q := PairRun(p, ys);
    RunInParts(p, ys, zs);
    RunGrows(q, zs);
    var r := PairRun(p, ys + zs);
    GrowsMeans(q.b, r.b);
    DeliveryTells(r.a, r.b.out, j);
    SideSteps(r, Deliver(j));
    ThenStep(p, ys + zs, AtA(Deliver(j)));
  }

  /**
   A closed window opens again: a probe that is due and gets through, and an answer that
   gets through, tell the sender the room the receiver had when it answered, which is after
   the probe arrived and no later than its next flush.
   */
  lemma ProbeReopens(p: Pair, a: Op, xs: seq<Action>, ys: seq<Action>, b: Op, zs: seq<Action>)
    returns (i: nat, j: nat, n: nat)
    requires PairOk(p) && SendsProbe(p.a.k, a)
    ensures n <= |ys|
    ensures Flushes(PairRun(p, There(a, xs, i) + ys).b.k, b) ==>
      PairRun(p, Trip(a, xs, i, ys, b, zs, j)).a.k.ctl.rmtWnd
        == WndUnused(PairRun(p, There(a, xs, i) + ys[..n]).b.k) % M16
  {
    hide *;
    i := ProbeArrives(p, a, xs);
    var p1 := PairRun(p, There(a, xs, i));
    RunGrows(p, There(a, xs, i));
    TripIs(p, a, xs, i, ys, b, zs, 0);
    n, j := 0, 0;
    if Flushes(PairRun(p1, ys).b.k, b) {
      var pending: bool;
      pending, n, j := AnswerFollows(p1, ys);
      if pending {
        n := |ys|;
        j := AnsweredBy(p1, ys, b);
      } else {
        AnnouncedStays(p1, ys, AtB(b), n, j);
        AnnouncedBounds(p1, ys, n, j);
      }
      AnnouncedThen(p1, ys + [AtB(b)], zs, n, j);
      assert (ys + [AtB(b)])[..n] == ys[..n];
      RunInParts(p, There(a, xs, i), ys[..n]);
      TripEnds(p, a, xs, i, ys, b, zs, j);
    }
  }

  lemma AnnouncedBounds(p: Pair, ys: seq<Action>, n: nat, j: nat)
    requires Announced(p, ys, n, j)
    ensures n <= |ys|
  {
  }

  lemma TripEnds(p: Pair, a: Op, xs: seq<Action>, i: nat, ys: seq<Action>, b: Op, zs: seq<Action>, j: nat)
    ensures PairRun(p, Trip(a, xs, i, ys, b, zs, j))
         == PairRun(PairRun(p, There(a, xs, i)), ys + [AtB(b)] + zs + [AtA(Deliver(j))])
  {
    hide PairRun, There;
    RunInParts(p, There(a, xs, i), ys + [AtB(b)] + zs + [AtA(Deliver(j))]);
    assert Trip(a, xs, i, ys, b, zs, j) == There(a, xs, i) + (ys + [AtB(b)] + zs + [AtA(Deliver(j))]);
  }

  /** So it is for the 32-bit blocks, from any state of any run. */
  lemma WorldProbe(w: World, before: seq<Action>, a: Op, xs: seq<Action>, ys: seq<Action>, b: Op, zs: seq<Action>)
    returns (i: nat, j: nat, n: nat)
    requires FreshWorld(w) && TimelyRun(TwinWorld(w), before)
    requires SendsProbe(WorldRun(w, before).a.k, a)
    ensures n <= |ys|
    ensures var run := before + Trip(a, xs, i, ys, b, zs, j);
            TimelyRun(TwinWorld(w), run) && Flushes(WorldRun(w, before + (There(a, xs, i) + ys)).b.k, b) ==>
            WorldRun(w, run).a.k.ctl.rmtWnd == WndUnused(WorldRun(w, before + (There(a, xs, i) + ys[..n])).b.k) % M16
  {
    hide *;
    var p := PairRun(TwinWorld(w), before);
    SeenLow(w, before);
    ProbeLow(p.a.k, a);
    i, j, n := ProbeReopens(p, a, xs, ys, b, zs);
    var there, trip, some := There(a, xs, i) + ys, Trip(a, xs, i, ys, b, zs, j), There(a, xs, i) + ys[..n];
    if TimelyRun(TwinWorld(w), before + trip) && Flushes(WorldRun(w, before + there).b.k, b) {
      TripBegins(before, a, xs, i, ys, b, zs, j);
      TimelySoFar(TwinWorld(w), before + there, Back(b, zs, j));
      assert ys == ys[..n] + ys[n..];
      assert before + there == before + some + ys[n..];
      TimelySoFar(TwinWorld(w), before + some, ys[n..]);
      SeenLow(w, before + there);
      SeenLow(w, before + some);
      SeenLow(w, before + trip);
      RunInParts(TwinWorld(w), before, there);
      RunInParts(TwinWorld(w), before, some);
      RunInParts(TwinWorld(w), before, trip);
      LowFlushes(PairRun(p, there).b.k, b);
      LowIs(PairRun(p, some).b.k);
      LowIs(PairRun(p, trip).a.k);
    }
  }

  lemma ProbeLow(k: Kcb, op: Op)
    ensures SendsProbe(Low(k), op) <==> SendsProbe(k, op)
  {
    hide Tick;
  }
}
