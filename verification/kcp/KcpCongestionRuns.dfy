/**
 The congestion window over runs: with settings that suit the peer's receive window, it
 stays within one segment of its byte count, whatever the network does.
 */
module KcpCongestionRuns {
  import opened Arithmetic32
  import opened KcpWire
  import opened KcpState
  import opened KcpWindows
  import opened KcpNetwork
  import opened KcpSafety
  import opened KcpMessages
  import opened KcpSimulation
  import opened KcpDelivery
  import opened KcpProgress
  import opened KcpRoundTrips
  import opened KcpCongestion

  /** The largest window a block can announce: headers have 16 bits for it. */
  function Announceable(peer: Control): nat {
    Min(peer.rcvWnd, 0xffff)
  }

  /** How many segments a block may have in flight towards a peer. */
  function MostInFlight(c: Control, peer: Control): nat {
    Min(c.sndWnd, Announceable(peer))
  }

  /** Both sides' settings, as far as the congestion window of the first depends on them. */
  ghost predicate SettingsSuit(c: Control, peer: Control) {
    Suits(Mss(c), c.fastresend, Announceable(peer), MostInFlight(c, peer))
  }

  // ----- the invariant

  /** What no operation of a run changes. */
  function Sizes(c: Control): (Mtu, u32, u32, int) {
    (c.mtu, c.rcvWnd, c.sndWnd, c.fastresend)
  }

  ghost predicate Announces(x: Node) {
    forall i, w | 0 <= i < |x.out| && w in x.out[i] :: w.wnd <= Announceable(x.k.ctl)
  }

  ghost predicate InBounds(s: Sender, c: Control, peer: Control) {
    s.nxt <= s.una + MostInFlight(c, peer) && c.rmtWnd <= Announceable(peer)
  }

  /** The balance, and what it rests on. Once anything was put out the window is open. */
  ghost predicate EvenNode(x: Node, y: Node) {
    Even(x.k.ctl) && InBounds(x.k.snd, x.k.ctl, y.k.ctl) && (x.out != [] ==> x.k.ctl.cwnd >= 1)
  }

  /** All the steps of a run below look at. */
  function Congestion(c: Control): (u32, u32, u32, u16, (Mtu, u32, u32, int)) {
    (c.cwnd, c.incr, c.ssthresh, c.rmtWnd, Sizes(c))
  }

  lemma SameCongestion(c: Control, c': Control, peer: Control)
    requires Congestion(c') == Congestion(c)
    ensures Even(c') <==> Even(c)
    ensures SettingsSuit(c', peer) <==> SettingsSuit(c, peer)
    ensures Announceable(c') == Announceable(c) && MostInFlight(c', peer) == MostInFlight(c, peer)
    ensures Sizes(c') == Sizes(c) && c'.cwnd == c.cwnd && c'.rmtWnd == c.rmtWnd
  {
    hide Suits;
  }

  lemma SameSizes(c: Control, peer: Control, peer': Control)
    requires Sizes(peer') == Sizes(peer)
    ensures SettingsSuit(c, peer') <==> SettingsSuit(c, peer)
    ensures Announceable(peer') == Announceable(peer) && MostInFlight(c, peer') == MostInFlight(c, peer)
  {
    hide Suits;
  }

  lemma OwnSizes(c: Control, c': Control, peer: Control)
    requires Sizes(c') == Sizes(c)
    ensures SettingsSuit(c', peer) <==> SettingsSuit(c, peer)
    ensures Announceable(c') == Announceable(c) && MostInFlight(c', peer) == MostInFlight(c, peer)
  {
    hide Suits;
  }

  // ----- operations that leave the window alone

  lemma SendKeepsControl(k: Kcb, data: seq<byte>)
    ensures Send(k, data).0.ctl == k.ctl && Send(k, data).0.snd.una == k.snd.una && Send(k, data).0.snd.nxt == k.snd.nxt
  {
    hide Fragments, FragmentCount, Extension;
  }

  lemma RecvKeepsCongestion(k: Kcb, len: int)
    ensures Congestion(Recv(Exact, k, len).k.ctl) == Congestion(k.ctl) && Recv(Exact, k, len).k.snd == k.snd
  {
    hide PeekSize, MessageLength, Bytes, Drain;
  }

  lemma TickKeepsCongestion(c: Control, now: u32)
    ensures Congestion(Tick(c, now).0) == Congestion(c)
  {
    hide Wrap, Itimediff;
  }

  lemma ProbeTimerKeepsCongestion(c: Control)
    ensures Congestion(ProbeTimer(c)) == Congestion(c)
  {
    hide Wrap, Itimediff;
  }

  // ----- input

  lemma InputSegCongestion(p: Parse, w: Wire)
    ensures var c, c' := p.k.ctl, InputSeg(Exact, p, w).k.ctl;
            Congestion(c') == Congestion(c.(rmtWnd := w.wnd))
  {
    hide ParseUna, ParseAck, Push, NextSrtt, NextRttval, NextRto, Mark, Wrap;
  }

  lemma {:induction false} InputSegsCongestion(p: Parse, ws: seq<Wire>)
    ensures var c, c' := p.k.ctl, InputSegs(Exact, p, ws).k.ctl;
            Congestion(c') == Congestion(c.(rmtWnd := if ws == [] then c.rmtWnd else ws[|ws| - 1].wnd))
    decreases |ws|
  {
    hide InputSeg;
    if ws != [] {
      InputSegCongestion(p, ws[0]);
      InputSegsCongestion(InputSeg(Exact, p, ws[0]), ws[1..]);
    }
  }

  lemma SlowStartKeepsSizes(c: Control)
    ensures Sizes(SlowStart(c)) == Sizes(c)
  {
    hide Wrap;
  }

  lemma AvoidanceKeepsSizes(c: Control)
    ensures Sizes(Avoidance(c)) == Sizes(c)
  {
    hide AvoidanceStep, CeilDiv, Wrap;
  }

  lemma ClampKeepsSizes(c: Control)
    ensures Sizes(ClampToPeer(c)) == Sizes(c) && ClampToPeer(c).rmtWnd == c.rmtWnd
  {
    hide Wrap;
  }

  lemma GrowKeepsSizes(c: Control)
    ensures Sizes(Grow(c)) == Sizes(c) && Grow(c).rmtWnd == c.rmtWnd
  {
    hide SlowStart, Avoidance, ClampToPeer, Sizes;
    SlowStartKeepsSizes(c);
    AvoidanceKeepsSizes(c);
    ClampKeepsSizes(SlowStart(c));
    ClampKeepsSizes(Avoidance(c));
  }

  /** A datagram that announces no more than the peer may leaves the window even. */
  lemma InputKeepsEven(k: Kcb, ws: seq<Wire>, peer: Control)
    requires Even(k.ctl) && SettingsSuit(k.ctl, peer) && peer.rcvWnd >= WND_RCV && k.ctl.rmtWnd <= Announceable(peer)
    requires forall w | w in ws :: w.wnd <= Announceable(peer)
    ensures var c := InputWires(Exact, k, ws).ctl;
            Even(c) && Sizes(c) == Sizes(k.ctl) && c.rmtWnd <= Announceable(peer) && c.cwnd >= k.ctl.cwnd
  {
    var q := InputSegs(Exact, Parse(k, NoAck), ws);
    var c := q.k.ctl;
    InputSegsCongestion(Parse(k, NoAck), ws);
    SameButAnnounced(k.ctl, c, peer);
    GrowKeepsSizes(c);
    hide InputSegs, ParseFastack, Grow, Suits;
    GrowBalanced(c, Announceable(peer));
  }

  lemma SameButAnnounced(c: Control, c': Control, peer: Control)
    requires Congestion(c') == Congestion(c.(rmtWnd := c'.rmtWnd))
    ensures Even(c') <==> Even(c)
    ensures SettingsSuit(c', peer) <==> SettingsSuit(c, peer)
    ensures Sizes(c') == Sizes(c) && c'.cwnd == c.cwnd
  {
    hide Suits;
  }

  // ----- flush

  lemma MoveStaysInBounds(s: Sender, c: Control, peer: Control)
    requires InBounds(s, c, peer) && s.una <= s.nxt
    ensures InBounds(Move(Exact, s, c), c, peer)
  {
    MoveCountExact(s.nxt, s.una + SendWindow(c), |s.queue|);
    hide MoveCount, Numbered;
  }

  lemma ShrinkKeepsSizes(c: Control, inflight: u32, window: u32, fast: bool, lost: bool)
    ensures Sizes(Shrink(c, inflight, window, fast, lost)) == Sizes(c)
    ensures Shrink(c, inflight, window, fast, lost).rmtWnd == c.rmtWnd
  {
    hide Wrap;
  }

  lemma FinishIs(k: Kcb, c: Control, s: Sender, w: Sweep)
    requires Config(c) == Config(k.ctl)
    ensures var f := FinishFlush(Exact, k, c, s, w).k;
            && f.snd.una == s.una && f.snd.nxt == s.nxt
            && exists d :: Congestion(d) == Congestion(c)
                 && f.ctl == Shrink(d, Exact.Sub(s.nxt, s.una), SendWindow(c), w.fast, w.resends > 0)
  {
    hide Shrink, Wrap, AckWires, ProbeWires;
    assert Congestion(ClearProbes(c).(xmit := Wrap(c.xmit + w.resends), dead := c.dead || w.dead)) == Congestion(c);
  }

  lemma ShrinkKeepsEven(d: Control, n: u32, v: u32, fast: bool, lost: bool, peer: Control)
    requires Even(d) && SettingsSuit(d, peer) && peer.rcvWnd >= WND_RCV
    requires n <= MostInFlight(d, peer) && v <= 0xffff
    ensures var r := Shrink(d, n, v, fast, lost);
            Even(r) && Sizes(r) == Sizes(d) && r.rmtWnd == d.rmtWnd && r.cwnd >= 1
  {
    hide Shrink, Suits, Even;
    ShrinkKeepsSizes(d, n, v, fast, lost);
    ShrinkBalanced(d, n, v, fast, lost, Announceable(peer), MostInFlight(d, peer));
  }

  lemma InFlightFew(s: Sender, c: Control, peer: Control)
    requires InBounds(s, c, peer) && s.una <= s.nxt
    ensures Exact.Sub(s.nxt, s.una) <= MostInFlight(c, peer) && SendWindow(c) <= 0xffff
  {
    WrapSmall(s.nxt - s.una);
    hide Wrap;
  }

  lemma BoundsAre(s: Sender, s': Sender, c: Control, c': Control, peer: Control)
    requires InBounds(s, c, peer) && s'.una == s.una && s'.nxt == s.nxt && Sizes(c') == Sizes(c) && c'.rmtWnd == c.rmtWnd
    ensures InBounds(s', c', peer)
  {
  }

  lemma FinishKeepsEven(k: Kcb, c: Control, s: Sender, w: Sweep, peer: Control)
    requires Config(c) == Config(k.ctl) && Even(c) && SettingsSuit(c, peer) && peer.rcvWnd >= WND_RCV
    requires InBounds(s, c, peer) && s.una <= s.nxt
    ensures var f := FinishFlush(Exact, k, c, s, w).k;
            && Even(f.ctl) && Sizes(f.ctl) == Sizes(c) && InBounds(f.snd, f.ctl, peer) && f.ctl.cwnd >= 1
            && f.snd.una == s.una
  {
    hide *;
    FinishIs(k, c, s, w);
    InFlightFew(s, c, peer);
    var f, n, v := FinishFlush(Exact, k, c, s, w).k, Exact.Sub(s.nxt, s.una), SendWindow(c);
    var d :| Congestion(d) == Congestion(c) && f.ctl == Shrink(d, n, v, w.fast, w.resends > 0);
    SameCongestion(c, d, peer);
    ShrinkKeepsEven(d, n, v, w.fast, w.resends > 0, peer);
    BoundsAre(s, f.snd, c, f.ctl, peer);
  }

  /** A flush keeps the window even and, if it ran, open. */
  lemma FlushKeepsEven(k: Kcb, peer: Control)
    requires Even(k.ctl) && SettingsSuit(k.ctl, peer) && peer.rcvWnd >= WND_RCV
    requires InBounds(k.snd, k.ctl, peer) && k.snd.una <= k.snd.nxt
    ensures var f := Flush(Exact, k).k;
            && Even(f.ctl) && Sizes(f.ctl) == Sizes(k.ctl) && InBounds(f.snd, f.ctl, peer)
            && f.ctl.cwnd >= if k.ctl.updated then 1 else k.ctl.cwnd
  {
    hide Even, SettingsSuit, FinishFlush, Move, SweepAll, ProbeTimer;
    if k.ctl.updated {
      var c := ProbeTimer(k.ctl);
      var s := Move(Exact, k.snd, c);
      ProbeTimerKeepsCongestion(k.ctl);
      SameCongestion(k.ctl, c, peer);
      MoveStaysInBounds(k.snd, c, peer);
      MovedOn(k.snd, c);
      FinishKeepsEven(k, c, s, SweepAll(StampOf(k), c, s.buf), peer);
    }
  }

  lemma MovedOn(s: Sender, c: Control)
    ensures Move(Exact, s, c).una == s.una && Move(Exact, s, c).nxt >= s.nxt
  {
    hide MoveCount, Numbered;
  }

  // ----- what a flush announces

  /** Every segment a flush logs is one it put out. */
  lemma EmitsOnly(x: Node, f: FlushResult, i: nat, w: Wire)
    requires forall j | 0 <= j < |f.wires| :: Size(f.wires[j]) <= x.k.ctl.mtu
    requires i < |EmitExact(x, f).out| && w in EmitExact(x, f).out[i]
    ensures (i < |x.out| && w in x.out[i]) || w in f.wires
  {
    PackIsGood(x.k.ctl.mtu, f.wires);
    var ds := Datagrams(x.k, f.wires);
    if i >= |x.out| {
      assert EmitExact(x, f).out[i] == ds[i - |x.out|];
      var j :| 0 <= j < |ds[i - |x.out|]| && ds[i - |x.out|][j] == w;
      FlattenMember(ds, i - |x.out|, j);
    }
  }

  lemma SmallUnused(k: Kcb)
    ensures WndUnused(k) % M16 <= Announceable(k.ctl)
  {
  }

  lemma FlushAnnouncesFew(x: Node, y: Node, c: Control)
    requires PairOk(Pair(x, y)) && Config(c) == Config(x.k.ctl) && Announces(x)
    ensures var x' := EmitExact(x, Flush(Exact, x.k.(ctl := c)));
            Sizes(x'.k.ctl) == Sizes(x.k.ctl) ==> Announces(x')
  {
    var k := x.k.(ctl := c);
    var f := Flush(Exact, k);
    FlushFits(x, y, c);
    if c.updated {
      FlushAnnounces(k);
      SmallUnused(k);
    }
    assert !c.updated ==> f.wires == [];
    hide Flush, PairOk, WndUnused;
    var x' := EmitExact(x, f);
    if Sizes(x'.k.ctl) == Sizes(x.k.ctl) {
      forall i, w | 0 <= i < |x'.out| && w in x'.out[i]
        ensures w.wnd <= Announceable(x'.k.ctl)
      {
        EmitsOnly(x, f, i, w);
      }
    }
  }

  // ----- every operation

  /** What an operation at `x` leaves for `x` itself, seen with the peer as it is. */
  ghost predicate KeepsEven(x: Node, x': Node, y: Node) {
    EvenNode(x', y) && Announces(x') && Sizes(x'.k.ctl) == Sizes(x.k.ctl)
  }

  /** What an operation at `x` starts from. */
  ghost predicate ReadyAt(x: Node, y: Node) {
    && PairOk(Pair(x, y)) && EvenNode(x, y) && Announces(x) && Announces(y)
    && SettingsSuit(x.k.ctl, y.k.ctl) && y.k.ctl.rcvWnd >= WND_RCV
  }

  lemma FlushActKeepsEven(x: Node, y: Node, c: Control)
    requires ReadyAt(x, y) && Config(c) == Config(x.k.ctl) && Congestion(c) == Congestion(x.k.ctl)
    ensures KeepsEven(x, EmitExact(x, Flush(Exact, x.k.(ctl := c))), y)
  {
    var f := Flush(Exact, x.k.(ctl := c));
    FlushAnnouncesFew(x, y, c);
    SameCongestion(x.k.ctl, c, y.k.ctl);
    assert SenderOk(x.k.snd, x.numbered);
    assert x.k.snd.una <= x.k.snd.nxt;
    BoundsAre(x.k.snd, x.k.snd, x.k.ctl, c, y.k.ctl);
    hide PairOk, SettingsSuit, Even, InBounds, Announces;
    FlushKeepsEven(x.k.(ctl := c), y.k.ctl);
    NoneIfIdle(x, c);
    hide Flush;
  }

  lemma NoneIfIdle(x: Node, c: Control)
    ensures !c.updated ==> EmitExact(x, Flush(Exact, x.k.(ctl := c))).out == x.out
  {
    assert Pack(x.k.ctl.mtu, []) == [];
    hide Pack;
  }

  lemma DeliverKeepsEven(x: Node, y: Node, i: nat)
    requires ReadyAt(x, y)
    ensures KeepsEven(x, ActExact(x, y.out, Deliver(i)), y)
  {
    if i < |y.out| {
      InputKeepsEven(x.k, y.out[i], y.k.ctl);
      InputKeepsFlight(x, y, i);
      hide InputWires, PairOk, SettingsSuit, Even, Announceable, Sizes;
      var x' := ActExact(x, y.out, Deliver(i));
      OwnSizes(x.k.ctl, x'.k.ctl, y.k.ctl);
    }
  }

  /** Nothing is numbered by input, and `una` only grows. */
  lemma InputKeepsFlight(x: Node, y: Node, i: nat)
    requires PairOk(Pair(x, y))
    ensures var s, s' := x.k.snd, ActExact(x, y.out, Deliver(i)).k.snd; s'.nxt == s.nxt && s'.una >= s.una
  {
    var p := Pair(x, y);
    StepKeeps(p, AtA(Deliver(i)));
    ActGrows(x, y, Deliver(i));
    NumberedCount(p);
    NumberedCount(PairStep(p, AtA(Deliver(i))));
    hide PairOk, InputWires, Steady;
  }

  lemma NumberedCount(p: Pair)
    requires PairOk(p)
    ensures p.a.k.snd.nxt == |p.a.numbered|
  {
  }

  lemma QuietKeepsEven(x: Node, y: Node, k: Kcb)
    requires ReadyAt(x, y)
    requires Congestion(k.ctl) == Congestion(x.k.ctl) && k.snd.una == x.k.snd.una && k.snd.nxt == x.k.snd.nxt
    ensures forall x': Node | x'.k == k && x'.out == x.out :: KeepsEven(x, x', y)
  {
    hide PairOk, SettingsSuit, Even, InBounds;
    SameCongestion(x.k.ctl, k.ctl, y.k.ctl);
    BoundsAre(x.k.snd, k.snd, x.k.ctl, k.ctl, y.k.ctl);
  }

  lemma ActKeepsEven(x: Node, y: Node, op: Op)
    requires ReadyAt(x, y)
    ensures KeepsEven(x, ActExact(x, y.out, op), y)
  {
    hide ReadyAt, KeepsEven, Send, Recv, Tick, Flush, Congestion;
    match op
    case DoSend(data) =>
      SendKeepsControl(x.k, data);
      QuietKeepsEven(x, y, Send(x.k, data).0);
    case DoRecv(len) =>
      RecvKeepsCongestion(x.k, len);
      QuietKeepsEven(x, y, Recv(Exact, x.k, len).k);
    case DoUpdate(now) =>
      var (c, due) := Tick(x.k.ctl, now);
      TickKeepsCongestion(x.k.ctl, now);
      if due {
        FlushActKeepsEven(x, y, c);
      } else {
        assert Pack(x.k.ctl.mtu, []) == [];
        QuietKeepsEven(x, y, x.k.(ctl := c));
      }
    case DoFlush =>
      assert x.k.(ctl := x.k.ctl) == x.k;
      FlushActKeepsEven(x, y, x.k.ctl);
    case Deliver(i) =>
      DeliverKeepsEven(x, y, i);
  }

  // ----- every run

  ghost predicate EvenPair(p: Pair) {
    && EvenNode(p.a, p.b) && EvenNode(p.b, p.a) && Announces(p.a) && Announces(p.b)
    && SettingsSuit(p.a.k.ctl, p.b.k.ctl) && SettingsSuit(p.b.k.ctl, p.a.k.ctl)
    && p.a.k.ctl.rcvWnd >= WND_RCV && p.b.k.ctl.rcvWnd >= WND_RCV
  }

  lemma EvenPairFrom(x: Node, x': Node, y: Node)
    requires EvenPair(Pair(x, y)) && KeepsEven(x, x', y)
    ensures EvenPair(Pair(x', y))
  {
    hide Even;
    OwnSizes(x.k.ctl, x'.k.ctl, y.k.ctl);
    SameSizes(y.k.ctl, x.k.ctl, x'.k.ctl);
    hide SettingsSuit;
  }

  lemma EvenPairSwapped(p: Pair)
    requires EvenPair(p)
    ensures EvenPair(Pair(p.b, p.a))
  {
    hide EvenNode, Announces, SettingsSuit;
  }

  lemma ReadyIn(x: Node, y: Node)
    requires PairOk(Pair(x, y)) && EvenPair(Pair(x, y))
    ensures ReadyAt(x, y)
  {
    hide PairOk, EvenNode, Announces, SettingsSuit;
  }

  lemma StepKeepsEven(p: Pair, x: Action)
    requires PairOk(p) && EvenPair(p)
    ensures EvenPair(PairStep(p, x))
  {
    PairSwapped(p);
    EvenPairSwapped(p);
    assert p == Pair(p.a, p.b);
    hide PairOk, EvenPair, KeepsEven, ReadyAt, ActExact;
    match x
    case AtA(op) =>
      ReadyIn(p.a, p.b);
      ActKeepsEven(p.a, p.b, op);
      EvenPairFrom(p.a, ActExact(p.a, p.b.out, op), p.b);
    case AtB(op) =>
      ReadyIn(p.b, p.a);
      ActKeepsEven(p.b, p.a, op);
      EvenPairFrom(p.b, ActExact(p.b, p.a.out, op), p.a);
      EvenPairSwapped(Pair(ActExact(p.b, p.a.out, op), p.a));
  }

  lemma {:induction false} RunKeepsEven(p: Pair, xs: seq<Action>)
    requires PairOk(p) && EvenPair(p)
    ensures EvenPair(PairRun(p, xs))
    decreases |xs|
  {
    hide PairOk, EvenPair, PairStep;
    if xs != [] {
      RunKeepsEven(p, xs[..|xs| - 1]);
      RunKeeps(p, xs[..|xs| - 1]);
      StepKeepsEven(PairRun(p, xs[..|xs| - 1]), xs[|xs| - 1]);
    }
  }

  /** Where the windows of a run start: even, and with no more granted than the peer can announce. */
  ghost predicate StartsEven(c: Control, peer: Control) {
    Even(c) && c.rmtWnd <= Announceable(peer) && SettingsSuit(c, peer)
  }

  lemma StartEven(w: World)
    requires FreshWorld(w) && StartsEven(w.a.k.ctl, w.b.k.ctl) && StartsEven(w.b.k.ctl, w.a.k.ctl)
    ensures EvenPair(TwinWorld(w))
  {
    hide Even, SettingsSuit;
  }

  /** A window as the 32-bit block shows it: even, and open once anything was put out. */
  ghost predicate WindowEven(e: End) {
    Even(e.k.ctl) && (e.out != [] ==> e.k.ctl.cwnd >= 1)
  }

  lemma EvenShows(e: End, x: Node, y: Node)
    requires InStep(e, x) && EvenNode(x, y)
    ensures WindowEven(e)
  {
    hide Even, InBounds;
  }

  lemma EvenPairMeans(p: Pair)
    requires EvenPair(p)
    ensures EvenNode(p.a, p.b) && EvenNode(p.b, p.a)
  {
  }

  lemma InStepIn(w: World, p: Pair)
    requires RunOk(w, p)
    ensures InStep(w.a, p.a) && InStep(w.b, p.b)
  {
  }

  /**
   In every run both congestion windows stay within one segment of their bytes, and at
   least one segment wide once something was put out, when each side's settings suit the
   window the other can announce.
   */
  lemma WindowsStayBalanced(w: World, xs: seq<Action>)
    requires FreshWorld(w) && TimelyRun(TwinWorld(w), xs)
    requires StartsEven(w.a.k.ctl, w.b.k.ctl) && StartsEven(w.b.k.ctl, w.a.k.ctl)
    ensures WindowEven(WorldRun(w, xs).a) && WindowEven(WorldRun(w, xs).b)
  {
    hide *;
    EveryRunOk(w, xs);
    StartOk(w);
    StartEven(w);
    RunKeepsEven(TwinWorld(w), xs);
    var v, p := WorldRun(w, xs), PairRun(TwinWorld(w), xs);
    EvenPairMeans(p);
    InStepIn(v, p);
    EvenShows(v.a, p.a, p.b);
    EvenShows(v.b, p.b, p.a);
  }

  /** A created block starts even, whatever the peer's receive window. */
  lemma CreatedStartsEven(conv: u32, peer: Control)
    requires peer.rcvWnd >= WND_RCV
    ensures StartsEven(Create(conv).ctl, peer)
  {
    var c := Create(conv).ctl;
    SmallSegmentsSuit(Mss(c), c.fastresend, Announceable(peer), MostInFlight(c, peer));
    hide Suits;
  }
}
