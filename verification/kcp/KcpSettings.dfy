/**
 The settings a caller can make before the first use of a block, and what they establish
 for the theorems about runs.
 */
module KcpSettings {
  import opened Arithmetic32
  import opened KcpWire
  import opened KcpState
  import opened KcpNetwork
  import opened KcpSafety
  import opened KcpDelivery
  import opened KcpCongestion
  import opened KcpCongestionRuns
  import opened KcpProgress
  import opened KcpTimer

  /** A call of one of the setters; its arguments are signed 32-bit numbers. */
  datatype Setting =
    | Mtu(mtu: int)
    | Windows(sndwnd: int, rcvwnd: int)
    | Interval(interval: int)
    | Delay(nodelay: int, interval: int, resend: int, nc: int)
    | Stream(on: bool)

  predicate InInt(x: int) {
    -M31 <= x < M31
  }

  predicate Callable(s: Setting) {
    match s
    case Mtu(mtu) => InInt(mtu)
    case Windows(sndwnd, rcvwnd) => InInt(sndwnd) && InInt(rcvwnd)
    case Interval(interval) => InInt(interval)
    case Delay(nodelay, interval, resend, nc) => InInt(nodelay) && InInt(interval) && InInt(resend) && InInt(nc)
    case Stream(_) => true
  }

  function Apply(c: Control, s: Setting): Control
    requires Callable(s)
  {
    match s
    case Mtu(mtu) => SetMtu(c, mtu).0
    case Windows(sndwnd, rcvwnd) => WndSize(c, sndwnd, rcvwnd)
    case Interval(interval) => c.(interval := BoundInterval(interval))
    case Delay(nodelay, interval, resend, nc) => NoDelay(c, nodelay, interval, resend, nc)
    case Stream(on) => c.(stream := on)
  }

  predicate AllCallable(settings: seq<Setting>) {
    forall i | 0 <= i < |settings| :: Callable(settings[i])
  }

  /** A created block after any settings, in any order and number. */
  function Configured(conv: u32, settings: seq<Setting>): Kcb
    requires AllCallable(settings)
  {
    if settings == [] then Create(conv)
    else
      var k := Configured(conv, settings[..|settings| - 1]);
      k.(ctl := Apply(k.ctl, settings[|settings| - 1]))
  }

  /** What the setters take, and what they make of the rest. */
  lemma SettersMean(c: Control, mtu: int, sndwnd: int, rcvwnd: int, interval: int)
    requires InInt(mtu) && InInt(sndwnd) && InInt(rcvwnd)
    ensures SetMtu(c, mtu) == if mtu >= 50 then (c.(mtu := mtu), 0) else (c, -1)
    ensures var d := WndSize(c, sndwnd, rcvwnd);
            && d == c.(sndWnd := d.sndWnd, rcvWnd := d.rcvWnd)
            && (sndwnd <= 0 ==> d.sndWnd == c.sndWnd) && (sndwnd > 0 ==> d.sndWnd == sndwnd)
            && (rcvwnd <= 0 ==> d.rcvWnd == c.rcvWnd)
            && (0 < rcvwnd < 128 ==> d.rcvWnd == 128) && (rcvwnd >= 128 ==> d.rcvWnd == rcvwnd)
    ensures BoundInterval(interval) == if interval < 10 then 10 else if interval <= 5000 then interval else 5000
  {
  }

  /** A new block has the defaults of the protocol. */
  lemma CreatedHasDefaults(conv: u32)
    ensures var c := Create(conv).ctl;
            && c.conv == conv && c.mtu == 1400 && c.sndWnd == 32 && c.rcvWnd == c.rmtWnd == 128
            && c.interval == c.tsFlush == 100 && c.rxRto == 200 && c.rxMinrto == 100
            && c.cwnd == c.incr == c.probeWait == 0 && c.ssthresh == 2 && c.deadLink == 20
            && c.fastlimit == 5 && c.fastresend == c.nodelay == 0 && !c.nocwnd && !c.stream && !c.updated && !c.dead
            && c.xmit == c.rxSrtt == c.rxRttval == c.current == c.tsProbe == 0 && !c.askSend && !c.askTell
    ensures Create(conv).snd == Sender(0, 0, [], []) && Create(conv).rcv == Receiver(0, [], [], [])
  {
  }

  /** `ikcp_nodelay`: what each argument sets, unless it is negative. */
  lemma DelaysMean(c: Control, nodelay: int, interval: int, resend: int, nc: int)
    ensures var d := NoDelay(c, nodelay, interval, resend, nc);
            && d.nodelay == (if nodelay < 0 then c.nodelay else nodelay)
            && d.rxMinrto == (if nodelay < 0 then c.rxMinrto else if nodelay == 0 then 100 else 30)
            && d.interval == (if interval < 0 then c.interval else if interval < 10 then 10 else Min(interval, 5000))
            && d.fastresend == (if resend < 0 then c.fastresend else resend)
            && d.nocwnd == (if nc < 0 then c.nocwnd else nc != 0)
            && d == c.(nodelay := d.nodelay, rxMinrto := d.rxMinrto, interval := d.interval,
                       fastresend := d.fastresend, nocwnd := d.nocwnd)
  {
  }

  /** What any settings leave in place. */
  ghost predicate Usable(k: Kcb, conv: u32) {
    && FreshKcb(k) && k.ctl.conv == conv && !k.ctl.updated
    && 10 <= k.ctl.interval <= 5000
    && RtoOk(k.ctl) && k.ctl.rxMinrto in {RTO_NDL, RTO_MIN}
    && k.ctl.fastresend < M31
    && k.ctl.cwnd == 0 && k.ctl.incr == 0 && k.ctl.ssthresh == THRESH_MIN && k.ctl.rmtWnd == WND_RCV
  }

  lemma ApplyKeepsUsable(k: Kcb, conv: u32, s: Setting)
    requires Usable(k, conv) && k.ctl.rxRto == 200 && Callable(s)
    ensures var k' := k.(ctl := Apply(k.ctl, s)); Usable(k', conv) && k'.ctl.rxRto == 200
  {
  }

  lemma {:induction false} ConfiguredIsUsable(conv: u32, settings: seq<Setting>)
    requires AllCallable(settings)
    ensures Usable(Configured(conv, settings), conv) && Configured(conv, settings).ctl.rxRto == 200
    decreases |settings|
  {
    hide Usable, Apply;
    if settings == [] {
      CreatedIsUsable(conv);
    } else {
      var front := settings[..|settings| - 1];
      ConfiguredIsUsable(conv, front);
      ApplyKeepsUsable(Configured(conv, front), conv, settings[|settings| - 1]);
    }
  }

  lemma CreatedIsUsable(conv: u32)
    ensures Usable(Create(conv), conv) && Create(conv).ctl.rxRto == 200
  {
  }

  function Unused(k: Kcb): End {
    End(k, FRESH_CALLER, [])
  }

  /**
   Two blocks created for one conversation, with any settings on either side, are where
   the theorems about runs start: the receive windows hold at least 128 segments, datagrams
   at least 50 bytes, and intervals and timeouts are in their bounds.
   */
  lemma SettingsStartRuns(conv: u32, a: seq<Setting>, b: seq<Setting>)
    requires AllCallable(a) && AllCallable(b)
    ensures var w := World(Unused(Configured(conv, a)), Unused(Configured(conv, b)));
            && FreshWorld(w)
            && w.a.k.ctl.rcvWnd >= WND_RCV && w.b.k.ctl.rcvWnd >= WND_RCV
            && w.a.k.ctl.mtu >= 50 && w.b.k.ctl.mtu >= 50
            && RtoOk(w.a.k.ctl) && RtoOk(w.b.k.ctl)
            && Running(w.a.k.ctl.(updated := true)) && Running(w.b.k.ctl.(updated := true))
  {
    ConfiguredIsUsable(conv, a);
    ConfiguredIsUsable(conv, b);
    hide Configured;
  }

  /** With any settings whatever, every datagram of every run fits the sender's mtu. */
  lemma ConfiguredDatagramsFit(conv: u32, a: seq<Setting>, b: seq<Setting>, xs: seq<Action>)
    requires AllCallable(a) && AllCallable(b)
    requires TimelyRun(TwinWorld(World(Unused(Configured(conv, a)), Unused(Configured(conv, b)))), xs)
    ensures var v := WorldRun(World(Unused(Configured(conv, a)), Unused(Configured(conv, b))), xs);
            forall i | 0 <= i < |v.a.out| :: OVERHEAD <= |v.a.out[i]| <= v.a.k.ctl.mtu == Configured(conv, a).ctl.mtu
  {
    var w := World(Unused(Configured(conv, a)), Unused(Configured(conv, b)));
    SettingsStartRuns(conv, a, b);
    DatagramsFit(w, xs);
    hide Configured, FreshWorld, TimelyRun, WorldRun, PairRun;
    MtuStays(w, xs);
  }

  lemma UsableIsEven(k: Kcb, conv: u32, peer: Control)
    requires Usable(k, conv) && peer.rcvWnd >= WND_RCV
    ensures SettingsSuit(k.ctl, peer) ==> StartsEven(k.ctl, peer)
  {
    hide Suits;
  }

  /**
   With any settings under which segments of that size suit the window the peer can announce,
   the congestion windows of every run stay in balance.
   */
  lemma ConfiguredWindowsStayBalanced(conv: u32, a: seq<Setting>, b: seq<Setting>, xs: seq<Action>)
    requires AllCallable(a) && AllCallable(b)
    requires SettingsSuit(Configured(conv, a).ctl, Configured(conv, b).ctl)
    requires SettingsSuit(Configured(conv, b).ctl, Configured(conv, a).ctl)
    requires TimelyRun(TwinWorld(World(Unused(Configured(conv, a)), Unused(Configured(conv, b)))), xs)
    ensures var v := WorldRun(World(Unused(Configured(conv, a)), Unused(Configured(conv, b))), xs);
            WindowEven(v.a) && WindowEven(v.b)
  {
    SettingsStartRuns(conv, a, b);
    ConfiguredIsUsable(conv, a);
    ConfiguredIsUsable(conv, b);
    var k, l := Configured(conv, a), Configured(conv, b);
    hide Configured, Usable, SettingsSuit, StartsEven, WindowEven, FreshWorld, TimelyRun, WorldRun;
    UsableIsEven(k, conv, l.ctl);
    UsableIsEven(l, conv, k.ctl);
    WindowsStayBalanced(World(Unused(k), Unused(l)), xs);
  }

  lemma MtuStays(w: World, xs: seq<Action>)
    requires FreshWorld(w) && TimelyRun(TwinWorld(w), xs)
    ensures WorldRun(w, xs).a.k.ctl.mtu == w.a.k.ctl.mtu
  {
    EveryRunOk(w, xs);
    StartOk(w);
    RunGrows(TwinWorld(w), xs);
    hide PairOk, PairRun, WorldRun, FreshWorld;
  }
}
