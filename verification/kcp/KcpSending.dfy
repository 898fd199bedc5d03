/**
 How much a flush sends: the congestion window, the caller's window and the peer's bound
 the segments in flight, and within them a flush takes all that is queued.
 */
module KcpSending {
  import opened Arithmetic32
  import opened KcpWire
  import opened KcpState
  import opened KcpWindows
  import opened KcpNetwork
  import opened KcpSafety
  import opened KcpMessages
  import opened KcpSimulation
  import opened KcpDelivery
  import opened KcpProgress
  import opened KcpRoundTrips

  /** How many segments a block may have in flight: `nocwnd` switches the congestion window off. */
  function InFlightLimit(nocwnd: bool, cwnd: u32, sndWnd: u32, rmtWnd: u32): (r: u32)
    ensures r <= sndWnd && r <= rmtWnd && (nocwnd || r <= cwnd)
    ensures r == sndWnd || r == rmtWnd || (!nocwnd && r == cwnd)
  {
    if nocwnd || cwnd >= Min(sndWnd, rmtWnd) then Min(sndWnd, rmtWnd) else cwnd
  }

  /** The limit of a block. */
  function LimitOf(c: Control): u32 {
    InFlightLimit(c.nocwnd, c.cwnd, c.sndWnd, c.rmtWnd)
  }

  lemma MoveTakes(s: Sender, c: Control)
    ensures var s' := Move(Exact, s, c);
            var n := Min(|s.queue|, Max(0, LimitOf(c) - (s.nxt - s.una)));
            && s'.queue == s.queue[n..] && s'.nxt == s.nxt + n && s'.una == s.una
  {
    MoveCountExact(s.nxt, s.una + SendWindow(c), |s.queue|);
    hide MoveCount, Numbered;
  }

  lemma ProbeTimerKeepsLimit(c: Control)
    ensures LimitOf(ProbeTimer(c)) == LimitOf(c)
  {
    hide Wrap, Itimediff;
  }

  /** A flush takes exactly what fits: the queue as far as the limit is not reached yet. */
  lemma FlushTakes(k: Kcb)
    requires k.ctl.updated
    ensures var s, s' := k.snd, Flush(Exact, k).k.snd;
            var n := Min(|s.queue|, Max(0, LimitOf(k.ctl) - (s.nxt - s.una)));
            && s'.queue == s.queue[n..] && s'.nxt == s.nxt + n && s'.una == s.una
  {
    ProbeTimerKeepsLimit(k.ctl);
    MoveTakes(k.snd, ProbeTimer(k.ctl));
    hide SweepAll, Move, AckWires, ProbeWires, ProbeTimer, Shrink, LimitOf;
  }

  /** The number of segments in flight, as the 32-bit block computes it. */
  function FlightOf(s: Sender): u32 {
    Wrap(s.nxt - s.una)
  }

  /** The same for a 32-bit block that is in step with an unbounded one. */
  lemma LowFlushTakes(k: Kcb, numbered: seq<Frag>)
    requires SenderOk(k.snd, numbered) && k.ctl.updated
    ensures var e, e' := Low(k), Flush(Mod32, Low(k)).k;
            var n := Min(|e.snd.queue|, Max(0, LimitOf(e.ctl) - FlightOf(e.snd)));
            e'.snd.queue == e.snd.queue[n..] && FlightOf(e'.snd) == FlightOf(e.snd) + n
  {
    FlushLow(k, numbered);
    FlushTakes(k);
    var s, s' := k.snd, Flush(Exact, k).k.snd;
    var n := Min(|s.queue|, Max(0, LimitOf(k.ctl) - (s.nxt - s.una)));
    assert 0 <= s.nxt - s.una <= 0xffff;
    FlightIs(s);
    FlightIs(s');
    hide Flush, LimitOf, Wrap, SenderOk;
  }

  lemma FlightIs(s: Sender)
    ensures FlightOf(LowSender(s)) == Wrap(s.nxt - s.una)
    ensures 0 <= s.nxt - s.una < M32 ==> FlightOf(LowSender(s)) == s.nxt - s.una
  {
    WrapOfDifference(s.nxt, s.una);
  }

  /** What a flush takes, and that it does not exceed the limit. */
  ghost predicate TakesWhatFits(k: Kcb, k': Kcb) {
    var n := |k.snd.queue| - |k'.snd.queue|;
    && n == Min(|k.snd.queue|, Max(0, LimitOf(k.ctl) - FlightOf(k.snd)))
    && k'.snd.queue == k.snd.queue[n..]
    && FlightOf(k'.snd) == FlightOf(k.snd) + n <= Max(FlightOf(k.snd), LimitOf(k.ctl))
  }

  /** The block an update hands to its flush. */
  lemma AtFlushKeepsLimit(k: Kcb, op: Op)
    ensures LimitOf(AtFlush(k.ctl, op)) == LimitOf(k.ctl)
    ensures Flushes(k, op) ==> AtFlush(k.ctl, op).updated
  {
    hide Wrap, Itimediff;
  }

  lemma TakesIf(k: Kcb, numbered: seq<Frag>)
    requires SenderOk(k.snd, numbered) && k.ctl.updated
    ensures TakesWhatFits(Low(k), Flush(Mod32, Low(k)).k)
  {
    LowFlushTakes(k, numbered);
    hide Flush, LimitOf, FlightOf, Low, SenderOk;
  }

  lemma SameLimitTakes(k: Kcb, c: Control, k': Kcb)
    requires TakesWhatFits(k.(ctl := c), k') && LimitOf(c) == LimitOf(k.ctl)
    ensures TakesWhatFits(k, k')
  {
    hide LimitOf, FlightOf;
  }

  lemma ActFlushes(e: End, peerOut: seq<seq<byte>>, op: Op)
    requires Flushes(e.k, op)
    ensures Act(e, peerOut, op).k == Flush(Mod32, e.k.(ctl := AtFlush(e.k.ctl, op))).k
  {
    assert e.k.(ctl := e.k.ctl) == e.k;
    hide Flush, Datagrams, EncodeEach;
  }

  lemma SenderIn(x: Node, y: Node)
    requires PairOk(Pair(x, y))
    ensures SenderOk(x.k.snd, x.numbered)
  {
  }

  lemma LowWith(e: End, x: Node, c: Control)
    requires InStep(e, x)
    ensures Low(x.k.(ctl := c)) == e.k.(ctl := c)
  {
  }

  lemma ActTakes(e: End, x: Node, y: Node, op: Op)
    requires PairOk(Pair(x, y)) && InStep(e, x) && Flushes(e.k, op)
    ensures TakesWhatFits(e.k, Act(e, EncodeEach(y.out), op).k)
  {
    hide *;
    var c := AtFlush(e.k.ctl, op);
    AtFlushKeepsLimit(e.k, op);
    SenderIn(x, y);
    LowWith(e, x, c);
    TakesIf(x.k.(ctl := c), x.numbered);
    ActFlushes(e, EncodeEach(y.out), op);
    SameLimitTakes(e.k, c, Act(e, EncodeEach(y.out), op).k);
  }

  /**
   In every run: an operation that flushes numbers exactly as many of the queued segments
   as the smallest of the windows leaves room for, so that afterwards no more are in flight
   than before or than that window.
   */
  lemma FlushesFillTheWindow(w: World, xs: seq<Action>, op: Op)
    requires FreshWorld(w) && TimelyRun(TwinWorld(w), xs)
    ensures var v := WorldRun(w, xs);
            && (Flushes(v.a.k, op) ==> TakesWhatFits(v.a.k, Act(v.a, v.b.out, op).k))
            && (Flushes(v.b.k, op) ==> TakesWhatFits(v.b.k, Act(v.b, v.a.out, op).k))
  {
    hide *;
    EveryRunOk(w, xs);
    var v, p := WorldRun(w, xs), PairRun(TwinWorld(w), xs);
    RunMeans(v, p);
    if Flushes(v.a.k, op) {
      ActTakes(v.a, p.a, p.b, op);
    }
    if Flushes(v.b.k, op) {
      ActTakes(v.b, p.b, p.a, op);
    }
  }

  lemma RunMeans(v: World, p: Pair)
    requires RunOk(v, p)
    ensures PairOk(Pair(p.a, p.b)) && PairOk(Pair(p.b, p.a)) && InStep(v.a, p.a) && InStep(v.b, p.b)
    ensures v.a.out == EncodeEach(p.a.out) && v.b.out == EncodeEach(p.b.out)
  {
    SameTwin(p);
    hide PairOk, UserOk;
  }
}
