/**
 How acknowledgements widen the congestion window: against the growth in plain numbers,
 where nothing wraps, and what widens it and what does not.
 */
module KcpWindowGrowth {
  import opened Arithmetic32
  import opened KcpWire
  import opened KcpState
  import opened KcpCongestion
  import opened KcpCongestionRuns

  /** A window in segments and in bytes. */
  datatype Window = Window(cwnd: int, incr: int)

  /** The bytes of the next step of avoidance: about a segment for each window full, and a sixteenth. */
  function NextBytes(incr: nat, mss: nat): int
    requires mss > 0
  {
    var base := Max(incr, mss);
    base + mss * mss % 0x1_0000_0000 / base + mss / 16
  }

  /** The window after an acknowledgement of something new. */
  function Widened(w: Window, ssthresh: int, limit: int, mss: nat): Window
    requires mss > 0 && w.incr >= 0
  {
    if w.cwnd >= limit then w
    else if w.cwnd < ssthresh then Window(w.cwnd + 1, w.incr + mss)
    else
      var incr := NextBytes(w.incr, mss);
      var cwnd := if incr >= (w.cwnd + 1) * mss then (incr + mss - 1) / mss else w.cwnd;
      if cwnd > limit then Window(limit, limit * mss) else Window(cwnd, incr)
  }

  function WindowOf(c: Control): Window {
    Window(c.cwnd, c.incr)
  }

  lemma SlowStartWidens(c: Control, w: nat)
    requires Even(c) && c.cwnd < c.rmtWnd <= w && (w + 1) * Mss(c) <= M32 && c.cwnd < c.ssthresh
    ensures WindowOf(Grow(c)) == Window(c.cwnd + 1, c.incr + Mss(c))
  {
    var m := Mss(c);
    TimesMonotone(c.cwnd + 2, w + 1, m);
    assert (c.cwnd + 2) * m == (c.cwnd + 1) * m + m;
    WrapSmall(c.cwnd + 1);
    WrapSmall(c.incr + m);
    hide Wrap, Avoidance;
  }

  lemma SquareNotSmall(incr: u32, m: u32)
    requires m > 0
    ensures Wrap(m * m) / Max(incr, m) >= 0
  {
  }

  lemma AvoidanceWidens(c: Control, w: nat)
    requires Even(c) && c.cwnd < c.rmtWnd <= w <= 0xffff && w >= 2 && GrowthFits(Mss(c), w)
    ensures var a, i, m := Avoidance(c), NextBytes(c.incr, Mss(c)), Mss(c);
            && a.incr == i && Mss(a) == m && a.rmtWnd == c.rmtWnd
            && a.cwnd == if i >= (c.cwnd + 1) * m then (i + m - 1) / m else c.cwnd
  {
    hide *;
    MssIsPositive(c);
    AvoidanceIncr(c, w);
    SquareNotSmall(c.incr, Mss(c));
    InWindow(c, w);
    StepFits(c.incr, Mss(c), w);
    StepIs(c.incr, Mss(c));
    NextBytesIs(c.incr, Mss(c));
    var i := AvoidanceStep(c.incr, Mss(c));
    AvoidanceIs(c, i);
    AvoidanceKeepsSizes(c);
    SizesMean(c, Avoidance(c));
  }

  lemma SizesMean(c: Control, d: Control)
    requires Sizes(d) == Sizes(c)
    ensures Mss(d) == Mss(c)
  {
  }

  lemma InWindow(c: Control, w: nat)
    requires Even(c) && c.cwnd < w
    ensures c.incr < w * Mss(c)
  {
    TimesMonotone(c.cwnd + 1, w, Mss(c));
  }

  lemma NextBytesIs(incr: u32, m: u32)
    requires m > 0
    ensures var base := Max(incr, m); NextBytes(incr, m) == base + Wrap(m * m) / base + m / 16
  {
  }

  lemma ClampWidens(c: Control, w: nat)
    requires c.rmtWnd <= w && (w + 1) * Mss(c) <= M32
    ensures WindowOf(ClampToPeer(c)) == if c.cwnd > c.rmtWnd then Window(c.rmtWnd, c.rmtWnd * Mss(c)) else WindowOf(c)
  {
    var m := Mss(c);
    TimesMonotone(c.rmtWnd, w, m);
    assert (w + 1) * m == w * m + m;
    WrapSmall(c.rmtWnd * m);
    hide Wrap;
  }

  /** In 32 bits the window grows as it does in plain numbers, under every setting that suits the peer. */
  lemma GrowthIsExact(c: Control, w: nat)
    requires Even(c) && c.rmtWnd <= w <= 0xffff && w >= 2 && GrowthFits(Mss(c), w)
    ensures WindowOf(Grow(c)) == Widened(WindowOf(c), c.ssthresh, c.rmtWnd, Mss(c))
  {
    FitsAtAll(Mss(c), w);
    hide NextBytes, Avoidance, SlowStart, ClampToPeer, Even, GrowthFits;
    if c.cwnd < c.rmtWnd {
      if c.cwnd < c.ssthresh {
        SlowStartWidens(c, w);
      } else {
        AvoidanceWidens(c, w);
        ClampWidens(Avoidance(c), w);
      }
    }
  }

  // ----- what widens it

  /** The window after the segments of a datagram: wider only if something new was acknowledged. */
  lemma OnlyNewAcksWiden(k: Kcb, ws: seq<Wire>)
    ensures var k' := InputWires(Exact, k, ws);
            var limit := if ws == [] then k.ctl.rmtWnd else ws[|ws| - 1].wnd;
            && k'.ctl.rmtWnd == limit && k'.ctl.ssthresh == k.ctl.ssthresh
            && (k'.snd.una <= k.snd.una ==> WindowOf(k'.ctl) == WindowOf(k.ctl))
            && (k'.snd.una > k.snd.una ==> WindowOf(k'.ctl) == WindowOf(Grow(k.ctl.(rmtWnd := limit))))
  {
    var q := InputSegs(Exact, Parse(k, NoAck), ws);
    InputSegsCongestion(Parse(k, NoAck), ws);
    TailUna(q, k.snd.una);
    GrowKeepsThreshold(q.k.ctl);
    GrowKeepsSizes(q.k.ctl);
    GrowAlike(q.k.ctl, k.ctl.(rmtWnd := q.k.ctl.rmtWnd));
    hide InputSegs, Grow, ParseFastack;
  }

  lemma TailUna(q: Parse, prevUna: int)
    ensures InputTail(Exact, prevUna, q).snd.una == q.k.snd.una
  {
    hide BumpFastack;
  }

  lemma GrowKeepsThreshold(c: Control)
    ensures Grow(c).ssthresh == c.ssthresh
  {
    hide AvoidanceStep, CeilDiv, Wrap;
  }

  lemma SlowStartAlike(c: Control, d: Control)
    requires Congestion(c) == Congestion(d)
    ensures Congestion(SlowStart(c)) == Congestion(SlowStart(d))
  {
    hide Wrap;
  }

  lemma AvoidanceAlike(c: Control, d: Control)
    requires Congestion(c) == Congestion(d)
    ensures Congestion(Avoidance(c)) == Congestion(Avoidance(d))
  {
    assert Mss(c) == Mss(d);
    hide AvoidanceStep, CeilDiv, Wrap, Mss;
  }

  lemma ClampAlike(c: Control, d: Control)
    requires Congestion(c) == Congestion(d)
    ensures Congestion(ClampToPeer(c)) == Congestion(ClampToPeer(d))
  {
    assert Mss(c) == Mss(d);
    hide Wrap, Mss;
  }

  lemma GrowAlike(c: Control, d: Control)
    requires Congestion(c) == Congestion(d)
    ensures WindowOf(Grow(c)) == WindowOf(Grow(d))
  {
    SlowStartAlike(c, d);
    AvoidanceAlike(c, d);
    ClampAlike(SlowStart(c), SlowStart(d));
    ClampAlike(Avoidance(c), Avoidance(d));
    hide SlowStart, Avoidance, ClampToPeer;
  }
}
