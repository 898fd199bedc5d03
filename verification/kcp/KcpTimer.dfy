/**
 The clock of the engine: when an update flushes, what `ikcp_check` promises, and why a
 loop driven by `ikcp_check` flushes at the same ticks as one that polls every millisecond.
 */
module KcpTimer {
  import opened Arithmetic32
  import opened KcpWire
  import opened KcpState

  /** A block that has been updated once, with an interval `ikcp_interval` allows. */
  predicate Running(c: Control) {
    c.updated && 0 < c.interval <= 5000
  }

  /** Whether an update at this tick flushes. */
  predicate Due(c: Control, now: u32) {
    Tick(c, now).1
  }

  /** Ticks from `now` to the next flush, when none is due. */
  function FlushWait(c: Control, now: u32): int {
    Itimediff(c.tsFlush, now)
  }

  // ----- arithmetic of ticks

  lemma TickAfter(now: u32, d: int)
    requires -M31 <= d < M31
    ensures Itimediff(Wrap(now + d), now) == d
  {
    ItimediffIsExact(now + d, now);
    assert Wrap(now) == now;
  }

  lemma TicksAdd(a: u32, now: u32, d: int)
    requires -M31 <= Itimediff(a, now) - d < M31
    ensures Itimediff(a, Wrap(now + d)) == Itimediff(a, now) - d
  {
    var e := Itimediff(a, now);
    assert a == Wrap(now + e) by {
      WrapOfDifference(a, now);
      if a >= now { assert Wrap(a - now) == a - now; } else { assert Wrap(a - now) == a - now + M32; }
    }
    ItimediffIsExact(now + e, now + d);
  }

  lemma DueIff(c: Control, now: u32)
    requires c.updated
    ensures Due(c, now) <==> Itimediff(now, c.tsFlush) >= 0 || Itimediff(now, c.tsFlush) < -10000
    ensures !Due(c, now) ==> Tick(c, now) == (c.(current := now), false)
    ensures !Due(c, now) ==> 0 < FlushWait(c, now) <= 10000
  {
    Opposite(now, c.tsFlush);
  }

  lemma Opposite(a: u32, b: u32)
    ensures Itimediff(b, a) == -Itimediff(a, b) || Itimediff(a, b) == -M31
  {
  }

  lemma OppositeFrom(a: u32, b: u32)
    requires -M31 < Itimediff(b, a)
    ensures Itimediff(a, b) == -Itimediff(b, a)
  {
  }

  // ----- what an update leaves behind

  /** After a flushing update the next flush is ahead, and no further than the interval. */
  lemma NextFlushIsSoon(c: Control, now: u32)
    requires 0 < c.interval <= 5000
    ensures Tick(c, now).1 ==> 0 < FlushWait(Tick(c, now).0, now) <= c.interval
  {
    if Tick(c, now).1 {
      var (c', due) := Tick(c, now);
      var from := if !c.updated || Itimediff(now, c.tsFlush) >= 10000 || Itimediff(now, c.tsFlush) < -10000
                  then now else c.tsFlush;
      var next := Wrap(from + c.interval);
      NextTick(from, now, c.interval);
      TickAfter(now, c.interval);
      hide Itimediff, Wrap;
    }
  }

  lemma NextTick(from: u32, now: u32, interval: u32)
    requires 0 < interval <= 5000 && 0 <= Itimediff(now, from) < 10000
    ensures var next := Wrap(from + interval);
            && Itimediff(now, next) == Itimediff(now, from) - interval
            && Itimediff(next, now) == interval - Itimediff(now, from)
  {
    TicksAdd(now, from, interval);
    OppositeFrom(Wrap(from + interval), now);
  }

  /** An update before the flush is due only moves the clock. */
  lemma EarlyUpdateDoesNothing(ar: Arith, k: Kcb, now: u32)
    requires k.ctl.updated && !Due(k.ctl, now)
    ensures Update(ar, k, now) == FlushResult(k.(ctl := k.ctl.(current := now)), [])
  {
    DueIff(k.ctl, now);
  }

  /** Until the flush is due no tick flushes, and then one does. */
  lemma FirstDueTick(c: Control, now: u32, d: nat)
    requires c.updated && !Due(c, now) && d <= FlushWait(c, now)
    ensures Due(c, Wrap(now + d)) <==> d == FlushWait(c, now)
    ensures FlushWait(c, Wrap(now + d)) == FlushWait(c, now) - d
  {
    DueIff(c, now);
    TicksAdd(c.tsFlush, now, d);
    DueIff(c, Wrap(now + d));
    OppositeFrom(Wrap(now + d), c.tsFlush);
  }

  /** Ticks since the flush that was due; a block not updated yet is due at once. */
  function Ahead(c: Control, now: u32): int {
    if c.updated then Itimediff(now, c.tsFlush) else 0
  }

  /**
   An update flushes from the tick due on, and at once when the clock has jumped back by more
   than ten seconds. The next flush comes an interval after the one due, or after now if that
   has passed or the clock has jumped.
   */
  lemma TickIs(c: Control, now: u32)
    requires 0 < c.interval <= 5000
    ensures var (c', due) := Tick(c, now);
            && (due <==> Ahead(c, now) >= 0 || Ahead(c, now) < -10000)
            && c'.current == now && c'.updated
            && c'.tsFlush == (if !due then c.tsFlush
                              else if c.updated && 0 <= Ahead(c, now) < c.interval then (c.tsFlush + c.interval) % 0x1_0000_0000
                              else (now + c.interval) % 0x1_0000_0000)
            && c' == c.(current := now, updated := true, tsFlush := c'.tsFlush)
  {
    var from := if !c.updated || Ahead(c, now) >= 10000 || Ahead(c, now) < -10000 then now else c.tsFlush;
    SameTick(now, now);
    if 0 <= Itimediff(now, from) < 10000 {
      NextTick(from, now, c.interval);
    }
    hide Itimediff;
  }

  // ----- what a check promises

  lemma {:induction false} PacketWaitIsLeast(buf: seq<SndSeg>, now: u32)
    ensures forall i | 0 <= i < |buf| :: PacketWait(buf, now) <= Itimediff(buf[i].resendts, now)
    ensures PacketWait(buf, now) < 0x7fff_ffff ==>
              exists i :: 0 <= i < |buf| && PacketWait(buf, now) == Itimediff(buf[i].resendts, now)
  {
    if buf != [] {
      var init := buf[..|buf| - 1];
      PacketWaitIsLeast(init, now);
      if PacketWait(buf, now) == PacketWait(init, now) && PacketWait(buf, now) < 0x7fff_ffff {
        var i :| 0 <= i < |init| && PacketWait(init, now) == Itimediff(init[i].resendts, now);
        assert buf[i] == init[i];
      } else {
        assert PacketWait(buf, now) == Itimediff(buf[|buf| - 1].resendts, now);
      }
    }
  }

  /**
   The wait `ikcp_check` announces is at most the interval, never reaches past the next
   flush, and never past the resend time of a segment in flight.
   */
  lemma CheckIsNeverLate(k: Kcb, now: u32)
    requires Running(k.ctl)
    ensures var wait := Itimediff(Check(k, now), now);
            && 0 <= wait <= k.ctl.interval
            && (!Due(k.ctl, now) ==> wait <= FlushWait(k.ctl, now))
            && (Due(k.ctl, now) ==> wait == 0)
            && (forall i | 0 <= i < |k.snd.buf| :: wait <= Max(0, Itimediff(k.snd.buf[i].resendts, now)))
  {
    var c := k.ctl;
    DueIff(c, now);
    PacketWaitIsLeast(k.snd.buf, now);
    hide PacketWait;
    TickAfter(now, 0);
    assert Wrap(now) == now;
    if !Due(c, now) {
      OppositeFrom(now, c.tsFlush);
      var wait := PacketWait(k.snd.buf, now);
      if wait > 0 {
        TickAfter(now, Min(Min(wait, FlushWait(c, now)), c.interval));
      }
    }
  }

  /** A check asks for an immediate update only when something is due. */
  lemma CheckIsNeverIdle(k: Kcb, now: u32)
    requires Running(k.ctl) && Check(k, now) == now
    ensures Due(k.ctl, now) || exists i :: 0 <= i < |k.snd.buf| && Itimediff(k.snd.buf[i].resendts, now) <= 0
  {
    var c := k.ctl;
    DueIff(c, now);
    PacketWaitIsLeast(k.snd.buf, now);
    hide PacketWait;
    if !Due(c, now) {
      OppositeFrom(now, c.tsFlush);
      var wait := PacketWait(k.snd.buf, now);
      TickAfter(now, Min(Min(wait, FlushWait(c, now)), c.interval));
    }
  }

  /** The time announced is that of the next flush, of a resend, or an interval ahead; there is no earlier reason. */
  lemma CheckIsTight(k: Kcb, now: u32)
    requires Running(k.ctl) && !Due(k.ctl, now)
    ensures var wait := Itimediff(Check(k, now), now);
            || wait == k.ctl.interval || wait == FlushWait(k.ctl, now)
            || exists i :: 0 <= i < |k.snd.buf| && wait == Max(0, Itimediff(k.snd.buf[i].resendts, now))
  {
    var c := k.ctl;
    DueIff(c, now);
    PacketWaitIsLeast(k.snd.buf, now);
    hide PacketWait;
    TickAfter(now, 0);
    OppositeFrom(now, c.tsFlush);
    var wait := PacketWait(k.snd.buf, now);
    if wait > 0 {
      TickAfter(now, Min(Min(wait, FlushWait(c, now)), c.interval));
    }
  }

  /** Before its first update a block asks for one at once. */
  lemma CheckAtStart(k: Kcb, now: u32)
    requires !k.ctl.updated
    ensures Check(k, now) == now
  {
  }

  /** No update strictly before the announced time flushes. */
  lemma NoFlushBeforeCheck(ar: Arith, k: Kcb, now: u32, d: nat)
    requires Running(k.ctl) && d < Itimediff(Check(k, now), now)
    ensures Update(ar, k, Wrap(now + d)).wires == []
    ensures Update(ar, k, Wrap(now + d)).k == k.(ctl := k.ctl.(current := Wrap(now + d)))
  {
    CheckIsNeverLate(k, now);
    FirstDueTick(k.ctl, now, d);
    EarlyUpdateDoesNothing(ar, k, Wrap(now + d));
  }

  // ----- two ways to drive the clock

  lemma PollStep(k: Kcb, now: u32)
    requires Running(k.ctl) && !Due(k.ctl, now)
    ensures Update(Mod32, k, now).k == k.(ctl := k.ctl.(current := now))
    ensures forall t :: Due(k.ctl.(current := now), t) == Due(k.ctl, t)
    ensures !Due(k.ctl, Wrap(now + 1)) ==> FlushWait(k.ctl, Wrap(now + 1)) < FlushWait(k.ctl, now)
    ensures 0 < FlushWait(k.ctl, now)
  {
    DueIff(k.ctl, now);
    EarlyUpdateDoesNothing(Mod32, k, now);
    FirstDueTick(k.ctl, now, 1);
    forall t ensures Due(k.ctl.(current := now), t) == Due(k.ctl, t) {
      DueIff(k.ctl, t);
      DueIff(k.ctl.(current := now), t);
    }
  }

  /**
   When the timer loop wakes next: at the announced time, or, if that is at once and no
   flush came of it, when the clock has moved on.
   */
  function Wake(k: Kcb, now: u32): u32 {
    if Check(k, now) == now then Wrap(now + 1) else Check(k, now)
  }

  lemma WakeStep(k: Kcb, now: u32)
    requires Running(k.ctl) && !Due(k.ctl, now)
    ensures var d := Itimediff(Wake(k, now), now);
            0 < d <= FlushWait(k.ctl, now) && Wake(k, now) == Wrap(now + d)
  {
    DueIff(k.ctl, now);
    CheckIsNeverLate(k, now);
    TickAfter(now, 1);
    TickAfter(now, 0);
    SameTick(Check(k, now), now);
  }

  lemma SameTick(a: u32, now: u32)
    ensures a == Wrap(now + Itimediff(a, now))
    ensures Itimediff(a, now) == 0 <==> a == now
  {
    WrapOfDifference(a, now);
    if a >= now { assert Wrap(a - now) == a - now; } else { assert Wrap(a - now) == a - now + M32; }
  }

  // ----- whole runs of the two loops

  /** A flush: when, and the segments it put out. */
  datatype Flushed = Flushed(tick: u32, wires: seq<Wire>)

  /** A run of a loop: its flushes, and the block they left. */
  datatype Driven = Driven(flushes: seq<Flushed>, k: Kcb)

  function Clock(c: Control): (bool, u32, u32) {
    (c.updated, c.interval, c.tsFlush)
  }

  lemma ShrinkKeepsClock(c: Control, inflight: u32, window: u32, fast: bool, lost: bool)
    ensures Clock(Shrink(c, inflight, window, fast, lost)) == Clock(c)
  {
    hide Wrap, Resent;
  }

  lemma ProbeTimerKeepsClock(c: Control)
    ensures Clock(ProbeTimer(c)) == Clock(c)
  {
    hide Wrap, Itimediff;
  }

  /** A flush leaves the clock alone. */
  lemma FlushKeepsClock(k: Kcb)
    ensures Clock(Flush(Mod32, k).k.ctl) == Clock(k.ctl)
  {
    if k.ctl.updated {
      var c := ProbeTimer(k.ctl);
      var s := Move(Mod32, k.snd, c);
      var w := SweepAll(StampOf(k), c, s.buf);
      ProbeTimerKeepsClock(k.ctl);
      var c1 := ClearProbes(c).(xmit := Wrap(c.xmit + w.resends), dead := c.dead || w.dead);
      ShrinkKeepsClock(c1, Mod32.Sub(s.nxt, s.una), SendWindow(c), w.fast, w.resends > 0);
    }
    hide SweepAll, Move, AckWires, ProbeWires, Wrap, Itimediff, ProbeTimer, Shrink, SendWindow;
  }

  /** After a flushing update the block runs on, and is not due again at that tick. */
  lemma FlushRunsOn(k: Kcb, now: u32)
    requires Running(k.ctl) && Due(k.ctl, now)
    ensures var c := Update(Mod32, k, now).k.ctl; Running(c) && !Due(c, now) && 0 < FlushWait(c, now)
  {
    var c := Tick(k.ctl, now).0;
    assert c.interval == k.ctl.interval && c.updated;
    NextFlushIsSoon(k.ctl, now);
    FlushKeepsClock(k.(ctl := c));
    var d := Update(Mod32, k, now).k.ctl;
    hide Tick, Flush;
    DueIff(d, now);
    OppositeFrom(now, d.tsFlush);
    OppositeFrom(d.tsFlush, now);
  }

  /** The first `n` flushes of a loop that updates every millisecond, from `now` on. */
  function PolledRun(k: Kcb, now: u32, n: nat): Driven
    requires Running(k.ctl)
    decreases n, if Due(k.ctl, now) then 0 else FlushWait(k.ctl, now)
  {
    if n == 0 then Driven([], k)
    else if Due(k.ctl, now) then
      var f := Update(Mod32, k, now);
      FlushRunsOn(k, now);
      var rest := PolledRun(f.k, Wrap(now + 1), n - 1);
      Driven([Flushed(now, f.wires)] + rest.flushes, rest.k)
    else
      PollStep(k, now);
      PolledRun(Update(Mod32, k, now).k, Wrap(now + 1), n)
  }

  /** The first `n` flushes of the timer loop, which sleeps until `ikcp_check` says. */
  function DrivenRun(k: Kcb, now: u32, n: nat): Driven
    requires Running(k.ctl)
    decreases n, if Due(k.ctl, now) then 0 else FlushWait(k.ctl, now)
  {
    if n == 0 then Driven([], k)
    else if Due(k.ctl, now) then
      var f := Update(Mod32, k, now);
      FlushRunsOn(k, now);
      var rest := DrivenRun(f.k, Wake(f.k, now), n - 1);
      Driven([Flushed(now, f.wires)] + rest.flushes, rest.k)
    else
      PollStep(k, now);
      WakeStep(k, now);
      FirstDueTick(k.ctl, now, Itimediff(Wake(k, now), now));
      DrivenRun(Update(Mod32, k, now).k, Wake(k, now), n)
  }

  /** The tick of the next flush of a loop that stands at `now`. */
  function NextFlush(k: Kcb, now: u32): u32 {
    if Due(k.ctl, now) then now else k.ctl.tsFlush
  }

  /** When the next update comes, what the clock showed before plays no part. */
  lemma ClockIsSet(k: Kcb, was: u32, now: u32)
    requires k.ctl.updated
    ensures Update(Mod32, k.(ctl := k.ctl.(current := was)), now) == Update(Mod32, k, now)
  {
    hide Flush;
    assert Tick(k.ctl.(current := was), now) == Tick(k.ctl, now);
  }

  lemma NextFlushIsDue(k: Kcb, now: u32)
    requires Running(k.ctl)
    ensures Due(k.ctl, NextFlush(k, now))
  {
    if !Due(k.ctl, now) {
      DueIff(k.ctl, now);
      DueIff(k.ctl, k.ctl.tsFlush);
      SameTick(k.ctl.tsFlush, k.ctl.tsFlush);
    }
  }

  /** A polling run is its first flush and the run after it. */
  lemma {:induction false} PolledRunIs(k: Kcb, now: u32, n: nat)
    requires Running(k.ctl) && n > 0
    ensures var t := NextFlush(k, now); Due(k.ctl, t)
    ensures var t := NextFlush(k, now);
            var f := Update(Mod32, k, t);
            && Running(f.k.ctl)
            && var rest := PolledRun(f.k, Wrap(t + 1), n - 1);
               PolledRun(k, now, n) == Driven([Flushed(t, f.wires)] + rest.flushes, rest.k)
    decreases if Due(k.ctl, now) then 0 else FlushWait(k.ctl, now)
  {
    hide Update, Check, Tick;
    var t := NextFlush(k, now);
    NextFlushIsDue(k, now);
    FlushRunsOn(k, t);
    if !Due(k.ctl, now) {
      PollStep(k, now);
      FirstDueTick(k.ctl, now, 1);
      SameTick(k.ctl.tsFlush, now);
      PolledRunIs(Update(Mod32, k, now).k, Wrap(now + 1), n);
      ClockIsSet(k, now, t);
    }
  }

  /** So is a run of the timer loop. */
  lemma {:induction false} DrivenRunIs(k: Kcb, now: u32, n: nat)
    requires Running(k.ctl) && n > 0
    ensures var t := NextFlush(k, now); Due(k.ctl, t)
    ensures var t := NextFlush(k, now);
            var f := Update(Mod32, k, t);
            && Running(f.k.ctl)
            && var rest := DrivenRun(f.k, Wake(f.k, t), n - 1);
               DrivenRun(k, now, n) == Driven([Flushed(t, f.wires)] + rest.flushes, rest.k)
    decreases if Due(k.ctl, now) then 0 else FlushWait(k.ctl, now)
  {
    hide Update, Check, Tick;
    var t := NextFlush(k, now);
    NextFlushIsDue(k, now);
    FlushRunsOn(k, t);
    if !Due(k.ctl, now) {
      var d := Itimediff(Wake(k, now), now);
      PollStep(k, now);
      WakeStep(k, now);
      FirstDueTick(k.ctl, now, d);
      SameTick(k.ctl.tsFlush, now);
      DrivenRunIs(Update(Mod32, k, now).k, Wake(k, now), n);
      ClockIsSet(k, now, t);
    }
  }

  /** A loop that stands at a tick up to the next flush flushes next when that is due. */
  lemma NextFlushFrom(k: Kcb, base: u32, d: nat)
    requires Running(k.ctl) && !Due(k.ctl, base) && d <= FlushWait(k.ctl, base)
    ensures NextFlush(k, Wrap(base + d)) == k.ctl.tsFlush
  {
    FirstDueTick(k.ctl, base, d);
    SameTick(k.ctl.tsFlush, base);
  }

  /** The two loops agree from different ticks too, if both stand before the next flush or at it. */
  lemma {:induction false} RunsAgree(k: Kcb, base: u32, p: nat, q: nat, n: nat)
    requires Running(k.ctl) && !Due(k.ctl, base)
    requires p <= FlushWait(k.ctl, base) && q <= FlushWait(k.ctl, base)
    ensures PolledRun(k, Wrap(base + p), n) == DrivenRun(k, Wrap(base + q), n)
    decreases n, 0
  {
    hide Update, Check, Tick, Wake;
    if n > 0 {
      PolledRunIs(k, Wrap(base + p), n);
      DrivenRunIs(k, Wrap(base + q), n);
      NextFlushFrom(k, base, p);
      NextFlushFrom(k, base, q);
      FlushThenAgree(k, k.ctl.tsFlush, n - 1);
    }
  }

  lemma {:induction false} FlushThenAgree(k: Kcb, t: u32, n: nat)
    requires Running(k.ctl) && Due(k.ctl, t)
    ensures var f := Update(Mod32, k, t);
            Running(f.k.ctl) && PolledRun(f.k, Wrap(t + 1), n) == DrivenRun(f.k, Wake(f.k, t), n)
    decreases n, 1
  {
    hide Update, Check, Tick, Wake;
    FlushRunsOn(k, t);
    var f := Update(Mod32, k, t);
    WakeStep(f.k, t);
    RunsAgree(f.k, t, 1, Itimediff(Wake(f.k, t), t), n);
  }

  /**
   The loop that sleeps until the checked time flushes at the very ticks at which polling
   every millisecond does, with the same output each time, and leaves the same block.
   */
  lemma DrivenIsPolled(k: Kcb, now: u32, n: nat)
    requires Running(k.ctl)
    ensures DrivenRun(k, now, n) == PolledRun(k, now, n)
  {
    hide Update, Check, Tick, Wake;
    if n > 0 {
      PolledRunIs(k, now, n);
      DrivenRunIs(k, now, n);
      FlushThenAgree(k, NextFlush(k, now), n - 1);
    }
  }
}
