/**
 What a flush does with the segments in flight: which it puts out and in which order, how
 it sets their timers, and how the congestion window answers to resends.
 */
module KcpRetransmission {
  import opened Arithmetic32
  import opened KcpWire
  import opened KcpState
  import opened KcpWindows
  import opened KcpNetwork
  import opened KcpProgress
  import opened KcpRoundTrips
  import opened KcpSending
  import opened KcpFastResend

  predicate TimedOut(c: Control, s: SndSeg) {
    s.xmit != 0 && Itimediff(c.current, s.resendts) >= 0
  }

  /** How many passes make a segment due early; without the setting none do. */
  function PassesNeeded(c: Control): int {
    if c.fastresend > 0 then c.fastresend else 0xffff_ffff
  }

  /** Passed over, and resent early. */
  predicate Hurried(c: Control, s: SndSeg) {
    && s.xmit != 0 && !TimedOut(c, s)
    && PassesNeeded(c) <= s.fastack && (c.fastlimit <= 0 || Signed(s.xmit) <= c.fastlimit)
  }

  predicate SendsNow(c: Control, s: SndSeg) {
    s.xmit == 0 || TimedOut(c, s) || Hurried(c, s)
  }

  /** What a timeout adds to a segment's waiting time: all of it, or half of it, or half of the current estimate. */
  function Penalty(c: Control, rto: u32): int {
    if c.nodelay == 0 then Max(rto, c.rxRto) else TruncHalf(Signed(if c.nodelay == 1 || c.nodelay < 0 then rto else c.rxRto))
  }

  /** A segment in flight before and after a flush. */
  ghost predicate Handled(c: Control, s: SndSeg, t: SndSeg) {
    && t.sn == s.sn && t.frag == s.frag
    && if s.xmit == 0 then
         && t.xmit == 1 && t.fastack == s.fastack && t.rto == c.rxRto
         && t.resendts == (c.current + c.rxRto + if c.nodelay == 0 then c.rxRto / 8 else 0) % 0x1_0000_0000
       else if TimedOut(c, s) then
         && t.xmit == (s.xmit + 1) % 0x1_0000_0000 && t.fastack == s.fastack
         && t.rto == (s.rto + Penalty(c, s.rto)) % 0x1_0000_0000 && t.resendts == (c.current + t.rto) % 0x1_0000_0000
       else if Hurried(c, s) then
         && t.xmit == (s.xmit + 1) % 0x1_0000_0000 && t.fastack == 0
         && t.rto == s.rto && t.resendts == (c.current + s.rto) % 0x1_0000_0000
       else t == s
  }

  lemma TryHandles(c: Control, s: SndSeg)
    requires c.fastresend < M31
    ensures var a := TrySend(c, s);
            && Handled(c, s, a.seg) && a.sent == SendsNow(c, s)
            && a.lost == TimedOut(c, s) && a.fast == Hurried(c, s)
  {
    hide Itimediff, TruncHalf, Signed;
  }

  /** What the probe timer leaves of the settings resending looks at. */
  function Clockwork(c: Control): (u32, u32, int, int, int, u32, bool, u32) {
    (c.current, c.rxRto, c.nodelay, c.fastresend, c.fastlimit, c.deadLink, c.dead, c.xmit)
  }

  lemma ProbeTimerKeepsClockwork(c: Control)
    ensures Clockwork(ProbeTimer(c)) == Clockwork(c)
  {
    hide Wrap, Itimediff;
  }

  lemma SameClockwork(c: Control, d: Control, s: SndSeg, t: SndSeg)
    requires Clockwork(c) == Clockwork(d)
    ensures Handled(c, s, t) <==> Handled(d, s, t)
    ensures SendsNow(c, s) == SendsNow(d, s) && TimedOut(c, s) == TimedOut(d, s) && Hurried(c, s) == Hurried(d, s)
  {
    hide Itimediff, TruncHalf, Signed;
  }

  /** A flush handles every segment in its place; those it has just numbered count as never sent. */
  lemma FlushHandles(ar: Arith, k: Kcb)
    requires k.ctl.updated && k.ctl.fastresend < M31
    ensures var buf, buf' := Swept(ar, k), Flush(ar, k).k.snd.buf;
            && |buf'| == |buf| && k.snd.buf <= buf
            && (forall i | 0 <= i < |buf| :: Handled(k.ctl, buf[i], buf'[i]))
            && (forall i | |k.snd.buf| <= i < |buf| :: buf[i].xmit == 0 && buf[i].fastack == 0)
  {
    var c, buf := ProbeTimer(k.ctl), Swept(ar, k);
    ProbeTimerKeepsClockwork(k.ctl);
    MovedBuffer(ar, k.snd, c);
    FlushBufferIs(ar, k);
    forall i | 0 <= i < |buf|
      ensures Handled(k.ctl, buf[i], Flush(ar, k).k.snd.buf[i])
    {
      SweptOne(StampOf(k), c, buf, i);
      TryHandles(c, buf[i]);
      SameClockwork(k.ctl, c, buf[i], TrySend(c, buf[i]).seg);
    }
    hide Flush, SweepAll, ProbeTimer, Move, Handled;
  }

  lemma FlushBufferIs(ar: Arith, k: Kcb)
    requires k.ctl.updated
    ensures Flush(ar, k).k.snd.buf == SweepAll(StampOf(k), ProbeTimer(k.ctl), Swept(ar, k)).buf
  {
    hide SweepAll, ProbeTimer, Move, Shrink, AckWires, ProbeWires, StampOf;
  }

  lemma MovedBuffer(ar: Arith, s: Sender, c: Control)
    ensures var buf := Move(ar, s, c).buf;
            s.buf <= buf && forall i | |s.buf| <= i < |buf| :: buf[i].xmit == 0 && buf[i].fastack == 0
  {
    hide MoveCount, Wrap;
  }

  // ----- what goes out

  /** The data of the segments sent now, in the order of the buffer. */
  function DataOut(t: Stamp, c: Control, buf: seq<SndSeg>): seq<Wire> {
    if buf == [] then []
    else
      (if SendsNow(c, buf[0])
       then [Wire(t.conv, CMD_PUSH, buf[0].frag.frg, t.wnd, c.current, buf[0].sn, t.una, buf[0].frag.data)] else [])
      + DataOut(t, c, buf[1..])
  }

  lemma {:induction false} DataOutLast(t: Stamp, c: Control, buf: seq<SndSeg>, s: SndSeg)
    ensures DataOut(t, c, buf + [s]) == DataOut(t, c, buf) + DataOut(t, c, [s])
  {
    hide SendsNow;
    if buf == [] {
      assert [] + [s] == [s];
    } else {
      assert (buf + [s])[1..] == buf[1..] + [s];
      DataOutLast(t, c, buf[1..], s);
    }
  }

  lemma DataOutOne(t: Stamp, c: Control, s: SndSeg)
    ensures DataOut(t, c, [s]) == if SendsNow(c, s) then [DataWire(t, c, s)] else []
  {
    hide SendsNow;
    assert [s][1..] == [];
  }

  lemma {:induction false} SweepPutsOut(t: Stamp, c: Control, buf: seq<SndSeg>)
    requires c.fastresend < M31
    ensures SweepAll(t, c, buf).wires == DataOut(t, c, buf)
  {
    if buf != [] {
      var front, s := buf[..|buf| - 1], buf[|buf| - 1];
      SweepPutsOut(t, c, front);
      TryHandles(c, s);
      assert front + [s] == buf;
      DataOutLast(t, c, front, s);
      DataOutOne(t, c, s);
      hide TrySend, Handled, SendsNow, DataOut, TimedOut, Hurried, DataWire;
    }
  }

  lemma {:induction false} SameDataOut(t: Stamp, c: Control, d: Control, buf: seq<SndSeg>)
    requires Clockwork(c) == Clockwork(d)
    ensures DataOut(t, c, buf) == DataOut(t, d, buf)
  {
    if buf != [] {
      SameClockwork(c, d, buf[0], buf[0]);
      hide SendsNow;
      SameDataOut(t, c, d, buf[1..]);
    }
  }

  /** What all segments of a flush say about its sender: its conversation, the room it has, and what it has received. */
  function Says(k: Kcb): Stamp {
    Stamp(k.ctl.conv, (if |k.rcv.queue| < k.ctl.rcvWnd then k.ctl.rcvWnd - |k.rcv.queue| else 0) % 0x1_0000, k.rcv.nxt)
  }

  /** The acknowledgements waiting, each with the time its segment carried. */
  function AcksOut(t: Stamp, acks: seq<AckItem>): seq<Wire> {
    if acks == [] then []
    else [Wire(t.conv, CMD_ACK, 0, t.wnd, acks[0].ts, acks[0].sn, t.una, [])] + AcksOut(t, acks[1..])
  }

  lemma {:induction false} AcksOutAre(t: Stamp, acks: seq<AckItem>)
    ensures AckWires(t, acks) == AcksOut(t, acks)
  {
    if acks != [] {
      AcksOutAre(t, acks[1..]);
      assert AckWires(t, acks) == [AckWire(t, acks[0])] + AckWires(t, acks[1..]);
    }
  }

  /** A question of the window, or an answer. */
  predicate IsProbe(t: Stamp, cmd: byte, w: Wire) {
    w.conv == t.conv && w.cmd == cmd && w.frg == 0 && w.wnd == t.wnd && w.una == t.una && w.data == []
  }

  /** The peer has no room, it was asked before, and it is time to ask again. */
  predicate AskNow(c: Control) {
    c.rmtWnd == 0 && c.probeWait != 0 && Itimediff(c.current, c.tsProbe) >= 0
  }

  /**
   A flush puts out the acknowledgements in the order they came, a question if it is time, an
   answer if one is owed, and the data of the segments sent now, all with the same stamp.
   Afterwards no acknowledgement waits and nothing is owed.
   */
  lemma FlushPutsOut(ar: Arith, k: Kcb)
    requires k.ctl.updated && k.ctl.fastresend < M31
    ensures var t, ws := Says(k), Flush(ar, k).wires;
            var acks, data := AcksOut(t, k.rcv.acks), DataOut(t, k.ctl, Swept(ar, k));
            exists probes :: ws == acks + probes + data
              && |probes| == (if k.ctl.askSend || AskNow(k.ctl) then 1 else 0) + (if k.ctl.askTell then 1 else 0)
              && (k.ctl.askSend || AskNow(k.ctl) ==> IsProbe(t, CMD_WASK, probes[0]))
              && (k.ctl.askTell ==> IsProbe(t, CMD_WINS, probes[|probes| - 1]))
    ensures var f := Flush(ar, k).k; f.rcv == k.rcv.(acks := []) && !f.ctl.askSend && !f.ctl.askTell
  {
    var c, t := ProbeTimer(k.ctl), StampOf(k);
    ProbeTimerKeepsClockwork(k.ctl);
    ProbesOut(k, t);
    AcksOutAre(t, k.rcv.acks);
    SweepPutsOut(t, c, Swept(ar, k));
    SameDataOut(t, k.ctl, c, Swept(ar, k));
    FlushParts(ar, k);
    hide Flush, SweepAll, ProbeTimer, Move, AckWires, AcksOut, DataOut, ProbeWires, IsProbe, AskNow;
  }

  lemma FlushParts(ar: Arith, k: Kcb)
    requires k.ctl.updated
    ensures var c, t, f := ProbeTimer(k.ctl), StampOf(k), Flush(ar, k);
            && f.wires == AckWires(t, k.rcv.acks) + ProbeWires(t, c, LastAck(k.rcv.acks)) + SweepAll(t, c, Swept(ar, k)).wires
            && f.k.rcv == k.rcv.(acks := []) && !f.k.ctl.askSend && !f.k.ctl.askTell
  {
    hide SweepAll, ProbeTimer, Move, AckWires, ProbeWires, LastAck, Wrap;
  }

  lemma ProbesOut(k: Kcb, t: Stamp)
    ensures var probes, c := ProbeWires(t, ProbeTimer(k.ctl), LastAck(k.rcv.acks)), k.ctl;
            && |probes| == (if c.askSend || AskNow(c) then 1 else 0) + (if c.askTell then 1 else 0)
            && (c.askSend || AskNow(c) ==> IsProbe(t, CMD_WASK, probes[0]))
            && (c.askTell ==> IsProbe(t, CMD_WINS, probes[|probes| - 1]))
  {
    hide Wrap, Itimediff, LastAck;
  }

  /** The timer of the questions: first after 7 seconds, then ever later, but never more than two minutes apart. */
  lemma QuestionsAreTimed(ar: Arith, k: Kcb)
    requires k.ctl.updated
    ensures var c, c' := k.ctl, Flush(ar, k).k.ctl;
            && (c.rmtWnd != 0 ==> c'.probeWait == 0 && c'.tsProbe == 0)
            && (c.rmtWnd == 0 && c.probeWait == 0 ==>
                  c'.probeWait == 7000 && c'.tsProbe == (c.current + 7000) % 0x1_0000_0000)
            && (AskNow(c) ==>
                  && c'.probeWait == Min((if c.probeWait < 7000 then 7000 else c.probeWait) * 3 / 2 % 0x1_0000_0000, 120000)
                  && c'.tsProbe == (c.current + c'.probeWait) % 0x1_0000_0000)
            && (c.rmtWnd == 0 && c.probeWait != 0 && !AskNow(c) ==> c'.probeWait == c.probeWait && c'.tsProbe == c.tsProbe)
  {
    FlushKeepsProbe(ar, k);
    ThreeHalves(if k.ctl.probeWait < 7000 then 7000 else k.ctl.probeWait);
    hide Itimediff, Flush;
  }

  lemma ThreeHalves(w: nat)
    ensures w + w / 2 == w * 3 / 2
  {
  }

  lemma FlushKeepsProbe(ar: Arith, k: Kcb)
    requires k.ctl.updated
    ensures var c', d := Flush(ar, k).k.ctl, ProbeTimer(k.ctl); c'.probeWait == d.probeWait && c'.tsProbe == d.tsProbe
  {
    var c := ProbeTimer(k.ctl);
    var s := Move(ar, k.snd, c);
    var w := SweepAll(StampOf(k), c, s.buf);
    var c1 := ClearProbes(c).(xmit := Wrap(c.xmit + w.resends), dead := c.dead || w.dead);
    ShrinkKeepsProbe(c1, ar.Sub(s.nxt, s.una), SendWindow(c), w.fast, w.resends > 0);
    hide SweepAll, Move, ProbeTimer, Shrink, AckWires, ProbeWires, Wrap, SendWindow;
  }

  lemma ShrinkKeepsProbe(c: Control, inflight: u32, window: u32, fast: bool, lost: bool)
    ensures var d := Shrink(c, inflight, window, fast, lost); d.probeWait == c.probeWait && d.tsProbe == c.tsProbe
  {
    hide Wrap;
  }

  // ----- how the block answers

  function CountTimedOut(c: Control, buf: seq<SndSeg>): (n: nat)
    ensures n <= |buf|
  {
    if buf == [] then 0 else CountTimedOut(c, buf[..|buf| - 1]) + if TimedOut(c, buf[|buf| - 1]) then 1 else 0
  }

  ghost predicate AnyHurried(c: Control, buf: seq<SndSeg>) {
    exists s | s in buf :: Hurried(c, s)
  }

  /** A segment is put out for the `deadLink`th time or later. */
  ghost predicate AnyHopeless(c: Control, buf: seq<SndSeg>) {
    exists s | s in buf :: SendsNow(c, s) && (s.xmit + 1) % 0x1_0000_0000 >= c.deadLink
  }

  lemma {:induction false} SweepCounts(t: Stamp, c: Control, buf: seq<SndSeg>)
    requires c.fastresend < M31
    ensures var w := SweepAll(t, c, buf);
            && w.resends == CountTimedOut(c, buf) && w.fast == AnyHurried(c, buf) && w.dead == AnyHopeless(c, buf)
  {
    if buf != [] {
      var front, s := buf[..|buf| - 1], buf[|buf| - 1];
      SweepCounts(t, c, front);
      TryHandles(c, s);
      TriedOften(c, s);
      hide TrySend, TimedOut, Hurried, SendsNow, Handled, DataWire;
      assert forall u :: u in buf <==> u in front || u == s;
    }
  }

  lemma TriedOften(c: Control, s: SndSeg)
    requires c.fastresend < M31
    ensures SendsNow(c, s) ==> TrySend(c, s).seg.xmit == (s.xmit + 1) % 0x1_0000_0000
  {
    hide Itimediff, TruncHalf, Signed;
  }

  /** What the windows come to after a flush. */
  ghost predicate Answers(c: Control, c': Control, inflight: u32, lost: bool, hurried: bool) {
    if lost then
      c'.ssthresh == Max(LimitOf(c) / 2, 2) && c'.cwnd == 1 && c'.incr == Mss(c)
    else if hurried then
      var cwnd := (Max(inflight / 2, 2) + PassesNeeded(c)) % 0x1_0000_0000;
      && c'.ssthresh == Max(inflight / 2, 2)
      && c'.cwnd == Max(cwnd, 1) && c'.incr == if cwnd == 0 then Mss(c) else cwnd * Mss(c) % 0x1_0000_0000
    else
      c'.ssthresh == c.ssthresh && c'.cwnd == Max(c.cwnd, 1) && c'.incr == if c.cwnd == 0 then Mss(c) else c.incr
  }

  lemma AfterFastIs(c: Control, inflight: u32)
    requires c.fastresend < M31
    ensures var d, cwnd := AfterFast(c, inflight), Wrap(Max(inflight / 2, 2) + PassesNeeded(c));
            d.ssthresh == Max(inflight / 2, 2) && d.cwnd == cwnd && d.incr == Wrap(cwnd * Mss(c)) && Mss(d) == Mss(c)
  {
    ResentIs(c);
    hide Resent, PassesNeeded, Wrap;
  }

  lemma ResentIs(c: Control)
    requires c.fastresend < M31
    ensures Resent(c) == PassesNeeded(c)
  {
  }

  lemma AfterLossIs(c: Control, window: u32)
    ensures var d := AfterLoss(c, window);
            d.ssthresh == Max(window / 2, 2) && d.cwnd == 1 && d.incr == Mss(c) && Mss(d) == Mss(c)
  {
  }

  lemma AtLeastOneIs(c: Control)
    ensures var d := AtLeastOne(c);
            d.ssthresh == c.ssthresh && d.cwnd == Max(c.cwnd, 1) && d.incr == if c.cwnd == 0 then Mss(c) else c.incr
  {
  }

  lemma ShrinkAnswers(c: Control, inflight: u32, fast: bool, lost: bool)
    requires c.fastresend < M31
    ensures Answers(c, Shrink(c, inflight, LimitOf(c), fast, lost), inflight, lost, fast)
  {
    var c1 := if fast then AfterFast(c, inflight) else c;
    AfterFastIs(c, inflight);
    AfterLossIs(c1, LimitOf(c));
    AtLeastOneIs(if lost then AfterLoss(c1, LimitOf(c)) else c1);
    hide LimitOf, AfterFast, AfterLoss, AtLeastOne, Mss;
  }

  lemma SendWindowIs(c: Control)
    ensures SendWindow(c) == LimitOf(c)
  {
  }

  /**
   A flush counts its timeouts, gives the link up if a segment is put out once too often, and
   answers a timeout with a window of one segment, an early resend with half the segments in
   flight, and anything else not at all.
   */
  lemma FlushAnswers(ar: Arith, k: Kcb)
    requires k.ctl.updated && k.ctl.fastresend < M31
    ensures var buf, c, c', s' := Swept(ar, k), k.ctl, Flush(ar, k).k.ctl, Flush(ar, k).k.snd;
            && c'.xmit == (c.xmit + CountTimedOut(c, buf)) % 0x1_0000_0000
            && c'.dead == (c.dead || AnyHopeless(c, buf))
            && Answers(c, c', Wrap(s'.nxt - s'.una), CountTimedOut(c, buf) > 0, AnyHurried(c, buf))
  {
    hide *;
    var c := ProbeTimer(k.ctl);
    var s := Move(ar, k.snd, c);
    var w := SweepAll(StampOf(k), c, s.buf);
    var inflight := Wrap(s.nxt - s.una);
    var c1 := Marked(c, w);
    var c' := Shrink(c1, inflight, LimitOf(c1), w.fast, w.resends > 0);
    ProbeTimerKeepsClockwork(k.ctl);
    ProbeTimerKeepsWindows(k.ctl);
    SameCounts(k.ctl, c, s.buf);
    SameResend(k.ctl, c);
    SweepCounts(StampOf(k), c, s.buf);
    FlushControlIs(ar, k);
    SendWindowIs(c);
    MarkedIs(c, w);
    SameResend(c, c1);
    ShrinkAnswers(c1, inflight, w.fast, w.resends > 0);
    ShrinkKeepsLink(c1, inflight, LimitOf(c1), w.fast, w.resends > 0);
    SameAnswers(k.ctl, c1, c', inflight, w.resends > 0, w.fast);
    SweptIs(ar, k);
    AddedUp(k.ctl, c, w.resends);
  }

  /** The block as a flush hands it to the window reductions. */
  function Marked(c: Control, w: Sweep): Control {
    ClearProbes(c).(xmit := Wrap(c.xmit + w.resends), dead := c.dead || w.dead)
  }

  lemma MarkedIs(c: Control, w: Sweep)
    ensures Windows(Marked(c, w)) == Windows(c) && LimitOf(Marked(c, w)) == LimitOf(c)
    ensures Marked(c, w).xmit == Wrap(c.xmit + w.resends) && Marked(c, w).dead == (c.dead || w.dead)
  {
    hide Wrap;
  }

  lemma SameResend(c: Control, d: Control)
    ensures Clockwork(c) == Clockwork(d) ==> c.fastresend == d.fastresend && c.dead == d.dead && c.xmit == d.xmit
    ensures Windows(c) == Windows(d) ==> c.fastresend == d.fastresend
  {
  }

  lemma SweptIs(ar: Arith, k: Kcb)
    ensures Swept(ar, k) == Move(ar, k.snd, ProbeTimer(k.ctl)).buf
  {
  }

  lemma AddedUp(c: Control, d: Control, n: nat)
    requires c.xmit == d.xmit
    ensures Wrap(d.xmit + n) == (c.xmit + n) % 0x1_0000_0000
  {
  }

  lemma FlushControlIs(ar: Arith, k: Kcb)
    requires k.ctl.updated
    ensures var c := ProbeTimer(k.ctl);
            var s := Move(ar, k.snd, c);
            var w, f := SweepAll(StampOf(k), c, s.buf), Flush(ar, k).k;
            && f.ctl == Shrink(Marked(c, w), Wrap(s.nxt - s.una), SendWindow(c), w.fast, w.resends > 0)
            && f.snd.nxt == s.nxt && f.snd.una == s.una
  {
    hide SweepAll, Move, ProbeTimer, Shrink, AckWires, ProbeWires, Wrap, SendWindow;
  }

  lemma ShrinkKeepsLink(c: Control, inflight: u32, window: u32, fast: bool, lost: bool)
    ensures var d := Shrink(c, inflight, window, fast, lost); d.xmit == c.xmit && d.dead == c.dead
  {
    hide Wrap;
  }

  lemma {:induction false} SameCounts(c: Control, d: Control, buf: seq<SndSeg>)
    requires Clockwork(c) == Clockwork(d)
    ensures CountTimedOut(c, buf) == CountTimedOut(d, buf)
    ensures AnyHurried(c, buf) == AnyHurried(d, buf) && AnyHopeless(c, buf) == AnyHopeless(d, buf)
  {
    if buf != [] {
      SameCounts(c, d, buf[..|buf| - 1]);
    }
    forall s: SndSeg
      ensures SendsNow(c, s) == SendsNow(d, s) && TimedOut(c, s) == TimedOut(d, s) && Hurried(c, s) == Hurried(d, s)
    {
      SameClockwork(c, d, s, s);
    }
    hide SendsNow, TimedOut, Hurried;
  }

  function Windows(c: Control): (u32, u32, u32, u16, u32, bool, int, Mtu) {
    (c.cwnd, c.incr, c.ssthresh, c.rmtWnd, c.sndWnd, c.nocwnd, c.fastresend, c.mtu)
  }

  lemma ProbeTimerKeepsWindows(c: Control)
    ensures Windows(ProbeTimer(c)) == Windows(c)
  {
    hide Wrap, Itimediff;
  }

  lemma SameAnswers(c: Control, d: Control, c': Control, inflight: u32, lost: bool, hurried: bool)
    requires Windows(c) == Windows(d)
    ensures Answers(c, c', inflight, lost, hurried) <==> Answers(d, c', inflight, lost, hurried)
  {
  }

  // ----- backing off

  /** The segment after `n` timeouts, each answered by a flush at the very time it was due. */
  ghost predicate AfterTimeouts(c: Control, s: SndSeg, n: nat, t: SndSeg)
    decreases n
  {
    if n == 0 then t == s
    else exists u: SndSeg :: AfterTimeouts(c, s, n - 1, u) && Handled(c.(current := u.resendts), u, t)
  }

  /** The `n`th wait: each is twice the one before. */
  function Wait(rto: nat, n: nat): nat {
    if n == 0 then rto else 2 * Wait(rto, n - 1)
  }

  /** The first `n` waits together. */
  function Waits(rto: nat, n: nat): nat {
    if n == 0 then 0 else Waits(rto, n - 1) + Wait(rto, n)
  }

  lemma TimedOutAt(c: Control, u: SndSeg)
    requires u.xmit != 0
    ensures TimedOut(c.(current := u.resendts), u)
  {
  }

  /** Without `nodelay` each timeout doubles the wait for the next. */
  lemma {:induction false} WaitsDouble(c: Control, s: SndSeg, n: nat, t: SndSeg)
    requires c.nodelay == 0 && s.xmit == 1 && s.rto == c.rxRto && n < 0xffff_ffff
    requires AfterTimeouts(c, s, n, t) && Wait(c.rxRto, n) < M32
    ensures t.rto == Wait(c.rxRto, n) && t.xmit == 1 + n
    ensures t.resendts == Wrap(s.resendts + Waits(c.rxRto, n))
    decreases n
  {
    hide *;
    if n == 0 {
      NoTimeouts(c, s, t);
    } else {
      var u := LastTimeout(c, s, n, t);
      WaitStep(c.rxRto, n);
      WaitAtLeast(c.rxRto, n - 1);
      WaitsDouble(c, s, n - 1, u);
      TimedOutAt(c, u);
      HandledTimeout(c.(current := u.resendts), u, t);
      Later(s.resendts, Waits(c.rxRto, n - 1), Wait(c.rxRto, n));
    }
  }

  lemma NoTimeouts(c: Control, s: SndSeg, t: SndSeg)
    requires AfterTimeouts(c, s, 0, t)
    ensures t == s && Wait(c.rxRto, 0) == c.rxRto && s.resendts == Wrap(s.resendts + Waits(c.rxRto, 0))
  {
    assert s.resendts == Wrap(s.resendts);
  }

  lemma LastTimeout(c: Control, s: SndSeg, n: nat, t: SndSeg) returns (u: SndSeg)
    requires n > 0 && AfterTimeouts(c, s, n, t)
    ensures AfterTimeouts(c, s, n - 1, u) && Handled(c.(current := u.resendts), u, t)
  {
    u :| AfterTimeouts(c, s, n - 1, u) && Handled(c.(current := u.resendts), u, t);
    hide Handled;
  }

  lemma WaitStep(rto: nat, n: nat)
    requires n > 0
    ensures Wait(rto, n) == 2 * Wait(rto, n - 1) && Waits(rto, n) == Waits(rto, n - 1) + Wait(rto, n)
  {
  }

  lemma {:induction false} WaitAtLeast(rto: nat, n: nat)
    ensures Wait(rto, n) >= rto
  {
    if n > 0 {
      WaitAtLeast(rto, n - 1);
    }
  }

  lemma Later(a: int, x: int, y: int)
    ensures Wrap(Wrap(a + x) + y) == Wrap(a + (x + y))
  {
    var q, r := (a + x) / M32, Wrap(a + x);
    assert a + (x + y) == (r + y) + M32 * q;
    ModPeriodic(r + y, q);
  }

  lemma HandledTimeout(c: Control, u: SndSeg, t: SndSeg)
    requires Handled(c, u, t) && TimedOut(c, u) && c.nodelay == 0 && u.rto >= c.rxRto && 2 * u.rto < M32 && u.xmit < 0xffff_ffff
    ensures t.rto == 2 * u.rto && t.xmit == u.xmit + 1 && t.resendts == Wrap(c.current + t.rto)
  {
    hide Itimediff;
  }
}
