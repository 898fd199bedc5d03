/**
 Progress: what a flush sends, and that one round trip of datagrams that get through
 moves the send window, whatever else happens in between.
 */
module KcpProgress {
  import opened Arithmetic32
  import opened KcpWire
  import opened KcpState
  import opened KcpWindows
  import opened KcpNetwork
  import opened KcpSafety
  import opened KcpDelivery

  // ----- what a flush sends

  /** Never sent, timed out, or acknowledged past often enough. */
  predicate IsDue(c: Control, s: SndSeg) {
    || s.xmit == 0
    || Itimediff(c.current, s.resendts) >= 0
    || (s.fastack >= Resent(c) && (Signed(s.xmit) <= c.fastlimit || c.fastlimit <= 0))
  }

  lemma {:induction false} SweepSendsDue(t: Stamp, c: Control, buf: seq<SndSeg>)
    ensures forall i | 0 <= i < |buf| && IsDue(c, buf[i]) :: DataWire(t, c, buf[i]) in SweepAll(t, c, buf).wires
    ensures forall w | w in SweepAll(t, c, buf).wires ::
              exists i | 0 <= i < |buf| :: IsDue(c, buf[i]) && w == DataWire(t, c, buf[i])
  {
    if buf != [] {
      var init, last := buf[..|buf| - 1], buf[|buf| - 1];
      SweepSendsDue(t, c, init);
      assert TrySend(c, last).sent <==> IsDue(c, last);
      hide TrySend, IsDue, DataWire;
      var ws := SweepAll(t, c, buf).wires;
      forall i | 0 <= i < |buf| && IsDue(c, buf[i])
        ensures DataWire(t, c, buf[i]) in ws
      {
        if i < |buf| - 1 {
          assert init[i] == buf[i];
        }
      }
      forall w | w in ws
        ensures exists i | 0 <= i < |buf| :: IsDue(c, buf[i]) && w == DataWire(t, c, buf[i])
      {
        if w in SweepAll(t, c, init).wires {
          var i :| 0 <= i < |init| && IsDue(c, init[i]) && w == DataWire(t, c, init[i]);
          assert buf[i] == init[i];
        } else {
          assert w == DataWire(t, c, last) && buf[|buf| - 1] == last;
        }
      }
    }
  }

  /** The window a flush sweeps. */
  function Swept(ar: Arith, k: Kcb): seq<SndSeg> {
    Move(ar, k.snd, ProbeTimer(k.ctl)).buf
  }

  /** A flush puts out data for exactly the segments in flight that are due. */
  lemma FlushSendsDue(ar: Arith, k: Kcb)
    requires k.ctl.updated
    ensures var c, t, buf, ws := ProbeTimer(k.ctl), StampOf(k), Swept(ar, k), Flush(ar, k).wires;
            && (forall i | 0 <= i < |buf| && IsDue(c, buf[i]) :: DataWire(t, c, buf[i]) in ws)
            && (forall w | w in ws && w.cmd == CMD_PUSH ::
                  exists i | 0 <= i < |buf| :: IsDue(c, buf[i]) && w == DataWire(t, c, buf[i]))
  {
    var c, t, buf := ProbeTimer(k.ctl), StampOf(k), Swept(ar, k);
    SweepSendsDue(t, c, buf);
    hide IsDue, SweepAll, Move, ProbeTimer, StampOf, Shrink;
  }

  // ----- what datagrams carry

  ghost predicate Carries(d: seq<Wire>, cmd: byte, sn: int) {
    exists j | 0 <= j < |d| :: d[j].cmd == cmd && d[j].sn == sn
  }

  ghost predicate Logged(out: seq<seq<Wire>>, cmd: byte, sn: int) {
    exists i | 0 <= i < |out| :: Carries(out[i], cmd, sn)
  }

  lemma {:induction false} FlattenedFrom<T>(ss: seq<seq<T>>, w: T)
    requires w in Flatten(ss)
    ensures exists i | 0 <= i < |ss| :: w in ss[i]
  {
    if w in ss[|ss| - 1] {
      assert w in ss[|ss| - 1];
    } else {
      FlattenedFrom(ss[..|ss| - 1], w);
      var i :| 0 <= i < |ss| - 1 && w in ss[..|ss| - 1][i];
      assert ss[i] == ss[..|ss| - 1][i];
    }
  }

  /** What a flush puts out is logged. */
  lemma EmitLogs(x: Node, f: FlushResult, w: Wire)
    requires w in f.wires && forall i | 0 <= i < |f.wires| :: Size(f.wires[i]) <= x.k.ctl.mtu
    ensures Logged(EmitExact(x, f).out, w.cmd, w.sn)
  {
    PackIsGood(x.k.ctl.mtu, f.wires);
    var ds := Datagrams(x.k, f.wires);
    FlattenedFrom(ds, w);
    var i :| 0 <= i < |ds| && w in ds[i];
    var j :| 0 <= j < |ds[i]| && ds[i][j] == w;
    assert Carries(ds[i], w.cmd, w.sn);
    assert EmitExact(x, f).out[|x.out| + i] == ds[i];
  }

  lemma FlushFits(x: Node, y: Node, c: Control)
    requires PairOk(Pair(x, y)) && Config(c) == Config(x.k.ctl)
    ensures var f := Flush(Exact, x.k.(ctl := c));
            forall i | 0 <= i < |f.wires| :: Size(f.wires[i]) <= x.k.ctl.mtu
  {
    hide Flush;
    var f := Flush(Exact, x.k.(ctl := c));
    FlushIsGood(x, y, c);
    WiresFit(x, y, f, x.numbered + x.k.snd.queue[..Max(0, |x.k.snd.queue| - |f.k.snd.queue|)]);
  }

  /** The oldest segment of the window a flush sweeps is due. */
  ghost predicate HeadDue(ar: Arith, k: Kcb) {
    Swept(ar, k) != [] && IsDue(ProbeTimer(k.ctl), Swept(ar, k)[0])
  }

  lemma SweptHead(x: Node, y: Node, c: Control)
    requires PairOk(Pair(x, y)) && Swept(Exact, x.k.(ctl := c)) != []
    ensures Swept(Exact, x.k.(ctl := c))[0].sn == x.k.snd.una
  {
    MoveOk(x.k.snd, ProbeTimer(c), x.numbered, y.k.rcv);
  }

  /** A flush with the control block `c` puts out the oldest segment if it is due. */
  lemma FlushSendsHead(x: Node, y: Node, c: Control)
    requires PairOk(Pair(x, y)) && Config(c) == Config(x.k.ctl) && c.updated && HeadDue(Exact, x.k.(ctl := c))
    ensures Logged(EmitExact(x, Flush(Exact, x.k.(ctl := c))).out, CMD_PUSH, x.k.snd.una)
  {
    var k := x.k.(ctl := c);
    var t, buf := StampOf(k), Swept(Exact, k);
    hide Flush, IsDue, PairOk, ProbeTimer, StampOf, Swept;
    SweptHead(x, y, c);
    FlushSendsDue(Exact, k);
    FlushFits(x, y, c);
    EmitLogs(x, Flush(Exact, k), DataWire(t, ProbeTimer(c), buf[0]));
  }

  lemma HeadIsNumbered(x: Node, y: Node, c: Control)
    requires PairOk(Pair(x, y)) && c.updated && HeadDue(Exact, x.k.(ctl := c))
    ensures x.k.snd.una < |EmitExact(x, Flush(Exact, x.k.(ctl := c))).numbered|
  {
    hide IsDue, ProbeTimer;
    var s := Move(Exact, x.k.snd, ProbeTimer(c));
    MoveOk(x.k.snd, ProbeTimer(c), x.numbered, y.k.rcv);
    assert s.buf[0].sn < |x.numbered| + |x.k.snd.queue| - |s.queue|;
    hide SweepAll, Shrink, Move;
    assert Flush(Exact, x.k.(ctl := c)).k.snd.queue == s.queue;
  }

  // ----- a data segment is acknowledged

  ghost predicate HasAck(r: Receiver, sn: int) {
    exists i | 0 <= i < |r.acks| :: r.acks[i].sn == sn
  }

  lemma PushAcks(r: Receiver, rcvWnd: int, w: Wire)
    ensures var r' := Push(Exact, r, rcvWnd, w);
            && r.acks <= r'.acks && r.nxt <= r'.nxt
            && (w.sn < r.nxt + rcvWnd ==> HasAck(r', w.sn))
  {
    hide InsertSeg, DrainCount, FragsOf;
    var r' := Push(Exact, r, rcvWnd, w);
    if w.sn < r.nxt + rcvWnd {
      assert r'.acks[|r.acks|].sn == w.sn;
    }
  }

  lemma AckStays(r: Receiver, r': Receiver, sn: int)
    requires r.acks <= r'.acks && HasAck(r, sn)
    ensures HasAck(r', sn)
  {
    var i :| 0 <= i < |r.acks| && r.acks[i].sn == sn;
    assert r'.acks[i].sn == sn;
  }

  lemma InputSegAcks(p: Parse, w: Wire)
    ensures var q := InputSeg(Exact, p, w);
            && p.k.rcv.acks <= q.k.rcv.acks && p.k.rcv.nxt <= q.k.rcv.nxt && q.k.ctl.rcvWnd == p.k.ctl.rcvWnd
            && (w.cmd == CMD_PUSH && w.sn < p.k.rcv.nxt + p.k.ctl.rcvWnd ==> HasAck(q.k.rcv, w.sn))
  {
    InputSegParts(Exact, p, w);
    PushAcks(p.k.rcv, p.k.ctl.rcvWnd, w);
  }

  lemma {:induction false} InputSegsAck(p: Parse, ws: seq<Wire>, sn: int)
    ensures var q := InputSegs(Exact, p, ws);
            && p.k.rcv.acks <= q.k.rcv.acks && p.k.rcv.nxt <= q.k.rcv.nxt && q.k.ctl.rcvWnd == p.k.ctl.rcvWnd
            && (Carries(ws, CMD_PUSH, sn) && sn < p.k.rcv.nxt + p.k.ctl.rcvWnd ==> HasAck(q.k.rcv, sn))
    decreases |ws|
  {
    hide InputSeg;
    if ws != [] {
      var p1 := InputSeg(Exact, p, ws[0]);
      var q := InputSegs(Exact, p1, ws[1..]);
      InputSegAcks(p, ws[0]);
      InputSegsAck(p1, ws[1..], sn);
      if Carries(ws, CMD_PUSH, sn) && sn < p.k.rcv.nxt + p.k.ctl.rcvWnd {
        var j :| 0 <= j < |ws| && ws[j].cmd == CMD_PUSH && ws[j].sn == sn;
        if j == 0 {
          AckStays(p1.k.rcv, q.k.rcv, sn);
        } else {
          assert ws[1..][j - 1] == ws[j];
          assert Carries(ws[1..], CMD_PUSH, sn);
        }
      }
    }
  }

  /** A datagram with a data segment below the end of the window leaves an acknowledgement to send. */
  lemma DeliveryIsAcked(x: Node, peerOut: seq<seq<Wire>>, i: nat, sn: int)
    requires i < |peerOut| && Carries(peerOut[i], CMD_PUSH, sn) && sn < x.k.rcv.nxt + x.k.ctl.rcvWnd
    ensures HasAck(ActExact(x, peerOut, Deliver(i)).k.rcv, sn)
  {
    hide InputSegs, ParseFastack, Grow;
    InputSegsAck(Parse(x.k, NoAck), peerOut[i], sn);
  }

  /** The acknowledgement waits to be sent, or has been. */
  ghost predicate AckUnderWay(x: Node, sn: int) {
    HasAck(x.k.rcv, sn) || Logged(x.out, CMD_ACK, sn)
  }

  lemma FlushSendsAck(k: Kcb, sn: int)
    requires k.ctl.updated && HasAck(k.rcv, sn)
    ensures exists w | w in Flush(Exact, k).wires :: w.cmd == CMD_ACK && w.sn == sn
  {
    hide SweepAll, Move, ProbeTimer, Shrink, ProbeWires;
    var i :| 0 <= i < |k.rcv.acks| && k.rcv.acks[i].sn == sn;
    var w := AckWires(StampOf(k), k.rcv.acks)[i];
    assert w.cmd == CMD_ACK && w.sn == sn;
    assert w in Flush(Exact, k).wires;
  }

  lemma LogStays(out: seq<seq<Wire>>, out': seq<seq<Wire>>, cmd: byte, sn: int)
    requires out <= out' && Logged(out, cmd, sn)
    ensures Logged(out', cmd, sn)
  {
    var i :| 0 <= i < |out| && Carries(out[i], cmd, sn);
    assert Carries(out'[i], cmd, sn);
  }

  /** A flush sends every acknowledgement that waits. */
  lemma FlushLogsAck(x: Node, y: Node, c: Control, sn: int)
    requires PairOk(Pair(x, y)) && Config(c) == Config(x.k.ctl) && AckUnderWay(x, sn)
    ensures var x' := EmitExact(x, Flush(Exact, x.k.(ctl := c)));
            AckUnderWay(x', sn) && (c.updated ==> Logged(x'.out, CMD_ACK, sn))
  {
    var f := Flush(Exact, x.k.(ctl := c));
    if Logged(x.out, CMD_ACK, sn) {
      LogStays(x.out, EmitExact(x, f).out, CMD_ACK, sn);
    } else if c.updated {
      FlushFits(x, y, c);
      FlushSendsAck(x.k.(ctl := c), sn);
      hide Flush, PairOk;
      var w :| w in f.wires && w.cmd == CMD_ACK && w.sn == sn;
      EmitLogs(x, f, w);
    }
  }

  lemma AckStaysUnderWay(x: Node, y: Node, op: Op, sn: int)
    requires PairOk(Pair(x, y)) && AckUnderWay(x, sn)
    ensures AckUnderWay(ActExact(x, y.out, op), sn)
  {
    hide PairOk, Flush, InputSegs, ParseFastack, Grow, Tick, Carries, Extend, Fragments, Drain;
    match op
    case DoSend(data) =>
    case DoRecv(len) =>
      RecvKeepsAcks(x.k, len);
    case DoUpdate(now) =>
      var (c, due) := Tick(x.k.ctl, now);
      if due {
        FlushLogsAck(x, y, c, sn);
      } else {
        var x' := ActExact(x, y.out, op);
        assert Pack(x.k.ctl.mtu, []) == [];
        assert x'.out == x.out && x'.k.rcv == x.k.rcv;
      }
    case DoFlush =>
      FlushLogsAck(x, y, x.k.ctl, sn);
    case Deliver(i) =>
      if i < |y.out| {
        InputSegsAck(Parse(x.k, NoAck), y.out[i], sn);
        if HasAck(x.k.rcv, sn) {
          AckStays(x.k.rcv, ActExact(x, y.out, op).k.rcv, sn);
        }
      }
  }

  lemma RecvKeepsAcks(k: Kcb, len: int)
    ensures Recv(Exact, k, len).k.rcv.acks == k.rcv.acks && Recv(Exact, k, len).k.rcv.nxt >= k.rcv.nxt
    ensures Recv(Exact, k, len).k.snd == k.snd && Recv(Exact, k, len).k.ctl.updated == k.ctl.updated
  {
    hide PeekSize, MessageLength, Bytes, FragsOf;
  }

  // ----- an acknowledgement clears the segment

  lemma AckTaken(s: Sender, numbered: seq<Frag>, w: Wire)
    requires SenderOk(s, numbered) && w.una <= s.nxt
    ensures var s' := TakeAcks(Exact, s, w);
            && s'.nxt == s.nxt
            && (forall n :: InBuf(s'.buf, n) ==> InBuf(s.buf, n))
            && (w.cmd == CMD_ACK ==> !InBuf(s'.buf, w.sn))
  {
    SenderTakesUna(s, numbered, w.una);
    var s1 := ShrinkBuf(s.(buf := ParseUna(Exact, s.buf, w.una)));
    if w.cmd == CMD_ACK {
      SenderTakesAck(s1, numbered, w.sn);
    }
  }

  lemma {:induction false} InputSegsTake(k: Kcb, p: Parse, ws: seq<Wire>, numbered: seq<Frag>, y: Node, sn: int)
    requires y.k.rcv.nxt <= |numbered| && InputKeeps(k, p, numbered, y)
    requires forall i | 0 <= i < |ws| :: PushOk(ws[i], y.numbered) && AckOk(ws[i], y.k.rcv)
    ensures var q := InputSegs(Exact, p, ws);
            && (InBuf(q.k.snd.buf, sn) ==> InBuf(p.k.snd.buf, sn))
            && (Carries(ws, CMD_ACK, sn) ==> !InBuf(q.k.snd.buf, sn))
    decreases |ws|
  {
    if ws != [] {
      var p1 := InputSeg(Exact, p, ws[0]);
      var q := InputSegs(Exact, p1, ws[1..]);
      InputSegKeeps(k, p, ws[0], numbered, y);
      InputSegParts(Exact, p, ws[0]);
      AckTaken(p.k.snd, numbered, ws[0]);
      hide InputSeg, InputKeeps, PushOk, AckOk, InBuf, TakeAcks, SenderOk;
      InputSegsTake(k, p1, ws[1..], numbered, y, sn);
      CarriedLater(ws, CMD_ACK, sn);
    }
  }

  lemma CarriedLater(ws: seq<Wire>, cmd: byte, sn: int)
    requires ws != []
    ensures Carries(ws, cmd, sn) ==> (ws[0].cmd == cmd && ws[0].sn == sn) || Carries(ws[1..], cmd, sn)
  {
    if Carries(ws, cmd, sn) {
      var j :| 0 <= j < |ws| && ws[j].cmd == cmd && ws[j].sn == sn;
      assert j > 0 ==> ws[1..][j - 1] == ws[j];
    }
  }

  /** A delivered acknowledgement of the oldest segment, or of an older one, moves the window past it. */
  lemma DeliveryClears(x: Node, y: Node, i: nat, sn: int)
    requires PairOk(Pair(x, y)) && i < |y.out| && Carries(y.out[i], CMD_ACK, sn)
    requires sn <= x.k.snd.una && sn < |x.numbered|
    ensures ActExact(x, y.out, Deliver(i)).k.snd.una > sn
  {
    var d := y.out[i];
    assert DatagramOk(d, y);
    forall j | 0 <= j < |d|
      ensures PushOk(d[j], y.numbered) && AckOk(d[j], y.k.rcv)
    {
      assert WireOk(d[j], y);
    }
    InputWiresKeeps(x.k, d, x.numbered, y);
    var q := InputSegs(Exact, Parse(x.k, NoAck), d);
    assert x.k.rcv.queue + y.numbered[x.k.rcv.nxt..x.k.rcv.nxt] == x.k.rcv.queue;
    InputSegsTake(x.k, Parse(x.k, NoAck), d, x.numbered, y, sn);
    TailKeepsBuf(q, x.k.snd.una, sn);
    var s' := InputWires(Exact, x.k, d).snd;
    PastIt(s', x.numbered, sn);
  }

  lemma TailKeepsBuf(q: Parse, prevUna: int, sn: int)
    ensures InBuf(InputTail(Exact, prevUna, q).snd.buf, sn) <==> InBuf(q.k.snd.buf, sn)
  {
    if q.newest.MaxAck? {
      BumpFastackSameSegs(Exact, q.k.snd.buf, q.newest.sn);
      SameSegsKeep(q.k.snd.buf, BumpFastack(Exact, q.k.snd.buf, q.newest.sn), []);
    }
  }

  lemma PastIt(s: Sender, numbered: seq<Frag>, sn: int)
    requires SenderOk(s, numbered) && sn < |numbered| && sn <= s.una && !InBuf(s.buf, sn)
    ensures s.una > sn
  {
    if s.buf != [] {
      assert s.buf[0].sn == s.una;
    }
  }

  // ----- what never goes back

  ghost predicate RtoOk(c: Control) {
    c.rxMinrto <= c.rxRto <= RTO_MAX
  }

  /** What every operation keeps of the settings of time. */
  ghost predicate Steady(c: Control, c': Control) {
    (c.updated ==> c'.updated) && c'.rxMinrto == c.rxMinrto && (RtoOk(c) ==> RtoOk(c'))
  }

  lemma InputSegSteady(p: Parse, w: Wire)
    ensures Steady(p.k.ctl, InputSeg(Exact, p, w).k.ctl)
  {
    hide ParseUna, ParseAck, Push, NextSrtt, NextRttval, Wrap, Mark;
  }

  lemma {:induction false} InputSegsSteady(p: Parse, ws: seq<Wire>)
    ensures Steady(p.k.ctl, InputSegs(Exact, p, ws).k.ctl)
    decreases |ws|
  {
    hide InputSeg;
    if ws != [] {
      InputSegSteady(p, ws[0]);
      InputSegsSteady(InputSeg(Exact, p, ws[0]), ws[1..]);
    }
  }

  lemma InputSteady(k: Kcb, ws: seq<Wire>)
    ensures Steady(k.ctl, InputWires(Exact, k, ws).ctl)
  {
    InputSegsSteady(Parse(k, NoAck), ws);
    hide InputSegs, ParseFastack, AvoidanceStep, CeilDiv, Wrap;
  }

  /** The settings of time, as the steps of a flush leave them. */
  function Times(c: Control): (bool, u32, u32) {
    (c.updated, c.rxMinrto, c.rxRto)
  }

  lemma ShrinkKeepsTimes(c: Control, inflight: u32, window: u32, fast: bool, lost: bool)
    ensures Times(Shrink(c, inflight, window, fast, lost)) == Times(c)
  {
    hide Wrap;
  }

  lemma ProbeTimerKeepsTimes(c: Control)
    ensures Times(ProbeTimer(c)) == Times(c)
  {
    hide Wrap, Itimediff;
  }

  lemma FlushSteady(k: Kcb)
    ensures Steady(k.ctl, Flush(Exact, k).k.ctl)
    ensures Flush(Exact, k).k.snd.una == k.snd.una && Flush(Exact, k).k.rcv.nxt == k.rcv.nxt
  {
    if k.ctl.updated {
      var c := ProbeTimer(k.ctl);
      var s := Move(Exact, k.snd, c);
      var w := SweepAll(StampOf(k), c, s.buf);
      ProbeTimerKeepsTimes(k.ctl);
      var c1 := ClearProbes(c).(xmit := Wrap(c.xmit + w.resends), dead := c.dead || w.dead);
      ShrinkKeepsTimes(c1, Exact.Sub(s.nxt, s.una), SendWindow(c), w.fast, w.resends > 0);
    }
    hide SweepAll, MoveCount, Numbered, AckWires, ProbeWires, Wrap, Itimediff, ProbeTimer, Shrink;
  }

  lemma TickSteady(c: Control, now: u32)
    ensures Steady(c, Tick(c, now).0)
  {
    hide Wrap, Itimediff;
  }

  /** Logs and windows only grow. */
  ghost predicate Grows(x: Node, x': Node) {
    && x.out <= x'.out && x.numbered <= x'.numbered
    && x.k.rcv.nxt <= x'.k.rcv.nxt && x.k.snd.una <= x'.k.snd.una
    && Config(x'.k.ctl) == Config(x.k.ctl) && Steady(x.k.ctl, x'.k.ctl)
  }

  lemma ActGrows(x: Node, y: Node, op: Op)
    requires PairOk(Pair(x, y))
    ensures Grows(x, ActExact(x, y.out, op))
  {
    hide *;
    ActKeepsConfig(x, y.out, op);
    match op
    case DoSend(data) => SendGrows(x, y, data);
    case DoRecv(len) => RecvGrows(x, y, len);
    case DoUpdate(now) => UpdateGrows(x, y, now);
    case DoFlush => FlushGrows(x, y);
    case Deliver(i) => DeliverGrows(x, y, i);
  }

  lemma SendGrows(x: Node, y: Node, data: seq<byte>)
    ensures Grows(x, ActExact(x, y.out, DoSend(data)))
  {
    hide Fragments, FragmentCount, AfterSend;
  }

  lemma RecvGrows(x: Node, y: Node, len: int)
    ensures Grows(x, ActExact(x, y.out, DoRecv(len)))
  {
    RecvKeepsAcks(x.k, len);
    hide PeekSize, MessageLength, Bytes, FragsOf, Drain, AfterRecv;
  }

  lemma FlushGrows(x: Node, y: Node)
    ensures Grows(x, ActExact(x, y.out, DoFlush))
  {
    FlushSteady(x.k);
    hide Flush, Datagrams;
  }

  lemma UpdateGrows(x: Node, y: Node, now: u32)
    ensures Grows(x, ActExact(x, y.out, DoUpdate(now)))
  {
    TickSteady(x.k.ctl, now);
    FlushSteady(x.k.(ctl := Tick(x.k.ctl, now).0));
    hide Flush, Datagrams, Tick;
  }

  lemma DeliverGrows(x: Node, y: Node, i: nat)
    requires PairOk(Pair(x, y))
    ensures Grows(x, ActExact(x, y.out, Deliver(i)))
  {
    if i < |y.out| {
      var d := y.out[i];
      assert DatagramOk(d, y);
      forall j | 0 <= j < |d|
        ensures PushOk(d[j], y.numbered) && AckOk(d[j], y.k.rcv)
      {
        assert WireOk(d[j], y);
      }
      InputWiresKeeps(x.k, d, x.numbered, y);
      InputSteady(x.k, d);
      hide InputWires, Steady;
    }
  }

  lemma GrowsOn(x: Node, y: Node, z: Node)
    requires Grows(x, y) && Grows(y, z)
    ensures Grows(x, z)
  {
  }

  lemma StepGrows(p: Pair, x: Action)
    requires PairOk(p)
    ensures var q := PairStep(p, x); PairOk(q) && Grows(p.a, q.a) && Grows(p.b, q.b)
  {
    StepKeeps(p, x);
    PairSwapped(p);
    hide Direction, ActExact, Steady;
    match x
    case AtA(op) => ActGrows(p.a, p.b, op); GrowsItself(p.b);
    case AtB(op) => ActGrows(p.b, p.a, op); GrowsItself(p.a);
  }

  lemma PairSwapped(p: Pair)
    requires PairOk(p)
    ensures PairOk(Pair(p.a, p.b)) && PairOk(Pair(p.b, p.a))
  {
  }

  lemma GrowsItself(x: Node)
    ensures Grows(x, x)
  {
  }

  lemma {:induction false} RunGrows(p: Pair, xs: seq<Action>)
    requires PairOk(p)
    ensures var q := PairRun(p, xs); PairOk(q) && Grows(p.a, q.a) && Grows(p.b, q.b)
    decreases |xs|
  {
    hide PairOk, Grows, PairStep;
    if xs == [] {
      GrowsItself(p.a);
      GrowsItself(p.b);
    } else {
      var q := PairRun(p, xs[..|xs| - 1]);
      RunGrows(p, xs[..|xs| - 1]);
      StepGrows(q, xs[|xs| - 1]);
      GrowsOn(p.a, q.a, PairRun(p, xs).a);
      GrowsOn(p.b, q.b, PairRun(p, xs).b);
    }
  }

  lemma StepKeepsAck(p: Pair, x: Action, sn: int)
    requires PairOk(p) && AckUnderWay(p.b, sn)
    ensures AckUnderWay(PairStep(p, x).b, sn)
  {
    PairSwapped(p);
    hide PairOk, AckUnderWay, ActExact;
    match x
    case AtA(op) =>
    case AtB(op) => AckStaysUnderWay(p.b, p.a, op, sn);
  }

  lemma {:induction false} RunKeepsAck(p: Pair, xs: seq<Action>, sn: int)
    requires PairOk(p) && AckUnderWay(p.b, sn)
    ensures AckUnderWay(PairRun(p, xs).b, sn)
    decreases |xs|
  {
    hide PairOk, AckUnderWay, PairStep;
    if xs != [] {
      RunKeepsAck(p, xs[..|xs| - 1], sn);
      RunGrows(p, xs[..|xs| - 1]);
      StepKeepsAck(PairRun(p, xs[..|xs| - 1]), xs[|xs| - 1], sn);
    }
  }

  lemma {:induction false} RunInParts(p: Pair, xs: seq<Action>, ys: seq<Action>)
    ensures PairRun(p, xs + ys) == PairRun(PairRun(p, xs), ys)
    decreases |ys|
  {
    hide PairStep;
    if ys == [] {
      assert xs + ys == xs;
    } else {
      assert (xs + ys)[..|xs + ys| - 1] == xs + ys[..|ys| - 1];
      RunInParts(p, xs, ys[..|ys| - 1]);
    }
  }

  lemma ThenStep(p: Pair, xs: seq<Action>, x: Action)
    ensures PairRun(p, xs + [x]) == PairStep(PairRun(p, xs), x)
  {
    assert (xs + [x])[..|xs|] == xs;
  }

  lemma NoRun(p: Pair)
    ensures PairRun(p, []) == p
  {
  }

  lemma GrowsMeans(x: Node, x': Node)
    requires Grows(x, x')
    ensures x.out <= x'.out && |x.numbered| <= |x'.numbered|
    ensures x.k.rcv.nxt <= x'.k.rcv.nxt && x.k.snd.una <= x'.k.snd.una
    ensures x'.k.ctl.rcvWnd == x.k.ctl.rcvWnd && (x.k.ctl.updated ==> x'.k.ctl.updated)
  {
  }

  // ----- timeouts

  /** In every run the retransmission timeout stays between its minimum and a minute. */
  lemma TimeoutsStayBounded(w: World, xs: seq<Action>)
    requires FreshWorld(w) && TimelyRun(TwinWorld(w), xs)
    requires RtoOk(w.a.k.ctl) && RtoOk(w.b.k.ctl)
    ensures RtoOk(WorldRun(w, xs).a.k.ctl) && RtoOk(WorldRun(w, xs).b.k.ctl)
  {
    EveryRunOk(w, xs);
    StartOk(w);
    RunGrows(TwinWorld(w), xs);
    hide PairOk, PairRun, WorldRun, FreshWorld;
  }

  /** Round-trip times below 2^28 keep every number of the estimate inside a signed 32-bit variable. */
  lemma TimesFit(c: Control, rtt: nat, bound: nat)
    requires c.rxSrtt <= bound && c.rxRttval <= bound && rtt <= bound && 0 < bound && 8 * bound < M31
    ensures NextSrtt(c, rtt) <= bound && NextRttval(c, rtt) <= bound
    ensures 7 * c.rxSrtt + rtt < M31 && 4 * NextRttval(c, rtt) < M31
    ensures var delta := if rtt < c.rxSrtt then c.rxSrtt - rtt else rtt - c.rxSrtt; 3 * c.rxRttval + delta < M31
  {
  }
}
