/**
 The estimate of the round-trip time: what it makes of a sample, which acknowledgements
 give one, and that the samples are true: the time an acknowledgement carries is that at
 which its segment was put out.
 */
module KcpRoundTripTime {
  import opened Arithmetic32
  import opened KcpWire
  import opened KcpState
  import opened KcpWindows
  import opened KcpNetwork
  import opened KcpSafety
  import opened KcpDelivery
  import opened KcpProgress
  import opened KcpRoundTrips
  import opened KcpCongestionRuns
  import opened KcpRetransmission

  // ----- one sample

  function Distance(a: int, b: int): nat {
    if a < b then b - a else a - b
  }

  /** `q` is `n` divided by `d`, rounded down. */
  predicate Floor(q: int, n: int, d: int) {
    q * d <= n < (q + 1) * d
  }

  /**
   The first sample is taken as it is, with half of it as its deviation. After that a sample
   counts an eighth, its distance a quarter; the timeout is the smoothed time and four
   deviations, or the interval if that is more, within its bounds.
   */
  lemma SampleCounts(c: Control, rtt: nat)
    requires c.rxMinrto <= 60000
    ensures var d := UpdateAck(c, rtt);
            && (c.rxSrtt == 0 ==> d.rxSrtt == rtt && Floor(d.rxRttval, rtt, 2))
            && (c.rxSrtt != 0 ==>
                  && (Floor(d.rxSrtt, 7 * c.rxSrtt + rtt, 8) || (d.rxSrtt == 1 && 7 * c.rxSrtt + rtt < 8))
                  && Floor(d.rxRttval, 3 * c.rxRttval + Distance(rtt, c.rxSrtt), 4))
            && (var wait := d.rxSrtt + Max(c.interval, 4 * d.rxRttval);
                wait < M32 ==>
                  d.rxRto == if wait < c.rxMinrto then c.rxMinrto else if wait > 60000 then 60000 else wait)
  {
    hide *;
    UpdatedIs(c, rtt);
    SmoothedIs(c, rtt);
    DeviationIs(c, rtt);
    TimeoutIs(c, NextSrtt(c, rtt), NextRttval(c, rtt));
  }

  lemma UpdatedIs(c: Control, rtt: nat)
    ensures var d := UpdateAck(c, rtt);
            && d.rxSrtt == NextSrtt(c, rtt) && d.rxRttval == NextRttval(c, rtt)
            && d.rxRto == NextRto(c, NextSrtt(c, rtt), NextRttval(c, rtt))
  {
    hide NextSrtt, NextRttval, NextRto;
  }

  lemma TimeoutIs(c: Control, srtt: nat, rttval: nat)
    requires c.rxMinrto <= 60000
    ensures var wait := srtt + Max(c.interval, 4 * rttval);
            wait < M32 ==>
              NextRto(c, srtt, rttval) == if wait < c.rxMinrto then c.rxMinrto else if wait > 60000 then 60000 else wait
  {
  }

  lemma SmoothedIs(c: Control, rtt: nat)
    ensures var srtt := NextSrtt(c, rtt);
            if c.rxSrtt == 0 then srtt == rtt
            else Floor(srtt, 7 * c.rxSrtt + rtt, 8) || (srtt == 1 && 7 * c.rxSrtt + rtt < 8)
  {
  }

  lemma DeviationIs(c: Control, rtt: nat)
    ensures var dev := NextRttval(c, rtt);
            if c.rxSrtt == 0 then Floor(dev, rtt, 2) else Floor(dev, 3 * c.rxRttval + Distance(rtt, c.rxSrtt), 4)
  {
  }

  /** A sample brings the smoothed time closer, never past it. */
  lemma SampleBringsCloser(c: Control, rtt: nat)
    requires c.rxSrtt > 0 && rtt > 0
    ensures var srtt := UpdateAck(c, rtt).rxSrtt;
            && Min(c.rxSrtt, rtt) <= srtt <= Max(c.rxSrtt, rtt)
            && (Distance(c.rxSrtt, rtt) >= 8 ==> Distance(srtt, rtt) < Distance(c.rxSrtt, rtt))
  {
    hide NextRto;
  }

  /** The estimate, as it stands. */
  function Estimate(c: Control): (nat, nat, u32) {
    (c.rxSrtt, c.rxRttval, c.rxRto)
  }

  /** Only an acknowledgement gives a sample, and only if its time is not ahead of the clock. */
  lemma OnlyAcksGiveSamples(ar: Arith, p: Parse, w: Wire)
    ensures var c, c' := p.k.ctl, InputSeg(ar, p, w).k.ctl;
            var rtt := Itimediff(c.current, w.ts);
            Estimate(c') == if w.cmd == CMD_ACK && rtt >= 0 then Estimate(UpdateAck(c, rtt)) else Estimate(c)
  {
    hide ParseUna, ParseAck, Push, Mark, Wrap, Itimediff;
  }

  // ----- samples are true

  /** A data segment of this number was put out, marked with this time. */
  ghost predicate Stamped(out: seq<seq<Wire>>, sn: int, ts: u32) {
    exists i, w | 0 <= i < |out| && w in out[i] :: w.cmd == CMD_PUSH && w.sn == sn && w.ts == ts
  }

  ghost predicate AcksEcho(out: seq<seq<Wire>>, acks: seq<AckItem>) {
    forall a | a in acks :: Stamped(out, a.sn, a.ts)
  }

  ghost predicate WiresEcho(out: seq<seq<Wire>>, ws: seq<Wire>) {
    forall w | w in ws && w.cmd == CMD_ACK :: Stamped(out, w.sn, w.ts)
  }

  /** Whatever `y` acknowledges, or is about to, `x` has put out with that number and time. */
  ghost predicate EchoOk(x: Node, y: Node) {
    && AcksEcho(x.out, y.k.rcv.acks)
    && forall i | 0 <= i < |y.out| :: WiresEcho(x.out, y.out[i])
  }

  lemma StampStays(out: seq<seq<Wire>>, out': seq<seq<Wire>>, sn: int, ts: u32)
    requires out <= out' && Stamped(out, sn, ts)
    ensures Stamped(out', sn, ts)
  {
    var i, w :| 0 <= i < |out| && w in out[i] && w.cmd == CMD_PUSH && w.sn == sn && w.ts == ts;
    assert w in out'[i];
  }

  lemma EchoStays(x: Node, x': Node, y: Node)
    requires x.out <= x'.out && EchoOk(x, y)
    ensures EchoOk(x', y)
  {
    hide Stamped;
    forall a | a in y.k.rcv.acks
      ensures Stamped(x'.out, a.sn, a.ts)
    {
      StampStays(x.out, x'.out, a.sn, a.ts);
    }
    forall i | 0 <= i < |y.out|
      ensures WiresEcho(x'.out, y.out[i])
    {
      assert WiresEcho(x.out, y.out[i]);
      forall w | w in y.out[i] && w.cmd == CMD_ACK
        ensures Stamped(x'.out, w.sn, w.ts)
      {
        StampStays(x.out, x'.out, w.sn, w.ts);
      }
    }
  }

  lemma PushEchoes(out: seq<seq<Wire>>, r: Receiver, rcvWnd: int, w: Wire)
    requires AcksEcho(out, r.acks) && Stamped(out, w.sn, w.ts)
    ensures AcksEcho(out, Push(Exact, r, rcvWnd, w).acks)
  {
    TakenIsAcked(r, rcvWnd, w);
    hide Push, Stamped;
  }

  lemma {:induction false} InputSegsEcho(out: seq<seq<Wire>>, p: Parse, ws: seq<Wire>)
    requires AcksEcho(out, p.k.rcv.acks)
    requires forall w | w in ws && w.cmd == CMD_PUSH :: Stamped(out, w.sn, w.ts)
    ensures AcksEcho(out, InputSegs(Exact, p, ws).k.rcv.acks)
    decreases |ws|
  {
    if ws != [] {
      InputSegParts(Exact, p, ws[0]);
      assert ws[0] in ws;
      if ws[0].cmd == CMD_PUSH {
        PushEchoes(out, p.k.rcv, p.k.ctl.rcvWnd, ws[0]);
      }
      hide InputSeg, AcksEcho, Stamped, Push;
      InputSegsEcho(out, InputSeg(Exact, p, ws[0]), ws[1..]);
    }
  }

  lemma DeliverEchoes(x: Node, y: Node, i: nat)
    requires EchoOk(x, y) && i < |x.out|
    ensures EchoOk(x, ActExact(y, x.out, Deliver(i)))
  {
    var d := x.out[i];
    forall w | w in d && w.cmd == CMD_PUSH
      ensures Stamped(x.out, w.sn, w.ts)
    {
      assert w in x.out[i];
    }
    InputSegsEcho(x.out, Parse(y.k, NoAck), d);
    hide InputSegs, Grow, ParseFastack, AcksEcho, Stamped;
  }

  /** The acknowledgements a flush puts out are those that waited. */
  lemma AcksPutOut(k: Kcb, w: Wire)
    requires k.ctl.updated && w in Flush(Exact, k).wires && w.cmd == CMD_ACK
    ensures AckItem(w.sn, w.ts) in k.rcv.acks
  {
    var c, t := ProbeTimer(k.ctl), StampOf(k);
    FlushParts(Exact, k);
    SweepIsData(t, c, Swept(Exact, k));
    NoAckProbes(t, c, LastAck(k.rcv.acks));
    hide Flush, SweepAll, ProbeWires, ProbeTimer, Swept, StampOf, LastAck;
    var acks := AckWires(t, k.rcv.acks);
    var i :| 0 <= i < |acks| && acks[i] == w;
    assert w == AckWire(t, k.rcv.acks[i]);
  }

  lemma NoAckProbes(t: Stamp, c: Control, a: AckItem)
    ensures forall w | w in ProbeWires(t, c, a) :: w.cmd != CMD_ACK
  {
  }

  lemma FlushEchoes(out: seq<seq<Wire>>, k: Kcb)
    requires AcksEcho(out, k.rcv.acks)
    ensures WiresEcho(out, Flush(Exact, k).wires) && AcksEcho(out, Flush(Exact, k).k.rcv.acks)
  {
    hide Stamped;
    if k.ctl.updated {
      FlushParts(Exact, k);
      hide Flush;
      forall w | w in Flush(Exact, k).wires && w.cmd == CMD_ACK
        ensures Stamped(out, w.sn, w.ts)
      {
        AcksPutOut(k, w);
      }
    }
  }

  lemma FlushActEchoes(x: Node, y: Node, c: Control)
    requires PairOk(Pair(y, x)) && EchoOk(x, y) && Config(c) == Config(y.k.ctl)
    ensures EchoOk(x, EmitExact(y, Flush(Exact, y.k.(ctl := c))))
  {
    var f := Flush(Exact, y.k.(ctl := c));
    FlushEchoes(x.out, y.k.(ctl := c));
    FlushFits(y, x, c);
    hide Flush, PairOk, Stamped;
    var y' := EmitExact(y, f);
    forall i | 0 <= i < |y'.out|
      ensures WiresEcho(x.out, y'.out[i])
    {
      forall w | w in y'.out[i] && w.cmd == CMD_ACK
        ensures Stamped(x.out, w.sn, w.ts)
      {
        EmitsOnly(y, f, i, w);
        if i < |y.out| {
          assert WiresEcho(x.out, y.out[i]);
        }
      }
    }
  }

  lemma QuietEchoes(x: Node, y: Node, y': Node)
    requires EchoOk(x, y) && y'.out == y.out && y'.k.rcv.acks == y.k.rcv.acks
    ensures EchoOk(x, y')
  {
    hide Stamped;
  }

  lemma ActEchoes(x: Node, y: Node, op: Op)
    requires PairOk(Pair(y, x)) && EchoOk(x, y)
    ensures EchoOk(x, ActExact(y, x.out, op))
  {
    hide PairOk, EchoOk, Flush, Tick, Send, Recv, InputWires;
    match op
    case DoSend(data) =>
      SendKeepsAcks(y.k, data);
      QuietEchoes(x, y, ActExact(y, x.out, op));
    case DoRecv(len) =>
      RecvKeepsAcks(y.k, len);
      QuietEchoes(x, y, ActExact(y, x.out, op));
    case DoUpdate(now) =>
      var (c, due) := Tick(y.k.ctl, now);
      if due {
        FlushActEchoes(x, y, c);
      } else {
        assert Pack(y.k.ctl.mtu, []) == [];
        QuietEchoes(x, y, ActExact(y, x.out, op));
      }
    case DoFlush =>
      assert y.k.(ctl := y.k.ctl) == y.k;
      FlushActEchoes(x, y, y.k.ctl);
    case Deliver(i) =>
      if i < |x.out| {
        DeliverEchoes(x, y, i);
      }
  }

  lemma SendKeepsAcks(k: Kcb, data: seq<byte>)
    ensures Send(k, data).0.rcv == k.rcv
  {
    hide Fragments, FragmentCount, Extension;
  }

  ghost predicate PairEchoes(p: Pair) {
    EchoOk(p.a, p.b) && EchoOk(p.b, p.a)
  }

  lemma StepEchoes(p: Pair, x: Action)
    requires PairOk(p) && PairEchoes(p)
    ensures PairEchoes(PairStep(p, x))
  {
    PairSwapped(p);
    StepGrows(p, x);
    hide PairOk, EchoOk, ActExact, Steady;
    match x
    case AtA(op) =>
      ActEchoes(p.b, p.a, op);
      EchoStays(p.a, ActExact(p.a, p.b.out, op), p.b);
    case AtB(op) =>
      ActEchoes(p.a, p.b, op);
      EchoStays(p.b, ActExact(p.b, p.a.out, op), p.a);
  }

  lemma {:induction false} RunEchoes(p: Pair, xs: seq<Action>)
    requires PairOk(p) && PairEchoes(p)
    ensures PairEchoes(PairRun(p, xs))
    decreases |xs|
  {
    hide PairOk, PairEchoes, PairStep;
    if xs != [] {
      RunEchoes(p, xs[..|xs| - 1]);
      RunKeeps(p, xs[..|xs| - 1]);
      StepEchoes(PairRun(p, xs[..|xs| - 1]), xs[|xs| - 1]);
    }
  }

  /**
   In every run each acknowledgement put out names the number and the time of a data segment
   the other side had put out, so that what is measured when it arrives is the time since then.
   */
  lemma SamplesAreTrue(w: World, xs: seq<Action>, i: nat, v: Wire)
    requires FreshWorld(w)
    requires var q := PairRun(TwinWorld(w), xs); i < |q.b.out| && v in q.b.out[i] && v.cmd == CMD_ACK
    ensures Stamped(PairRun(TwinWorld(w), xs).a.out, v.sn, v.ts)
  {
    StartOk(w);
    hide PairOk, PairRun, Stamped;
    assert PairEchoes(TwinWorld(w));
    RunEchoes(TwinWorld(w), xs);
    assert WiresEcho(PairRun(TwinWorld(w), xs).a.out, PairRun(TwinWorld(w), xs).b.out[i]);
  }

  /** The data segments of a flush are marked with its time. */
  lemma DataIsStamped(k: Kcb, w: Wire)
    requires k.ctl.updated && w in Flush(Exact, k).wires && w.cmd == CMD_PUSH
    ensures w.ts == k.ctl.current
  {
    var c, t := ProbeTimer(k.ctl), StampOf(k);
    FlushSendsDue(Exact, k);
    ProbeTimerKeepsClockwork(k.ctl);
    hide Flush, IsDue, Swept, ProbeTimer, StampOf;
  }
}
