/**
 The invariant of every run of the two endpoints with unbounded sequence numbers: what
 was delivered is a prefix of what was numbered, and nothing numbered is ever lost.
 */
module KcpSafety {
  import opened Arithmetic32
  import opened KcpWire
  import opened KcpState
  import opened KcpWindows
  import opened KcpNetwork

  ghost predicate FragsFit(frags: seq<Frag>, mss: int) {
    forall i | 0 <= i < |frags| :: |frags[i].data| <= mss
  }

  ghost predicate WireOk(w: Wire, n: Node) {
    && Readable(n.k.ctl.conv, w) && Size(w) <= n.k.ctl.mtu
    && PushOk(w, n.numbered) && AckOk(w, n.k.rcv)
  }

  ghost predicate DatagramOk(d: seq<Wire>, n: Node) {
    && d != [] && TotalSize(d) <= n.k.ctl.mtu
    && forall i | 0 <= i < |d| :: WireOk(d[i], n)
  }

  ghost predicate OutOk(n: Node) {
    forall i | 0 <= i < |n.out| :: DatagramOk(n.out[i], n)
  }

  /** What `delivered` says: the receive queue is its tail, the rest has been consumed. */
  ghost predicate DeliveredOk(to: Node, numbered: seq<Frag>) {
    && 0 <= to.k.rcv.nxt <= |numbered|
    && to.delivered == numbered[..to.k.rcv.nxt]
    && |to.k.rcv.queue| <= |to.delivered|
    && to.k.rcv.queue == to.delivered[|to.delivered| - |to.k.rcv.queue|..]
  }

  /** The direction in which `x` sends and `y` receives. */
  ghost predicate Direction(x: Node, y: Node) {
    && x.k.ctl.conv == y.k.ctl.conv
    && SenderOk(x.k.snd, x.numbered)
    && ReceiverOk(y.k.rcv, y.k.ctl.rcvWnd, x.numbered)
    && NoLoss(x.k.snd, y.k.rcv, x.numbered)
    && DeliveredOk(y, x.numbered)
    && FragsFit(x.numbered + x.k.snd.queue, Mss(x.k.ctl))
    && OutOk(x)
  }

  ghost predicate PairOk(p: Pair) {
    Direction(p.a, p.b) && Direction(p.b, p.a)
  }

  // ----- input

  /** What the segments of a datagram from `y` keep at `x`. */
  ghost predicate InputKeeps(k: Kcb, p: Parse, numbered: seq<Frag>, y: Node) {
    && Config(p.k.ctl) == Config(k.ctl)
    && p.k.snd.queue == k.snd.queue
    && SenderOk(p.k.snd, numbered)
    && NoLoss(p.k.snd, y.k.rcv, numbered)
    && p.k.snd.una >= k.snd.una
    && ReceiverOk(p.k.rcv, k.ctl.rcvWnd, y.numbered)
    && Gains(k.rcv, p.k.rcv)
    && 0 <= k.rcv.nxt
    && p.k.rcv.queue == k.rcv.queue + y.numbered[k.rcv.nxt..p.k.rcv.nxt]
  }

  lemma InputSegKeeps(k: Kcb, p: Parse, w: Wire, numbered: seq<Frag>, y: Node)
    requires y.k.rcv.nxt <= |numbered|
    requires InputKeeps(k, p, numbered, y)
    requires PushOk(w, y.numbered) && AckOk(w, y.k.rcv)
    ensures InputKeeps(k, InputSeg(Exact, p, w), numbered, y)
  {
    var q := InputSeg(Exact, p, w);
    InputSegParts(Exact, p, w);
    hide InputSeg, Push, ParseUna, RemoveAcked, NoLoss, InBuf, SndSorted, SndMatches, RcvSorted, RcvMatches, RcvWithin, Held;
    SenderTakes(p.k.snd, numbered, y.k.rcv, w);
    if w.cmd == CMD_PUSH {
      ReceiverTakes(p.k.rcv, k.ctl.rcvWnd, y.numbered, w);
      assert y.numbered[k.rcv.nxt..p.k.rcv.nxt] + y.numbered[p.k.rcv.nxt..q.k.rcv.nxt]
          == y.numbered[k.rcv.nxt..q.k.rcv.nxt];
    }
  }

  lemma {:induction false} InputSegsKeep(k: Kcb, p: Parse, ws: seq<Wire>, numbered: seq<Frag>, y: Node)
    requires y.k.rcv.nxt <= |numbered|
    requires InputKeeps(k, p, numbered, y)
    requires forall i | 0 <= i < |ws| :: PushOk(ws[i], y.numbered) && AckOk(ws[i], y.k.rcv)
    ensures InputKeeps(k, InputSegs(Exact, p, ws), numbered, y)
    decreases |ws|
  {
    if ws != [] {
      InputSegKeeps(k, p, ws[0], numbered, y);
      InputSegsKeep(k, InputSeg(Exact, p, ws[0]), ws[1..], numbered, y);
    }
  }

  /** The closing steps of an input touch timers and the congestion window only. */
  lemma InputTailKeeps(k: Kcb, p: Parse, prevUna: int, numbered: seq<Frag>, y: Node)
    requires InputKeeps(k, p, numbered, y)
    ensures InputKeeps(k, Parse(InputTail(Exact, prevUna, p), NoAck), numbered, y)
  {
    if p.newest.MaxAck? {
      BumpFastackSameSegs(Exact, p.k.snd.buf, p.newest.sn);
      SameSegsKeep(p.k.snd.buf, BumpFastack(Exact, p.k.snd.buf, p.newest.sn), numbered);
    }
  }

  lemma InputWiresKeeps(k: Kcb, ws: seq<Wire>, numbered: seq<Frag>, y: Node)
    requires SenderOk(k.snd, numbered) && NoLoss(k.snd, y.k.rcv, numbered)
    requires ReceiverOk(k.rcv, k.ctl.rcvWnd, y.numbered) && y.k.rcv.nxt <= |numbered|
    requires forall i | 0 <= i < |ws| :: PushOk(ws[i], y.numbered) && AckOk(ws[i], y.k.rcv)
    ensures InputKeeps(k, Parse(InputWires(Exact, k, ws), NoAck), numbered, y)
  {
    var start := Parse(k, NoAck);
    assert k.rcv.queue + y.numbered[k.rcv.nxt..k.rcv.nxt] == k.rcv.queue;
    InputSegsKeep(k, start, ws, numbered, y);
    InputTailKeeps(k, InputSegs(Exact, start, ws), k.snd.una, numbered, y);
  }

  // ----- each operation keeps the invariant

  /** The other endpoint's claims stay true when this one gains segments or numbers more. */
  lemma OutStays(x: Node, x': Node)
    requires OutOk(x) && x'.out == x.out && Config(x'.k.ctl) == Config(x.k.ctl)
    requires x.numbered <= x'.numbered && Gains(x.k.rcv, x'.k.rcv)
    ensures OutOk(x')
  {
    forall i | 0 <= i < |x'.out| ensures DatagramOk(x'.out[i], x') {
      var d := x.out[i];
      assert DatagramOk(d, x);
      forall j | 0 <= j < |d| ensures WireOk(d[j], x') { assert WireOk(d[j], x); }
    }
  }

  lemma NoLossStays(s: Sender, r: Receiver, r': Receiver, numbered: seq<Frag>)
    requires NoLoss(s, r, numbered) && Gains(r, r')
    ensures NoLoss(s, r', numbered)
  {
  }

  lemma {:induction false} FragmentsFit(mss: int, data: seq<byte>, count: nat, stream: bool)
    requires mss > 0 && count <= 256
    ensures FragsFit(Fragments(mss, data, count, stream), mss)
    decreases count
  {
    if count > 0 {
      FragmentsFit(mss, data[Min(|data|, mss)..], count - 1, stream);
    }
  }

  lemma SendFits(k: Kcb, data: seq<byte>, numbered: seq<Frag>)
    requires FragsFit(numbered + k.snd.queue, Mss(k.ctl))
    ensures FragsFit(numbered + Send(k, data).0.snd.queue, Mss(k.ctl))
  {
    var s := Extend(k.snd, k.ctl, data);
    assert FragsFit(k.snd.queue, Mss(k.ctl)) by {
      forall i | 0 <= i < |k.snd.queue| ensures |k.snd.queue[i].data| <= Mss(k.ctl) {
        assert (numbered + k.snd.queue)[|numbered| + i] == k.snd.queue[i];
      }
    }
    forall i | 0 <= i < |numbered| ensures |numbered[i].data| <= Mss(k.ctl) {
      assert (numbered + k.snd.queue)[i] == numbered[i];
    }
    assert FragsFit(s.queue, Mss(k.ctl));
    var rest := data[Extension(k.snd, k.ctl, data)..];
    var count := FragmentCount(Mss(k.ctl), |rest|);
    if count < WND_RCV {
      FragmentsFit(Mss(k.ctl), rest, count, k.ctl.stream);
    }
  }

  lemma SendKeeps(x: Node, y: Node, data: seq<byte>)
    requires PairOk(Pair(x, y))
    ensures PairOk(Pair(ActExact(x, y.out, DoSend(data)), y))
  {
    var x' := ActExact(x, y.out, DoSend(data));
    SendFits(x.k, data, x.numbered);
    OutStays(x, x');
  }

  /** The receive side after `taken` segments left the queue and it was refilled. */
  lemma DrainKeeps(x: Node, y: Node, taken: nat, x': Node)
    requires PairOk(Pair(x, y))
    requires taken <= |x.k.rcv.queue|
    requires x'.k.rcv == Drain(Exact, x.k.rcv.(queue := x.k.rcv.queue[taken..]), x.k.ctl.rcvWnd)
    requires x'.k.snd == x.k.snd && Config(x'.k.ctl) == Config(x.k.ctl)
    requires x'.numbered == x.numbered && x'.out == x.out
    requires x'.delivered == x.delivered + Appended(|x.k.rcv.queue| - taken, x'.k.rcv.queue)
    ensures PairOk(Pair(x', y))
  {
    var r := x.k.rcv.(queue := x.k.rcv.queue[taken..]);
    HeldKept(x.k.rcv, r);
    assert AcksHeld(r);
    DrainOk(r, x.k.ctl.rcvWnd, y.numbered);
    var r' := x'.k.rcv;
    assert Gains(x.k.rcv, r');
    assert x'.delivered == y.numbered[..r'.nxt];
    OutStays(x, x');
    NoLossStays(y.k.snd, x.k.rcv, r', y.numbered);
  }

  lemma RecvKeeps(x: Node, y: Node, len: int)
    requires PairOk(Pair(x, y))
    ensures PairOk(Pair(ActExact(x, y.out, DoRecv(len)), y))
  {
    hide PairOk, Drain, PeekSize, Bytes, MessageLength;
    var r := Recv(Exact, x.k, len);
    var x' := ActExact(x, y.out, DoRecv(len));
    if r.code >= 0 {
      assert x.k.rcv.queue[0..] == x.k.rcv.queue;
      DrainKeeps(x, y, if len < 0 then 0 else MessageLength(x.k.rcv.queue), x');
    } else {
      assert x'.delivered == x.delivered;
      SameWires(x, x', y);
    }
  }

  /** Only what the caller has seen differs. */
  lemma SameWires(x: Node, x': Node, y: Node)
    requires PairOk(Pair(x, y))
    requires x'.k == x.k && x'.out == x.out && x'.numbered == x.numbered && x'.delivered == x.delivered
    ensures PairOk(Pair(x', y))
  {
    OutStays(x, x');
  }

  lemma DeliverKeeps(x: Node, y: Node, i: nat)
    requires PairOk(Pair(x, y))
    ensures PairOk(Pair(ActExact(x, y.out, Deliver(i)), y))
  {
    hide InputWires;
    if i < |y.out| {
      var d := y.out[i];
      assert DatagramOk(d, y);
      forall j | 0 <= j < |d| ensures PushOk(d[j], y.numbered) && AckOk(d[j], y.k.rcv) {
        assert WireOk(d[j], y);
      }
      InputWiresKeeps(x.k, d, x.numbered, y);
      var x' := ActExact(x, y.out, Deliver(i));
      assert x'.delivered == y.numbered[..x'.k.rcv.nxt];
      OutStays(x, x');
      NoLossStays(y.k.snd, x.k.rcv, x'.k.rcv, y.numbered);
    }
  }

  lemma FlattenMember<T>(ss: seq<seq<T>>, i: int, j: int)
    requires 0 <= i < |ss| && 0 <= j < |ss[i]|
    ensures ss[i][j] in Flatten(ss)
  {
    if i < |ss| - 1 {
      FlattenMember(ss[..|ss| - 1], i, j);
    }
  }

  /** Only data segments carry payload. */
  lemma FlushPayload(k: Kcb)
    ensures forall w <- Flush(Exact, k).wires :: w.cmd == CMD_PUSH || w.data == []
  {
    if k.ctl.updated {
      var c := ProbeTimer(k.ctl);
      SweepIsData(StampOf(k), c, Move(Exact, k.snd, c).buf);
    }
  }

  lemma {:induction false} SweepIsData(t: Stamp, c: Control, buf: seq<SndSeg>)
    ensures forall w <- SweepAll(t, c, buf).wires :: w.cmd == CMD_PUSH
  {
    if buf != [] {
      SweepIsData(t, c, buf[..|buf| - 1]);
    }
  }

  /** What one flush of `x` must satisfy; `more` is everything numbered after it. */
  ghost predicate GoodFlush(x: Node, y: Node, f: FlushResult, more: seq<Frag>) {
    && |f.k.snd.queue| <= |x.k.snd.queue|
    && more == x.numbered + x.k.snd.queue[..|x.k.snd.queue| - |f.k.snd.queue|]
    && more + f.k.snd.queue == x.numbered + x.k.snd.queue
    && Config(f.k.ctl) == Config(x.k.ctl)
    && SenderOk(f.k.snd, more) && NoLoss(f.k.snd, y.k.rcv, more)
    && (f.k.rcv == x.k.rcv || f.k.rcv == x.k.rcv.(acks := []))
    && (forall w <- f.wires :: w.conv == x.k.ctl.conv && KnownCommand(w.cmd)
                               && PushOk(w, more) && AckOk(w, x.k.rcv))
    && (forall w <- f.wires :: w.cmd == CMD_PUSH || w.data == [])
  }

  lemma FlushIsGood(x: Node, y: Node, c: Control)
    requires PairOk(Pair(x, y)) && Config(c) == Config(x.k.ctl)
    ensures var f := Flush(Exact, x.k.(ctl := c));
            GoodFlush(x, y, f, x.numbered + x.k.snd.queue[..Max(0, |x.k.snd.queue| - |f.k.snd.queue|)])
  {
    hide Flush;
    FlushWires(x.k.(ctl := c), x.numbered, y.k.rcv);
    FlushPayload(x.k.(ctl := c));
  }

  lemma WiresFit(x: Node, y: Node, f: FlushResult, more: seq<Frag>)
    requires FragsFit(x.numbered + x.k.snd.queue, Mss(x.k.ctl)) && GoodFlush(x, y, f, more)
    ensures FragsFit(more + f.k.snd.queue, Mss(x.k.ctl))
    ensures forall i | 0 <= i < |f.wires| :: Size(f.wires[i]) <= x.k.ctl.mtu
  {
    forall i | 0 <= i < |f.wires| ensures Size(f.wires[i]) <= x.k.ctl.mtu {
      var w := f.wires[i];
      assert w in f.wires;
      if w.cmd == CMD_PUSH {
        assert (more + f.k.snd.queue)[w.sn] == more[w.sn];
      }
    }
  }

  /** The datagrams of a good flush respect the mtu and tell the truth. */
  lemma DatagramsOk(x: Node, y: Node, f: FlushResult, more: seq<Frag>, x': Node)
    requires GoodFlush(x, y, f, more) && FragsFit(x.numbered + x.k.snd.queue, Mss(x.k.ctl))
    requires x'.k == f.k && x'.numbered == more
    ensures forall i | 0 <= i < |Pack(x.k.ctl.mtu, f.wires)| :: DatagramOk(Pack(x.k.ctl.mtu, f.wires)[i], x')
  {
    WiresFit(x, y, f, more);
    PackIsGood(x.k.ctl.mtu, f.wires);
    HeldKept(x.k.rcv, f.k.rcv);
    var ds := Pack(x.k.ctl.mtu, f.wires);
    forall i | 0 <= i < |ds| ensures DatagramOk(ds[i], x') {
      assert GoodDatagram(x.k.ctl.mtu, ds[i]);
      forall j | 0 <= j < |ds[i]| ensures WireOk(ds[i][j], x') {
        FlattenMember(ds, i, j);
        var w := ds[i][j];
        assert w in f.wires;
        var m :| 0 <= m < |f.wires| && f.wires[m] == w;
        assert Size(w) <= x.k.ctl.mtu;
      }
    }
  }

  lemma EmitKeeps(x: Node, y: Node, f: FlushResult, more: seq<Frag>)
    requires PairOk(Pair(x, y)) && GoodFlush(x, y, f, more)
    ensures PairOk(Pair(EmitExact(x, f), y))
  {
    var x' := EmitExact(x, f);
    assert x'.numbered == more;
    DatagramsOk(x, y, f, more, x');
    WiresFit(x, y, f, more);
    HeldKept(x.k.rcv, f.k.rcv);
    OutStays(x, x'.(out := x.out));
    forall i | 0 <= i < |x'.out| ensures DatagramOk(x'.out[i], x') {
      if i < |x.out| {
        assert DatagramOk(x.out[i], x'.(out := x.out));
        DatagramSame(x.out[i], x'.(out := x.out), x');
      }
    }
    NoLossStays(y.k.snd, x.k.rcv, f.k.rcv, y.numbered);
    assert ReceiverOk(f.k.rcv, x.k.ctl.rcvWnd, y.numbered);
  }

  lemma FlushKeeps(x: Node, y: Node, c: Control)
    requires PairOk(Pair(x, y)) && Config(c) == Config(x.k.ctl)
    ensures PairOk(Pair(EmitExact(x, Flush(Exact, x.k.(ctl := c))), y))
  {
    FlushIsGood(x, y, c);
    var f := Flush(Exact, x.k.(ctl := c));
    EmitKeeps(x, y, f, x.numbered + x.k.snd.queue[..Max(0, |x.k.snd.queue| - |f.k.snd.queue|)]);
  }

  lemma DatagramSame(d: seq<Wire>, x: Node, x': Node)
    requires DatagramOk(d, x) && x'.k == x.k && x'.numbered == x.numbered
    ensures DatagramOk(d, x')
  {
    forall j | 0 <= j < |d| ensures WireOk(d[j], x') { assert WireOk(d[j], x); }
  }

  lemma HeldKept(r: Receiver, r': Receiver)
    requires r'.nxt == r.nxt && r'.buf == r.buf
    ensures Gains(r, r') && forall n :: Held(r, n) <==> Held(r', n)
  {
  }

  lemma UpdateKeeps(x: Node, y: Node, now: u32)
    requires PairOk(Pair(x, y))
    ensures PairOk(Pair(ActExact(x, y.out, DoUpdate(now)), y))
  {
    var (c, due) := Tick(x.k.ctl, now);
    if due {
      FlushKeeps(x, y, c);
    } else {
      var x' := ActExact(x, y.out, DoUpdate(now));
      assert Pack(x.k.ctl.mtu, []) == [];
      assert x.k.snd.queue[..0] == [];
      assert x'.numbered == x.numbered && x'.out == x.out;
      OutStays(x, x');
    }
  }

  lemma ActKeeps(x: Node, y: Node, op: Op)
    requires PairOk(Pair(x, y))
    ensures PairOk(Pair(ActExact(x, y.out, op), y))
  {
    match op
    case DoSend(data) => SendKeeps(x, y, data);
    case DoRecv(len) => RecvKeeps(x, y, len);
    case DoUpdate(now) => UpdateKeeps(x, y, now);
    case DoFlush => FlushKeeps(x, y, x.k.ctl);
    case Deliver(i) => DeliverKeeps(x, y, i);
  }

  /** Every step of either endpoint keeps the invariant. */
  lemma StepKeeps(p: Pair, x: Action)
    requires PairOk(p)
    ensures PairOk(PairStep(p, x))
  {
    match x
    case AtA(op) => ActKeeps(p.a, p.b, op);
    case AtB(op) => ActKeeps(p.b, p.a, op);
  }

  lemma StartOk(w: World)
    requires FreshWorld(w)
    ensures PairOk(TwinWorld(w))
  {
  }

  /** The invariant holds throughout every run. */
  lemma {:induction false} RunKeeps(p: Pair, xs: seq<Action>)
    requires PairOk(p)
    ensures PairOk(PairRun(p, xs))
  {
    if xs != [] {
      RunKeeps(p, xs[..|xs| - 1]);
      StepKeeps(PairRun(p, xs[..|xs| - 1]), xs[|xs| - 1]);
    }
  }
}
