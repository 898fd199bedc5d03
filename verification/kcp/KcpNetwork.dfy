/**
 Two endpoints and the network between them. What an endpoint puts out is only ever
 appended to its log; the network may hand any entry of the log to the peer, at any time,
 any number of times or never. So datagrams are lost, duplicated, delayed and reordered
 at will.
 */
module KcpNetwork {
  import opened Arithmetic32
  import opened KcpWire
  import opened KcpState

  /** What can happen at one endpoint. `Deliver(i)` hands it entry `i` of the peer's log. */
  datatype Op = DoSend(data: seq<byte>) | DoRecv(len: int) | DoUpdate(now: u32) | DoFlush | Deliver(i: nat)

  datatype Action = AtA(op: Op) | AtB(op: Op)

  /** What the caller of an endpoint has seen. */
  datatype Caller = Caller(accepted: seq<seq<byte>>, written: seq<byte>, returned: seq<seq<byte>>, read: seq<byte>)

  function AfterSend(u: Caller, k: Kcb, data: seq<byte>, code: int): Caller {
    if code == 0 then u.(accepted := u.accepted + [data], written := u.written + data)
    else u.(written := u.written + data[..Extension(k.snd, k.ctl, data)])
  }

  /** A negative buffer length only looks, so what it shows is not counted as returned. */
  function AfterRecv(u: Caller, r: RecvResult, len: int): Caller {
    if r.code >= 0 && len >= 0 then u.(returned := u.returned + [r.data], read := u.read + r.data) else u
  }

  // ----- the system that runs: 32-bit numbers, bytes on the wire

  datatype End = End(k: Kcb, user: Caller, out: seq<seq<byte>>)

  function Emit(e: End, f: FlushResult): End {
    e.(k := f.k, out := e.out + EncodeEach(Datagrams(e.k, f.wires)))
  }

  function Act(e: End, peerOut: seq<seq<byte>>, op: Op): End {
    match op
    case DoSend(data) =>
      var (k, code) := Send(e.k, data);
      e.(k := k, user := AfterSend(e.user, e.k, data, code))
    case DoRecv(len) =>
      var r := Recv(Mod32, e.k, len);
      e.(k := r.k, user := AfterRecv(e.user, r, len))
    case DoUpdate(now) => Emit(e, Update(Mod32, e.k, now))
    case DoFlush => Emit(e, Flush(Mod32, e.k))
    case Deliver(i) => if i < |peerOut| then e.(k := Input(e.k, peerOut[i]).0) else e
  }

  datatype World = World(a: End, b: End)

  function WorldStep(w: World, x: Action): World {
    match x
    case AtA(op) => w.(a := Act(w.a, w.b.out, op))
    case AtB(op) => w.(b := Act(w.b, w.a.out, op))
  }

  function WorldRun(w: World, xs: seq<Action>): World {
    if xs == [] then w else WorldStep(WorldRun(w, xs[..|xs| - 1]), xs[|xs| - 1])
  }

  // ----- its twin with unbounded numbers, which also remembers

  /**
   `numbered` lists the segments ever given a number, `delivered` those ever appended to
   the receive queue.
   */
  datatype Node = Node(k: Kcb, user: Caller, out: seq<seq<Wire>>, numbered: seq<Frag>, delivered: seq<Frag>)

  function EmitExact(n: Node, f: FlushResult): Node {
    n.(k := f.k,
       out := n.out + Datagrams(n.k, f.wires),
       numbered := n.numbered + n.k.snd.queue[..Max(0, |n.k.snd.queue| - |f.k.snd.queue|)])
  }

  /** What `after` has queued beyond the segments left over from before. */
  function Appended(left: nat, after: seq<Frag>): seq<Frag> {
    if left <= |after| then after[left..] else []
  }

  function ActExact(n: Node, peerOut: seq<seq<Wire>>, op: Op): Node {
    match op
    case DoSend(data) =>
      var (k, code) := Send(n.k, data);
      n.(k := k, user := AfterSend(n.user, n.k, data, code))
    case DoRecv(len) =>
      var r := Recv(Exact, n.k, len);
      var taken := if r.code >= 0 && len >= 0 then MessageLength(n.k.rcv.queue) else 0;
      n.(k := r.k, user := AfterRecv(n.user, r, len),
         delivered := n.delivered + Appended(|n.k.rcv.queue| - taken, r.k.rcv.queue))
    case DoUpdate(now) => EmitExact(n, Update(Exact, n.k, now))
    case DoFlush => EmitExact(n, Flush(Exact, n.k))
    case Deliver(i) =>
      if i >= |peerOut| then n else
      var k := InputWires(Exact, n.k, peerOut[i]);
      n.(k := k, delivered := n.delivered + Appended(|n.k.rcv.queue|, k.rcv.queue))
  }

  datatype Pair = Pair(a: Node, b: Node)

  function PairStep(p: Pair, x: Action): Pair {
    match x
    case AtA(op) => p.(a := ActExact(p.a, p.b.out, op))
    case AtB(op) => p.(b := ActExact(p.b, p.a.out, op))
  }

  function PairRun(p: Pair, xs: seq<Action>): Pair {
    if xs == [] then p else PairStep(PairRun(p, xs[..|xs| - 1]), xs[|xs| - 1])
  }

  // ----- the start

  const FRESH_CALLER := Caller([], [], [], [])

  /** A block as created, with any settings made before the first use. */
  predicate FreshKcb(k: Kcb) {
    && k.snd == Sender(0, 0, [], [])
    && k.rcv == Receiver(0, [], [], [])
    && WND_RCV <= k.ctl.rcvWnd < M31
  }

  predicate FreshWorld(w: World) {
    && FreshKcb(w.a.k) && FreshKcb(w.b.k)
    && w.a.k.ctl.conv == w.b.k.ctl.conv
    && w.a == End(w.a.k, FRESH_CALLER, [])
    && w.b == End(w.b.k, FRESH_CALLER, [])
  }

  /** The unbounded twin of a fresh endpoint. */
  function Twin(e: End): Node {
    Node(e.k, FRESH_CALLER, [], [], [])
  }

  function TwinWorld(w: World): Pair {
    Pair(Twin(w.a), Twin(w.b))
  }
}
