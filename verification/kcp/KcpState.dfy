/**
 The transport control block as a value, and each of its operations as a function from
 the block before to the block after. Every function takes the arithmetic its sequence
 numbers are kept in: with `Mod32` it is what the code computes.
 */
module KcpState {
  import opened Arithmetic32
  import opened KcpWire

  const WND_RCV := 128
  const RTO_NDL := 30
  const RTO_MIN := 100
  const RTO_MAX := 60000
  const THRESH_MIN := 2
  const PROBE_INIT := 7000
  const PROBE_LIMIT := 120000
  const NO_RESEND: u32 := 0xffff_ffff

  /** A fragment: how many fragments of its message follow it, and its payload. */
  datatype Frag = Frag(frg: byte, data: seq<byte>)

  /** A numbered segment waiting for its acknowledgement. */
  datatype SndSeg = SndSeg(sn: int, frag: Frag, resendts: u32, rto: u32, fastack: u32, xmit: u32)

  /** A segment received ahead of its turn. */
  datatype RcvSeg = RcvSeg(sn: int, frag: Frag)

  datatype AckItem = AckItem(sn: int, ts: u32)

  datatype Sender = Sender(una: int, nxt: int, queue: seq<Frag>, buf: seq<SndSeg>)

  datatype Receiver = Receiver(nxt: int, queue: seq<Frag>, buf: seq<RcvSeg>, acks: seq<AckItem>)

  /** `ikcp_setmtu` refuses anything below 50. */
  type Mtu = x: int | 50 <= x < 0x8000_0000 witness 1400

  /** Everything that is neither a queue nor a sequence number. */
  datatype Control = Control(
    conv: u32, mtu: Mtu, dead: bool,
    sndWnd: u32, rcvWnd: u32, rmtWnd: u16, cwnd: u32, incr: u32, ssthresh: u32,
    rxRttval: nat, rxSrtt: nat, rxRto: u32, rxMinrto: u32,
    askSend: bool, askTell: bool, tsProbe: u32, probeWait: u32,
    current: u32, interval: u32, tsFlush: u32, updated: bool,
    xmit: u32, deadLink: u32, nodelay: int, fastresend: int, fastlimit: int,
    nocwnd: bool, stream: bool)

  /** The settings no operation of a run touches. */
  function Config(c: Control): (u32, Mtu, u32, bool, u32, bool, int, int, int, u32, u32, u32) {
    (c.conv, c.mtu, c.rcvWnd, c.stream, c.sndWnd, c.nocwnd, c.fastresend, c.fastlimit,
     c.nodelay, c.interval, c.rxMinrto, c.deadLink)
  }

  datatype Kcb = Kcb(snd: Sender, rcv: Receiver, ctl: Control)

  /** Payload bytes that fit one datagram. */
  function Mss(c: Control): u32 {
    c.mtu as int - OVERHEAD
  }

  function Create(conv: u32): Kcb {
    Kcb(Sender(0, 0, [], []), Receiver(0, [], [], []),
        Control(conv, 1400, false,
                32, WND_RCV, WND_RCV, 0, 0, 2,
                0, 0, 200, 100,
                false, false, 0, 0,
                0, 100, 100, false,
                0, 20, 0, 0, 5,
                false, false))
  }

  // ----- ikcp_send

  /** The last fragment of a message in `count` pieces takes what is left, the others `mss` bytes. */
  function Fragments(mss: int, data: seq<byte>, count: nat, stream: bool): seq<Frag>
    requires mss > 0 && count <= 256
  {
    if count == 0 then [] else
    var size := Min(|data|, mss);
    [Frag(if stream then 0 else count - 1, data[..size])] + Fragments(mss, data[size..], count - 1, stream)
  }

  function FragmentCount(mss: int, len: nat): nat
    requires mss > 0
  {
    if len <= mss then 1 else (len + mss - 1) / mss
  }

  /** Bytes of `data` that stream mode puts at the end of the last queued segment. */
  function Extension(s: Sender, c: Control, data: seq<byte>): nat {
    if c.stream && s.queue != [] && |s.queue[|s.queue| - 1].data| < Mss(c)
    then Min(|data|, Mss(c) - |s.queue[|s.queue| - 1].data|)
    else 0
  }

  function Extend(s: Sender, c: Control, data: seq<byte>): Sender {
    if c.stream && s.queue != [] && |s.queue[|s.queue| - 1].data| < Mss(c) then
      var last := |s.queue| - 1;
      s.(queue := s.queue[..last] + [Frag(0, s.queue[last].data + data[..Extension(s, c, data)])])
    else s
  }

  function Send(k: Kcb, data: seq<byte>): (Kcb, int)
  {
    var s := Extend(k.snd, k.ctl, data);
    var rest := data[Extension(k.snd, k.ctl, data)..];
    if k.ctl.stream && rest == [] then (k.(snd := s), 0) else
    var count := FragmentCount(Mss(k.ctl), |rest|);
    if count >= WND_RCV then (k.(snd := s), -2)
    else (k.(snd := s.(queue := s.queue + Fragments(Mss(k.ctl), rest, count, k.ctl.stream))), 0)
  }

  // ----- ikcp_peeksize and ikcp_recv

  /** Number of segments up to and including the first whose `frg` is 0. */
  function MessageLength(queue: seq<Frag>): nat
    ensures MessageLength(queue) <= |queue|
  {
    if queue == [] then 0
    else if queue[0].frg == 0 then 1
    else 1 + MessageLength(queue[1..])
  }

  function Bytes(frags: seq<Frag>): seq<byte> {
    if frags == [] then [] else Bytes(frags[..|frags| - 1]) + frags[|frags| - 1].data
  }

  function PeekSize(r: Receiver): int {
    if r.queue == [] then -1
    else if r.queue[0].frg == 0 then |r.queue[0].data|
    else if |r.queue| < r.queue[0].frg + 1 then -1
    else |Bytes(r.queue[..MessageLength(r.queue)])|
  }

  /** How many segments at the head of the reorder buffer are next in line and find room. */
  function DrainCount(ar: Arith, buf: seq<RcvSeg>, nxt: int, room: int): (n: nat)
    ensures n <= |buf|
    ensures n == 0 || n <= room
  {
    if buf == [] || buf[0].sn != nxt || room <= 0 then 0
    else 1 + DrainCount(ar, buf[1..], ar.Norm(nxt + 1), room - 1)
  }

  function FragsOf(buf: seq<RcvSeg>): (r: seq<Frag>)
    ensures |r| == |buf|
  {
    seq(|buf|, i requires 0 <= i < |buf| => buf[i].frag)
  }

  /** Moves the segments whose turn has come from the reorder buffer to the receive queue. */
  function Drain(ar: Arith, r: Receiver, rcvWnd: int): Receiver {
    var n := DrainCount(ar, r.buf, r.nxt, rcvWnd - |r.queue|);
    Receiver(ar.Norm(r.nxt + n), r.queue + FragsOf(r.buf[..n]), r.buf[n..], r.acks)
  }

  datatype RecvResult = RecvResult(k: Kcb, code: int, data: seq<byte>)

  /** `len` is the caller's buffer size; a negative one asks to look without consuming. */
  function Recv(ar: Arith, k: Kcb, len: int): RecvResult {
    if k.rcv.queue == [] then RecvResult(k, -1, [])
    else if PeekSize(k.rcv) < 0 then RecvResult(k, -2, [])
    else if PeekSize(k.rcv) > (if len < 0 then -len else len) then RecvResult(k, -3, [])
    else
      var n := MessageLength(k.rcv.queue);
      var data := Bytes(k.rcv.queue[..n]);
      var taken := if len < 0 then k.rcv else k.rcv.(queue := k.rcv.queue[n..]);
      var r := Drain(ar, taken, k.ctl.rcvWnd);
      var tell := |k.rcv.queue| >= k.ctl.rcvWnd && |r.queue| < k.ctl.rcvWnd;
      RecvResult(Kcb(k.snd, r, if tell then k.ctl.(askTell := true) else k.ctl), |data|, data)
  }

  // ----- acknowledgements arriving at the sender

  function ParseUna(ar: Arith, buf: seq<SndSeg>, una: int): seq<SndSeg> {
    if buf == [] || ar.Diff(una, buf[0].sn) <= 0 then buf else ParseUna(ar, buf[1..], una)
  }

  function ShrinkBuf(s: Sender): Sender {
    s.(una := if s.buf == [] then s.nxt else s.buf[0].sn)
  }

  function RemoveAcked(ar: Arith, buf: seq<SndSeg>, sn: int): seq<SndSeg> {
    if buf == [] then buf
    else if sn == buf[0].sn then buf[1..]
    else if ar.Diff(sn, buf[0].sn) < 0 then buf
    else [buf[0]] + RemoveAcked(ar, buf[1..], sn)
  }

  predicate InFlight(ar: Arith, s: Sender, sn: int) {
    ar.Diff(sn, s.una) >= 0 && ar.Diff(sn, s.nxt) < 0
  }

  function ParseAck(ar: Arith, s: Sender, sn: int): Sender {
    if InFlight(ar, s, sn) then s.(buf := RemoveAcked(ar, s.buf, sn)) else s
  }

  function BumpFastack(ar: Arith, buf: seq<SndSeg>, sn: int): seq<SndSeg> {
    if buf == [] || ar.Diff(sn, buf[0].sn) < 0 then buf
    else
      var head := if sn != buf[0].sn then buf[0].(fastack := Wrap(buf[0].fastack + 1)) else buf[0];
      [head] + BumpFastack(ar, buf[1..], sn)
  }

  function ParseFastack(ar: Arith, s: Sender, sn: int): Sender {
    if InFlight(ar, s, sn) then s.(buf := BumpFastack(ar, s.buf, sn)) else s
  }

  function NextSrtt(c: Control, rtt: nat): nat {
    if c.rxSrtt == 0 then rtt else Max(1, (7 * c.rxSrtt + rtt) / 8)
  }

  function NextRttval(c: Control, rtt: nat): nat {
    var delta := if rtt < c.rxSrtt then c.rxSrtt - rtt else rtt - c.rxSrtt;
    if c.rxSrtt == 0 then rtt / 2 else (3 * c.rxRttval + delta) / 4
  }

  function NextRto(c: Control, srtt: nat, rttval: nat): u32 {
    Bound(c.rxMinrto, Wrap(srtt + Max(c.interval, Wrap(4 * rttval))), RTO_MAX)
  }

  function UpdateAck(c: Control, rtt: nat): (r: Control)
    ensures Config(r) == Config(c)
  {
    var srtt, rttval := NextSrtt(c, rtt), NextRttval(c, rtt);
    c.(rxSrtt := srtt, rxRttval := rttval, rxRto := NextRto(c, srtt, rttval))
  }

  // ----- data arriving at the receiver

  /** Where the backward search of the reorder buffer stops: after the last smaller number. */
  function InsertSeg(ar: Arith, buf: seq<RcvSeg>, seg: RcvSeg): seq<RcvSeg> {
    if buf == [] then [seg] else
    var last := buf[|buf| - 1];
    if last.sn == seg.sn then buf
    else if ar.Diff(seg.sn, last.sn) > 0 then buf + [seg]
    else InsertSeg(ar, buf[..|buf| - 1], seg) + [last]
  }

  predicate BeforeWindowEnd(ar: Arith, r: Receiver, rcvWnd: int, sn: int) {
    ar.Diff(sn, ar.Norm(r.nxt + rcvWnd)) < 0
  }

  function ParseData(ar: Arith, r: Receiver, rcvWnd: int, seg: RcvSeg): Receiver {
    if !BeforeWindowEnd(ar, r, rcvWnd, seg.sn) || ar.Diff(seg.sn, r.nxt) < 0 then r
    else Drain(ar, r.(buf := InsertSeg(ar, r.buf, seg)), rcvWnd)
  }

  function Push(ar: Arith, r: Receiver, rcvWnd: int, w: Wire): Receiver {
    if !BeforeWindowEnd(ar, r, rcvWnd, w.sn) then r else
    var acked := r.(acks := r.acks + [AckItem(w.sn, w.ts)]);
    if ar.Diff(w.sn, r.nxt) < 0 then acked
    else ParseData(ar, acked, rcvWnd, RcvSeg(w.sn, Frag(w.frg, w.data)))
  }

  // ----- ikcp_input

  /** The newest number acknowledged by the datagram so far. */
  datatype Newest = NoAck | MaxAck(sn: int)

  function Mark(ar: Arith, m: Newest, sn: int): Newest {
    if m.NoAck? || ar.Diff(sn, m.sn) > 0 then MaxAck(sn) else m
  }

  datatype Parse = Parse(k: Kcb, newest: Newest)

  function InputSeg(ar: Arith, p: Parse, w: Wire): (q: Parse)
    ensures Config(q.k.ctl) == Config(p.k.ctl)
  {
    var c := p.k.ctl.(rmtWnd := w.wnd);
    var s := ShrinkBuf(p.k.snd.(buf := ParseUna(ar, p.k.snd.buf, w.una)));
    if w.cmd == CMD_ACK then
      var rtt := Itimediff(c.current, w.ts);
      Parse(Kcb(ShrinkBuf(ParseAck(ar, s, w.sn)), p.k.rcv, if rtt >= 0 then UpdateAck(c, rtt) else c),
            Mark(ar, p.newest, w.sn))
    else if w.cmd == CMD_PUSH then
      Parse(Kcb(s, Push(ar, p.k.rcv, c.rcvWnd, w), c), p.newest)
    else if w.cmd == CMD_WASK then
      Parse(Kcb(s, p.k.rcv, c.(askTell := true)), p.newest)
    else
      Parse(Kcb(s, p.k.rcv, c), p.newest)
  }

  function InputSegs(ar: Arith, p: Parse, ws: seq<Wire>): Parse
    decreases |ws|
  {
    if ws == [] then p else InputSegs(ar, InputSeg(ar, p, ws[0]), ws[1..])
  }

  function CeilDiv(x: u32, d: u32): u32
    requires d > 0
  {
    Quotient(Wrap(x + d - 1), d)
  }

  function Quotient(x: u32, d: u32): u32
    requires d > 0
  {
    x / d
  }

  /** `incr` after one step of congestion avoidance. */
  function AvoidanceStep(incr: u32, mss: u32): u32
    requires mss > 0
  {
    var base: u32 := Max(incr, mss);
    Wrap(base + Quotient(Wrap(mss * mss), base) + mss / 16)
  }

  function SlowStart(c: Control): (r: Control)
    ensures Config(r) == Config(c) && r.rmtWnd == c.rmtWnd
  {
    c.(cwnd := Wrap(c.cwnd + 1), incr := Wrap(c.incr + Mss(c)))
  }

  function Avoidance(c: Control): (r: Control)
    ensures Config(r) == Config(c) && r.rmtWnd == c.rmtWnd
  {
    var mss := Mss(c);
    var incr := AvoidanceStep(c.incr, mss);
    c.(incr := incr, cwnd := if Wrap(Wrap(c.cwnd + 1) * mss) <= incr then CeilDiv(incr, mss) else c.cwnd)
  }

  function ClampToPeer(c: Control): (r: Control)
    ensures Config(r) == Config(c)
  {
    if c.cwnd > c.rmtWnd then c.(cwnd := c.rmtWnd, incr := Wrap(c.rmtWnd * Mss(c))) else c
  }

  /** Congestion window after an acknowledgement that moved the window. */
  function Grow(c: Control): (r: Control)
    ensures Config(r) == Config(c)
  {
    if c.cwnd >= c.rmtWnd then c
    else ClampToPeer(if c.cwnd < c.ssthresh then SlowStart(c) else Avoidance(c))
  }

  function InputTail(ar: Arith, prevUna: int, p: Parse): Kcb
  {
    var s := if p.newest.NoAck? then p.k.snd else ParseFastack(ar, p.k.snd, p.newest.sn);
    Kcb(s, p.k.rcv, if ar.Diff(s.una, prevUna) > 0 then Grow(p.k.ctl) else p.k.ctl)
  }

  /** The effect of the segments of one well-formed datagram. */
  function InputWires(ar: Arith, k: Kcb, ws: seq<Wire>): Kcb
  {
    InputTail(ar, k.snd.una, InputSegs(ar, Parse(k, NoAck), ws))
  }

  /**
   `ikcp_input` on the bytes of a datagram. A malformed segment ends the reading at once;
   what the segments before it did stays done, and the closing steps are skipped.
   */
  function Input(k: Kcb, data: seq<byte>): (Kcb, int)
  {
    if |data| < OVERHEAD then (k, -1) else
    var r := Read(k.ctl.conv, data);
    if r.code == 0 then (InputWires(Mod32, k, r.segs), 0)
    else (InputSegs(Mod32, Parse(k, NoAck), r.segs).k, r.code)
  }

  // ----- ikcp_flush

  function WndUnused(k: Kcb): nat {
    if |k.rcv.queue| < k.ctl.rcvWnd then k.ctl.rcvWnd - |k.rcv.queue| else 0
  }

  /** What every segment of one flush has in common. */
  datatype Stamp = Stamp(conv: u32, wnd: u16, una: int)

  function StampOf(k: Kcb): Stamp {
    Stamp(k.ctl.conv, WndUnused(k) % M16, k.rcv.nxt)
  }

  function AckWire(t: Stamp, a: AckItem): Wire {
    Wire(t.conv, CMD_ACK, 0, t.wnd, a.ts, a.sn, t.una, [])
  }

  function AckWires(t: Stamp, acks: seq<AckItem>): (r: seq<Wire>)
    ensures |r| == |acks|
  {
    seq(|acks|, i requires 0 <= i < |acks| => AckWire(t, acks[i]))
  }

  /** Number and time left in the header by the last acknowledgement; probes repeat them. */
  function LastAck(acks: seq<AckItem>): AckItem {
    if acks == [] then AckItem(0, 0) else acks[|acks| - 1]
  }

  function ProbeWire(t: Stamp, cmd: byte, a: AckItem): Wire {
    Wire(t.conv, cmd, 0, t.wnd, a.ts, a.sn, t.una, [])
  }

  function ProbeTimer(c: Control): (r: Control)
    ensures Config(r) == Config(c)
  {
    if c.rmtWnd != 0 then c.(tsProbe := 0, probeWait := 0)
    else if c.probeWait == 0 then c.(probeWait := PROBE_INIT, tsProbe := Wrap(c.current + PROBE_INIT))
    else if Itimediff(c.current, c.tsProbe) >= 0 then
      var w := Max(c.probeWait, PROBE_INIT);
      var wait := Min(Wrap(w + w / 2), PROBE_LIMIT);
      c.(probeWait := wait, tsProbe := Wrap(c.current + wait), askSend := true)
    else c
  }

  function ProbeWires(t: Stamp, c: Control, a: AckItem): seq<Wire> {
    (if c.askSend then [ProbeWire(t, CMD_WASK, a)] else [])
    + (if c.askTell then [ProbeWire(t, CMD_WINS, a)] else [])
  }

  function SendWindow(c: Control): u32 {
    var w := Min(c.sndWnd, c.rmtWnd);
    if c.nocwnd then w else Min(c.cwnd, w)
  }

  /** How many queued segments enter the window. */
  function MoveCount(ar: Arith, nxt: int, limit: int, queued: nat): (n: nat)
    ensures n <= queued
    decreases queued
  {
    if queued == 0 || ar.Diff(nxt, limit) >= 0 then 0
    else 1 + MoveCount(ar, ar.Norm(nxt + 1), limit, queued - 1)
  }

  function Numbered(ar: Arith, c: Control, nxt: int, frags: seq<Frag>): (r: seq<SndSeg>)
    ensures |r| == |frags|
  {
    seq(|frags|, i requires 0 <= i < |frags| =>
      SndSeg(ar.Norm(nxt + i), frags[i], c.current, c.rxRto, 0, 0))
  }

  function Move(ar: Arith, s: Sender, c: Control): Sender {
    var n := MoveCount(ar, s.nxt, ar.Norm(s.una + SendWindow(c)), |s.queue|);
    Sender(s.una, ar.Norm(s.nxt + n), s.queue[n..], s.buf + Numbered(ar, c, s.nxt, s.queue[..n]))
  }

  function Resent(c: Control): u32
  {
    if c.fastresend > 0 then Wrap(c.fastresend) else NO_RESEND
  }

  datatype Attempt = Attempt(seg: SndSeg, sent: bool, lost: bool, fast: bool)

  /** Whether and why a segment in flight is sent now, and its timers afterwards. */
  function TrySend(c: Control, s: SndSeg): Attempt {
    if s.xmit == 0 then
      Attempt(s.(xmit := 1, rto := c.rxRto,
                 resendts := Wrap(c.current + c.rxRto + if c.nodelay == 0 then c.rxRto / 8 else 0)),
              true, false, false)
    else if Itimediff(c.current, s.resendts) >= 0 then
      var rto := if c.nodelay == 0 then Wrap(s.rto + Max(s.rto, c.rxRto))
                 else Wrap(s.rto + TruncHalf(if c.nodelay < 2 then Signed(s.rto) else Signed(c.rxRto)));
      Attempt(s.(xmit := Wrap(s.xmit + 1), rto := rto, resendts := Wrap(c.current + rto)), true, true, false)
    else if s.fastack >= Resent(c) && (Signed(s.xmit) <= c.fastlimit || c.fastlimit <= 0) then
      Attempt(s.(xmit := Wrap(s.xmit + 1), fastack := 0, resendts := Wrap(c.current + s.rto)), true, false, true)
    else
      Attempt(s, false, false, false)
  }

  function DataWire(t: Stamp, c: Control, s: SndSeg): Wire {
    Wire(t.conv, CMD_PUSH, s.frag.frg, t.wnd, c.current, s.sn, t.una, s.frag.data)
  }

  /** The sweep over the segments in flight. */
  datatype Sweep = Sweep(buf: seq<SndSeg>, wires: seq<Wire>, resends: nat, fast: bool, dead: bool)

  function SweepOne(t: Stamp, c: Control, w: Sweep, s: SndSeg): Sweep {
    var a := TrySend(c, s);
    Sweep(w.buf + [a.seg],
          if a.sent then w.wires + [DataWire(t, c, s)] else w.wires,
          if a.lost then w.resends + 1 else w.resends,
          w.fast || a.fast,
          w.dead || (a.sent && a.seg.xmit >= c.deadLink))
  }

  function SweepAll(t: Stamp, c: Control, buf: seq<SndSeg>): (w: Sweep)
    ensures |w.buf| == |buf|
  {
    if buf == [] then Sweep([], [], 0, false, false)
    else SweepOne(t, c, SweepAll(t, c, buf[..|buf| - 1]), buf[|buf| - 1])
  }

  /** After segments were resent early, on duplicate acknowledgements. */
  function AfterFast(c: Control, inflight: u32): (r: Control)
    ensures Config(r) == Config(c)
  {
    var thresh := Max(inflight / 2, THRESH_MIN);
    var cwnd := Wrap(thresh + Resent(c));
    c.(ssthresh := thresh, cwnd := cwnd, incr := Wrap(cwnd * Mss(c)))
  }

  /** After segments timed out. */
  function AfterLoss(c: Control, window: u32): (r: Control)
    ensures Config(r) == Config(c)
  {
    c.(ssthresh := Max(window / 2, THRESH_MIN), cwnd := 1, incr := Mss(c))
  }

  function AtLeastOne(c: Control): (r: Control)
    ensures Config(r) == Config(c)
  {
    if c.cwnd < 1 then c.(cwnd := 1, incr := Mss(c)) else c
  }

  /** Window reductions at the end of a flush. */
  function Shrink(c: Control, inflight: u32, window: u32, fast: bool, lost: bool): (r: Control)
    ensures Config(r) == Config(c)
  {
    var c1 := if fast then AfterFast(c, inflight) else c;
    var c2 := if lost then AfterLoss(c1, window) else c1;
    AtLeastOne(c2)
  }

  datatype FlushResult = FlushResult(k: Kcb, wires: seq<Wire>)

  function ClearProbes(c: Control): Control {
    c.(askSend := false, askTell := false)
  }

  /** The end of a flush: `c` is the block after the probe timer, `s` the window after the move. */
  function FinishFlush(ar: Arith, k: Kcb, c: Control, s: Sender, w: Sweep): (f: FlushResult)
    requires Config(c) == Config(k.ctl)
    ensures Config(f.k.ctl) == Config(k.ctl)
  {
    var t := StampOf(k);
    var c1 := ClearProbes(c).(xmit := Wrap(c.xmit + w.resends), dead := c.dead || w.dead);
    FlushResult(
      Kcb(s.(buf := w.buf), k.rcv.(acks := []),
          Shrink(c1, ar.Sub(s.nxt, s.una), SendWindow(c), w.fast, w.resends > 0)),
      AckWires(t, k.rcv.acks) + ProbeWires(t, c, LastAck(k.rcv.acks)) + w.wires)
  }

  /** The block after a flush, and the segments it puts out in order. */
  function Flush(ar: Arith, k: Kcb): (f: FlushResult)
    ensures Config(f.k.ctl) == Config(k.ctl)
  {
    if !k.ctl.updated then FlushResult(k, []) else
    var c := ProbeTimer(k.ctl);
    var s := Move(ar, k.snd, c);
    FinishFlush(ar, k, c, s, SweepAll(StampOf(k), c, s.buf))
  }

  /** The datagrams of a flush, as handed to the output callback. */
  function Datagrams(k: Kcb, wires: seq<Wire>): seq<seq<Wire>> {
    Pack(k.ctl.mtu, wires)
  }

  // ----- ikcp_update and ikcp_check

  /** The clock part of an update: new control block, and whether a flush is due. */
  function Tick(c: Control, current: u32): (r: (Control, bool))
    ensures Config(r.0) == Config(c)
  {
    var c1 := if c.updated then c.(current := current)
              else c.(current := current, updated := true, tsFlush := current);
    var slap := Itimediff(current, c1.tsFlush);
    var late := slap >= 10000 || slap < -10000;
    var c2 := if late then c1.(tsFlush := current) else c1;
    if late || slap >= 0 then
      var next := Wrap(c2.tsFlush + c2.interval);
      (c2.(tsFlush := if Itimediff(current, next) >= 0 then Wrap(current + c2.interval) else next), true)
    else (c2, false)
  }

  function Update(ar: Arith, k: Kcb, current: u32): FlushResult {
    var (c, due) := Tick(k.ctl, current);
    if due then Flush(ar, k.(ctl := c)) else FlushResult(k.(ctl := c), [])
  }

  /** Smallest time to a resend; a deadline that has passed shows as 0 or less. */
  function PacketWait(buf: seq<SndSeg>, current: u32): int {
    if buf == [] then 0x7fff_ffff
    else Min(PacketWait(buf[..|buf| - 1], current), Itimediff(buf[|buf| - 1].resendts, current))
  }

  function Check(k: Kcb, current: u32): u32 {
    var early := Itimediff(current, k.ctl.tsFlush);
    if !k.ctl.updated || early >= 0 || early < -10000 then current else
    var wait := PacketWait(k.snd.buf, current);
    if wait <= 0 then current
    else Wrap(current + Min(Min(wait, -early), k.ctl.interval))
  }

  // ----- settings

  function SetMtu(c: Control, mtu: int): (Control, int)
    requires mtu < M31
  {
    if mtu < 50 then (c, -1) else (c.(mtu := mtu), 0)
  }

  function WndSize(c: Control, sndwnd: int, rcvwnd: int): Control
    requires sndwnd < M31 && rcvwnd < M31
  {
    c.(sndWnd := if sndwnd > 0 then sndwnd else c.sndWnd,
       rcvWnd := if rcvwnd > 0 then Max(rcvwnd, WND_RCV) else c.rcvWnd)
  }

  /** `ikcp_interval`. */
  function BoundInterval(interval: int): (i: u32)
    ensures 10 <= i <= 5000 && (10 <= interval <= 5000 ==> i == interval)
  {
    if interval > 5000 then 5000 else if interval < 10 then 10 else interval
  }

  function Delays(c: Control, nodelay: int, interval: int): Control {
    c.(nodelay := if nodelay >= 0 then nodelay else c.nodelay,
       rxMinrto := if nodelay < 0 then c.rxMinrto else if nodelay != 0 then RTO_NDL else RTO_MIN,
       interval := if interval >= 0 then BoundInterval(interval) else c.interval)
  }

  function Resends(c: Control, resend: int, nc: int): Control {
    c.(fastresend := if resend >= 0 then resend else c.fastresend,
       nocwnd := if nc >= 0 then nc != 0 else c.nocwnd)
  }

  /** `ikcp_nodelay`: a negative argument leaves its setting alone. */
  function NoDelay(c: Control, nodelay: int, interval: int, resend: int, nc: int): Control {
    Resends(Delays(c, nodelay, interval), resend, nc)
  }
}
