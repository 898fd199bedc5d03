/**
 The 32-bit engine does what its unbounded twin does. As long as no sequence number on
 the wire is 2^31 or more behind the window it is compared with, each operation commutes
 with keeping only the low 32 bits of every sequence number.
 */
module KcpSimulation {
  import opened Arithmetic32
  import opened KcpWire
  import opened KcpState
  import opened KcpWindows
  import opened KcpNetwork
  import opened KcpSafety

  // ----- keeping the low 32 bits

  function LowSnd(buf: seq<SndSeg>): (r: seq<SndSeg>)
    ensures |r| == |buf|
    ensures forall i | 0 <= i < |buf| :: r[i] == buf[i].(sn := Wrap(buf[i].sn))
  {
    seq(|buf|, i requires 0 <= i < |buf| => buf[i].(sn := Wrap(buf[i].sn)))
  }

  function LowRcv(buf: seq<RcvSeg>): (r: seq<RcvSeg>)
    ensures |r| == |buf|
    ensures forall i | 0 <= i < |buf| :: r[i] == buf[i].(sn := Wrap(buf[i].sn))
  {
    seq(|buf|, i requires 0 <= i < |buf| => buf[i].(sn := Wrap(buf[i].sn)))
  }

  function LowAcks(acks: seq<AckItem>): (r: seq<AckItem>)
    ensures |r| == |acks|
    ensures forall i | 0 <= i < |acks| :: r[i] == acks[i].(sn := Wrap(acks[i].sn))
  {
    seq(|acks|, i requires 0 <= i < |acks| => acks[i].(sn := Wrap(acks[i].sn)))
  }

  function LowSender(s: Sender): Sender {
    Sender(Wrap(s.una), Wrap(s.nxt), s.queue, LowSnd(s.buf))
  }

  function LowReceiver(r: Receiver): Receiver {
    Receiver(Wrap(r.nxt), r.queue, LowRcv(r.buf), LowAcks(r.acks))
  }

  function Low(k: Kcb): Kcb {
    Kcb(LowSender(k.snd), LowReceiver(k.rcv), k.ctl)
  }

  function LowNewest(m: Newest): Newest {
    if m.NoAck? then m else MaxAck(Wrap(m.sn))
  }

  /** Differences of low parts, and of low parts after an addition. */
  lemma DiffOfLow(a: int, b: int)
    requires -M31 <= a - b < M31
    ensures Mod32.Diff(Wrap(a), Wrap(b)) == a - b == Exact.Diff(a, b)
    ensures Wrap(a) == Wrap(b) <==> a == b
  {
    ItimediffIsExact(a, b);
  }

  lemma NormOfLow(a: int, b: int)
    ensures Mod32.Norm(Wrap(a) + b) == Wrap(a + b) == Wrap(Exact.Norm(a + b))
  {
    WrapOfSum(a, b);
  }

  // ----- the sender's buffer

  ghost predicate Near(buf: seq<SndSeg>, sn: int) {
    forall i | 0 <= i < |buf| :: -M31 <= sn - buf[i].sn < M31
  }

  lemma LowSndTail(buf: seq<SndSeg>)
    requires buf != []
    ensures LowSnd(buf)[1..] == LowSnd(buf[1..])
    ensures LowSnd(buf)[0] == buf[0].(sn := Wrap(buf[0].sn))
  {
  }

  lemma LowSndCons(x: SndSeg, buf: seq<SndSeg>)
    ensures LowSnd([x] + buf) == [x.(sn := Wrap(x.sn))] + LowSnd(buf)
  {
  }

  lemma {:induction false} ParseUnaLow(buf: seq<SndSeg>, una: int)
    requires Near(buf, una)
    ensures ParseUna(Mod32, LowSnd(buf), Wrap(una)) == LowSnd(ParseUna(Exact, buf, una))
  {
    if buf != [] {
      hide LowSnd;
      DiffOfLow(una, buf[0].sn);
      LowSndTail(buf);
      if una > buf[0].sn {
        ParseUnaLow(buf[1..], una);
      }
    }
  }

  lemma {:induction false} RemoveAckedLow(buf: seq<SndSeg>, sn: int)
    requires Near(buf, sn)
    ensures RemoveAcked(Mod32, LowSnd(buf), Wrap(sn)) == LowSnd(RemoveAcked(Exact, buf, sn))
  {
    if buf != [] {
      hide LowSnd;
      DiffOfLow(sn, buf[0].sn);
      LowSndTail(buf);
      if sn > buf[0].sn {
        RemoveAckedLow(buf[1..], sn);
        LowSndCons(buf[0], RemoveAcked(Exact, buf[1..], sn));
      }
    }
  }

  lemma {:induction false} BumpFastackLow(buf: seq<SndSeg>, sn: int)
    requires Near(buf, sn)
    ensures BumpFastack(Mod32, LowSnd(buf), Wrap(sn)) == LowSnd(BumpFastack(Exact, buf, sn))
  {
    if buf != [] {
      hide LowSnd;
      DiffOfLow(sn, buf[0].sn);
      LowSndTail(buf);
      if sn >= buf[0].sn {
        BumpFastackLow(buf[1..], sn);
        var head := if sn != buf[0].sn then buf[0].(fastack := Wrap(buf[0].fastack + 1)) else buf[0];
        LowSndCons(head, BumpFastack(Exact, buf[1..], sn));
      }
    }
  }

  /** A number that is less than 2^31 behind the end of the sender's window. */
  predicate RecentAt(nxt: int, sn: int) {
    nxt - M31 <= sn <= nxt
  }

  lemma WindowNear(s: Sender, numbered: seq<Frag>, sn: int)
    requires SenderOk(s, numbered) && RecentAt(s.nxt, sn)
    ensures Near(s.buf, sn) && -M31 <= sn - s.una < M31 && -M31 <= sn - s.nxt < M31
  {
    if s.buf != [] {
      forall i | 0 <= i < |s.buf| ensures s.una <= s.buf[i].sn < s.nxt {
        if i > 0 { assert s.buf[0].sn < s.buf[i].sn; }
      }
    }
  }

  lemma ShrinkBufLow(s: Sender)
    ensures ShrinkBuf(LowSender(s)) == LowSender(ShrinkBuf(s))
  {
  }

  lemma ParseAckLow(s: Sender, numbered: seq<Frag>, sn: int)
    requires SenderOk(s, numbered) && RecentAt(s.nxt, sn)
    ensures ParseAck(Mod32, LowSender(s), Wrap(sn)) == LowSender(ParseAck(Exact, s, sn))
  {
    WindowNear(s, numbered, sn);
    DiffOfLow(sn, s.una);
    DiffOfLow(sn, s.nxt);
    RemoveAckedLow(s.buf, sn);
  }

  lemma ParseFastackLow(s: Sender, numbered: seq<Frag>, sn: int)
    requires SenderOk(s, numbered) && RecentAt(s.nxt, sn)
    ensures ParseFastack(Mod32, LowSender(s), Wrap(sn)) == LowSender(ParseFastack(Exact, s, sn))
  {
    WindowNear(s, numbered, sn);
    DiffOfLow(sn, s.una);
    DiffOfLow(sn, s.nxt);
    BumpFastackLow(s.buf, sn);
  }

  lemma TakeAcksLow(s: Sender, numbered: seq<Frag>, w: Wire)
    requires SenderOk(s, numbered) && RecentAt(s.nxt, w.una)
    requires w.cmd == CMD_ACK ==> RecentAt(s.nxt, w.sn)
    ensures TakeAcks(Mod32, LowSender(s), Truncated(w)) == LowSender(TakeAcks(Exact, s, w))
  {
    WindowNear(s, numbered, w.una);
    ParseUnaLow(s.buf, w.una);
    var t := s.(buf := ParseUna(Exact, s.buf, w.una));
    ShrinkBufLow(t);
    SenderTakesUna(s, numbered, w.una);
    if w.cmd == CMD_ACK {
      ParseAckLow(ShrinkBuf(t), numbered, w.sn);
      ShrinkBufLow(ParseAck(Exact, ShrinkBuf(t), w.sn));
    }
  }

  // ----- the receiver's buffer

  lemma LowRcvEnds(buf: seq<RcvSeg>)
    requires buf != []
    ensures LowRcv(buf)[1..] == LowRcv(buf[1..])
    ensures LowRcv(buf)[..|buf| - 1] == LowRcv(buf[..|buf| - 1])
    ensures LowRcv(buf)[0] == buf[0].(sn := Wrap(buf[0].sn))
    ensures LowRcv(buf)[|buf| - 1] == buf[|buf| - 1].(sn := Wrap(buf[|buf| - 1].sn))
  {
  }

  lemma LowRcvSnoc(buf: seq<RcvSeg>, x: RcvSeg)
    ensures LowRcv(buf + [x]) == LowRcv(buf) + [x.(sn := Wrap(x.sn))]
  {
  }

  lemma {:induction false} InsertSegLow(buf: seq<RcvSeg>, seg: RcvSeg)
    requires forall i | 0 <= i < |buf| :: -M31 <= seg.sn - buf[i].sn < M31
    ensures InsertSeg(Mod32, LowRcv(buf), seg.(sn := Wrap(seg.sn))) == LowRcv(InsertSeg(Exact, buf, seg))
  {
    if buf == [] {
      assert [] + [seg] == [seg];
      LowRcvSnoc([], seg);
    } else {
      hide LowRcv;
      var init, last := buf[..|buf| - 1], buf[|buf| - 1];
      DiffOfLow(seg.sn, last.sn);
      LowRcvEnds(buf);
      LowRcvSnoc(buf, seg);
      if seg.sn < last.sn {
        InsertSegLow(init, seg);
        LowRcvSnoc(InsertSeg(Exact, init, seg), last);
      }
    }
  }

  lemma {:induction false} DrainCountLow(buf: seq<RcvSeg>, nxt: int, room: int)
    requires forall i | 0 <= i < |buf| :: nxt + i <= buf[i].sn < nxt + M31
    ensures DrainCount(Mod32, LowRcv(buf), Wrap(nxt), room) == DrainCount(Exact, buf, nxt, room)
  {
    if buf != [] && room > 0 {
      hide LowRcv;
      DiffOfLow(buf[0].sn, nxt);
      LowRcvEnds(buf);
      if buf[0].sn == nxt {
        NormOfLow(nxt, 1);
        forall i | 0 <= i < |buf[1..]| ensures nxt + 1 + i <= buf[1..][i].sn < nxt + 1 + M31 {
          assert buf[1..][i] == buf[i + 1];
        }
        DrainCountLow(buf[1..], nxt + 1, room - 1);
      }
    }
  }

  lemma LowRcvCut(buf: seq<RcvSeg>, n: nat)
    requires n <= |buf|
    ensures LowRcv(buf)[n..] == LowRcv(buf[n..])
    ensures FragsOf(LowRcv(buf)[..n]) == FragsOf(buf[..n])
  {
  }

  lemma {:induction false} SortedSpread(buf: seq<RcvSeg>, nxt: int, i: nat)
    requires RcvSorted(buf) && i < |buf| && nxt <= buf[0].sn
    ensures nxt + i <= buf[i].sn
  {
    if i > 0 {
      SortedSpread(buf, nxt, i - 1);
      assert buf[i - 1].sn < buf[i].sn;
    }
  }

  lemma DrainLow(r: Receiver, rcvWnd: int)
    requires RcvSorted(r.buf) && RcvWithin(r.buf, r.nxt, r.nxt + M31)
    ensures Drain(Mod32, LowReceiver(r), rcvWnd) == LowReceiver(Drain(Exact, r, rcvWnd))
  {
    hide LowRcv, LowAcks, FragsOf, DrainCount;
    forall i | 0 <= i < |r.buf| ensures r.nxt + i <= r.buf[i].sn { SortedSpread(r.buf, r.nxt, i); }
    DrainCountLow(r.buf, r.nxt, rcvWnd - |r.queue|);
    var n := DrainCount(Exact, r.buf, r.nxt, rcvWnd - |r.queue|);
    LowRcvCut(r.buf, n);
    NormOfLow(r.nxt, n);
  }

  lemma LowAcksSnoc(acks: seq<AckItem>, a: AckItem)
    ensures LowAcks(acks + [a]) == LowAcks(acks) + [a.(sn := Wrap(a.sn))]
  {
  }

  /** Neither too far ahead of the receive window nor 2^31 behind its end. */
  predicate RecentFor(r: Receiver, rcvWnd: int, sn: int) {
    r.nxt + rcvWnd - M31 <= sn < r.nxt + rcvWnd + M31
  }

  /** Putting a segment in its place and moving what is ready. */
  lemma ParseDataLow(r: Receiver, rcvWnd: int, numbered: seq<Frag>, seg: RcvSeg)
    requires ReorderOk(r, rcvWnd, numbered) && rcvWnd < M31
    requires 0 <= seg.sn < |numbered| && seg.frag == numbered[seg.sn]
    requires r.nxt <= seg.sn < r.nxt + rcvWnd
    ensures ParseData(Mod32, LowReceiver(r), rcvWnd, seg.(sn := Wrap(seg.sn)))
         == LowReceiver(ParseData(Exact, r, rcvWnd, seg))
  {
    hide LowRcv, LowAcks, Drain, InsertSeg;
    DiffOfLow(seg.sn, r.nxt + rcvWnd);
    NormOfLow(r.nxt, rcvWnd);
    DiffOfLow(seg.sn, r.nxt);
    InsertSegLow(r.buf, seg);
    InsertSegExact(r.buf, seg, numbered);
    var r1 := r.(buf := InsertSeg(Exact, r.buf, seg));
    forall i | 0 <= i < |r1.buf| ensures r1.nxt <= r1.buf[i].sn < r1.nxt + M31 {
      assert Waiting(r1.buf, r1.buf[i].sn);
    }
    DrainLow(r1, rcvWnd);
  }

  lemma PushLow(r: Receiver, rcvWnd: int, numbered: seq<Frag>, w: Wire)
    requires ReceiverOk(r, rcvWnd, numbered) && 0 <= rcvWnd < M31
    requires w.cmd == CMD_PUSH && PushOk(w, numbered) && RecentFor(r, rcvWnd, w.sn)
    ensures Push(Mod32, LowReceiver(r), rcvWnd, Truncated(w)) == LowReceiver(Push(Exact, r, rcvWnd, w))
  {
    hide LowRcv, LowAcks, ParseData;
    DiffOfLow(w.sn, r.nxt + rcvWnd);
    NormOfLow(r.nxt, rcvWnd);
    if w.sn < r.nxt + rcvWnd {
      DiffOfLow(w.sn, r.nxt);
      LowAcksSnoc(r.acks, AckItem(w.sn, w.ts));
      if w.sn >= r.nxt {
        ParseDataLow(r.(acks := r.acks + [AckItem(w.sn, w.ts)]), rcvWnd, numbered, RcvSeg(w.sn, Frag(w.frg, w.data)));
      }
    }
  }

  // ----- input

  /** A wire that did not linger in the network for half the number range. */
  predicate TimelyWire(w: Wire, x: Node, y: Node) {
    && w.una >= |x.numbered| - M31
    && (w.cmd == CMD_ACK ==> w.sn >= |x.numbered| - M31)
    && (w.cmd == CMD_PUSH ==> w.sn >= |y.numbered| + x.k.ctl.rcvWnd - M31)
  }

  lemma HeldInWindow(r: Receiver, rcvWnd: nat, numbered: seq<Frag>, n: int)
    requires ReorderOk(r, rcvWnd, numbered)
    ensures Held(r, n) ==> n < r.nxt + rcvWnd
  {
  }

  /** The sender cannot run further ahead of the receiver than both windows together. */
  lemma NotFarAhead(s: Sender, numbered: seq<Frag>, r: Receiver, rcvWnd: nat)
    requires SenderOk(s, numbered) && NoLoss(s, r, numbered) && ReorderOk(r, rcvWnd, numbered)
    ensures |numbered| <= r.nxt + rcvWnd + 0xffff
  {
    var n := s.una - 1;
    InWindow(s, numbered, n);
    HeldInWindow(r, rcvWnd, numbered, n);
  }

  ghost predicate NewestRecent(m: Newest, nxt: int) {
    m.MaxAck? ==> RecentAt(nxt, m.sn)
  }

  function LowParse(p: Parse): Parse {
    Parse(Low(p.k), LowNewest(p.newest))
  }

  lemma MarkLow(m: Newest, nxt: int, sn: int)
    requires NewestRecent(m, nxt) && RecentAt(nxt, sn) && sn < nxt
    requires m.MaxAck? ==> m.sn < nxt
    ensures Mark(Mod32, LowNewest(m), Wrap(sn)) == LowNewest(Mark(Exact, m, sn))
    ensures NewestRecent(Mark(Exact, m, sn), nxt)
  {
    if m.MaxAck? {
      DiffOfLow(sn, m.sn);
    }
  }

  /** What reading one more segment relies on. */
  ghost predicate InputLive(x: Node, y: Node, p: Parse) {
    && InputKeeps(x.k, p, x.numbered, y)
    && NewestRecent(p.newest, |x.numbered|)
    && (p.newest.MaxAck? ==> p.newest.sn < |x.numbered|)
  }

  lemma RecentPush(x: Node, y: Node, p: Parse, w: Wire)
    requires PairOk(Pair(x, y)) && InputLive(x, y, p)
    requires w.cmd == CMD_PUSH && WireOk(w, y) && TimelyWire(w, x, y)
    ensures RecentFor(p.k.rcv, x.k.ctl.rcvWnd, w.sn)
  {
    NotFarAhead(y.k.snd, y.numbered, x.k.rcv, x.k.ctl.rcvWnd);
  }

  lemma AckBelowNxt(x: Node, y: Node, w: Wire)
    requires PairOk(Pair(x, y)) && WireOk(w, y) && w.cmd == CMD_ACK
    ensures 0 <= w.sn < |x.numbered|
  {
    if !(0 <= w.sn < y.k.rcv.nxt) {
      var i :| 0 <= i < |y.k.rcv.buf| && y.k.rcv.buf[i].sn == w.sn;
    }
  }

  lemma InputSegLow(x: Node, y: Node, p: Parse, w: Wire)
    requires PairOk(Pair(x, y)) && InputLive(x, y, p) && x.k.ctl.rcvWnd < M31
    requires WireOk(w, y) && TimelyWire(w, x, y)
    ensures InputSeg(Mod32, LowParse(p), Truncated(w)) == LowParse(InputSeg(Exact, p, w))
    ensures InputLive(x, y, InputSeg(Exact, p, w))
  {
    InputSegKeeps(x.k, p, w, x.numbered, y);
    if w.cmd == CMD_ACK {
      AckBelowNxt(x, y, w);
      MarkLow(p.newest, |x.numbered|, w.sn);
    }
    TakeAcksLow(p.k.snd, x.numbered, w);
    if w.cmd == CMD_PUSH {
      RecentPush(x, y, p, w);
      PushLow(p.k.rcv, x.k.ctl.rcvWnd, y.numbered, w);
    }
    InputSegShape(Mod32, LowParse(p), Truncated(w));
    InputSegShape(Exact, p, w);
  }

  /** The clock and window part of reading a segment, which no sequence number enters. */
  function InputControl(c: Control, w: Wire): Control {
    var c1 := c.(rmtWnd := w.wnd);
    if w.cmd == CMD_ACK then
      var rtt := Itimediff(c1.current, w.ts);
      if rtt >= 0 then UpdateAck(c1, rtt) else c1
    else if w.cmd == CMD_WASK then c1.(askTell := true)
    else c1
  }

  lemma InputSegShape(ar: Arith, p: Parse, w: Wire)
    ensures InputSeg(ar, p, w) == Parse(
              Kcb(TakeAcks(ar, p.k.snd, w),
                  if w.cmd == CMD_PUSH then Push(ar, p.k.rcv, p.k.ctl.rcvWnd, w) else p.k.rcv,
                  InputControl(p.k.ctl, w)),
              if w.cmd == CMD_ACK then Mark(ar, p.newest, w.sn) else p.newest)
  {
  }

  lemma TruncatedAllTail(ws: seq<Wire>)
    requires ws != []
    ensures TruncatedAll(ws)[1..] == TruncatedAll(ws[1..]) && TruncatedAll(ws)[0] == Truncated(ws[0])
  {
  }

  lemma {:induction false} InputSegsLow(x: Node, y: Node, p: Parse, ws: seq<Wire>)
    requires PairOk(Pair(x, y)) && InputLive(x, y, p) && x.k.ctl.rcvWnd < M31
    requires forall i | 0 <= i < |ws| :: WireOk(ws[i], y) && TimelyWire(ws[i], x, y)
    ensures InputSegs(Mod32, LowParse(p), TruncatedAll(ws)) == LowParse(InputSegs(Exact, p, ws))
    ensures InputLive(x, y, InputSegs(Exact, p, ws))
    decreases |ws|
  {
    if ws != [] {
      hide InputLive, WireOk, TimelyWire, InputSeg, LowParse, PairOk, TruncatedAll;
      InputSegLow(x, y, p, ws[0]);
      TruncatedAllTail(ws);
      InputSegsLow(x, y, InputSeg(Exact, p, ws[0]), ws[1..]);
    }
  }

  lemma InputTailLow(x: Node, y: Node, p: Parse)
    requires PairOk(Pair(x, y)) && InputLive(x, y, p)
    ensures InputTail(Mod32, Wrap(x.k.snd.una), LowParse(p)) == Low(InputTail(Exact, x.k.snd.una, p))
  {
    if p.newest.MaxAck? {
      ParseFastackLow(p.k.snd, x.numbered, p.newest.sn);
    }
    DiffOfLow(p.k.snd.una, x.k.snd.una);
  }

  lemma InputWiresLow(x: Node, y: Node, ws: seq<Wire>)
    requires PairOk(Pair(x, y)) && x.k.ctl.rcvWnd < M31
    requires forall i | 0 <= i < |ws| :: WireOk(ws[i], y) && TimelyWire(ws[i], x, y)
    ensures InputWires(Mod32, Low(x.k), TruncatedAll(ws)) == Low(InputWires(Exact, x.k, ws))
  {
    var start := Parse(x.k, NoAck);
    assert InputLive(x, y, start) by {
      assert x.k.rcv.queue + y.numbered[x.k.rcv.nxt..x.k.rcv.nxt] == x.k.rcv.queue;
    }
    InputSegsLow(x, y, start, ws);
    InputTailLow(x, y, InputSegs(Exact, start, ws));
  }

  // ----- flush

  lemma {:induction false} MoveCountLow(nxt: int, limit: int, queued: nat)
    requires -M31 <= nxt - limit < M31
    ensures MoveCount(Mod32, Wrap(nxt), Wrap(limit), queued) == MoveCount(Exact, nxt, limit, queued)
    decreases queued
  {
    DiffOfLow(nxt, limit);
    if queued > 0 && nxt < limit {
      NormOfLow(nxt, 1);
      MoveCountLow(nxt + 1, limit, queued - 1);
    }
  }

  lemma NumberedLow(c: Control, nxt: int, frags: seq<Frag>)
    ensures Numbered(Mod32, c, Wrap(nxt), frags) == LowSnd(Numbered(Exact, c, nxt, frags))
  {
    forall i | 0 <= i < |frags|
      ensures Numbered(Mod32, c, Wrap(nxt), frags)[i] == LowSnd(Numbered(Exact, c, nxt, frags))[i]
    {
      NormOfLow(nxt, i);
    }
  }

  lemma LowSndAppend(a: seq<SndSeg>, b: seq<SndSeg>)
    ensures LowSnd(a + b) == LowSnd(a) + LowSnd(b)
  {
  }

  lemma MoveLow(s: Sender, c: Control, numbered: seq<Frag>)
    requires SenderOk(s, numbered)
    ensures Move(Mod32, LowSender(s), c) == LowSender(Move(Exact, s, c))
  {
    var limit := s.una + SendWindow(c);
    NormOfLow(s.una, SendWindow(c));
    MoveCountLow(s.nxt, limit, |s.queue|);
    var n := MoveCount(Exact, s.nxt, limit, |s.queue|);
    NormOfLow(s.nxt, n);
    NumberedLow(c, s.nxt, s.queue[..n]);
    LowSndAppend(s.buf, Numbered(Exact, c, s.nxt, s.queue[..n]));
  }

  function LowStamp(t: Stamp): Stamp {
    t.(una := Wrap(t.una))
  }

  lemma LowSndInit(buf: seq<SndSeg>)
    requires buf != []
    ensures LowSnd(buf)[..|buf| - 1] == LowSnd(buf[..|buf| - 1])
    ensures LowSnd(buf)[|buf| - 1] == buf[|buf| - 1].(sn := Wrap(buf[|buf| - 1].sn))
  {
  }

  lemma TruncatedAllAppend(a: seq<Wire>, b: seq<Wire>)
    ensures TruncatedAll(a + b) == TruncatedAll(a) + TruncatedAll(b)
  {
  }

  function LowSweep(w: Sweep): Sweep {
    w.(buf := LowSnd(w.buf), wires := TruncatedAll(w.wires))
  }

  lemma SweepOneLow(t: Stamp, c: Control, w: Sweep, s: SndSeg)
    ensures SweepOne(LowStamp(t), c, LowSweep(w), s.(sn := Wrap(s.sn))) == LowSweep(SweepOne(t, c, w, s))
  {
    var a := TrySend(c, s);
    assert TrySend(c, s.(sn := Wrap(s.sn))) == a.(seg := a.seg.(sn := Wrap(a.seg.sn)));
    LowSndAppend(w.buf, [a.seg]);
    TruncatedAllAppend(w.wires, [DataWire(t, c, s)]);
  }

  lemma {:induction false} SweepAllLow(t: Stamp, c: Control, buf: seq<SndSeg>)
    ensures SweepAll(LowStamp(t), c, LowSnd(buf)) == LowSweep(SweepAll(t, c, buf))
  {
    if buf == [] {
    } else {
      hide LowSnd, SweepOne, LowSweep, LowStamp;
      LowSndInit(buf);
      SweepAllLow(t, c, buf[..|buf| - 1]);
      SweepOneLow(t, c, SweepAll(t, c, buf[..|buf| - 1]), buf[|buf| - 1]);
    }
  }

  lemma HeaderWiresLow(t: Stamp, c: Control, acks: seq<AckItem>)
    ensures AckWires(LowStamp(t), LowAcks(acks)) == TruncatedAll(AckWires(t, acks))
    ensures ProbeWires(LowStamp(t), c, LastAck(LowAcks(acks))) == TruncatedAll(ProbeWires(t, c, LastAck(acks)))
  {
    assert LastAck(LowAcks(acks)) == LastAck(acks).(sn := Wrap(LastAck(acks).sn));
  }

  lemma FinishFlushLow(k: Kcb, c: Control, s: Sender, w: Sweep)
    requires Config(c) == Config(k.ctl)
    ensures var f := FinishFlush(Exact, k, c, s, w);
            FinishFlush(Mod32, Low(k), c, LowSender(s), LowSweep(w)) == FlushResult(Low(f.k), TruncatedAll(f.wires))
  {
    hide Shrink, AckWires, ProbeWires, LastAck, LowAcks, SendWindow, TruncatedAll;
    var t := StampOf(k);
    assert StampOf(Low(k)) == LowStamp(t);
    HeaderWiresLow(t, c, k.rcv.acks);
    WrapOfDifference(s.nxt, s.una);
    TruncatedAllAppend(AckWires(t, k.rcv.acks), ProbeWires(t, c, LastAck(k.rcv.acks)));
    TruncatedAllAppend(AckWires(t, k.rcv.acks) + ProbeWires(t, c, LastAck(k.rcv.acks)), w.wires);
    LowAcksEmpty();
  }

  lemma FlushLow(k: Kcb, numbered: seq<Frag>)
    requires SenderOk(k.snd, numbered)
    ensures var f := Flush(Exact, k);
            Flush(Mod32, Low(k)) == FlushResult(Low(f.k), TruncatedAll(f.wires))
  {
    if k.ctl.updated {
      hide SweepAll, LowSnd, Move, ProbeTimer, FinishFlush, LowSweep;
      var t := StampOf(k);
      assert StampOf(Low(k)) == LowStamp(t);
      var c := ProbeTimer(k.ctl);
      MoveLow(k.snd, c, numbered);
      var s := Move(Exact, k.snd, c);
      SweepAllLow(t, c, s.buf);
      FinishFlushLow(k, c, s, SweepAll(t, c, s.buf));
    } else {
      assert TruncatedAll([]) == [];
    }
  }

  lemma LowAcksEmpty()
    ensures LowAcks([]) == []
  {
  }

  // ----- packing and encoding do not see the high bits

  lemma {:induction false} EncodeTruncated(ws: seq<Wire>)
    ensures EncodeAll(TruncatedAll(ws)) == EncodeAll(ws)
    ensures TotalSize(TruncatedAll(ws)) == TotalSize(ws)
  {
    if ws != [] {
      var init, w := ws[..|ws| - 1], ws[|ws| - 1];
      EncodeTruncated(init);
      TruncatedAllStep(ws);
      assert TruncatedAll(ws)[..|ws| - 1] == TruncatedAll(init);
      assert TruncatedAll(ws)[|ws| - 1] == Truncated(w);
      assert EncodeSeg(Truncated(w)) == EncodeSeg(w) by {
        assert Wrap(Wrap(w.sn)) == Wrap(w.sn) && Wrap(Wrap(w.una)) == Wrap(w.una);
        assert EncodeHeader(Truncated(w)) == EncodeHeader(w);
      }
      hide EncodeSeg;
    }
  }

  function TruncatedEach(ds: seq<seq<Wire>>): (r: seq<seq<Wire>>)
    ensures |r| == |ds|
    ensures forall i | 0 <= i < |ds| :: r[i] == TruncatedAll(ds[i])
  {
    seq(|ds|, i requires 0 <= i < |ds| => TruncatedAll(ds[i]))
  }

  function LowPacking(p: Packing): Packing {
    Packing(TruncatedEach(p.closed), TruncatedAll(p.open))
  }

  lemma PackOneLow(mtu: nat, p: Packing, w: Wire)
    ensures PackOne(mtu, LowPacking(p), Truncated(w)) == LowPacking(PackOne(mtu, p, w))
  {
    EncodeTruncated(p.open);
    TruncatedAllAppend(p.open, [w]);
    assert TruncatedAll([w]) == [Truncated(w)];
    assert TruncatedEach(p.closed + [p.open]) == TruncatedEach(p.closed) + [TruncatedAll(p.open)];
  }

  lemma {:induction false} PackAllLow(mtu: nat, ws: seq<Wire>)
    ensures PackAll(mtu, Packing([], []), TruncatedAll(ws)) == LowPacking(PackAll(mtu, Packing([], []), ws))
  {
    if ws == [] {
    } else {
      var init, w := ws[..|ws| - 1], ws[|ws| - 1];
      TruncatedAllStep(ws);
      assert TruncatedAll(ws)[..|ws| - 1] == TruncatedAll(init);
      assert TruncatedAll(ws)[|ws| - 1] == Truncated(w);
      PackAllLow(mtu, init);
      PackOneLow(mtu, PackAll(mtu, Packing([], []), init), w);
    }
  }

  lemma PackLow(mtu: nat, ws: seq<Wire>)
    ensures Pack(mtu, TruncatedAll(ws)) == TruncatedEach(Pack(mtu, ws))
  {
    PackAllLow(mtu, ws);
    var p := PackAll(mtu, Packing([], []), ws);
    assert TruncatedEach(p.closed + [p.open]) == TruncatedEach(p.closed) + [TruncatedAll(p.open)];
  }

  lemma EncodeEachTruncated(ds: seq<seq<Wire>>)
    ensures EncodeEach(TruncatedEach(ds)) == EncodeEach(ds)
  {
    forall i | 0 <= i < |ds| ensures EncodeEach(TruncatedEach(ds))[i] == EncodeEach(ds)[i] {
      EncodeTruncated(ds[i]);
    }
  }

  // ----- the two systems in step

  /** The endpoint is the low part of its twin, and its log the twin's log in bytes. */
  ghost predicate InStep(e: End, n: Node) {
    e.k == Low(n.k) && e.user == n.user && e.out == EncodeEach(n.out)
  }

  /** Whatever is delivered is recent enough to be told apart by its low 32 bits. */
  ghost predicate Timely(x: Node, y: Node, op: Op) {
    op.Deliver? && op.i < |y.out| ==>
      forall j | 0 <= j < |y.out[op.i]| :: TimelyWire(y.out[op.i][j], x, y)
  }

  lemma EncodeEachAppend(a: seq<seq<Wire>>, b: seq<seq<Wire>>)
    ensures EncodeEach(a + b) == EncodeEach(a) + EncodeEach(b)
  {
  }

  lemma EmitInStep(e: End, n: Node, f: FlushResult)
    requires InStep(e, n)
    ensures InStep(Emit(e, FlushResult(Low(f.k), TruncatedAll(f.wires))), EmitExact(n, f))
  {
    PackLow(n.k.ctl.mtu, f.wires);
    EncodeEachTruncated(Pack(n.k.ctl.mtu, f.wires));
    EncodeEachAppend(n.out, Pack(n.k.ctl.mtu, f.wires));
  }

  lemma FlushInStep(e: End, x: Node, y: Node, c: Control)
    requires PairOk(Pair(x, y)) && InStep(e, x)
    ensures InStep(Emit(e, Flush(Mod32, e.k.(ctl := c))), EmitExact(x, Flush(Exact, x.k.(ctl := c))))
  {
    hide Flush, Emit, EmitExact;
    FlushLow(x.k.(ctl := c), x.numbered);
    EmitInStep(e, x, Flush(Exact, x.k.(ctl := c)));
  }

  lemma UpdateInStep(e: End, x: Node, y: Node, now: u32)
    requires PairOk(Pair(x, y)) && InStep(e, x)
    ensures InStep(Act(e, EncodeEach(y.out), DoUpdate(now)), ActExact(x, y.out, DoUpdate(now)))
  {
    hide Flush;
    var (c, due) := Tick(x.k.ctl, now);
    if due {
      FlushInStep(e, x, y, c);
    } else {
      assert TruncatedAll([]) == [];
      EmitInStep(e, x, FlushResult(x.k.(ctl := c), []));
    }
  }

  lemma RecvLow(k: Kcb, len: int, numbered: seq<Frag>)
    requires ReceiverOk(k.rcv, k.ctl.rcvWnd, numbered) && k.ctl.rcvWnd < M31
    ensures var r := Recv(Exact, k, len);
            Recv(Mod32, Low(k), len) == RecvResult(Low(r.k), r.code, r.data)
  {
    var n := MessageLength(k.rcv.queue);
    var taken := if len < 0 then k.rcv else k.rcv.(queue := k.rcv.queue[n..]);
    assert LowReceiver(taken) == if len < 0 then LowReceiver(k.rcv) else LowReceiver(k.rcv).(queue := k.rcv.queue[n..]);
    assert PeekSize(LowReceiver(k.rcv)) == PeekSize(k.rcv);
    hide PeekSize, MessageLength, Bytes, Drain, LowRcv, LowAcks;
    DrainLow(taken, k.ctl.rcvWnd);
  }

  lemma RecvInStep(e: End, x: Node, y: Node, len: int)
    requires PairOk(Pair(x, y)) && InStep(e, x) && x.k.ctl.rcvWnd < M31
    ensures InStep(Act(e, EncodeEach(y.out), DoRecv(len)), ActExact(x, y.out, DoRecv(len)))
  {
    hide Recv;
    RecvLow(x.k, len, y.numbered);
  }

  lemma DeliverInStep(e: End, x: Node, y: Node, i: nat)
    requires PairOk(Pair(x, y)) && InStep(e, x) && x.k.ctl.rcvWnd < M31
    requires Timely(x, y, Deliver(i))
    ensures InStep(Act(e, EncodeEach(y.out), Deliver(i)), ActExact(x, y.out, Deliver(i)))
  {
    if i < |y.out| {
      var d := y.out[i];
      assert DatagramOk(d, y);
      forall j | 0 <= j < |d| ensures WireOk(d[j], y) && TimelyWire(d[j], x, y) {}
      hide PairOk, InputWires, TimelyWire, Input, EncodeAll, TruncatedAll;
      InputOfEncoded(e.k, y, d);
      InputWiresLow(x, y, d);
    }
  }

  /** Reading the bytes of a datagram is reading its segments. */
  lemma InputOfEncoded(k: Kcb, y: Node, d: seq<Wire>)
    requires DatagramOk(d, y) && k.ctl.conv == y.k.ctl.conv
    ensures Input(k, EncodeAll(d)) == (InputWires(Mod32, k, TruncatedAll(d)), 0)
  {
    forall j | 0 <= j < |d| ensures Readable(k.ctl.conv, d[j]) { assert WireOk(d[j], y); }
    assert TotalSize(d) >= OVERHEAD;
    hide InputWires;
    ReadEncoded(k.ctl.conv, d);
  }

  lemma ActInStep(e: End, x: Node, y: Node, op: Op)
    requires PairOk(Pair(x, y)) && InStep(e, x) && x.k.ctl.rcvWnd < M31
    requires Timely(x, y, op)
    ensures InStep(Act(e, EncodeEach(y.out), op), ActExact(x, y.out, op))
  {
    match op
    case DoSend(data) =>
    case DoRecv(len) => RecvInStep(e, x, y, len);
    case DoUpdate(now) => UpdateInStep(e, x, y, now);
    case DoFlush => FlushInStep(e, x, y, x.k.ctl);
    case Deliver(i) => DeliverInStep(e, x, y, i);
  }
}
