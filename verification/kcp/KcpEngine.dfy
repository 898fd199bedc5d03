/**
 The transport control block as the program keeps it: an object whose fields the
 operations assign, queues spliced in loops, and datagrams written byte by byte into a
 scratch buffer. Each operation is proved to compute its function on the block's value.
 */
module KcpEngine {
  import opened Arithmetic32
  import opened KcpWire
  import opened KcpState

  // ----- writing into the scratch buffer

  method Put16(buf: array<byte>, p: nat, x: u16) returns (q: nat)
    requires p + 2 <= buf.Length
    modifies buf
    ensures q == p + 2
    ensures buf[..q] == old(buf[..p]) + Encode16(x)
  {
    buf[p] := x % 256;
    buf[p + 1] := x / 256;
    q := p + 2;
  }

  method Put32(buf: array<byte>, p: nat, x: u32) returns (q: nat)
    requires p + 4 <= buf.Length
    modifies buf
    ensures q == p + 4
    ensures buf[..q] == old(buf[..p]) + Encode32(x)
  {
    buf[p] := x % 256;
    buf[p + 1] := x / 0x100 % 256;
    buf[p + 2] := x / 0x1_0000 % 256;
    buf[p + 3] := x / 0x100_0000;
    q := p + 4;
  }

  method PutHeader(buf: array<byte>, p: nat, w: Wire) returns (q: nat)
    requires p + OVERHEAD <= buf.Length
    modifies buf
    ensures q == p + OVERHEAD
    ensures buf[..q] == old(buf[..p]) + EncodeHeader(w)
  {
    hide Encode32, Encode16;
    q := Put32(buf, p, w.conv);
    ghost var s := buf[..q];
    buf[q] := w.cmd;
    buf[q + 1] := w.frg;
    q := q + 2;
    assert buf[..q] == s + [w.cmd, w.frg];
    q := Put16(buf, q, w.wnd);
    q := Put32(buf, q, w.ts);
    q := Put32(buf, q, Wrap(w.sn));
    q := Put32(buf, q, Wrap(w.una));
    q := Put32(buf, q, Wrap(|w.data|));
    HeaderInParts(old(buf[..p]), w);
  }

  lemma HeaderInParts(s: seq<byte>, w: Wire)
    ensures s + Encode32(w.conv) + [w.cmd, w.frg] + Encode16(w.wnd) + Encode32(w.ts)
            + Encode32(Wrap(w.sn)) + Encode32(Wrap(w.una)) + Encode32(Wrap(|w.data|))
         == s + EncodeHeader(w)
  {
    hide Encode32, Encode16;
  }

  method PutSeg(buf: array<byte>, p: nat, w: Wire) returns (q: nat)
    requires p + Size(w) <= buf.Length
    modifies buf
    ensures q == p + Size(w)
    ensures buf[..q] == old(buf[..p]) + EncodeSeg(w)
  {
    hide EncodeHeader;
    q := PutHeader(buf, p, w);
    ghost var before := buf[..q];
    forall i | 0 <= i < |w.data| { buf[q + i] := w.data[i]; }
    q := q + |w.data|;
    assert buf[..q] == before + w.data;
    Associate(old(buf[..p]), EncodeHeader(w), w.data);
  }

  // ----- the control block

  /**
   The sequence numbers, queues, counters and buffer are fields of their own; the settings,
   timers and congestion variables are grouped in the record `ctl`.
   */
  class Ikcpcb {
    var ctl: Control
    var mss: u32
    var sndUna: u32
    var sndNxt: u32
    var rcvNxt: u32
    var sndQueue: seq<Frag>
    var rcvQueue: seq<Frag>
    var sndBuf: seq<SndSeg>
    var rcvBuf: seq<RcvSeg>
    var nsndQue: nat
    var nrcvQue: nat
    var nsndBuf: nat
    var nrcvBuf: nat
    var acklist: seq<AckItem>
    var buffer: array<byte>

    /** The counters agree with the lists, and the scratch buffer has its size. */
    ghost predicate Valid()
      reads this
    {
      && mss == Mss(ctl)
      && Counted()
      && InRange(sndBuf)
      && buffer.Length == (ctl.mtu as int + OVERHEAD) * 3
    }

    ghost predicate Counted()
      reads this
    {
      nrcvBuf == |rcvBuf| && nsndBuf == |sndBuf| && nrcvQue == |rcvQueue| && nsndQue == |sndQueue|
    }

    ghost function Snd(): Sender
      reads this
    {
      Sender(sndUna, sndNxt, sndQueue, sndBuf)
    }

    ghost function Rcv(): Receiver
      reads this
    {
      Receiver(rcvNxt, rcvQueue, rcvBuf, acklist)
    }

    /** The value of the block. */
    ghost function Block(): Kcb
      reads this
    {
      Kcb(Snd(), Rcv(), ctl)
    }

    constructor (conv: u32)
      ensures Valid() && fresh(buffer)
      ensures Block() == Create(conv)
    {
      ctl := Create(conv).ctl;
      mss := 1400 - OVERHEAD;
      sndUna, sndNxt, rcvNxt := 0, 0, 0;
      sndQueue, rcvQueue, sndBuf, rcvBuf, acklist := [], [], [], [], [];
      nsndQue, nrcvQue, nsndBuf, nrcvBuf := 0, 0, 0, 0;
      buffer := new byte[(1400 + OVERHEAD) * 3];
    }

    // ----- sending and receiving messages

    /** Stream mode: fills up the last queued segment. */
    method ExtendLast(data: seq<byte>) returns (extend: nat)
      requires Valid() && ctl.stream
      modifies this`sndQueue
      ensures Valid()
      ensures extend == Extension(old(Snd()), ctl, data) <= |data|
      ensures Snd() == Extend(old(Snd()), ctl, data)
    {
      extend := 0;
      if sndQueue != [] {
        var last := sndQueue[|sndQueue| - 1];
        if |last.data| < mss {
          var capacity := mss - |last.data|;
          extend := if |data| < capacity then |data| else capacity;
          sndQueue := sndQueue[..|sndQueue| - 1] + [Frag(0, last.data + data[..extend])];
        }
      }
    }

    method QueueFragments(data: seq<byte>, count: nat)
      requires Valid() && count < WND_RCV
      modifies this`sndQueue, this`nsndQue
      ensures Valid()
      ensures sndQueue == old(sndQueue) + Fragments(mss, data, count, ctl.stream)
    {
      var rest := data;
      var i := 0;
      while i < count
        invariant 0 <= i <= count
        invariant nsndQue == |sndQueue|
        invariant old(sndQueue) + Fragments(mss, data, count, ctl.stream)
               == sndQueue + Fragments(mss, rest, count - i, ctl.stream)
      {
        var size := if |rest| > mss then mss else |rest|;
        sndQueue := sndQueue + [Frag(if ctl.stream then 0 else count - i - 1, rest[..size])];
        nsndQue := nsndQue + 1;
        rest := rest[size..];
        i := i + 1;
      }
    }

    method Send(data: seq<byte>) returns (code: int)
      requires Valid()
      modifies this`sndQueue, this`nsndQue
      ensures Valid()
      ensures (Block(), code) == KcpState.Send(old(Block()), data)
    {
      hide Fragments;
      var rest := data;
      if ctl.stream {
        var extend := ExtendLast(data);
        rest := data[extend..];
        if |rest| == 0 {
          return 0;
        }
      }
      var count: int := 1;
      if |rest| > mss {
        count := (|rest| + mss - 1) / mss;
      }
      if count >= WND_RCV {
        return -2;
      }
      QueueFragments(rest, count);
      return 0;
    }

    method PeekSizeOf() returns (length: int)
      requires Valid()
      ensures length == PeekSize(Rcv())
    {
      if rcvQueue == [] {
        return -1;
      }
      if rcvQueue[0].frg == 0 {
        return |rcvQueue[0].data|;
      }
      if nrcvQue < rcvQueue[0].frg as int + 1 {
        return -1;
      }
      length := 0;
      var p := 0;
      while p < |rcvQueue|
        invariant 0 <= p <= |rcvQueue|
        invariant length == |Bytes(rcvQueue[..p])|
        invariant MessageLength(rcvQueue) == p + MessageLength(rcvQueue[p..])
      {
        length := length + |rcvQueue[p].data|;
        assert rcvQueue[..p + 1][..p] == rcvQueue[..p];
        p := p + 1;
        if rcvQueue[p - 1].frg == 0 {
          break;
        }
      }
      assert p == MessageLength(rcvQueue);
    }

    /** The loop that closes both `ikcp_recv` and `ikcp_parse_data`. */
    method MoveReady()
      requires nrcvBuf == |rcvBuf| && nrcvQue == |rcvQueue|
      modifies this`rcvBuf, this`nrcvBuf, this`rcvQueue, this`nrcvQue, this`rcvNxt
      ensures nrcvBuf == |rcvBuf| && nrcvQue == |rcvQueue|
      ensures Rcv() == Drain(Mod32, old(Rcv()), ctl.rcvWnd)
    {
      hide Drain, Wrap;
      while rcvBuf != []
        invariant nrcvBuf == |rcvBuf| && nrcvQue == |rcvQueue|
        invariant Drain(Mod32, Rcv(), ctl.rcvWnd) == Drain(Mod32, old(Rcv()), ctl.rcvWnd)
        decreases |rcvBuf|
      {
        var seg := rcvBuf[0];
        if seg.sn == rcvNxt && nrcvQue < ctl.rcvWnd {
          ghost var before := Rcv();
          rcvBuf := rcvBuf[1..];
          nrcvBuf := nrcvBuf - 1;
          rcvQueue := rcvQueue + [seg.frag];
          nrcvQue := nrcvQue + 1;
          rcvNxt := Wrap(rcvNxt + 1);
          DrainStep(before, ctl.rcvWnd);
        } else {
          break;
        }
      }
      DrainDone(Rcv(), ctl.rcvWnd);
    }

    /** Merges the fragments of the head message, taking them off the queue unless peeking. */
    method Merge(ispeek: bool) returns (data: seq<byte>)
      requires nrcvQue == |rcvQueue|
      modifies this`rcvQueue, this`nrcvQue
      ensures nrcvQue == |rcvQueue|
      ensures var n := MessageLength(old(rcvQueue));
              && data == Bytes(old(rcvQueue)[..n])
              && rcvQueue == if ispeek then old(rcvQueue) else old(rcvQueue)[n..]
    {
      ghost var queue := rcvQueue;
      data := [];
      var p := 0;
      ghost var i := 0;
      while p < |rcvQueue|
        invariant 0 <= p <= |rcvQueue| && 0 <= i <= |queue|
        invariant p == (if ispeek then i else 0)
        invariant nrcvQue == |rcvQueue|
        invariant rcvQueue == if ispeek then queue else queue[i..]
        invariant data == Bytes(queue[..i])
        invariant MessageLength(queue) == i + MessageLength(queue[i..])
        decreases |queue| - i
      {
        var seg := rcvQueue[p];
        assert queue[..i + 1][..i] == queue[..i];
        data := data + seg.data;
        if ispeek {
          p := p + 1;
        } else {
          rcvQueue := rcvQueue[1..];
          nrcvQue := nrcvQue - 1;
        }
        i := i + 1;
        if seg.frg == 0 {
          break;
        }
      }
    }

    method Recv(len: int) returns (code: int, data: seq<byte>)
      requires Valid()
      modifies this`rcvBuf, this`nrcvBuf, this`rcvQueue, this`nrcvQue, this`rcvNxt, this`ctl
      ensures Valid()
      ensures RecvResult(Block(), code, data) == KcpState.Recv(Mod32, old(Block()), len)
    {
      hide PeekSize, MessageLength, Bytes, Drain;
      data := [];
      if rcvQueue == [] {
        return -1, [];
      }
      var peek := PeekSizeOf();
      if peek < 0 {
        return -2, [];
      }
      if peek > (if len < 0 then -len else len) {
        return -3, [];
      }
      var recover := nrcvQue >= ctl.rcvWnd;
      data := Merge(len < 0);
      MoveReady();
      if nrcvQue < ctl.rcvWnd && recover {
        ctl := ctl.(askTell := true);
      }
      code := |data|;
    }

    // ----- acknowledgements

    method UpdateAckTimes(rtt: nat)
      modifies this`ctl
      ensures ctl == UpdateAck(old(ctl), rtt)
    {
      var srtt, rttval := ctl.rxSrtt, ctl.rxRttval;
      if srtt == 0 {
        srtt := rtt;
        rttval := rtt / 2;
      } else {
        var delta := if rtt - srtt < 0 then srtt - rtt else rtt - srtt;
        rttval := (3 * rttval + delta) / 4;
        srtt := (7 * srtt + rtt) / 8;
        if srtt < 1 {
          srtt := 1;
        }
      }
      assert srtt == NextSrtt(ctl, rtt) && rttval == NextRttval(ctl, rtt);
      hide NextSrtt, NextRttval, Wrap;
      var rto := Wrap(srtt + Max(ctl.interval, Wrap(4 * rttval)));
      var bounded := Bound(ctl.rxMinrto, rto, RTO_MAX);
      assert bounded == NextRto(ctl, srtt, rttval);
      hide NextRto, Bound;
      ctl := ctl.(rxSrtt := srtt, rxRttval := rttval, rxRto := bounded);
    }

    method ShrinkBuffer()
      requires InRange(sndBuf)
      modifies this`sndUna
      ensures Snd() == ShrinkBuf(old(Snd()))
    {
      if sndBuf != [] {
        sndUna := sndBuf[0].sn;
      } else {
        sndUna := sndNxt;
      }
    }

    method ParseUnaOf(una: u32)
      requires nsndBuf == |sndBuf| && InRange(sndBuf)
      modifies this`sndBuf, this`nsndBuf
      ensures nsndBuf == |sndBuf| && InRange(sndBuf)
      ensures sndBuf == ParseUna(Mod32, old(sndBuf), una)
    {
      while sndBuf != []
        invariant nsndBuf == |sndBuf| && InRange(sndBuf)
        invariant ParseUna(Mod32, sndBuf, una) == ParseUna(Mod32, old(sndBuf), una)
        decreases |sndBuf|
      {
        if Itimediff(una, sndBuf[0].sn) > 0 {
          sndBuf := sndBuf[1..];
          nsndBuf := nsndBuf - 1;
        } else {
          break;
        }
      }
    }

    method ParseAckOf(sn: u32)
      requires nsndBuf == |sndBuf| && InRange(sndBuf)
      modifies this`sndBuf, this`nsndBuf
      ensures nsndBuf == |sndBuf| && InRange(sndBuf)
      ensures Snd() == ParseAck(Mod32, old(Snd()), sn)
    {
      if Itimediff(sn, sndUna) < 0 || Itimediff(sn, sndNxt) >= 0 {
        return;
      }
      var p := 0;
      while p < |sndBuf|
        invariant 0 <= p <= |sndBuf|
        invariant RemoveAcked(Mod32, sndBuf, sn) == sndBuf[..p] + RemoveAcked(Mod32, sndBuf[p..], sn)
        invariant sndBuf == old(sndBuf) && nsndBuf == |sndBuf|
      {
        if sn == sndBuf[p].sn {
          sndBuf := sndBuf[..p] + sndBuf[p + 1..];
          nsndBuf := nsndBuf - 1;
          return;
        }
        if Itimediff(sn, sndBuf[p].sn) < 0 {
          return;
        }
        p := p + 1;
      }
    }

    method ParseFastackOf(sn: u32)
      requires nsndBuf == |sndBuf| && InRange(sndBuf)
      modifies this`sndBuf
      ensures nsndBuf == |sndBuf| && InRange(sndBuf)
      ensures Snd() == ParseFastack(Mod32, old(Snd()), sn)
    {
      if Itimediff(sn, sndUna) < 0 || Itimediff(sn, sndNxt) >= 0 {
        return;
      }
      BumpAll(sn);
    }

    method BumpAll(sn: u32)
      requires InRange(sndBuf)
      modifies this`sndBuf
      ensures |sndBuf| == |old(sndBuf)| && InRange(sndBuf)
      ensures sndBuf == BumpFastack(Mod32, old(sndBuf), sn)
    {
      hide BumpFastack;
      ghost var buf := sndBuf;
      assert sndBuf[..0] + BumpFastack(Mod32, buf[0..], sn) == BumpFastack(Mod32, buf, sn) by { assert buf[0..] == buf; }
      var p := 0;
      while p < |sndBuf|
        invariant 0 <= p <= |sndBuf| == |buf| && InRange(sndBuf)
        invariant sndBuf[p..] == buf[p..]
        invariant sndBuf[..p] + BumpFastack(Mod32, buf[p..], sn) == BumpFastack(Mod32, buf, sn)
      {
        BumpFastackHead(buf[p..], sn);
        assert buf[p..][1..] == buf[p + 1..] && buf[p..][0] == sndBuf[p];
        var seg := sndBuf[p];
        ghost var done := sndBuf[..p];
        if Itimediff(sn, seg.sn) < 0 {
          assert sndBuf == done + sndBuf[p..];
          return;
        } else if sn != seg.sn {
          sndBuf := sndBuf[p := seg.(fastack := Wrap(seg.fastack + 1))];
        }
        assert sndBuf[..p + 1] == done + [sndBuf[p]];
        Associate(done, [sndBuf[p]], BumpFastack(Mod32, buf[p + 1..], sn));
        p := p + 1;
      }
      BumpFastackEnd(sn);
    }

    // ----- data

    /** Searches the reorder buffer from the back for the segment's place. */
    method ParseDataOf(seg: RcvSeg)
      requires nrcvBuf == |rcvBuf| && nrcvQue == |rcvQueue|
      modifies this`rcvBuf, this`nrcvBuf, this`rcvQueue, this`nrcvQue, this`rcvNxt
      ensures nrcvBuf == |rcvBuf| && nrcvQue == |rcvQueue|
      ensures Rcv() == ParseData(Mod32, old(Rcv()), ctl.rcvWnd, seg)
    {
      if Itimediff(seg.sn, Wrap(rcvNxt + ctl.rcvWnd)) >= 0 || Itimediff(seg.sn, rcvNxt) < 0 {
        return;
      }
      InsertInOrder(seg);
      MoveReady();
    }

    method InsertInOrder(seg: RcvSeg)
      requires nrcvBuf == |rcvBuf|
      modifies this`rcvBuf, this`nrcvBuf
      ensures nrcvBuf == |rcvBuf|
      ensures rcvBuf == InsertSeg(Mod32, old(rcvBuf), seg)
    {
      hide InsertSeg;
      var repeated := false;
      var p := |rcvBuf|;
      assert rcvBuf[..p] == rcvBuf;
      while p > 0
        invariant 0 <= p <= |rcvBuf| == nrcvBuf && rcvBuf == old(rcvBuf)
        invariant InsertSeg(Mod32, rcvBuf, seg) == InsertSeg(Mod32, rcvBuf[..p], seg) + rcvBuf[p..]
      {
        InsertBack(rcvBuf, p, seg);
        if rcvBuf[p - 1].sn == seg.sn {
          repeated := true;
          break;
        }
        if Itimediff(seg.sn, rcvBuf[p - 1].sn) > 0 {
          break;
        }
        p := p - 1;
      }
      if !repeated {
        InsertFirst(rcvBuf, seg);
        rcvBuf := rcvBuf[..p] + [seg] + rcvBuf[p..];
        nrcvBuf := nrcvBuf + 1;
      }
    }

    // ----- ikcp_input

    method TakePush(w: Wire)
      requires Valid() && 0 <= w.sn < M32
      modifies this`rcvBuf, this`nrcvBuf, this`rcvQueue, this`nrcvQue, this`rcvNxt, this`acklist
      ensures Valid()
      ensures Rcv() == Push(Mod32, old(Rcv()), ctl.rcvWnd, w)
    {
      hide ParseData;
      if Itimediff(w.sn, Wrap(rcvNxt + ctl.rcvWnd)) < 0 {
        acklist := acklist + [AckItem(w.sn, w.ts)];
        if Itimediff(w.sn, rcvNxt) >= 0 {
          ParseDataOf(RcvSeg(w.sn, Frag(w.frg, w.data)));
        }
      }
    }

    method TakeAck(w: Wire)
      requires Valid() && 0 <= w.sn < M32
      modifies this`ctl, this`sndUna, this`sndBuf, this`nsndBuf
      ensures Valid()
      ensures Snd() == ShrinkBuf(ParseAck(Mod32, old(Snd()), w.sn))
      ensures var rtt := Itimediff(old(ctl.current), w.ts);
              ctl == if rtt >= 0 then UpdateAck(old(ctl), rtt) else old(ctl)
    {
      hide UpdateAck, ParseAck;
      if Itimediff(ctl.current, w.ts) >= 0 {
        UpdateAckTimes(Itimediff(ctl.current, w.ts));
      }
      ParseAckOf(w.sn);
      ShrinkBuffer();
    }

    /** What one well-formed segment of a datagram does. */
    method InputOne(w: Wire, flag: bool, maxack: u32) returns (flag': bool, maxack': u32)
      requires Valid() && 0 <= w.sn < M32 && 0 <= w.una < M32
      modifies this`ctl, this`sndUna, this`sndBuf, this`nsndBuf, this`rcvBuf, this`nrcvBuf
      modifies this`rcvQueue, this`nrcvQue, this`rcvNxt, this`acklist
      ensures Valid()
      ensures Parse(Block(), NewestOf(flag', maxack'))
           == InputSeg(Mod32, Parse(old(Block()), NewestOf(flag, maxack)), w)
    {
      hide ParseUna, ParseAck, UpdateAck, Push, ShrinkBuf;
      flag', maxack' := flag, maxack;
      ctl := ctl.(rmtWnd := w.wnd);
      ParseUnaOf(w.una);
      ShrinkBuffer();
      if w.cmd == CMD_ACK {
        TakeAck(w);
        if !flag {
          flag', maxack' := true, w.sn;
        } else if Itimediff(w.sn, maxack) > 0 {
          maxack' := w.sn;
        }
      } else if w.cmd == CMD_PUSH {
        TakePush(w);
      } else if w.cmd == CMD_WASK {
        ctl := ctl.(askTell := true);
      }
    }

    /** Lets the congestion window grow after the send window moved. */
    method GrowWindow()
      requires mss == Mss(ctl)
      modifies this`ctl
      ensures ctl == Grow(old(ctl)) && mss == Mss(ctl)
    {
      hide AvoidanceStep, CeilDiv, Wrap;
      if ctl.cwnd < ctl.rmtWnd {
        if ctl.cwnd < ctl.ssthresh {
          ctl := ctl.(cwnd := Wrap(ctl.cwnd + 1), incr := Wrap(ctl.incr + mss));
          assert ctl == SlowStart(old(ctl));
        } else {
          var incr, cwnd := AvoidanceStep(ctl.incr, mss), ctl.cwnd;
          if Wrap(Wrap(ctl.cwnd + 1) * mss) <= incr {
            cwnd := CeilDiv(incr, mss);
          }
          ctl := ctl.(incr := incr, cwnd := cwnd);
          assert ctl == Avoidance(old(ctl));
        }
        hide SlowStart, Avoidance;
        if ctl.cwnd > ctl.rmtWnd {
          ctl := ctl.(cwnd := ctl.rmtWnd, incr := Wrap(ctl.rmtWnd * mss));
        }
      }
    }

    /** The reading loop; stops at the first malformed segment. */
    method ReadSegments(data: seq<byte>) returns (code: int, flag: bool, maxack: u32)
      requires Valid()
      modifies this`ctl, this`sndUna, this`sndBuf, this`nsndBuf, this`rcvBuf, this`nrcvBuf
      modifies this`rcvQueue, this`nrcvQue, this`rcvNxt, this`acklist
      ensures Valid()
      ensures var r := Read(old(ctl.conv), data);
              && code == r.code
              && Parse(Block(), NewestOf(flag, maxack)) == InputSegs(Mod32, Parse(old(Block()), NoAck), r.segs)
    {
      hide InputSeg, DecodeHeader, KnownCommand;
      flag, maxack := false, 0;
      ghost var start := Parse(old(Block()), NoAck);
      ghost var whole := Read(ctl.conv, data);
      var rest := data;
      while |rest| >= OVERHEAD
        invariant Valid() && ctl.conv == old(ctl.conv)
        invariant whole.code == Read(ctl.conv, rest).code
        invariant InputSegs(Mod32, start, whole.segs)
               == InputSegs(Mod32, Parse(Block(), NewestOf(flag, maxack)), Read(ctl.conv, rest).segs)
        decreases |rest|
      {
        var h := DecodeHeader(rest);
        if h.conv != ctl.conv {
          code := -1;
          return;
        }
        if |rest| - OVERHEAD < h.len || h.len >= M31 {
          code := -2;
          return;
        }
        if !KnownCommand(h.cmd) {
          code := -3;
          return;
        }
        ghost var tail := Read(ctl.conv, rest[OVERHEAD + h.len..]);
        flag, maxack := InputOne(ToWire(h, rest[OVERHEAD..OVERHEAD + h.len]), flag, maxack);
        assert Read(ctl.conv, rest).segs[1..] == tail.segs;
        rest := rest[OVERHEAD + h.len..];
      }
      code := 0;
    }

    method Input(data: seq<byte>) returns (code: int)
      requires Valid()
      modifies this`ctl, this`sndUna, this`sndBuf, this`nsndBuf, this`rcvBuf, this`nrcvBuf
      modifies this`rcvQueue, this`nrcvQue, this`rcvNxt, this`acklist
      ensures Valid()
      ensures (Block(), code) == KcpState.Input(old(Block()), data)
    {
      hide ParseFastack, Grow, InputSegs, Read, Itimediff, InRange;
      var prevUna := sndUna;
      if |data| < OVERHEAD {
        return -1;
      }
      var flag, maxack;
      code, flag, maxack := ReadSegments(data);
      if code != 0 {
        return;
      }
      if flag {
        ParseFastackOf(maxack);
      }
      if Itimediff(sndUna, prevUna) > 0 {
        GrowWindow();
      }
    }

    // ----- ikcp_flush

    /** Every payload fits one datagram; kept as long as the mtu is not lowered under traffic. */
    ghost predicate Fits()
      reads this
    {
      && (forall i | 0 <= i < |sndQueue| :: |sndQueue[i].data| <= Mss(ctl))
      && (forall i | 0 <= i < |sndBuf| :: |sndBuf[i].frag.data| <= Mss(ctl))
    }

    /** The scratch buffer holds the open datagram of the segments `ws`, `out` the closed ones. */
    ghost predicate Packed(ws: seq<Wire>, ptr: nat, out: seq<seq<byte>>)
      reads this`ctl, this`buffer, buffer
    {
      var p := PackAll(ctl.mtu, Packing([], []), ws);
      && ptr == TotalSize(p.open) <= ctl.mtu
      && ptr <= buffer.Length
      && buffer[..ptr] == EncodeAll(p.open)
      && out == EncodeEach(p.closed)
    }

    /** Hands over the buffer if the segment does not fit any more, then writes the segment. */
    method Append(w: Wire, ptr: nat, out: seq<seq<byte>>, ghost ws: seq<Wire>)
      returns (ptr': nat, out': seq<seq<byte>>)
      requires Valid() && Packed(ws, ptr, out) && Size(w) <= ctl.mtu
      modifies buffer
      ensures Packed(ws + [w], ptr', out')
    {
      ghost var p := PackAll(ctl.mtu, Packing([], []), ws);
      assert (ws + [w])[..|ws|] == ws;
      assert PackAll(ctl.mtu, Packing([], []), ws + [w]) == PackOne(ctl.mtu, p, w);
      hide PackAll, EncodeSeg;
      ptr', out' := ptr, out;
      if ptr + Size(w) > ctl.mtu {
        SizeOfOpen(p.open);
        if ptr > 0 {
          out' := out' + [buffer[..ptr]];
        }
        ptr' := 0;
        EncodeEachSnoc(p.closed, p.open);
        OneSegment(w);
      } else {
        EncodeAllSnoc(p.open, w);
      }
      ptr' := PutSeg(buffer, ptr', w);
    }

    /** Writes an acknowledgement for every entry of the list. */
    method FlushAcks(t: Stamp) returns (ptr: nat, out: seq<seq<byte>>, last: AckItem)
      requires Valid()
      modifies buffer
      ensures Packed(AckWires(t, acklist), ptr, out) && last == LastAck(acklist)
    {
      hide EncodeEach, EncodeAll, PackAll, Packed;
      ptr, out, last := 0, [], AckItem(0, 0);
      StartPacked();
      assert AckWires(t, acklist[..0]) == [];
      var i := 0;
      while i < |acklist|
        invariant 0 <= i <= |acklist|
        invariant last == LastAck(acklist[..i])
        invariant Packed(AckWires(t, acklist[..i]), ptr, out)
      {
        last := acklist[i];
        ptr, out := Append(AckWire(t, last), ptr, out, AckWires(t, acklist[..i]));
        assert AckWires(t, acklist[..i + 1]) == AckWires(t, acklist[..i]) + [AckWire(t, last)];
        i := i + 1;
      }
      assert acklist[..i] == acklist;
    }

    lemma StartPacked()
      ensures Packed([], 0, [])
    {
      assert buffer[..0] == [];
    }

    /** Writes the window probes that are pending. */
    method FlushProbes(t: Stamp, last: AckItem, ptr: nat, out: seq<seq<byte>>, ghost ws: seq<Wire>)
      returns (ptr': nat, out': seq<seq<byte>>)
      requires Valid() && Packed(ws, ptr, out)
      modifies buffer
      ensures Packed(ws + ProbeWires(t, ctl, last), ptr', out')
    {
      hide EncodeEach, EncodeAll, PackAll, Packed;
      ptr', out' := ptr, out;
      ghost var done := ws;
      if ctl.askSend {
        ptr', out' := Append(ProbeWire(t, CMD_WASK, last), ptr', out', done);
        done := done + [ProbeWire(t, CMD_WASK, last)];
      }
      if ctl.askTell {
        ptr', out' := Append(ProbeWire(t, CMD_WINS, last), ptr', out', done);
        done := done + [ProbeWire(t, CMD_WINS, last)];
      }
      assert done == ws + ProbeWires(t, ctl, last);
    }

    /** Moves queued segments into the window and numbers them. */
    method MoveToWindow(cwnd: u32)
      requires Valid() && cwnd == SendWindow(ctl)
      modifies this`sndQueue, this`nsndQue, this`sndBuf, this`nsndBuf, this`sndNxt
      ensures Valid()
      ensures Snd() == Move(Mod32, old(Snd()), ctl)
    {
      hide Numbered, MoveCount, Itimediff, SendWindow;
      ghost var s := Snd();
      ghost var n := 0;
      NumberedNone(ctl, s.nxt);
      ghost var limit := Wrap(sndUna + cwnd);
      while Itimediff(sndNxt, Wrap(sndUna + cwnd)) < 0
        invariant Valid() && 0 <= n <= |s.queue|
        invariant sndQueue == s.queue[n..] && sndNxt == Wrap(s.nxt + n)
        invariant sndBuf == s.buf + Numbered(Mod32, ctl, s.nxt, s.queue[..n])
        invariant MoveCount(Mod32, s.nxt, limit, |s.queue|) == n + MoveCount(Mod32, sndNxt, limit, |sndQueue|)
        decreases |sndQueue|
      {
        MoveCountNext(sndNxt, limit, |sndQueue|);
        if sndQueue == [] {
          break;
        }
        NumberedNext(ctl, s.nxt, s.queue, n);
        WrapOfSum(s.nxt + n, 1);
        var seg := SndSeg(sndNxt, sndQueue[0], ctl.current, ctl.rxRto, 0, 0);
        sndQueue := sndQueue[1..];
        nsndQue := nsndQue - 1;
        sndBuf := sndBuf + [seg];
        nsndBuf := nsndBuf + 1;
        sndNxt := Wrap(sndNxt + 1);
        n := n + 1;
      }
      MoveCountNext(sndNxt, limit, |sndQueue|);
    }

    /** One turn of the sweep: decides whether the segment is sent now, and sets its timers. */
    method Attend(p: nat, resent: u32) returns (needsend: bool, lost: bool, fast: bool)
      requires Valid() && p < |sndBuf| && resent == Resent(ctl)
      modifies this`sndBuf
      ensures Valid()
      ensures var a := TrySend(ctl, old(sndBuf)[p]);
              Attempt(sndBuf[p], needsend, lost, fast) == a && sndBuf == old(sndBuf)[p := a.seg]
    {
      var seg := sndBuf[p];
      needsend, lost, fast := false, false, false;
      if seg.xmit == 0 {
        needsend := true;
        var rtomin := if ctl.nodelay == 0 then ctl.rxRto / 8 else 0;
        seg := seg.(xmit := 1, rto := ctl.rxRto, resendts := Wrap(ctl.current + ctl.rxRto + rtomin));
      } else if Itimediff(ctl.current, seg.resendts) >= 0 {
        needsend, lost := true, true;
        var rto: u32;
        if ctl.nodelay == 0 {
          rto := Wrap(seg.rto + Max(seg.rto, ctl.rxRto));
        } else {
          var step := if ctl.nodelay < 2 then Signed(seg.rto) else Signed(ctl.rxRto);
          rto := Wrap(seg.rto + TruncHalf(step));
        }
        seg := seg.(xmit := Wrap(seg.xmit + 1), rto := rto, resendts := Wrap(ctl.current + rto));
      } else if seg.fastack >= resent {
        if Signed(seg.xmit) <= ctl.fastlimit || ctl.fastlimit <= 0 {
          needsend, fast := true, true;
          seg := seg.(xmit := Wrap(seg.xmit + 1), fastack := 0, resendts := Wrap(ctl.current + seg.rto));
        }
      }
      sndBuf := sndBuf[p := seg];
    }

    /** One turn of the sweep over the segments in flight: the decision, and the sending. */
    method SweepTurn(p: nat, t: Stamp, resent: u32, ptr: nat, out: seq<seq<byte>>, ghost w: Sweep, ghost ws: seq<Wire>)
      returns (ptr': nat, out': seq<seq<byte>>, lost: bool, fast: bool, dead: bool)
      requires Valid() && Fits() && p < |sndBuf| && resent == Resent(ctl) && Packed(ws + w.wires, ptr, out)
      requires sndBuf[..p] == w.buf
      modifies this`sndBuf, buffer
      ensures Valid() && Fits()
      ensures |sndBuf| == |old(sndBuf)| && sndBuf[p + 1..] == old(sndBuf)[p + 1..]
      ensures var w' := SweepOne(t, ctl, w, old(sndBuf)[p]);
              && sndBuf[..p + 1] == w'.buf
              && w'.resends == (if lost then w.resends + 1 else w.resends)
              && w'.fast == (w.fast || fast) && w'.dead == (w.dead || dead)
              && Packed(ws + w'.wires, ptr', out')
    {
      hide TrySend, PackAll, Packed, Resent;
      ptr', out', dead := ptr, out, false;
      ghost var seg := sndBuf[p];
      AttemptKeepsFrag(ctl, seg);
      var needsend;
      needsend, lost, fast := Attend(p, resent);
      assert sndBuf[..p + 1] == w.buf + [sndBuf[p]];
      if needsend {
        assert Size(DataWire(t, ctl, sndBuf[p])) <= ctl.mtu;
        ptr', out' := Append(DataWire(t, ctl, sndBuf[p]), ptr, out, ws + w.wires);
        Associate(ws, w.wires, [DataWire(t, ctl, seg)]);
        dead := sndBuf[p].xmit >= ctl.deadLink;
      }
    }

    /** Sends what is due of the segments in flight. */
    method FlushData(t: Stamp, ptr: nat, out: seq<seq<byte>>, ghost ws: seq<Wire>)
      returns (ptr': nat, out': seq<seq<byte>>, resends: nat, fast: bool, dead: bool)
      requires Valid() && Fits() && Packed(ws, ptr, out)
      modifies this`sndBuf, buffer
      ensures Valid() && Fits()
      ensures var w := SweepAll(t, ctl, old(sndBuf));
              && sndBuf == w.buf && resends == w.resends && fast == w.fast && dead == w.dead
              && Packed(ws + w.wires, ptr', out')
    {
      hide SweepOne, PackAll, Packed, Resent;
      ghost var buf := sndBuf;
      ghost var w := Sweep([], [], 0, false, false);
      ptr', out', resends, fast, dead := ptr, out, 0, false, false;
      var resent := Resent(ctl);
      assert ws + [] == ws;
      assert w == SweepAll(t, ctl, buf[..0]);
      var p := 0;
      while p < |sndBuf|
        invariant 0 <= p <= |sndBuf| == |buf|
        invariant Valid() && Fits()
        invariant w == SweepAll(t, ctl, buf[..p])
        invariant sndBuf[..p] == w.buf && sndBuf[p..] == buf[p..]
        invariant resends == w.resends && fast == w.fast && dead == w.dead
        invariant Packed(ws + w.wires, ptr', out')
      {
        SweepNext(t, ctl, buf, p);
        assert sndBuf[p] == buf[p..][0] == buf[p];
        assert sndBuf[p + 1..] == sndBuf[p..][1..] && buf[p + 1..] == buf[p..][1..];
        var lost, hurried, gone;
        ptr', out', lost, hurried, gone := SweepTurn(p, t, resent, ptr', out', w, ws);
        w := SweepAll(t, ctl, buf[..p + 1]);
        if lost {
          resends := resends + 1;
        }
        fast := fast || hurried;
        dead := dead || gone;
        p := p + 1;
      }
      assert buf[..p] == buf && sndBuf[..p] == sndBuf;
    }

    /** Window reductions after hurried resends. */
    method ReduceFast(resent: u32)
      requires mss == Mss(ctl) && resent == Resent(ctl)
      modifies this`ctl
      ensures mss == Mss(ctl) && ctl == AfterFast(old(ctl), Wrap(sndNxt - sndUna))
    {
      hide Wrap, Resent;
      var inflight := Wrap(sndNxt - sndUna);
      var ssthresh := inflight / 2;
      if ssthresh < THRESH_MIN {
        ssthresh := THRESH_MIN;
      }
      var window := Wrap(ssthresh + resent);
      ctl := ctl.(ssthresh := ssthresh, cwnd := window, incr := Wrap(window * mss));
    }

    /** Window reductions after timeouts. */
    method ReduceLoss(cwnd: u32)
      requires mss == Mss(ctl)
      modifies this`ctl
      ensures mss == Mss(ctl) && ctl == AfterLoss(old(ctl), cwnd)
    {
      var ssthresh := cwnd / 2;
      if ssthresh < THRESH_MIN {
        ssthresh := THRESH_MIN;
      }
      ctl := ctl.(ssthresh := ssthresh, cwnd := 1, incr := mss);
    }

    /** Shrinks the congestion window after losses or hurried resends. */
    method ShrinkWindow(resent: u32, cwnd: u32, change: bool, lost: bool)
      requires mss == Mss(ctl) && resent == Resent(ctl)
      modifies this`ctl
      ensures mss == Mss(ctl)
      ensures ctl == Shrink(old(ctl), Wrap(sndNxt - sndUna), cwnd, change, lost)
    {
      hide Wrap, Resent, AfterFast, AfterLoss;
      if change {
        ReduceFast(resent);
      }
      if lost {
        ReduceLoss(cwnd);
      }
      if ctl.cwnd < 1 {
        ctl := ctl.(cwnd := 1, incr := mss);
      }
    }

    /** The acknowledgements and probes that open every flush. */
    method FlushHeaders(t: Stamp) returns (ptr: nat, out: seq<seq<byte>>)
      requires Valid()
      modifies this`ctl, this`acklist, buffer
      ensures Valid() && acklist == [] && ctl == ClearProbes(ProbeTimer(old(ctl)))
      ensures Packed(AckWires(t, old(acklist)) + ProbeWires(t, ProbeTimer(old(ctl)), LastAck(old(acklist))), ptr, out)
    {
      hide EncodeEach, EncodeAll, PackAll, AckWires, ProbeWires, LastAck, ProbeTimer;
      ghost var ws := AckWires(t, acklist);
      var last;
      ptr, out, last := FlushAcks(t);
      acklist := [];
      ctl := ProbeTimer(ctl);
      ptr, out := FlushProbes(t, last, ptr, out, ws);
      ctl := ctl.(askSend := false, askTell := false);
    }

    /** Hands over what is left in the buffer. */
    method Finish(ptr: nat, out: seq<seq<byte>>, ghost ws: seq<Wire>) returns (out': seq<seq<byte>>)
      requires Valid() && Packed(ws, ptr, out)
      ensures out' == EncodeEach(Pack(ctl.mtu, ws))
    {
      hide PackAll, EncodeAll, EncodeEach;
      ghost var p := PackAll(ctl.mtu, Packing([], []), ws);
      SizeOfOpen(p.open);
      EncodeEachSnoc(p.closed, p.open);
      out' := out;
      if ptr > 0 {
        out' := out' + [buffer[..ptr]];
      }
    }

    /** Moves the window, sends what is due and hands over the last datagram. */
    method FlushSegments(t: Stamp, cwnd: u32, ptr: nat, out: seq<seq<byte>>, ghost ws: seq<Wire>)
      returns (out': seq<seq<byte>>, resends: nat, fast: bool, dead: bool)
      requires Valid() && Fits() && Packed(ws, ptr, out) && cwnd == SendWindow(ctl)
      modifies this`sndQueue, this`nsndQue, this`sndBuf, this`nsndBuf, this`sndNxt, buffer
      ensures Valid() && Fits()
      ensures var s := Move(Mod32, old(Snd()), ctl);
              var w := SweepAll(t, ctl, s.buf);
              && Snd() == s.(buf := w.buf) && resends == w.resends && fast == w.fast && dead == w.dead
              && out' == EncodeEach(Pack(ctl.mtu, ws + w.wires))
    {
      hide SendWindow, Move, SweepAll, EncodeEach, Pack, Packed;
      ghost var s := Move(Mod32, Snd(), ctl);
      MoveFits(Snd(), ctl);
      MoveToWindow(cwnd);
      var ptr', out1;
      ptr', out1, resends, fast, dead := FlushData(t, ptr, out, ws);
      out' := Finish(ptr', out1, ws + SweepAll(t, ctl, s.buf).wires);
    }

    /** The window reductions and counters that close a flush. */
    method Settle(cwnd: u32, resends: nat, fast: bool, dead: bool)
      requires mss == Mss(ctl)
      modifies this`ctl
      ensures mss == Mss(ctl)
      ensures var c := old(ctl).(xmit := Wrap(old(ctl).xmit + resends), dead := old(ctl).dead || dead);
              ctl == Shrink(c, Wrap(sndNxt - sndUna), cwnd, fast, resends > 0)
    {
      hide Shrink, Resent, Wrap;
      ctl := ctl.(xmit := Wrap(ctl.xmit + resends), dead := ctl.dead || dead);
      ShrinkWindow(Resent(ctl), cwnd, fast, resends > 0);
    }

    /** Everything a flush puts out, before the congestion window is looked at. */
    method FlushOutput(t: Stamp) returns (out: seq<seq<byte>>, cwnd: u32, resends: nat, fast: bool, dead: bool)
      requires Valid() && Fits()
      modifies this`ctl, this`acklist, this`sndQueue, this`nsndQue, this`sndBuf, this`nsndBuf, this`sndNxt, buffer
      ensures Valid() && Fits()
      ensures var c := ProbeTimer(old(ctl));
              var s := Move(Mod32, old(Snd()), c);
              var w := SweepAll(t, c, s.buf);
              && Snd() == s.(buf := w.buf) && acklist == [] && ctl == ClearProbes(c) && cwnd == SendWindow(c)
              && resends == w.resends && fast == w.fast && dead == w.dead
              && out == EncodeEach(Pack(ctl.mtu,
                   AckWires(t, old(acklist)) + ProbeWires(t, c, LastAck(old(acklist))) + w.wires))
    {
      hide ProbeTimer, SendWindow, Move, SweepAll, AckWires, ProbeWires, LastAck, EncodeEach, Pack, InRange, Packed;
      ghost var c := ProbeTimer(ctl);
      ghost var ws := AckWires(t, acklist) + ProbeWires(t, c, LastAck(acklist));
      ProbesDoNotMatter(c, Snd());
      SweepSame(t, c, Move(Mod32, Snd(), c).buf);
      var ptr;
      ptr, out := FlushHeaders(t);
      cwnd := SendWindow(ctl);
      out, resends, fast, dead := FlushSegments(t, cwnd, ptr, out, ws);
    }

    method FlushNow() returns (out: seq<seq<byte>>)
      requires Valid() && Fits() && ctl.updated
      modifies this`ctl, this`acklist, this`sndQueue, this`nsndQue, this`sndBuf, this`nsndBuf, this`sndNxt, buffer
      ensures Valid() && Fits()
      ensures Block() == KcpState.Flush(Mod32, old(Block())).k
      ensures out == EncodeEach(Pack(old(ctl.mtu), KcpState.Flush(Mod32, old(Block())).wires))
    {
      hide ProbeTimer, SendWindow, Move, SweepAll, AckWires, ProbeWires, LastAck, EncodeEach, Pack, Shrink, Wrap, InRange;
      hide KcpState.Flush, ClearProbes, StampOf;
      FlushIs(Block());
      SameProbes(ProbeTimer(ctl));
      var t := Stamp(ctl.conv, (if nrcvQue < ctl.rcvWnd then ctl.rcvWnd - nrcvQue else 0) % M16, rcvNxt);
      var cwnd, resends, fast, dead;
      out, cwnd, resends, fast, dead := FlushOutput(t);
      Settle(cwnd, resends, fast, dead);
    }

    method Flush() returns (out: seq<seq<byte>>)
      requires Valid() && Fits()
      modifies this`ctl, this`acklist, this`sndQueue, this`nsndQue, this`sndBuf, this`nsndBuf, this`sndNxt, buffer
      ensures Valid() && Fits()
      ensures var f := KcpState.Flush(Mod32, old(Block()));
              Block() == f.k && out == EncodeEach(Datagrams(old(Block()), f.wires))
    {
      hide EncodeEach, Pack, InRange, FinishFlush, ProbeTimer, Move, SweepAll;
      if ctl.updated {
        out := FlushNow();
      } else {
        NothingOut(ctl.mtu);
        out := [];
      }
    }

    // ----- ikcp_update, ikcp_check

    /** Advances the clock; tells whether a flush is due. */
    method TickTo(now: u32) returns (due: bool)
      modifies this`ctl
      ensures (ctl, due) == Tick(old(ctl), now)
    {
      hide Wrap, Itimediff;
      ctl := ctl.(current := now);
      if !ctl.updated {
        ctl := ctl.(updated := true, tsFlush := now);
      }
      var slap := Itimediff(now, ctl.tsFlush);
      if slap >= 10000 || slap < -10000 {
        ctl := ctl.(tsFlush := now);
        slap := 0;
      }
      due := slap >= 0;
      if due {
        var next := Wrap(ctl.tsFlush + ctl.interval);
        if Itimediff(now, next) >= 0 {
          next := Wrap(now + ctl.interval);
        }
        ctl := ctl.(tsFlush := next);
      }
    }

    method Update(now: u32) returns (out: seq<seq<byte>>)
      requires Valid() && Fits()
      modifies this`ctl, this`acklist, this`sndQueue, this`nsndQue, this`sndBuf, this`nsndBuf, this`sndNxt, buffer
      ensures Valid() && Fits()
      ensures var f := KcpState.Update(Mod32, old(Block()), now);
              Block() == f.k && out == EncodeEach(Datagrams(old(Block()), f.wires))
    {
      hide KcpState.Flush, Tick, EncodeEach, Pack, InRange;
      out := [];
      var due := TickTo(now);
      if due {
        out := Flush();
      } else {
        NothingOut(ctl.mtu);
      }
    }

    method CheckAt(now: u32) returns (next: u32)
      requires Valid()
      ensures next == Check(Block(), now)
    {
      if !ctl.updated {
        return now;
      }
      var tsFlush := ctl.tsFlush;
      if Itimediff(now, tsFlush) >= 10000 || Itimediff(now, tsFlush) < -10000 {
        tsFlush := now;
      }
      if Itimediff(now, tsFlush) >= 0 {
        return now;
      }
      OppositeWait(now, tsFlush);
      var tmFlush := Itimediff(tsFlush, now);
      var tmPacket := 0x7fff_ffff;
      var p := 0;
      while p < |sndBuf|
        invariant 0 <= p <= |sndBuf|
        invariant tmPacket == PacketWait(sndBuf[..p], now) && tmPacket > 0
      {
        var diff := Itimediff(sndBuf[p].resendts, now);
        assert sndBuf[..p + 1][..p] == sndBuf[..p];
        if diff <= 0 {
          WaitOnlyShrinks(sndBuf, p + 1, now);
          return now;
        }
        if diff < tmPacket {
          tmPacket := diff;
        }
        p := p + 1;
      }
      assert sndBuf[..p] == sndBuf;
      var minimal := if tmPacket < tmFlush then tmPacket else tmFlush;
      if minimal >= ctl.interval {
        minimal := ctl.interval;
      }
      return Wrap(now + minimal);
    }

    // ----- settings

    method SetMtuTo(mtu: int) returns (code: int)
      requires Valid() && mtu < M31
      modifies this`ctl, this`mss, this`buffer
      ensures Valid()
      ensures (ctl, code) == SetMtu(old(ctl), mtu)
      ensures code == 0 ==> fresh(buffer)
    {
      if mtu < 50 {
        return -1;
      }
      buffer := new byte[(mtu + OVERHEAD) * 3];
      ctl := ctl.(mtu := mtu);
      mss := mtu - OVERHEAD;
      return 0;
    }

    method SetWindows(sndwnd: int, rcvwnd: int)
      requires Valid() && sndwnd < M31 && rcvwnd < M31
      modifies this`ctl
      ensures Valid() && ctl == WndSize(old(ctl), sndwnd, rcvwnd)
      ensures old(ctl.rcvWnd) >= WND_RCV ==> ctl.rcvWnd >= WND_RCV
    {
      if sndwnd > 0 {
        ctl := ctl.(sndWnd := sndwnd);
      }
      if rcvwnd > 0 {
        ctl := ctl.(rcvWnd := Max(rcvwnd, WND_RCV));
      }
    }

    method SetInterval(interval: int)
      requires Valid()
      modifies this`ctl
      ensures Valid() && ctl == old(ctl).(interval := BoundInterval(interval)) && 10 <= ctl.interval <= 5000
    {
      var bounded := interval;
      if bounded > 5000 {
        bounded := 5000;
      } else if bounded < 10 {
        bounded := 10;
      }
      ctl := ctl.(interval := bounded);
    }

    /** The first two settings of `ikcp_nodelay`. */
    method SetDelays(nodelay: int, interval: int)
      requires Valid()
      modifies this`ctl
      ensures Valid() && ctl == Delays(old(ctl), nodelay, interval)
    {
      hide InRange;
      if nodelay >= 0 {
        ctl := ctl.(nodelay := nodelay, rxMinrto := if nodelay != 0 then RTO_NDL else RTO_MIN);
      }
      if interval >= 0 {
        SetInterval(interval);
      }
    }

    /** The last two. */
    method SetResends(resend: int, nc: int)
      requires Valid()
      modifies this`ctl
      ensures Valid() && ctl == Resends(old(ctl), resend, nc)
    {
      hide InRange;
      if resend >= 0 {
        ctl := ctl.(fastresend := resend);
      }
      if nc >= 0 {
        ctl := ctl.(nocwnd := nc != 0);
      }
    }

    method SetNoDelay(nodelay: int, interval: int, resend: int, nc: int)
      requires Valid()
      modifies this`ctl
      ensures Valid() && ctl == NoDelay(old(ctl), nodelay, interval, resend, nc)
      ensures 10 <= old(ctl.interval) <= 5000 ==> 10 <= ctl.interval <= 5000
      ensures old(ctl.rxMinrto) in {RTO_NDL, RTO_MIN} ==> ctl.rxMinrto in {RTO_NDL, RTO_MIN}
      ensures nodelay < 0 ==> ctl.nodelay == old(ctl.nodelay) && ctl.rxMinrto == old(ctl.rxMinrto)
      ensures interval < 0 ==> ctl.interval == old(ctl.interval)
      ensures resend < 0 ==> ctl.fastresend == old(ctl.fastresend)
      ensures nc < 0 ==> ctl.nocwnd == old(ctl.nocwnd)
      ensures SameButDelays(old(ctl), ctl)
    {
      NoDelayMeans(ctl, nodelay, interval, resend, nc);
      hide Delays, Resends, InRange, SameButDelays;
      SetDelays(nodelay, interval);
      SetResends(resend, nc);
    }
  }

  lemma InsertBack(buf: seq<RcvSeg>, p: nat, seg: RcvSeg)
    requires 0 < p <= |buf|
    ensures var last := buf[p - 1];
            InsertSeg(Mod32, buf[..p], seg) + buf[p..] ==
              if last.sn == seg.sn then buf
              else if Itimediff(seg.sn, last.sn) > 0 then buf[..p] + [seg] + buf[p..]
              else InsertSeg(Mod32, buf[..p - 1], seg) + buf[p - 1..]
  {
    hide Itimediff;
    assert buf[..p][..p - 1] == buf[..p - 1];
    assert buf[p - 1..] == [buf[p - 1]] + buf[p..];
  }

  lemma InsertFirst(buf: seq<RcvSeg>, seg: RcvSeg)
    ensures InsertSeg(Mod32, buf[..0], seg) + buf[0..] == buf[..0] + [seg] + buf[0..]
  {
  }

  /** Everything but the five settings of `ikcp_nodelay`. */
  predicate SameButDelays(c: Control, c': Control) {
    c' == c.(nodelay := c'.nodelay, rxMinrto := c'.rxMinrto, interval := c'.interval,
             fastresend := c'.fastresend, nocwnd := c'.nocwnd)
  }

  // ----- steps the methods rely on

  lemma NoDelayMeans(c: Control, nodelay: int, interval: int, resend: int, nc: int)
    ensures var c' := NoDelay(c, nodelay, interval, resend, nc);
            && (10 <= c.interval <= 5000 ==> 10 <= c'.interval <= 5000)
            && (c.rxMinrto in {RTO_NDL, RTO_MIN} ==> c'.rxMinrto in {RTO_NDL, RTO_MIN})
            && (nodelay < 0 ==> c'.nodelay == c.nodelay && c'.rxMinrto == c.rxMinrto)
            && (interval < 0 ==> c'.interval == c.interval)
            && (resend < 0 ==> c'.fastresend == c.fastresend)
            && (nc < 0 ==> c'.nocwnd == c.nocwnd)
            && SameButDelays(c, c')
  {
  }

  lemma SizeOfOpen(ws: seq<Wire>)
    ensures TotalSize(ws) == 0 <==> ws == []
  {
  }

  lemma OneSegment(w: Wire)
    ensures EncodeAll([w]) == EncodeSeg(w) && TotalSize([w]) == Size(w)
  {
    hide EncodeSeg;
    assert [w][..0] == [];
    assert EncodeAll([w]) == [] + EncodeSeg(w);
  }

  lemma EncodeAllSnoc(ws: seq<Wire>, w: Wire)
    ensures EncodeAll(ws + [w]) == EncodeAll(ws) + EncodeSeg(w)
    ensures TotalSize(ws + [w]) == TotalSize(ws) + Size(w)
  {
    hide EncodeSeg;
    assert (ws + [w])[..|ws|] == ws;
  }

  lemma NothingOut(mtu: nat)
    ensures EncodeEach(Pack(mtu, [])) == []
  {
  }

  lemma MoveCountNext(nxt: u32, limit: u32, queued: nat)
    ensures MoveCount(Mod32, nxt, limit, queued)
         == if queued == 0 || Itimediff(nxt, limit) >= 0 then 0
            else 1 + MoveCount(Mod32, Wrap(nxt + 1), limit, queued - 1)
  {
  }

  lemma NumberedNone(c: Control, nxt: int)
    ensures Numbered(Mod32, c, nxt, []) == []
  {
  }

  lemma NumberedNext(c: Control, nxt: int, frags: seq<Frag>, n: nat)
    requires n < |frags|
    ensures Numbered(Mod32, c, nxt, frags[..n + 1])
         == Numbered(Mod32, c, nxt, frags[..n]) + [SndSeg(Wrap(nxt + n), frags[n], c.current, c.rxRto, 0, 0)]
  {
    assert Numbered(Mod32, c, nxt, frags[..n + 1])[n].sn == Mod32.Norm(nxt + n);
  }

  lemma SweepNext(t: Stamp, c: Control, buf: seq<SndSeg>, p: nat)
    requires p < |buf|
    ensures SweepAll(t, c, buf[..p + 1]) == SweepOne(t, c, SweepAll(t, c, buf[..p]), buf[p])
  {
    hide SweepOne;
    assert buf[..p + 1][..p] == buf[..p];
  }

  lemma AttemptKeepsFrag(c: Control, s: SndSeg)
    ensures TrySend(c, s).seg.sn == s.sn && TrySend(c, s).seg.frag == s.frag
  {
  }

  /** A flush, spelled out. */
  lemma FlushIs(k: Kcb)
    ensures !k.ctl.updated ==> KcpState.Flush(Mod32, k) == FlushResult(k, [])
    ensures StampOf(k) == Stamp(k.ctl.conv, (if |k.rcv.queue| < k.ctl.rcvWnd then k.ctl.rcvWnd - |k.rcv.queue| else 0) % M16,
                                k.rcv.nxt)
    ensures k.ctl.updated ==>
              var t := StampOf(k);
              var c := ProbeTimer(k.ctl);
              var s := Move(Mod32, k.snd, c);
              var w := SweepAll(t, c, s.buf);
              var c1 := ClearProbes(c).(xmit := Wrap(c.xmit + w.resends), dead := c.dead || w.dead);
              var f := KcpState.Flush(Mod32, k);
              && f.wires == AckWires(t, k.rcv.acks) + ProbeWires(t, c, LastAck(k.rcv.acks)) + w.wires
              && f.k.snd == s.(buf := w.buf) && f.k.rcv == k.rcv.(acks := [])
              && f.k.ctl == Shrink(c1, Wrap(s.nxt - s.una), SendWindow(c), w.fast, w.resends > 0)
  {
    hide ProbeTimer, SendWindow, Move, SweepAll, AckWires, ProbeWires, LastAck, Shrink, Wrap, ClearProbes;
  }

  lemma SameProbes(c: Control)
    ensures ClearProbes(c).xmit == c.xmit && ClearProbes(c).dead == c.dead && ClearProbes(c).mtu == c.mtu
  {
  }

  /** Pending probes play no part in what data is sent. */
  lemma ProbesDoNotMatter(c: Control, s: Sender)
    ensures SendWindow(ClearProbes(c)) == SendWindow(c) && Resent(ClearProbes(c)) == Resent(c)
    ensures Move(Mod32, s, ClearProbes(c)) == Move(Mod32, s, c)
  {
  }

  lemma {:induction false} SweepSame(t: Stamp, c: Control, buf: seq<SndSeg>)
    ensures SweepAll(t, ClearProbes(c), buf) == SweepAll(t, c, buf)
  {
    if buf != [] {
      SweepSame(t, c, buf[..|buf| - 1]);
      assert TrySend(ClearProbes(c), buf[|buf| - 1]) == TrySend(c, buf[|buf| - 1]);
    }
  }

  lemma MoveFits(s: Sender, c: Control)
    requires forall i | 0 <= i < |s.queue| :: |s.queue[i].data| <= Mss(c)
    requires forall i | 0 <= i < |s.buf| :: |s.buf[i].frag.data| <= Mss(c)
    ensures var s' := Move(Mod32, s, c);
            && (forall i | 0 <= i < |s'.queue| :: |s'.queue[i].data| <= Mss(c))
            && (forall i | 0 <= i < |s'.buf| :: |s'.buf[i].frag.data| <= Mss(c))
  {
  }

  lemma OppositeWait(a: u32, b: u32)
    requires Itimediff(a, b) < 0 && Itimediff(a, b) >= -10000
    ensures Itimediff(b, a) == -Itimediff(a, b)
  {
  }

  lemma {:induction false} WaitOnlyShrinks(buf: seq<SndSeg>, p: nat, now: u32)
    requires p <= |buf|
    ensures PacketWait(buf, now) <= PacketWait(buf[..p], now)
  {
    if p == |buf| {
      assert buf[..p] == buf;
    } else {
      var init := buf[..|buf| - 1];
      assert init[..p] == buf[..p];
      WaitOnlyShrinks(init, p, now);
    }
  }

  function NewestOf(flag: bool, maxack: u32): Newest {
    if flag then MaxAck(maxack) else NoAck
  }

  /** In the running block every number is a 32-bit value. */
  ghost predicate InRange(buf: seq<SndSeg>) {
    forall i | 0 <= i < |buf| :: 0 <= buf[i].sn < M32
  }

  lemma BumpFastackEnd(sn: int)
    ensures BumpFastack(Mod32, [], sn) == []
  {
  }

  lemma BumpFastackHead(buf: seq<SndSeg>, sn: int)
    requires buf != []
    ensures BumpFastack(Mod32, buf, sn) == if Itimediff(sn, buf[0].sn) < 0 then buf else
      [if sn != buf[0].sn then buf[0].(fastack := Wrap(buf[0].fastack + 1)) else buf[0]]
      + BumpFastack(Mod32, buf[1..], sn)
  {
  }

  lemma DrainStep(r: Receiver, rcvWnd: int)
    requires r.buf != [] && r.buf[0].sn == r.nxt && |r.queue| < rcvWnd
    ensures Drain(Mod32, Receiver(Wrap(r.nxt + 1), r.queue + [r.buf[0].frag], r.buf[1..], r.acks), rcvWnd)
         == Drain(Mod32, r, rcvWnd)
  {
    var r1 := Receiver(Wrap(r.nxt + 1), r.queue + [r.buf[0].frag], r.buf[1..], r.acks);
    var n := DrainCount(Mod32, r1.buf, r1.nxt, rcvWnd - |r1.queue|);
    assert DrainCount(Mod32, r.buf, r.nxt, rcvWnd - |r.queue|) == n + 1;
    WrapOfSum(r.nxt + 1, n);
    assert r.buf[..n + 1] == [r.buf[0]] + r1.buf[..n];
    assert FragsOf(r.buf[..n + 1]) == [r.buf[0].frag] + FragsOf(r1.buf[..n]);
  }

  lemma DrainDone(r: Receiver, rcvWnd: int)
    requires r.buf == [] || r.buf[0].sn != r.nxt || |r.queue| >= rcvWnd
    requires 0 <= r.nxt < M32
    ensures Drain(Mod32, r, rcvWnd) == r
  {
    assert r.queue + FragsOf(r.buf[..0]) == r.queue;
  }
}
