/**
 When a receive succeeds, and with which code it does not; and that room regained in a
 full receive queue is told to the peer.
 */
module KcpReceiving {
  import opened Arithmetic32
  import opened KcpWire
  import opened KcpState
  import opened KcpNetwork
  import opened KcpSafety
  import opened KcpMessages
  import opened KcpSimulation
  import opened KcpDelivery
  import opened KcpRoundTrips

  function Magnitude(len: int): nat {
    if len < 0 then -len else len
  }

  lemma NotComplete(r: Receiver)
    ensures r.queue != [] ==> (PeekSize(r) == -1 <==> r.queue[0].frg != 0 && |r.queue| <= r.queue[0].frg as int)
    ensures r.queue != [] ==> PeekSize(r) >= -1
  {
    hide Bytes, MessageLength;
  }

  /**
   The code of a receive: -1 exactly if nothing waits, -2 exactly if fewer segments wait than
   the message at the head has, and otherwise -3 exactly if that is longer than the buffer.
   */
  lemma RecvCodes(ar: Arith, k: Kcb, len: int)
    ensures var q, code := k.rcv.queue, Recv(ar, k, len).code;
            && (code == -1 <==> q == [])
            && (code == -2 <==> q != [] && q[0].frg != 0 && |q| <= q[0].frg as int)
            && (code == -3 <==> q != [] && (q[0].frg == 0 || |q| > q[0].frg as int)
                                && |Bytes(q[..MessageLength(q)])| > Magnitude(len))
            && (code < 0 ==> code in {-1, -2, -3} && Recv(ar, k, len).k == k)
  {
    NotComplete(k.rcv);
    var q := k.rcv.queue;
    if q != [] && q[0].frg == 0 {
      assert q[..1] == [q[0]];
      BytesOfOne(q[0]);
    }
    hide Drain;
  }

  /** A message that is whole at the head is received, if the buffer is long enough for it. */
  lemma RecvWhole(ar: Arith, k: Kcb, mss: int, m: seq<byte>, len: int)
    requires mss > 0 && FragmentCount(mss, |m|) < WND_RCV && MessageFrags(mss, m) <= k.rcv.queue
    ensures var r := Recv(ar, k, len);
            if |m| <= Magnitude(len) then r.code == |m| && r.data == m else r.code == -3 && r.k == k
  {
    PeekWhole(mss, m, k.rcv);
    CountSuffices(mss, |m|);
    FragmentsCarry(mss, m, FragmentCount(mss, |m|), false);
    hide PeekSize, MessageLength, Bytes, Drain, FragmentCount, Fragments;
  }

  /** Of a message that is not whole nothing is received. */
  lemma RecvPartial(ar: Arith, k: Kcb, mss: int, m: seq<byte>, len: int)
    requires mss > 0 && FragmentCount(mss, |m|) < WND_RCV && k.rcv.queue != [] && k.rcv.queue < MessageFrags(mss, m)
    ensures Recv(ar, k, len).code == -2
  {
    PeekPartial(mss, m, k.rcv);
    hide PeekSize, MessageFrags, FragmentCount;
  }

  /** What a receive comes to where `m` is the next message accepted and not returned. */
  ghost predicate Outcome(queue: seq<Frag>, mss: int, m: seq<byte>, len: int, code: int)
    requires mss > 0
  {
    if queue == [] then code == -1
    else if !(MessageFrags(mss, m) <= queue) then code == -2
    else code == if |m| <= Magnitude(len) then |m| else -3
  }

  lemma RecvComesTo(x: Node, y: Node, len: int)
    requires PairOk(Pair(x, y)) && MessagesOk(x, y)
    ensures y.k.rcv.queue != [] ==> |y.user.returned| < |x.user.accepted|
    ensures |y.user.returned| < |x.user.accepted| ==>
      Outcome(y.k.rcv.queue, Mss(x.k.ctl), x.user.accepted[|y.user.returned|], len, Recv(Exact, y.k, len).code)
  {
    if y.k.rcv.queue == [] {
      RecvCodes(Exact, y.k, len);
    } else {
      NextMessage(x, y);
      hide PairOk, MessagesOk;
      var m := x.user.accepted[|y.user.returned|];
      if MessageFrags(Mss(x.k.ctl), m) <= y.k.rcv.queue {
        RecvWhole(Exact, y.k, Mss(x.k.ctl), m, len);
      } else {
        RecvPartial(Exact, y.k, Mss(x.k.ctl), m, len);
      }
    }
  }

  lemma RecvLowCode(x: Node, y: Node, e: End, len: int)
    requires PairOk(Pair(x, y)) && InStep(e, y) && y.k.ctl.rcvWnd < M31
    ensures Recv(Mod32, e.k, len).code == Recv(Exact, y.k, len).code
    ensures Recv(Mod32, e.k, len).data == Recv(Exact, y.k, len).data
  {
    PeekLow(y.k.rcv);
    hide PeekSize, MessageLength, Bytes, Drain, LowSnd, LowRcv, LowAcks;
  }

  /**
   In every run in message mode: a receive fails with -1 if nothing waits, with -2 as long as
   the next message is not whole, with -3 if it does not fit; otherwise it returns that message.
   */
  lemma ReceiveReturnsNext(w: World, xs: seq<Action>, len: nat)
    requires FreshWorld(w) && TimelyRun(TwinWorld(w), xs)
    requires !WorldRun(w, xs).a.k.ctl.stream
    ensures var v := WorldRun(w, xs);
            var n, code := |v.b.user.returned|, Recv(Mod32, v.b.k, len).code;
            && (n == |v.a.user.accepted| ==> code == -1)
            && (n < |v.a.user.accepted| ==>
                  Outcome(v.b.k.rcv.queue, Mss(v.a.k.ctl), v.a.user.accepted[n], len, code))
            && n <= |v.a.user.accepted|
            && Act(v.b, v.a.out, DoRecv(len)).user.returned ==
                 v.b.user.returned + (if code >= 0 && n < |v.a.user.accepted| then [v.a.user.accepted[n]] else [])
  {
    EveryRunOk(w, xs);
    hide PairRun, WorldRun, PairOk, MessagesOk, BytesOk, Outcome, Recv;
    var v, p := WorldRun(w, xs), PairRun(TwinWorld(w), xs);
    SameTwin(p);
    RecvComesTo(p.a, p.b, len);
    RecvLowCode(p.a, p.b, v.b, len);
    ReturnedFit(p.a, p.b);
    RecvCodes(Mod32, v.b.k, len);
    if Recv(Exact, p.b.k, len).code >= 0 {
      RecvIsNextMessage(p.a, p.b, len);
    }
  }

  lemma ReturnedFit(x: Node, y: Node)
    requires MessagesOk(x, y)
    ensures |y.user.returned| <= |x.user.accepted|
  {
  }

  /** Room regained in a full queue is told to the peer: the next flush says so. */
  lemma RecvReopens(k: Kcb, len: nat)
    requires k.ctl.updated && |k.rcv.queue| >= k.ctl.rcvWnd
    ensures var k' := Recv(Exact, k, len).k;
            |k'.rcv.queue| < k.ctl.rcvWnd ==>
              exists w | w in Flush(Exact, k').wires :: w.cmd == CMD_WINS && w.wnd == (k.ctl.rcvWnd - |k'.rcv.queue|) % 0x1_0000
  {
    var k' := Recv(Exact, k, len).k;
    RecvAsks(k, len);
    hide Recv, Flush;
    if |k'.rcv.queue| < k.ctl.rcvWnd {
      FlushAnnounces(k');
      var w :| w in Flush(Exact, k').wires && w.cmd == CMD_WINS;
    }
  }

  lemma RecvAsks(k: Kcb, len: int)
    ensures var k' := Recv(Exact, k, len).k;
            && k'.ctl.askTell == (k.ctl.askTell || |k'.rcv.queue| < k.ctl.rcvWnd <= |k.rcv.queue|)
            && k'.ctl.updated == k.ctl.updated && k'.ctl.rcvWnd == k.ctl.rcvWnd
  {
    hide PeekSize, MessageLength, Bytes, Drain;
  }
}
