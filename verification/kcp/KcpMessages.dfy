/**
 From segments to what the callers see: cutting a message into fragments and putting it
 together again, and the invariant that ties the messages accepted on one side to the
 messages returned on the other.
 */
module KcpMessages {
  import opened Arithmetic32
  import opened KcpWire
  import opened KcpState
  import opened KcpWindows
  import opened KcpNetwork
  import opened KcpSafety

  // ----- one message

  lemma {:induction false} BytesAppend(a: seq<Frag>, b: seq<Frag>)
    ensures Bytes(a + b) == Bytes(a) + Bytes(b)
  {
    if b == [] {
      assert a + b == a;
    } else {
      var init := b[..|b| - 1];
      assert (a + b)[..|a + b| - 1] == a + init;
      BytesAppend(a, init);
      Associate(Bytes(a), Bytes(init), b[|b| - 1].data);
    }
  }

  lemma BytesOfOne(f: Frag)
    ensures Bytes([f]) == f.data
  {
    assert [f][..0] == [];
    assert Bytes([f]) == [] + f.data;
  }

  lemma TimesNonPositive(a: nat, b: int)
    ensures b <= 0 ==> a * b <= 0
  {
  }

  lemma CountSuffices(mss: int, len: nat)
    requires mss > 0
    ensures FragmentCount(mss, len) >= 1 && len <= FragmentCount(mss, len) * mss
  {
    if len > mss {
      var x := len + mss - 1;
      assert x == mss * (x / mss) + x % mss;
      TimesNonPositive(mss, x / mss);
      assert mss * (x / mss) == (x / mss) * mss;
    }
  }

  /** Fragments carry the message's bytes in order and count down to 0. */
  lemma {:induction false} FragmentsCarry(mss: int, data: seq<byte>, count: nat, stream: bool)
    requires mss > 0 && count <= 256 && |data| <= count * mss
    ensures var fs := Fragments(mss, data, count, stream);
            && |fs| == count && Bytes(fs) == data
            && forall i | 0 <= i < count :: fs[i].frg == (if stream then 0 else count - 1 - i)
    decreases count
  {
    hide *;
    FragmentsFirst(mss, data, count, stream);
    if count > 0 {
      var size := Min(|data|, mss);
      var head := Frag(if stream then 0 else count - 1, data[..size]);
      var tail := Fragments(mss, data[size..], count - 1, stream);
      LessLeft(mss, |data|, count);
      FragmentsCarry(mss, data[size..], count - 1, stream);
      BytesAppend([head], tail);
      BytesOfOne(head);
      assert data == data[..size] + data[size..];
      CountsDown(head, tail, count, stream);
    }
  }

  lemma FragmentsFirst(mss: int, data: seq<byte>, count: nat, stream: bool)
    requires mss > 0 && count <= 256
    ensures count == 0 ==> Fragments(mss, data, count, stream) == [] && count * mss == 0 && Bytes([]) == []
    ensures var size := Min(|data|, mss);
            && 0 <= size <= |data|
            && (count > 0 ==>
                  Fragments(mss, data, count, stream) ==
                    [Frag(if stream then 0 else count - 1, data[..size])] + Fragments(mss, data[size..], count - 1, stream))
  {
  }

  lemma CountsDown(head: Frag, tail: seq<Frag>, count: nat, stream: bool)
    requires |tail| == count - 1 && head.frg == (if stream then 0 else count - 1)
    requires forall i | 0 <= i < count - 1 :: tail[i].frg == (if stream then 0 else count - 2 - i)
    ensures forall i | 0 <= i < count :: ([head] + tail)[i].frg == (if stream then 0 else count - 1 - i)
  {
  }

  lemma LessLeft(mss: nat, len: nat, count: nat)
    requires count > 0 && len <= count * mss
    ensures len - Min(len, mss) <= (count - 1) * mss
  {
    assert (count - 1) * mss == count * mss - mss;
    TimesNonPositive(mss, 1 - count);
  }

  /** The pieces of one accepted message. */
  function MessageFrags(mss: int, m: seq<byte>): seq<Frag>
    requires mss > 0
  {
    if FragmentCount(mss, |m|) < WND_RCV then Fragments(mss, m, FragmentCount(mss, |m|), false) else []
  }

  function AllFrags(mss: int, ms: seq<seq<byte>>): seq<Frag>
    requires mss > 0
  {
    if ms == [] then [] else AllFrags(mss, ms[..|ms| - 1]) + MessageFrags(mss, ms[|ms| - 1])
  }

  lemma {:induction false} AllFragsAppend(mss: int, a: seq<seq<byte>>, b: seq<seq<byte>>)
    requires mss > 0
    ensures AllFrags(mss, a + b) == AllFrags(mss, a) + AllFrags(mss, b)
  {
    if b == [] {
      assert a + b == a;
    } else {
      var init := b[..|b| - 1];
      assert (a + b)[..|a + b| - 1] == a + init;
      AllFragsAppend(mss, a, init);
      Associate(AllFrags(mss, a), AllFrags(mss, init), MessageFrags(mss, b[|b| - 1]));
    }
  }

  lemma AllFragsOne(mss: int, m: seq<byte>)
    requires mss > 0
    ensures AllFrags(mss, [m]) == MessageFrags(mss, m)
  {
    assert [m][..0] == [];
    assert AllFrags(mss, [m]) == [] + MessageFrags(mss, m);
  }

  lemma {:induction false} MessageLengthIs(queue: seq<Frag>, n: nat)
    requires 0 < n <= |queue| && queue[n - 1].frg == 0
    requires forall i | 0 <= i < n - 1 :: queue[i].frg != 0
    ensures MessageLength(queue) == n
  {
    if n > 1 {
      MessageLengthIs(queue[1..], n - 1);
    }
  }

  /** Whether the first `n` segments of a queue are the whole of message `m`. */
  lemma PeekWhole(mss: int, m: seq<byte>, r: Receiver)
    requires mss > 0 && FragmentCount(mss, |m|) < WND_RCV
    requires MessageFrags(mss, m) <= r.queue
    ensures MessageLength(r.queue) == |MessageFrags(mss, m)|
    ensures Bytes(r.queue[..MessageLength(r.queue)]) == m
    ensures PeekSize(r) == |m|
  {
    var fs := MessageFrags(mss, m);
    var n := FragmentCount(mss, |m|);
    CountSuffices(mss, |m|);
    FragmentsCarry(mss, m, n, false);
    forall i | 0 <= i < n ensures r.queue[i] == fs[i] {}
    MessageLengthIs(r.queue, n);
    assert r.queue[..n] == fs;
    if n == 1 {
      assert fs == [r.queue[0]];
      BytesOfOne(r.queue[0]);
    }
  }

  /** A message of which only some fragments arrived is not announced. */
  lemma PeekPartial(mss: int, m: seq<byte>, r: Receiver)
    requires mss > 0 && FragmentCount(mss, |m|) < WND_RCV
    requires r.queue != [] && r.queue < MessageFrags(mss, m)
    ensures PeekSize(r) == -1
  {
    CountSuffices(mss, |m|);
    FragmentsCarry(mss, m, FragmentCount(mss, |m|), false);
    assert r.queue[0] == MessageFrags(mss, m)[0];
  }

  // ----- the invariant

  /** Segments the caller has taken out of the receive queue. */
  function Consumed(n: Node): seq<Frag> {
    n.delivered[..Max(0, |n.delivered| - |n.k.rcv.queue|)]
  }

  /** In message mode segments are exactly the fragments of the messages, in order. */
  ghost predicate MessagesOk(x: Node, y: Node) {
    && (forall i | 0 <= i < |x.user.accepted| :: FragmentCount(Mss(x.k.ctl), |x.user.accepted[i]|) < WND_RCV)
    && x.numbered + x.k.snd.queue == AllFrags(Mss(x.k.ctl), x.user.accepted)
    && y.user.returned <= x.user.accepted
    && Consumed(y) == AllFrags(Mss(x.k.ctl), y.user.returned)
  }

  /** In either mode the bytes pass through in order. */
  ghost predicate BytesOk(x: Node, y: Node) {
    Bytes(x.numbered + x.k.snd.queue) == x.user.written && Bytes(Consumed(y)) == y.user.read
  }

  ghost predicate UserOk(x: Node, y: Node) {
    && BytesOk(x, y)
    && (!x.k.ctl.stream ==> MessagesOk(x, y))
  }

  // ----- sending

  lemma ExtendCarries(s: Sender, c: Control, data: seq<byte>)
    ensures Extension(s, c, data) <= |data|
    ensures Bytes(Extend(s, c, data).queue) == Bytes(s.queue) + data[..Extension(s, c, data)]
  {
    if c.stream && s.queue != [] && |s.queue[|s.queue| - 1].data| < Mss(c) {
      var last := |s.queue| - 1;
      var more := Frag(0, s.queue[last].data + data[..Extension(s, c, data)]);
      BytesAppend(s.queue[..last], [more]);
      BytesOfOne(more);
      Associate(Bytes(s.queue[..last]), s.queue[last].data, data[..Extension(s, c, data)]);
    }
  }

  lemma SendCarries(k: Kcb, data: seq<byte>)
    ensures var (k', code) := Send(k, data);
            Bytes(k'.snd.queue) == Bytes(k.snd.queue) + if code == 0 then data else data[..Extension(k.snd, k.ctl, data)]
  {
    ExtendCarries(k.snd, k.ctl, data);
    var s := Extend(k.snd, k.ctl, data);
    var e := Extension(k.snd, k.ctl, data);
    var rest := data[e..];
    assert data == data[..e] + rest;
    if !(k.ctl.stream && rest == []) {
      var n := FragmentCount(Mss(k.ctl), |rest|);
      if n < WND_RCV {
        CountSuffices(Mss(k.ctl), |rest|);
        FragmentsCarry(Mss(k.ctl), rest, n, k.ctl.stream);
        BytesAppend(s.queue, Fragments(Mss(k.ctl), rest, n, k.ctl.stream));
        Associate(Bytes(k.snd.queue), data[..e], rest);
      }
    }
  }

  lemma SendMessage(k: Kcb, data: seq<byte>)
    requires !k.ctl.stream
    ensures var (k', code) := Send(k, data);
            && (code == 0 <==> FragmentCount(Mss(k.ctl), |data|) < WND_RCV)
            && k'.snd.queue == k.snd.queue + if code == 0 then MessageFrags(Mss(k.ctl), data) else []
  {
    assert data[0..] == data;
  }

  /** What the tie between callers looks at. */
  lemma UserFrame(x: Node, y: Node, x': Node, y': Node)
    requires Config(x'.k.ctl) == Config(x.k.ctl)
    requires x'.user.accepted == x.user.accepted && x'.user.written == x.user.written
    requires x'.numbered + x'.k.snd.queue == x.numbered + x.k.snd.queue
    requires y'.user.returned == y.user.returned && y'.user.read == y.user.read
    requires Consumed(y') == Consumed(y)
    ensures UserOk(x, y) ==> UserOk(x', y')
  {
    hide Bytes, AllFrags, Consumed, FragmentCount;
  }

  lemma SendExtendsBytes(x: Node, y: Node, x': Node, data: seq<byte>, code: int)
    requires BytesOk(x, y) && x'.numbered == x.numbered
    requires (x'.k, code) == Send(x.k, data) && x'.user == AfterSend(x.user, x.k, data, code)
    ensures BytesOk(x', y)
  {
    SendCarries(x.k, data);
    BytesAppend(x.numbered, x.k.snd.queue);
    BytesAppend(x.numbered, x'.k.snd.queue);
    var more := if code == 0 then data else data[..Extension(x.k.snd, x.k.ctl, data)];
    assert x'.user.written == x.user.written + more;
    hide Send, Extension, Bytes;
    Associate(Bytes(x.numbered), Bytes(x.k.snd.queue), more);
  }

  lemma SendExtendsMessages(x: Node, y: Node, x': Node, data: seq<byte>, code: int)
    requires MessagesOk(x, y) && !x.k.ctl.stream && x'.numbered == x.numbered
    requires Config(x'.k.ctl) == Config(x.k.ctl)
    requires (x'.k, code) == Send(x.k, data) && x'.user == AfterSend(x.user, x.k, data, code)
    ensures MessagesOk(x', y)
  {
    hide Send, MessageFrags, FragmentCount;
    SendMessage(x.k, data);
    var mss := Mss(x.k.ctl);
    if code == 0 {
      AllFragsAppend(mss, x.user.accepted, [data]);
      AllFragsOne(mss, data);
      Associate(x.numbered, x.k.snd.queue, MessageFrags(mss, data));
    } else {
      assert x.k.snd.queue + [] == x.k.snd.queue;
    }
  }

  /** One more message on the sending side. */
  lemma SendExtends(x: Node, y: Node, x': Node, data: seq<byte>, code: int)
    requires UserOk(x, y) && Config(x'.k.ctl) == Config(x.k.ctl) && x'.numbered == x.numbered
    requires (x'.k, code) == Send(x.k, data) && x'.user == AfterSend(x.user, x.k, data, code)
    ensures UserOk(x', y)
  {
    hide MessagesOk, BytesOk, Send;
    SendExtendsBytes(x, y, x', data, code);
    if !x.k.ctl.stream {
      SendExtendsMessages(x, y, x', data, code);
    }
  }

  lemma SendKeepsUser(x: Node, y: Node, data: seq<byte>)
    requires UserOk(x, y) && UserOk(y, x)
    ensures var x' := ActExact(x, y.out, DoSend(data));
            UserOk(x', y) && UserOk(y, x')
  {
    hide UserOk;
    var x' := ActExact(x, y.out, DoSend(data));
    SendExtends(x, y, x', data, Send(x.k, data).1);
    UserFrame(y, x, y, x');
  }

  // ----- receiving

  /** The receive queue continues the messages exactly where the caller left off. */
  lemma QueueContinues(x: Node, y: Node)
    requires PairOk(Pair(x, y)) && MessagesOk(x, y)
    ensures Consumed(y) + y.k.rcv.queue <= AllFrags(Mss(x.k.ctl), x.user.accepted)
  {
    var frags := AllFrags(Mss(x.k.ctl), x.user.accepted);
    assert Consumed(y) + y.k.rcv.queue == y.delivered;
    assert y.delivered == x.numbered[..y.k.rcv.nxt];
    assert x.numbered <= frags;
  }

  lemma PrefixAfter<T>(a: seq<T>, q: seq<T>, b: seq<T>)
    requires a + q <= a + b
    ensures q <= b
  {
    assert (a + q)[|a|..] == q;
    assert (a + b)[|a|..] == b;
    forall i | 0 <= i < |q| ensures q[i] == b[i] {
      assert (a + q)[|a| + i] == (a + b)[|a| + i];
    }
  }

  /** If something waits, not every accepted message has been returned. */
  lemma MoreToReturn(x: Node, y: Node)
    requires PairOk(Pair(x, y)) && MessagesOk(x, y) && y.k.rcv.queue != []
    ensures |y.user.returned| < |x.user.accepted|
    ensures x.user.accepted[..|y.user.returned|] == y.user.returned
  {
    QueueContinues(x, y);
    hide PairOk, Consumed, MessageFrags, FragmentCount, AllFrags;
    assert |y.user.returned| == |x.user.accepted| ==> y.user.returned == x.user.accepted;
  }

  /** The fragments of a list of messages, split at message `i`. */
  lemma AllFragsAt(mss: int, acc: seq<seq<byte>>, i: nat)
    requires mss > 0 && i < |acc|
    ensures AllFrags(mss, acc)
         == AllFrags(mss, acc[..i]) + (MessageFrags(mss, acc[i]) + AllFrags(mss, acc[i + 1..]))
  {
    hide MessageFrags;
    var later := acc[i + 1..];
    assert acc == acc[..i] + ([acc[i]] + later);
    AllFragsAppend(mss, acc[..i], [acc[i]] + later);
    AllFragsAppend(mss, [acc[i]], later);
    AllFragsOne(mss, acc[i]);
  }

  /** The message the caller will get next. */
  lemma NextMessage(x: Node, y: Node)
    requires PairOk(Pair(x, y)) && MessagesOk(x, y) && y.k.rcv.queue != []
    ensures |y.user.returned| < |x.user.accepted|
    ensures var m := x.user.accepted[|y.user.returned|];
            && FragmentCount(Mss(x.k.ctl), |m|) < WND_RCV
            && (MessageFrags(Mss(x.k.ctl), m) <= y.k.rcv.queue || y.k.rcv.queue < MessageFrags(Mss(x.k.ctl), m))
  {
    MoreToReturn(x, y);
    QueueContinues(x, y);
    hide PairOk, Consumed, MessageFrags, FragmentCount, AllFrags;
    var mss, acc, i, q := Mss(x.k.ctl), x.user.accepted, |y.user.returned|, y.k.rcv.queue;
    AllFragsAt(mss, acc, i);
    var m, later := MessageFrags(mss, acc[i]), AllFrags(mss, acc[i + 1..]);
    PrefixAfter(Consumed(y), q, m + later);
    ComparablePrefixes(q, m, later);
  }

  lemma ComparablePrefixes<T>(q: seq<T>, a: seq<T>, b: seq<T>)
    requires q <= a + b
    ensures a <= q || q < a
  {
    if |a| <= |q| {
      assert a == q[..|a|] by { forall i | 0 <= i < |a| ensures a[i] == q[i] { assert q[i] == (a + b)[i]; } }
    } else {
      assert q == a[..|q|] by { forall i | 0 <= i < |q| ensures a[i] == q[i] { assert q[i] == (a + b)[i]; } }
    }
  }

  /** Taking `n` segments and appending `more` moves `n` segments to the consumed ones. */
  lemma ConsumedMoves(y: Node, y': Node, n: nat, more: seq<Frag>)
    requires n <= |y.k.rcv.queue| <= |y.delivered|
    requires y.k.rcv.queue == y.delivered[|y.delivered| - |y.k.rcv.queue|..]
    requires y'.k.rcv.queue == y.k.rcv.queue[n..] + more && y'.delivered == y.delivered + more
    ensures Consumed(y') == Consumed(y) + y.k.rcv.queue[..n]
  {
    var c := |y.delivered| - |y.k.rcv.queue|;
    assert y.delivered == y.delivered[..c] + y.k.rcv.queue;
  }

  /** A successful receive takes the head message out of the queue and nothing else. */
  lemma RecvConsumes(y: Node, x: Node, len: nat)
    requires PairOk(Pair(x, y)) && Recv(Exact, y.k, len).code >= 0
    ensures var y' := ActExact(y, x.out, DoRecv(len));
            Consumed(y') == Consumed(y) + y.k.rcv.queue[..MessageLength(y.k.rcv.queue)]
  {
    var n := MessageLength(y.k.rcv.queue);
    var y' := ActExact(y, x.out, DoRecv(len));
    hide PairOk, Consumed, PeekSize, Bytes, MessageLength, DrainCount;
    assert DeliveredOk(y, x.numbered) by { PairDelivered(x, y); }
    ConsumedMoves(y, y', n, Appended(|y.k.rcv.queue| - n, y'.k.rcv.queue));
  }

  lemma PairDelivered(x: Node, y: Node)
    requires PairOk(Pair(x, y))
    ensures DeliveredOk(y, x.numbered)
  {
  }

  /** What a caller gets in message mode is the next message that was accepted. */
  lemma RecvIsNextMessage(x: Node, y: Node, len: nat)
    requires PairOk(Pair(x, y)) && MessagesOk(x, y) && Recv(Exact, y.k, len).code >= 0
    ensures |y.user.returned| < |x.user.accepted|
    ensures var m := x.user.accepted[|y.user.returned|];
            && Recv(Exact, y.k, len).data == m
            && y.k.rcv.queue[..MessageLength(y.k.rcv.queue)] == MessageFrags(Mss(x.k.ctl), m)
  {
    NextMessage(x, y);
    hide PairOk, MessagesOk;
    var m := x.user.accepted[|y.user.returned|];
    if y.k.rcv.queue < MessageFrags(Mss(x.k.ctl), m) {
      PeekPartial(Mss(x.k.ctl), m, y.k.rcv);
    }
    PeekWhole(Mss(x.k.ctl), m, y.k.rcv);
  }

  lemma RecvExtendsBytes(x: Node, y: Node, y': Node, taken: seq<Frag>)
    requires BytesOk(x, y) && Consumed(y') == Consumed(y) + taken
    requires y'.user.read == y.user.read + Bytes(taken)
    ensures BytesOk(x, y')
  {
    BytesAppend(Consumed(y), taken);
  }

  lemma RecvExtendsMessages(x: Node, y: Node, y': Node, m: seq<byte>)
    requires MessagesOk(x, y) && |y.user.returned| < |x.user.accepted|
    requires m == x.user.accepted[|y.user.returned|] && y'.user.returned == y.user.returned + [m]
    requires Consumed(y') == Consumed(y) + MessageFrags(Mss(x.k.ctl), m)
    ensures MessagesOk(x, y')
  {
    hide MessageFrags, Consumed, FragmentCount, AllFrags;
    AllFragsAppend(Mss(x.k.ctl), y.user.returned, [m]);
    AllFragsOne(Mss(x.k.ctl), m);
  }

  /** One more message on the receiving side. */
  lemma RecvExtends(x: Node, y: Node, y': Node, len: nat)
    requires PairOk(Pair(x, y)) && UserOk(x, y) && Recv(Exact, y.k, len).code >= 0
    requires y'.user == AfterRecv(y.user, Recv(Exact, y.k, len), len)
    requires Consumed(y') == Consumed(y) + y.k.rcv.queue[..MessageLength(y.k.rcv.queue)]
    ensures UserOk(x, y')
  {
    RecvData(y.k, len);
    hide Recv, Bytes, MessageLength, PairOk, Consumed, MessageFrags, BytesOk, MessagesOk;
    RecvExtendsBytes(x, y, y', y.k.rcv.queue[..MessageLength(y.k.rcv.queue)]);
    if !x.k.ctl.stream {
      RecvIsNextMessage(x, y, len);
      RecvExtendsMessages(x, y, y', x.user.accepted[|y.user.returned|]);
    }
  }

  lemma RecvData(k: Kcb, len: int)
    requires Recv(Exact, k, len).code >= 0
    ensures Recv(Exact, k, len).data == Bytes(k.rcv.queue[..MessageLength(k.rcv.queue)])
  {
    hide Bytes, MessageLength, Drain;
  }

  lemma RecvKeepsUser(x: Node, y: Node, len: int)
    requires PairOk(Pair(x, y)) && UserOk(x, y) && UserOk(y, x)
    ensures var y' := ActExact(y, x.out, DoRecv(len));
            UserOk(x, y') && UserOk(y', x)
  {
    hide UserOk, PairOk;
    var y' := ActExact(y, x.out, DoRecv(len));
    UserFrame(y, x, y', x);
    if Recv(Exact, y.k, len).code >= 0 && len >= 0 {
      RecvConsumes(y, x, len);
      RecvExtends(x, y, y', len);
    } else {
      LookConsumesNothing(y, x, len);
      UserFrame(x, y, x, y');
    }
  }

  /** Looking, or a failed receive, takes nothing out of the queue. */
  lemma LookConsumesNothing(y: Node, x: Node, len: int)
    requires PairOk(Pair(x, y)) && (Recv(Exact, y.k, len).code < 0 || len < 0)
    ensures Consumed(ActExact(y, x.out, DoRecv(len))) == Consumed(y)
  {
    var r := Recv(Exact, y.k, len);
    var y' := ActExact(y, x.out, DoRecv(len));
    var more := r.k.rcv.queue[|y.k.rcv.queue|..];
    assert r.k.rcv.queue == y.k.rcv.queue + more;
    assert y'.delivered == y.delivered + more;
  }

  // ----- the other operations

  /** A delivery only appends to what was delivered. */
  lemma DeliverAppends(x: Node, y: Node, i: nat)
    requires PairOk(Pair(x, y)) && i < |x.out|
    ensures var y' := ActExact(y, x.out, Deliver(i));
            && Config(y'.k.ctl) == Config(y.k.ctl) && y'.k.snd.queue == y.k.snd.queue
            && Consumed(y') == Consumed(y)
  {
    var y' := ActExact(y, x.out, Deliver(i));
    hide InputWires;
    var d := x.out[i];
    assert DatagramOk(d, x);
    forall j | 0 <= j < |d| ensures PushOk(d[j], x.numbered) && AckOk(d[j], x.k.rcv) {
      assert WireOk(d[j], x);
    }
    InputWiresKeeps(y.k, d, y.numbered, x);
  }

  lemma DeliverKeepsUser(x: Node, y: Node, i: nat)
    requires PairOk(Pair(x, y)) && UserOk(x, y) && UserOk(y, x)
    ensures var y' := ActExact(y, x.out, Deliver(i));
            UserOk(x, y') && UserOk(y', x)
  {
    hide UserOk, PairOk, InputWires, Consumed;
    var y' := ActExact(y, x.out, Deliver(i));
    if i < |x.out| {
      DeliverAppends(x, y, i);
      UserFrame(x, y, x, y');
      UserFrame(y, x, y', x);
    }
  }

  lemma FlushKeepsUser(x: Node, y: Node, c: Control)
    requires PairOk(Pair(x, y)) && Config(c) == Config(x.k.ctl) && UserOk(x, y) && UserOk(y, x)
    ensures var x' := EmitExact(x, Flush(Exact, x.k.(ctl := c)));
            UserOk(x', y) && UserOk(y, x')
  {
    hide Flush, UserOk, PairOk;
    FlushIsGood(x, y, c);
    var x' := EmitExact(x, Flush(Exact, x.k.(ctl := c)));
    UserFrame(x, y, x', y);
    UserFrame(y, x, y, x');
  }

  lemma UpdateKeepsUser(x: Node, y: Node, now: u32)
    requires PairOk(Pair(x, y)) && UserOk(x, y) && UserOk(y, x)
    ensures var x' := ActExact(x, y.out, DoUpdate(now));
            UserOk(x', y) && UserOk(y, x')
  {
    hide Flush, UserOk, PairOk;
    var (c, due) := Tick(x.k.ctl, now);
    if due {
      FlushKeepsUser(x, y, c);
    } else {
      var x' := ActExact(x, y.out, DoUpdate(now));
      assert x.k.snd.queue[..0] == [];
      assert x'.numbered == x.numbered;
      UserFrame(x, y, x', y);
      UserFrame(y, x, y, x');
    }
  }

  lemma ActKeepsUser(x: Node, y: Node, op: Op)
    requires PairOk(Pair(x, y)) && UserOk(x, y) && UserOk(y, x)
    ensures var x' := ActExact(x, y.out, op);
            UserOk(x', y) && UserOk(y, x')
  {
    hide UserOk, PairOk, ActExact;
    assert PairOk(Pair(y, x)) by { PairSwap(x, y); }
    match op
    case DoSend(data) => SendKeepsUser(x, y, data);
    case DoRecv(len) => RecvKeepsUser(y, x, len);
    case DoUpdate(now) => UpdateKeepsUser(x, y, now);
    case DoFlush => FlushKeepsUser(x, y, x.k.ctl); ActFlush(x, y);
    case Deliver(i) => DeliverKeepsUser(y, x, i);
  }

  lemma PairSwap(x: Node, y: Node)
    requires PairOk(Pair(x, y))
    ensures PairOk(Pair(y, x))
  {
  }

  lemma ActFlush(x: Node, y: Node)
    ensures ActExact(x, y.out, DoFlush) == EmitExact(x, Flush(Exact, x.k.(ctl := x.k.ctl)))
  {
  }

  /**
   A full receive queue always begins with a complete message: messages have fewer
   fragments than the smallest receive window, so the receiver never stalls.
   */
  lemma FullQueueIsReadable(x: Node, y: Node)
    requires PairOk(Pair(x, y)) && MessagesOk(x, y)
    requires WND_RCV <= y.k.ctl.rcvWnd <= |y.k.rcv.queue|
    ensures |y.user.returned| < |x.user.accepted|
    ensures PeekSize(y.k.rcv) == |x.user.accepted[|y.user.returned|]|
  {
    NextMessage(x, y);
    var m := x.user.accepted[|y.user.returned|];
    CountSuffices(Mss(x.k.ctl), |m|);
    FragmentsCarry(Mss(x.k.ctl), m, FragmentCount(Mss(x.k.ctl), |m|), false);
    PeekWhole(Mss(x.k.ctl), m, y.k.rcv);
  }

  /** `ikcp_peeksize` announces the next message exactly, or that it is not complete yet. */
  lemma PeekAnnounces(x: Node, y: Node)
    requires PairOk(Pair(x, y)) && MessagesOk(x, y) && PeekSize(y.k.rcv) >= 0
    ensures |y.user.returned| < |x.user.accepted|
    ensures PeekSize(y.k.rcv) == |x.user.accepted[|y.user.returned|]|
  {
    NextMessage(x, y);
    var m := x.user.accepted[|y.user.returned|];
    if y.k.rcv.queue < MessageFrags(Mss(x.k.ctl), m) {
      PeekPartial(Mss(x.k.ctl), m, y.k.rcv);
    } else {
      PeekWhole(Mss(x.k.ctl), m, y.k.rcv);
    }
  }
}
