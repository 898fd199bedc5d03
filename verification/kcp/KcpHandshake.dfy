/**
 The handshake in front of the transport: how client and server agree on the number of a
 conversation over a network that may lose, repeat, delay and reorder datagrams.
 */
module KcpHandshake {
  import opened Arithmetic32
  import opened KcpHeader

  datatype Option<T> = None | Some(value: T)

  /**
   What a stream knows of the conversation: the number it was given or has chosen, the
   counter it chooses from, the number of its control block, once there is one, and how
   often that block was reset.
   */
  datatype Stream = Stream(conv: u32, convs: u32, kcp: Option<u32>, sendFin: bool, resets: nat)

  /** What the handling of a datagram returns: nothing to report, or an error that ends the session. */
  datatype Code = Ignore | OperationAborted | ConnectionReset

  /** A datagram handled: the stream, the answer and the code. */
  datatype Handled = Handled(stream: Stream, reply: Option<seq<byte>>, code: Code)

  /** `gen_kcp_conv`: the conversation the first datagram asks for, or one from the counter that is not zero. */
  function GenConv(s: Stream, first: seq<byte>): (u32, Stream) {
    if !IsSyn(first) then (0, s)
    else if ToKcphdr(first).ack != 0 then (ToKcphdr(first).ack, s)
    else if s.convs == 0 then (1, s.(convs := 2))
    else (s.convs, s.(convs := Wrap(s.convs + 1)))
  }

  /** The answer to a SYN: the conversation it asks for, or this one. */
  function Reply(data: seq<byte>, conv: u32): seq<byte> {
    var syn := ToKcphdr(data);
    ToString(MakeSynAck(if syn.ack == 0 then conv else syn.ack, syn.seqNo))
  }

  /** The server's handshake on the first datagram of a client. */
  function ServerHandshake(s: Stream, data: seq<byte>): (Stream, seq<byte>) {
    var (conv, t) := GenConv(s, data);
    var asked := ToKcphdr(data).ack;
    (t.(conv := conv, kcp := Some(if asked == 0 then conv else asked)), Reply(data, conv))
  }

  /**
   A datagram of the size of a header, after the handshake: a SYN resets the control block
   and is answered, a FIN ends the session.
   */
  function ReceiveHeader(s: Stream, data: seq<byte>): Handled
    requires |data| == HEADER_SIZE
  {
    if IsSyn(data) then
      if s.kcp.Some? then
        Handled(s.(sendFin := true, resets := s.resets + 1), Some(Reply(data, s.kcp.value)), Ignore)
      else Handled(s, None, OperationAborted)
    else if IsSynAck(data, 0, true) || IsAck(data, 0, true) then Handled(s, None, Ignore)
    else if IsFin(data) then Handled(s.(sendFin := false), None, ConnectionReset)
    else Handled(s, None, Ignore)
  }

  /** What the client's wait for an answer makes of a datagram. */
  function ClientHandshake(s: Stream, data: seq<byte>, seqNo: u32): (Stream, bool) {
    if IsSynAck(data, seqNo, false) then (s.(kcp := Some(ToKcphdr(data).seqNo)), true) else (s, false)
  }

  /** The number asked for is given; otherwise the next of the counter that is not zero, which then stands behind it. */
  lemma ConversationsAreFresh(s: Stream, first: seq<byte>)
    requires IsSyn(first)
    ensures var (conv, t) := GenConv(s, first);
            var asked := ToKcphdr(first).ack;
            && conv != 0
            && (asked != 0 ==> conv == asked && t == s)
            && (asked == 0 ==>
                  && conv == (if s.convs != 0 then s.convs else 1)
                  && t == s.(convs := (conv + 1) % 0x1_0000_0000))
  {
    hide IsSyn, ToKcphdr;
  }

  /** A first datagram that is no SYN is given no number, unless it carries one. */
  lemma NoSynNoNumber(s: Stream, first: seq<byte>)
    ensures !IsSyn(first) ==> GenConv(s, first) == (0, s)
  {
    hide IsSyn, ToKcphdr;
  }

  /** What the first datagram of a client makes of a server. */
  lemma ServerStarts(s: Stream, first: seq<byte>)
    requires IsSyn(first)
    ensures var (t, reply) := ServerHandshake(s, first);
            && t.kcp == Some(GenConv(s, first).0) && t.conv == GenConv(s, first).0
            && t.convs == GenConv(s, first).1.convs && t.sendFin == s.sendFin && t.resets == s.resets
            && reply == ToString(MakeSynAck(GenConv(s, first).0, ToKcphdr(first).seqNo))
  {
    hide IsSyn, ToKcphdr, ToString, MakeSynAck;
  }

  /**
   A header after the handshake: a SYN resets the block and is answered with its conversation,
   and aborts where there is no block; a FIN ends the session, and is not returned then; an
   acknowledgement or anything else changes nothing.
   */
  lemma HeaderOutcomes(s: Stream, data: seq<byte>)
    requires |data| == HEADER_SIZE
    ensures var h, syn := ReceiveHeader(s, data), ToKcphdr(data);
            && (IsSyn(data) && s.kcp.Some? ==>
                  && h.code == Ignore && h.stream == s.(sendFin := true, resets := s.resets + 1)
                  && h.reply == Some(ToString(MakeSynAck(if syn.ack != 0 then syn.ack else s.kcp.value, syn.seqNo))))
            && (IsSyn(data) && s.kcp == None ==> h == Handled(s, None, OperationAborted))
            && (IsFin(data) ==> h == Handled(s.(sendFin := false), None, ConnectionReset))
            && (!IsSyn(data) && !IsFin(data) ==> h == Handled(s, None, Ignore))
  {
    KindsDiffer(data);
    hide IsSyn, IsFin, IsSynAck, IsAck, ToKcphdr, ToString, MakeSynAck;
  }

  lemma KindsDiffer(data: seq<byte>)
    ensures IsFin(data) ==> !IsSyn(data) && !IsSynAck(data, 0, true) && !IsAck(data, 0, true)
  {
    TestsAre(data, 0, true);
    hide Checksum, Big, IsSyn, IsFin, IsSynAck, IsAck;
  }

  /** The client takes the answer to its own SYN and the conversation in it, and nothing else. */
  lemma ClientTakesAnswer(s: Stream, data: seq<byte>, seqNo: u32)
    ensures var (t, ok) := ClientHandshake(s, data, seqNo);
            && (ok <==> IsSynAck(data, seqNo, false))
            && t == if ok then s.(kcp := Some(ToKcphdr(data).seqNo)) else s
  {
  }

  /** The stream object, with the handshake methods as they run. */
  class KcpStream {
    var conv: u32
    var convs: u32
    var kcp: Option<u32>
    var sendFin: bool
    var resets: nat

    function State(): Stream
      reads this
    {
      Stream(conv, convs, kcp, sendFin, resets)
    }

    constructor ()
      ensures State() == Stream(0, 1, None, true, 0)
    {
      conv, convs, kcp, sendFin, resets := 0, 1, None, true, 0;
    }

    /** `fetch_add`. */
    method FetchAdd() returns (c: u32)
      modifies `convs
      ensures c == old(convs) && convs == Wrap(old(convs) + 1)
    {
      c := convs;
      convs := Wrap(convs + 1);
    }

    method Gen(first: seq<byte>) returns (c: u32)
      modifies `convs
      ensures (c, State()) == GenConv(old(State()), first)
    {
      c := 0;
      if IsSyn(first) {
        var syn := ToKcphdr(first);
        if syn.ack == 0 {
          c := FetchAdd();
          if c == 0 {
            c := FetchAdd();
          }
        } else {
          c := syn.ack;
        }
      }
    }

    method SendSynAck(syn: Kcphdr) returns (msg: seq<byte>)
      ensures msg == ToString(MakeSynAck(syn.ack, syn.seqNo))
    {
      msg := ToString(MakeSynAck(syn.ack, syn.seqNo));
    }

    method Serve(data: seq<byte>) returns (reply: seq<byte>)
      modifies this
      ensures (State(), reply) == ServerHandshake(old(State()), data)
    {
      hide IsSyn;
      var c := Gen(data);
      conv := c;
      var syn := ToKcphdr(data);
      var asked := syn.ack;
      if asked == 0 {
        asked := conv;
        syn := syn.(ack := asked);
      }
      reply := SendSynAck(syn);
      kcp := Some(asked);
    }

    /** `kcp_reset_t`: what the block held is dropped. */
    method Reset()
      requires kcp.Some?
      modifies `resets
      ensures resets == old(resets) + 1
    {
      resets := resets + 1;
    }

    method Receive(data: seq<byte>) returns (reply: Option<seq<byte>>, code: Code)
      requires |data| == HEADER_SIZE
      modifies `sendFin, `resets
      ensures Handled(State(), reply, code) == ReceiveHeader(old(State()), data)
    {
      reply, code := None, Ignore;
      if IsSyn(data) {
        if kcp.Some? {
          var syn := ToKcphdr(data);
          var asked := syn.ack;
          if asked == 0 {
            asked := kcp.value;
            syn := syn.(ack := asked);
          }
          Reset();
          sendFin := true;
          var msg := SendSynAck(syn);
          reply := Some(msg);
        } else {
          return None, OperationAborted;
        }
      } else if IsSynAck(data, 0, true) {
      } else if IsAck(data, 0, true) {
      } else if IsFin(data) {
        sendFin := false;
        return None, ConnectionReset;
      }
    }

    method Connect(data: seq<byte>, seqNo: u32) returns (ok: bool)
      modifies `kcp
      ensures (State(), ok) == ClientHandshake(old(State()), data, seqNo)
    {
      ok := IsSynAck(data, seqNo, false);
      if ok {
        kcp := Some(ToKcphdr(data).seqNo);
      }
    }
  }

  // ----- a client and a server

  datatype Phase = Waiting | Connected | Refused

  /** Both streams, the client's sequence number, and every datagram ever sent either way. */
  datatype World = World(client: Stream, seqNo: u32, phase: Phase, server: Stream,
                         toServer: seq<seq<byte>>, toClient: seq<seq<byte>>)

  /**
   The client sends its SYN, at first or again; a datagram sent at any time reaches the
   other side; or the server, started, sends something else: transport data, longer than a
   header, or a FIN.
   */
  datatype Action = SendSyn | ToServer(i: nat) | ToClient(i: nat) | SendData(data: seq<byte>) | SendFin(n: u32)

  predicate Possible(w: World, a: Action) {
    match a
    case SendSyn => true
    case ToServer(i) => i < |w.toServer|
    case ToClient(i) => i < |w.toClient| && w.phase == Waiting
    case SendData(data) => w.server.kcp.Some? && |data| > HEADER_SIZE
    case SendFin(_) => w.server.kcp.Some?
  }

  function Act(w: World, a: Action): World
    requires Possible(w, a)
  {
    match a
    case SendSyn => w.(toServer := w.toServer + [ToString(MakeSyn(w.client.conv, w.seqNo))])
    case ToServer(i) =>
      var data := w.toServer[i];
      if w.server.kcp == None then
        var (s, reply) := ServerHandshake(w.server, data);
        w.(server := s, toClient := w.toClient + [reply])
      else if |data| == HEADER_SIZE then
        var h := ReceiveHeader(w.server, data);
        w.(server := h.stream, toClient := if h.reply.Some? then w.toClient + [h.reply.value] else w.toClient)
      else w
    case ToClient(i) =>
      var (c, ok) := ClientHandshake(w.client, w.toClient[i], w.seqNo);
      w.(client := c, phase := if ok then Connected else Refused)
    case SendData(data) => w.(toClient := w.toClient + [data])
    case SendFin(n) => w.(toClient := w.toClient + [ToString(MakeFin(n))])
  }

  /** A client that asks for `conv`, or for none if that is zero, and a server whose counter stands anywhere. */
  function Start(conv: u32, seqNo: u32, convs: u32): World {
    World(Stream(conv, 1, None, true, 0), seqNo, Waiting, Stream(0, convs, None, true, 0), [], [])
  }

  predicate PossibleRun(w: World, actions: seq<Action>)
    decreases |actions|, 0
  {
    actions != [] ==>
      PossibleRun(w, actions[..|actions| - 1]) && Possible(Run(w, actions[..|actions| - 1]), actions[|actions| - 1])
  }

  function Run(w: World, actions: seq<Action>): World
    requires PossibleRun(w, actions)
    decreases |actions|, 1
  {
    if actions == [] then w else Act(Run(w, actions[..|actions| - 1]), actions[|actions| - 1])
  }

  /** The conversation the server is on, which the client may have asked for. */
  predicate OnConversation(w: World, conv: u32) {
    w.server.kcp == Some(conv) && conv != 0 && (w.client.conv != 0 ==> conv == w.client.conv)
  }

  /** A datagram to the client: the server's answer, or nothing that looks like one. */
  predicate FromServer(w: World, data: seq<byte>) {
    || (w.server.kcp.Some? && data == ToString(MakeSynAck(w.server.kcp.value, w.seqNo)))
    || !IsSynAck(data, w.seqNo, false)
  }

  predicate Agreeing(w: World) {
    && (forall i | 0 <= i < |w.toServer| :: w.toServer[i] == ToString(MakeSyn(w.client.conv, w.seqNo)))
    && (w.server.kcp.Some? ==> OnConversation(w, w.server.kcp.value))
    && (forall i | 0 <= i < |w.toClient| :: FromServer(w, w.toClient[i]))
    && (w.client.kcp.Some? ==> w.client.kcp == w.server.kcp)
    && (w.phase == Connected <==> w.client.kcp.Some?)
  }

  lemma SynIsRead(conv: u32, n: u32)
    ensures var data := ToString(MakeSyn(conv, n));
            IsSyn(data) && ToKcphdr(data).ack == conv && ToKcphdr(data).seqNo == n
  {
    MadePassOwnTest(conv, n, 0, true);
    TestsOf(NO_HEADER.(seqNo := n, ack := conv, flag := SYN));
  }

  lemma SynAckIsRead(conv: u32, n: u32)
    ensures var data := ToString(MakeSynAck(conv, n));
            IsSynAck(data, n, false) && ToKcphdr(data).seqNo == conv
  {
    MadePassOwnTest(conv, n, n, false);
    TestsOf(NO_HEADER.(seqNo := conv, ack := Wrap(n + 1), flag := ACK + SYN));
  }

  /** The server answers every copy of the SYN alike. */
  lemma ServerAnswers(w: World, i: nat)
    requires Agreeing(w) && i < |w.toServer|
    ensures Agreeing(Act(w, ToServer(i)))
    ensures var v := Act(w, ToServer(i));
            v.server.kcp.Some? && (w.server.kcp.Some? ==> v.server.kcp == w.server.kcp)
            && v.toClient == w.toClient + [ToString(MakeSynAck(v.server.kcp.value, w.seqNo))]
            && v.server.resets == w.server.resets + if w.server.kcp.Some? then 1 else 0
  {
    SynIsRead(w.client.conv, w.seqNo);
    hide IsSyn, IsSynAck, IsAck, IsFin, ToKcphdr, ToString, MakeSyn, MakeSynAck;
  }

  lemma ClientHears(w: World, i: nat)
    requires Agreeing(w) && i < |w.toClient| && w.phase == Waiting
    ensures Agreeing(Act(w, ToClient(i)))
  {
    if w.server.kcp.Some? { SynAckIsRead(w.server.kcp.value, w.seqNo); }
    hide IsSyn, IsSynAck, IsAck, IsFin, ToKcphdr, ToString, MakeSyn, MakeSynAck;
  }

  lemma ActAgrees(w: World, a: Action)
    requires Agreeing(w) && Possible(w, a)
    ensures Agreeing(Act(w, a))
  {
    match a
    case ToServer(i) => ServerAnswers(w, i);
    case ToClient(i) => ClientHears(w, i);
    case SendFin(n) =>
      MadePassOwnTest(0, n, w.seqNo, false);
      hide IsSynAck, ToString, MakeFin;
    case SendData(data) =>
    case SendSyn =>
      hide ToString, MakeSyn;
  }

  /**
   Whatever is lost, repeated, delayed or reordered: a client that is connected is on the
   conversation its server is on, which is not zero, and is the one it asked for, if any.
   */
  lemma {:induction false} ClientAndServerAgree(conv: u32, seqNo: u32, convs: u32, actions: seq<Action>)
    requires PossibleRun(Start(conv, seqNo, convs), actions)
    ensures var w := Run(Start(conv, seqNo, convs), actions);
            && Agreeing(w) && w.client.conv == conv && w.seqNo == seqNo
            && (w.phase == Connected ==>
                  && w.client.kcp.Some? && w.client.kcp == w.server.kcp
                  && w.client.kcp.value != 0 && (conv != 0 ==> w.client.kcp.value == conv))
    decreases |actions|
  {
    hide Agreeing, Act;
    if actions == [] {
      StartAgrees(conv, seqNo, convs);
    } else {
      var front, a := actions[..|actions| - 1], actions[|actions| - 1];
      ClientAndServerAgree(conv, seqNo, convs, front);
      var w := Run(Start(conv, seqNo, convs), front);
      ActAgrees(w, a);
      ActKeepsClient(w, a);
    }
    AgreeingMeans(Run(Start(conv, seqNo, convs), actions));
  }

  lemma StartAgrees(conv: u32, seqNo: u32, convs: u32)
    ensures Agreeing(Start(conv, seqNo, convs))
  {
  }

  lemma ActKeepsClient(w: World, a: Action)
    requires Possible(w, a)
    ensures Act(w, a).client.conv == w.client.conv && Act(w, a).seqNo == w.seqNo
  {
    hide IsSyn, IsSynAck, IsAck, IsFin, ToKcphdr, ToString;
  }

  lemma AgreeingMeans(w: World)
    requires Agreeing(w)
    ensures w.phase == Connected ==>
      && w.client.kcp.Some? && w.client.kcp == w.server.kcp && w.client.kcp.value != 0
      && (w.client.conv != 0 ==> w.client.kcp.value == w.client.conv)
  {
  }

  /** A SYN that gets through and an answer that gets through connect a waiting client. */
  lemma OneExchangeConnects(w: World, i: nat)
    requires Agreeing(w) && i < |w.toServer| && w.phase == Waiting
    ensures var v := Act(w, ToServer(i));
            |v.toClient| == |w.toClient| + 1 && v.phase == Waiting
            && Act(v, ToClient(|w.toClient|)).phase == Connected
  {
    ServerAnswers(w, i);
    var v := Act(w, ToServer(i));
    assert v.phase == w.phase && v.seqNo == w.seqNo by { SamePhase(w, i); }
    SynAckIsRead(v.server.kcp.value, w.seqNo);
    hide IsSynAck, ToKcphdr, ToString, MakeSynAck, ServerHandshake, ReceiveHeader, Agreeing;
  }

  lemma SamePhase(w: World, i: nat)
    requires i < |w.toServer|
    ensures Act(w, ToServer(i)).phase == w.phase && Act(w, ToServer(i)).seqNo == w.seqNo
  {
    hide ServerHandshake, ReceiveHeader;
  }
}
