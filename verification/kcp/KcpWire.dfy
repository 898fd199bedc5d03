/**
 The wire format of the transport: the 24-byte header, the concatenation of segments
 into datagrams bounded by the mtu, and the reading of a datagram back into segments.
 */
module KcpWire {
  import opened Arithmetic32

  const OVERHEAD := 24

  const CMD_PUSH: byte := 81
  const CMD_ACK: byte := 82
  const CMD_WASK: byte := 83
  const CMD_WINS: byte := 84

  /** A segment as it appears in a datagram; `len` is the length of `data`. */
  datatype Wire = Wire(conv: u32, cmd: byte, frg: byte, wnd: u16, ts: u32, sn: int, una: int, data: seq<byte>)

  predicate KnownCommand(cmd: int) {
    cmd == CMD_PUSH || cmd == CMD_ACK || cmd == CMD_WASK || cmd == CMD_WINS
  }

  /** What the reader accepts. */
  predicate Readable(conv: u32, w: Wire) {
    w.conv == conv && KnownCommand(w.cmd) && |w.data| < M31
  }

  /** A segment as it reads after travelling: 32 bits of each sequence number are kept. */
  function Truncated(w: Wire): Wire {
    w.(sn := Wrap(w.sn), una := Wrap(w.una))
  }

  function TruncatedAll(ws: seq<Wire>): (r: seq<Wire>)
    ensures |r| == |ws|
  {
    seq(|ws|, i requires 0 <= i < |ws| => Truncated(ws[i]))
  }

  // ----- little-endian integers

  function Encode16(x: u16): (s: seq<byte>)
    ensures |s| == 2
  {
    [x % 256, x / 256]
  }

  function Encode32(x: u32): (s: seq<byte>)
    ensures |s| == 4
  {
    [x % 256, x / 0x100 % 256, x / 0x1_0000 % 256, x / 0x100_0000]
  }

  function Decode16(s: seq<byte>, i: nat): u16
    requires i + 2 <= |s|
  {
    s[i] as int + s[i + 1] as int * 0x100
  }

  function Decode32(s: seq<byte>, i: nat): u32
    requires i + 4 <= |s|
  {
    s[i] as int + s[i + 1] as int * 0x100 + s[i + 2] as int * 0x1_0000 + s[i + 3] as int * 0x100_0000
  }

  lemma Decode16Encode16(x: u16, s: seq<byte>, i: nat)
    requires i + 2 <= |s| && s[i..i + 2] == Encode16(x)
    ensures Decode16(s, i) == x
  {
    assert s[i] == s[i..i + 2][0] && s[i + 1] == s[i..i + 2][1];
  }

  lemma Decode32Encode32(x: u32, s: seq<byte>, i: nat)
    requires i + 4 <= |s| && s[i..i + 4] == Encode32(x)
    ensures Decode32(s, i) == x
  {
    var e := s[i..i + 4];
    assert s[i] == e[0] && s[i + 1] == e[1] && s[i + 2] == e[2] && s[i + 3] == e[3];
    assert x / 0x1_0000 == x / 0x100 / 0x100;
    assert x / 0x100_0000 == x / 0x1_0000 / 0x100;
  }

  // ----- segments

  function EncodeHeader(w: Wire): (s: seq<byte>)
    ensures |s| == OVERHEAD
  {
    Encode32(w.conv) + [w.cmd, w.frg] + Encode16(w.wnd) + Encode32(w.ts)
    + Encode32(Wrap(w.sn)) + Encode32(Wrap(w.una)) + Encode32(Wrap(|w.data|))
  }

  function EncodeSeg(w: Wire): (s: seq<byte>)
    ensures |s| == Size(w)
  {
    EncodeHeader(w) + w.data
  }

  /** Number of bytes a segment takes. */
  function Size(w: Wire): nat {
    OVERHEAD + |w.data|
  }

  function TotalSize(ws: seq<Wire>): nat {
    if ws == [] then 0 else TotalSize(ws[..|ws| - 1]) + Size(ws[|ws| - 1])
  }

  function EncodeAll(ws: seq<Wire>): (s: seq<byte>)
    ensures |s| == TotalSize(ws)
  {
    if ws == [] then [] else EncodeAll(ws[..|ws| - 1]) + EncodeSeg(ws[|ws| - 1])
  }

  function EncodeEach(ds: seq<seq<Wire>>): (r: seq<seq<byte>>)
    ensures |r| == |ds|
  {
    seq(|ds|, i requires 0 <= i < |ds| => EncodeAll(ds[i]))
  }

  /** A header as read, with the declared payload length in place of the payload. */
  datatype Header = Header(conv: u32, cmd: byte, frg: byte, wnd: u16, ts: u32, sn: u32, una: u32, len: u32)

  function DecodeHeader(s: seq<byte>): Header
    requires |s| >= OVERHEAD
  {
    Header(Decode32(s, 0), s[4], s[5], Decode16(s, 6), Decode32(s, 8), Decode32(s, 12),
           Decode32(s, 16), Decode32(s, 20))
  }

  function ToWire(h: Header, data: seq<byte>): Wire {
    Wire(h.conv, h.cmd, h.frg, h.wnd, h.ts, h.sn, h.una, data)
  }

  lemma DecodeHeaderOfEncoded(w: Wire, rest: seq<byte>)
    ensures DecodeHeader(EncodeSeg(w) + rest)
         == Header(w.conv, w.cmd, w.frg, w.wnd, w.ts, Wrap(w.sn), Wrap(w.una), Wrap(|w.data|))
  {
    var s := EncodeSeg(w) + rest;
    var h := EncodeHeader(w);
    assert s[..OVERHEAD] == h;
    assert s[0..4] == h[0..4] == Encode32(w.conv);
    assert s[4] == h[4] && s[5] == h[5];
    assert s[6..8] == h[6..8] == Encode16(w.wnd);
    assert s[8..12] == h[8..12] == Encode32(w.ts);
    assert s[12..16] == h[12..16] == Encode32(Wrap(w.sn));
    assert s[16..20] == h[16..20] == Encode32(Wrap(w.una));
    assert s[20..24] == h[20..24] == Encode32(Wrap(|w.data|));
    Decode32Encode32(w.conv, s, 0);
    Decode16Encode16(w.wnd, s, 6);
    Decode32Encode32(w.ts, s, 8);
    Decode32Encode32(Wrap(w.sn), s, 12);
    Decode32Encode32(Wrap(w.una), s, 16);
    Decode32Encode32(Wrap(|w.data|), s, 20);
  }

  lemma EncodeAllStep(ws: seq<Wire>)
    requires ws != []
    ensures EncodeAll(ws) == EncodeAll(ws[..|ws| - 1]) + EncodeSeg(ws[|ws| - 1])
  {
    hide EncodeSeg;
  }

  lemma Associate<T>(a: seq<T>, b: seq<T>, c: seq<T>)
    ensures (a + b) + c == a + (b + c)
  {
  }

  lemma TruncatedAllStep(ws: seq<Wire>)
    requires ws != []
    ensures TruncatedAll(ws) == TruncatedAll(ws[..|ws| - 1]) + [Truncated(ws[|ws| - 1])]
  {
  }

  // ----- packing segments into datagrams

  /**
   The output of a flush as a list of datagrams plus the datagram still being filled.
   A segment that would make the open datagram longer than `mtu` closes it first; an
   empty open datagram is never handed over.
   */
  datatype Packing = Packing(closed: seq<seq<Wire>>, open: seq<Wire>)

  function PackOne(mtu: nat, p: Packing, w: Wire): Packing {
    if TotalSize(p.open) + Size(w) > mtu
    then Packing(if p.open == [] then p.closed else p.closed + [p.open], [w])
    else p.(open := p.open + [w])
  }

  function PackAll(mtu: nat, p: Packing, ws: seq<Wire>): Packing {
    if ws == [] then p else PackOne(mtu, PackAll(mtu, p, ws[..|ws| - 1]), ws[|ws| - 1])
  }

  function Close(p: Packing): seq<seq<Wire>> {
    if p.open == [] then p.closed else p.closed + [p.open]
  }

  function Pack(mtu: nat, ws: seq<Wire>): seq<seq<Wire>> {
    Close(PackAll(mtu, Packing([], []), ws))
  }

  lemma EncodeEachSnoc(ds: seq<seq<Wire>>, d: seq<Wire>)
    ensures EncodeEach(ds + [d]) == EncodeEach(ds) + [EncodeAll(d)]
  {
  }

  function Flatten<T>(ss: seq<seq<T>>): seq<T> {
    if ss == [] then [] else Flatten(ss[..|ss| - 1]) + ss[|ss| - 1]
  }

  ghost predicate GoodDatagram(mtu: nat, d: seq<Wire>) {
    d != [] && TotalSize(d) <= mtu
  }

  ghost predicate GoodPacking(mtu: nat, p: Packing, ws: seq<Wire>) {
    && (forall d <- p.closed :: GoodDatagram(mtu, d))
    && TotalSize(p.open) <= mtu
    && Flatten(p.closed) + p.open == ws
  }

  lemma {:induction false} PackAllIsGood(mtu: nat, ws: seq<Wire>)
    requires forall i | 0 <= i < |ws| :: Size(ws[i]) <= mtu
    ensures GoodPacking(mtu, PackAll(mtu, Packing([], []), ws), ws)
  {
    if ws != [] {
      var init, w := ws[..|ws| - 1], ws[|ws| - 1];
      PackAllIsGood(mtu, init);
      var p := PackAll(mtu, Packing([], []), init);
      var q := PackOne(mtu, p, w);
      if TotalSize(p.open) + Size(w) > mtu {
        assert q.open == [w] && q.open[..0] == [];
        if p.open != [] {
          assert q.closed[..|q.closed| - 1] == p.closed;
        }
        assert Flatten(q.closed) == Flatten(p.closed) + p.open;
      } else {
        assert q.open[..|q.open| - 1] == p.open;
      }
      assert Flatten(q.closed) + q.open == ws;
    }
  }

  /** Packing loses, adds and reorders nothing, and respects the mtu. */
  lemma PackIsGood(mtu: nat, ws: seq<Wire>)
    requires forall i | 0 <= i < |ws| :: Size(ws[i]) <= mtu
    ensures forall d <- Pack(mtu, ws) :: GoodDatagram(mtu, d)
    ensures Flatten(Pack(mtu, ws)) == ws
  {
    PackAllIsGood(mtu, ws);
    var p := PackAll(mtu, Packing([], []), ws);
    if p.open != [] {
      assert Close(p)[..|Close(p)| - 1] == p.closed;
    }
  }

  // ----- reading a datagram

  /** One turn of the reading loop: it stops with a return code, or takes a segment off. */
  datatype Head = Stop(code: int) | Took(w: Wire, rest: seq<byte>)

  function ReadHead(conv: u32, data: seq<byte>): (r: Head)
    ensures r.Took? ==> |r.rest| < |data|
  {
    if |data| < OVERHEAD then Stop(0) else
    var h := DecodeHeader(data);
    if h.conv != conv then Stop(-1)
    else if |data| - OVERHEAD < h.len || h.len >= M31 then Stop(-2)
    else if !KnownCommand(h.cmd) then Stop(-3)
    else Took(ToWire(h, data[OVERHEAD..OVERHEAD + h.len]), data[OVERHEAD + h.len..])
  }

  /** Segments read from a datagram and the code `ikcp_input` returns: 0, -1, -2 or -3. */
  datatype Reading = Reading(segs: seq<Wire>, code: int)

  function Read(conv: u32, data: seq<byte>): Reading
    decreases |data|
  {
    match ReadHead(conv, data)
    case Stop(code) => Reading([], code)
    case Took(w, rest) => var r := Read(conv, rest); Reading([w] + r.segs, r.code)
  }

  lemma ReadHeadOfEncoded(conv: u32, w: Wire, rest: seq<byte>)
    requires Readable(conv, w)
    ensures ReadHead(conv, EncodeSeg(w) + rest) == Took(Truncated(w), rest)
  {
    DecodeHeaderOfEncoded(w, rest);
    var s := EncodeSeg(w) + rest;
    assert s[OVERHEAD..OVERHEAD + |w.data|] == w.data;
    assert s[OVERHEAD + |w.data|..] == rest;
  }

  lemma ReadOfEncodedSeg(conv: u32, w: Wire, rest: seq<byte>)
    requires Readable(conv, w)
    ensures Read(conv, EncodeSeg(w) + rest)
         == Reading([Truncated(w)] + Read(conv, rest).segs, Read(conv, rest).code)
  {
    ReadHeadOfEncoded(conv, w, rest);
  }

  lemma ReadEncodedStep(conv: u32, ws: seq<Wire>, rest: seq<byte>)
    requires ws != [] && Readable(conv, ws[|ws| - 1])
    ensures var init, w, r := ws[..|ws| - 1], ws[|ws| - 1], Read(conv, rest);
            && Read(conv, EncodeSeg(w) + rest) == Reading([Truncated(w)] + r.segs, r.code)
            && EncodeAll(ws) + rest == EncodeAll(init) + (EncodeSeg(w) + rest)
            && TruncatedAll(init) + ([Truncated(w)] + r.segs) == TruncatedAll(ws) + r.segs
  {
    hide *;
    var init, w, r := ws[..|ws| - 1], ws[|ws| - 1], Read(conv, rest);
    ReadOfEncodedSeg(conv, w, rest);
    EncodeAllStep(ws);
    Associate(EncodeAll(init), EncodeSeg(w), rest);
    TruncatedAllStep(ws);
    Associate(TruncatedAll(init), [Truncated(w)], r.segs);
  }

  lemma {:induction false} ReadEncodedBefore(conv: u32, ws: seq<Wire>, rest: seq<byte>)
    requires forall i | 0 <= i < |ws| :: Readable(conv, ws[i])
    ensures Read(conv, EncodeAll(ws) + rest)
         == Reading(TruncatedAll(ws) + Read(conv, rest).segs, Read(conv, rest).code)
  {
    if ws == [] {
      assert EncodeAll(ws) + rest == rest;
      assert TruncatedAll(ws) + Read(conv, rest).segs == Read(conv, rest).segs;
    } else {
      hide *;
      ReadEncodedStep(conv, ws, rest);
      ReadEncodedBefore(conv, ws[..|ws| - 1], EncodeSeg(ws[|ws| - 1]) + rest);
    }
  }

  /**
   Reading inverts encoding, field by field and payload by payload; of a sequence number
   the low 32 bits arrive.
   */
  lemma ReadEncoded(conv: u32, ws: seq<Wire>)
    requires forall i | 0 <= i < |ws| :: Readable(conv, ws[i])
    ensures Read(conv, EncodeAll(ws)) == Reading(TruncatedAll(ws), 0)
  {
    ReadEncodedBefore(conv, ws, []);
    assert EncodeAll(ws) + [] == EncodeAll(ws);
    assert TruncatedAll(ws) + [] == TruncatedAll(ws);
  }

  /** What the reading loop makes of one datagram after the other. */
  function Received(conv: u32, ds: seq<seq<byte>>): seq<Wire> {
    if ds == [] then [] else Received(conv, ds[..|ds| - 1]) + Read(conv, ds[|ds| - 1]).segs
  }

  lemma {:induction false} DatagramsAreReadBack(conv: u32, ds: seq<seq<Wire>>)
    requires forall i, j | 0 <= i < |ds| && 0 <= j < |ds[i]| :: Readable(conv, ds[i][j])
    ensures Received(conv, EncodeEach(ds)) == TruncatedAll(Flatten(ds))
  {
    hide Read, EncodeAll, Readable;
    if ds != [] {
      var init, last := ds[..|ds| - 1], ds[|ds| - 1];
      assert EncodeEach(ds)[..|ds| - 1] == EncodeEach(init);
      DatagramsAreReadBack(conv, init);
      ReadEncoded(conv, last);
      assert TruncatedAll(Flatten(init)) + TruncatedAll(last) == TruncatedAll(Flatten(init) + last);
    }
  }

  lemma {:induction false} FlattenedElement<T>(ss: seq<seq<T>>, i: nat, j: nat)
    requires i < |ss| && j < |ss[i]|
    ensures ss[i][j] in Flatten(ss)
    decreases |ss|
  {
    if i < |ss| - 1 {
      FlattenedElement(ss[..|ss| - 1], i, j);
    }
  }

  /**
   Framing round trip: the segments handed to the packer come out of the reading loop, in
   order and with their payloads, from datagrams no longer than the mtu, none of them
   empty or refused.
   */
  lemma FramingRoundTrip(conv: u32, mtu: nat, ws: seq<Wire>)
    requires forall w | w in ws :: Size(w) <= mtu && Readable(conv, w)
    ensures var ds := EncodeEach(Pack(mtu, ws));
            && Received(conv, ds) == TruncatedAll(ws)
            && forall i | 0 <= i < |ds| :: OVERHEAD <= |ds[i]| <= mtu && Read(conv, ds[i]).code == 0
  {
    hide Readable, Pack, Read, EncodeAll;
    PackIsGood(mtu, ws);
    var ds := Pack(mtu, ws);
    forall i, j | 0 <= i < |ds| && 0 <= j < |ds[i]|
      ensures Readable(conv, ds[i][j])
    {
      FlattenedElement(ds, i, j);
    }
    DatagramsAreReadBack(conv, ds);
    forall i | 0 <= i < |ds|
      ensures OVERHEAD <= |EncodeEach(ds)[i]| <= mtu && Read(conv, EncodeEach(ds)[i]).code == 0
    {
      assert GoodDatagram(mtu, ds[i]);
      ReadEncoded(conv, ds[i]);
    }
  }
}
