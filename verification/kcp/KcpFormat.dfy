/**
 The wire format byte by byte: where each field of a segment lies and in which order its
 bytes come, what a malformed datagram is refused for, and that datagrams are filled up.
 */
module KcpFormat {
  import opened Arithmetic32
  import opened KcpWire
  import opened KcpState

  /** The number bytes stand for, the lowest first. */
  function Little(s: seq<byte>): nat {
    if s == [] then 0 else s[0] as int + 256 * Little(s[1..])
  }

  lemma LittleTwo(s: seq<byte>)
    requires |s| == 2
    ensures Little(s) == s[0] as int + 0x100 * s[1] as int
  {
    assert s[1..][1..] == [];
    assert Little(s[1..]) == s[1];
  }

  lemma LittleFour(s: seq<byte>)
    requires |s| == 4
    ensures Little(s) == s[0] as int + 0x100 * s[1] as int + 0x1_0000 * s[2] as int + 0x100_0000 * s[3] as int
  {
    assert s[1..][1..] == s[2..] && s[2..][1..] == s[3..] && s[3..][1..] == [];
    assert Little(s[3..]) == s[3];
    assert Little(s[2..]) == s[2] as int + 256 * s[3] as int;
  }

  lemma Decode32Is(s: seq<byte>, i: nat)
    requires i + 4 <= |s|
    ensures Decode32(s, i) == Little(s[i..i + 4])
  {
    LittleFour(s[i..i + 4]);
  }

  lemma Decode16Is(s: seq<byte>, i: nat)
    requires i + 2 <= |s|
    ensures Decode16(s, i) == Little(s[i..i + 2])
  {
    LittleTwo(s[i..i + 2]);
  }

  /** A segment in bytes: its fields lie where the protocol has them, the lowest byte first. */
  ghost predicate LaidOut(s: seq<byte>, w: Wire) {
    && |s| == 24 + |w.data|
    && Little(s[0..4]) == w.conv && s[4] == w.cmd && s[5] == w.frg && Little(s[6..8]) == w.wnd
    && Little(s[8..12]) == w.ts && Little(s[12..16]) == w.sn % 0x1_0000_0000
    && Little(s[16..20]) == w.una % 0x1_0000_0000 && Little(s[20..24]) == |w.data| % 0x1_0000_0000
    && s[24..] == w.data
  }

  lemma EncodedIsLaidOut(w: Wire)
    ensures LaidOut(EncodeSeg(w), w)
  {
    var s := EncodeSeg(w);
    DecodeHeaderOfEncoded(w, []);
    assert s + [] == s;
    Decode32Is(s, 0);
    Decode16Is(s, 6);
    Decode32Is(s, 8);
    Decode32Is(s, 12);
    Decode32Is(s, 16);
    Decode32Is(s, 20);
    PayloadIs(w);
    hide EncodeSeg, Little;
  }

  lemma PayloadIs(w: Wire)
    ensures EncodeSeg(w)[24..] == w.data
  {
    hide EncodeHeader;
  }

  /** The commands, as the protocol numbers them. */
  lemma CommandsAre(cmd: int)
    ensures KnownCommand(cmd) <==> 81 <= cmd <= 84
    ensures [CMD_PUSH, CMD_ACK, CMD_WASK, CMD_WINS] == [81, 82, 83, 84]
  {
  }

  // ----- malformed datagrams

  /** Why the reading stops at `data`, if it does: too short, of another conversation, cut off, or of no known command. */
  lemma ReadingStops(conv: u32, data: seq<byte>)
    ensures var r := Read(conv, data);
            if |data| < 24 then r == Reading([], 0)
            else if Little(data[0..4]) != conv then r == Reading([], -1)
            else if Little(data[20..24]) > |data| - 24 || Little(data[20..24]) >= 0x8000_0000 then r == Reading([], -2)
            else if !(81 <= data[4] <= 84) then r == Reading([], -3)
            else
              var n := 24 + Little(data[20..24]);
              && n <= |data| && r.segs != [] && LaidOut(data[..n], r.segs[0])
              && r == Reading([r.segs[0]] + Read(conv, data[n..]).segs, Read(conv, data[n..]).code)
  {
    if |data| >= 24 {
      Decode32Is(data, 0);
      Decode32Is(data, 20);
      CommandsAre(data[4]);
      hide Little, Decode32, Decode16;
      var h := DecodeHeader(data);
      if h.conv == conv && h.len <= |data| - 24 && h.len < 0x8000_0000 && KnownCommand(h.cmd) {
        var n := 24 + h.len;
        HeadIsLaidOut(data, n);
      }
    }
  }

  lemma HeadIsLaidOut(data: seq<byte>, n: nat)
    requires |data| >= 24 && n == 24 + DecodeHeader(data).len <= |data|
    ensures LaidOut(data[..n], ToWire(DecodeHeader(data), data[24..n]))
  {
    Decode32Is(data, 0);
    Decode16Is(data, 6);
    Decode32Is(data, 8);
    Decode32Is(data, 12);
    Decode32Is(data, 16);
    Decode32Is(data, 20);
    hide Little, Decode32, Decode16;
    var s := data[..n];
    assert s[0..4] == data[0..4] && s[6..8] == data[6..8] && s[8..12] == data[8..12];
    assert s[12..16] == data[12..16] && s[16..20] == data[16..20] && s[20..24] == data[20..24];
    assert s[24..] == data[24..n];
  }

  /**
   The codes of `ikcp_input`: -1 for less than a header, and otherwise what the reading stopped
   for. After a malformed segment the window does not grow, and what the segments before it
   did stays done.
   */
  lemma InputCodes(k: Kcb, data: seq<byte>)
    ensures |data| < 24 ==> Input(k, data) == (k, -1)
    ensures |data| >= 24 ==> Input(k, data).1 == Read(k.ctl.conv, data).code
    ensures |data| >= 24 && Read(k.ctl.conv, data).code != 0 ==>
      Input(k, data).0 == InputSegs(Mod32, Parse(k, NoAck), Read(k.ctl.conv, data).segs).k
  {
    hide Read, InputSegs, InputTail;
  }

  // ----- packing

  ghost predicate NoRoom(mtu: nat, d: seq<Wire>, next: seq<Wire>) {
    next != [] && TotalSize(d) + Size(next[0]) > mtu
  }

  /** Each datagram is filled up: the first segment of the next one would not have fitted. */
  ghost predicate Filled(mtu: nat, ds: seq<seq<Wire>>) {
    forall i | 0 < i < |ds| :: NoRoom(mtu, ds[i - 1], ds[i])
  }

  lemma FilledMore(mtu: nat, ds: seq<seq<Wire>>, d: seq<Wire>)
    requires Filled(mtu, ds) && (ds != [] ==> NoRoom(mtu, ds[|ds| - 1], d))
    ensures Filled(mtu, ds + [d])
  {
    hide NoRoom;
  }

  lemma FilledOpen(mtu: nat, ds: seq<seq<Wire>>, d: seq<Wire>, w: Wire)
    requires Filled(mtu, ds + [d]) && d != []
    ensures Filled(mtu, ds + [d + [w]])
  {
    hide TotalSize;
    var es, fs := ds + [d], ds + [d + [w]];
    forall i | 0 < i < |fs|
      ensures NoRoom(mtu, fs[i - 1], fs[i])
    {
      assert fs[i - 1] == es[i - 1] && NoRoom(mtu, es[i - 1], es[i]);
      if i == |ds| {
        assert fs[i] == d + [w] && es[i] == d;
      } else {
        assert fs[i] == es[i];
      }
    }
  }

  lemma {:induction false} PackAllIsFilled(mtu: nat, ws: seq<Wire>)
    ensures Filled(mtu, Close(PackAll(mtu, Packing([], []), ws)))
    ensures var p := PackAll(mtu, Packing([], []), ws); p.open == [] ==> p.closed == []
    decreases |ws|
  {
    if ws != [] {
      var front, w := ws[..|ws| - 1], ws[|ws| - 1];
      var p := PackAll(mtu, Packing([], []), front);
      PackAllIsFilled(mtu, front);
      hide TotalSize, Filled;
      if TotalSize(p.open) + Size(w) > mtu {
        NoneFilled(mtu);
        if p.open != [] {
          assert Close(p)[|Close(p)| - 1] == p.open;
        }
        FilledMore(mtu, Close(p), [w]);
      } else if p.open == [] {
        OneFilled(mtu, [w]);
      } else {
        FilledOpen(mtu, p.closed, p.open, w);
      }
    }
  }

  lemma NoneFilled(mtu: nat)
    ensures Filled(mtu, [])
  {
  }

  lemma OneFilled(mtu: nat, d: seq<Wire>)
    ensures Filled(mtu, [] + [d])
  {
  }

  /** The datagrams of a flush are filled up. */
  lemma PackIsFilled(mtu: nat, ws: seq<Wire>)
    ensures Filled(mtu, Pack(mtu, ws))
  {
    PackAllIsFilled(mtu, ws);
    hide PackAll, Filled;
  }
}
