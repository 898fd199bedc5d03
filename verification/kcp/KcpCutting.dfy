/**
 How `ikcp_send` cuts what it is given: which messages it takes, and that every segment but
 the last is as long as a segment can be.
 */
module KcpCutting {
  import opened Arithmetic32
  import opened KcpWire
  import opened KcpState
  import opened KcpMessages

  lemma TimesGrow(a: int, b: int, m: nat)
    requires a <= b
    ensures a * m <= b * m
  {
  }

  /** The least number of segments that hold `len` bytes, but at least one. */
  lemma CountIsLeast(mss: nat, len: nat)
    requires mss > 0
    ensures var n := FragmentCount(mss, len); n >= 1 && len <= n * mss && (n > 1 ==> (n - 1) * mss < len)
    ensures forall m: nat | m >= 1 && len <= m * mss :: FragmentCount(mss, len) <= m
  {
    CountSuffices(mss, len);
    var n := FragmentCount(mss, len);
    if len > mss {
      var x := len + mss - 1;
      assert x == mss * (x / mss) + x % mss;
      assert (n - 1) * mss == mss * (x / mss) - mss;
    }
    hide FragmentCount;
    forall m: nat | m >= 1 && len <= m * mss
      ensures n <= m
    {
      if n > m {
        TimesGrow(m, n - 1, mss);
      }
    }
  }

  /** All segments but the last are full, and the last holds something if there is anything. */
  ghost predicate CutFull(fs: seq<Frag>, mss: int) {
    && (forall i | 0 <= i < |fs| - 1 :: |fs[i].data| == mss)
    && (|fs| > 1 ==> fs[|fs| - 1].data != [])
  }

  lemma OneFragment(mss: int, data: seq<byte>, stream: bool)
    requires mss > 0 && |data| <= mss
    ensures Fragments(mss, data, 1, stream) == [Frag(0, data)]
  {
    assert data[..|data|] == data;
  }

  lemma FirstFragment(mss: int, data: seq<byte>, count: nat, stream: bool)
    requires mss > 0 && 1 < count <= 256 && |data| >= mss
    ensures Fragments(mss, data, count, stream) ==
      [Frag(if stream then 0 else count - 1, data[..mss])] + Fragments(mss, data[mss..], count - 1, stream)
  {
  }

  lemma CutFullBefore(f: Frag, fs: seq<Frag>, mss: int)
    requires CutFull(fs, mss) && fs != [] && |f.data| == mss && fs[|fs| - 1].data != []
    ensures CutFull([f] + fs, mss)
  {
  }

  lemma Narrow(count: nat, mss: nat, len: nat)
    requires count > 1 && mss > 0 && (count - 1) * mss < len <= count * mss
    ensures len > mss && (count - 2) * mss < len - mss <= (count - 1) * mss
  {
    TimesGrow(1, count - 1, mss);
    assert (count - 1) * mss == (count - 2) * mss + mss && count * mss == (count - 1) * mss + mss;
  }

  lemma {:induction false} FragmentsAreFull(mss: int, data: seq<byte>, count: nat, stream: bool)
    requires mss > 0 && 0 < count <= 256 && |data| <= count * mss && (count > 1 ==> (count - 1) * mss < |data|)
    ensures var fs := Fragments(mss, data, count, stream);
            CutFull(fs, mss) && fs != [] && (data != [] ==> fs[|fs| - 1].data != [])
    decreases count
  {
    if count == 1 {
      OneFragment(mss, data, stream);
    } else {
      Narrow(count, mss, |data|);
      hide Fragments;
      FirstFragment(mss, data, count, stream);
      FragmentsAreFull(mss, data[mss..], count - 1, stream);
      CutFullBefore(Frag(if stream then 0 else count - 1, data[..mss]), Fragments(mss, data[mss..], count - 1, stream), mss);
    }
  }

  lemma CountBelow(mss: nat, len: nat)
    requires mss > 0
    ensures FragmentCount(mss, len) < 128 <==> len <= 127 * mss
  {
    CountIsLeast(mss, len);
    var n := FragmentCount(mss, len);
    hide FragmentCount;
    if n <= 127 {
      TimesGrow(n, 127, mss);
    }
  }

  /**
   In message mode a message is taken exactly if 127 segments hold it; it is queued behind
   what is there, in full segments that count down to 0. A longer one changes nothing.
   */
  lemma MessageIsTaken(k: Kcb, data: seq<byte>)
    requires !k.ctl.stream
    ensures var (k', code) := Send(k, data);
            && (code == 0 <==> |data| <= 127 * Mss(k.ctl)) && code in {0, -2}
            && (code != 0 ==> k' == k)
            && k'.snd.queue[..Min(|k.snd.queue|, |k'.snd.queue|)] == k.snd.queue
            && (code == 0 ==>
                  var fs := k'.snd.queue[Min(|k.snd.queue|, |k'.snd.queue|)..];
                  && CutFull(fs, Mss(k.ctl)) && Bytes(fs) == data && fs != []
                  && (forall i | 0 <= i < |fs| :: fs[i].frg == |fs| - 1 - i))
  {
    var mss, n := Mss(k.ctl), FragmentCount(Mss(k.ctl), |data|);
    CountBelow(mss, |data|);
    CountIsLeast(mss, |data|);
    assert data[0..] == data;
    if n < 128 {
      TimesGrow(0, n - 1, mss);
      if n == 1 {
        assert (n - 1) * mss == 0;
      }
      FragmentsAreFull(mss, data, n, false);
      FragmentsCarry(mss, data, n, false);
      var fs := Fragments(mss, data, n, false);
      hide Fragments, FragmentCount, CutFull, Bytes;
      var k' := Send(k, data).0;
      assert k'.snd.queue == k.snd.queue + fs;
      assert k'.snd.queue[|k.snd.queue|..] == fs;
    } else {
      hide Fragments, FragmentCount;
      assert Send(k, data) == (k, -2);
      assert k.snd.queue[|k.snd.queue|..] == [];
    }
  }

  // ----- streams

  /** The room in the last queued segment. */
  function Room(queue: seq<Frag>, mss: int): int {
    if queue == [] then 0 else mss - |queue[|queue| - 1].data|
  }

  /**
   In stream mode the last queued segment is filled up first; what is left is queued in full
   segments, if 127 hold it. All are marked as whole.
   */
  lemma StreamIsFilled(k: Kcb, data: seq<byte>)
    requires k.ctl.stream && Room(k.snd.queue, Mss(k.ctl)) >= 0
    ensures var (k', code) := Send(k, data);
            var q, room := k.snd.queue, Min(Room(k.snd.queue, Mss(k.ctl)), |data|);
            var n := |q|;
            && (code == 0 <==> |data| - room <= 127 * Mss(k.ctl)) && code in {0, -2}
            && n <= |k'.snd.queue|
            && k'.snd.queue[..n] == (if room == 0 && (n == 0 || Room(q, Mss(k.ctl)) == 0) then q
                                     else q[..n - 1] + [Frag(0, q[n - 1].data + data[..room])])
            && (code != 0 || |data| == room ==> |k'.snd.queue| == n)
            && (code == 0 && |data| > room ==>
                  var fs := k'.snd.queue[n..];
                  && CutFull(fs, Mss(k.ctl)) && Bytes(fs) == data[room..]
                  && (forall i | 0 <= i < |fs| :: fs[i].frg == 0))
  {
    var mss, q := Mss(k.ctl), k.snd.queue;
    var room := Min(Room(q, mss), |data|);
    ExtensionIsRoom(k, data);
    var rest := data[room..];
    var s := Extend(k.snd, k.ctl, data);
    CountBelow(mss, |rest|);
    CountIsLeast(mss, |rest|);
    var n := FragmentCount(mss, |rest|);
    if rest == [] {
      hide Extend, Extension, Fragments, FragmentCount, CutFull, Bytes;
      assert Send(k, data) == (k.(snd := s), 0);
    } else if n < 128 {
      TimesGrow(0, n - 1, mss);
      if n == 1 {
        assert (n - 1) * mss == 0;
      }
      FragmentsAreFull(mss, rest, n, true);
      FragmentsCarry(mss, rest, n, true);
      var fs := Fragments(mss, rest, n, true);
      hide Extend, Extension, Fragments, FragmentCount, CutFull, Bytes;
      assert Send(k, data).0.snd.queue == s.queue + fs;
      assert (s.queue + fs)[|q|..] == fs;
    } else {
      hide Extend, Extension, Fragments, FragmentCount, CutFull, Bytes;
      assert Send(k, data) == (k.(snd := s), -2);
    }
  }

  lemma ExtensionIsRoom(k: Kcb, data: seq<byte>)
    requires k.ctl.stream && Room(k.snd.queue, Mss(k.ctl)) >= 0
    ensures var q, room := k.snd.queue, Min(Room(k.snd.queue, Mss(k.ctl)), |data|);
            var n := |q|;
            && Extension(k.snd, k.ctl, data) == room
            && Extend(k.snd, k.ctl, data).queue == (if room == 0 && (n == 0 || Room(q, Mss(k.ctl)) == 0) then q
                                                    else q[..n - 1] + [Frag(0, q[n - 1].data + data[..room])])
            && |Extend(k.snd, k.ctl, data).queue| == n
  {
  }
}
