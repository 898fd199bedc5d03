/**
 The 12-byte header of the handshake: its serialisation, its ones'-complement checksum and
 the tests for the four kinds of it.
 */
module KcpHeader {
  import opened Arithmetic32

  const HEADER_SIZE := 12

  datatype Kcphdr = Kcphdr(seqNo: u32, ack: u32, flag: byte, padding: byte, sum: u16)

  const NO_HEADER := Kcphdr(0, 0, 0, 0, 0)

  // ----- the flag bits, from the lowest: two of padding, fin, syn, rst, psh, ack, urg

  const FIN: byte := 4
  const SYN: byte := 8
  const ACK: byte := 64

  /** The six flags, without the padding. */
  function Flags(flag: byte): (f: byte)
    ensures f % 4 == 0 && f <= flag < f + 4
  {
    flag / 4 * 4
  }

  // ----- big-endian integers

  function Write16(x: u16): (s: seq<byte>)
    ensures |s| == 2
  {
    [x / 0x100, x % 0x100]
  }

  function Write32(x: u32): (s: seq<byte>)
    ensures |s| == 4
  {
    [x / 0x100_0000, x / 0x1_0000 % 0x100, x / 0x100 % 0x100, x % 0x100]
  }

  function Read16(s: seq<byte>, i: nat): u16
    requires i + 2 <= |s|
  {
    s[i] as int * 0x100 + s[i + 1] as int
  }

  function Read32(s: seq<byte>, i: nat): u32
    requires i + 4 <= |s|
  {
    s[i] as int * 0x100_0000 + s[i + 1] as int * 0x1_0000 + s[i + 2] as int * 0x100 + s[i + 3] as int
  }

  /** `to_string`. */
  function ToString(h: Kcphdr): (s: seq<byte>)
    ensures |s| == HEADER_SIZE
  {
    Write32(h.seqNo) + Write32(h.ack) + [h.flag, h.padding] + Write16(h.sum)
  }

  /** `to_kcphdr`: what is too short reads as zeros. */
  function ToKcphdr(s: seq<byte>): Kcphdr {
    if |s| >= HEADER_SIZE then Kcphdr(Read32(s, 0), Read32(s, 4), s[8], s[9], Read16(s, 10)) else NO_HEADER
  }

  lemma ReadWrite32(x: u32, s: seq<byte>, i: nat)
    requires i + 4 <= |s| && s[i..i + 4] == Write32(x)
    ensures Read32(s, i) == x
  {
    var w := s[i..i + 4];
    assert s[i] == w[0] && s[i + 1] == w[1] && s[i + 2] == w[2] && s[i + 3] == w[3];
    SumOfDigits(x);
  }

  lemma SumOfDigits(x: u32)
    ensures x == x / 0x100_0000 * 0x100_0000 + x / 0x1_0000 % 0x100 * 0x1_0000 + x / 0x100 % 0x100 * 0x100 + x % 0x100
  {
    DivTwice(x);
    var abc := x / 0x100;
    var ab := abc / 0x100;
    assert x == abc * 0x100 + x % 0x100;
    assert abc == ab * 0x100 + abc % 0x100;
    assert ab == ab / 0x100 * 0x100 + ab % 0x100;
  }

  lemma WriteRead32(s: seq<byte>, i: nat)
    requires i + 4 <= |s|
    ensures Write32(Read32(s, i)) == s[i..i + 4]
  {
    Digits(s[i], s[i + 1], s[i + 2], s[i + 3]);
  }

  lemma DivTwice(x: nat)
    ensures x / 0x1_0000 == x / 0x100 / 0x100
    ensures x / 0x100_0000 == x / 0x100 / 0x100 / 0x100
  {
  }

  lemma LastDigit(q: nat, r: byte)
    ensures (q * 0x100 + r) / 0x100 == q && (q * 0x100 + r) % 0x100 == r
  {
  }

  lemma Digits(a: byte, b: byte, c: byte, d: byte)
    ensures var x := a as int * 0x100_0000 + b as int * 0x1_0000 + c as int * 0x100 + d as int;
            x / 0x100_0000 == a && x / 0x1_0000 % 0x100 == b && x / 0x100 % 0x100 == c && x % 0x100 == d
  {
    var ab := a as int * 0x100 + b as int;
    var abc := ab * 0x100 + c as int;
    var x := abc * 0x100 + d as int;
    assert x == a as int * 0x100_0000 + b as int * 0x1_0000 + c as int * 0x100 + d as int;
    LastDigit(a, b);
    LastDigit(ab, c);
    LastDigit(abc, d);
    DivTwice(x);
  }

  /** Reading undoes writing, for every header; anything behind it is not read. */
  lemma ReadUndoesWrite(h: Kcphdr, more: seq<byte>)
    ensures ToKcphdr(ToString(h) + more) == h
  {
    var s := ToString(h) + more;
    assert s[0..4] == Write32(h.seqNo) && s[4..8] == Write32(h.ack);
    assert s[8] == h.flag && s[9] == h.padding && s[10] == h.sum / 0x100 && s[11] == h.sum % 0x100;
    ReadWrite32(h.seqNo, s, 0);
    ReadWrite32(h.ack, s, 4);
  }

  /** And writing undoes reading: twelve bytes are exactly a header. */
  lemma WriteUndoesRead(s: seq<byte>)
    requires |s| == HEADER_SIZE
    ensures ToString(ToKcphdr(s)) == s
  {
    WriteRead32(s, 0);
    WriteRead32(s, 4);
    var h := ToKcphdr(s);
    assert s == s[0..4] + s[4..8] + [s[8], s[9]] + s[10..12];
    assert Write16(h.sum) == s[10..12];
  }

  /** The number bytes stand for, the highest first. */
  function Big(s: seq<byte>): nat {
    if s == [] then 0 else 256 * Big(s[..|s| - 1]) + s[|s| - 1] as int
  }

  lemma BigTwo(s: seq<byte>)
    requires |s| == 2
    ensures Big(s) == s[0] as int * 0x100 + s[1] as int
  {
    assert s[..1][..0] == [];
    assert Big(s[..1]) == s[0] as int;
  }

  lemma BigFour(s: seq<byte>)
    requires |s| == 4
    ensures Big(s) == s[0] as int * 0x100_0000 + s[1] as int * 0x1_0000 + s[2] as int * 0x100 + s[3] as int
  {
    assert s[..3][..2] == s[..2];
    BigTwo(s[..2]);
  }

  /** A header in bytes: its fields lie where the protocol has them, the highest byte first. */
  lemma HeaderIsLaidOut(h: Kcphdr)
    ensures var s := ToString(h);
            && |s| == 12 && Big(s[0..4]) == h.seqNo && Big(s[4..8]) == h.ack
            && s[8] == h.flag && s[9] == h.padding && Big(s[10..12]) == h.sum
  {
    var s := ToString(h);
    assert s[0..4] == Write32(h.seqNo) && s[4..8] == Write32(h.ack) && s[10..12] == Write16(h.sum);
    BigFour(s[0..4]);
    BigFour(s[4..8]);
    BigTwo(s[10..12]);
    SumOfDigits(h.seqNo);
    SumOfDigits(h.ack);
    hide Big, ToString;
  }

  /** Less than a header reads as nothing. */
  lemma ShortReadsAsNothing(s: seq<byte>)
    ensures |s| < 12 ==> ToKcphdr(s) == Kcphdr(0, 0, 0, 0, 0)
  {
  }

  // ----- the checksum

  /** The 16-bit words of the data, read in little-endian order, added up; a last odd byte counts as a word. */
  function WordSum(s: seq<byte>): nat {
    if s == [] then 0
    else if |s| == 1 then s[0]
    else s[0] as int + s[1] as int * 0x100 + WordSum(s[2..])
  }

  /** The bytes at even and at odd places, added up. */
  function EvenBytes(s: seq<byte>): nat {
    if s == [] then 0 else EvenBytes(s[..|s| - 1]) + if |s| % 2 == 1 then s[|s| - 1] else 0
  }

  function OddBytes(s: seq<byte>): nat {
    if s == [] then 0 else OddBytes(s[..|s| - 1]) + if |s| % 2 == 0 then s[|s| - 1] else 0
  }

  /** The first byte of each word is its low one. */
  lemma {:induction false} WordsAreSummed(s: seq<byte>)
    ensures WordSum(s) == EvenBytes(s) + 256 * OddBytes(s)
    decreases |s|
  {
    if |s| % 2 == 1 {
      OneMore(s);
      WordsAreSummed(s[..|s| - 1]);
    } else if s != [] {
      var n := |s| - 2;
      TwoMore(s, n);
      assert s[..n + 2] == s && s[..|s| - 1][..n] == s[..n];
      WordsAreSummed(s[..n]);
    }
  }

  /** The carries above 16 bits are added in again until there are none. */
  function Fold(sum: nat): (r: u16)
    ensures r as int % 0xffff == sum % 0xffff
    ensures r == 0 <==> sum == 0
    decreases sum
  {
    if sum / 0x1_0000 != 0 then
      FoldStep(sum);
      Fold(sum % 0x1_0000 + sum / 0x1_0000)
    else sum
  }

  lemma FoldStep(sum: nat)
    requires sum >= 0x1_0000
    ensures 0 < sum % 0x1_0000 + sum / 0x1_0000 < sum
    ensures (sum % 0x1_0000 + sum / 0x1_0000) % 0xffff == sum % 0xffff
  {
    var high, low := sum / 0x1_0000, sum % 0x1_0000;
    assert sum == (low + high) + high * 0xffff;
    ModMultiple(low + high, high);
  }

  lemma ModMultiple(x: nat, k: nat)
    ensures (x + k * 0xffff) % 0xffff == x % 0xffff
  {
  }

  function Checksum(s: seq<byte>): u16 {
    0xffff - Fold(WordSum(s))
  }

  /**
   What the checksum is: with the words it is a multiple of 65535 (section 1 of RFC 1071),
   and it is the smallest number that is, unless all words are zero.
   */
  lemma ChecksumComplements(s: seq<byte>)
    ensures (Checksum(s) + WordSum(s)) % 0xffff == 0
    ensures Checksum(s) == if WordSum(s) == 0 then 0xffff else (0xffff - WordSum(s) % 0xffff) % 0xffff
  {
    hide WordSum, Fold;
    Complement(WordSum(s), Fold(WordSum(s)));
  }

  lemma Complement(w: nat, f: u16)
    requires f % 0xffff == w % 0xffff && (f == 0 <==> w == 0)
    ensures (0xffff - f + w) % 0xffff == 0
    ensures 0xffff - f == if w == 0 then 0xffff else (0xffff - w % 0xffff) % 0xffff
  {
    var q, r := w / 0xffff, w % 0xffff;
    assert w == q * 0xffff + r;
    if f == 0xffff {
      ModMultiple(0, q);
    } else {
      assert f == r;
      ModMultiple(0, q + 1);
    }
  }

  lemma {:induction false} TwoMore(s: seq<byte>, i: nat)
    requires i + 2 <= |s| && i % 2 == 0
    ensures WordSum(s[..i + 2]) == WordSum(s[..i]) + s[i] as int + s[i + 1] as int * 0x100
    decreases i
  {
    if i > 0 {
      var t := s[2..];
      TwoMore(t, i - 2);
      assert s[..i + 2][2..] == t[..i] && s[..i][2..] == t[..i - 2];
    } else {
      assert s[..2][2..] == [] && s[..0] == [];
    }
  }

  lemma {:induction false} OneMore(s: seq<byte>)
    requires |s| % 2 == 1
    ensures WordSum(s) == WordSum(s[..|s| - 1]) + s[|s| - 1] as int
  {
    if |s| > 1 {
      OneMore(s[2..]);
      assert s[..|s| - 1][2..] == s[2..][..|s| - 3];
    }
  }

  /** `checksum` over the first `size` bytes. */
  method ComputeChecksum(data: seq<byte>, size: nat) returns (c: u16)
    requires size <= |data|
    ensures c == Checksum(data[..size])
  {
    var sum, at, left := 0, 0, size;
    while left > 1
      invariant at + left == size && at % 2 == 0 && sum == WordSum(data[..at])
    {
      TwoMore(data, at);
      sum := sum + (data[at] as int + data[at + 1] as int * 0x100);
      at := at + 2;
      left := left - 2;
    }
    if left > 0 {
      sum := sum + data[at] as int;
      OneMore(data[..size]);
      assert data[..size][..size - 1] == data[..at];
    }
    assert sum == WordSum(data[..size]);
    while sum / 0x1_0000 != 0
      invariant sum >= 0 && Fold(sum) == Fold(WordSum(data[..size]))
      decreases sum
    {
      FoldStep(sum);
      sum := sum % 0x1_0000 + sum / 0x1_0000;
    }
    c := 0xffff - sum;
  }

  // ----- making and testing headers

  function HeaderChecksum(s: seq<byte>): u16
    requires |s| == HEADER_SIZE
  {
    Checksum(s[..HEADER_SIZE - 2])
  }

  function Sealed(h: Kcphdr): Kcphdr {
    h.(sum := HeaderChecksum(ToString(h)))
  }

  function MakeSyn(conv: u32, seqNo: u32): Kcphdr {
    Sealed(NO_HEADER.(seqNo := seqNo, ack := conv, flag := SYN))
  }

  function MakeSynAck(conv: u32, ack: u32): Kcphdr {
    Sealed(NO_HEADER.(seqNo := conv, ack := Wrap(ack + 1), flag := ACK + SYN))
  }

  function MakeAck(ack: u32): Kcphdr {
    Sealed(NO_HEADER.(ack := Wrap(ack + 1), flag := ACK))
  }

  function MakeFin(seqNo: u32): Kcphdr {
    Sealed(NO_HEADER.(seqNo := seqNo, flag := FIN))
  }

  /** Twelve bytes with the given flags and the right checksum. */
  predicate IsKind(s: seq<byte>, flags: byte) {
    |s| == HEADER_SIZE && Flags(ToKcphdr(s).flag) == flags && ToKcphdr(s).sum == HeaderChecksum(s)
  }

  predicate IsSyn(s: seq<byte>) {
    IsKind(s, SYN)
  }

  predicate IsSynAck(s: seq<byte>, seqNo: u32, ignoreSeq: bool) {
    IsKind(s, ACK + SYN) && (ignoreSeq || ToKcphdr(s).ack == Wrap(seqNo + 1))
  }

  predicate IsAck(s: seq<byte>, seqNo: u32, ignoreSeq: bool) {
    IsKind(s, ACK) && (ignoreSeq || ToKcphdr(s).ack == Wrap(seqNo + 1))
  }

  predicate IsFin(s: seq<byte>) {
    IsKind(s, FIN)
  }

  /** A sealed header is of the kind its flags say, and of no other. */
  lemma SealedIsKind(h: Kcphdr, flags: byte)
    ensures ToKcphdr(ToString(Sealed(h))) == Sealed(h)
    ensures IsKind(ToString(Sealed(h)), flags) <==> Flags(h.flag) == flags
  {
    var s := Sealed(h);
    ReadUndoesWrite(s, []);
    assert ToString(s) + [] == ToString(s);
    assert ToString(s)[..HEADER_SIZE - 2] == ToString(h)[..HEADER_SIZE - 2];
  }

  /** What the headers say, bit for bit: SYN, SYN and ACK, ACK, and FIN, with the numbers they carry. */
  lemma HeadersAre(conv: u32, n: u32)
    ensures var h := MakeSyn(conv, n); h.flag == 0x08 && h.seqNo == n && h.ack == conv && h.padding == 0
    ensures var h := MakeSynAck(conv, n); h.flag == 0x48 && h.seqNo == conv && h.ack == (n + 1) % 0x1_0000_0000 && h.padding == 0
    ensures var h := MakeAck(n); h.flag == 0x40 && h.seqNo == 0 && h.ack == (n + 1) % 0x1_0000_0000 && h.padding == 0
    ensures var h := MakeFin(n); h.flag == 0x04 && h.seqNo == n && h.ack == 0 && h.padding == 0
  {
    hide HeaderChecksum, ToString;
  }

  /**
   The four tests, bit for bit: twelve bytes whose flags, but for the two bits of padding, are
   those of the kind, and whose last two bytes are the checksum of the ten before.
   */
  lemma TestsAre(s: seq<byte>, n: u32, ignoreSeq: bool)
    ensures var fits := |s| == 12 && Big(s[10..12]) == Checksum(s[..10]);
            && (IsSyn(s) <==> fits && s[8] / 4 == 0x08 / 4)
            && (IsFin(s) <==> fits && s[8] / 4 == 0x04 / 4)
            && (IsSynAck(s, n, ignoreSeq) <==> fits && s[8] / 4 == 0x48 / 4 && (ignoreSeq || Big(s[4..8]) == (n + 1) % 0x1_0000_0000))
            && (IsAck(s, n, ignoreSeq) <==> fits && s[8] / 4 == 0x40 / 4 && (ignoreSeq || Big(s[4..8]) == (n + 1) % 0x1_0000_0000))
  {
    if |s| == 12 {
      BigFour(s[4..8]);
      BigTwo(s[10..12]);
    }
    hide Checksum, Big;
  }

  lemma WrapIsInjective(a: u32, b: u32)
    ensures Wrap(a + 1) == Wrap(b + 1) <==> a == b
  {
  }

  /** Every header made passes exactly the test for its own kind, and only for its own sequence number. */
  lemma MadePassOwnTest(conv: u32, n: u32, expected: u32, ignoreSeq: bool)
    ensures var s := ToString(MakeSyn(conv, n));
            IsSyn(s) && !IsSynAck(s, expected, ignoreSeq) && !IsAck(s, expected, ignoreSeq) && !IsFin(s)
    ensures var s := ToString(MakeSynAck(conv, n));
            !IsSyn(s) && (IsSynAck(s, expected, ignoreSeq) <==> ignoreSeq || expected == n)
            && !IsAck(s, expected, ignoreSeq) && !IsFin(s)
    ensures var s := ToString(MakeAck(n));
            !IsSyn(s) && !IsSynAck(s, expected, ignoreSeq)
            && (IsAck(s, expected, ignoreSeq) <==> ignoreSeq || expected == n) && !IsFin(s)
    ensures var s := ToString(MakeFin(n));
            !IsSyn(s) && !IsSynAck(s, expected, ignoreSeq) && !IsAck(s, expected, ignoreSeq) && IsFin(s)
  {
    hide ToString, ToKcphdr, IsKind, HeaderChecksum;
    WrapIsInjective(expected, n);
    TestsOf(NO_HEADER.(seqNo := n, ack := conv, flag := SYN));
    TestsOf(NO_HEADER.(seqNo := conv, ack := Wrap(n + 1), flag := ACK + SYN));
    TestsOf(NO_HEADER.(ack := Wrap(n + 1), flag := ACK));
    TestsOf(NO_HEADER.(seqNo := n, flag := FIN));
  }

  lemma TestsOf(h: Kcphdr)
    ensures ToKcphdr(ToString(Sealed(h))) == Sealed(h)
    ensures forall flags: byte | flags == SYN || flags == ACK + SYN || flags == ACK || flags == FIN ::
              IsKind(ToString(Sealed(h)), flags) <==> Flags(h.flag) == flags
  {
    SealedIsKind(h, SYN);
    SealedIsKind(h, ACK + SYN);
    SealedIsKind(h, ACK);
    SealedIsKind(h, FIN);
  }
}
