/**
 The congestion window in 32-bit arithmetic: `cwnd` counts segments, `incr` counts bytes,
 and growing and shrinking keep the two within one segment of each other, under settings
 that can be told exactly.
 */
module KcpCongestion {
  import opened Arithmetic32
  import opened KcpWire
  import opened KcpState

  /** Half a number of segments, but no less than the smallest threshold. */
  function Half(segments: int): int {
    Max(segments / 2, THRESH_MIN)
  }

  /** With a peer window of at most `w` segments, the largest step of congestion avoidance stays below 2^32. */
  predicate GrowthFits(mss: int, w: int)
  {
    w * mss > 1 && w * mss - 1 + Wrap(mss * mss) / (w * mss - 1) + mss / 16 + mss - 1 < M32
  }

  /** With at most `f` segments in flight, the window a hurried resend sets stays below 2^32 bytes. */
  predicate FastFits(mss: int, f: int, fastresend: int) {
    fastresend > 0 ==> (Half(f) + fastresend) * mss < M32
  }

  /** Settings that suit a peer window of at most `w` segments, at most `f` of them in flight. */
  predicate Suits(mss: int, fastresend: int, w: int, f: int)
  {
    GrowthFits(mss, w) && FastFits(mss, f, fastresend)
  }

  /** `incr` is the window in bytes, to within one segment. */
  ghost predicate Balanced(cwnd: int, incr: int, mss: int) {
    (cwnd - 1) * mss < incr < (cwnd + 1) * mss
  }

  ghost predicate Even(c: Control) {
    Balanced(c.cwnd, c.incr, Mss(c)) && THRESH_MIN <= c.ssthresh <= 0x7fff
  }

  // ----- arithmetic

  lemma TimesMonotone(a: int, b: int, m: nat)
    requires a <= b
    ensures a * m <= b * m
  {
  }

  lemma TimesOrder(a: int, b: int, m: nat)
    ensures a >= b ==> a * m >= b * m
  {
  }

  lemma WrapSmall(x: int)
    requires 0 <= x < M32
    ensures Wrap(x) == x
  {
  }

  lemma CeilBounds(x: nat, m: nat)
    requires m > 0
    ensures var q := (x + m - 1) / m; (q - 1) * m < x <= q * m
  {
    var y := x + m - 1;
    var q := y / m;
    assert y == m * q + y % m;
    assert (q - 1) * m == m * q - m;
  }

  lemma ProductExceeds(b: nat, q: int, m: int)
    ensures q > m ==> q * b >= m * b + b
  {
    if q > m {
      TimesMonotone(m + 1, q, b);
      assert (m + 1) * b == m * b + b;
    }
  }

  lemma DivAtMost(s: nat, b: nat, m: nat)
    requires 0 < b && s <= m * b
    ensures 0 <= s / b <= m
  {
    var q := s / b;
    assert s == b * q + s % b;
    assert b * q == q * b;
    ProductExceeds(b, q, m);
  }

  lemma WindowBytes(w: nat, m: nat)
    requires w >= 2 && m >= 26
    ensures w * m >= 2 * m && w * m > 1
  {
    TimesMonotone(2, w, m);
  }

  lemma DivBounds(a: nat, b: nat)
    requires b > 0
    ensures (a / b) * b <= a < (a / b + 1) * b
  {
    assert a == b * (a / b) + a % b;
    assert (a / b + 1) * b == (a / b) * b + b;
  }

  lemma LessTimes(a: int, b: int, m: nat)
    requires a * m < b * m
    ensures a < b
  {
    TimesOrder(a, b, m);
  }

  /** A larger base makes a larger sum, as long as the dividend is at most the product. */
  lemma SumGrows(base: nat, top: nat, a: nat)
    requires 0 < base <= top && a <= base * top
    ensures base + a / base <= top + a / top
  {
    var q, t, d := a / base, a / top, top - base;
    DivBounds(a, base);
    DivBounds(a, top);
    if q > t + d {
      TimesMonotone(t + d + 1, q, base);
      assert (t + d + 1) * base == (t + 1) * base + d * base;
      assert (t + 1) * top == (t + 1) * base + (t + 1) * d;
      assert d * base < (t + 1) * d;
      assert d * base == base * d;
      LessTimes(base, t + 1, d);
      TimesMonotone(base, t, top);
      assert t * top <= a <= base * top;
      assert q * base <= base * top == top * base;
      TimesOrder(q, top + 1, base);
    }
  }

  // ----- growing

  lemma SlowStartBalanced(c: Control, w: nat)
    requires Even(c) && c.cwnd < c.rmtWnd <= w && (w + 1) * Mss(c) <= M32
    ensures Even(SlowStart(c)) && SlowStart(c).cwnd == c.cwnd + 1
  {
    var m := Mss(c);
    TimesMonotone(c.cwnd + 2, w + 1, m);
    assert (c.cwnd + 2) * m == (c.cwnd + 1) * m + m;
    assert c.cwnd * m == (c.cwnd - 1) * m + m;
    WrapSmall(c.cwnd + 1);
    WrapSmall(c.incr + m);
    hide Wrap;
  }

  lemma SquareIsLarge(m: nat, base: nat, top: nat)
    requires m <= base <= top
    ensures Wrap(m * m) <= base * top
  {
    TimesMonotone(m, base, m);
    TimesMonotone(m, top, base);
    assert base * m == m * base;
    assert m * m == M32 * (m * m / M32) + Wrap(m * m);
  }

  lemma StepBelow(base: nat, m: nat, top: nat, a: nat)
    requires 0 < base <= top && a <= base * top && top + a / top + m / 16 + m - 1 < M32
    ensures 0 <= a / base && base + a / base + m / 16 + m - 1 < M32
  {
    SumGrows(base, top, a);
    QuotientIsNat(a, base);
  }

  /** The step of congestion avoidance is at most the one from just below the whole window. */
  lemma StepFits(incr: nat, m: nat, w: nat)
    requires m >= 26 && w >= 2 && incr < w * m && GrowthFits(m, w)
    ensures var base := Max(incr, m); 0 <= Wrap(m * m) / base && base + Wrap(m * m) / base + m / 16 + m - 1 < M32
  {
    WindowBytes(w, m);
    var base, top, a := Max(incr, m), w * m - 1, Wrap(m * m);
    SquareIsLarge(m, base, top);
    hide Wrap;
    StepBelow(base, m, top, a);
  }

  lemma FitsAtAll(m: nat, w: nat)
    requires m >= 26 && w >= 2 && GrowthFits(m, w)
    ensures (w + 1) * m <= M32
  {
    QuotientIsNat(Wrap(m * m), w * m - 1);
    assert (w + 1) * m == w * m + m;
    hide Wrap;
  }

  lemma QuotientIsNat(a: nat, b: nat)
    requires b > 0
    ensures a / b >= 0
  {
  }

  /** The next `incr` in congestion avoidance: only the square of the segment size may wrap. */
  lemma AvoidanceIncr(c: Control, w: nat)
    requires Even(c) && c.cwnd < c.rmtWnd <= w && w >= 2 && GrowthFits(Mss(c), w)
    ensures var m, i := Mss(c), AvoidanceStep(c.incr, Mss(c));
            && c.incr <= i && m <= i
            && i + m - 1 < M32
            && (c.cwnd + 1) * m < M32
  {
    var m := Mss(c);
    TimesMonotone(c.cwnd + 1, w, m);
    FitsAtAll(m, w);
    assert (w + 1) * m == w * m + m;
    hide GrowthFits;
    StepFits(c.incr, m, w);
    StepIs(c.incr, m);
  }

  lemma StepIs(incr: u32, m: u32)
    requires m > 0
    requires var base := Max(incr, m); 0 <= Wrap(m * m) / base && base + Wrap(m * m) / base + m / 16 + m - 1 < M32
    ensures var base := Max(incr, m); AvoidanceStep(incr, m) == base + Wrap(m * m) / base + m / 16
  {
    var base := Max(incr, m);
    WrapSmall(base + Wrap(m * m) / base + m / 16);
    hide Wrap;
  }

  lemma RoundedUp(cwnd: nat, i: nat, m: nat)
    requires m > 0 && (cwnd + 1) * m <= i
    ensures var q := (i + m - 1) / m; Balanced(q, i, m) && q >= cwnd
  {
    CeilBounds(i, m);
    var q := (i + m - 1) / m;
    assert (q + 1) * m == q * m + m;
    LessTimes(cwnd, q + 1, m);
  }

  lemma NotRounded(cwnd: nat, incr: nat, i: nat, m: nat)
    requires Balanced(cwnd, incr, m) && incr <= i < (cwnd + 1) * m
    ensures Balanced(cwnd, i, m)
  {
  }

  lemma AvoidanceIs(c: Control, i: u32)
    requires i == AvoidanceStep(c.incr, Mss(c)) && i + Mss(c) - 1 < M32 && (c.cwnd + 1) * Mss(c) < M32 && c.cwnd < 0xffff
    ensures var m, g := Mss(c), Avoidance(c);
            && Mss(g) == m && g.incr == i
            && g.cwnd == if (c.cwnd + 1) * m <= i then (i + m - 1) / m else c.cwnd
  {
    hide AvoidanceStep;
    var m := Mss(c);
    TimesOrder(c.cwnd + 1, 0, m);
    WrapSmall(c.cwnd + 1);
    WrapSmall((c.cwnd + 1) * m);
    WrapSmall(i + m - 1);
    hide Wrap;
  }

  lemma EvenIs(c: Control)
    requires Even(c)
    ensures Balanced(c.cwnd, c.incr, Mss(c))
  {
  }

  lemma MssIsPositive(c: Control)
    ensures Mss(c) >= 26
  {
  }

  lemma AvoidanceBalanced(c: Control, w: nat)
    requires Even(c) && c.cwnd < c.rmtWnd <= w && w >= 2 && GrowthFits(Mss(c), w)
    ensures var g := Avoidance(c);
            Balanced(g.cwnd, g.incr, Mss(g)) && g.cwnd >= c.cwnd
  {
    hide *;
    MssIsPositive(c);
    AvoidanceIncr(c, w);
    var m, i := Mss(c), AvoidanceStep(c.incr, Mss(c));
    AvoidanceIs(c, i);
    EvenIs(c);
    if (c.cwnd + 1) * m <= i {
      RoundedUp(c.cwnd, i, m);
    } else {
      NotRounded(c.cwnd, c.incr, i, m);
    }
  }

  lemma ClampBalanced(c: Control, w: nat)
    requires Balanced(c.cwnd, c.incr, Mss(c)) && THRESH_MIN <= c.ssthresh <= 0x7fff
    requires c.rmtWnd <= w && (w + 1) * Mss(c) <= M32
    ensures Even(ClampToPeer(c)) && ClampToPeer(c).cwnd == Min(c.cwnd, c.rmtWnd)
  {
    var m := Mss(c);
    TimesMonotone(c.rmtWnd, w, m);
    assert (w + 1) * m == w * m + m;
    WrapSmall(c.rmtWnd * m);
    WholeSegments(c.rmtWnd, m);
    hide Wrap;
  }

  /** Growth keeps the balance, never reduces the window, and ends inside the peer's. */
  lemma GrowBalanced(c: Control, w: nat)
    requires Even(c) && c.rmtWnd <= w && w >= 2 && GrowthFits(Mss(c), w)
    ensures Even(Grow(c)) && Grow(c).cwnd >= c.cwnd
    ensures Grow(c) != c ==> Grow(c).cwnd <= c.rmtWnd
  {
    hide SlowStart, Avoidance, ClampToPeer;
    FitsAtAll(Mss(c), w);
    if c.cwnd < c.rmtWnd {
      if c.cwnd < c.ssthresh {
        SlowStartBalanced(c, w);
        SlowStartKeeps(c);
        ClampBalanced(SlowStart(c), w);
      } else {
        AvoidanceBalanced(c, w);
        AvoidanceKeeps(c);
        ClampBalanced(Avoidance(c), w);
      }
    }
  }

  lemma SlowStartKeeps(c: Control)
    ensures SlowStart(c).ssthresh == c.ssthresh && SlowStart(c).fastresend == c.fastresend
  {
  }

  lemma AvoidanceKeeps(c: Control)
    ensures Avoidance(c).ssthresh == c.ssthresh && Avoidance(c).fastresend == c.fastresend
  {
    hide AvoidanceStep, CeilDiv;
  }

  // ----- shrinking

  lemma WholeSegments(n: nat, m: nat)
    requires m > 0
    ensures Balanced(n, n * m, m)
  {
    assert (n - 1) * m == n * m - m;
    assert (n + 1) * m == n * m + m;
  }

  /** The window after a hurried resend: half the segments in flight, plus the threshold. */
  function FastWindow(c: Control, inflight: u32): int {
    if c.fastresend > 0 then Half(inflight) + c.fastresend else Half(inflight) - 1
  }

  lemma FastWindowIs(c: Control, inflight: u32)
    requires inflight <= 0xffff && c.fastresend < M31
    ensures AfterFast(c, inflight).cwnd == FastWindow(c, inflight) >= 1
  {
    var thresh := Half(inflight);
    if c.fastresend > 0 {
      WrapSmall(c.fastresend);
      WrapSmall(thresh + c.fastresend);
    } else {
      assert thresh + NO_RESEND == (thresh - 1) + M32;
      ModPeriodic(thresh - 1, 1);
      WrapSmall(thresh - 1);
    }
  }

  /** What fits is less than 2^31. */
  lemma FastIsSmall(mss: int, f: int, fastresend: int)
    requires mss >= 26 && FastFits(mss, f, fastresend)
    ensures fastresend < M31
  {
    if fastresend > 0 {
      TimesOrder(mss, 26, Half(f) + fastresend);
    }
  }

  lemma FastBytes(m: nat, fastresend: int, w: nat, f: nat, inflight: nat)
    requires m >= 26 && w >= 2 && Suits(m, fastresend, w, f) && inflight <= f <= w
    ensures (if fastresend > 0 then Half(inflight) + fastresend else Half(inflight) - 1) * m < M32
  {
    if fastresend > 0 {
      TimesMonotone(Half(inflight) + fastresend, Half(f) + fastresend, m);
    } else {
      FitsAtAll(m, w);
      TimesMonotone(Half(inflight), w, m);
      assert (w + 1) * m == w * m + m;
      assert (Half(inflight) - 1) * m == Half(inflight) * m - m;
    }
  }

  /** A hurried resend keeps the balance. */
  lemma AfterFastBalanced(c: Control, inflight: u32, w: nat, f: nat)
    requires Even(c) && inflight <= f <= w <= 0xffff && w >= 2 && Suits(Mss(c), c.fastresend, w, f)
    ensures Even(AfterFast(c, inflight)) && AfterFast(c, inflight).cwnd >= 1
  {
    var m, cwnd := Mss(c), FastWindow(c, inflight);
    FastIsSmall(m, f, c.fastresend);
    FastWindowIs(c, inflight);
    FastBytes(m, c.fastresend, w, f, inflight);
    hide Suits, Balanced;
    TimesMonotone(1, cwnd, m);
    WrapSmall(cwnd * m);
    WholeSegments(cwnd, m);
    hide Wrap;
  }

  lemma AfterLossBalanced(c: Control, window: u32)
    requires window <= 0xffff
    ensures Even(AfterLoss(c, window)) && AfterLoss(c, window).cwnd == 1
  {
    WholeSegments(1, Mss(c));
  }

  lemma AtLeastOneBalanced(c: Control)
    requires Even(c)
    ensures Even(AtLeastOne(c)) && AtLeastOne(c).cwnd >= 1
  {
    WholeSegments(1, Mss(c));
  }

  /** After a flush that ran, at least one segment may be in flight. */
  lemma ShrinkBalanced(c: Control, inflight: u32, window: u32, fast: bool, lost: bool, w: nat, f: nat)
    requires Even(c) && inflight <= f <= w <= 0xffff && w >= 2 && Suits(Mss(c), c.fastresend, w, f)
    requires window <= 0xffff
    ensures var r := Shrink(c, inflight, window, fast, lost);
            Even(r) && r.cwnd >= 1
  {
    hide AfterFast, AfterLoss, AtLeastOne, Even, Suits;
    var c1 := if fast then AfterFast(c, inflight) else c;
    if fast {
      AfterFastBalanced(c, inflight, w, f);
    }
    if lost {
      AfterLossBalanced(c1, window);
    }
    AtLeastOneBalanced(if lost then AfterLoss(c1, window) else c1);
  }

  /** Segments and windows of at most 65535 suit each other, with a resend threshold of up to 2^15. */
  lemma SmallSegmentsSuit(m: nat, fastresend: int, w: nat, f: nat)
    requires 26 <= m <= 0xffff && 3 <= w <= 0xffff && f <= w && fastresend <= 0x8000
    ensures Suits(m, fastresend, w, f)
  {
    TimesMonotone(3, w, m);
    TimesMonotone(w, 0xffff, m);
    AddedIsSmall(m, w * m - 1);
    TimesMonotone(Half(f) + fastresend, 0xffff, m);
    hide Wrap;
  }

  // ----- the settings that need it

  /** Settings under which growing and hurried resends keep the balance. */
  ghost predicate KeepsBalance(mtu: Mtu, fastresend: int, w: int, f: int) {
    forall c: Control | c.mtu == mtu && c.fastresend == fastresend && c.rmtWnd <= w && Even(c) ::
      Even(Grow(c)) && forall inflight: u32 | inflight <= f :: Even(AfterFast(c, inflight))
  }

  /** A block with a given window, past the smallest threshold. */
  function WithWindow(mtu: Mtu, fastresend: int, rmtWnd: u16, cwnd: u32, incr: u32): Control {
    Create(0).ctl.(mtu := mtu, fastresend := fastresend, rmtWnd := rmtWnd, cwnd := cwnd, incr := incr)
  }

  lemma WithWindowIs(mtu: Mtu, fastresend: int, rmtWnd: u16, cwnd: u32, incr: u32)
    ensures var c := WithWindow(mtu, fastresend, rmtWnd, cwnd, incr);
            && Mss(c) == mtu - OVERHEAD && c.cwnd == cwnd && c.incr == incr && c.ssthresh == THRESH_MIN
            && c.rmtWnd == rmtWnd && c.mtu == mtu && c.fastresend == fastresend
  {
  }

  lemma WrapOver(x: int)
    requires M32 <= x < 2 * M32
    ensures Wrap(x) == x - M32
  {
  }

  lemma WrapLoses(x: int)
    requires x >= M32
    ensures Wrap(x) <= x - M32
  {
    assert x == M32 * (x / M32) + Wrap(x);
  }

  /** Segments so large that three of them do not fit: slow start wraps. */
  lemma ThreeTooMany(mtu: Mtu, fastresend: int) returns (c: Control)
    requires 3 * (mtu - OVERHEAD) > M32
    ensures c.mtu == mtu && c.fastresend == fastresend && c.rmtWnd == 2 && Even(c) && !Even(Grow(c))
  {
    var m: int := mtu - OVERHEAD;
    c := WithWindow(mtu, fastresend, 2, 1, 2 * m - 1);
    WithWindowIs(mtu, fastresend, 2, 1, 2 * m - 1);
    hide WithWindow;
    WrapSmall(2);
    WrapOver(3 * m - 1);
    hide Wrap;
    var s := SlowStart(c);
    assert s.cwnd == 2 && s.incr == 3 * m - 1 - M32;
    assert ClampToPeer(s) == s;
  }

  /** A step of avoidance that fits 32 bits, but not with a segment more: the rounding up wraps. */
  lemma RoundingWraps(c: Control, m: int, cwnd: int, s: int)
    requires Mss(c) == m && c.cwnd == cwnd && c.ssthresh == THRESH_MIN && c.rmtWnd == cwnd + 1 && cwnd >= 2
    requires AvoidanceStep(c.incr, m) == s && s + m - 1 >= M32 && Wrap((cwnd + 1) * m) <= s && m <= s
    ensures !Even(Grow(c))
  {
    hide AvoidanceStep, CeilDiv, Even;
    RoundedIs(m, s);
    WrapSmall(cwnd + 1);
    hide Wrap;
    var a := Avoidance(c);
    assert a.incr == s && a.cwnd == 0;
    assert ClampToPeer(a) == a;
    assert Grow(c) == a;
    NotEven(a);
  }

  lemma RoundedIs(m: u32, s: u32)
    requires m > 0 && s + m - 1 >= M32
    ensures CeilDiv(s, m) == 0
  {
    WrapOver(s + m - 1);
    var x := s + m - 1 - M32;
    assert 0 <= x < m;
    DivBounds(x, m);
    hide Wrap;
    LessTimes(x / m, 1, m);
  }

  lemma NotEven(a: Control)
    requires a.cwnd == 0 && a.incr >= Mss(a)
    ensures !Even(a)
  {
  }

  /** A step of avoidance that wraps by itself: the window stays, its bytes are lost. */
  lemma StepWraps(c: Control, m: int, cwnd: int, i: int)
    requires Mss(c) == m && c.cwnd == cwnd && c.ssthresh == THRESH_MIN && c.rmtWnd == cwnd + 1 && cwnd >= 2
    requires AvoidanceStep(c.incr, m) == i < m && (cwnd + 1) * m < M32
    ensures !Even(Grow(c))
  {
    hide AvoidanceStep, CeilDiv;
    TimesMonotone(1, cwnd + 1, m);
    WrapSmall(cwnd + 1);
    WrapSmall((cwnd + 1) * m);
    hide Wrap;
    var a := Avoidance(c);
    assert a.incr == i && a.cwnd == cwnd;
    assert ClampToPeer(a) == a;
    TimesMonotone(1, cwnd - 1, m);
  }

  /** What a step adds beyond the segment's sixteenth is about half a segment at most. */
  lemma AddedIsSmall(m: nat, top: nat)
    requires m >= 26 && top >= 2 * m
    ensures 0 <= Wrap(m * m) / top <= m / 2 + 1
  {
    var h, a := m / 2 + 1, Wrap(m * m);
    assert m * m == M32 * (m * m / M32) + a;
    hide Wrap;
    TimesMonotone(2 * m, top, h);
    TimesMonotone(m, 2 * h, m);
    assert h * (2 * m) == 2 * h * m;
    DivAtMost(a, top, h);
  }

  lemma StepWithin(incr: u32, m: u32)
    requires 0 < m <= incr
    ensures AvoidanceStep(incr, m) == Wrap(incr + Wrap(m * m) / incr + m / 16)
  {
    hide Wrap;
  }

  /** Below 2^32 with the whole window, but not one segment further. */
  lemma TooLargeStep(mtu: Mtu, fastresend: int, w: u16) returns (c: Control)
    requires var m: int := mtu - OVERHEAD;
      w >= 3 && w * m < M32 && w * m - 1 + Wrap(m * m) / (w * m - 1) + m / 16 + m - 1 >= M32
    ensures c.mtu == mtu && c.fastresend == fastresend && c.rmtWnd == w && Even(c) && !Even(Grow(c))
  {
    var m: int := mtu - OVERHEAD;
    TimesMonotone(3, w, m);
    var top := w * m - 1;
    c := WithWindow(mtu, fastresend, w, w - 1, top);
    WithWindowIs(mtu, fastresend, w, w - 1, top);
    hide WithWindow;
    AddedIsSmall(m, top);
    StepWithin(top, m);
    var s := top + Wrap(m * m) / top + m / 16;
    assert (w - 2) * m == w * m - 2 * m;
    if s < M32 {
      WrapSmall(s);
      WrapSmall(w * m);
      hide Wrap;
      RoundingWraps(c, m, w - 1, s);
    } else {
      WrapOver(s);
      hide Wrap;
      StepWraps(c, m, w - 1, s - M32);
    }
  }

  /** A segment's sixteenth below 2^32 there is a number of bytes from which a step ends at 2^32 - 1. */
  lemma LastByte(m: u32) returns (incr: u32)
    requires 26 <= m && 3 * m <= M32
    ensures m <= incr && M32 - 2 * m < incr && AvoidanceStep(incr, m) == M32 - 1
  {
    var a, e := Wrap(m * m), M32 - m / 16 - 1;
    incr := if a < e then e else e - 1;
    StepWithin(incr, m);
    hide Wrap;
    Ratio(a, e);
    WrapSmall(M32 - 1);
  }

  lemma Ratio(a: nat, e: nat)
    requires e >= 2 && a <= 2 * e - 3
    ensures a < e ==> a / e == 0
    ensures a >= e ==> a / (e - 1) == 1
  {
  }

  /** When the window is 2^32 bytes to the byte. */
  lemma WholeRangeStep(mtu: Mtu, fastresend: int, w: u16) returns (c: Control)
    requires w >= 3 && w * (mtu - OVERHEAD) == M32
    ensures c.mtu == mtu && c.fastresend == fastresend && c.rmtWnd == w && Even(c) && !Even(Grow(c))
  {
    var m: int := mtu - OVERHEAD;
    TimesMonotone(3, w, m);
    var incr := LastByte(m);
    c := WithWindow(mtu, fastresend, w, w - 1, incr);
    WithWindowIs(mtu, fastresend, w, w - 1, incr);
    hide WithWindow, AvoidanceStep;
    assert (w - 2) * m == w * m - 2 * m;
    assert Wrap(M32) == 0;
    hide Wrap;
    RoundingWraps(c, m, w - 1, M32 - 1);
  }

  /** Settings under which growth can wrap: a balanced block that a step takes out of balance. */
  lemma GrowthFails(mtu: Mtu, fastresend: int, w: nat) returns (c: Control)
    requires 3 <= w <= 0xffff && !GrowthFits(mtu - OVERHEAD, w)
    ensures c.mtu == mtu && c.fastresend == fastresend && c.rmtWnd <= w && Even(c) && !Even(Grow(c))
  {
    var m: int := mtu - OVERHEAD;
    WindowBytes(w, m);
    if 3 * m > M32 {
      c := ThreeTooMany(mtu, fastresend);
    } else {
      var most := M32 / m;
      DivBounds(M32, m);
      LessTimes(3, most + 1, m);
      var v: u16 := Min(w, most);
      TimesOrder(most, v, m);
      if v * m == M32 {
        c := WholeRangeStep(mtu, fastresend, v);
      } else {
        if w > most {
          TimesMonotone(3, v, m);
          QuotientIsNat(Wrap(m * m), v * m - 1);
          assert (most + 1) * m == v * m + m;
        }
        hide Wrap;
        c := TooLargeStep(mtu, fastresend, v);
      }
    }
  }

  /** A hurried resend that wraps. */
  lemma FastFails(mtu: Mtu, fastresend: int, f: u16) returns (c: Control)
    requires fastresend < M31 && !FastFits(mtu - OVERHEAD, f, fastresend)
    ensures c.mtu == mtu && c.fastresend == fastresend && c.rmtWnd == 0 && Even(c) && !Even(AfterFast(c, f))
  {
    var m: int := mtu - OVERHEAD;
    c := WithWindow(mtu, fastresend, 0, 0, 0);
    WithWindowIs(mtu, fastresend, 0, 0, 0);
    hide WithWindow;
    FastWindowIs(c, f);
    var n := Half(f) + fastresend;
    WrapLoses(n * m);
    hide Wrap;
    assert (n - 1) * m == n * m - m;
  }

  /**
   Growing and hurried resends keep every balanced block in balance, with a peer window of
   at most `w` and at most `f` segments in flight, exactly under the settings that suit them.
   */
  lemma BalanceIsKeptIff(mtu: Mtu, fastresend: int, w: nat, f: nat)
    requires 3 <= w <= 0xffff && f <= w && fastresend < M31
    ensures KeepsBalance(mtu, fastresend, w, f) <==> Suits(mtu - OVERHEAD, fastresend, w, f)
  {
    hide Even, GrowthFits, FastFits;
    if Suits(mtu - OVERHEAD, fastresend, w, f) {
      forall c: Control | c.mtu == mtu && c.fastresend == fastresend && c.rmtWnd <= w && Even(c)
        ensures Even(Grow(c)) && forall inflight: u32 | inflight <= f :: Even(AfterFast(c, inflight))
      {
        hide Suits, Grow, AfterFast;
        GrowBalanced(c, w);
        forall inflight: u32 | inflight <= f ensures Even(AfterFast(c, inflight)) {
          AfterFastBalanced(c, inflight, w, f);
        }
      }
    } else if !GrowthFits(mtu - OVERHEAD, w) {
      var c := GrowthFails(mtu, fastresend, w);
    } else {
      var c := FastFails(mtu, fastresend, f);
    }
  }
}
