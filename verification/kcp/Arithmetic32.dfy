/**
 Fixed-width integers of the transport: bytes, 16- and 32-bit unsigned values, the
 wrapping subtraction `_itimediff`, and the two arithmetics the engine is read in.
 */
module Arithmetic32 {
  import Octets

  const M16 := 0x1_0000
  const M31 := 0x8000_0000
  const M32 := 0x1_0000_0000

  type byte = Octets.byte
  type u16 = x: int | 0 <= x < 0x1_0000
  type u32 = x: int | 0 <= x < 0x1_0000_0000

  /** The value an unsigned 32-bit variable holds after being assigned `x`. */
  function Wrap(x: int): u32 {
    x % M32
  }

  /** The signed reading of a 32-bit pattern, the cast `(IINT32)`. */
  function Signed(x: u32): int {
    if x < M31 then x else x - M32
  }

  function Itimediff(later: int, earlier: int): int {
    Signed(Wrap(later - earlier))
  }

  function Min(a: int, b: int): int {
    if a <= b then a else b
  }

  function Max(a: int, b: int): int {
    if a >= b then a else b
  }

  function Bound(lower: int, middle: int, upper: int): int {
    Min(Max(lower, middle), upper)
  }

  /** Division of C, which truncates toward zero. */
  function TruncHalf(x: int): int {
    if x >= 0 then x / 2 else -((-x) / 2)
  }

  /**
   The arithmetic in which sequence numbers are kept. `Mod32` is the code's own: numbers
   wrap at 2^32 and are compared through the sign of their 32-bit difference. `Exact` is
   the ideal one, with unbounded numbers and their usual order.
   */
  datatype Arith = Mod32 | Exact {

    function Norm(x: int): int {
      if Mod32? then Wrap(x) else x
    }

    function Diff(later: int, earlier: int): int {
      if Mod32? then Itimediff(later, earlier) else later - earlier
    }

    /** Unsigned subtraction, as for the number of segments in flight. */
    function Sub(x: int, y: int): u32 {
      Wrap(x - y)
    }
  }

  /** Two numbers less than half the range apart compare alike in both arithmetics. */
  lemma ItimediffIsExact(a: int, b: int)
    requires -M31 <= a - b < M31
    ensures Itimediff(Wrap(a), Wrap(b)) == a - b
    ensures Itimediff(a, b) == a - b
  {
    WrapOfDifference(a, b);
    var d := a - b;
    if d >= 0 {
      assert Wrap(d) == d;
    } else {
      assert Wrap(d) == d + M32 by { assert d == (d + M32) + M32 * -1; }
    }
  }

  lemma WrapOfDifference(a: int, b: int)
    ensures Wrap(Wrap(a) - Wrap(b)) == Wrap(a - b)
  {
    assert a == M32 * (a / M32) + Wrap(a);
    assert b == M32 * (b / M32) + Wrap(b);
    var q := a / M32 - b / M32;
    assert a - b == M32 * q + (Wrap(a) - Wrap(b));
    ModPeriodic(Wrap(a) - Wrap(b), q);
  }

  lemma WrapOfSum(a: int, b: int)
    ensures Wrap(Wrap(a) + b) == Wrap(a + b)
  {
    assert a == M32 * (a / M32) + Wrap(a);
    assert a + b == M32 * (a / M32) + (Wrap(a) + b);
    ModPeriodic(Wrap(a) + b, a / M32);
  }

  lemma ModPeriodic(x: int, q: int)
    ensures Wrap(M32 * q + x) == Wrap(x)
  {
    var r := x % M32;
    assert M32 * q + x == M32 * (q + x / M32) + r;
    assert (M32 * (q + x / M32) + r) % M32 == r;
  }

  /** Two wrapped numbers are equal only if the numbers are, inside half the range. */
  lemma WrapInjectiveNear(a: int, b: int)
    requires -M31 <= a - b < M31
    ensures Wrap(a) == Wrap(b) <==> a == b
  {
    ItimediffIsExact(a, b);
  }
}
