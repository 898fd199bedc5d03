/**
 The Content-Length header: the accumulator loop over the header's value.
 */
module HttpLength {
  import opened Octets
  import opened HttpBody

  datatype Length = Length(value: u64) | Refused

  predicate IsDecimal(ch: byte) {
    48 <= ch <= 57
  }

  /** The number a string of decimal digits spells, without any bound. */
  function Decimal(digits: seq<byte>): int {
    if digits == [] then 0 else Decimal(digits[..|digits| - 1]) * 10 + (digits[|digits| - 1] as int - 48)
  }

  /** How many digits `value` begins with. */
  function LeadingDigits(value: seq<byte>): (k: nat)
    ensures k <= |value|
    ensures forall i | 0 <= i < k :: IsDecimal(value[i])
    ensures k < |value| ==> !IsDecimal(value[k])
  {
    if value == [] || !IsDecimal(value[0]) then 0 else 1 + LeadingDigits(value[1..])
  }

  /** Digits, then nothing but spaces. */
  predicate WellFormed(value: seq<byte>) {
    LeadingDigits(value) > 0 && forall i | LeadingDigits(value) <= i < |value| :: value[i] == SPACE
  }

  /** `k` digits, one at least, and behind them nothing but blanks. */
  predicate DigitsThenBlanks(value: seq<byte>, k: nat) {
    && 0 < k <= |value| && (forall i | 0 <= i < k :: 48 <= value[i] <= 57)
    && forall i | k <= i < |value| :: value[i] == 32
  }

  lemma {:induction false} LeadingIs(value: seq<byte>, k: nat)
    requires k <= |value| && (forall i | 0 <= i < k :: 48 <= value[i] <= 57) && (k < |value| ==> value[k] == 32)
    ensures LeadingDigits(value) == k
    decreases k
  {
    if k > 0 {
      LeadingIs(value[1..], k - 1);
    }
  }

  lemma WellFormedIff(value: seq<byte>)
    ensures WellFormed(value) <==> exists k: nat :: DigitsThenBlanks(value, k)
  {
    var d := LeadingDigits(value);
    if WellFormed(value) {
      assert forall i | 0 <= i < d :: IsDecimal(value[i]);
      assert DigitsThenBlanks(value, d);
    }
    if k: nat :| DigitsThenBlanks(value, k) {
      LeadingIs(value, k);
    }
  }

  /** The largest length: 15 less than 2^64 - 1, rounded down to a nine. */
  lemma LargestLength()
    ensures Largest(10) == 18446744073709551609 && Largest(10) < 0xFFFF_FFFF_FFFF_FFFF
  {
  }

  /** The states `h_content_length`, `h_content_length_num` and `h_content_length_ws`. */
  datatype HeaderState = First | Number | Blank

  lemma NotWellFormed(value: seq<byte>, i: nat, k: nat)
    requires k <= i < |value|
    requires forall j | 0 <= j < k :: IsDecimal(value[j])
    requires k < i ==> !IsDecimal(value[k])
    requires value[i] != SPACE && (k == i ==> !IsDecimal(value[i]))
    ensures !WellFormed(value)
  {
    var d := LeadingDigits(value);
    assert d == k;
  }

  lemma {:induction false} DecimalIsNat(digits: seq<byte>)
    requires forall i | 0 <= i < |digits| :: IsDecimal(digits[i])
    ensures Decimal(digits) >= 0
    decreases |digits|
  {
    if digits != [] {
      DecimalIsNat(digits[..|digits| - 1]);
    }
  }

  lemma {:induction false} DecimalGrows(digits: seq<byte>, k: nat)
    requires k <= |digits| && forall i | 0 <= i < |digits| :: IsDecimal(digits[i])
    ensures 0 <= Decimal(digits[..k]) <= Decimal(digits)
    decreases |digits|
  {
    DecimalIsNat(digits[..k]);
    if k < |digits| {
      var front := digits[..|digits| - 1];
      DecimalGrows(front, k);
      assert front[..k] == digits[..k];
    } else {
      assert digits[..k] == digits;
    }
  }

  /**
   What the header's value leaves in `content_length`. Blanks before the value and the line
   end after it have been taken off by the states around this one.
   */
  method ReadContentLength(value: seq<byte>) returns (length: Length)
    ensures var digits := value[..LeadingDigits(value)];
      length == if WellFormed(value) && 0 <= Decimal(digits) <= Largest(10) then Length(Decimal(digits)) else Refused
  {
    var state, contentLength: u64, i := First, 0, 0;
    ghost var k := 0;
    while i < |value|
      invariant k <= i <= |value|
      invariant state == First <==> i == 0
      invariant state != Blank ==> k == i
      invariant forall j | 0 <= j < k :: IsDecimal(value[j])
      invariant forall j | k <= j < i :: value[j] == SPACE
      invariant state == Blank ==> 0 < k < i
      invariant contentLength == Decimal(value[..k]) <= Largest(10)
      decreases |value| - i
    {
      var ch := value[i];
      match state {
        case First =>
          if !IsDecimal(ch) {
            return Refused;
          }
          contentLength := ch as int - 48;
          state := Number;
          k := 1;
          assert value[..1] == [ch] && [ch][..0] == [];
        case Number =>
          if ch == SPACE {
            state := Blank;
          } else {
            if !IsDecimal(ch) {
              NotWellFormed(value, i, k);
              return Refused;
            }
            var t := contentLength * 10 % M64;
            t := (t + (ch as int - 48)) % M64;
            AccumulateIsExact(contentLength, 10, ch as int - 48);
            assert value[..k + 1][..k] == value[..k];
            assert Decimal(value[..k + 1]) == contentLength * 10 + (ch as int - 48);
            if (ABSENT - 10) / 10 < contentLength {
              TooLarge(value, k + 1);
              return Refused;
            }
            contentLength := t;
            k := k + 1;
          }
        case Blank =>
          if ch != SPACE {
            NotWellFormed(value, i, k);
            return Refused;
          }
      }
      i := i + 1;
    }
    if state == First {
      return Refused;
    }
    assert LeadingDigits(value) == k by {
      assert k < |value| ==> !IsDecimal(value[k]);
    }
    length := Length(contentLength);
  }

  lemma TooLarge(value: seq<byte>, k: nat)
    requires k <= |value| && forall i | 0 <= i < k :: IsDecimal(value[i])
    requires Decimal(value[..k]) > Largest(10)
    ensures Decimal(value[..LeadingDigits(value)]) > Largest(10)
  {
    var d := LeadingDigits(value);
    assert k <= d;
    DecimalGrows(value[..d], k);
    assert value[..d][..k] == value[..k];
  }
}
