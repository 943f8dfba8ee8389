/**
 Single-precision floats as the numbers their 32-bit patterns denote: the classes of IEEE 754
 values, their order, and the step to a neighbouring float.

 A pattern's place counts the floats between it and zero, with the sign of the float. Places
 put all finite floats in numeric order without a gap, the two zeros in one place, which is
 what makes "the next float" a statement about adding one.
 */
module Float32 {

  /** The pattern of a float. */
  type F32 = b: int | 0 <= b < 0x1_0000_0000

  const LARGEST: F32 := 0x7f7f_ffff
  const MINUS_LARGEST: F32 := 0xff7f_ffff

  function Exponent(b: F32): int {
    b / 0x80_0000 % 256
  }

  function Fraction(b: F32): int {
    b % 0x80_0000
  }

  /** Clears the sign bit. */
  function Abs(b: F32): F32 {
    b % 0x8000_0000
  }

  predicate Finite(b: F32) {
    Exponent(b) != 255
  }

  predicate NaN(b: F32) {
    Exponent(b) == 255 && Fraction(b) != 0
  }

  /** The place of a float in numeric order; the two zeros share place 0. */
  function Place(b: F32): int {
    if b < 0x8000_0000 then b else 0x8000_0000 - b
  }

  /** Numeric equality: the zeros are equal, a NaN equals nothing. */
  predicate Same(a: F32, b: F32) {
    !NaN(a) && !NaN(b) && Place(a) == Place(b)
  }

  predicate Greater(a: F32, b: F32) {
    !NaN(a) && !NaN(b) && Place(a) > Place(b)
  }

  /** 32-bit addition that wraps around. */
  function WrappingAdd(b: F32, d: int): F32 {
    (b + d) % 0x1_0000_0000
  }

  /** One pattern away from zero or towards it, and towards it where the other leaves the finite floats. */
  function NextFinite(value: F32, positive: bool): F32 {
    if Same(value, 0) then
      if positive then 1 else 0x8000_0001
    else
      var outward := Greater(value, 0) == positive;
      var candidate := WrappingAdd(value, if outward then 1 else -1);
      if Finite(candidate) then candidate
      else WrappingAdd(value, if outward then -1 else 1)
  }

  lemma FiniteByPlace(b: F32)
    ensures Finite(b) <==> -0x7f80_0000 < Place(b) < 0x7f80_0000
    ensures NaN(b) <==> Place(b) < -0x7f80_0000 || Place(b) > 0x7f80_0000
  {
  }

  function Pow2(n: nat): (r: int)
    ensures r > 0
  {
    if n == 0 then 1 else 2 * Pow2(n - 1)
  }

  /** The magnitude of a finite float in units of the smallest one, 2^-149: the fraction alone below the smallest
      normal float, above it the fraction behind a leading one, doubled for every further exponent. */
  function Units(b: F32): (u: int) {
    if Exponent(b) == 0 then Fraction(b) else (0x80_0000 + Fraction(b)) * Pow2(Exponent(b) - 1)
  }

  /** The number a finite float stands for, in the same units. */
  function Value(b: F32): int {
    if b < 0x8000_0000 then Units(b) else -Units(b)
  }

  lemma NextUnits(b: F32)
    requires b < 0x7f7f_ffff
    ensures Units(b) < Units(b + 1)
  {
    var e, f := Exponent(b), Fraction(b);
    assert e == b / 0x80_0000 && b == e * 0x80_0000 + f;
    if f < 0x7f_ffff {
      assert (b + 1) / 0x80_0000 == e && (b + 1) % 0x80_0000 == f + 1;
      if e > 0 {
        LargerFactor(0x80_0000 + f, 0x80_0000 + f + 1, Pow2(e - 1));
      }
    } else {
      assert (b + 1) / 0x80_0000 == e + 1 && (b + 1) % 0x80_0000 == 0;
      if e > 0 {
        LargerFactor(0x80_0000 + f, 0x100_0000, Pow2(e - 1));
      }
    }
  }

  lemma LargerFactor(a: nat, b: nat, m: nat)
    requires a < b && m > 0
    ensures a * m < b * m
  {
    assert b * m == a * m + (b - a) * m;
  }

  lemma {:induction false} UnitsGrow(a: F32, b: F32)
    requires a < b <= 0x7f7f_ffff
    ensures Units(a) < Units(b)
    decreases b - a
  {
    if a + 1 < b {
      UnitsGrow(a, b - 1);
    }
    NextUnits(b - 1);
  }

  lemma SignBit(b: F32)
    requires b >= 0x8000_0000
    ensures Units(b) == Units(b - 0x8000_0000)
  {
  }

  lemma OrderedFromPlaces(a: F32, b: F32)
    requires Finite(a) && Finite(b) && Place(a) < Place(b)
    ensures Value(a) < Value(b)
  {
    FiniteByPlace(a);
    FiniteByPlace(b);
    if a >= 0x8000_0000 {
      SignBit(a);
      if b >= 0x8000_0000 {
        SignBit(b);
        UnitsGrow(b - 0x8000_0000, a - 0x8000_0000);
      } else {
        OneIsPositive(a - 0x8000_0000, b);
      }
    } else {
      UnitsGrow(a, b);
    }
  }

  lemma NoUnits()
    ensures Units(0) == 0
  {
  }

  lemma OneIsPositive(a: F32, b: F32)
    requires a <= 0x7f7f_ffff && b <= 0x7f7f_ffff && (a > 0 || b > 0)
    ensures -Units(a) < Units(b)
  {
    NoUnits();
    if a > 0 {
      UnitsGrow(0, a);
    }
    if b > 0 {
      UnitsGrow(0, b);
    }
  }

  /** Floats compare as the numbers they stand for, and so do their places. */
  lemma PlacesOrderValues(a: F32, b: F32)
    requires Finite(a) && Finite(b)
    ensures Place(a) < Place(b) <==> Value(a) < Value(b)
    ensures Same(a, b) <==> Value(a) == Value(b)
    ensures Greater(a, b) <==> Value(a) > Value(b)
  {
    FiniteByPlace(a);
    FiniteByPlace(b);
    if Place(a) < Place(b) {
      OrderedFromPlaces(a, b);
    } else if Place(b) < Place(a) {
      OrderedFromPlaces(b, a);
    } else {
      SamePlace(a, b);
    }
  }

  lemma SamePlace(a: F32, b: F32)
    requires Place(a) == Place(b)
    ensures Value(a) == Value(b)
  {
    if a < b {
      SignBit(b);
      NoUnits();
    } else if b < a {
      SignBit(a);
      NoUnits();
    }
  }

  /** Magnitudes of finite floats compare as their patterns do. */
  lemma Magnitudes(a: F32, b: F32)
    requires Finite(a) && Finite(b)
    ensures Finite(Abs(a)) && Abs(Abs(a)) == Abs(a) && (Same(a, 0) <==> Abs(a) == 0)
    ensures Greater(Abs(a), Abs(b)) <==> Abs(a) > Abs(b)
  {
    FiniteByPlace(a);
    FiniteByPlace(b);
    FiniteByPlace(Abs(a));
    FiniteByPlace(Abs(b));
    FiniteByPlace(0);
  }

  /** The value next to `p`: away from zero unless that place is infinite. */
  function StepPlace(p: int, positive: bool): int {
    if positive then (if p == 0x7f7f_ffff then p - 1 else p + 1)
    else (if p == -0x7f7f_ffff then p + 1 else p - 1)
  }

  lemma StepFromPositive(value: F32, positive: bool)
    requires 0 < value < 0x7f80_0000
    ensures NextFinite(value, positive) == StepPlace(value, positive)
  {
    FiniteByPlace(value);
    FiniteByPlace(0);
    var candidate := if positive then value + 1 else value - 1;
    assert WrappingAdd(value, if positive then 1 else -1) == candidate;
    FiniteByPlace(candidate);
  }

  lemma StepFromNegative(value: F32, positive: bool)
    requires 0x8000_0000 < value < 0xff80_0000
    ensures NextFinite(value, positive) == 0x8000_0000 - StepPlace(0x8000_0000 - value, positive)
  {
    FiniteByPlace(value);
    FiniteByPlace(0);
    var candidate := if positive then value - 1 else value + 1;
    assert WrappingAdd(value, if positive then -1 else 1) == candidate;
    FiniteByPlace(candidate);
  }

  /** The step moves to the very next place in the asked direction; only at the largest magnitude
      is there none, and the step goes one place inward instead. */
  lemma NextFiniteIsAdjacent(value: F32, positive: bool)
    requires Finite(value)
    ensures var r := NextFinite(value, positive);
      && Finite(r) && !Same(r, value)
      && Place(r) == Place(value) + (if positive then (if value == LARGEST then -1 else 1)
                                     else (if value == MINUS_LARGEST then 1 else -1))
  {
    var r := NextFinite(value, positive);
    FiniteByPlace(value);
    if Place(value) == 0 {
      FiniteByPlace(0);
      assert r == if positive then 1 else 0x8000_0001;
    } else if value < 0x8000_0000 {
      StepFromPositive(value, positive);
    } else {
      StepFromNegative(value, positive);
    }
    FiniteByPlace(r);
  }

  /** In numbers: the step goes up if asked to, except from the largest float, and down if asked to, except from
      its negative; and no float lies between. */
  lemma NextFiniteIsNext(value: F32, positive: bool, other: F32)
    requires Finite(value) && Finite(other)
    ensures var r := NextFinite(value, positive);
      && (Value(r) > Value(value) <==> (if positive then value != LARGEST else value == MINUS_LARGEST))
      && (Value(r) < Value(value) <==> (if positive then value == LARGEST else value != MINUS_LARGEST))
      && !(Value(value) < Value(other) < Value(r)) && !(Value(r) < Value(other) < Value(value))
  {
    var r := NextFinite(value, positive);
    NextFiniteIsAdjacent(value, positive);
    PlacesOrderValues(value, r);
    PlacesOrderValues(r, value);
    PlacesOrderValues(value, other);
    PlacesOrderValues(other, value);
    PlacesOrderValues(r, other);
    PlacesOrderValues(other, r);
  }

  /** Every finite place belongs to a float, so a neighbouring place is a neighbouring float. */
  lemma PlacesAreTaken(p: int) returns (b: F32)
    requires -0x7f80_0000 < p < 0x7f80_0000
    ensures Finite(b) && Place(b) == p
    ensures forall c: F32 :: Place(c) == p ==> c == b || (Abs(b) == 0 && Abs(c) == 0)
  {
    b := if p >= 0 then p else 0x8000_0000 - p;
    FiniteByPlace(b);
  }
}
