/**
 The 64-bit mixing step behind every hashed draw, and that it loses nothing. A word is the
 number its bits denote; addition and multiplication wrap around. Exclusive or and shifts are
 defined bit by bit on numbers, and the inverse of the whole step undoes its parts in reverse.
 */
module SplitMix {
  import Bytes
  import opened Wrappers

  const GOLDEN_RATIO: Word := 0x9E3779B97F4A7C15

  // ---- Bits ----------------------------------------------------------------

  /** Exclusive or, bit by bit. */
  function Xor(a: nat, b: nat): nat
    decreases a + b
  {
    if a == 0 then b
    else if b == 0 then a
    else 2 * Xor(a / 2, b / 2) + (a + b) % 2
  }

  /** Shifts `k` bits out at the low end. */
  function Shr(z: nat, k: nat): nat
    decreases k, z
  {
    if k == 0 then z else Shr(z / 2, k - 1)
  }

  function Pow2(n: nat): (p: nat)
    ensures p > 0
  {
    if n == 0 then 1 else 2 * Pow2(n - 1)
  }

  lemma {:induction false} XorStep(a: nat, b: nat)
    ensures Xor(a, b) / 2 == Xor(a / 2, b / 2) && Xor(a, b) % 2 == (a + b) % 2
  {
  }

  lemma {:induction false} XorAssociates(a: nat, b: nat, c: nat)
    ensures Xor(Xor(a, b), c) == Xor(a, Xor(b, c))
    decreases a + b + c
  {
    if a > 0 && b > 0 && c > 0 {
      XorAssociates(a / 2, b / 2, c / 2);
      LeftStep(a, b, c);
      XorCommutes(a, Xor(b, c));
      LeftStep(b, c, a);
      XorCommutes(a / 2, Xor(b / 2, c / 2));
      SameHalves(Xor(Xor(a, b), c), Xor(a, Xor(b, c)));
    }
  }

  lemma LeftStep(a: nat, b: nat, c: nat)
    ensures Xor(Xor(a, b), c) / 2 == Xor(Xor(a / 2, b / 2), c / 2) && Xor(Xor(a, b), c) % 2 == (a + b + c) % 2
  {
    hide Xor;
    XorStep(a, b);
    XorStep(Xor(a, b), c);
    Parity(a + b, Xor(a, b), c);
  }

  lemma Parity(p: nat, q: nat, c: nat)
    requires p % 2 == q % 2
    ensures (p + c) % 2 == (q + c) % 2
  {
  }

  lemma SameHalves(p: nat, q: nat)
    requires p / 2 == q / 2 && p % 2 == q % 2
    ensures p == q
  {
  }

  lemma {:induction false} XorCommutes(a: nat, b: nat)
    ensures Xor(a, b) == Xor(b, a)
    decreases a + b
  {
    if a > 0 && b > 0 {
      XorCommutes(a / 2, b / 2);
    }
  }

  lemma {:induction false} XorCancels(a: nat)
    ensures Xor(a, a) == 0
  {
    if a > 0 {
      XorCancels(a / 2);
    }
  }

  lemma {:induction false} XorBounded(a: nat, b: nat, n: nat)
    requires a < Pow2(n) && b < Pow2(n)
    ensures Xor(a, b) < Pow2(n)
  {
    if a > 0 && b > 0 {
      XorBounded(a / 2, b / 2, n - 1);
    }
  }

  /** Shifting divides by a power of two. */
  lemma {:induction false} ShrDivides(z: nat, k: nat)
    ensures Shr(z, k) == z / Pow2(k)
    decreases k
  {
    if k > 0 {
      ShrDivides(z / 2, k - 1);
      HalfThenDivide(z, Pow2(k - 1));
    }
  }

  lemma HalfThenDivide(z: nat, m: nat)
    requires m > 0
    ensures z / 2 / m == z / (2 * m)
  {
    var q, r, p := z / 2 / m, z / 2 % m, z / 2 / m * m;
    DoubleProduct(q, m);
    TwiceRest(z, p, r, m);
    Bytes.Quotient(z, 2 * m, q, 2 * r + z % 2);
  }

  lemma DoubleProduct(q: nat, m: nat)
    ensures q * (2 * m) == 2 * (q * m)
  {
  }

  lemma TwiceRest(z: nat, p: nat, r: nat, m: nat)
    requires z / 2 == p + r && r < m
    ensures z == 2 * p + (2 * r + z % 2) && 2 * r + z % 2 < 2 * m
  {
  }

  lemma {:induction false} ShrXor(a: nat, b: nat, k: nat)
    ensures Shr(Xor(a, b), k) == Xor(Shr(a, k), Shr(b, k))
    decreases k
  {
    if k > 0 {
      XorStep(a, b);
      ShrXor(a / 2, b / 2, k - 1);
    }
  }

  lemma {:induction false} ShrAdds(z: nat, j: nat, k: nat)
    ensures Shr(Shr(z, j), k) == Shr(z, j + k)
    decreases j
  {
    if j > 0 {
      ShrAdds(z / 2, j - 1, k);
    }
  }

  lemma {:induction false} ShrBounded(z: nat, k: nat, n: nat)
    requires z < Pow2(n)
    ensures Shr(z, k) < Pow2(n) && (k >= n ==> Shr(z, k) == 0)
    decreases k
  {
    if k > 0 {
      if n == 0 {
        ShrBounded(0, k - 1, 0);
      } else {
        ShrHalf(z, k, n);
      }
    }
  }

  lemma {:induction false} ShrHalf(z: nat, k: nat, n: nat)
    requires z < Pow2(n) && k > 0 && n > 0
    ensures Shr(z, k) < Pow2(n) && (k >= n ==> Shr(z, k) == 0)
    decreases k, 0
  {
    ShrBounded(z / 2, k - 1, n - 1);
  }

  /** Shifts by more than a third of the width: the exclusive or with one is undone by two more. */
  lemma XorShiftUndone(z: nat, k: nat)
    requires z < Pow2(64) && 3 * k >= 64
    ensures Unshift(Shift(z, k), k) == z
    ensures Shift(Unshift(z, k), k) == z
  {
    Shifts(z, k);
    var z1, z2 := Shr(z, k), Shr(z, 2 * k);
    ShrXor(z, z1, k);
    ShrXor(z, z1, 2 * k);
    XorZero(z2);
    Telescope(z, z1, z2);
    ShrXor(Xor(z, z1), z2, k);
    XorZero(Xor(z1, z2));
  }

  /** Exclusive or of a word with its upper bits. */
  function Shift(z: nat, k: nat): nat {
    Xor(z, Shr(z, k))
  }

  function Unshift(y: nat, k: nat): nat {
    Xor(Xor(y, Shr(y, k)), Shr(y, 2 * k))
  }

  lemma XorZero(a: nat)
    ensures Xor(a, 0) == a == Xor(0, a)
  {
  }

  lemma Shifts(z: nat, k: nat)
    requires z < Pow2(64) && 3 * k >= 64
    ensures Shr(Shr(z, k), k) == Shr(z, 2 * k)
    ensures Shr(Shr(z, 2 * k), k) == 0 == Shr(Shr(z, k), 2 * k)
  {
    ShrAdds(z, k, k);
    ShrAdds(z, 2 * k, k);
    ShrAdds(z, k, 2 * k);
    ShrBounded(z, 3 * k, 64);
  }

  lemma Telescope(a: nat, b: nat, c: nat)
    ensures Xor(Xor(Xor(a, b), Xor(b, c)), c) == a
    ensures Xor(Xor(Xor(a, b), c), Xor(b, c)) == a
  {
    Inner(a, b, c);
    XorAssociates(a, c, c);
    XorCancels(c);
    XorAssociates(Xor(a, b), c, Xor(b, c));
    XorAssociates(c, b, c);
    XorCommutes(c, b);
    XorAssociates(b, c, c);
    XorAssociates(a, b, b);
    XorCancels(b);
    XorAssociates(c, b, c);
    XorCommutes(c, Xor(b, c));
    XorAssociates(b, c, c);
  }

  lemma Inner(a: nat, b: nat, c: nat)
    ensures Xor(Xor(a, b), Xor(b, c)) == Xor(a, c)
  {
    XorAssociates(a, b, Xor(b, c));
    XorAssociates(b, b, c);
    XorCancels(b);
  }

  // ---- Words ---------------------------------------------------------------

  lemma WordSize()
    ensures Pow2(64) == 0x1_0000_0000_0000_0000
  {
    assert Pow2(0) == 1 && Pow2(1) == 2 && Pow2(2) == 4 && Pow2(3) == 8 && Pow2(4) == 16;
    Pow2Adds(4, 4);
    Pow2Adds(8, 8);
    Pow2Adds(16, 16);
    Pow2Adds(32, 32);
  }

  lemma {:induction false} Pow2Adds(m: nat, n: nat)
    ensures Pow2(m + n) == Pow2(m) * Pow2(n)
  {
    if m > 0 {
      Pow2Adds(m - 1, n);
      assert Pow2(m) * Pow2(n) == 2 * (Pow2(m - 1) * Pow2(n));
    }
  }

  lemma ShiftBounded(z: nat, k: nat)
    requires z < 0x1_0000_0000_0000_0000
    ensures Shift(z, k) < 0x1_0000_0000_0000_0000 && Unshift(z, k) < 0x1_0000_0000_0000_0000
  {
    WordSize();
    ShrBounded(z, k, 64);
    ShrBounded(z, 2 * k, 64);
    XorBounded(z, Shr(z, k), 64);
    XorBounded(Shift(z, k), Shr(z, 2 * k), 64);
  }

  function Plus(x: int, c: int): Word {
    (x + c) % 0x1_0000_0000_0000_0000
  }

  function XorShift(z: Word, k: nat): Word {
    ShiftBounded(z, k);
    Shift(z, k)
  }

  function Times1(z: Word): Word {
    z * 0xBF58476D1CE4E5B9 % 0x1_0000_0000_0000_0000
  }

  function Times2(z: Word): Word {
    z * 0x94D049BB133111EB % 0x1_0000_0000_0000_0000
  }

  function SplitMix64(x: Word): Word {
    XorShift(Times2(XorShift(Times1(XorShift(Plus(x, GOLDEN_RATIO), 30)), 27)), 31)
  }

  // ---- Nothing is lost -----------------------------------------------------

  function XorUnshift(y: Word, k: nat): Word {
    ShiftBounded(y, k);
    Unshift(y, k)
  }

  function Minus(x: int, c: int): Word {
    (x - c) % 0x1_0000_0000_0000_0000
  }

  /** The factors are the inverses of the mixing factors modulo 2^64. */
  function Untimes1(z: Word): Word {
    z * 0x96de1b173f119089 % 0x1_0000_0000_0000_0000
  }

  function Untimes2(z: Word): Word {
    z * 0x319642b2d24d8ec3 % 0x1_0000_0000_0000_0000
  }

  /** Undoes the steps in reverse order. */
  function Unmix64(y: Word): Word {
    Minus(XorUnshift(Untimes1(XorUnshift(Untimes2(XorUnshift(y, 31)), 27)), 30), GOLDEN_RATIO)
  }

  lemma Wrapped(z: Word, v: int, t: int)
    requires v == z + 0x1_0000_0000_0000_0000 * t
    ensures v % 0x1_0000_0000_0000_0000 == z
  {
  }

  lemma Untimes1Times1(z: Word)
    ensures Untimes1(Times1(z)) == z && Times1(Untimes1(z)) == z
  {
    var q, p := z * 0xBF58476D1CE4E5B9 / 0x1_0000_0000_0000_0000, z * 0x96de1b173f119089 / 0x1_0000_0000_0000_0000;
    Wrapped(z, Times1(z) * 0x96de1b173f119089, z * 8125545580553827436 - q * 0x96de1b173f119089);
    Wrapped(z, Untimes1(z) * 0xBF58476D1CE4E5B9, z * 8125545580553827436 - p * 0xBF58476D1CE4E5B9);
  }

  lemma Untimes2Times2(z: Word)
    ensures Untimes2(Times2(z)) == z && Times2(Untimes2(z)) == z
  {
    var q, p := z * 0x94D049BB133111EB / 0x1_0000_0000_0000_0000, z * 0x319642b2d24d8ec3 / 0x1_0000_0000_0000_0000;
    Wrapped(z, Times2(z) * 0x319642b2d24d8ec3, z * 2077064247507883091 - q * 0x319642b2d24d8ec3);
    Wrapped(z, Untimes2(z) * 0x94D049BB133111EB, z * 2077064247507883091 - p * 0x94D049BB133111EB);
  }

  lemma XorUnshifts(z: Word, k: nat)
    requires k == 30 || k == 27 || k == 31
    ensures XorUnshift(XorShift(z, k), k) == z && XorShift(XorUnshift(z, k), k) == z
  {
    WordSize();
    XorShiftUndone(z, k);
  }

  lemma PlusMinus(x: Word, c: Word)
    ensures Minus(Plus(x, c), c) == x == Plus(Minus(x, c), c)
  {
  }

  lemma MixThenUnmix(x: Word)
    ensures Unmix64(SplitMix64(x)) == x
  {
    var a := Plus(x, GOLDEN_RATIO);
    var b := XorShift(a, 30);
    var c := Times1(b);
    var d := XorShift(c, 27);
    var e := Times2(d);
    XorUnshifts(e, 31);
    Untimes2Times2(d);
    XorUnshifts(c, 27);
    Untimes1Times1(b);
    XorUnshifts(a, 30);
    PlusMinus(x, GOLDEN_RATIO);
  }

  lemma UnmixThenMix(y: Word)
    ensures SplitMix64(Unmix64(y)) == y
  {
    var a := XorUnshift(y, 31);
    var b := Untimes2(a);
    var c := XorUnshift(b, 27);
    var d := Untimes1(c);
    var e := XorUnshift(d, 30);
    PlusMinus(e, GOLDEN_RATIO);
    XorUnshifts(d, 30);
    Untimes1Times1(c);
    XorUnshifts(b, 27);
    Untimes2Times2(a);
    XorUnshifts(y, 31);
  }

  /** Mixing permutes the 64-bit words: nothing is lost and everything is reached. */
  lemma SplitMixIsBijective(x: Word)
    ensures Unmix64(SplitMix64(x)) == x == SplitMix64(Unmix64(x))
  {
    MixThenUnmix(x);
    UnmixThenMix(x);
  }
}
