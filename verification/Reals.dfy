/**
 Products and quotients of reals, with the few laws the models need of them.

 The two operations are named, so that a proof sees a product as a whole and uses a law of it
 only where the law is called. The laws are what ordered fields give: signs, monotonicity,
 distribution, and a quotient as the one factor that gives its dividend. Sums of sequences of
 reals follow, with the bounds that weighted means and totals rest on.
 */
module Reals {

  function Times(x: real, y: real): real {
    x * y
  }

  function Over(x: real, y: real): real
    requires y != 0.0
  {
    x / y
  }

  function Squared(x: real): (s: real)
    ensures s >= 0.0
    ensures s == 0.0 <==> x == 0.0
  {
    SquareSign(x);
    Times(x, x)
  }

  lemma TimesIs(x: real, y: real)
    ensures Times(x, y) == x * y
  {
  }

  lemma SquaredIs(x: real)
    ensures Squared(x) == x * x
  {
  }

  lemma PositiveTimes(x: real, y: real)
    requires x > 0.0 && y > 0.0
    ensures Times(x, y) > 0.0
  {
  }

  lemma NegatedSquare(x: real)
    ensures Times(x, x) == Times(-x, -x)
  {
  }

  lemma SquareSign(x: real)
    ensures x == 0.0 ==> Times(x, x) == 0.0
    ensures x != 0.0 ==> Times(x, x) > 0.0
  {
    if x > 0.0 {
      PositiveTimes(x, x);
    } else if x < 0.0 {
      PositiveTimes(-x, -x);
      NegatedSquare(x);
    }
  }

  lemma NonNegativeTimes(x: real, y: real)
    requires x >= 0.0 && y >= 0.0
    ensures Times(x, y) >= 0.0
  {
  }

  lemma TimesLe(x: real, y: real, z: real)
    requires x <= y && z >= 0.0
    ensures Times(x, z) <= Times(y, z)
  {
    NonNegativeTimes(y - x, z);
    assert Times(y - x, z) == Times(y, z) - Times(x, z);
  }

  lemma TimesLess(x: real, y: real, z: real)
    requires x < y && z > 0.0
    ensures Times(x, z) < Times(y, z)
  {
    PositiveTimes(y - x, z);
    assert Times(y - x, z) == Times(y, z) - Times(x, z);
  }

  lemma TimesZero(x: real)
    ensures Times(x, 0.0) == 0.0 == Times(0.0, x)
  {
  }

  lemma TimesCommutes(x: real, y: real)
    ensures Times(x, y) == Times(y, x)
  {
  }

  lemma TimesAdds(x: real, y: real, z: real)
    ensures Times(x + y, z) == Times(x, z) + Times(y, z)
    ensures Times(z, x + y) == Times(z, x) + Times(z, y)
  {
  }

  lemma TimesAssociates(x: real, y: real, z: real)
    ensures Times(Times(x, y), z) == Times(x, Times(y, z))
  {
  }

  lemma OverTimes(x: real, y: real)
    requires y != 0.0
    ensures Times(Over(x, y), y) == x
  {
  }

  /** A quotient is the only factor that gives the dividend. */
  lemma OverIs(x: real, y: real, q: real)
    requires y != 0.0 && Times(q, y) == x
    ensures Over(x, y) == q
  {
  }

  lemma OverLe(x: real, y: real, bound: real)
    requires y > 0.0
    ensures Over(x, y) <= bound <==> x <= Times(bound, y)
    ensures Over(x, y) >= bound <==> x >= Times(bound, y)
  {
    var q := Over(x, y);
    OverTimes(x, y);
    if q <= bound {
      TimesLe(q, bound, y);
    } else {
      TimesLess(bound, q, y);
    }
    if q >= bound {
      TimesLe(bound, q, y);
    } else {
      TimesLess(q, bound, y);
    }
  }

  function Sum(s: seq<real>): real {
    if s == [] then 0.0 else Sum(s[..|s| - 1]) + s[|s| - 1]
  }

  lemma {:induction false} SumAdds(s: seq<real>, x: real)
    ensures Sum(s + [x]) == Sum(s) + x
  {
    assert (s + [x])[..|s|] == s;
  }

  lemma {:induction false} SumBounds(s: seq<real>, lo: real, hi: real)
    requires forall i | 0 <= i < |s| :: lo <= s[i] <= hi
    ensures Times(|s| as real, lo) <= Sum(s) <= Times(|s| as real, hi)
  {
    if s == [] {
      TimesZero(lo);
      TimesZero(hi);
    } else {
      var n := |s| - 1;
      SumBounds(s[..n], lo, hi);
      TimesAdds(n as real, 1.0, lo);
      TimesAdds(n as real, 1.0, hi);
    }
  }

  /** A part of a sum of positive numbers is no larger than the sum. */
  lemma {:induction false} PartOfSum(s: seq<real>, i: nat)
    requires i < |s| && forall j | 0 <= j < |s| :: s[j] > 0.0
    ensures 0.0 < s[i] <= Sum(s) && (|s| > 1 ==> s[i] < Sum(s))
  {
    var n := |s| - 1;
    if i < n {
      PartOfSum(s[..n], i);
    } else if n > 0 {
      PartOfSum(s[..n], 0);
    }
  }

  lemma {:induction false} ScaledSum(s: seq<real>, c: real, v: seq<real>)
    requires |v| == |s| && forall i | 0 <= i < |s| :: v[i] == Times(s[i], c)
    ensures Sum(v) == Times(Sum(s), c)
  {
    if s == [] {
      TimesZero(c);
    } else {
      var n := |s| - 1;
      ScaledSum(s[..n], c, v[..n]);
      TimesAdds(Sum(s[..n]), s[n], c);
    }
  }

  lemma {:induction false} SumAtLeast(s: seq<real>, lo: real)
    requires forall i | 0 <= i < |s| :: lo <= s[i]
    ensures Times(|s| as real, lo) <= Sum(s)
  {
    if s == [] {
      TimesZero(lo);
    } else {
      var n := |s| - 1;
      SumAtLeast(s[..n], lo);
      TimesAdds(n as real, 1.0, lo);
    }
  }
}
