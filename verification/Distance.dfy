/**
 Squared Euclidean distance: what it means, and the two loops that compute it.

 One loop sums into eight lanes and handles the rest one by one, the other folds over the
 row and divides by the scale on the way. Both give the one distance below, and the laws
 leave no other function with its name: it is zero exactly between equal rows, adds up over
 parts, and is the square of the difference on a single coordinate.
 */
module Distance {
  import opened Reals

  /** The sum of the squared differences. */
  function SqL2(a: seq<real>, b: seq<real>): real
    requires |a| == |b|
  {
    if a == [] then 0.0
    else SqL2(a[..|a| - 1], b[..|a| - 1]) + Squared(a[|a| - 1] - b[|a| - 1])
  }

  lemma {:induction false} SqL2Adds(a: seq<real>, b: seq<real>, x: real, y: real)
    requires |a| == |b|
    ensures SqL2(a + [x], b + [y]) == SqL2(a, b) + Squared(x - y)
  {
    assert (a + [x])[..|a|] == a && (b + [y])[..|a|] == b;
  }

  /** Never negative, and zero exactly between equal rows. */
  lemma {:induction false} ZeroExactly(a: seq<real>, b: seq<real>)
    requires |a| == |b|
    ensures SqL2(a, b) >= 0.0
    ensures SqL2(a, b) == 0.0 <==> a == b
  {
    if a != [] {
      var n := |a| - 1;
      ZeroExactly(a[..n], b[..n]);
      assert a == a[..n] + [a[n]] && b == b[..n] + [b[n]];
    }
  }

  lemma {:induction false} Symmetric(a: seq<real>, b: seq<real>)
    requires |a| == |b|
    ensures SqL2(a, b) == SqL2(b, a)
  {
    if a != [] {
      var n := |a| - 1;
      Symmetric(a[..n], b[..n]);
      NegatedSquare(a[n] - b[n]);
      assert b[n] - a[n] == -(a[n] - b[n]);
    }
  }

  /** One coordinate contributes the square of its difference. */
  lemma OneCoordinate(x: real, y: real)
    ensures SqL2([x], [y]) == (x - y) * (x - y)
  {
    SqL2Adds([], [], x, y);
    assert [] + [x] == [x] && [] + [y] == [y];
  }

  /** The distances of two halves add up. */
  lemma {:induction false} PartsAdd(a: seq<real>, b: seq<real>, c: seq<real>, d: seq<real>)
    requires |a| == |b| && |c| == |d|
    ensures SqL2(a + c, b + d) == SqL2(a, b) + SqL2(c, d)
  {
    if c == [] {
      assert a + c == a && b + d == b;
    } else {
      var n := |c| - 1;
      PartsAdd(a, b, c[..n], d[..n]);
      SqL2Adds(a + c[..n], b + d[..n], c[n], d[n]);
      assert a + c == a + c[..n] + [c[n]] && b + d == b + d[..n] + [d[n]];
    }
  }

  /** Rows that differ in one place are as far apart as that place. */
  lemma DifferInOne(p: seq<real>, x: real, y: real, q: seq<real>)
    ensures SqL2(p + [x] + q, p + [y] + q) == (x - y) * (x - y)
  {
    PartsAdd(p, p, [x], [y]);
    PartsAdd(p + [x], p + [y], q, q);
    ZeroExactly(p, p);
    ZeroExactly(q, q);
    OneCoordinate(x, y);
  }

  /** Stretching both sides by t multiplies the distance by the square of t. */
  lemma {:induction false} Stretched(a: seq<real>, b: seq<real>, t: real, c: seq<real>, d: seq<real>)
    requires |a| == |b| == |c| == |d|
    requires forall i | 0 <= i < |a| :: c[i] == Times(t, a[i]) && d[i] == Times(t, b[i])
    ensures SqL2(c, d) == Times(Squared(t), SqL2(a, b))
  {
    if a == [] {
      TimesZero(Squared(t));
    } else {
      var n := |a| - 1;
      Stretched(a[..n], b[..n], t, c[..n], d[..n]);
      StretchedSquare(t, a[n], b[n]);
      TimesAdds(SqL2(a[..n], b[..n]), Squared(a[n] - b[n]), Squared(t));
    }
  }

  lemma StretchedSquare(t: real, x: real, y: real)
    ensures Squared(Times(t, x) - Times(t, y)) == Times(Squared(t), Squared(x - y))
  {
    var d := x - y;
    TimesAdds(d, y, t);
    assert Times(t, x) - Times(t, y) == Times(t, d);
    TimesAssociates(t, d, Times(t, d));
    TimesAssociates(d, t, d);
    TimesCommutes(d, t);
    TimesAssociates(t, d, d);
    TimesAssociates(t, t, Times(d, d));
  }

  /** Shifting both sides by the same row changes nothing. */
  lemma {:induction false} Shifted(a: seq<real>, b: seq<real>, s: seq<real>, c: seq<real>, d: seq<real>)
    requires |a| == |b| == |s| == |c| == |d|
    requires forall i | 0 <= i < |a| :: c[i] == a[i] + s[i] && d[i] == b[i] + s[i]
    ensures SqL2(c, d) == SqL2(a, b)
  {
    if a != [] {
      var n := |a| - 1;
      Shifted(a[..n], b[..n], s[..n], c[..n], d[..n]);
      assert c[n] - d[n] == a[n] - b[n];
    }
  }

  // ---- The loop over eight lanes -------------------------------------------

  const LANES := 8

  /** Adding to one entry adds to the sum. */
  lemma {:induction false} SumWith(s: seq<real>, l: nat, x: real)
    requires l < |s|
    ensures Sum(s[l := s[l] + x]) == Sum(s) + x
  {
    var n, t := |s| - 1, s[l := s[l] + x];
    if l < n {
      SumWith(s[..n], l, x);
      assert t[..n] == s[..n][l := s[..n][l] + x];
    } else {
      assert t[..n] == s[..n];
    }
  }

  lemma {:induction false} SumOfZeros(s: seq<real>)
    requires forall i | 0 <= i < |s| :: s[i] == 0.0
    ensures Sum(s) == 0.0
  {
    if s != [] {
      SumOfZeros(s[..|s| - 1]);
    }
  }

  lemma SqL2Next(a: seq<real>, b: seq<real>, i: nat)
    requires i < |a| == |b|
    ensures SqL2(a[..i + 1], b[..i + 1]) == SqL2(a[..i], b[..i]) + Squared(a[i] - b[i])
  {
    SqL2Adds(a[..i], b[..i], a[i], b[i]);
    assert a[..i + 1] == a[..i] + [a[i]] && b[..i + 1] == b[..i] + [b[i]];
  }

  /** Adds the squares of one chunk to the lanes. */
  method AddChunk(a: seq<real>, b: seq<real>, from: nat, acc: array<real>)
    requires from + LANES <= |a| == |b| && acc.Length == LANES
    modifies acc
    ensures Sum(acc[..]) - SqL2(a[..from + LANES], b[..from + LANES]) == Sum(old(acc[..])) - SqL2(a[..from], b[..from])
  {
    ghost var start := Sum(acc[..]) - SqL2(a[..from], b[..from]);
    for l := 0 to LANES
      invariant Sum(acc[..]) - SqL2(a[..from + l], b[..from + l]) == start
    {
      var d := a[from + l] - b[from + l];
      SumWith(acc[..], l, Squared(d));
      SqL2Next(a, b, from + l);
      ghost var before := acc[..];
      acc[l] := acc[l] + Squared(d);
      assert acc[..] == before[l := before[l] + Squared(d)];
    }
  }

  /** Whole chunks of eight go to the lanes, the lanes are summed, and the rest is added one by one. */
  method L2SqF32(a: seq<real>, b: seq<real>) returns (sum: real)
    requires |a| == |b|
    ensures sum == SqL2(a, b)
  {
    var acc := new real[LANES](_ => 0.0);
    SumOfZeros(acc[..]);
    var i := 0;
    while i + LANES <= |a|
      invariant i <= |a| && Sum(acc[..]) == SqL2(a[..i], b[..i])
    {
      AddChunk(a, b, i, acc);
      i := i + LANES;
    }
    sum := SumLanes(acc);
    while i < |a|
      invariant i <= |a| && sum == SqL2(a[..i], b[..i])
    {
      SqL2Next(a, b, i);
      sum := sum + Squared(a[i] - b[i]);
      i := i + 1;
    }
    assert a[..|a|] == a && b[..|a|] == b;
  }

  method SumLanes(acc: array<real>) returns (sum: real)
    ensures sum == Sum(acc[..])
  {
    sum := 0.0;
    for l := 0 to acc.Length
      invariant sum == Sum(acc[..l])
    {
      SumAdds(acc[..l], acc[l]);
      assert acc[..l + 1] == acc[..l] + [acc[l]];
      sum := sum + acc[l];
    }
    assert acc[..acc.Length] == acc[..];
  }

  // ---- The loop over a scaled row ------------------------------------------

  function Divisor(scaled: bool, scale: seq<real>, j: nat): (d: real)
    requires j < |scale| && scale[j] != 0.0
    ensures d != 0.0
  {
    if scaled then scale[j] else 1.0
  }

  /** A row as the search compares it: divided by the scale if asked. */
  function Scaled(row: seq<real>, scaled: bool, scale: seq<real>): (r: seq<real>)
    requires |scale| == |row| && forall j | 0 <= j < |scale| :: scale[j] != 0.0
    ensures |r| == |row|
  {
    seq(|row|, j requires 0 <= j < |row| => if scaled then row[j] / scale[j] else row[j])
  }

  lemma ScalingUndoneAt(row: seq<real>, scale: seq<real>, j: nat)
    requires |scale| == |row| && (forall i | 0 <= i < |scale| :: scale[i] != 0.0) && j < |row|
    ensures Scaled(row, true, scale)[j] * scale[j] == row[j]
  {
    OverTimes(row[j], scale[j]);
    assert Times(Scaled(row, true, scale)[j], scale[j]) == row[j];
  }

  /** Multiplying by the scale gives the row back; without scaling nothing changed. */
  lemma ScalingUndone(row: seq<real>, scale: seq<real>)
    requires |scale| == |row| && forall j | 0 <= j < |scale| :: scale[j] != 0.0
    ensures forall j | 0 <= j < |row| :: Scaled(row, true, scale)[j] * scale[j] == row[j]
    ensures Scaled(row, false, scale) == row
  {
    forall j | 0 <= j < |row| ensures Scaled(row, true, scale)[j] * scale[j] == row[j] {
      ScalingUndoneAt(row, scale, j);
    }
  }

  /** Rows that are compared as equal were equal. */
  lemma ScaledEqual(a: seq<real>, b: seq<real>, scaled: bool, scale: seq<real>)
    requires |a| == |b| == |scale| && forall j | 0 <= j < |scale| :: scale[j] != 0.0
    ensures Scaled(a, scaled, scale) == Scaled(b, scaled, scale) <==> a == b
  {
    if Scaled(a, scaled, scale) == Scaled(b, scaled, scale) {
      ScalingUndone(a, scale);
      ScalingUndone(b, scale);
      forall j | 0 <= j < |a| ensures a[j] == b[j] {
        assert scaled ==> Scaled(a, true, scale)[j] * scale[j] == a[j];
      }
    }
  }

  /** The fold that reads a row again gives the distance of the two scaled rows; cutting it off at zero
      changes nothing. */
  method RowSqL2(x: seq<real>, y: seq<real>, scaleX: bool, xScale: seq<real>) returns (r: real)
    requires |x| == |y| == |xScale| && forall j | 0 <= j < |xScale| :: xScale[j] != 0.0
    ensures r == SqL2(Scaled(x, scaleX, xScale), Scaled(y, scaleX, xScale))
  {
    ghost var a, b := Scaled(x, scaleX, xScale), Scaled(y, scaleX, xScale);
    var acc := 0.0;
    for j := 0 to |x|
      invariant acc == SqL2(a[..j], b[..j])
    {
      SqL2Next(a, b, j);
      var d := if scaleX then x[j] / xScale[j] - y[j] / xScale[j] else x[j] - y[j];
      acc := acc + Squared(d);
    }
    assert a[..|x|] == a && b[..|x|] == b;
    ZeroExactly(a, b);
    r := if acc < 0.0 then 0.0 else acc;
  }
}
