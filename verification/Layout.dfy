/**
 Row-major storage: rows of equal width laid out one after the other.

 A row is found again at its number times the width. The space that rows take up is defined
 by adding one width after the other rather than as a product, which is what arguments about
 growing files and buffers need; a lemma ties it to the product that the sources compute.
 Both the column files of the store and the flat buffers of hashed draws use it.
 */
module Layout {

  function Flatten<T>(rows: seq<seq<T>>): (flat: seq<T>) {
    if rows == [] then [] else Flatten(rows[..|rows| - 1]) + rows[|rows| - 1]
  }

  ghost predicate Width<T>(rows: seq<seq<T>>, d: nat) {
    forall i | 0 <= i < |rows| :: |rows[i]| == d
  }

  lemma RowWithin(i: nat, n: nat, d: nat)
    requires i < n
    ensures i * d + d <= n * d
  {
    assert (i + 1) * d <= n * d;
  }

  lemma {:induction false} FlattenSize<T>(rows: seq<seq<T>>, d: nat)
    requires Width(rows, d)
    ensures |Flatten(rows)| == |rows| * d
  {
    if rows != [] {
      FlattenSize(rows[..|rows| - 1], d);
      assert |rows| * d == (|rows| - 1) * d + d;
    }
  }

  /** Row `i` is found again at offset `i * d`. */
  lemma {:induction false} FlatRow<T>(rows: seq<seq<T>>, d: nat, i: nat)
    requires Width(rows, d) && i < |rows|
    ensures i * d + d <= |Flatten(rows)| && Flatten(rows)[i * d..i * d + d] == rows[i]
  {
    FlattenSize(rows, d);
    RowWithin(i, |rows|, d);
    var init := rows[..|rows| - 1];
    FlattenSize(init, d);
    if i < |init| {
      FlatRow(init, d, i);
      RowWithin(i, |init|, d);
      SliceOfPrefix(Flatten(init), rows[|init|], i * d, i * d + d);
    } else {
      assert |init| == i;
    }
  }

  lemma SliceOfPrefix<T>(a: seq<T>, b: seq<T>, lo: nat, hi: nat)
    requires lo <= hi <= |a|
    ensures (a + b)[lo..hi] == a[lo..hi]
  {
  }

  /** The cells that `n` rows of width `cols` take up. */
  ghost function Extent(n: nat, cols: nat): (cells: nat)
  {
    if n == 0 then 0 else Extent(n - 1, cols) + cols
  }

  lemma {:induction false} ExtentIsProduct(n: nat, cols: nat)
    ensures Extent(n, cols) == n * cols
  {
    if n > 0 {
      ExtentIsProduct(n - 1, cols);
      assert n * cols == (n - 1) * cols + cols;
    }
  }

  lemma {:induction false} ExtentGrows(m: nat, n: nat, cols: nat)
    requires m <= n
    ensures Extent(m, cols) <= Extent(n, cols)
    decreases n
  {
    if m < n {
      ExtentGrows(m, n - 1, cols);
    }
  }

  lemma {:induction false} ExtentAdds(m: nat, n: nat, cols: nat)
    ensures Extent(m + n, cols) == Extent(m, cols) + Extent(n, cols)
  {
    if n > 0 {
      ExtentAdds(m, n - 1, cols);
    }
  }

  /** The cells of `n` rows, computed the way the sources do it. */
  method CellsOf(n: nat, cols: nat) returns (cells: nat)
    ensures cells == Extent(n, cols)
  {
    ExtentIsProduct(n, cols);
    cells := n * cols;
  }
}
