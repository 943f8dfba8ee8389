/**
 Sorting by a comparator, as the source's `sort_by`, `sort_unstable` and `sorted`
 calls use it, and the two facts every ranking argument in this project rests on:
 a sorted arrangement is unique, and truncating a ranking commutes with adding entries.

 Sorting is specified by order and content alone, so any algorithm will do; the one written
 here inserts.
 */
module Sorting {

  ghost predicate TotalPreorder<T(!new)>(le: (T, T) -> bool) {
    && (forall a, b :: le(a, b) || le(b, a))
    && (forall a, b, c :: le(a, b) && le(b, c) ==> le(a, c))
  }

  ghost predicate TotalOrder<T(!new)>(le: (T, T) -> bool) {
    && TotalPreorder(le)
    && (forall a, b :: le(a, b) && le(b, a) ==> a == b)
  }

  ghost predicate Sorted<T(!new)>(le: (T, T) -> bool, s: seq<T>) {
    forall i, j | 0 <= i < j < |s| :: le(s[i], s[j])
  }

  /** Puts `x` in front of the first entry that is not smaller. */
  function Insert<T(!new)>(le: (T, T) -> bool, x: T, s: seq<T>): (r: seq<T>)
    ensures multiset(r) == multiset(s) + multiset{x}
  {
    if s == [] || le(x, s[0]) then
      [x] + s
    else
      assert s == [s[0]] + s[1..];
      [s[0]] + Insert(le, x, s[1..])
  }

  lemma {:induction false} InsertSorted<T(!new)>(le: (T, T) -> bool, x: T, s: seq<T>)
    requires TotalPreorder(le) && Sorted(le, s)
    ensures Sorted(le, Insert(le, x, s))
  {
    if s == [] {
    } else if le(x, s[0]) {
      forall j | 0 <= j < |s| ensures le(x, s[j]) {
        assert j == 0 || le(s[0], s[j]);
      }
    } else {
      InsertSorted(le, x, s[1..]);
      var rest := Insert(le, x, s[1..]);
      forall j | 0 <= j < |rest| ensures le(s[0], rest[j]) {
        assert rest[j] in multiset(rest);
        if rest[j] in s[1..] {
        }
      }
    }
  }

  function Sort<T(!new)>(le: (T, T) -> bool, s: seq<T>): (r: seq<T>)
    requires TotalPreorder(le)
    ensures Sorted(le, r) && multiset(r) == multiset(s)
  {
    if s == [] then []
    else
      assert s == [s[0]] + s[1..];
      InsertSorted(le, s[0], Sort(le, s[1..]));
      Insert(le, s[0], Sort(le, s[1..]))
  }

  lemma SameMultisetSameLength<T>(a: seq<T>, b: seq<T>)
    requires multiset(a) == multiset(b)
    ensures |a| == |b|
  {
    assert |multiset(a)| == |a| && |multiset(b)| == |b|;
  }

  lemma SameFirst<T(!new)>(le: (T, T) -> bool, a: seq<T>, b: seq<T>)
    requires TotalOrder(le) && Sorted(le, a) && Sorted(le, b)
    requires a != [] && |a| == |b| && multiset(a) == multiset(b)
    ensures a[0] == b[0]
  {
    assert a[0] in multiset(b) && b[0] in multiset(a);
    var i :| 0 <= i < |b| && b[i] == a[0];
    var j :| 0 <= j < |a| && a[j] == b[0];
  }

  lemma SameTails<T>(a: seq<T>, b: seq<T>)
    requires |a| > 0 && |b| > 0 && a[0] == b[0] && multiset(a) == multiset(b)
    ensures multiset(a[1..]) == multiset(b[1..])
  {
    assert a == [a[0]] + a[1..] && b == [b[0]] + b[1..];
    assert multiset(a[1..]) == multiset(a) - multiset{a[0]};
  }

  /** Under a total order there is only one sorted arrangement of the same entries. */
  lemma {:induction false} SortedUnique<T(!new)>(le: (T, T) -> bool, a: seq<T>, b: seq<T>)
    requires TotalOrder(le) && Sorted(le, a) && Sorted(le, b)
    requires multiset(a) == multiset(b)
    ensures a == b
  {
    SameMultisetSameLength(a, b);
    if a != [] {
      SameFirst(le, a, b);
      SameTails(a, b);
      SortedUnique(le, a[1..], b[1..]);
    }
  }

  function Min(a: int, b: int): int {
    if a <= b then a else b
  }

  /** The first `m` entries of the ranking of `s`. */
  function Top<T(!new)>(le: (T, T) -> bool, s: seq<T>, m: nat): (r: seq<T>)
    requires TotalPreorder(le)
    ensures |r| == Min(m, |s|) && Sorted(le, r) && multiset(r) <= multiset(s)
  {
    var ranked := Sort(le, s);
    SameMultisetSameLength(ranked, s);
    assert ranked == ranked[..Min(m, |s|)] + ranked[Min(m, |s|)..];
    ranked[..Min(m, |s|)]
  }

  /** How a top-`m` list is recognised: it is sorted, its entries come from `s`, and
      everything of `s` it leaves out ranks after everything it keeps. */
  lemma TopFrom<T(!new)>(le: (T, T) -> bool, s: seq<T>, m: nat, kept: seq<T>, rest: seq<T>)
    requires TotalOrder(le) && Sorted(le, kept)
    requires multiset(kept) + multiset(rest) == multiset(s)
    requires |kept| == Min(m, |s|)
    requires forall a, b | a in kept && b in rest :: le(a, b)
    ensures Top(le, s, m) == kept
  {
    var tail := Sort(le, rest);
    forall b | b in tail ensures b in rest {
      assert b in multiset(tail);
    }
    var all := kept + tail;
    assert Sorted(le, all) by {
      forall i, j | 0 <= i < j < |all| ensures le(all[i], all[j]) {
        if i < |kept| <= j {
          assert kept[i] in kept && tail[j - |kept|] in tail;
        }
      }
    }
    SortedUnique(le, all, Sort(le, s));
  }

  lemma TopOfPermutation<T(!new)>(le: (T, T) -> bool, s: seq<T>, t: seq<T>, m: nat)
    requires TotalOrder(le) && multiset(s) == multiset(t)
    ensures Top(le, s, m) == Top(le, t, m)
  {
    SortedUnique(le, Sort(le, s), Sort(le, t));
    SameMultisetSameLength(s, t);
  }

  /** What is dropped by truncating to `m` can never come back: the top `m` after more
      entries arrive is the top `m` of the kept list and the new entries. */
  lemma TopOfTop<T(!new)>(le: (T, T) -> bool, s: seq<T>, more: seq<T>, m: nat)
    requires TotalOrder(le)
    ensures Top(le, Top(le, s, m) + more, m) == Top(le, s + more, m)
  {
    var ranked := Sort(le, s);
    SameMultisetSameLength(ranked, s);
    assert multiset(ranked + more) == multiset(s + more);
    TopOfPermutation(le, ranked + more, s + more, m);
    if |s| <= m {
      assert ranked[..|s|] == ranked;
    } else {
      TopOfCut(le, ranked, more, m);
    }
  }

  lemma TopOfCut<T(!new)>(le: (T, T) -> bool, ranked: seq<T>, more: seq<T>, m: nat)
    requires TotalOrder(le) && Sorted(le, ranked) && m < |ranked|
    ensures Top(le, ranked[..m] + more, m) == Top(le, ranked + more, m)
  {
    var pool := ranked[..m] + more;
    var sorted := Sort(le, pool);
    SameMultisetSameLength(sorted, pool);
    KeptBeforeDropped(le, ranked, m, more, sorted);
    var kept, rest := sorted[..m], sorted[m..] + ranked[m..];
    Regroup(ranked, more, sorted, m);
    TopFrom(le, ranked + more, m, kept, rest);
  }

  lemma Regroup<T>(ranked: seq<T>, more: seq<T>, sorted: seq<T>, m: nat)
    requires m < |ranked| && m <= |sorted|
    requires multiset(sorted) == multiset(ranked[..m] + more)
    ensures multiset(sorted[..m]) + multiset(sorted[m..] + ranked[m..]) == multiset(ranked + more)
  {
    assert sorted == sorted[..m] + sorted[m..];
    assert ranked + more == ranked[..m] + ranked[m..] + more;
    var a, b, r, t, e := multiset(sorted[..m]), multiset(sorted[m..]), multiset(ranked[..m]), multiset(ranked[m..]), multiset(more);
    assert a + b == r + e;
    calc {
      a + multiset(sorted[m..] + ranked[m..]);
      a + (b + t);
      (a + b) + t;
      (r + e) + t;
      r + t + e;
      multiset(ranked + more);
    }
  }

  /** Every kept entry ranks no later than the worst survivor, so before the cut ones. */
  lemma KeptBeforeDropped<T(!new)>(le: (T, T) -> bool, ranked: seq<T>, m: nat, more: seq<T>, sorted: seq<T>)
    requires TotalOrder(le) && Sorted(le, ranked) && Sorted(le, sorted)
    requires m < |ranked| && m <= |sorted|
    requires multiset(sorted) == multiset(ranked[..m] + more)
    ensures forall a, b | a in sorted[..m] && b in sorted[m..] + ranked[m..] :: le(a, b)
  {
    forall a, b | a in sorted[..m] && b in sorted[m..] + ranked[m..] ensures le(a, b) {
      if b in ranked[m..] {
        KeptBeforeCut(le, ranked, m, more, sorted, a, b);
      } else {
        var i :| 0 <= i < m && sorted[i] == a;
        var j :| m <= j < |sorted| && sorted[j] == b;
      }
    }
  }

  lemma KeptBeforeCut<T(!new)>(le: (T, T) -> bool, ranked: seq<T>, c: nat, more: seq<T>, sorted: seq<T>, a: T, b: T)
    requires TotalOrder(le) && Sorted(le, ranked) && Sorted(le, sorted)
    requires c < |ranked| && c <= |sorted|
    requires multiset(sorted) == multiset(ranked[..c] + more)
    requires a in sorted[..c] && b in ranked[c..]
    ensures le(a, b)
  {
    var q :| 0 <= q < |ranked[c..]| && ranked[c..][q] == b;
    assert b == ranked[c + q];
    if !le(a, b) {
      // Then the c survivors, all before b, would sort strictly ahead of a.
      var i :| 0 <= i < c && sorted[i] == a;
      assert forall x | x in ranked[..c] :: le(x, b);
      assert forall j | i <= j < |sorted| :: le(a, sorted[j]) && !le(sorted[j], b);
      assert sorted == sorted[..i] + sorted[i..];
      assert forall x | x in ranked[..c] :: x !in sorted[i..];
      MultisetWithin(ranked[..c], multiset(more), sorted[..i], sorted[i..]);
    }
  }

  lemma MultisetWithin<T>(a: seq<T>, others: multiset<T>, c: seq<T>, d: seq<T>)
    requires multiset(a) + others == multiset(c) + multiset(d)
    requires forall x | x in a :: x !in d
    ensures |a| <= |c|
  {
    assert multiset(a) <= multiset(c) by {
      forall x | x in multiset(a) ensures multiset(a)[x] <= multiset(c)[x] {
        assert x in a && x !in d;
        assert multiset(d)[x] == 0;
        assert (multiset(a) + others)[x] == (multiset(c) + multiset(d))[x];
      }
    }
    assert multiset(c) == multiset(a) + (multiset(c) - multiset(a));
    assert |multiset(c)| == |multiset(a)| + |multiset(c) - multiset(a)|;
  }

  function AtMost(): (int, int) -> bool {
    (a: int, b: int) => a <= b
  }

  lemma SameElements(a: seq<int>, b: seq<int>)
    requires multiset(a) == multiset(b)
    ensures forall x :: x in a <==> x in b
  {
    forall x ensures x in a <==> x in b {
      assert x in multiset(a) <==> x in a;
      assert x in multiset(b) <==> x in b;
    }
  }

  /** Whole numbers in ascending order. */
  function SortInts(s: seq<int>): (r: seq<int>)
    ensures |r| == |s|
    ensures forall i, j | 0 <= i < j < |r| :: r[i] <= r[j]
    ensures forall x :: x in r <==> x in s
  {
    var r := Sort(AtMost(), s);
    assert forall i, j | 0 <= i < j < |r| :: AtMost()(r[i], r[j]);
    SameMultisetSameLength(r, s);
    SameElements(r, s);
    r
  }

  // ---- Repetitions ---------------------------------------------------------

  lemma {:induction false} OnceInDistinct<T>(s: seq<T>, x: T)
    requires forall i, j | 0 <= i < j < |s| :: s[i] != s[j]
    ensures multiset(s)[x] <= 1
  {
    if s != [] {
      assert s == [s[0]] + s[1..];
      OnceInDistinct(s[1..], x);
    }
  }

  lemma TwiceWhenEqual<T>(r: seq<T>, i: nat, j: nat)
    requires i < j < |r|
    ensures r[i] == r[j] ==> multiset(r)[r[i]] >= 2
  {
    assert r == r[..j] + [r[j]] + r[j + 1..];
    assert r[i] in r[..j];
  }

  /** A rearrangement of a list without repetitions has none either. */
  lemma StillDistinct<T(!new)>(s: seq<T>, r: seq<T>)
    requires multiset(r) == multiset(s) && forall i, j | 0 <= i < j < |s| :: s[i] != s[j]
    ensures forall i, j | 0 <= i < j < |r| :: r[i] != r[j]
    ensures forall x :: x in r <==> x in s
  {
    forall i, j | 0 <= i < j < |r| ensures r[i] != r[j] {
      OnceInDistinct(s, r[i]);
      TwiceWhenEqual(r, i, j);
    }
    forall x ensures x in r <==> x in s {
      assert x in multiset(r) <==> x in r;
      assert x in multiset(s) <==> x in s;
    }
  }
}
