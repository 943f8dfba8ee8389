/**
 Dense perturbation of a parameter vector on the CPU: every parameter moves along a signed
 direction, or one float aside when the move would not show.
 */
module Dense {
  import opened Float32
  import opened Reals
  import opened Wrappers

  /** A run of parameters with one key and one scale. */
  datatype Leaf = Leaf(key: nat, offset: nat, len: nat, scale: F32)

  datatype Term = Term(seed: nat, coefficient: F32)

  /** Rounded addition and multiplication, the hashed sign, and the exact value of a float: any functions. */
  datatype Arithmetic = Arithmetic(add: (F32, F32) -> F32, mul: (F32, F32) -> F32,
                                   sign: (nat, nat, nat) -> F32, exact: F32 -> real)

  datatype DenseError =
    | EmptyBase | BaseNotFinite | NoLeaves | LeafGap | BadLeaf | CountOverflow | WrongCount
    | TermNotFinite | NoDirection | Overflowed | Unchanged(changed: nat)
    | TooManyLeaves | LeafTooLong

  // ---- Leaves tile the parameters ------------------------------------------

  function Covered(leaves: seq<Leaf>): nat {
    if leaves == [] then 0 else Covered(leaves[..|leaves| - 1]) + leaves[|leaves| - 1].len
  }

  ghost predicate GoodLeaf(leaf: Leaf) {
    leaf.len > 0 && Finite(leaf.scale) && Greater(leaf.scale, 0)
  }

  /** Every leaf begins where the leaves before it end. */
  ghost predicate Contiguous(leaves: seq<Leaf>) {
    && (forall i | 0 <= i < |leaves| :: leaves[i].offset == Covered(leaves[..i]) && GoodLeaf(leaves[i]))
    && Covered(leaves) < 0x1_0000_0000_0000_0000
  }

  method ValidateLeaves(leaves: seq<Leaf>, expected: Option<nat>) returns (r: Result<(), DenseError>)
    ensures r.Ok? <==> leaves != [] && Contiguous(leaves) && (expected.Some? ==> Covered(leaves) == expected.value)
    ensures r.Err? ==> r.error in {NoLeaves, LeafGap, BadLeaf, CountOverflow, WrongCount}
  {
    if |leaves| == 0 {
      return Err(NoLeaves);
    }
    var end: nat := 0;
    for i := 0 to |leaves|
      invariant end == Covered(leaves[..i])
      invariant Contiguous(leaves[..i])
    {
      var leaf := leaves[i];
      assert leaves[..i + 1][..i] == leaves[..i];
      CoveredGrows(leaves, i);
      if leaf.offset != end {
        return Err(LeafGap);
      }
      if leaf.len == 0 || !Finite(leaf.scale) || !Greater(leaf.scale, 0) {
        return Err(BadLeaf);
      }
      if leaf.offset + leaf.len >= 0x1_0000_0000_0000_0000 {
        return Err(CountOverflow);
      }
      end := leaf.offset + leaf.len;
      ContiguousNext(leaves, i);
    }
    assert leaves[..|leaves|] == leaves;
    if expected.Some? && end != expected.value {
      return Err(WrongCount);
    }
    r := Ok(());
  }

  lemma ContiguousNext(leaves: seq<Leaf>, i: nat)
    requires i < |leaves| && Contiguous(leaves[..i])
    requires leaves[i].offset == Covered(leaves[..i]) && GoodLeaf(leaves[i])
    requires Covered(leaves[..i]) + leaves[i].len < 0x1_0000_0000_0000_0000
    ensures Contiguous(leaves[..i + 1])
  {
    var next := leaves[..i + 1];
    assert next[..i] == leaves[..i];
    forall j | 0 <= j < |next| ensures next[j].offset == Covered(next[..j]) && GoodLeaf(next[j]) {
      assert next[..j] == leaves[..j];
      if j < i {
        assert leaves[..i][j] == next[j] && leaves[..i][..j] == leaves[..j];
      }
    }
  }

  lemma {:induction false} CoveredGrows(leaves: seq<Leaf>, i: nat)
    requires i < |leaves|
    ensures Covered(leaves[..i]) + leaves[i].len == Covered(leaves[..i + 1]) <= Covered(leaves)
    decreases |leaves|
  {
    assert leaves[..i + 1][..i] == leaves[..i];
    var before := leaves[..|leaves| - 1];
    if i < |leaves| - 1 {
      CoveredGrows(before, i);
      assert before[..i + 1] == leaves[..i + 1] && before[..i] == leaves[..i];
    } else {
      assert leaves[..i + 1] == leaves;
    }
  }

  ghost predicate InLeaf(leaf: Leaf, index: nat) {
    leaf.offset <= index < leaf.offset + leaf.len
  }

  lemma EndsBefore(leaves: seq<Leaf>, j: nat, n: nat)
    requires Contiguous(leaves) && j < n <= |leaves|
    ensures leaves[j].offset + leaves[j].len <= Covered(leaves[..n])
  {
    assert leaves[..n][..j + 1] == leaves[..j + 1] && leaves[..n][..j] == leaves[..j];
    CoveredGrows(leaves[..n], j);
  }

  lemma ContiguousPrefix(leaves: seq<Leaf>, n: nat)
    requires Contiguous(leaves) && n < |leaves|
    ensures Contiguous(leaves[..n])
  {
    CoveredGrows(leaves, n);
    forall j | 0 <= j < n ensures leaves[..n][j].offset == Covered(leaves[..n][..j]) && GoodLeaf(leaves[..n][j]) {
      assert leaves[..n][..j] == leaves[..j];
    }
  }

  /** Leaves that validate put every parameter into exactly one leaf. */
  lemma {:induction false} ExactlyOneLeaf(leaves: seq<Leaf>, index: nat) returns (i: nat)
    requires Contiguous(leaves) && index < Covered(leaves)
    ensures i < |leaves| && InLeaf(leaves[i], index)
    ensures forall j | 0 <= j < |leaves| && InLeaf(leaves[j], index) :: j == i
  {
    var last := |leaves| - 1;
    var before := leaves[..last];
    ContiguousPrefix(leaves, last);
    if index < Covered(before) {
      i := ExactlyOneLeaf(before, index);
      forall j | 0 <= j < |leaves| && InLeaf(leaves[j], index) ensures j == i {
        assert j < last ==> before[j] == leaves[j];
      }
    } else {
      i := last;
      forall j | 0 <= j < last ensures !InLeaf(leaves[j], index) {
        EndsBefore(leaves, j, last);
      }
    }
  }

  // ---- One parameter -------------------------------------------------------

  datatype Acc = Acc(sum: F32, strongest: F32, positive: bool)

  function Accumulated(ar: Arithmetic, key: nat, local: nat, terms: seq<Term>): Acc {
    if terms == [] then Acc(0, 0, true)
    else Add(ar, key, local, Accumulated(ar, key, local, terms[..|terms| - 1]), terms[|terms| - 1])
  }

  function Add(ar: Arithmetic, key: nat, local: nat, a: Acc, term: Term): Acc {
    if Same(term.coefficient, 0) then a
    else
      var direction := ar.sign(term.seed, key, local);
      var sum := ar.add(a.sum, ar.mul(term.coefficient, direction));
      if Greater(Abs(term.coefficient), a.strongest)
      then Acc(sum, Abs(term.coefficient), Agrees(ar, key, local, term))
      else Acc(sum, a.strongest, a.positive)
  }

  /** The term pushes this parameter up. */
  predicate Agrees(ar: Arithmetic, key: nat, local: nat, term: Term) {
    Greater(term.coefficient, 0) == Greater(ar.sign(term.seed, key, local), 0)
  }

  /** The new value, or nothing when it leaves the finite floats. */
  function Moved(ar: Arithmetic, leaf: Leaf, local: nat, terms: seq<Term>, value: F32): Option<F32> {
    var a := Accumulated(ar, leaf.key, local, terms);
    var candidate := ar.add(value, ar.mul(leaf.scale, a.sum));
    if Same(a.sum, 0) || Same(candidate, value) then Some(NextFinite(value, a.positive))
    else if Finite(candidate) then Some(candidate)
    else None
  }

  /** Whatever addition and multiplication do, a value that comes out is finite and different. */
  lemma MovedChanges(ar: Arithmetic, leaf: Leaf, local: nat, terms: seq<Term>, value: F32)
    requires Finite(value)
    ensures var m := Moved(ar, leaf, local, terms, value);
      m.Some? ==> Finite(m.value) && !Same(m.value, value)
  {
    NextFiniteIsAdjacent(value, Accumulated(ar, leaf.key, local, terms).positive);
  }

  /** The first of the terms with the greatest magnitude. */
  ghost predicate Strongest(terms: seq<Term>, best: nat) {
    && best < |terms|
    && (forall i | 0 <= i < |terms| :: Abs(terms[i].coefficient) <= Abs(terms[best].coefficient))
    && (forall i | 0 <= i < best :: Abs(terms[i].coefficient) < Abs(terms[best].coefficient))
  }

  ghost predicate AllFinite(terms: seq<Term>) {
    forall i | 0 <= i < |terms| :: Finite(terms[i].coefficient)
  }

  /** When the move does not show, the float steps the way the strongest term pushes, the first of equals. */
  lemma {:induction false} StrongestTermDecides(ar: Arithmetic, key: nat, local: nat, terms: seq<Term>, best: nat)
    requires AllFinite(terms) && Strongest(terms, best) && Abs(terms[best].coefficient) != 0
    ensures var a := Accumulated(ar, key, local, terms);
      a.strongest == Abs(terms[best].coefficient) && a.positive == Agrees(ar, key, local, terms[best])
  {
    var n := |terms| - 1;
    var before, last := terms[..n], terms[n];
    Magnitudes(last.coefficient, terms[best].coefficient);
    if best < n {
      assert before[best] == terms[best];
      StrongestTermDecides(ar, key, local, before, best);
    } else {
      WeakerThanLast(ar, key, local, before, Abs(last.coefficient));
      var strongest := Accumulated(ar, key, local, before).strongest;
      Magnitudes(last.coefficient, strongest);
    }
  }

  lemma {:induction false} WeakerThanLast(ar: Arithmetic, key: nat, local: nat, terms: seq<Term>, bound: nat)
    requires AllFinite(terms) && bound > 0 && forall i | 0 <= i < |terms| :: Abs(terms[i].coefficient) < bound
    ensures var s := Accumulated(ar, key, local, terms).strongest; s < bound && Finite(s) && Abs(s) == s
  {
    if terms == [] {
      FiniteByPlace(0);
    } else {
      var n := |terms| - 1;
      var before, c := Accumulated(ar, key, local, terms[..n]), terms[n].coefficient;
      Magnitudes(c, 0);
      WeakerThanLast(ar, key, local, terms[..n], bound);
      assert Add(ar, key, local, before, terms[n]).strongest in {before.strongest, Abs(c)};
    }
  }

  /** When the move does not show, the float takes one step: upwards exactly when coefficient and sign of the
      strongest term are both positive or neither is. */
  lemma HiddenMoveSteps(ar: Arithmetic, leaf: Leaf, local: nat, terms: seq<Term>, value: F32, best: nat)
    requires AllFinite(terms) && Strongest(terms, best) && Abs(terms[best].coefficient) != 0
    requires var sum := Accumulated(ar, leaf.key, local, terms).sum;
      Same(sum, 0) || Same(ar.add(value, ar.mul(leaf.scale, sum)), value)
    ensures var term := terms[best];
      Moved(ar, leaf, local, terms, value)
      == Some(NextFinite(value, Greater(term.coefficient, 0) == Greater(ar.sign(term.seed, leaf.key, local), 0)))
  {
    StrongestTermDecides(ar, leaf.key, local, terms, best);
  }

  /** What the signed coefficients add up to. */
  function SignedSum(ar: Arithmetic, key: nat, local: nat, terms: seq<Term>): real {
    if terms == [] then 0.0
    else
      var last := terms[|terms| - 1];
      SignedSum(ar, key, local, terms[..|terms| - 1]) + Times(ar.exact(last.coefficient), ar.exact(ar.sign(last.seed, key, local)))
  }

  /** No addition or multiplication of the sum had to round. */
  ghost predicate SumsExactly(ar: Arithmetic, key: nat, local: nat, terms: seq<Term>) {
    if terms == [] then ar.exact(0) == 0.0
    else
      var before, last := terms[..|terms| - 1], terms[|terms| - 1];
      var sum, sign := Accumulated(ar, key, local, before).sum, ar.sign(last.seed, key, local);
      && SumsExactly(ar, key, local, before)
      && (if Same(last.coefficient, 0) then ar.exact(last.coefficient) == 0.0
          else AddsExactly(ar, sum, last.coefficient, sign))
  }

  /** Adding a product to a number rounds neither. */
  ghost predicate AddsExactly(ar: Arithmetic, to: F32, x: F32, y: F32) {
    ar.exact(ar.add(to, ar.mul(x, y))) == ar.exact(to) + Times(ar.exact(x), ar.exact(y))
  }

  lemma {:induction false} AccumulatedIsSum(ar: Arithmetic, key: nat, local: nat, terms: seq<Term>)
    requires SumsExactly(ar, key, local, terms)
    ensures ar.exact(Accumulated(ar, key, local, terms).sum) == SignedSum(ar, key, local, terms)
  {
    if terms != [] {
      var last := terms[|terms| - 1];
      AccumulatedIsSum(ar, key, local, terms[..|terms| - 1]);
      TimesZero(ar.exact(ar.sign(last.seed, key, local)));
    }
  }

  /** Where nothing rounds and the move shows, a parameter moves by the scale of its leaf times the sum of the
      signed coefficients. */
  lemma MovesByScaledSum(ar: Arithmetic, leaf: Leaf, local: nat, terms: seq<Term>, value: F32)
    requires SumsExactly(ar, leaf.key, local, terms)
    requires var sum := Accumulated(ar, leaf.key, local, terms).sum;
      && AddsExactly(ar, value, leaf.scale, sum)
      && !Same(sum, 0) && !Same(ar.add(value, ar.mul(leaf.scale, sum)), value)
    ensures var moved := Moved(ar, leaf, local, terms, value);
      moved.Some? ==> ar.exact(moved.value) == ar.exact(value) + ar.exact(leaf.scale) * SignedSum(ar, leaf.key, local, terms)
  {
    hide Moved, Accumulated, SumsExactly, SignedSum, Same;
    AccumulatedIsSum(ar, leaf.key, local, terms);
    ShownMove(ar, leaf, local, terms, value);
    TimesIs(ar.exact(leaf.scale), SignedSum(ar, leaf.key, local, terms));
  }

  lemma ShownMove(ar: Arithmetic, leaf: Leaf, local: nat, terms: seq<Term>, value: F32)
    requires var sum := Accumulated(ar, leaf.key, local, terms).sum;
      !Same(sum, 0) && !Same(ar.add(value, ar.mul(leaf.scale, sum)), value)
    ensures var moved := Moved(ar, leaf, local, terms, value);
      moved.Some? ==> moved.value == ar.add(value, ar.mul(leaf.scale, Accumulated(ar, leaf.key, local, terms).sum))
  {
  }

  /** A single term contributes its coefficient with its sign. */
  lemma SignedSumOfOne(ar: Arithmetic, key: nat, local: nat, term: Term)
    ensures SignedSum(ar, key, local, [term]) == ar.exact(term.coefficient) * ar.exact(ar.sign(term.seed, key, local))
  {
    assert [term][..0] == [];
  }

  // ---- All parameters ------------------------------------------------------

  ghost function NewValue(ar: Arithmetic, base: seq<F32>, leaf: Leaf, terms: seq<Term>, local: nat): Option<F32>
    requires leaf.offset + local < |base|
  {
    Moved(ar, leaf, local, terms, base[leaf.offset + local])
  }

  /** The first `upto` parameters of a leaf hold their new values. */
  ghost predicate LeafDone(ar: Arithmetic, base: seq<F32>, leaf: Leaf, terms: seq<Term>, out: seq<F32>, upto: nat) {
    && leaf.offset + upto <= |base| == |out|
    && forall local | 0 <= local < upto :: NewValue(ar, base, leaf, terms, local) == Some(out[leaf.offset + local])
  }

  method MoveOne(ar: Arithmetic, leaf: Leaf, local: nat, terms: seq<Term>, value: F32) returns (r: Option<F32>)
    ensures r == Moved(ar, leaf, local, terms, value)
  {
    var sum: F32, strongest: F32, positive := 0, 0, true;
    for i := 0 to |terms|
      invariant Acc(sum, strongest, positive) == Accumulated(ar, leaf.key, local, terms[..i])
    {
      var term := terms[i];
      assert terms[..i + 1][..i] == terms[..i];
      if !Same(term.coefficient, 0) {
        var direction := ar.sign(term.seed, leaf.key, local);
        sum := ar.add(sum, ar.mul(term.coefficient, direction));
        if Greater(Abs(term.coefficient), strongest) {
          strongest := Abs(term.coefficient);
          positive := Greater(term.coefficient, 0) == Greater(direction, 0);
        }
      }
    }
    assert terms[..|terms|] == terms;
    var candidate := ar.add(value, ar.mul(leaf.scale, sum));
    if Same(sum, 0) || Same(candidate, value) {
      r := Some(NextFinite(value, positive));
    } else if Finite(candidate) {
      r := Some(candidate);
    } else {
      r := None;
    }
  }

  /** Some parameter of the leaf would leave the finite floats. */
  ghost predicate LeafOverflows(ar: Arithmetic, base: seq<F32>, leaf: Leaf, terms: seq<Term>) {
    exists local: nat :: local < leaf.len && leaf.offset + local < |base| && NewValue(ar, base, leaf, terms, local) == None
  }

  method MoveLeaf(ar: Arithmetic, base: seq<F32>, leaf: Leaf, terms: seq<Term>, out: array<F32>) returns (ok: bool)
    requires leaf.offset + leaf.len <= |base| == out.Length
    modifies out
    ensures ok <==> !LeafOverflows(ar, base, leaf, terms)
    ensures ok ==> LeafDone(ar, base, leaf, terms, out[..], leaf.len)
    ensures forall i | 0 <= i < |base| && !InLeaf(leaf, i) :: out[i] == old(out[i])
  {
    for local := 0 to leaf.len
      invariant LeafDone(ar, base, leaf, terms, out[..], local)
      invariant forall i | 0 <= i < |base| && !InLeaf(leaf, i) :: out[i] == old(out[i])
    {
      var index: nat := leaf.offset + local;
      var moved := MoveOne(ar, leaf, local, terms, base[index]);
      assert moved == NewValue(ar, base, leaf, terms, local);
      if moved.None? {
        return false;
      }
      ghost var before := out[..];
      out[index] := moved.value;
      assert out[..] == before[index := moved.value];
    }
    ok := true;
  }

  ghost predicate AllDone(ar: Arithmetic, base: seq<F32>, leaves: seq<Leaf>, terms: seq<Term>, out: seq<F32>, n: nat) {
    forall i | 0 <= i < n && i < |leaves| :: LeafDone(ar, base, leaves[i], terms, out, leaves[i].len)
  }

  ghost predicate Overflows(ar: Arithmetic, base: seq<F32>, leaves: seq<Leaf>, terms: seq<Term>) {
    exists i :: 0 <= i < |leaves| && LeafOverflows(ar, base, leaves[i], terms)
  }

  /** Writes every parameter once, leaf by leaf, and stops at the first overflow. */
  method Reference(ar: Arithmetic, base: seq<F32>, leaves: seq<Leaf>, terms: seq<Term>, out: array<F32>)
    returns (r: Result<(), DenseError>)
    requires Contiguous(leaves) && Covered(leaves) == |base| == out.Length
    modifies out
    ensures r == if Overflows(ar, base, leaves, terms) then Err(Overflowed) else Ok(())
    ensures r.Ok? ==> AllDone(ar, base, leaves, terms, out[..], |leaves|)
  {
    for i := 0 to |leaves|
      invariant AllDone(ar, base, leaves, terms, out[..], i)
      invariant forall j | 0 <= j < i :: !LeafOverflows(ar, base, leaves[j], terms)
    {
      CoveredGrows(leaves, i);
      ghost var before := out[..];
      var ok := MoveLeaf(ar, base, leaves[i], terms, out);
      if !ok {
        return Err(Overflowed);
      }
      EarlierLeavesKept(ar, base, leaves, terms, before, out[..], i);
    }
    r := Ok(());
  }

  lemma EarlierLeavesKept(ar: Arithmetic, base: seq<F32>, leaves: seq<Leaf>, terms: seq<Term>, before: seq<F32>, after: seq<F32>, n: nat)
    requires Contiguous(leaves) && n < |leaves| && |before| == |after| == |base|
    requires AllDone(ar, base, leaves, terms, before, n)
    requires forall i | 0 <= i < |base| && !InLeaf(leaves[n], i) :: after[i] == before[i]
    requires LeafDone(ar, base, leaves[n], terms, after, leaves[n].len)
    ensures AllDone(ar, base, leaves, terms, after, n + 1)
  {
    forall j | 0 <= j < n ensures LeafDone(ar, base, leaves[j], terms, after, leaves[j].len) {
      assert LeafDone(ar, base, leaves[j], terms, before, leaves[j].len);
      EndsBefore(leaves, j, n);
      forall local | 0 <= local < leaves[j].len
        ensures NewValue(ar, base, leaves[j], terms, local) == Some(after[leaves[j].offset + local])
      {
        assert !InLeaf(leaves[n], leaves[j].offset + local);
      }
    }
  }

  /** Every written parameter is finite and different from where it started. */
  lemma EveryParameterMoves(ar: Arithmetic, base: seq<F32>, leaves: seq<Leaf>, terms: seq<Term>, out: seq<F32>, index: nat)
    requires Contiguous(leaves) && Covered(leaves) == |base| == |out| && index < |base| && Finite(base[index])
    requires AllDone(ar, base, leaves, terms, out, |leaves|)
    ensures Finite(out[index]) && !Same(base[index], out[index])
  {
    var i := ExactlyOneLeaf(leaves, index);
    assert LeafDone(ar, base, leaves[i], terms, out, leaves[i].len);
    var local: nat := index - leaves[i].offset;
    MovedChanges(ar, leaves[i], local, terms, base[index]);
    assert NewValue(ar, base, leaves[i], terms, local) == Some(out[index]);
  }

  // ---- Directions ----------------------------------------------------------

  /** The summed coefficient of a seed. */
  function Coefficient(exact: F32 -> real, terms: seq<Term>, seed: nat): real {
    if terms == [] then 0.0
    else Coefficient(exact, terms[..|terms| - 1], seed)
         + if terms[|terms| - 1].seed == seed then exact(terms[|terms| - 1].coefficient) else 0.0
  }

  predicate HasDirection(exact: F32 -> real, terms: seq<Term>) {
    exists i | 0 <= i < |terms| ::
      (forall j | 0 <= j < i :: terms[j].seed != terms[i].seed) && Coefficient(exact, terms, terms[i].seed) != 0.0
  }

  /** The terms do not cancel for every seed. */
  ghost predicate SomethingRemains(exact: F32 -> real, terms: seq<Term>) {
    exists seed: nat :: Coefficient(exact, terms, seed) != 0.0
  }

  /** Looking at first occurrences only is enough to find a seed that does not cancel. */
  lemma HasDirectionExactly(exact: F32 -> real, terms: seq<Term>)
    ensures HasDirection(exact, terms) <==> SomethingRemains(exact, terms)
  {
    forall seed: nat | Coefficient(exact, terms, seed) != 0.0 ensures HasDirection(exact, terms) {
      var i := FirstWithSeed(exact, terms, seed);
    }
    if HasDirection(exact, terms) {
      var i :| 0 <= i < |terms| && Coefficient(exact, terms, terms[i].seed) != 0.0;
      var seed: nat := terms[i].seed;
      assert Coefficient(exact, terms, seed) != 0.0;
    }
  }

  lemma FirstWithSeed(exact: F32 -> real, terms: seq<Term>, seed: nat) returns (i: nat)
    requires Coefficient(exact, terms, seed) != 0.0
    ensures i < |terms| && terms[i].seed == seed && forall j | 0 <= j < i :: terms[j].seed != seed
  {
    i := 0;
    NoTermNoCoefficient(exact, terms, seed);
    while terms[i].seed != seed
      invariant i < |terms| && forall j | 0 <= j < i :: terms[j].seed != seed
      decreases |terms| - i
    {
      i := i + 1;
    }
  }

  lemma {:induction false} NoTermNoCoefficient(exact: F32 -> real, terms: seq<Term>, seed: nat)
    ensures (forall j | 0 <= j < |terms| :: terms[j].seed != seed) ==> Coefficient(exact, terms, seed) == 0.0
  {
    if terms != [] {
      NoTermNoCoefficient(exact, terms[..|terms| - 1], seed);
    }
  }

  // ---- Apply ---------------------------------------------------------------

  datatype DenseResult = DenseResult(values: seq<F32>, changed: nat)

  ghost predicate AllNumbers(base: seq<F32>) {
    forall i | 0 <= i < |base| :: Finite(base[i])
  }

  /** What the caller has to get right. */
  ghost predicate ValidInputs(exact: F32 -> real, base: seq<F32>, leaves: seq<Leaf>, terms: seq<Term>) {
    && base != [] && AllNumbers(base)
    && leaves != [] && Contiguous(leaves) && Covered(leaves) == |base|
    && AllFinite(terms) && SomethingRemains(exact, terms)
  }

  method ValidateTerms(terms: seq<Term>) returns (r: Result<(), DenseError>)
    ensures r == if AllFinite(terms) then Ok(()) else Err(TermNotFinite)
  {
    for i := 0 to |terms|
      invariant AllFinite(terms[..i])
    {
      if !Finite(terms[i].coefficient) {
        return Err(TermNotFinite);
      }
      assert terms[..i + 1] == terms[..i] + [terms[i]];
    }
    assert terms[..|terms|] == terms;
    r := Ok(());
  }

  method Validate(exact: F32 -> real, base: seq<F32>, leaves: seq<Leaf>, terms: seq<Term>) returns (r: Result<(), DenseError>)
    ensures r.Ok? <==> ValidInputs(exact, base, leaves, terms)
    ensures r.Err? ==> r.error != Overflowed && !r.error.Unchanged?
  {
    if |base| == 0 {
      return Err(EmptyBase);
    }
    for i := 0 to |base|
      invariant forall j | 0 <= j < i :: Finite(base[j])
    {
      if !Finite(base[i]) {
        return Err(BaseNotFinite);
      }
    }
    assert AllNumbers(base);
    HasDirectionExactly(exact, terms);
    r := ValidateLeaves(leaves, Some(|base|));
    if r.Err? {
      return;
    }
    r := ValidateTerms(terms);
    if r.Ok? && !HasDirection(exact, terms) {
      r := Err(NoDirection);
    }
  }

  /** On the CPU a result that is returned changes every parameter, so the complaint that only
      some changed is never made, whatever floating-point addition and multiplication are. */
  method Apply(ar: Arithmetic, base: seq<F32>, leaves: seq<Leaf>, terms: seq<Term>) returns (r: Result<DenseResult, DenseError>)
    ensures r.Ok? <==> ValidInputs(ar.exact, base, leaves, terms) && !Overflows(ar, base, leaves, terms)
    ensures r.Ok? ==> |r.value.values| == |base| == r.value.changed
    ensures r.Ok? ==> forall i | 0 <= i < |base| :: Finite(r.value.values[i]) && !Same(base[i], r.value.values[i])
    ensures r.Ok? ==> AllDone(ar, base, leaves, terms, r.value.values, |leaves|)
    ensures r.Err? ==> !r.error.Unchanged?
    ensures r == Err(Overflowed) <==> ValidInputs(ar.exact, base, leaves, terms) && Overflows(ar, base, leaves, terms)
  {
    var valid := Validate(ar.exact, base, leaves, terms);
    if valid.Err? {
      return Err(valid.error);
    }
    var out := new F32[|base|](_ => 0);
    var moved := Reference(ar, base, leaves, terms, out);
    if moved.Err? {
      return Err(moved.error);
    }
    var values := out[..];
    forall i | 0 <= i < |base| ensures Finite(values[i]) && !Same(base[i], values[i]) {
      EveryParameterMoves(ar, base, leaves, terms, values, i);
    }
    r := CheckChanged(base, values);
  }

  /** The two checks that follow every backend. */
  method CheckChanged(base: seq<F32>, values: seq<F32>) returns (r: Result<DenseResult, DenseError>)
    requires |values| == |base|
    ensures (exists i :: 0 <= i < |base| && !Finite(values[i])) ==> r == Err(Overflowed)
    ensures r.Ok? <==> forall i | 0 <= i < |base| :: Finite(values[i]) && !Same(base[i], values[i])
    ensures r.Ok? ==> r.value == DenseResult(values, |base|)
  {
    for i := 0 to |values|
      invariant forall j | 0 <= j < i :: Finite(values[j])
    {
      if !Finite(values[i]) {
        return Err(Overflowed);
      }
    }
    var changed := 0;
    for i := 0 to |base|
      invariant changed <= i
      invariant changed == i <==> forall j | 0 <= j < i :: !Same(base[j], values[j])
    {
      if !Same(base[i], values[i]) {
        changed := changed + 1;
      }
    }
    if changed != |base| {
      return Err(Unchanged(changed));
    }
    r := Ok(DenseResult(values, changed));
  }

  // ---- The distance between directions -------------------------------------

  function Energy(exact: F32 -> real, leaves: seq<Leaf>): (e: real)
    ensures e >= 0.0
  {
    if leaves == [] then 0.0
    else
      var leaf := leaves[|leaves| - 1];
      Energy(exact, leaves[..|leaves| - 1]) + Weight(leaf.len, exact(leaf.scale))
  }

  function Weight(len: nat, scale: real): (w: real)
    ensures w >= 0.0
  {
    NonNegativeTimes(len as real, Squared(scale));
    Times(len as real, Squared(scale))
  }

  function Gap2(exact: F32 -> real, left: seq<Term>, right: seq<Term>, seed: nat): (g: real)
    ensures if Coefficient(exact, left, seed) == Coefficient(exact, right, seed) then g == 0.0 else g > 0.0
  {
    Squared(Coefficient(exact, left, seed) - Coefficient(exact, right, seed))
  }

  function Gaps(exact: F32 -> real, left: seq<Term>, right: seq<Term>, seeds: seq<nat>): (g: real)
    ensures g >= 0.0
  {
    if seeds == [] then 0.0
    else Gaps(exact, left, right, seeds[..|seeds| - 1]) + Gap2(exact, left, right, seeds[|seeds| - 1])
  }

  /** The seeds of a term list, each once, in order of first appearance. */
  function Seeds(terms: seq<Term>): seq<nat> {
    if terms == [] then []
    else
      var before, seed := Seeds(terms[..|terms| - 1]), terms[|terms| - 1].seed;
      if seed in before then before else before + [seed]
  }

  function Distance(exact: F32 -> real, leaves: seq<Leaf>, left: seq<Term>, right: seq<Term>): real {
    Times(Energy(exact, leaves), Gaps(exact, left, right, Seeds(left + right)))
  }

  /** One leaf and one seed on both sides: the length of the leaf times the square of its scale times the square
      of the difference of the coefficients. */
  lemma DistanceOfOne(exact: F32 -> real, leaf: Leaf, seed: nat, l: F32, r: F32)
    ensures var scale, gap := exact(leaf.scale), exact(l) - exact(r);
      Distance(exact, [leaf], [Term(seed, l)], [Term(seed, r)]) == leaf.len as real * (scale * scale) * (gap * gap)
  {
    var left, right := [Term(seed, l)], [Term(seed, r)];
    assert [leaf][..0] == [] && left[..0] == [] && right[..0] == [];
    OneEach(exact, left, right, seed);
    SquaredIs(exact(leaf.scale));
    SquaredIs(exact(l) - exact(r));
    assert Energy(exact, [leaf]) == Weight(leaf.len, exact(leaf.scale));
    TimesIs(leaf.len as real, exact(leaf.scale) * exact(leaf.scale));
    TimesIs(Energy(exact, [leaf]), (exact(l) - exact(r)) * (exact(l) - exact(r)));
  }

  lemma OneEach(exact: F32 -> real, left: seq<Term>, right: seq<Term>, seed: nat)
    requires |left| == |right| == 1 && left[0].seed == right[0].seed == seed
    ensures Gaps(exact, left, right, Seeds(left + right)) == Squared(exact(left[0].coefficient) - exact(right[0].coefficient))
  {
    SeedsNext([], left[0]);
    SeedsNext(left, right[0]);
    GapsNext(exact, left, right, [], seed);
    assert [] + [left[0]] == left && left + [right[0]] == left + right && [] + [seed] == [seed];
    CoefficientOfOne(exact, left, seed);
    CoefficientOfOne(exact, right, seed);
  }

  lemma SeedsNext(terms: seq<Term>, t: Term)
    ensures Seeds(terms + [t]) == if t.seed in Seeds(terms) then Seeds(terms) else Seeds(terms) + [t.seed]
  {
    assert (terms + [t])[..|terms|] == terms;
  }

  lemma CoefficientOfOne(exact: F32 -> real, terms: seq<Term>, seed: nat)
    requires |terms| == 1
    ensures Coefficient(exact, terms, seed) == if terms[0].seed == seed then exact(terms[0].coefficient) else 0.0
  {
    assert terms[..0] == [];
  }

  /** The energies of the leaves add up. */
  lemma {:induction false} EnergyAdds(exact: F32 -> real, a: seq<Leaf>, b: seq<Leaf>)
    ensures Energy(exact, a + b) == Energy(exact, a) + Energy(exact, b)
  {
    if b == [] {
      assert a + b == a;
    } else {
      var n := |b| - 1;
      EnergyAdds(exact, a, b[..n]);
      assert (a + b)[..|a + b| - 1] == a + b[..n];
    }
  }

  method Dist2(exact: F32 -> real, leaves: seq<Leaf>, left: seq<Term>, right: seq<Term>) returns (r: Result<real, DenseError>)
    ensures r.Ok? <==> leaves != [] && Contiguous(leaves) && AllFinite(left) && AllFinite(right)
    ensures r.Ok? ==> r.value == Distance(exact, leaves, left, right)
  {
    var valid := ValidateDistance(leaves, left, right);
    if valid.Err? {
      return Err(valid.error);
    }
    var energy := TotalEnergy(exact, leaves);
    var seeds := CollectSeeds(left + right);
    var distance := TotalGap(exact, left, right, seeds);
    r := Ok(Times(energy, distance));
  }

  method ValidateDistance(leaves: seq<Leaf>, left: seq<Term>, right: seq<Term>) returns (r: Result<(), DenseError>)
    ensures r.Ok? <==> leaves != [] && Contiguous(leaves) && AllFinite(left) && AllFinite(right)
  {
    r := ValidateLeaves(leaves, None);
    if r.Ok? {
      r := ValidateTerms(left);
    }
    if r.Ok? {
      r := ValidateTerms(right);
    }
  }

  method TotalEnergy(exact: F32 -> real, leaves: seq<Leaf>) returns (energy: real)
    ensures energy == Energy(exact, leaves)
  {
    energy := 0.0;
    for i := 0 to |leaves|
      invariant energy == Energy(exact, leaves[..i])
    {
      assert leaves[..i + 1][..i] == leaves[..i];
      energy := energy + Weight(leaves[i].len, exact(leaves[i].scale));
    }
    assert leaves[..|leaves|] == leaves;
  }

  method TotalGap(exact: F32 -> real, left: seq<Term>, right: seq<Term>, seeds: seq<nat>) returns (gap: real)
    ensures gap == Gaps(exact, left, right, seeds)
  {
    gap := 0.0;
    for i := 0 to |seeds|
      invariant gap == Gaps(exact, left, right, seeds[..i])
    {
      assert seeds[..i + 1][..i] == seeds[..i];
      gap := gap + Gap2(exact, left, right, seeds[i]);
    }
    assert seeds[..|seeds|] == seeds;
  }

  method CollectSeeds(terms: seq<Term>) returns (seeds: seq<nat>)
    ensures seeds == Seeds(terms)
  {
    seeds := [];
    for i := 0 to |terms|
      invariant seeds == Seeds(terms[..i])
    {
      assert terms[..i + 1][..i] == terms[..i];
      if terms[i].seed !in seeds {
        seeds := seeds + [terms[i].seed];
      }
    }
    assert terms[..|terms|] == terms;
  }

  ghost predicate NoRepeats(seeds: seq<nat>) {
    forall i, j | 0 <= i < j < |seeds| :: seeds[i] != seeds[j]
  }

  ghost predicate HasSeed(terms: seq<Term>, seed: nat) {
    exists i :: 0 <= i < |terms| && terms[i].seed == seed
  }

  lemma {:induction false} SeedsAreDistinct(terms: seq<Term>)
    ensures NoRepeats(Seeds(terms)) && forall seed: nat :: seed in Seeds(terms) <==> HasSeed(terms, seed)
  {
    if terms != [] {
      var n := |terms| - 1;
      SeedsAreDistinct(terms[..n]);
      forall seed: nat ensures HasSeed(terms, seed) <==> HasSeed(terms[..n], seed) || terms[n].seed == seed {
        if HasSeed(terms[..n], seed) {
          var i :| 0 <= i < n && terms[..n][i].seed == seed;
          assert terms[i].seed == seed;
        }
        if HasSeed(terms, seed) {
          var i :| 0 <= i < |terms| && terms[i].seed == seed;
          assert i < n ==> terms[..n][i].seed == seed;
        }
      }
    }
  }

  /** The total gap of the seeds in a set does not depend on how they are listed. */
  lemma {:induction false} GapsOfListing(exact: F32 -> real, left: seq<Term>, right: seq<Term>, s: seq<nat>, t: seq<nat>)
    requires NoRepeats(s) && NoRepeats(t)
    requires forall seed | seed in s :: seed in t
    requires forall seed | seed in t && seed !in s :: Gap2(exact, left, right, seed) == 0.0
    ensures Gaps(exact, left, right, s) == Gaps(exact, left, right, t)
  {
    if s == [] {
      NoGaps(exact, left, right, t);
    } else {
      assert s[0] in t;
      var n := |t| - 1;
      var seed := t[n];
      if seed in s {
        var i :| 0 <= i < |s| && s[i] == seed;
        GapsWithout(exact, left, right, s, i);
        WithoutListing(s, i, t);
        GapsOfListing(exact, left, right, s[..i] + s[i + 1..], t[..n]);
      } else {
        forall x | x in s ensures x in t[..n] {
          assert x in t && x != seed;
        }
        GapsOfListing(exact, left, right, s, t[..n]);
      }
    }
  }

  lemma {:induction false} NoGaps(exact: F32 -> real, left: seq<Term>, right: seq<Term>, t: seq<nat>)
    requires forall seed | seed in t :: Gap2(exact, left, right, seed) == 0.0
    ensures Gaps(exact, left, right, t) == 0.0
  {
    if t != [] {
      assert t[|t| - 1] in t;
      NoGaps(exact, left, right, t[..|t| - 1]);
    }
  }

  lemma WithoutListing(s: seq<nat>, i: nat, t: seq<nat>)
    requires i < |s| && t != [] && NoRepeats(s) && NoRepeats(t) && t[|t| - 1] == s[i]
    ensures var s', t' := s[..i] + s[i + 1..], t[..|t| - 1];
      && NoRepeats(s') && NoRepeats(t')
      && ((forall x | x in s :: x in t) ==> forall x | x in s' :: x in t')
      && (forall x | x in t' && x !in s' :: x in t && x !in s)
  {
    var s', t' := s[..i] + s[i + 1..], t[..|t| - 1];
    forall x: nat ensures x in s <==> x in s' || x == s[i] {
      assert s == s[..i] + [s[i]] + s[i + 1..];
    }
    forall x: nat ensures x in t <==> x in t' || x == s[i] {
      assert t == t' + [t[|t| - 1]];
    }
    assert s[i] !in s';
    assert s[i] !in t';
  }

  lemma {:induction false} GapsWithout(exact: F32 -> real, left: seq<Term>, right: seq<Term>, s: seq<nat>, i: nat)
    requires i < |s|
    ensures Gaps(exact, left, right, s) == Gaps(exact, left, right, s[..i] + s[i + 1..]) + Gap2(exact, left, right, s[i])
    decreases |s|
  {
    var n: nat := |s| - 1;
    var before: seq<nat> := s[..n];
    assert s == before + [s[n]];
    GapsNext(exact, left, right, before, s[n]);
    if i == n {
      assert s[..i] + s[i + 1..] == before;
    } else {
      GapsWithout(exact, left, right, before, i);
      GapsNext(exact, left, right, before[..i] + before[i + 1..], s[n]);
      WithoutEarlier(s, i);
    }
  }

  lemma WithoutEarlier(s: seq<nat>, i: nat)
    requires i < |s| - 1
    ensures s[..i] + s[i + 1..] == s[..|s| - 1][..i] + s[..|s| - 1][i + 1..] + [s[|s| - 1]]
    ensures s[..|s| - 1][i] == s[i]
  {
  }

  lemma GapsNext(exact: F32 -> real, left: seq<Term>, right: seq<Term>, seeds: seq<nat>, seed: nat)
    ensures Gaps(exact, left, right, seeds + [seed]) == Gaps(exact, left, right, seeds) + Gap2(exact, left, right, seed)
  {
    assert (seeds + [seed])[..|seeds|] == seeds;
  }

  lemma NoSeedNoGap(exact: F32 -> real, left: seq<Term>, right: seq<Term>, seed: nat)
    requires !HasSeed(left + right, seed)
    ensures Coefficient(exact, left, seed) == 0.0 == Coefficient(exact, right, seed)
  {
    assert forall i | 0 <= i < |left| :: (left + right)[i] == left[i];
    assert forall i | 0 <= i < |right| :: (left + right)[|left| + i] == right[i];
    NoTermNoCoefficient(exact, left, seed);
    NoTermNoCoefficient(exact, right, seed);
  }

  /** Any duplicate-free list with at least the seeds in use gives the same distance. */
  lemma AnyListing(exact: F32 -> real, left: seq<Term>, right: seq<Term>, t: seq<nat>)
    requires NoRepeats(t) && forall seed: nat | HasSeed(left + right, seed) :: seed in t
    ensures Gaps(exact, left, right, Seeds(left + right)) == Gaps(exact, left, right, t)
  {
    var s := Seeds(left + right);
    SeedsAreDistinct(left + right);
    forall seed | seed in t && seed !in s ensures Gap2(exact, left, right, seed) == 0.0 {
      NoSeedNoGap(exact, left, right, seed);
    }
    GapsOfListing(exact, left, right, s, t);
  }

  /** The distance is symmetric. */
  lemma DistanceSymmetric(exact: F32 -> real, leaves: seq<Leaf>, left: seq<Term>, right: seq<Term>)
    ensures Distance(exact, leaves, left, right) == Distance(exact, leaves, right, left)
  {
    var t := Seeds(left + right);
    SeedsAreDistinct(left + right);
    forall seed: nat | HasSeed(right + left, seed) ensures seed in t {
      SwapSides(left, right, seed);
    }
    AnyListing(exact, right, left, t);
    GapsSwapped(exact, left, right, t);
  }

  lemma {:induction false} GapsSwapped(exact: F32 -> real, left: seq<Term>, right: seq<Term>, t: seq<nat>)
    ensures Gaps(exact, left, right, t) == Gaps(exact, right, left, t)
  {
    if t != [] {
      GapsSwapped(exact, left, right, t[..|t| - 1]);
    }
  }

  lemma SwapSides(left: seq<Term>, right: seq<Term>, seed: nat)
    requires HasSeed(right + left, seed)
    ensures HasSeed(left + right, seed)
  {
    var i :| 0 <= i < |right + left| && (right + left)[i].seed == seed;
    var j := if i < |right| then |left| + i else i - |right|;
    assert (left + right)[j] == (right + left)[i];
  }

  lemma {:induction false} SameGaps(exact: F32 -> real, l1: seq<Term>, r1: seq<Term>, l2: seq<Term>, r2: seq<Term>, t: seq<nat>)
    requires forall seed | seed in t :: Gap2(exact, l1, r1, seed) == Gap2(exact, l2, r2, seed)
    ensures Gaps(exact, l1, r1, t) == Gaps(exact, l2, r2, t)
  {
    if t != [] {
      assert t[|t| - 1] in t;
      SameGaps(exact, l1, r1, l2, r2, t[..|t| - 1]);
    }
  }

  /** With any energy at all, the distance is zero exactly when the two directions are the same. */
  lemma DistanceZeroExactly(exact: F32 -> real, leaves: seq<Leaf>, left: seq<Term>, right: seq<Term>)
    requires Energy(exact, leaves) > 0.0
    ensures Distance(exact, leaves, left, right) == 0.0 <==> SameDirection(exact, left, right)
  {
    var t, e := Seeds(left + right), Energy(exact, leaves);
    SeedsAreDistinct(left + right);
    GapsZero(exact, left, right, t);
    TimesZero(e);
    if !SameOn(exact, left, right, t) {
      PositiveTimes(e, Gaps(exact, left, right, t));
    } else {
      forall seed: nat ensures Coefficient(exact, left, seed) == Coefficient(exact, right, seed) {
        if seed !in t {
          NoSeedNoGap(exact, left, right, seed);
        }
      }
    }
  }

  ghost predicate SameDirection(exact: F32 -> real, left: seq<Term>, right: seq<Term>) {
    forall seed: nat :: Coefficient(exact, left, seed) == Coefficient(exact, right, seed)
  }

  ghost predicate SameOn(exact: F32 -> real, left: seq<Term>, right: seq<Term>, t: seq<nat>) {
    forall seed | seed in t :: Coefficient(exact, left, seed) == Coefficient(exact, right, seed)
  }

  lemma {:induction false} GapsZero(exact: F32 -> real, left: seq<Term>, right: seq<Term>, t: seq<nat>)
    ensures if SameOn(exact, left, right, t) then Gaps(exact, left, right, t) == 0.0 else Gaps(exact, left, right, t) > 0.0
  {
    if t != [] {
      var n := |t| - 1;
      GapsZero(exact, left, right, t[..n]);
      assert t == t[..n] + [t[n]];
      assert SameOn(exact, left, right, t) <==>
        SameOn(exact, left, right, t[..n]) && Coefficient(exact, left, t[n]) == Coefficient(exact, right, t[n]);
    }
  }

  /** Adding the same terms to both sides changes nothing. */
  lemma DistanceInvariant(exact: F32 -> real, leaves: seq<Leaf>, left: seq<Term>, right: seq<Term>, more: seq<Term>)
    ensures Distance(exact, leaves, left + more, right + more) == Distance(exact, leaves, left, right)
  {
    GapsInvariant(exact, left, right, more);
  }

  lemma GapsInvariant(exact: F32 -> real, left: seq<Term>, right: seq<Term>, more: seq<Term>)
    ensures Gaps(exact, left + more, right + more, Seeds((left + more) + (right + more)))
         == Gaps(exact, left, right, Seeds(left + right))
  {
    var t := Seeds((left + more) + (right + more));
    SeedsAreDistinct((left + more) + (right + more));
    forall seed: nat | HasSeed(left + right, seed) ensures seed in t {
      StillHasSeed(left, right, more, seed);
    }
    AnyListing(exact, left, right, t);
    SameGapsWithMore(exact, left, right, more, t);
  }

  lemma StillHasSeed(left: seq<Term>, right: seq<Term>, more: seq<Term>, seed: nat)
    requires HasSeed(left + right, seed)
    ensures HasSeed((left + more) + (right + more), seed)
  {
    var i :| 0 <= i < |left + right| && (left + right)[i].seed == seed;
    var j := if i < |left| then i else i + |more|;
    assert ((left + more) + (right + more))[j] == (left + right)[i];
  }

  lemma SameGapsWithMore(exact: F32 -> real, left: seq<Term>, right: seq<Term>, more: seq<Term>, t: seq<nat>)
    ensures Gaps(exact, left + more, right + more, t) == Gaps(exact, left, right, t)
  {
    forall seed | seed in t ensures Gap2(exact, left + more, right + more, seed) == Gap2(exact, left, right, seed) {
      CoefficientAdds(exact, left, more, seed);
      CoefficientAdds(exact, right, more, seed);
    }
    SameGaps(exact, left + more, right + more, left, right, t);
  }

  lemma {:induction false} CoefficientAdds(exact: F32 -> real, a: seq<Term>, b: seq<Term>, seed: nat)
    ensures Coefficient(exact, a + b, seed) == Coefficient(exact, a, seed) + Coefficient(exact, b, seed)
  {
    if b == [] {
      assert a + b == a;
    } else {
      var n := |b| - 1;
      CoefficientAdds(exact, a, b[..n], seed);
      assert (a + b)[..|a + b| - 1] == a + b[..n];
    }
  }

  // ---- Tiles for the devices -----------------------------------------------

  const TILE_ELEMENTS := 65536

  datatype Tile = Tile(leaf: nat, start: nat, len: nat)

  /** `len` elements of a leaf from `start` on. */
  function Run(leaf: nat, start: nat, len: nat): (cells: seq<(nat, nat)>)
    ensures |cells| == len
  {
    seq(len, (i: nat) => (leaf, start + i))
  }

  function LeafCells(leaves: seq<Leaf>): seq<(nat, nat)> {
    if leaves == [] then [] else LeafCells(leaves[..|leaves| - 1]) + Run(|leaves| - 1, 0, leaves[|leaves| - 1].len)
  }

  /** Element `j` of leaf `i` stands behind all the elements of the leaves before. */
  lemma {:induction false} LeafCellAt(leaves: seq<Leaf>, i: nat, j: nat)
    requires i < |leaves| && j < leaves[i].len
    ensures |LeafCells(leaves)| == Covered(leaves) && Covered(leaves[..i]) + j < Covered(leaves)
    ensures LeafCells(leaves)[Covered(leaves[..i]) + j] == (i, j)
    decreases |leaves|
  {
    var n := |leaves| - 1;
    LeafCellCount(leaves);
    LeafCellCount(leaves[..n]);
    if i < n {
      LeafCellAt(leaves[..n], i, j);
      assert leaves[..n][..i] == leaves[..i];
    }
  }

  lemma {:induction false} LeafCellCount(leaves: seq<Leaf>)
    ensures |LeafCells(leaves)| == Covered(leaves)
  {
    if leaves != [] {
      LeafCellCount(leaves[..|leaves| - 1]);
    }
  }

  function TileCells(tiles: seq<Tile>): seq<(nat, nat)> {
    if tiles == [] then []
    else
      var t := tiles[|tiles| - 1];
      TileCells(tiles[..|tiles| - 1]) + Run(t.leaf, t.start, t.len)
  }

  ghost predicate TileSized(tiles: seq<Tile>) {
    forall i | 0 <= i < |tiles| :: 0 < tiles[i].len <= TILE_ELEMENTS && tiles[i].start < 0x1_0000_0000 && tiles[i].leaf < 0x1_0000_0000
  }

  /** Walking the tiles visits every element of every leaf once, in order; it fails exactly when
      a leaf index or the start of a tile does not fit in 32 bits. */
  method Tiles(leaves: seq<Leaf>) returns (r: Result<seq<Tile>, DenseError>)
    ensures r.Ok? <==> |leaves| <= 0x1_0000_0000 && forall i | 0 <= i < |leaves| :: leaves[i].len <= 0x1_0000_0000
    ensures r.Ok? ==> TileCells(r.value) == LeafCells(leaves) && TileSized(r.value)
  {
    var tiles: seq<Tile> := [];
    for i := 0 to |leaves|
      invariant TileCells(tiles) == LeafCells(leaves[..i]) && TileSized(tiles)
      invariant i <= 0x1_0000_0000 && forall j | 0 <= j < i :: leaves[j].len <= 0x1_0000_0000
    {
      assert leaves[..i + 1][..i] == leaves[..i];
      if i >= 0x1_0000_0000 {
        return Err(TooManyLeaves);
      }
      var ok;
      ok, tiles := TileLeaf(tiles, i, leaves[i].len);
      if !ok {
        return Err(LeafTooLong);
      }
    }
    assert leaves[..|leaves|] == leaves;
    r := Ok(tiles);
  }

  method TileLeaf(tiles: seq<Tile>, leaf: nat, len: nat) returns (ok: bool, tiles': seq<Tile>)
    requires TileSized(tiles) && leaf < 0x1_0000_0000
    ensures ok <==> len <= 0x1_0000_0000
    ensures ok ==> TileSized(tiles') && TileCells(tiles') == TileCells(tiles) + Run(leaf, 0, len)
  {
    tiles' := tiles;
    var start := 0;
    while start < len
      invariant 0 <= start <= len && (start == len || start % TILE_ELEMENTS == 0)
      invariant start > 0 ==> (start - 1) / TILE_ELEMENTS * TILE_ELEMENTS < 0x1_0000_0000
      invariant TileSized(tiles') && TileCells(tiles') == TileCells(tiles) + Run(leaf, 0, start)
    {
      var size := if len - start <= TILE_ELEMENTS then len - start else TILE_ELEMENTS;
      if start >= 0x1_0000_0000 {
        return false, tiles';
      }
      var tile := Tile(leaf, start, size);
      assert (tiles' + [tile])[..|tiles'|] == tiles';
      assert Run(leaf, 0, start) + Run(leaf, start, size) == Run(leaf, 0, start + size);
      tiles' := tiles' + [tile];
      start := start + size;
    }
    ok := true;
  }
}
