/**
 The bookkeeping of the backend's index as a state machine: how many rows there are, how many
 the index covers, how many are pending, and the two flush thresholds.

 Building a new index and publishing it are two steps with any other step in between, the way
 the source lets readers search the live index while the new one is built.
 */
module IndexState {
  import opened Wrappers

  const DEFAULT_PENDING_FLUSH_THRESHOLD := 250
  const DEFAULT_PENDING_HARD_FLUSH_THRESHOLD := 3000

  /** `built` is the row count covered by a detached build that has not been published yet. */
  datatype State = State(len: nat, indexed: nat, pending: nat, dirty: bool,
                         soft: nat, hard: nat, deferred: bool, built: Option<nat>)

  datatype Op =
    | Append(rows: nat)
    | EnsureSync
    | ResetIndex
    | Persist(diskDiffers: bool)
    | Build
    | Publish
    | SetSoft(threshold: nat)
    | SetHard(threshold: nat)
    | Reconfigure(soft: nat, hard: nat)
    | SetDeferred(deferred: bool)

  function Max(a: nat, b: nat): nat {
    if a >= b then a else b
  }

  function Opened(len: nat, indexed: nat): State {
    State(len, indexed, if len >= indexed then len - indexed else 0, indexed < len,
          DEFAULT_PENDING_FLUSH_THRESHOLD, DEFAULT_PENDING_HARD_FLUSH_THRESHOLD, true, None)
  }

  function EnsureSynced(s: State): State {
    if s.indexed >= s.len then s.(pending := 0) else s.(indexed := s.len, pending := 0)
  }

  predicate FlushDue(s: State) {
    s.pending >= s.hard || (!s.deferred && s.pending >= s.soft)
  }

  function Appended(s: State, rows: nat): State {
    if rows == 0 then s
    else
      var t := s.(len := s.len + rows, pending := s.pending + rows, dirty := true);
      if FlushDue(t) then EnsureSynced(t) else t
  }

  /** A rewrite is needed whenever the index is dirty or behind, or the files on disk differ. */
  function Persisted(s: State, diskDiffers: bool): State {
    if !(s.dirty || s.indexed < s.len || diskDiffers) then s.(pending := 0, dirty := false)
    else EnsureSynced(s).(pending := 0, dirty := false)
  }

  function Step(s: State, op: Op): State {
    match op
    case Append(rows) => Appended(s, rows)
    case EnsureSync => EnsureSynced(s)
    case ResetIndex => s.(indexed := 0, pending := s.len, dirty := true)
    case Persist(diskDiffers) => Persisted(s, diskDiffers)
    case Build => if s.indexed >= s.len then s.(built := None) else s.(built := Some(s.len))
    case Publish => (match s.built
                     case None => s
                     case Some(n) => s.(indexed := n, pending := 0, built := None))
    case SetSoft(t) => s.(soft := t, hard := Max(s.hard, t))
    case SetHard(t) => s.(hard := Max(t, s.soft))
    case Reconfigure(soft, hard) => s.(soft := Max(soft, 1), hard := Max(hard, Max(soft, 1)))
    case SetDeferred(d) => s.(deferred := d)
  }

  function Run(s: State, ops: seq<Op>): State {
    if ops == [] then s else Step(Run(s, ops[..|ops| - 1]), ops[|ops| - 1])
  }

  /** Every row is either indexed or pending, and only a dirty index may lag behind. */
  ghost predicate Accounted(s: State) {
    && s.pending + s.indexed == s.len
    && (!s.dirty ==> s.indexed == s.len)
    && s.hard >= s.soft
  }

  /** No rows are appended while a detached build waits to be published. */
  ghost predicate WaitsForFlush(s: State, ops: seq<Op>) {
    forall i | 0 <= i < |ops| && ops[i].Append? && ops[i].rows > 0 :: Run(s, ops[..i]).built.None?
  }

  ghost predicate BuiltIsCurrent(s: State) {
    s.built.Some? ==> s.built.value == s.len
  }

  lemma StepKeepsAccounts(s: State, op: Op)
    requires Accounted(s) && BuiltIsCurrent(s)
    requires op.Append? && op.rows > 0 ==> s.built.None?
    ensures Accounted(Step(s, op)) && BuiltIsCurrent(Step(s, op))
  {
  }

  /** Any run from opening on keeps every row accounted for, as long as appends wait for the flush. */
  lemma {:induction false} RunsStayAccounted(s: State, ops: seq<Op>)
    requires Accounted(s) && BuiltIsCurrent(s) && WaitsForFlush(s, ops)
    ensures Accounted(Run(s, ops)) && BuiltIsCurrent(Run(s, ops))
  {
    if ops != [] {
      var init := ops[..|ops| - 1];
      forall i | 0 <= i < |init| && init[i].Append? && init[i].rows > 0 ensures Run(s, init[..i]).built.None? {
        assert ops[i] == init[i] && ops[..i] == init[..i];
      }
      RunsStayAccounted(s, init);
      StepKeepsAccounts(Run(s, init), ops[|init|]);
    }
  }

  /** A batch that is recorded keeps the accounts; one that is only stored, because its variance rows
      were refused, breaks them, and the next sync repairs them. */
  lemma AppendKeepsAccounts(s: State, rows: nat)
    requires rows > 0
    ensures Accounted(s) ==> Accounted(Appended(s, rows)) && !Accounted(s.(len := s.len + rows))
    ensures Accounted(s) && s.dirty ==> Accounted(EnsureSynced(s.(len := s.len + rows)))
  {
  }

  /** Publishing is harmless exactly when no row has arrived since the build. */
  lemma PublishNeedsNoNewRows(s: State)
    requires Accounted(s) && s.built.Some? && s.built.value <= s.len && (s.built.value == s.len || s.dirty)
    ensures Accounted(Step(s, Publish)) <==> s.built.value == s.len
  {
  }

  /** Right after rows are appended, fewer than the hard threshold are pending exactly when that
      threshold is not zero; without deferral the same holds of the soft one. */
  lemma AppendLeavesFewPending(s: State, rows: nat)
    requires rows > 0 && s.hard >= s.soft
    ensures Step(s, Append(rows)).pending < s.hard <==> s.hard > 0
    ensures !s.deferred ==> (Step(s, Append(rows)).pending < s.soft <==> s.soft > 0)
  {
  }

  /** Rows wait to be indexed until the pending ones reach the hard threshold, or the soft one where nothing
      is deferred; then all of them are indexed at once. */
  lemma AppendFlushesExactly(s: State, rows: nat)
    requires rows > 0 && s.indexed <= s.len
    ensures var t, pending := Step(s, Append(rows)), s.pending + rows;
      && t.len == s.len + rows && t.dirty && t.soft == s.soft && t.hard == s.hard && t.deferred == s.deferred
      && if pending >= s.hard || (!s.deferred && pending >= s.soft)
         then t.pending == 0 && t.indexed == t.len
         else t.pending == pending && t.indexed == s.indexed
  {
  }

  /** After a persist everything is indexed and nothing is left to do; only then does a clean index stay as it is. */
  lemma PersistSettles(s: State, diskDiffers: bool)
    requires Accounted(s)
    ensures var t := Step(s, Persist(diskDiffers));
      t.indexed == t.len == s.len && t.pending == 0 && !t.dirty && Step(t, Persist(false)) == t
  {
  }

  /** The thresholds are what was last asked for, raised where the hard one would fall below the soft one;
      a reconfiguration admits no zero. */
  lemma ThresholdsAsAsked(s: State, soft: nat, hard: nat)
    requires s.hard >= s.soft
    ensures var t := Step(s, SetSoft(soft)); t.soft == soft && (t.hard == s.hard >= soft || (t.hard == soft && s.hard < soft))
    ensures var t := Step(s, SetHard(hard)); t.soft == s.soft && (t.hard == hard >= s.soft || (t.hard == s.soft && hard < s.soft))
    ensures var t := Step(s, Reconfigure(soft, hard));
      && t.soft >= 1 && (soft >= 1 ==> t.soft == soft) && (soft == 0 ==> t.soft == 1)
      && t.hard >= t.soft && (hard >= t.soft ==> t.hard == hard) && (hard < t.soft ==> t.hard == t.soft)
  {
  }

  /** The hard threshold stays positive as long as no caller sets the soft threshold to zero. */
  lemma {:induction false} HardStaysPositive(s: State, ops: seq<Op>)
    requires s.soft > 0 && s.hard >= s.soft
    requires forall i | 0 <= i < |ops| && ops[i].SetSoft? :: ops[i].threshold > 0
    ensures Run(s, ops).soft > 0 && Run(s, ops).hard >= Run(s, ops).soft
  {
    if ops != [] {
      var init := ops[..|ops| - 1];
      assert forall i | 0 <= i < |init| :: init[i] == ops[i];
      HardStaysPositive(s, init);
      ThresholdsStay(Run(s, init), ops[|init|]);
    }
  }

  lemma ThresholdsStay(s: State, op: Op)
    requires s.soft > 0 && s.hard >= s.soft && (op.SetSoft? ==> op.threshold > 0)
    ensures Step(s, op).soft > 0 && Step(s, op).hard >= Step(s, op).soft
  {
  }

  /** One row too many: built after the first append, published after the second. */
  lemma PublishLosesRow()
    ensures var s := Run(Opened(0, 0), [Append(1), Build, Append(1), Publish]);
      s.len == 2 && s.indexed == 1 && s.pending == 0 && !Accounted(s)
  {
    var ops := [Append(1), Build, Append(1), Publish];
    assert ops[..3] == [Append(1), Build, Append(1)] && ops[..2] == [Append(1), Build] && ops[..1] == [Append(1)];
    assert ops[..3][..2] == ops[..2] && ops[..2][..1] == ops[..1] && ops[..1][..0] == [];
    assert Run(Opened(0, 0), ops[..1]) == Step(Opened(0, 0), Append(1));
    assert Run(Opened(0, 0), ops[..2]) == Step(Run(Opened(0, 0), ops[..1]), Build);
    assert Run(Opened(0, 0), ops[..3]) == Step(Run(Opened(0, 0), ops[..2]), Append(1));
  }

  /** With both thresholds set to zero nothing is pending after an append, and that is not fewer than zero. */
  lemma ZeroThreshold()
    ensures var s := Step(Step(Step(Opened(0, 0), SetSoft(0)), SetHard(0)), Append(1));
      s.hard == 0 && s.pending == 0
  {
  }
}
