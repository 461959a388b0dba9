/** The metrics accumulator of a run: counters and per-operation summaries updated in place, and a
    snapshot that sums the summaries up again. */
module Metrics {
  import opened Prelude

  /** Action strings; an operation that failed before deciding carries none of the known ones. */
  datatype Action = Create | Update | Delete | Noop | Audit | Skipped | Unknown

  datatype Status = Success | Failed | SkippedStatus | NoopStatus | NoStatus

  /** One entry of a plan or apply result: how many fields differ, and whether it has details. */
  datatype Diff = Diff(action: Action, fields: nat, hasDetails: bool) {
    predicate HasChanges() {
      action != Noop && action != Skipped && (fields > 0 || hasDetails)
    }
  }

  datatype OperationResult = OperationResult(name: string, path: string, action: Action, status: Status,
                                             hasChanges: bool, success: bool, failed: bool, diffs: seq<Diff>) {
    /** What the failed counter of an operation counts; `failed` says the result carries an error. */
    predicate CountsAsFailed() {
      !success || failed || status == Status.Failed
    }

    predicate Applied() {
      action == Create || action == Update || action == Delete
    }
  }

  datatype TargetResult = TargetResult(path: string, success: bool, hasChanges: bool, failed: bool,
                                       operations: seq<OperationResult>) {
    predicate Clean() {
      success && !failed
    }
  }

  datatype OperationSummary = OperationSummary(total: nat, created: nat, updated: nat, deleted: nat,
                                               noop: nat, audit: nat, skipped: nat, failures: nat) {
    function Applied(): nat {
      created + updated + deleted
    }
  }

  const NO_SUMMARY := OperationSummary(0, 0, 0, 0, 0, 0, 0, 0)

  /** The summary of an operation after one more of its results. */
  function Bumped(s: OperationSummary, op: OperationResult): OperationSummary {
    var t := s.(total := s.total + 1, failures := s.failures + if op.CountsAsFailed() then 1 else 0);
    match op.action
    case Create => t.(created := t.created + 1)
    case Update => t.(updated := t.updated + 1)
    case Delete => t.(deleted := t.deleted + 1)
    case Audit => t.(audit := t.audit + 1)
    case Skipped => t.(skipped := t.skipped + 1)
    case Noop => t.(noop := t.noop + 1)
    case Unknown => t
  }

  type Summaries = map<string, OperationSummary>

  // ---------------------------------------------------------------------------
  // Sums over a map, in whatever order its entries are visited
  // ---------------------------------------------------------------------------

  ghost function SumOf(m: Summaries, f: OperationSummary -> nat): nat
    decreases |m|
  {
    if m == map[] then 0
    else
      var k :| k in m;
      f(m[k]) + SumOf(m - {k}, f)
  }

  /** Any entry can be taken first. */
  lemma {:induction false} SumTakesAny(m: Summaries, k: string, f: OperationSummary -> nat)
    requires k in m
    ensures SumOf(m, f) == f(m[k]) + SumOf(m - {k}, f)
    decreases |m|
  {
    var j :| j in m && SumOf(m, f) == f(m[j]) + SumOf(m - {j}, f);
    if j != k {
      SumTakesAny(m - {j}, k, f);
      SumTakesAny(m - {k}, j, f);
      assert m - {j} - {k} == m - {k} - {j};
    }
  }

  lemma SumAfterUpdate(m: Summaries, k: string, v: OperationSummary, f: OperationSummary -> nat)
    ensures SumOf(m[k := v], f) == SumOf(m, f) - (if k in m then f(m[k]) else 0) + f(v)
  {
    SumTakesAny(m[k := v], k, f);
    assert m[k := v] - {k} == m - {k};
    if k in m {
      SumTakesAny(m, k, f);
    } else {
      assert m - {k} == m;
    }
  }

  // ---------------------------------------------------------------------------
  // What the counters ought to be, from the history of recordings
  // ---------------------------------------------------------------------------

  function CountIf<T>(s: seq<T>, p: T -> bool): nat {
    if s == [] then 0 else CountIf(s[..|s| - 1], p) + if p(s[|s| - 1]) then 1 else 0
  }

  lemma {:induction false} CountSplits<T>(s: seq<T>, t: seq<T>, p: T -> bool)
    ensures CountIf(s + t, p) == CountIf(s, p) + CountIf(t, p)
  {
    if t == [] {
      assert s + t == s;
    } else {
      assert (s + t)[..|s + t| - 1] == s + t[..|t| - 1];
      CountSplits(s, t[..|t| - 1], p);
    }
  }

  function Appended<T>(s: seq<T>, x: T): seq<T> {
    s + [x]
  }

  lemma CountAppended<T>(s: seq<T>, x: T, p: T -> bool)
    ensures CountIf(Appended(s, x), p) == CountIf(s, p) + if p(x) then 1 else 0
  {
    assert Appended(s, x)[..|s|] == s;
  }

  /** The fields that drifted, as the drift summary counts them. */
  function DriftFields(diffs: seq<Diff>): nat {
    if diffs == [] then 0
    else
      var d := diffs[|diffs| - 1];
      DriftFields(diffs[..|diffs| - 1]) + if d.fields == 0 && d.HasChanges() then 1 else d.fields
  }

  function TotalDrift(ops: seq<OperationResult>): nat {
    if ops == [] then 0
    else
      var op := ops[|ops| - 1];
      TotalDrift(ops[..|ops| - 1]) + if op.hasChanges then DriftFields(op.diffs) else 0
  }

  function Named(name: string): OperationResult -> bool {
    (op: OperationResult) => op.name == name
  }

  function WithAction(name: string, a: Action): OperationResult -> bool {
    (op: OperationResult) => op.name == name && op.action == a
  }

  function FailedIn(name: string): OperationResult -> bool {
    (op: OperationResult) => op.name == name && op.CountsAsFailed()
  }

  /** The summary the history of operations calls for. */
  function SummaryOf(ops: seq<OperationResult>, name: string): OperationSummary {
    OperationSummary(CountIf(ops, Named(name)),
                     CountIf(ops, WithAction(name, Create)), CountIf(ops, WithAction(name, Update)),
                     CountIf(ops, WithAction(name, Delete)), CountIf(ops, WithAction(name, Noop)),
                     CountIf(ops, WithAction(name, Audit)), CountIf(ops, WithAction(name, Skipped)),
                     CountIf(ops, FailedIn(name)))
  }

  lemma SummaryOfAppended(ops: seq<OperationResult>, op: OperationResult, name: string)
    ensures SummaryOf(Appended(ops, op), name) ==
            if name == op.name then Bumped(SummaryOf(ops, name), op) else SummaryOf(ops, name)
  {
    hide CountIf, Appended;
    CountAppended(ops, op, Named(name));
    CountAppended(ops, op, WithAction(name, Create));
    CountAppended(ops, op, WithAction(name, Update));
    CountAppended(ops, op, WithAction(name, Delete));
    CountAppended(ops, op, WithAction(name, Noop));
    CountAppended(ops, op, WithAction(name, Audit));
    CountAppended(ops, op, WithAction(name, Skipped));
    CountAppended(ops, op, FailedIn(name));
  }

  /** The per-operation map is what the history calls for: one summary for each name that occurs. */
  ghost predicate Summarizes(m: Summaries, ops: seq<OperationResult>) {
    && (forall name :: name in m <==> SummaryOf(ops, name).total > 0)
    && (forall name :: name in m ==> m[name] == SummaryOf(ops, name))
  }

  lemma {:induction false} NeverNamed(ops: seq<OperationResult>, name: string)
    requires CountIf(ops, Named(name)) == 0
    ensures SummaryOf(ops, name) == NO_SUMMARY
  {
    if ops != [] {
      NeverNamed(ops[..|ops| - 1], name);
    }
  }

  lemma SummarizesOneMore(m: Summaries, ops: seq<OperationResult>, op: OperationResult)
    requires Summarizes(m, ops)
    ensures Summarizes(m[op.name := Bumped(if op.name in m then m[op.name] else NO_SUMMARY, op)], Appended(ops, op))
  {
    hide SummaryOf, Appended;
    if op.name !in m {
      TotalIsCount(ops, op.name);
      NeverNamed(ops, op.name);
    }
    forall name
      ensures SummaryOf(Appended(ops, op), name) ==
              if name == op.name then Bumped(SummaryOf(ops, name), op) else SummaryOf(ops, name)
    {
      SummaryOfAppended(ops, op, name);
    }
  }

  lemma TotalIsCount(ops: seq<OperationResult>, name: string)
    ensures SummaryOf(ops, name).total == CountIf(ops, Named(name))
  {
  }

  const APPLIED: OperationResult -> bool := (op: OperationResult) => op.Applied()
  const SKIPPED: OperationResult -> bool := (op: OperationResult) => op.action == Skipped
  const NOOP: OperationResult -> bool := (op: OperationResult) => op.action == Noop
  const FAILED: OperationResult -> bool := (op: OperationResult) => op.CountsAsFailed()

  const APPLIED_IN: OperationSummary -> nat := (s: OperationSummary) => s.Applied()
  const SKIPPED_IN: OperationSummary -> nat := (s: OperationSummary) => s.skipped
  const FAILED_IN: OperationSummary -> nat := (s: OperationSummary) => s.failures

  /** Summing the summaries counts the operations of the history, whatever their names. */
  ghost predicate SumsAgree(m: Summaries, ops: seq<OperationResult>) {
    && SumOf(m, APPLIED_IN) == CountIf(ops, APPLIED)
    && SumOf(m, SKIPPED_IN) == CountIf(ops, SKIPPED)
    && SumOf(m, FAILED_IN) == CountIf(ops, FAILED)
  }

  lemma SumsAgreeOneMore(m: Summaries, ops: seq<OperationResult>, op: OperationResult)
    requires SumsAgree(m, ops)
    ensures SumsAgree(m[op.name := Bumped(if op.name in m then m[op.name] else NO_SUMMARY, op)], Appended(ops, op))
  {
    hide SumOf, CountIf, Appended;
    var v := Bumped(if op.name in m then m[op.name] else NO_SUMMARY, op);
    SumAfterUpdate(m, op.name, v, APPLIED_IN);
    SumAfterUpdate(m, op.name, v, SKIPPED_IN);
    SumAfterUpdate(m, op.name, v, FAILED_IN);
    CountAppended(ops, op, APPLIED);
    CountAppended(ops, op, SKIPPED);
    CountAppended(ops, op, FAILED);
  }

  lemma TotalsOneMore(ops: seq<OperationResult>, op: OperationResult)
    ensures Appended(ops, op) == ops + [op]
    ensures CountIf(ops + [op], APPLIED) == CountIf(ops, APPLIED) + if op.Applied() then 1 else 0
    ensures CountIf(ops + [op], SKIPPED) == CountIf(ops, SKIPPED) + if op.action == Skipped then 1 else 0
    ensures CountIf(ops + [op], NOOP) == CountIf(ops, NOOP) + if op.action == Noop then 1 else 0
    ensures TotalDrift(ops + [op]) == TotalDrift(ops) + if op.hasChanges then DriftFields(op.diffs) else 0
  {
    hide CountIf, DriftFields;
    CountAppended(ops, op, APPLIED);
    CountAppended(ops, op, SKIPPED);
    CountAppended(ops, op, NOOP);
    assert (ops + [op])[..|ops|] == ops;
  }

  // ---------------------------------------------------------------------------
  // The accumulator
  // ---------------------------------------------------------------------------

  datatype Snapshot = Snapshot(changedTargets: nat, unchangedTargets: nat, failedTargets: nat, skipped: nat,
                               appliedOperations: nat, skippedOperations: nat, failedOperations: nat,
                               driftFields: nat, operationCounts: Summaries)

  const FAILED_TARGET: TargetResult -> bool := (r: TargetResult) => !r.Clean()
  const CHANGED_TARGET: TargetResult -> bool := (r: TargetResult) => r.Clean() && r.hasChanges
  const UNCHANGED_TARGET: TargetResult -> bool := (r: TargetResult) => r.Clean() && !r.hasChanges

  class SummaryMetrics {
    var totalChanged: nat
    var totalUnchanged: nat
    var totalFailed: nat
    var totalSkipped: nat
    var totalApplied: nat
    var totalNoop: nat
    var totalDriftFields: nat
    var operationCounts: Summaries
    var changedResources: seq<string>
    var failedResources: seq<string>

    /** What was recorded so far. */
    ghost var targets: seq<TargetResult>
    ghost var operations: seq<OperationResult>

    /** The counters of operations agree with the recorded operations. */
    ghost predicate OperationsCounted()
      reads this
    {
      && totalApplied == CountIf(operations, APPLIED)
      && totalSkipped == CountIf(operations, SKIPPED)
      && totalNoop == CountIf(operations, NOOP)
      && totalDriftFields == TotalDrift(operations)
      && Summarizes(operationCounts, operations)
      && SumsAgree(operationCounts, operations)
    }

    /** The counters of targets agree with the recorded targets. */
    ghost predicate TargetsCounted()
      reads this
    {
      && totalChanged == CountIf(targets, CHANGED_TARGET) == |changedResources|
      && totalUnchanged == CountIf(targets, UNCHANGED_TARGET)
      && totalFailed == CountIf(targets, FAILED_TARGET) == |failedResources|
    }

    ghost predicate Valid()
      reads this
    {
      OperationsCounted() && TargetsCounted()
    }

    constructor ()
      ensures Valid() && targets == [] && operations == []
    {
      totalChanged, totalUnchanged, totalFailed := 0, 0, 0;
      totalSkipped, totalApplied, totalNoop, totalDriftFields := 0, 0, 0, 0;
      operationCounts, changedResources, failedResources := map[], [], [];
      targets, operations := [], [];
    }

    /** recordOperationLocked. */
    method RecordOperation(op: OperationResult)
      requires OperationsCounted()
      modifies `totalApplied, `totalSkipped, `totalNoop, `totalDriftFields, `operationCounts, `operations
      ensures operations == old(operations) + [op] && OperationsCounted()
    {
      hide CountIf, Summarizes, SumsAgree, DriftFields, TotalDrift, Bumped, Appended;
      var summary := if op.name in operationCounts then operationCounts[op.name] else NO_SUMMARY;
      SummarizesOneMore(operationCounts, operations, op);
      SumsAgreeOneMore(operationCounts, operations, op);
      TotalsOneMore(operations, op);
      operationCounts := operationCounts[op.name := Bumped(summary, op)];
      match op.action {
        case Create => totalApplied := totalApplied + 1;
        case Update => totalApplied := totalApplied + 1;
        case Delete => totalApplied := totalApplied + 1;
        case Audit =>
        case Skipped => totalSkipped := totalSkipped + 1;
        case Noop => totalNoop := totalNoop + 1;
        case Unknown =>
      }
      if op.hasChanges {
        var drift := CountDrift(op.diffs);
        totalDriftFields := totalDriftFields + drift;
      }
      operations := operations + [op];
    }

    /** RecordTargetResult. */
    method RecordTargetResult(tr: TargetResult)
      requires Valid()
      modifies this
      ensures Valid()
      ensures targets == old(targets) + [tr] && operations == old(operations) + tr.operations
    {
      CountAppended(targets, tr, FAILED_TARGET);
      CountAppended(targets, tr, CHANGED_TARGET);
      CountAppended(targets, tr, UNCHANGED_TARGET);
      hide CountIf, Summarizes, SumsAgree, TotalDrift;
      if !tr.success || tr.failed {
        totalFailed := totalFailed + 1;
        failedResources := failedResources + [tr.path];
      } else if tr.hasChanges {
        totalChanged := totalChanged + 1;
        changedResources := changedResources + [tr.path];
      } else {
        totalUnchanged := totalUnchanged + 1;
      }
      targets := Appended(targets, tr);
      for i := 0 to |tr.operations|
        invariant Valid()
        invariant targets == old(targets) + [tr] && operations == old(operations) + tr.operations[..i]
      {
        RecordOperation(tr.operations[i]);
        assert tr.operations[..i + 1] == tr.operations[..i] + [tr.operations[i]];
      }
      assert tr.operations[..|tr.operations|] == tr.operations;
    }

    /** Snapshot visits the summaries in arbitrary map order. The sums it takes over them are the
        running totals, and the numbers of applied, skipped and failed operations recorded. */
    method TakeSnapshot() returns (s: Snapshot)
      requires Valid()
      ensures s.changedTargets == totalChanged && s.unchangedTargets == totalUnchanged && s.failedTargets == totalFailed
      ensures s.changedTargets == CountIf(targets, CHANGED_TARGET)
      ensures s.unchangedTargets == CountIf(targets, UNCHANGED_TARGET)
      ensures s.failedTargets == CountIf(targets, FAILED_TARGET)
      ensures s.skipped == totalSkipped
      ensures s.appliedOperations == totalApplied == CountIf(operations, APPLIED)
      ensures s.skippedOperations == totalSkipped == CountIf(operations, SKIPPED)
      ensures s.failedOperations == CountIf(operations, FAILED)
      ensures s.driftFields == totalDriftFields && s.operationCounts == operationCounts
    {
      hide CountIf, Summarizes, SumOf;
      var applied, skipped, failed, copy := SumSummaries(operationCounts);
      return Snapshot(totalChanged, totalUnchanged, totalFailed, totalSkipped, applied, skipped, failed, totalDriftFields, copy);
    }
  }

  /** The loop of Snapshot over the per-operation map. */
  method SumSummaries(m: Summaries) returns (applied: nat, skipped: nat, failed: nat, copy: Summaries)
    ensures applied == SumOf(m, APPLIED_IN) && skipped == SumOf(m, SKIPPED_IN) && failed == SumOf(m, FAILED_IN)
    ensures copy == m
  {
    hide SumOf;
    var rest := m;
    applied, skipped, failed, copy := 0, 0, 0, map[];
    while rest.Keys != {}
      invariant rest.Keys <= m.Keys && copy == m - rest.Keys
      invariant forall k :: k in rest ==> rest[k] == m[k]
      invariant applied + SumOf(rest, APPLIED_IN) == SumOf(m, APPLIED_IN)
      invariant skipped + SumOf(rest, SKIPPED_IN) == SumOf(m, SKIPPED_IN)
      invariant failed + SumOf(rest, FAILED_IN) == SumOf(m, FAILED_IN)
      decreases rest.Keys
    {
      var k :| k in rest.Keys;
      SumTakesAny(rest, k, APPLIED_IN);
      SumTakesAny(rest, k, SKIPPED_IN);
      SumTakesAny(rest, k, FAILED_IN);
      applied := applied + (rest[k].created + rest[k].updated + rest[k].deleted);
      skipped := skipped + rest[k].skipped;
      failed := failed + rest[k].failures;
      copy := copy[k := rest[k]];
      rest := rest - {k};
    }
    EmptySum(rest, APPLIED_IN);
    EmptySum(rest, SKIPPED_IN);
    EmptySum(rest, FAILED_IN);
  }

  lemma EmptySum(m: Summaries, f: OperationSummary -> nat)
    requires m.Keys == {}
    ensures SumOf(m, f) == 0
  {
    assert m == map[];
  }

  method CountDrift(diffs: seq<Diff>) returns (n: nat)
    ensures n == DriftFields(diffs)
  {
    n := 0;
    for i := 0 to |diffs|
      invariant n == DriftFields(diffs[..i])
    {
      assert diffs[..i + 1][..i] == diffs[..i];
      n := n + diffs[i].fields;
      if diffs[i].fields == 0 && diffs[i].HasChanges() {
        n := n + 1;
      }
    }
    assert diffs[..|diffs|] == diffs;
  }

  const SILENT: Diff -> bool := (d: Diff) => d.fields == 0 && d.hasDetails && d.action !in {Noop, Skipped}

  ghost function FieldsListed(diffs: seq<Diff>): nat {
    if diffs == [] then 0 else diffs[0].fields + FieldsListed(diffs[1..])
  }

  /** The drift of an operation is every field its diffs list, plus one for each diff that acts and has
      details but lists none; there is none exactly when no diff has anything to show. */
  lemma {:induction false} DriftIsWhatTheDiffsShow(diffs: seq<Diff>)
    ensures DriftFields(diffs) == FieldsListed(diffs) + CountIf(diffs, SILENT)
    ensures DriftFields(diffs) == 0 <==>
            forall i :: 0 <= i < |diffs| ==> diffs[i].fields == 0 && (diffs[i].hasDetails ==> diffs[i].action in {Noop, Skipped})
  {
    if diffs != [] {
      var init, last := diffs[..|diffs| - 1], diffs[|diffs| - 1];
      DriftIsWhatTheDiffsShow(init);
      FieldsListedSplits(init, [last]);
      assert init + [last] == diffs;
      assert FieldsListed([last]) == last.fields;
      assert forall i :: 0 <= i < |init| ==> init[i] == diffs[i];
    }
  }

  lemma {:induction false} FieldsListedSplits(s: seq<Diff>, t: seq<Diff>)
    ensures FieldsListed(s + t) == FieldsListed(s) + FieldsListed(t)
  {
    if s == [] {
      assert s + t == t;
    } else {
      assert (s + t)[1..] == s[1..] + t;
      FieldsListedSplits(s[1..], t);
    }
  }

  /** Every recorded target is counted once: as changed, unchanged or failed. */
  lemma {:induction false} TargetsArePartitioned(ts: seq<TargetResult>)
    ensures CountIf(ts, CHANGED_TARGET) + CountIf(ts, UNCHANGED_TARGET) + CountIf(ts, FAILED_TARGET) == |ts|
    ensures CountIf(ts, FAILED_TARGET) == 0 <==> forall t :: t in ts ==> t.Clean()
  {
    if ts != [] {
      var init := ts[..|ts| - 1];
      TargetsArePartitioned(init);
      assert ts == init + [ts[|ts| - 1]];
    }
  }

  /** The counted actions make up at most the total; unknown actions are the difference. */
  predicate Balanced(s: OperationSummary) {
    s.Applied() + s.noop + s.audit + s.skipped <= s.total && s.failures <= s.total
  }

  /** In every per-operation summary the counted actions and the failures stay within the total. */
  lemma {:induction false} SummariesAreBalanced(ops: seq<OperationResult>, name: string)
    ensures Balanced(SummaryOf(ops, name))
  {
    hide *;
    if ops == [] {
      NothingIsBalanced(name);
    } else {
      var init, last := ops[..|ops| - 1], ops[|ops| - 1];
      SummariesAreBalanced(init, name);
      AppendLast(ops);
      SummaryOfAppended(init, last, name);
      BumpedStaysBalanced(SummaryOf(init, name), last);
    }
  }

  lemma NothingIsBalanced(name: string)
    ensures Balanced(SummaryOf([], name))
  {
  }

  lemma BumpedStaysBalanced(s: OperationSummary, op: OperationResult)
    requires Balanced(s)
    ensures Balanced(Bumped(s, op))
  {
  }

  lemma AppendLast(ops: seq<OperationResult>)
    requires ops != []
    ensures ops == Appended(ops[..|ops| - 1], ops[|ops| - 1])
  {
  }
}
