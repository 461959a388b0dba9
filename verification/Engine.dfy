/** One governance run: every group, then every project, is executed through ParallelMap; results go
    to the metrics, errors to a list, and the two together decide whether the run succeeded. */
module Engine {
  import opened Prelude
  import opened Metrics
  import WorkerPool

  // ---------------------------------------------------------------------------
  // From operation results to a target result
  // ---------------------------------------------------------------------------

  /** What an operation's plan or apply reports; `failed` says an error is attached. */
  datatype PlanResult = PlanResult(name: string, path: string, action: Action, hasChanges: bool, failed: bool, diffs: seq<Diff>)

  datatype ApplyResult = ApplyResult(name: string, path: string, action: Action, status: Status, success: bool, failed: bool, diffs: seq<Diff>)

  function FromPlan(r: PlanResult): (o: OperationResult)
    ensures o.CountsAsFailed() <==> r.failed
    ensures o.success <==> !r.failed
  {
    var status :=
      if r.failed then Status.Failed
      else if r.action == Noop then NoopStatus
      else if r.action == Skipped then SkippedStatus
      else Success;
    OperationResult(r.name, r.path, r.action, status, r.hasChanges, !r.failed, r.failed, r.diffs)
  }

  function FromApply(r: ApplyResult): (o: OperationResult)
    ensures o.hasChanges ==> r.diffs != []
    ensures o.CountsAsFailed() <==> !r.success || r.failed || r.status == Status.Failed
  {
    var hasChanges := r.action != Noop && r.action != Skipped && |r.diffs| > 0;
    OperationResult(r.name, r.path, r.action, r.status, hasChanges, r.success, r.failed, r.diffs)
  }

  /** What the registry hands back for one target: the results so far, and the error it stopped at. */
  datatype Registry<E> = Planned(plans: seq<PlanResult>, err: Option<E>) | Applied(applies: seq<ApplyResult>, err: Option<E>) {
    function Operations(): seq<OperationResult> {
      match this
      case Planned(plans, _) => seq(|plans|, i requires 0 <= i < |plans| => FromPlan(plans[i]))
      case Applied(applies, _) => seq(|applies|, i requires 0 <= i < |applies| => FromApply(applies[i]))
    }
  }

  predicate AllSucceed(ops: seq<OperationResult>) {
    forall i :: 0 <= i < |ops| ==> ops[i].success
  }

  predicate AnyChanges(ops: seq<OperationResult>) {
    exists i :: 0 <= i < |ops| && ops[i].hasChanges
  }

  /** The project marked for deletion: one skipped operation and nothing else. */
  function SkippedTarget(path: string): TargetResult {
    TargetResult(path, true, false, false, [OperationResult("lifecycle_check", path, Skipped, SkippedStatus, false, true, false, [])])
  }

  function TargetOf<E>(path: string, reg: Registry<E>): TargetResult {
    TargetResult(path, reg.err.None? && AllSucceed(reg.Operations()), AnyChanges(reg.Operations()), reg.err.Some?, reg.Operations())
  }

  /** What ParallelMap keeps of an execution: an error discards the result that came with it. */
  function Outcome<E>(path: string, marked: bool, reg: Registry<E>): WorkerPool.Outcome<TargetResult, E> {
    if marked then WorkerPool.Ok(SkippedTarget(path))
    else if reg.err.Some? then WorkerPool.Fail(reg.err.value)
    else WorkerPool.Ok(TargetOf(path, reg))
  }

  /** executeProject and executeGroup (a group is never marked for deletion). */
  method ExecuteTarget<E>(path: string, marked: bool, reg: Registry<E>) returns (res: TargetResult, err: Option<E>)
    ensures marked ==> res == SkippedTarget(path) && err.None?
    ensures marked ==>
              && res.path == path && res.Clean() && !res.hasChanges
              && res.operations == [OperationResult("lifecycle_check", path, Skipped, SkippedStatus, false, true, false, [])]
    ensures !marked ==> res == TargetOf(path, reg) && err == reg.err
    ensures Outcome(path, marked, reg) == if err.Some? then WorkerPool.Fail(err.value) else WorkerPool.Ok(res)
  {
    if marked {
      return SkippedTarget(path), None;
    }
    var success, hasChanges := true, false;
    if reg.err.Some? {
      success := false;
    }
    var results := reg.Operations();
    var operations: seq<OperationResult> := [];
    for i := 0 to |results|
      invariant operations == results[..i]
      invariant success <==> reg.err.None? && AllSucceed(results[..i])
      invariant hasChanges <==> AnyChanges(results[..i])
    {
      var op := results[i];
      assert results[..i + 1] == results[..i] + [op];
      ghost var before := results[..i];
      assert AnyChanges(before) ==> AnyChanges(before + [op]);
      assert op.hasChanges ==> (before + [op])[i].hasChanges;
      operations := operations + [op];
      if op.hasChanges {
        hasChanges := true;
      }
      if !op.success {
        success := false;
      }
    }
    assert results[..|results|] == results;
    return TargetResult(path, success, hasChanges, reg.err.Some?, operations), reg.err;
  }

  /** What a target reports, from what its operations came to. An apply counts as a change only if it
      both acted and has a diff to show for it; a plan is taken at its word. */
  lemma TargetReports<E>(path: string, reg: Registry<E>)
    ensures var t := TargetOf(path, reg);
            match reg
            case Applied(applies, err) =>
              && t.path == path && (t.failed <==> err.Some?) && |t.operations| == |applies|
              && (t.success <==> err.None? && forall i :: 0 <= i < |applies| ==> applies[i].success)
              && (t.hasChanges <==> exists i :: 0 <= i < |applies| && applies[i].action !in {Noop, Skipped} && applies[i].diffs != [])
              && forall i :: 0 <= i < |applies| ==>
                   && t.operations[i].name == applies[i].name && t.operations[i].path == applies[i].path
                   && t.operations[i].action == applies[i].action && t.operations[i].status == applies[i].status
                   && t.operations[i].diffs == applies[i].diffs && t.operations[i].failed == applies[i].failed
            case Planned(plans, err) =>
              && t.path == path && (t.failed <==> err.Some?) && |t.operations| == |plans|
              && (t.success <==> err.None? && forall i :: 0 <= i < |plans| ==> !plans[i].failed)
              && (t.hasChanges <==> exists i :: 0 <= i < |plans| && plans[i].hasChanges)
              && forall i :: 0 <= i < |plans| ==>
                   && t.operations[i].name == plans[i].name && t.operations[i].path == plans[i].path
                   && t.operations[i].action == plans[i].action && t.operations[i].diffs == plans[i].diffs
                   && t.operations[i].failed == plans[i].failed
                   && (t.operations[i].status == Status.Failed <==> plans[i].failed)
                   && (t.operations[i].status == NoopStatus <==> !plans[i].failed && plans[i].action == Noop)
                   && (t.operations[i].status == SkippedStatus <==> !plans[i].failed && plans[i].action == Skipped)
                   && t.operations[i].status != NoStatus
  {
    var ops := reg.Operations();
    match reg
    case Applied(applies, _) =>
      assert forall i :: 0 <= i < |ops| ==> ops[i] == FromApply(applies[i]);
      assert forall i :: 0 <= i < |ops| ==> (ops[i].hasChanges <==> applies[i].action !in {Noop, Skipped} && applies[i].diffs != []);
    case Planned(plans, _) =>
      assert forall i :: 0 <= i < |ops| ==> ops[i] == FromPlan(plans[i]);
  }

  /** In a dry run a target is clean exactly when the registry finished and no operation counts as
      failed; an apply can also be clean with a failed status, when the operation claims success. */
  lemma CleanExactlyWithoutFailures<E>(path: string, reg: Registry<E>)
    requires reg.Planned?
    ensures TargetOf(path, reg).Clean() <==> reg.err.None? && forall i :: 0 <= i < |reg.plans| ==> !reg.plans[i].failed
    ensures TargetOf(path, reg).Clean() && reg.err.None? ==> CountIf(reg.Operations(), FAILED) == 0
  {
    var ops := reg.Operations();
    assert forall i :: 0 <= i < |ops| ==> ops[i] == FromPlan(reg.plans[i]);
    if TargetOf(path, reg).Clean() {
      NoneCounted(ops);
    }
  }

  lemma {:induction false} NoneCounted(ops: seq<OperationResult>)
    requires forall i :: 0 <= i < |ops| ==> !ops[i].CountsAsFailed()
    ensures CountIf(ops, FAILED) == 0
  {
    if ops != [] {
      NoneCounted(ops[..|ops| - 1]);
    }
  }

  // ---------------------------------------------------------------------------
  // Accounting over a run
  // ---------------------------------------------------------------------------

  function AllOperations(ts: seq<TargetResult>): seq<OperationResult> {
    if ts == [] then [] else AllOperations(ts[..|ts| - 1]) + ts[|ts| - 1].operations
  }

  predicate AllClean(ts: seq<TargetResult>) {
    forall t :: t in ts ==> t.Clean()
  }

  /** The target executed without error and none of its operations failed. */
  predicate Governed<E>(o: WorkerPool.Outcome<TargetResult, E>) {
    o.Ok? && o.result.Clean()
  }

  /** Every item of a sequential map leaves either a result or an error. */
  lemma {:induction false} MapIsConserved<T, E>(items: seq<T>, fn: T -> WorkerPool.Outcome<TargetResult, E>)
    ensures var (rs, errs) := WorkerPool.SequentialMap(items, fn);
            && |Present(rs)| + |errs| == |items|
            && (errs == [] && AllClean(Present(rs)) <==> forall i :: 0 <= i < |items| ==> Governed(fn(items[i])))
  {
    if items != [] {
      var init := items[..|items| - 1];
      MapIsConserved(init, fn);
      var (rs, errs) := WorkerPool.SequentialMap(init, fn);
      var last := fn(items[|items| - 1]);
      assert (rs + [if last.Ok? then Some(last.result) else None])[..|rs|] == rs;
      assert (forall i :: 0 <= i < |items| ==> Governed(fn(items[i]))) <==>
             (forall i :: 0 <= i < |init| ==> Governed(fn(init[i]))) && Governed(last) by {
        assert forall i :: 0 <= i < |init| ==> init[i] == items[i];
      }
      if last.Ok? {
        assert AllClean(Present(rs) + [last.result]) <==> AllClean(Present(rs)) && last.result.Clean();
      }
    }
  }

  /** The loop that hands the present results to the metrics. */
  method RecordResults(m: SummaryMetrics, rs: seq<Option<TargetResult>>) returns (kept: seq<TargetResult>)
    requires m.Valid()
    modifies m
    ensures m.Valid() && kept == Present(rs)
    ensures m.targets == old(m.targets) + kept
    ensures m.operations == old(m.operations) + AllOperations(kept)
  {
    hide SummaryMetrics.Valid;
    kept := [];
    assert AllOperations(kept) == [];
    for i := 0 to |rs|
      invariant m.Valid() && kept == Present(rs[..i])
      invariant m.targets == old(m.targets) + kept
      invariant m.operations == old(m.operations) + AllOperations(kept)
    {
      assert rs[..i + 1][..i] == rs[..i];
      if rs[i].Some? {
        assert (kept + [rs[i].value])[..|kept|] == kept;
        kept := kept + [rs[i].value];
        m.RecordTargetResult(rs[i].value);
      }
    }
    assert rs[..|rs|] == rs;
  }

  /** A ParallelMap call that ran to its end, by whatever schedule, without cancellation. */
  ghost predicate Completed<T, E>(j: WorkerPool.Job<T, TargetResult, E>, schedule: seq<WorkerPool.Step<TargetResult, E>>,
                                  s: WorkerPool.State<TargetResult, E>)
  {
    && WorkerPool.Cancel !in schedule
    && WorkerPool.Reaches(j, schedule, s) && WorkerPool.Closed(s)
  }

  /** One phase: what ParallelMap returned goes to the error list and to the metrics. */
  method RunPhase<T, E(==)>(j: WorkerPool.Job<T, TargetResult, E>, ghost schedule: seq<WorkerPool.Step<TargetResult, E>>,
                            s: WorkerPool.State<TargetResult, E>, text: E -> string, m: SummaryMetrics)
    returns (kept: seq<TargetResult>, errors: seq<E>)
    requires Completed(j, schedule, s) && m.Valid()
    modifies m
    ensures m.Valid() && m.targets == old(m.targets) + kept && m.operations == old(m.operations) + AllOperations(kept)
    ensures |kept| + |errors| <= |j.items|
    ensures |kept| + |errors| == |j.items| <==> WorkerPool.PanicsTellApart(j, s.poolErrs, text)
    ensures WorkerPool.PanicFree(j) ==> errors == WorkerPool.SequentialMap(j.items, j.fn).1
    ensures errors == [] && AllClean(kept) <==> forall i :: 0 <= i < |j.items| ==> Governed(j.fn(j.items[i]))
  {
    hide SummaryMetrics.Valid, WorkerPool.Reaches, WorkerPool.SequentialMap, WorkerPool.Outputs, WorkerPool.PanicsTellApart;
    kept, errors := [], [];
    if WorkerPool.PanicFree(j) {
      WorkerPool.ParallelMapRefinesSequentialMap(j, schedule, s, text);
    }
    WorkerPool.ErrorsAreReported(j, schedule, s, text);
    WorkerPool.AccountsAddUpExactly(j, schedule, s, text);
    MapIsConserved(j.items, j.fn);
    NothingFails(j.items, j.fn);
    if |j.items| > 0 {
      var (rs, errs) := WorkerPool.Outputs(s, text);
      errors := errs;
      kept := RecordResults(m, rs);
    }
  }

  lemma NothingFails<T, E>(items: seq<T>, fn: T -> WorkerPool.Outcome<TargetResult, E>)
    ensures items == [] ==> WorkerPool.SequentialMap(items, fn) == ([], [])
  {
  }

  /** runWithOptions, from the two phases on, for every schedule of both: no target is accounted for
      twice, and each is accounted for once -- as changed, unchanged, failed or as an error -- exactly
      when the phases' recorded panics, if any, tell apart. The run succeeds exactly when every target
      executed without error, without panic and without a failed operation. */
  method RunWithOptions<G, P, E(==)>(
      groups: WorkerPool.Job<G, TargetResult, E>, ghost groupSchedule: seq<WorkerPool.Step<TargetResult, E>>,
      groupState: WorkerPool.State<TargetResult, E>,
      projects: WorkerPool.Job<P, TargetResult, E>, ghost projectSchedule: seq<WorkerPool.Step<TargetResult, E>>,
      projectState: WorkerPool.State<TargetResult, E>, text: E -> string)
    returns (snap: Snapshot, groupResults: seq<TargetResult>, projectResults: seq<TargetResult>, errors: seq<E>, success: bool)
    requires Completed(groups, groupSchedule, groupState)
    requires Completed(projects, projectSchedule, projectState)
    ensures snap.changedTargets + snap.unchangedTargets + snap.failedTargets + |errors| <= |groups.items| + |projects.items|
    ensures snap.changedTargets + snap.unchangedTargets + snap.failedTargets + |errors| == |groups.items| + |projects.items| <==>
            WorkerPool.PanicsTellApart(groups, groupState.poolErrs, text) && WorkerPool.PanicsTellApart(projects, projectState.poolErrs, text)
    ensures success <==>
              && (forall i :: 0 <= i < |groups.items| ==> Governed(groups.fn(groups.items[i])))
              && (forall i :: 0 <= i < |projects.items| ==> Governed(projects.fn(projects.items[i])))
    ensures WorkerPool.PanicFree(groups) && WorkerPool.PanicFree(projects) ==>
              errors == WorkerPool.SequentialMap(groups.items, groups.fn).1 + WorkerPool.SequentialMap(projects.items, projects.fn).1
    ensures snap.appliedOperations == CountIf(AllOperations(groupResults) + AllOperations(projectResults), APPLIED)
    ensures snap.skippedOperations == snap.skipped == CountIf(AllOperations(groupResults) + AllOperations(projectResults), SKIPPED)
  {
    hide Completed, WorkerPool.SequentialMap, CountIf, Governed, SummaryMetrics.Valid, AllOperations, WorkerPool.PanicsTellApart;
    var m := new SummaryMetrics();
    var groupErrors, projectErrors;
    groupResults, groupErrors := RunPhase(groups, groupSchedule, groupState, text, m);
    projectResults, projectErrors := RunPhase(projects, projectSchedule, projectState, text, m);
    errors := groupErrors + projectErrors;
    snap := m.TakeSnapshot();
    success := |errors| == 0 && snap.failedTargets == 0;
    TargetsArePartitioned(m.targets);
    assert m.targets == groupResults + projectResults;
    assert m.operations == AllOperations(groupResults) + AllOperations(projectResults);
    assert AllClean(m.targets) <==> AllClean(groupResults) && AllClean(projectResults);
  }
}
