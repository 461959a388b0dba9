/** The bounded worker pool and ParallelMap (internal/engine/workerpool.go) as a step machine.

    One submitter goroutine enqueues a closure per item into a buffered channel and then closes
    it; `concurrency` workers receive from the channel, check the context, run the closure and
    record its error.  A schedule is any sequence of enabled steps, so a statement about every
    legal schedule is a statement about every interleaving. */
module WorkerPool {
  import opened Prelude

  /** What the mapped function does on one item: return a value, return an error, or panic.  The error
      the recover handler records for a panic is not determined by this: it carries the stack of the
      worker, so it can be a different one in every run. */
  datatype Outcome<R, E> = Ok(result: R) | Fail(err: E) | Panic(err: E)

  /** The immutable parameters of one ParallelMap call. */
  datatype Job<!T, !R, !E> = Job(items: seq<T>, fn: T -> Outcome<R, E>, concurrency: int, ctxErr: E)

  /** ParallelMap replaces a non-positive concurrency by 10. */
  function EffectiveConcurrency(requested: int): (n: nat)
    ensures n > 0
  {
    if requested <= 0 then 10 else requested
  }

  /** What one worker goroutine is doing. */
  datatype Slot<E> =
    | Idle                              // in the receive-or-done select
    | Holding(task: nat)                // received, context not yet checked
    | Running(task: nat)                // inside the closure
    | Recording(task: nat, err: E)      // closure done, error not yet appended
    | Exited

  /** An entry of the pool's error slice, tagged with the task it stems from. */
  datatype PoolError<E> = PoolError(task: nat, err: E)

  /** Where a task is: not submitted yet, in the channel, with worker `w`, done, or turned away. */
  datatype Place = Pending | Queued | With(w: nat) | Finished | Rejected

  /** `results[i] == None` stands for the zero value the result slice is created with.
      `place` and `starts` are histories: where each task is, and how often its closure began. */
  datatype State<R, E> = State(
    submitted: nat,
    queue: seq<nat>,
    workers: seq<Slot<E>>,
    closed: bool,
    cancelled: bool,
    results: seq<Option<R>>,
    errs: seq<Option<E>>,
    poolErrs: seq<PoolError<E>>,
    place: seq<Place>,
    starts: seq<nat>)

  datatype Step<R, E> =
    | Submit                            // enqueue the next closure
    | Reject                            // Submit observes the cancelled context
    | CloseQueue                        // Close, after every submit
    | Cancel                            // the context is cancelled
    | Take(w: nat)                      // a worker receives the oldest closure
    | ExitClosed(w: nat)                // a worker sees the channel closed and drained
    | ExitCancelled(w: nat)             // a worker sees the cancelled context
    | Start(w: nat)                     // the context check passes
    | Abandon(w: nat)                   // the context check fails
    | Succeed(w: nat, result: R)        // the closure stores a result and returns nil
    | FailWith(w: nat, err: E)          // the closure stores an error and returns it
    | PanicWith(w: nat, err: E)         // the closure panics and is recovered
    | Record(w: nat)                    // the error is appended under the mutex

  function Init<T, R, E>(j: Job<T, R, E>): State<R, E> {
    State(0, [], seq(EffectiveConcurrency(j.concurrency), _ => Idle), false, false,
          seq(|j.items|, _ => None), seq(|j.items|, _ => None), [],
          seq(|j.items|, _ => Pending), seq(|j.items|, _ => 0))
  }

  /** The shape every state of a call has. */
  ghost predicate Sized<T, R, E>(j: Job<T, R, E>, s: State<R, E>) {
    && |s.results| == |s.errs| == |s.place| == |s.starts| == |j.items|
    && |s.workers| == EffectiveConcurrency(j.concurrency)
    && s.submitted <= |j.items|
    && (s.closed ==> s.submitted == |j.items|)
    && (forall k :: 0 <= k < |s.queue| ==> s.queue[k] < |j.items|)
    && (forall w :: 0 <= w < |s.workers| && Busy(s.workers[w]) ==> s.workers[w].task < |j.items|)
  }

  predicate Busy<E>(slot: Slot<E>) {
    slot.Holding? || slot.Running? || slot.Recording?
  }

  /** A closure does what the mapped function does, up to the error a panic is recorded with; once the
      context is cancelled the function, which is given the context, may do anything. */
  predicate Yields<T, R(==), E(==)>(j: Job<T, R, E>, s: State<R, E>, w: nat, outcome: Outcome<R, E>)
    requires Sized(j, s) && w < |s.workers| && s.workers[w].Running?
  {
    var expected := j.fn(j.items[s.workers[w].task]);
    s.cancelled || expected == outcome || (expected.Panic? && outcome.Panic?)
  }

  /** Which steps the Go runtime can take.  The queue is created with room for every item. */
  predicate Enabled<T, R(==), E(==)>(j: Job<T, R, E>, s: State<R, E>, step: Step<R, E>)
    requires Sized(j, s)
  {
    match step
    case Submit => s.submitted < |j.items| && !s.closed && |s.queue| < |j.items|
    case Reject => s.submitted < |j.items| && !s.closed && s.cancelled
    case CloseQueue => s.submitted == |j.items| && !s.closed
    case Cancel => !s.cancelled
    case Take(w) => w < |s.workers| && s.workers[w] == Idle && s.queue != []
    case ExitClosed(w) => w < |s.workers| && s.workers[w] == Idle && s.closed && s.queue == []
    case ExitCancelled(w) => w < |s.workers| && s.workers[w] == Idle && s.cancelled
    case Start(w) => w < |s.workers| && s.workers[w].Holding? && !s.cancelled
    case Abandon(w) => w < |s.workers| && s.workers[w].Holding? && s.cancelled
    case Succeed(w, r) => w < |s.workers| && s.workers[w].Running? && Yields(j, s, w, Ok(r))
    case FailWith(w, e) => w < |s.workers| && s.workers[w].Running? && Yields(j, s, w, Fail(e))
    case PanicWith(w, e) => w < |s.workers| && s.workers[w].Running? && Yields(j, s, w, Panic(e))
    case Record(w) => w < |s.workers| && s.workers[w].Recording?
  }

  function Apply<T, R(==), E(==)>(j: Job<T, R, E>, s: State<R, E>, step: Step<R, E>): (t: State<R, E>)
    requires Sized(j, s) && Enabled(j, s, step)
    ensures Sized(j, t)
  {
    match step
    case Submit =>
      s.(submitted := s.submitted + 1, queue := s.queue + [s.submitted], place := s.place[s.submitted := Queued])
    case Reject =>
      s.(submitted := s.submitted + 1,
         errs := s.errs[s.submitted := Some(j.ctxErr)],
         poolErrs := s.poolErrs + [PoolError(s.submitted, j.ctxErr)],
         place := s.place[s.submitted := Rejected])
    case CloseQueue => s.(closed := true)
    case Cancel => s.(cancelled := true)
    case Take(w) =>
      s.(workers := s.workers[w := Holding(s.queue[0])], queue := s.queue[1..], place := s.place[s.queue[0] := With(w)])
    case ExitClosed(w) => s.(workers := s.workers[w := Exited])
    case ExitCancelled(w) => s.(workers := s.workers[w := Exited])
    case Start(w) =>
      var i := s.workers[w].task;
      s.(workers := s.workers[w := Running(i)], starts := s.starts[i := s.starts[i] + 1])
    case Abandon(w) => s.(workers := s.workers[w := Recording(s.workers[w].task, j.ctxErr)])
    case Succeed(w, r) =>
      var i := s.workers[w].task;
      s.(workers := s.workers[w := Idle], results := s.results[i := Some(r)], place := s.place[i := Finished])
    case FailWith(w, e) =>
      var i := s.workers[w].task;
      s.(workers := s.workers[w := Recording(i, e)], errs := s.errs[i := Some(e)])
    case PanicWith(w, e) => s.(workers := s.workers[w := Recording(s.workers[w].task, e)])
    case Record(w) =>
      var i := s.workers[w].task;
      s.(workers := s.workers[w := Idle],
         poolErrs := s.poolErrs + [PoolError(i, s.workers[w].err)],
         place := s.place[i := Finished])
  }

  /** Every step of the schedule is enabled when its turn comes. */
  ghost predicate Legal<T, R, E>(j: Job<T, R, E>, s: State<R, E>, schedule: seq<Step<R, E>>)
    requires Sized(j, s)
    decreases |schedule|
  {
    schedule == [] || (Enabled(j, s, schedule[0]) && Legal(j, Apply(j, s, schedule[0]), schedule[1..]))
  }

  /** The state a legal schedule ends in. */
  ghost function Exec<T, R, E>(j: Job<T, R, E>, s: State<R, E>, schedule: seq<Step<R, E>>): (t: State<R, E>)
    requires Sized(j, s) && Legal(j, s, schedule)
    ensures Sized(j, t)
    decreases |schedule|
  {
    if schedule == [] then s else Exec(j, Apply(j, s, schedule[0]), schedule[1..])
  }

  /** Close has returned: the channel is closed and every worker has left its loop. */
  ghost predicate Closed<R, E>(s: State<R, E>) {
    s.closed && forall w :: 0 <= w < |s.workers| ==> s.workers[w] == Exited
  }

  // ---------------------------------------------------------------- safety of every interleaving

  /** The place history agrees with the queue and the workers: a queued task is in the channel and
      nowhere else, a task with worker w is in w's slot and nowhere else. */
  ghost predicate Owned<E>(submitted: nat, queue: seq<nat>, workers: seq<Slot<E>>, place: seq<Place>) {
    && (forall k :: 0 <= k < |queue| ==> queue[k] < |place| && place[queue[k]] == Queued)
    && (forall i :: 0 <= i < |place| && place[i] == Queued ==> i in queue)
    && (forall k, l :: 0 <= k < l < |queue| ==> queue[k] < queue[l])
    && (forall w :: 0 <= w < |workers| && Busy(workers[w]) ==>
          workers[w].task < |place| && place[workers[w].task] == With(w))
    && (forall i :: 0 <= i < |place| && place[i].With? ==>
          place[i].w < |workers| && Busy(workers[place[i].w]) && workers[place[i].w].task == i)
    && (forall i :: 0 <= i < |place| ==> (place[i] == Pending <==> submitted <= i))
  }

  ghost predicate Ownership<R, E>(s: State<R, E>) {
    Owned(s.submitted, s.queue, s.workers, s.place)
  }

  lemma OwnedTake<E>(submitted: nat, queue: seq<nat>, workers: seq<Slot<E>>, place: seq<Place>, w: nat)
    requires Owned(submitted, queue, workers, place) && queue != []
    requires w < |workers| && workers[w] == Idle
    ensures Owned(submitted, queue[1..], workers[w := Holding(queue[0])], place[queue[0] := With(w)])
  {
    var rest, place' := queue[1..], place[queue[0] := With(w)];
    assert forall k :: 0 <= k < |rest| ==> rest[k] == queue[k + 1];
    forall i | 0 <= i < |place'| && place'[i] == Queued ensures i in rest {
      assert i in queue && i != queue[0];
      var k :| 0 <= k < |queue| && queue[k] == i;
      assert rest[k - 1] == i;
    }
  }

  lemma OwnedSubmit<E>(submitted: nat, queue: seq<nat>, workers: seq<Slot<E>>, place: seq<Place>)
    requires Owned(submitted, queue, workers, place) && submitted < |place|
    ensures Owned(submitted + 1, queue + [submitted], workers, place[submitted := Queued])
  {
  }

  lemma OwnedReject<E>(submitted: nat, queue: seq<nat>, workers: seq<Slot<E>>, place: seq<Place>)
    requires Owned(submitted, queue, workers, place) && submitted < |place|
    ensures Owned(submitted + 1, queue, workers, place[submitted := Rejected])
  {
  }

  lemma OwnedFinish<E>(submitted: nat, queue: seq<nat>, workers: seq<Slot<E>>, place: seq<Place>, w: nat)
    requires Owned(submitted, queue, workers, place)
    requires w < |workers| && Busy(workers[w])
    ensures Owned(submitted, queue, workers[w := Idle], place[workers[w].task := Finished])
  {
  }

  /** A worker that changes what it does with the task it holds, or leaves while holding none. */
  lemma OwnedRelabel<E>(submitted: nat, queue: seq<nat>, workers: seq<Slot<E>>, place: seq<Place>, w: nat, slot: Slot<E>)
    requires Owned(submitted, queue, workers, place)
    requires w < |workers| && Busy(slot) == Busy(workers[w])
    requires Busy(slot) ==> slot.task == workers[w].task
    ensures Owned(submitted, queue, workers[w := slot], place)
  {
  }

  lemma OwnershipStep<T, R, E>(j: Job<T, R, E>, s: State<R, E>, step: Step<R, E>)
    requires Sized(j, s) && Ownership(s) && Enabled(j, s, step)
    ensures Ownership(Apply(j, s, step))
  {
    hide Owned;
    match step {
      case Submit => OwnedSubmit(s.submitted, s.queue, s.workers, s.place);
      case Reject => OwnedReject(s.submitted, s.queue, s.workers, s.place);
      case CloseQueue =>
      case Cancel =>
      case Take(w) => OwnedTake(s.submitted, s.queue, s.workers, s.place, w);
      case Succeed(w, _) => OwnedFinish(s.submitted, s.queue, s.workers, s.place, w);
      case Record(w) => OwnedFinish(s.submitted, s.queue, s.workers, s.place, w);
      case _ => OwnedRelabel(s.submitted, s.queue, s.workers, s.place, step.w, Apply(j, s, step).workers[step.w]);
    }
  }

  // ---------------------------------------------------------------- what is known of each task

  ghost predicate Tagged<E>(poolErrs: seq<PoolError<E>>, i: nat) {
    exists k :: 0 <= k < |poolErrs| && poolErrs[k].task == i
  }

  lemma TaggedGrows<E>(before: seq<PoolError<E>>, after: seq<PoolError<E>>)
    requires before <= after
    ensures forall i :: Tagged(before, i) ==> Tagged(after, i)
  {
    forall i | Tagged(before, i) ensures Tagged(after, i) {
      var k :| 0 <= k < |before| && before[k].task == i;
      assert after[k].task == i;
    }
  }

  lemma LastIsTagged<E>(poolErrs: seq<PoolError<E>>, p: PoolError<E>)
    ensures Tagged(poolErrs + [p], p.task)
  {
    assert (poolErrs + [p])[|poolErrs|] == p;
  }

  /** Task i, cancelled or not: its closure has begun at most once and not before it left the
      queue; the slices stay untouched until the closure ends; and once the task is finished or
      rejected there is a result, or a recorded error, never both. */
  ghost predicate TaskKnown<T, R, E>(j: Job<T, R, E>, s: State<R, E>, i: nat)
    requires Sized(j, s) && Ownership(s) && i < |j.items|
  {
    match s.place[i]
    case Pending => s.starts[i] == 0 && s.results[i] == None && s.errs[i] == None
    case Queued => s.starts[i] == 0 && s.results[i] == None && s.errs[i] == None
    case With(w) =>
      && s.results[i] == None
      && (s.workers[w].Holding? ==> s.starts[i] == 0 && s.errs[i] == None)
      && (s.workers[w].Running? ==> s.starts[i] == 1 && s.errs[i] == None)
      && s.starts[i] <= 1
    case Finished =>
      && s.starts[i] <= 1
      && (s.results[i].Some? ==> s.errs[i] == None)
      && (s.results[i] == None ==> Tagged(s.poolErrs, i))
    case Rejected => s.starts[i] == 0 && s.results[i] == None && s.errs[i] == Some(j.ctxErr)
  }

  ghost predicate Known<T, R, E>(j: Job<T, R, E>, s: State<R, E>) {
    Sized(j, s) && Ownership(s) && forall i :: 0 <= i < |j.items| ==> TaskKnown(j, s, i)
  }

  lemma KnownSubmitter<T, R, E>(j: Job<T, R, E>, s: State<R, E>, step: Step<R, E>, t: State<R, E>, i: nat)
    requires Sized(j, s) && Ownership(s) && Enabled(j, s, step) && t == Apply(j, s, step) && Ownership(t)
    requires step.Submit? || step.Reject? || step.CloseQueue? || step.Cancel?
    requires i < |j.items| && TaskKnown(j, s, i)
    ensures TaskKnown(j, t, i)
  {
    TaggedGrows(s.poolErrs, t.poolErrs);
  }

  lemma KnownReceive<T, R, E>(j: Job<T, R, E>, s: State<R, E>, step: Step<R, E>, t: State<R, E>, i: nat)
    requires Sized(j, s) && Ownership(s) && Enabled(j, s, step) && t == Apply(j, s, step) && Ownership(t)
    requires step.Take? || step.ExitClosed? || step.ExitCancelled?
    requires i < |j.items| && TaskKnown(j, s, i)
    ensures TaskKnown(j, t, i)
  {
    hide Yields, Tagged;
  }

  /** A busy worker's task is with that worker. */
  lemma BusyWorkerOwns<R, E>(s: State<R, E>, w: nat)
    requires Ownership(s) && w < |s.workers| && Busy(s.workers[w])
    ensures s.workers[w].task < |s.place| && s.place[s.workers[w].task] == With(w)
    ensures forall i :: 0 <= i < |s.place| && s.place[i] == With(w) ==> i == s.workers[w].task
    ensures forall i :: 0 <= i < |s.place| && s.place[i].With? ==> s.place[i].w < |s.workers|
  {
  }

  lemma KnownBusy<T, R, E>(j: Job<T, R, E>, s: State<R, E>, step: Step<R, E>, t: State<R, E>, i: nat)
    requires Sized(j, s) && Ownership(s) && Enabled(j, s, step) && t == Apply(j, s, step) && Ownership(t)
    requires step.Start? || step.Abandon? || step.FailWith? || step.PanicWith?
    requires i < |j.items| && TaskKnown(j, s, i)
    ensures TaskKnown(j, t, i)
  {
    hide Yields, Tagged, Owned;
    BusyWorkerOwns(s, step.w);
    assert i != s.workers[step.w].task ==> t.starts[i] == s.starts[i] && t.errs[i] == s.errs[i];
  }

  lemma KnownFinish<T, R, E>(j: Job<T, R, E>, s: State<R, E>, step: Step<R, E>, t: State<R, E>, i: nat)
    requires Sized(j, s) && Ownership(s) && Enabled(j, s, step) && t == Apply(j, s, step) && Ownership(t)
    requires step.Succeed? || step.Record?
    requires i < |j.items| && TaskKnown(j, s, i)
    ensures TaskKnown(j, t, i)
  {
    hide Yields, Owned, Tagged;
    BusyWorkerOwns(s, step.w);
    TaggedGrows(s.poolErrs, t.poolErrs);
    if step.Record? {
      LastIsTagged(s.poolErrs, PoolError(s.workers[step.w].task, s.workers[step.w].err));
    }
  }

  lemma KnownStep<T, R, E>(j: Job<T, R, E>, s: State<R, E>, step: Step<R, E>)
    requires Known(j, s) && Enabled(j, s, step)
    ensures Known(j, Apply(j, s, step))
  {
    var t := Apply(j, s, step);
    OwnershipStep(j, s, step);
    forall i | 0 <= i < |j.items| ensures TaskKnown(j, t, i) {
      match step {
        case Submit => KnownSubmitter(j, s, step, t, i);
        case Reject => KnownSubmitter(j, s, step, t, i);
        case CloseQueue => KnownSubmitter(j, s, step, t, i);
        case Cancel => KnownSubmitter(j, s, step, t, i);
        case Take(_) => KnownReceive(j, s, step, t, i);
        case ExitClosed(_) => KnownReceive(j, s, step, t, i);
        case ExitCancelled(_) => KnownReceive(j, s, step, t, i);
        case Succeed(_, _) => KnownFinish(j, s, step, t, i);
        case Record(_) => KnownFinish(j, s, step, t, i);
        case _ => KnownBusy(j, s, step, t, i);
      }
    }
  }

  lemma {:induction false} KnownExec<T, R, E>(j: Job<T, R, E>, s: State<R, E>, schedule: seq<Step<R, E>>)
    requires Known(j, s) && Legal(j, s, schedule)
    ensures Known(j, Exec(j, s, schedule))
    decreases |schedule|
  {
    if schedule != [] {
      KnownStep(j, s, schedule[0]);
      KnownExec(j, Apply(j, s, schedule[0]), schedule[1..]);
    }
  }

  /** The pool's error list: at most one entry per task, of a task that is over and has no result. */
  ghost predicate Reported<R, E>(s: State<R, E>)
    requires |s.results| == |s.place|
  {
    && (forall k :: 0 <= k < |s.poolErrs| ==> Over(s, s.poolErrs[k].task) && s.results[s.poolErrs[k].task].None?)
    && (forall k, l :: 0 <= k < l < |s.poolErrs| ==> s.poolErrs[k].task != s.poolErrs[l].task)
  }

  ghost predicate Over<R, E>(s: State<R, E>, i: nat) {
    i < |s.place| && (s.place[i].Finished? || s.place[i].Rejected?)
  }

  lemma ReportedStep<T, R, E>(j: Job<T, R, E>, s: State<R, E>, step: Step<R, E>)
    requires Known(j, s) && Reported(s) && Enabled(j, s, step)
    ensures Reported(Apply(j, s, step))
  {
    hide Tagged, Yields;
    if step.Reject? {
      assert TaskKnown(j, s, s.submitted);
    }
    if step.Record? {
      assert TaskKnown(j, s, s.workers[step.w].task);
    }
  }

  lemma {:induction false} ReportedExec<T, R, E>(j: Job<T, R, E>, s: State<R, E>, schedule: seq<Step<R, E>>)
    requires Known(j, s) && Reported(s) && Legal(j, s, schedule)
    ensures Reported(Exec(j, s, schedule))
    decreases |schedule|
  {
    if schedule != [] {
      hide Known, Reported, Enabled, Apply;
      KnownStep(j, s, schedule[0]);
      ReportedStep(j, s, schedule[0]);
      ReportedExec(j, Apply(j, s, schedule[0]), schedule[1..]);
    }
  }

  /** The state a whole legal schedule of one ParallelMap call leads to. */
  ghost predicate Reaches<T, R, E>(j: Job<T, R, E>, schedule: seq<Step<R, E>>, s: State<R, E>) {
    Legal(j, Init(j), schedule) && s == Exec(j, Init(j), schedule)
  }

  lemma ReachableKnown<T, R, E>(j: Job<T, R, E>, schedule: seq<Step<R, E>>, s: State<R, E>)
    requires Reaches(j, schedule, s)
    ensures Known(j, s)
  {
    KnownExec(j, Init(j), schedule);
  }

  lemma ReachableReported<T, R, E>(j: Job<T, R, E>, schedule: seq<Step<R, E>>, s: State<R, E>)
    requires Reaches(j, schedule, s)
    ensures Known(j, s) && Reported(s)
  {
    ReachableKnown(j, schedule, s);
    ReportedExec(j, Init(j), schedule);
  }

  /** A strictly increasing sequence of numbers below m has at most m elements. */
  lemma {:induction false} IncreasingIsShort(q: seq<nat>, m: nat)
    requires forall k, l :: 0 <= k < l < |q| ==> q[k] < q[l]
    requires forall k :: 0 <= k < |q| ==> q[k] < m
    ensures |q| <= m
  {
    if q != [] {
      var last := q[|q| - 1];
      IncreasingIsShort(q[..|q| - 1], last);
    }
  }

  /** In every interleaving each submitted task is in exactly one place: at one position of the
      channel, in one worker's slot, finished or rejected; its closure has begun at most once; and
      there are as many workers to hold tasks as the call asks for, or 10 if that is not positive. */
  lemma TaskInExactlyOnePlace<T, R, E>(j: Job<T, R, E>, schedule: seq<Step<R, E>>, s: State<R, E>, i: nat)
    requires Reaches(j, schedule, s) && i < s.submitted
    ensures s.place[i] == Queued <==> i in s.queue
    ensures s.place[i].With? <==> exists w :: 0 <= w < |s.workers| && Busy(s.workers[w]) && s.workers[w].task == i
    ensures s.place[i] != Pending
    ensures forall k, l :: 0 <= k < l < |s.queue| ==> s.queue[k] != s.queue[l]
    ensures forall w, v :: 0 <= w < v < |s.workers| && Busy(s.workers[w]) && Busy(s.workers[v]) ==>
              s.workers[w].task != s.workers[v].task
    ensures s.starts[i] <= 1 && |s.workers| == if j.concurrency > 0 then j.concurrency else 10
  {
    ReachableKnown(j, schedule, s);
    assert TaskKnown(j, s, i);
  }

  /** ParallelMap's submits never block: while there is an item left, the channel has room. */
  lemma SubmitNeverBlocks<T, R, E>(j: Job<T, R, E>, schedule: seq<Step<R, E>>, s: State<R, E>)
    requires Reaches(j, schedule, s) && s.submitted < |j.items|
    ensures !s.closed && |s.queue| < |j.items| && Enabled(j, s, Submit)
  {
    ReachableKnown(j, schedule, s);
    assert forall k :: 0 <= k < |s.queue| ==> s.place[s.queue[k]] != Pending;
    IncreasingIsShort(s.queue, s.submitted);
  }

  /** When Close returns every task is accounted for: a result, an error in its own slot or an error
      in the pool's list, or it is still in the channel.  The last needs a cancelled context.  A
      result excludes both errors, and the pool's list has one entry per task at most. */
  lemma CloseAccountsForEveryTask<T, R, E>(j: Job<T, R, E>, schedule: seq<Step<R, E>>, s: State<R, E>, i: nat)
    requires Reaches(j, schedule, s) && Closed(s) && i < |j.items|
    ensures s.results[i].Some? || s.errs[i].Some? || Tagged(s.poolErrs, i) || i in s.queue
    ensures i in s.queue ==> s.results[i].None? && s.errs[i].None? && s.starts[i] == 0
    ensures s.results[i].Some? ==> s.errs[i].None? && !Tagged(s.poolErrs, i)
    ensures forall k, l :: 0 <= k < l < |s.poolErrs| ==> s.poolErrs[k].task != s.poolErrs[l].task
  {
    ReachableReported(j, schedule, s);
    assert TaskKnown(j, s, i);
  }

  // ---------------------------------------------------------------- refinement of the sequential map

  /** The sequential left-to-right map: a result for each item that succeeds, and the errors of the
      others in index order. */
  function SequentialMap<T, R, E>(items: seq<T>, fn: T -> Outcome<R, E>): (r: (seq<Option<R>>, seq<E>))
    ensures |r.0| == |items|
  {
    if items == [] then ([], [])
    else
      var (results, errors) := SequentialMap(items[..|items| - 1], fn);
      match fn(items[|items| - 1])
      case Ok(v) => (results + [Some(v)], errors)
      case Fail(e) => (results + [None], errors + [e])
      case Panic(e) => (results + [None], errors + [e])
  }

  /** Two errors count as the same when they are identical or print the same. */
  predicate SameError<E(==)>(a: E, b: E, text: E -> string) {
    a == b || text(a) == text(b)
  }

  predicate Mentioned<E(==)>(collected: seq<E>, e: E, text: E -> string) {
    exists k :: 0 <= k < |collected| && SameError(collected[k], e, text)
  }

  /** The second loop: a pool error is appended unless the list already mentions it. */
  function Merged<E(==)>(collected: seq<E>, poolErrs: seq<E>, text: E -> string): seq<E>
    decreases |poolErrs|
  {
    if poolErrs == [] then collected
    else
      Merged(if Mentioned(collected, poolErrs[0], text) then collected else collected + [poolErrs[0]], poolErrs[1..], text)
  }

  function Causes<E>(poolErrs: seq<PoolError<E>>): (es: seq<E>)
    ensures |es| == |poolErrs| && forall k :: 0 <= k < |es| ==> es[k] == poolErrs[k].err
  {
    seq(|poolErrs|, k requires 0 <= k < |poolErrs| => poolErrs[k].err)
  }

  /** What ParallelMap returns once Close has returned: the collection starts with the errors recorded
      in index order. */
  function Outputs<R, E(==)>(s: State<R, E>, text: E -> string): (seq<Option<R>>, seq<E>) {
    (s.results, Merged(Present(s.errs), Causes(s.poolErrs), text))
  }

  /** The tail of ParallelMap, loops and early exit included. */
  method CollectErrors<E(==)>(errs: seq<Option<E>>, hasError: bool, poolErrs: seq<E>, text: E -> string) returns (collected: seq<E>)
    requires hasError <==> exists i :: 0 <= i < |errs| && errs[i].Some?
    ensures collected == Merged(Present(errs), poolErrs, text)
  {
    if !hasError && |poolErrs| == 0 {
      NothingRecorded(errs);
      return [];
    }
    collected := [];
    for i := 0 to |errs|
      invariant collected == Present(errs[..i])
    {
      assert errs[..i + 1][..i] == errs[..i];
      if errs[i].Some? {
        collected := collected + [errs[i].value];
      }
    }
    assert errs[..|errs|] == errs;
    for p := 0 to |poolErrs|
      invariant Merged(collected, poolErrs[p..], text) == Merged(Present(errs), poolErrs, text)
    {
      var found := false;
      var c := 0;
      while c < |collected| && !found
        invariant c <= |collected|
        invariant found ==> Mentioned(collected, poolErrs[p], text)
        invariant !found ==> forall k :: 0 <= k < c ==> !SameError(collected[k], poolErrs[p], text)
      {
        if SameError(collected[c], poolErrs[p], text) {
          found := true;
        }
        c := c + 1;
      }
      if !found {
        collected := collected + [poolErrs[p]];
      }
    }
  }

  lemma {:induction false} NothingRecorded<E>(errs: seq<Option<E>>)
    requires forall i :: 0 <= i < |errs| ==> errs[i].None?
    ensures Present(errs) == []
  {
    if errs != [] {
      NothingRecorded(errs[..|errs| - 1]);
    }
  }

  ghost predicate PanicFree<T, R, E>(j: Job<T, R, E>) {
    forall i :: 0 <= i < |j.items| ==> !j.fn(j.items[i]).Panic?
  }

  /** What the slices hold for an item with this outcome once its task is finished.  A panic leaves
      both slots empty. */
  ghost predicate Holds<R, E>(outcome: Outcome<R, E>, result: Option<R>, err: Option<E>) {
    match outcome
    case Ok(r) => result == Some(r) && err == None
    case Fail(e) => result == None && err == Some(e)
    case Panic(_) => result == None && err == None
  }

  /** An item with this outcome may put this error on the pool's list. */
  predicate CausedBy<R, E(==)>(outcome: Outcome<R, E>, err: E) {
    outcome.Panic? || outcome == Fail(err)
  }

  /** Task i in an uncancelled call. */
  ghost predicate TaskExact<T, R, E>(j: Job<T, R, E>, s: State<R, E>, i: nat)
    requires Known(j, s) && i < |j.items|
  {
    match s.place[i]
    case With(w) =>
      s.workers[w].Recording? ==>
        CausedBy(j.fn(j.items[i]), s.workers[w].err) && Holds(j.fn(j.items[i]), None, s.errs[i])
    case Finished => Holds(j.fn(j.items[i]), s.results[i], s.errs[i])
    case Rejected => false
    case _ => true
  }

  ghost predicate Exact<T, R, E>(j: Job<T, R, E>, s: State<R, E>) {
    && Known(j, s) && !s.cancelled
    && (forall i :: 0 <= i < |j.items| ==> TaskExact(j, s, i))
    && (forall k :: 0 <= k < |s.poolErrs| ==> PoolErrorExact(j, s, s.poolErrs[k]))
    && (forall w :: 0 <= w < |s.workers| && s.workers[w] == Exited ==> s.closed && s.queue == [])
  }

  /** A pool error stems from a finished task that failed with it or panicked. */
  ghost predicate PoolErrorExact<T, R, E>(j: Job<T, R, E>, s: State<R, E>, p: PoolError<E>)
    requires Sized(j, s)
  {
    p.task < |j.items| && s.place[p.task] == Finished && CausedBy(j.fn(j.items[p.task]), p.err)
  }

  lemma TaskExactOutside<T, R, E>(j: Job<T, R, E>, s: State<R, E>, step: Step<R, E>, t: State<R, E>, i: nat)
    requires Known(j, s) && !s.cancelled
    requires Enabled(j, s, step) && t == Apply(j, s, step) && Known(j, t)
    requires !(step.Succeed? || step.FailWith? || step.PanicWith? || step.Record?)
    requires i < |j.items| && TaskExact(j, s, i)
    ensures TaskExact(j, t, i)
  {
    hide Tagged;
    assert TaskKnown(j, s, i);
  }

  lemma TaskExactInside<T, R, E>(j: Job<T, R, E>, s: State<R, E>, step: Step<R, E>, t: State<R, E>, i: nat)
    requires Known(j, s) && !s.cancelled
    requires Enabled(j, s, step) && t == Apply(j, s, step) && Known(j, t)
    requires step.Succeed? || step.FailWith? || step.PanicWith? || step.Record?
    requires i < |j.items| && TaskExact(j, s, i)
    ensures TaskExact(j, t, i)
  {
    hide Tagged;
    assert TaskKnown(j, s, i);
  }

  lemma TaskExactStep<T, R, E>(j: Job<T, R, E>, s: State<R, E>, step: Step<R, E>, t: State<R, E>, i: nat)
    requires Known(j, s) && !s.cancelled
    requires Enabled(j, s, step) && t == Apply(j, s, step) && Known(j, t)
    requires i < |j.items| && TaskExact(j, s, i)
    ensures TaskExact(j, t, i)
  {
    hide TaskExact, Known, Enabled, Apply;
    if step.Succeed? || step.FailWith? || step.PanicWith? || step.Record? {
      TaskExactInside(j, s, step, t, i);
    } else {
      TaskExactOutside(j, s, step, t, i);
    }
  }

  lemma ExactStep<T, R, E>(j: Job<T, R, E>, s: State<R, E>, step: Step<R, E>)
    requires Exact(j, s) && Enabled(j, s, step) && !step.Cancel?
    ensures Exact(j, Apply(j, s, step))
  {
    var t := Apply(j, s, step);
    KnownStep(j, s, step);
    forall i | 0 <= i < |j.items| ensures TaskExact(j, t, i) {
      TaskExactStep(j, s, step, t, i);
    }
    forall k | 0 <= k < |t.poolErrs| ensures PoolErrorExact(j, t, t.poolErrs[k]) {
      if k < |s.poolErrs| {
        assert PoolErrorExact(j, s, s.poolErrs[k]);
      } else {
        assert TaskExact(j, s, s.workers[step.w].task);
      }
    }
  }

  lemma {:induction false} ExactExec<T, R, E>(j: Job<T, R, E>, s: State<R, E>, schedule: seq<Step<R, E>>)
    requires Exact(j, s) && Legal(j, s, schedule) && Cancel !in schedule
    ensures Exact(j, Exec(j, s, schedule))
    decreases |schedule|
  {
    if schedule != [] {
      ExactStep(j, s, schedule[0]);
      ExactExec(j, Apply(j, s, schedule[0]), schedule[1..]);
    }
  }

  /** Slices that hold each item's outcome are what the sequential map computes. */
  lemma {:induction false} SlicesAreSequential<T, R, E>(items: seq<T>, fn: T -> Outcome<R, E>, results: seq<Option<R>>, errs: seq<Option<E>>)
    requires |results| == |errs| == |items|
    requires forall i :: 0 <= i < |items| ==> Holds(fn(items[i]), results[i], errs[i])
    ensures SequentialMap(items, fn).0 == results
    ensures (forall i :: 0 <= i < |items| ==> !fn(items[i]).Panic?) ==> SequentialMap(items, fn).1 == Present(errs)
  {
    if items != [] {
      var n := |items| - 1;
      SlicesAreSequential(items[..n], fn, results[..n], errs[..n]);
      assert results == results[..n] + [results[n]];
    }
  }

  lemma {:induction false} RecordedMentions<E>(errs: seq<Option<E>>, i: nat)
    requires i < |errs| && errs[i].Some?
    ensures errs[i].value in Present(errs)
  {
    if i < |errs| - 1 {
      RecordedMentions(errs[..|errs| - 1], i);
    }
  }

  lemma {:induction false} MergeAddsNothing<E>(collected: seq<E>, poolErrs: seq<E>, text: E -> string)
    requires forall k :: 0 <= k < |poolErrs| ==> poolErrs[k] in collected
    ensures Merged(collected, poolErrs, text) == collected
    decreases |poolErrs|
  {
    if poolErrs != [] {
      assert SameError(poolErrs[0], poolErrs[0], text);
      MergeAddsNothing(collected, poolErrs[1..], text);
    }
  }

  /** Every interleaving of an uncancelled call finishes every task, and the result slice is the
      sequential one even when some closures panic. */
  lemma UncancelledCallFinishesEveryTask<T, R, E>(j: Job<T, R, E>, schedule: seq<Step<R, E>>, s: State<R, E>)
    requires Cancel !in schedule
    requires Reaches(j, schedule, s) && Closed(s)
    ensures Exact(j, s) && s.queue == []
    ensures forall i :: 0 <= i < |j.items| ==> s.place[i] == Finished && Holds(j.fn(j.items[i]), s.results[i], s.errs[i])
    ensures s.results == SequentialMap(j.items, j.fn).0
  {
    ExactExec(j, Init(j), schedule);
    assert s.workers[0] == Exited;
    forall i | 0 <= i < |j.items|
      ensures s.place[i] == Finished && Holds(j.fn(j.items[i]), s.results[i], s.errs[i])
    {
      assert TaskKnown(j, s, i) && TaskExact(j, s, i);
    }
    SlicesAreSequential(j.items, j.fn, s.results, s.errs);
  }

  /** Every interleaving of an undisturbed call, with no cancellation and no panicking item, returns
      exactly what the sequential left-to-right map returns, errors in index order included. */
  lemma ParallelMapRefinesSequentialMap<T, R, E>(j: Job<T, R, E>, schedule: seq<Step<R, E>>, s: State<R, E>, text: E -> string)
    requires PanicFree(j) && Cancel !in schedule
    requires Reaches(j, schedule, s) && Closed(s)
    ensures Outputs(s, text) == SequentialMap(j.items, j.fn)
  {
    UncancelledCallFinishesEveryTask(j, schedule, s);
    SlicesAreSequential(j.items, j.fn, s.results, s.errs);
    forall k | 0 <= k < |s.poolErrs| ensures Causes(s.poolErrs)[k] in Present(s.errs) {
      assert PoolErrorExact(j, s, s.poolErrs[k]);
      RecordedMentions(s.errs, s.poolErrs[k].task);
    }
    MergeAddsNothing(Present(s.errs), Causes(s.poolErrs), text);
  }

  // ---------------------------------------------------------------- accounts with panics

  /** The entries that stem from a panic. */
  function Panics<T, R, E>(j: Job<T, R, E>, poolErrs: seq<PoolError<E>>): seq<PoolError<E>>
    requires forall k :: 0 <= k < |poolErrs| ==> poolErrs[k].task < |j.items|
  {
    if poolErrs == [] then []
    else
      var rest := Panics(j, poolErrs[1..]);
      if j.fn(j.items[poolErrs[0].task]).Panic? then [poolErrs[0]] + rest else rest
  }

  lemma {:induction false} PanicsMembers<T, R, E>(j: Job<T, R, E>, poolErrs: seq<PoolError<E>>)
    requires forall k :: 0 <= k < |poolErrs| ==> poolErrs[k].task < |j.items|
    ensures var panics := Panics(j, poolErrs);
            && (forall k :: 0 <= k < |panics| ==>
                  panics[k] in poolErrs && panics[k].task < |j.items| && j.fn(j.items[panics[k].task]).Panic?)
            && (forall k :: 0 <= k < |poolErrs| && j.fn(j.items[poolErrs[k].task]).Panic? ==> poolErrs[k] in panics)
  {
    if poolErrs != [] {
      var rest, panics := poolErrs[1..], Panics(j, poolErrs);
      PanicsMembers(j, rest);
      assert poolErrs == [poolErrs[0]] + rest;
      forall k | 0 <= k < |panics|
        ensures panics[k] in poolErrs && panics[k].task < |j.items| && j.fn(j.items[panics[k].task]).Panic?
      {
        var first := if panics == Panics(j, rest) then 0 else 1;
        if k >= first {
          assert panics[k] == Panics(j, rest)[k - first];
          assert panics[k] in rest;
        }
      }
    }
  }

  /** No two entries have the same task. */
  ghost predicate OnePerTask<E>(poolErrs: seq<PoolError<E>>) {
    forall k, l :: 0 <= k < l < |poolErrs| ==> poolErrs[k].task != poolErrs[l].task
  }

  lemma {:induction false} PanicsOnePerTask<T, R, E>(j: Job<T, R, E>, poolErrs: seq<PoolError<E>>)
    requires forall k :: 0 <= k < |poolErrs| ==> poolErrs[k].task < |j.items|
    requires OnePerTask(poolErrs)
    ensures OnePerTask(Panics(j, poolErrs))
  {
    if poolErrs != [] {
      var rest := poolErrs[1..];
      PanicsOnePerTask(j, rest);
      PanicsMembers(j, rest);
      forall k | 0 <= k < |Panics(j, rest)| ensures Panics(j, rest)[k].task != poolErrs[0].task {
        var i :| 0 <= i < |rest| && rest[i] == Panics(j, rest)[k];
        assert poolErrs[i + 1] == rest[i];
      }
    }
  }

  /** Errors the list already mentions do not matter to the merge. */
  lemma {:induction false} MergeOnlyPanics<T, R, E>(j: Job<T, R, E>, collected: seq<E>, poolErrs: seq<PoolError<E>>, text: E -> string)
    requires forall k :: 0 <= k < |poolErrs| ==> poolErrs[k].task < |j.items|
    requires forall k :: 0 <= k < |poolErrs| && !j.fn(j.items[poolErrs[k].task]).Panic? ==> poolErrs[k].err in collected
    ensures Merged(collected, Causes(poolErrs), text) == Merged(collected, Causes(Panics(j, poolErrs)), text)
    decreases |poolErrs|
  {
    if poolErrs != [] {
      var rest := poolErrs[1..];
      assert Causes(poolErrs)[1..] == Causes(rest);
      var e := poolErrs[0].err;
      if j.fn(j.items[poolErrs[0].task]).Panic? {
        var grown := if Mentioned(collected, e, text) then collected else collected + [e];
        MergeOnlyPanics(j, grown, rest, text);
        assert Causes(Panics(j, poolErrs)) == [e] + Causes(Panics(j, rest));
      } else {
        var k :| 0 <= k < |collected| && collected[k] == e;
        assert SameError(collected[k], e, text);
        MergeOnlyPanics(j, collected, rest, text);
      }
    }
  }

  /** The merge of an error list loses nothing of it. */
  ghost predicate AllNew<E>(collected: seq<E>, es: seq<E>, text: E -> string) {
    && (forall k :: 0 <= k < |es| ==> !Mentioned(collected, es[k], text))
    && (forall k, l :: 0 <= k < l < |es| ==> !SameError(es[k], es[l], text))
  }

  lemma {:induction false} MergeKeepsAll<E>(collected: seq<E>, es: seq<E>, text: E -> string)
    ensures |Merged(collected, es, text)| <= |collected| + |es|
    ensures |Merged(collected, es, text)| == |collected| + |es| <==> AllNew(collected, es, text)
    decreases |es|
  {
    if es != [] {
      var rest := es[1..];
      if Mentioned(collected, es[0], text) {
        MergeKeepsAll(collected, rest, text);
      } else {
        MergeKeepsAll(collected + [es[0]], rest, text);
        MentionedGrows(collected, es[0], text);
        AllNewStep(collected, es, text);
      }
    }
  }

  lemma MentionedGrows<E>(collected: seq<E>, e: E, text: E -> string)
    ensures forall f :: Mentioned(collected + [e], f, text) <==> Mentioned(collected, f, text) || SameError(e, f, text)
  {
    forall f
      ensures Mentioned(collected + [e], f, text) <==> Mentioned(collected, f, text) || SameError(e, f, text)
    {
      var grown := collected + [e];
      assert grown[|collected|] == e;
      if Mentioned(collected, f, text) {
        var k :| 0 <= k < |collected| && SameError(collected[k], f, text);
        assert grown[k] == collected[k];
      }
    }
  }

  lemma AllNewStep<E>(collected: seq<E>, es: seq<E>, text: E -> string)
    requires es != [] && !Mentioned(collected, es[0], text)
    ensures AllNew(collected, es, text) <==> AllNew(collected + [es[0]], es[1..], text)
  {
    hide Mentioned, SameError;
    MentionedGrows(collected, es[0], text);
    var rest := es[1..];
    assert forall k :: 0 <= k < |rest| ==> rest[k] == es[k + 1];
    if AllNew(collected + [es[0]], rest, text) {
      forall k | 0 <= k < |es| ensures !Mentioned(collected, es[k], text) {
        if k > 0 { assert !Mentioned(collected + [es[0]], rest[k - 1], text); }
      }
      forall k, l | 0 <= k < l < |es| ensures !SameError(es[k], es[l], text) {
        assert !Mentioned(collected + [es[0]], rest[l - 1], text);
        if k > 0 { assert !SameError(rest[k - 1], rest[l - 1], text); }
      }
    }
  }

  /** The indices that hold neither a result nor an error. */
  ghost function Missing<R, E>(results: seq<Option<R>>, errs: seq<Option<E>>): set<nat>
    requires |results| == |errs|
  {
    set i: nat | i < |results| && results[i].None? && errs[i].None?
  }

  lemma {:induction false} SlicesAddUp<R, E>(results: seq<Option<R>>, errs: seq<Option<E>>)
    requires |results| == |errs| && forall i :: 0 <= i < |results| ==> results[i].None? || errs[i].None?
    ensures |Present(results)| + |Present(errs)| + |Missing(results, errs)| == |results|
  {
    if results != [] {
      hide Missing;
      var n := |results| - 1;
      SlicesAddUp(results[..n], errs[..n]);
      MissingLast(results, errs);
    }
  }

  lemma MissingLast<R, E>(results: seq<Option<R>>, errs: seq<Option<E>>)
    requires |results| == |errs| && results != []
    ensures var n := |results| - 1;
            |Missing(results, errs)| == |Missing(results[..n], errs[..n])| + if results[n].None? && errs[n].None? then 1 else 0
  {
    var n := |results| - 1;
    var before := Missing(results[..n], errs[..n]);
    assert Missing(results, errs) == if results[n].None? && errs[n].None? then before + {n} else before;
  }

  /** No recorded panic prints like another recorded panic or like a returned error. */
  ghost predicate PanicsTellApart<T, R, E>(j: Job<T, R, E>, poolErrs: seq<PoolError<E>>, text: E -> string) {
    forall k, l :: 0 <= k < |poolErrs| && 0 <= l < |poolErrs| && k != l && FromPanic(j, poolErrs[k]) ==>
      text(poolErrs[k].err) != text(poolErrs[l].err)
  }

  predicate FromPanic<T, R, E>(j: Job<T, R, E>, p: PoolError<E>) {
    p.task < |j.items| && j.fn(j.items[p.task]).Panic?
  }

  lemma {:induction false} PresentMember<E>(errs: seq<Option<E>>, k: nat) returns (i: nat)
    requires k < |Present(errs)|
    ensures i < |errs| && errs[i] == Some(Present(errs)[k])
  {
    var init := errs[..|errs| - 1];
    if k < |Present(init)| {
      i := PresentMember(init, k);
    } else {
      i := |errs| - 1;
    }
  }

  /** Without cancellation every item leaves exactly one result or error -- the accounts add up -- if
      and only if the recorded panics print differently from each other and from every returned error,
      for an error the merge already finds mentioned is dropped. */
  lemma AccountsAddUpExactly<T, R, E>(j: Job<T, R, E>, schedule: seq<Step<R, E>>, s: State<R, E>, text: E -> string)
    requires Cancel !in schedule
    requires Reaches(j, schedule, s) && Closed(s)
    ensures |Present(Outputs(s, text).0)| + |Outputs(s, text).1| <= |j.items|
    ensures |Present(Outputs(s, text).0)| + |Outputs(s, text).1| == |j.items| <==> PanicsTellApart(j, s.poolErrs, text)
  {
    hide Merged, Present, Panics, Exact, AllNew;
    UncancelledCallFinishesEveryTask(j, schedule, s);
    PoolErrorsExactly(j, schedule, s);
    SlicesAddUp(s.results, s.errs);
    var collected, panics := Present(s.errs), Panics(j, s.poolErrs);
    assert forall k :: 0 <= k < |s.poolErrs| ==> HasCause(j, s, s.poolErrs[k]);
    MergeOnlyPanics(j, collected, s.poolErrs, text);
    MergeKeepsAll(collected, Causes(panics), text);
    PanicsAreMissing(j, s);
    AllNewExactly(j, s, text);
  }

  /** Each item that failed or panicked has its error in the pool's list, once, and no other has. */
  ghost predicate PoolErrorsComplete<T, R, E>(j: Job<T, R, E>, s: State<R, E>) {
    && |s.results| == |s.errs| == |j.items|
    && (forall i :: 0 <= i < |j.items| ==> Holds(j.fn(j.items[i]), s.results[i], s.errs[i]))
    && OnePerTask(s.poolErrs)
    && (forall k :: 0 <= k < |s.poolErrs| ==> HasCause(j, s, s.poolErrs[k]))
    && (forall i: nat :: i < |j.items| && !j.fn(j.items[i]).Ok? ==> Tagged(s.poolErrs, i))
  }

  ghost predicate HasCause<T, R, E>(j: Job<T, R, E>, s: State<R, E>, p: PoolError<E>) {
    && p.task < |j.items| && CausedBy(j.fn(j.items[p.task]), p.err)
    && (j.fn(j.items[p.task]).Fail? ==> p.err in Present(s.errs))
  }

  lemma PoolErrorsExactly<T, R, E>(j: Job<T, R, E>, schedule: seq<Step<R, E>>, s: State<R, E>)
    requires Cancel !in schedule
    requires Reaches(j, schedule, s) && Closed(s)
    ensures PoolErrorsComplete(j, s)
  {
    hide Exact, Closed, HasCause, Present, Tagged;
    UncancelledCallFinishesEveryTask(j, schedule, s);
    ReachableReported(j, schedule, s);
    forall k | 0 <= k < |s.poolErrs| ensures HasCause(j, s, s.poolErrs[k]) {
      PoolErrorHasCause(j, s, k);
    }
    forall i: nat | i < |j.items| && !j.fn(j.items[i]).Ok? ensures Tagged(s.poolErrs, i) {
      FailureIsTagged(j, schedule, s, i);
    }
  }

  lemma FailureIsTagged<T, R, E>(j: Job<T, R, E>, schedule: seq<Step<R, E>>, s: State<R, E>, i: nat)
    requires Reaches(j, schedule, s) && i < |j.items| && |s.results| == |s.errs| == |s.place| == |j.items|
    requires s.place[i] == Finished && Holds(j.fn(j.items[i]), s.results[i], s.errs[i]) && !j.fn(j.items[i]).Ok?
    ensures Tagged(s.poolErrs, i)
  {
    hide Reaches, Tagged;
    ReachableKnown(j, schedule, s);
    assert TaskKnown(j, s, i);
  }

  lemma PoolErrorHasCause<T, R, E>(j: Job<T, R, E>, s: State<R, E>, k: nat)
    requires Exact(j, s) && k < |s.poolErrs|
    requires forall i :: 0 <= i < |j.items| ==> Holds(j.fn(j.items[i]), s.results[i], s.errs[i])
    ensures HasCause(j, s, s.poolErrs[k])
  {
    var p := s.poolErrs[k];
    assert PoolErrorExact(j, s, p);
    if j.fn(j.items[p.task]).Fail? {
      RecordedMentions(s.errs, p.task);
    }
  }

  /** The panics listed are as many as the items that left nothing in the slices. */
  lemma PanicsAreMissing<T, R, E>(j: Job<T, R, E>, s: State<R, E>)
    requires PoolErrorsComplete(j, s)
    ensures |Panics(j, s.poolErrs)| == |Missing(s.results, s.errs)|
  {
    hide Present, Panics;
    var panics := Panics(j, s.poolErrs);
    PanicsOnePerTask(j, s.poolErrs);
    var tasks := seq(|panics|, k requires 0 <= k < |panics| => panics[k].task);
    NoDupCardinality(tasks);
    forall i: nat ensures i in Elements(tasks) <==> i in Missing(s.results, s.errs) {
      if i in Elements(tasks) {
        var k :| 0 <= k < |tasks| && tasks[k] == i;
        PanicIsMissing(j, s, k);
      }
      if i in Missing(s.results, s.errs) {
        assert Holds(j.fn(j.items[i]), s.results[i], s.errs[i]);
        assert Tagged(s.poolErrs, i);
        var n :| 0 <= n < |s.poolErrs| && s.poolErrs[n].task == i;
        var k := PanicAt(j, s, n);
        assert tasks[k] == i;
      }
    }
    assert Elements(tasks) == Missing(s.results, s.errs);
  }

  lemma PanicIsMissing<T, R, E>(j: Job<T, R, E>, s: State<R, E>, k: nat)
    requires PoolErrorsComplete(j, s) && k < |Panics(j, s.poolErrs)|
    ensures Panics(j, s.poolErrs)[k].task in Missing(s.results, s.errs)
    ensures FromPanic(j, Panics(j, s.poolErrs)[k])
  {
    hide Present, Panics;
    PanicsMembers(j, s.poolErrs);
    var i :| 0 <= i < |s.poolErrs| && s.poolErrs[i] == Panics(j, s.poolErrs)[k];
    assert HasCause(j, s, s.poolErrs[i]);
    assert Holds(j.fn(j.items[s.poolErrs[i].task]), s.results[s.poolErrs[i].task], s.errs[s.poolErrs[i].task]);
  }

  lemma AllNewExactly<T, R, E>(j: Job<T, R, E>, s: State<R, E>, text: E -> string)
    requires PoolErrorsComplete(j, s)
    ensures AllNew(Present(s.errs), Causes(Panics(j, s.poolErrs)), text) <==> PanicsTellApart(j, s.poolErrs, text)
  {
    hide Present, Panics, Missing, Mentioned;
    var collected, panics := Present(s.errs), Panics(j, s.poolErrs);
    var es := Causes(panics);
    PanicsOnePerTask(j, s.poolErrs);
    if PanicsTellApart(j, s.poolErrs, text) {
      forall k | 0 <= k < |es| ensures !Mentioned(collected, es[k], text) {
        var a := PanicSource(j, s, k);
        NotMentioned(j, s, text, a);
      }
      forall k, l | 0 <= k < l < |es| ensures !SameError(es[k], es[l], text) {
        var a := PanicSource(j, s, k);
        var b := PanicSource(j, s, l);
        assert a != b;
      }
    }
    if AllNew(collected, es, text) {
      forall k, l | 0 <= k < |s.poolErrs| && 0 <= l < |s.poolErrs| && k != l && FromPanic(j, s.poolErrs[k])
        ensures text(s.poolErrs[k].err) != text(s.poolErrs[l].err)
      {
        NewTellsApart(j, s, text, k, l);
      }
    }
  }

  lemma NewTellsApart<T, R, E>(j: Job<T, R, E>, s: State<R, E>, text: E -> string, k: nat, l: nat)
    requires PoolErrorsComplete(j, s) && AllNew(Present(s.errs), Causes(Panics(j, s.poolErrs)), text)
    requires k < |s.poolErrs| && l < |s.poolErrs| && k != l && FromPanic(j, s.poolErrs[k])
    ensures text(s.poolErrs[k].err) != text(s.poolErrs[l].err)
  {
    hide Present, Panics, Missing, Mentioned;
    var collected, es := Present(s.errs), Causes(Panics(j, s.poolErrs));
    var a := PanicAt(j, s, k);
    assert HasCause(j, s, s.poolErrs[l]);
    if FromPanic(j, s.poolErrs[l]) {
      var b := PanicAt(j, s, l);
      assert a != b;
      assert !SameError(es[a], es[b], text) || !SameError(es[b], es[a], text);
    } else {
      var c :| 0 <= c < |collected| && collected[c] == s.poolErrs[l].err;
      NotMentionedDiffers(collected, es[a], text, c);
    }
  }

  lemma NotMentionedDiffers<E>(collected: seq<E>, e: E, text: E -> string, c: nat)
    requires !Mentioned(collected, e, text) && c < |collected|
    ensures !SameError(collected[c], e, text)
  {
  }

  /** A panic that tells apart is not mentioned among the returned errors. */
  lemma NotMentioned<T, R, E>(j: Job<T, R, E>, s: State<R, E>, text: E -> string, k: nat)
    requires PoolErrorsComplete(j, s) && PanicsTellApart(j, s.poolErrs, text)
    requires k < |s.poolErrs| && FromPanic(j, s.poolErrs[k])
    ensures !Mentioned(Present(s.errs), s.poolErrs[k].err, text)
  {
    hide Present;
    var collected, e := Present(s.errs), s.poolErrs[k].err;
    forall c | 0 <= c < |collected| ensures !SameError(collected[c], e, text) {
      var i := PresentMember(s.errs, c);
      assert Holds(j.fn(j.items[i]), s.results[i], s.errs[i]);
      var l :| 0 <= l < |s.poolErrs| && s.poolErrs[l].task == i;
      assert HasCause(j, s, s.poolErrs[l]);
    }
  }

  /** Where a recorded panic stands among the panics. */
  lemma PanicAt<T, R, E>(j: Job<T, R, E>, s: State<R, E>, n: nat) returns (k: nat)
    requires PoolErrorsComplete(j, s) && n < |s.poolErrs| && FromPanic(j, s.poolErrs[n])
    ensures k < |Panics(j, s.poolErrs)| && Panics(j, s.poolErrs)[k] == s.poolErrs[n]
  {
    hide Present, Panics;
    PanicsMembers(j, s.poolErrs);
    k :| k < |Panics(j, s.poolErrs)| && Panics(j, s.poolErrs)[k] == s.poolErrs[n];
  }

  /** Where a panic was recorded. */
  lemma PanicSource<T, R, E>(j: Job<T, R, E>, s: State<R, E>, k: nat) returns (n: nat)
    requires PoolErrorsComplete(j, s) && k < |Panics(j, s.poolErrs)|
    ensures n < |s.poolErrs| && s.poolErrs[n] == Panics(j, s.poolErrs)[k] && FromPanic(j, s.poolErrs[n])
  {
    hide Present, Panics;
    PanicsMembers(j, s.poolErrs);
    n :| n < |s.poolErrs| && s.poolErrs[n] == Panics(j, s.poolErrs)[k];
  }

  lemma {:induction false} MergedIsEmpty<E>(collected: seq<E>, es: seq<E>, text: E -> string)
    ensures Merged(collected, es, text) == [] <==> collected == [] && es == []
    decreases |es|
  {
    if es != [] {
      MergedIsEmpty(if Mentioned(collected, es[0], text) then collected else collected + [es[0]], es[1..], text);
    }
  }

  lemma {:induction false} NoErrorInSequence<T, R, E>(items: seq<T>, fn: T -> Outcome<R, E>)
    ensures SequentialMap(items, fn).1 == [] <==> forall i :: 0 <= i < |items| ==> fn(items[i]).Ok?
  {
    if items != [] {
      NoErrorInSequence(items[..|items| - 1], fn);
      assert forall i :: 0 <= i < |items| - 1 ==> items[..|items| - 1][i] == items[i];
    }
  }

  /** Even with panics an uncancelled call reports no error exactly when the sequential map has none. */
  lemma ErrorsAreReported<T, R, E>(j: Job<T, R, E>, schedule: seq<Step<R, E>>, s: State<R, E>, text: E -> string)
    requires Cancel !in schedule
    requires Reaches(j, schedule, s) && Closed(s)
    ensures Outputs(s, text).0 == SequentialMap(j.items, j.fn).0
    ensures Outputs(s, text).1 == [] <==> SequentialMap(j.items, j.fn).1 == []
  {
    hide Merged, Exact, SequentialMap, Present;
    UncancelledCallFinishesEveryTask(j, schedule, s);
    PoolErrorsExactly(j, schedule, s);
    MergedIsEmpty(Present(s.errs), Causes(s.poolErrs), text);
    NoErrorInSequence(j.items, j.fn);
    if forall i :: 0 <= i < |j.items| ==> j.fn(j.items[i]).Ok? {
      forall i | 0 <= i < |s.errs| ensures s.errs[i].None? {
        assert Holds(j.fn(j.items[i]), s.results[i], s.errs[i]);
      }
      NothingRecorded(s.errs);
      assert s.poolErrs != [] ==> HasCause(j, s, s.poolErrs[0]);
    } else {
      var i: nat :| i < |j.items| && !j.fn(j.items[i]).Ok?;
      assert Tagged(s.poolErrs, i);
    }
  }

  /** In particular a run whose pool lists two panics that print the same never adds up. */
  lemma EqualPanicsAreListedOnce<T, R, E>(j: Job<T, R, E>, schedule: seq<Step<R, E>>, s: State<R, E>, text: E -> string, a: nat, b: nat)
    requires Cancel !in schedule
    requires Reaches(j, schedule, s) && Closed(s)
    requires a < b < |s.poolErrs| && FromPanic(j, s.poolErrs[a]) && FromPanic(j, s.poolErrs[b])
    requires text(s.poolErrs[a].err) == text(s.poolErrs[b].err)
    ensures |Present(Outputs(s, text).0)| + |Outputs(s, text).1| < |j.items|
  {
    hide Reaches, Closed, Outputs, Present;
    AccountsAddUpExactly(j, schedule, s, text);
    assert !PanicsTellApart(j, s.poolErrs, text);
  }

  // ---------------------------------------------------------------- every call terminates

  function SlotWeight<E>(slot: Slot<E>): nat {
    match slot
    case Exited => 0
    case Idle => 1
    case Recording(_, _) => 2
    case Running(_) => 3
    case Holding(_) => 4
  }

  function Weight<E>(workers: seq<Slot<E>>): nat {
    if workers == [] then 0 else SlotWeight(workers[0]) + Weight(workers[1..])
  }

  lemma {:induction false} WeightUpdate<E>(workers: seq<Slot<E>>, w: nat, slot: Slot<E>)
    requires w < |workers|
    ensures Weight(workers[w := slot]) + SlotWeight(workers[w]) == Weight(workers) + SlotWeight(slot)
  {
    if w > 0 {
      WeightUpdate(workers[1..], w - 1, slot);
      assert workers[w := slot][1..] == workers[1..][w - 1 := slot];
    } else {
      assert workers[w := slot][1..] == workers[1..];
    }
  }

  /** How many steps a call can still take. */
  function Remaining<T, R, E>(j: Job<T, R, E>, s: State<R, E>): nat
    requires Sized(j, s)
  {
    5 * (|j.items| - s.submitted) + 4 * |s.queue| + Weight(s.workers)
    + (if s.closed then 0 else 1) + (if s.cancelled then 0 else 1)
  }

  lemma StepUsesUp<T, R, E>(j: Job<T, R, E>, s: State<R, E>, step: Step<R, E>)
    requires Sized(j, s) && Enabled(j, s, step)
    ensures Remaining(j, Apply(j, s, step)) < Remaining(j, s)
  {
    hide Weight, Yields;
    match step {
      case Submit =>
      case Reject =>
      case CloseQueue =>
      case Cancel =>
      case _ => WorkerUsesUp(j, s, step, step.w);
    }
  }

  /** A worker's step leaves less in its slot, or as much less in the channel. */
  lemma WorkerUsesUp<T, R, E>(j: Job<T, R, E>, s: State<R, E>, step: Step<R, E>, w: nat)
    requires Sized(j, s) && Enabled(j, s, step)
    requires !step.Submit? && !step.Reject? && !step.CloseQueue? && !step.Cancel? && w == step.w
    ensures Remaining(j, Apply(j, s, step)) < Remaining(j, s)
  {
    hide Weight, Yields;
    var t := Apply(j, s, step);
    WeightUpdate(s.workers, w, t.workers[w]);
    assert t.workers == s.workers[w := t.workers[w]];
    assert SlotWeight(t.workers[w]) + 4 * |t.queue| < SlotWeight(s.workers[w]) + 4 * |s.queue|;
  }

  /** No interleaving runs forever. */
  lemma {:induction false} SchedulesAreBounded<T, R, E>(j: Job<T, R, E>, s: State<R, E>, schedule: seq<Step<R, E>>)
    requires Sized(j, s) && Legal(j, s, schedule)
    ensures |schedule| <= Remaining(j, s)
    decreases |schedule|
  {
    if schedule != [] {
      StepUsesUp(j, s, schedule[0]);
      SchedulesAreBounded(j, Apply(j, s, schedule[0]), schedule[1..]);
    }
  }

  /** And none gets stuck: in a reachable state in which Close has not returned the pool itself can
      take a step, without any help from a cancellation. */
  lemma CloseReturns<T, R, E>(j: Job<T, R, E>, schedule: seq<Step<R, E>>, s: State<R, E>)
    requires Reaches(j, schedule, s) && !Closed(s)
    ensures Sized(j, s) && exists step: Step<R, E> :: !step.Cancel? && Enabled(j, s, step)
  {
    ReachableKnown(j, schedule, s);
    if s.submitted < |j.items| {
      SubmitNeverBlocks(j, schedule, s);
    } else if !s.closed {
      assert Enabled(j, s, CloseQueue);
    } else {
      var w: nat :| w < |s.workers| && s.workers[w] != Exited;
      match s.workers[w] {
        case Idle => assert Enabled(j, s, if s.queue == [] then ExitClosed(w) else Take(w));
        case Holding(_) => assert Enabled(j, s, if s.cancelled then Abandon(w) else Start(w));
        case Running(i) =>
          match j.fn(j.items[i]) {
            case Ok(r) => assert Enabled(j, s, Succeed(w, r));
            case Fail(e) => assert Enabled(j, s, FailWith(w, e));
            case Panic(e) => assert Enabled(j, s, PanicWith(w, e));
          }
        case Recording(_, _) => assert Enabled(j, s, Record(w));
      }
    }
  }
}
