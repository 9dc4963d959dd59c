/**
 * The admission-controlled queue (src/ActionQueue.js) as a sequential state machine.
 *
 * The queue owns an ordered list of tasks and a concurrency cap. Every
 * publication of the list runs the admission check (the subscriber at
 * lines 17-23), which here is the explicit call `FillSlots` at the end of
 * each mutation. Awaiting the work function (line 81) is split into the
 * admission and a later external settle event, `SettleOk` or `SettleErr`.
 */
module ActionQueues {
  import opened Wrappers
  import opened Tasks
  import opened Admission

  datatype QueueError = NotAPositiveNumber

  /** The constructor's guard: the cap must be a number and at least 1. */
  function CheckCap(cap: Value): (r: Result<int, QueueError>)
    ensures r.Success? <==> cap.Number? && cap.n >= 1
    ensures r.Success? ==> r.value == cap.n
  {
    if !cap.Number? || cap.n < 1 then Failure(NotAPositiveNumber) else Success(cap.n)
  }

  /**
   * A work function settled successfully (lines 83-86): the task becomes
   * `done` with its result, the task's observer republishes the list (so the
   * admission check runs), and then the task's stream is completed.
   */
  function AfterSuccess<Q>(ts: seq<Task<Q>>, max: int, id: nat, result: Value): (r: seq<Task<Q>>)
    ensures |r| == |ts|
  {
    match IndexOf(ts, id)
    case None => Filled(ts, max)
    case Some(k) =>
      var us := Filled(ts[k := Succeeded(ts[k], result)], max);
      if us[k].stopped then us else us[k := Completed(us[k])]
  }

  /**
   * A work function failed with reason `err` (lines 87-90), as the source
   * writes it. The log line reads `err.message`, which throws for a nullish
   * reason before anything else runs: the task stays as it was, not
   * stopped. Otherwise `task.error(err)` stops a task not yet stopped and
   * writes nothing into its snapshot, so the raw status stays `active`; the
   * two `removeTask` calls that follow return at once because the task is
   * now stopped, so nothing republishes the list.
   */
  function AfterFailureAsWritten<Q>(ts: seq<Task<Q>>, id: nat, err: Value): (r: seq<Task<Q>>)
    ensures |r| == |ts|
    ensures forall j :: 0 <= j < |ts| ==> r[j].id == ts[j].id && r[j].value == ts[j].value
    ensures forall j :: 0 <= j < |ts| && ts[j].id != id ==> r[j] == ts[j]
    ensures Nullish(err) ==> r == ts
    ensures !Nullish(err) && IndexOf(ts, id).Some? ==> r[IndexOf(ts, id).value].stopped
  {
    if Nullish(err) then ts
    else
      match IndexOf(ts, id)
      case None => ts
      case Some(k) => if ts[k].stopped then ts else ts[k := Completed(ts[k])]
  }

  /** A failure recorded in the snapshot, as status `error` with the error the `status` getter looks for. */
  function RecordFailure<Q>(ts: seq<Task<Q>>, id: nat, err: Value): (r: seq<Task<Q>>)
    ensures |r| == |ts|
    ensures forall j :: 0 <= j < |ts| && ts[j].id != id ==> r[j] == ts[j]
    ensures forall j :: 0 <= j < |ts| && ts[j].stopped ==> r[j] == ts[j]
    ensures forall j :: 0 <= j < |ts| && ts[j].id == id && !ts[j].stopped && IdsIncreasing(ts) ==>
      r[j] == Failed(ts[j], err)
  {
    match IndexOf(ts, id)
    case None => ts
    case Some(k) =>
      assert forall j :: 0 <= j < |ts| && ts[j].id == id && IdsIncreasing(ts) ==> j == k;
      if ts[k].stopped then ts else ts[k := Failed(ts[k], err)]
  }

  /** A work function failed, with the failure recorded and followed by the admission check the freed slot calls for. */
  function AfterFailure<Q>(ts: seq<Task<Q>>, max: int, id: nat, err: Value): (r: seq<Task<Q>>)
    ensures Saturated(r, max)
  {
    Filled(RecordFailure(ts, id, err), max)
  }

  /**
   * `removeTask(task)` on an open queue: a stopped task is left alone;
   * otherwise it and every stopped task are dropped and the list is
   * republished. The task's state is its listed copy when it is listed, and
   * `task` as the caller holds it when it no longer is.
   */
  function AfterRemoval<Q>(ts: seq<Task<Q>>, max: int, task: Task<Q>): (r: seq<Task<Q>>)
    ensures |r| <= |ts|
    ensures StoppedNow(ts, task) ==> r == ts
    ensures !StoppedNow(ts, task) ==> Saturated(r, max) && forall j :: 0 <= j < |r| ==> r[j].id != task.id
  {
    if StoppedNow(ts, task) then ts else Filled(Pruned(ts, task.id), max)
  }

  /** `task.isStopped` for a task whose current state is its listed copy if it is listed, and `task` otherwise. */
  predicate StoppedNow<Q>(ts: seq<Task<Q>>, task: Task<Q>)
  {
    var found := IndexOf(ts, task.id);
    if found.Some? then ts[found.value].stopped else task.stopped
  }

  /** The settled form of an active task after success. */
  function SettledOk<Q>(t: Task<Q>, result: Value): (r: Task<Q>)
    ensures r.stopped && IsDone(r) && r.value.status == Done && r.value.result == Some(result)
    ensures r.id == t.id && r.value.fn == t.value.fn && r.value.args == t.value.args
    ensures t.value.error.None? ==> WellFormed(r) && StatusOf(r) == Done && ToJson(r) == Stopped
  {
    Completed(Succeeded(t, result))
  }

  /**
   * Success frees the task's slot for the earliest waiting task: the list is
   * that of settling the task at once and running the admission check.
   */
  lemma AfterSuccessFreesSlot<Q>(ts: seq<Task<Q>>, max: int, id: nat, result: Value)
    requires Saturated(ts, max)
    requires IndexOf(ts, id).Some? && IsActive(ts[IndexOf(ts, id).value])
    ensures var k := IndexOf(ts, id).value;
      AfterSuccess(ts, max, id, result) == Filled(ts[k := SettledOk(ts[k], result)], max)
      && AfterSuccess(ts, max, id, result)
         == if ActiveCount(ts) > max then ts[k := SettledOk(ts[k], result)]
            else Freed(ts, k, SettledOk(ts[k], result))
  {
    var k := IndexOf(ts, id).value;
    var y := Succeeded(ts[k], result);
    var x := SettledOk(ts[k], result);
    FilledAfterSettle(ts, max, k, y);
    FilledAfterSettle(ts, max, k, x);
    if ActiveCount(ts) <= max {
      FreedRestamp(ts, k, y, x);
    }
  }

  /**
   * Error isolation: with the admission check after a failure, the failed
   * task's slot goes to the earliest waiting task and every other task is
   * left as it was. A list over the cap, which `perform` can produce, only
   * records the failure: the freed slot is not enough to admit anyone.
   */
  lemma AfterFailureFreesSlot<Q>(ts: seq<Task<Q>>, max: int, id: nat, err: Value)
    requires Saturated(ts, max)
    requires IndexOf(ts, id).Some?
    requires IsActive(ts[IndexOf(ts, id).value]) && !ts[IndexOf(ts, id).value].stopped
    ensures var k := IndexOf(ts, id).value;
      AfterFailure(ts, max, id, err)
      == if ActiveCount(ts) > max then ts[k := Failed(ts[k], err)]
         else Freed(ts, k, Failed(ts[k], err))
  {
    var k := IndexOf(ts, id).value;
    FilledAfterSettle(ts, max, k, Failed(ts[k], err));
  }

  /**
   * The failure path as written holds the slot for good: with a cap of 1,
   * one active task and one queued task, the failure of the active one
   * leaves it counted as active, so neither a later publication nor a
   * later `add` admits anyone (in the library, line 19 throws on the
   * errored task instead, with the same outcome). The `status` getter even
   * reports the failed task as `done`.
   */
  lemma FailureAsWrittenLeavesSlotIdle()
    ensures var a := Task(1, Named("a"), Snapshot(Function("a", 0), [], Active, 0, None, None), false);
      var b := Task(2, Named("b"), Snapshot(Function("b", 1), [], New, 0, None, None), false);
      var c := Task(3, Named("c"), Snapshot(Function("c", 2), [], New, 0, None, None), false);
      var r := AfterFailureAsWritten([a, b], 1, Text("failed"));
      && Saturated([a, b], 1)
      && r == [Completed(a), b]
      && ActiveCount(r) == 1 && Pending(r[1])
      && Filled(r, 1) == r
      && Filled(r + [c], 1) == r + [c]
      && StatusOf(r[0]) == Done
  {
    var a := Task(1, Named("a"), Snapshot(Function("a", 0), [], Active, 0, None, None), false);
    var b := Task(2, Named("b"), Snapshot(Function("b", 1), [], New, 0, None, None), false);
    var c := Task(3, Named("c"), Snapshot(Function("c", 2), [], New, 0, None, None), false);
    var r := AfterFailureAsWritten([a, b], 1, Text("failed"));
    assert IndexOf([a, b], 1) == Some(0);
    assert r == [Completed(a), b];
    assert ActiveCount(r) == 1 by {
      assert r[1..] == [b];
    }
    FilledAtRest(r, 1);
    FilledAfterAppend(r, 1, c);
  }

  /** Completing the queue stops every task and keeps every snapshot: each task is done and serializes as "stopped". */
  lemma CompletedAllStopsEveryTask<Q>(ts: seq<Task<Q>>)
    ensures Forward(ts, CompletedAll(ts))
    ensures ActiveCount(CompletedAll(ts)) == ActiveCount(ts)
    ensures forall j :: 0 <= j < |ts| ==>
      && CompletedAll(ts)[j].value == ts[j].value
      && IsDone(CompletedAll(ts)[j])
      && ToJson(CompletedAll(ts)[j]) == Stopped
  {
    if ts != [] {
      CompletedAllStopsEveryTask(ts[1..]);
      assert CompletedAll(ts)[1..] == CompletedAll(ts[1..]);
    }
  }

  /** Replacing one task by a later stage of itself keeps the list consistent and moves it forward. */
  lemma SettleStep<Q>(ts: seq<Task<Q>>, k: nat, x: Task<Q>)
    requires k < |ts| && x.id == ts[k].id && WellFormed(x)
    requires Precedes(ts[k].value.status, x.value.status) && (ts[k].stopped ==> x.stopped)
    ensures IdsIncreasing(ts) ==> IdsIncreasing(ts[k := x])
    ensures AllWellFormed(ts) ==> AllWellFormed(ts[k := x])
    ensures StoppedIffTerminal(ts) && (x.stopped <==> Terminal(x.value.status)) ==> StoppedIffTerminal(ts[k := x])
    ensures Forward(ts, ts[k := x])
  {
    var us := ts[k := x];
    assert forall j :: 0 <= j < |ts| ==> us[j].id == ts[j].id;
  }

  /** The queue's invariant, the cap, and forward progress all survive a successful settlement. */
  lemma AfterSuccessKeepsInvariant<Q>(ts: seq<Task<Q>>, max: int, id: nat, result: Value)
    requires IdsIncreasing(ts) && AllWellFormed(ts) && Saturated(ts, max) && StoppedIffTerminal(ts)
    requires forall k :: 0 <= k < |ts| && ts[k].id == id ==> IsActive(ts[k])
    ensures var r := AfterSuccess(ts, max, id, result);
      && IdsIncreasing(r) && AllWellFormed(r) && Saturated(r, max) && StoppedIffTerminal(r)
      && (ActiveCount(ts) <= max ==> ActiveCount(r) <= max)
      && Forward(ts, r)
  {
    match IndexOf(ts, id)
    case None =>
      FilledAtRest(ts, max);
    case Some(k) =>
      var x := SettledOk(ts[k], result);
      var us := ts[k := x];
      AfterSuccessFreesSlot(ts, max, id, result);
      SettleStep(ts, k, x);
      FilledKeepsConsistency(us, max);
      FilledForward(us, max);
      ForwardTransitive(ts, us, Filled(us, max));
      ActiveCountUpdate(ts, k, x);
      if ActiveCount(ts) <= max {
        FilledWithinCap(us, max);
      }
  }

  /**
   * A failed settlement as the source writes it keeps the list consistent
   * and moving forward, but frees nothing: the active count is unchanged,
   * and republishing a list that was at rest admits nobody.
   */
  lemma AfterFailureAsWrittenHoldsSlot<Q>(ts: seq<Task<Q>>, max: int, id: nat, err: Value)
    requires IdsIncreasing(ts) && AllWellFormed(ts)
    requires forall k :: 0 <= k < |ts| && ts[k].id == id ==> IsActive(ts[k])
    ensures var r := AfterFailureAsWritten(ts, id, err);
      && IdsIncreasing(r) && AllWellFormed(r) && Forward(ts, r)
      && ActiveCount(r) == ActiveCount(ts)
      && (Saturated(ts, max) ==> Filled(r, max) == r)
  {
    if Nullish(err) {
      if Saturated(ts, max) {
        FilledAtRest(ts, max);
      }
      return;
    }
    match IndexOf(ts, id)
    case None =>
      if Saturated(ts, max) {
        FilledAtRest(ts, max);
      }
    case Some(k) =>
      if !ts[k].stopped {
        var r := ts[k := Completed(ts[k])];
        SettleStep(ts, k, Completed(ts[k]));
        ActiveCountUpdate(ts, k, Completed(ts[k]));
        FirstPendingUpdate(ts, k, Completed(ts[k]));
        if Saturated(ts, max) {
          FilledAtRest(r, max);
        }
      } else if Saturated(ts, max) {
        FilledAtRest(ts, max);
      }
  }

  /** Recording a failure keeps the list consistent and moving forward, and never adds an active task. */
  lemma RecordFailureKeepsInvariant<Q>(ts: seq<Task<Q>>, id: nat, err: Value)
    requires IdsIncreasing(ts) && AllWellFormed(ts)
    requires forall k :: 0 <= k < |ts| && ts[k].id == id ==> IsActive(ts[k])
    ensures var r := RecordFailure(ts, id, err);
      && IdsIncreasing(r) && AllWellFormed(r) && Forward(ts, r)
      && ActiveCount(r) <= ActiveCount(ts)
      && (StoppedIffTerminal(ts) ==> StoppedIffTerminal(r))
  {
    match IndexOf(ts, id)
    case None =>
    case Some(k) =>
      if !ts[k].stopped {
        SettleStep(ts, k, Failed(ts[k], err));
        ActiveCountUpdate(ts, k, Failed(ts[k], err));
      }
  }

  /** ... and followed by the admission check. */
  lemma AfterFailureKeepsInvariant<Q>(ts: seq<Task<Q>>, max: int, id: nat, err: Value)
    requires IdsIncreasing(ts) && AllWellFormed(ts)
    requires forall k :: 0 <= k < |ts| && ts[k].id == id ==> IsActive(ts[k])
    ensures var r := AfterFailure(ts, max, id, err);
      && IdsIncreasing(r) && AllWellFormed(r) && Forward(ts, r)
      && (StoppedIffTerminal(ts) ==> StoppedIffTerminal(r))
      && (ActiveCount(ts) <= max ==> ActiveCount(r) <= max)
  {
    var r := RecordFailure(ts, id, err);
    RecordFailureKeepsInvariant(ts, id, err);
    FilledKeepsConsistency(r, max);
    FilledForward(r, max);
    ForwardTransitive(ts, r, Filled(r, max));
    if ActiveCount(ts) <= max {
      FilledWithinCap(r, max);
    }
  }

  /** Appending a fresh task, admitted exactly when the queue is open and a slot is free, keeps the invariant and the cap. */
  lemma AppendKeepsInvariant<Q>(ts: seq<Task<Q>>, max: int, t: Task<Q>, open: bool)
    requires IdsIncreasing(ts) && AllWellFormed(ts)
    requires open ==> Saturated(ts, max) && StoppedIffTerminal(ts)
    requires Pending(t) && t.value.result.None? && t.value.error.None?
    requires forall j :: 0 <= j < |ts| ==> ts[j].id < t.id
    ensures var r := ts + [if open && ActiveCount(ts) < max then Activate(t) else t];
      && IdsIncreasing(r) && AllWellFormed(r)
      && (open ==> Saturated(r, max) && StoppedIffTerminal(r))
      && (ActiveCount(ts) <= max ==> ActiveCount(r) <= max)
  {
    ActiveCountAppend(ts, t);
    ActiveCountAppend(ts, Activate(t));
    if open {
      FilledAfterAppend(ts, max, t);
    }
  }

  /** Admitting a pending task, then republishing on an open queue, keeps the invariant and moves the list forward. */
  lemma ActivatedKeepsInvariant<Q>(ts: seq<Task<Q>>, max: int, i: nat, open: bool)
    requires i < |ts| && Pending(ts[i])
    requires IdsIncreasing(ts) && AllWellFormed(ts) && (open ==> StoppedIffTerminal(ts))
    ensures var r := if open then Filled(Activated(ts, i), max) else Activated(ts, i);
      && IdsIncreasing(r) && AllWellFormed(r)
      && (open ==> Saturated(r, max) && StoppedIffTerminal(r))
      && Forward(ts, r)
  {
    var us := Activated(ts, i);
    SettleStep(ts, i, Activate(ts[i]));
    FilledKeepsConsistency(us, max);
    FilledForward(us, max);
    ForwardTransitive(ts, us, Filled(us, max));
  }

  class ActionQueue {
    const maxConcurrent: int
    var tasks: seq<Task<ActionQueue>>
    var closed: bool

    /** The object invariant: positive cap, ids in submission order, consistent snapshots, and, while open, a list at rest in which a task is stopped exactly when it has settled. */
    ghost predicate Valid()
      reads this
    {
      && maxConcurrent >= 1
      && IdsIncreasing(tasks)
      && AllWellFormed(tasks)
      && (!closed ==> Saturated(tasks, maxConcurrent) && StoppedIffTerminal(tasks))
    }

    /** No more active tasks than the cap. */
    ghost predicate WithinCap()
      reads this
    {
      ActiveCount(tasks) <= maxConcurrent
    }

    /** Every listed id was drawn from `counter`, the process-wide id source. */
    ghost predicate IdsDrawnFrom(counter: IdCounter)
      reads this, counter
    {
      forall k :: 0 <= k < |tasks| ==> tasks[k].id <= counter.last
    }

    /** The work of task `id` is in flight: if the task is listed, its snapshot is active. */
    ghost predicate Running(id: nat)
      reads this
    {
      forall k :: 0 <= k < |tasks| && tasks[k].id == id ==> IsActive(tasks[k])
    }

    constructor (maxConcurrent: int)
      requires maxConcurrent >= 1
      ensures Valid() && WithinCap()
      ensures this.maxConcurrent == maxConcurrent && tasks == [] && !closed
    {
      this.maxConcurrent := maxConcurrent;
      tasks := [];
      closed := false;
    }

    /** `new ActionQueue(maxConcurrent)`: rejects a cap that is not a number of at least 1. */
    static method Create(cap: Value) returns (r: Result<ActionQueue, QueueError>)
      ensures r.Failure? <==> CheckCap(cap).Failure?
      ensures r.Success? ==>
        && fresh(r.value) && r.value.Valid() && r.value.WithinCap()
        && r.value.maxConcurrent == cap.n && r.value.tasks == [] && !r.value.closed
    {
      var checked := CheckCap(cap);
      if checked.Failure? {
        return Failure(checked.error);
      }
      var q := new ActionQueue(checked.value);
      return Success(q);
    }

    /**
     * The admission check run on every publication (lines 18-22): while
     * fewer than `maxConcurrent` snapshots are active, admit the first
     * pending task; each admission republishes and so checks again. A
     * completed queue notifies nobody, so nothing is admitted.
     */
    method FillSlots()
      modifies this
      ensures closed == old(closed)
      ensures tasks == if closed then old(tasks) else Filled(old(tasks), maxConcurrent)
    {
      if closed {
        return;
      }
      while ActiveCount(tasks) < maxConcurrent && FirstPending(tasks).Some?
        invariant closed == old(closed)
        invariant Filled(tasks, maxConcurrent) == Filled(old(tasks), maxConcurrent)
        decreases PendingCount(tasks)
      {
        var k := FirstPending(tasks).value;
        PendingCountUpdate(tasks, k, Activate(tasks[k]));
        tasks := Activated(tasks, k);
      }
      FilledAtRest(tasks, maxConcurrent);
    }

    /**
     * `perform(task)` up to the await (lines 60-80): a missing task, a
     * stopped task or a task that is not `new` is left alone; otherwise the
     * task becomes active and the list is republished. A task from another
     * queue is only warned about. `perform` does not look at the cap.
     */
    method Perform(i: int)
      requires Valid()
      modifies this
      ensures Valid() && closed == old(closed)
      ensures !(0 <= i < |old(tasks)| && Pending(old(tasks)[i])) ==> tasks == old(tasks)
      ensures 0 <= i < |old(tasks)| && Pending(old(tasks)[i]) ==>
        tasks == if closed then Activated(old(tasks), i) else Filled(Activated(old(tasks), i), maxConcurrent)
      ensures !closed && old(ActiveCount(tasks)) < maxConcurrent ==> tasks == old(tasks)
      ensures Forward(old(tasks), tasks)
    {
      if !(0 <= i < |tasks|) || tasks[i].stopped || tasks[i].value.status != New {
        return;
      }
      ActivatedKeepsInvariant(tasks, maxConcurrent, i, !closed);
      tasks := Activated(tasks, i);
      FillSlots();
    }

    /** `performNext` (lines 40-54): perform the first pending task, if there is one. */
    method PerformNext()
      requires Valid()
      modifies this
      ensures Valid() && closed == old(closed)
      ensures FirstPending(old(tasks)).None? ==> tasks == old(tasks)
      ensures FirstPending(old(tasks)).Some? ==>
        var p := FirstPending(old(tasks)).value;
        tasks == if closed then Activated(old(tasks), p) else Filled(Activated(old(tasks), p), maxConcurrent)
      ensures !closed && old(ActiveCount(tasks)) < maxConcurrent ==> tasks == old(tasks)
      ensures Forward(old(tasks), tasks)
    {
      var first := FirstPending(tasks);
      if first.Some? {
        Perform(first.value);
      }
    }

    /**
     * `add(fn, ...args)` (lines 101-117): construct the task (rejecting a
     * non-function), append it, and republish. The new task is admitted
     * exactly when the queue is open and a slot is free; the tasks before it
     * are unchanged.
     */
    method Add(counter: IdCounter, fn: Value, args: seq<Value>) returns (r: Outcome<TaskError>)
      requires Valid() && IdsDrawnFrom(counter)
      modifies this, counter
      ensures Valid() && IdsDrawnFrom(counter) && closed == old(closed)
      ensures r.Fail? <==> !fn.Function?
      ensures r.Fail? ==> tasks == old(tasks) && counter.last == old(counter.last)
      ensures r.Pass? ==>
        && counter.last == old(counter.last) + 1
        && var t := Tasks.Create(counter.last, this, fn, Some(args)).value;
           tasks == old(tasks) + [if !closed && old(ActiveCount(tasks)) < maxConcurrent then Activate(t) else t]
      ensures old(WithinCap()) ==> WithinCap()
    {
      var created := counter.NewTask(this, fn, Some(args));
      if created.Failure? {
        return Fail(created.error);
      }
      var t := created.value;
      var before := tasks;
      tasks := tasks + [t];
      if !closed {
        FilledAfterAppend(before, maxConcurrent, t);
      }
      FillSlots();
      AppendKeepsInvariant(before, maxConcurrent, t, !closed);
      r := Pass;
    }

    /** The work of task `id` resolved with `result` (lines 81-86). Once the queue is completed nothing is recorded. */
    method SettleOk(id: nat, result: Value)
      requires Valid() && Running(id)
      modifies this
      ensures Valid() && closed == old(closed)
      ensures tasks == if old(closed) then old(tasks) else AfterSuccess(old(tasks), maxConcurrent, id, result)
      ensures old(WithinCap()) ==> WithinCap()
      ensures Forward(old(tasks), tasks)
    {
      if closed {
        return;
      }
      var found := IndexOf(tasks, id);
      if found.Some? {
        var k := found.value;
        tasks := tasks[k := Succeeded(tasks[k], result)];
      }
      FillSlots();
      if found.Some? && !tasks[found.value].stopped {
        var k := found.value;
        tasks := tasks[k := Completed(tasks[k])];
      }
      AfterSuccessKeepsInvariant(old(tasks), maxConcurrent, id, result);
    }

    /**
     * The work of task `id` rejected with `err` (lines 87-90), with the
     * failure recorded in the snapshot and, on an open queue, the admission
     * check that follows: the corrected failure path described in the
     * README. A task already stopped is left alone.
     */
    method SettleErr(id: nat, err: Value)
      requires Valid() && Running(id)
      modifies this
      ensures Valid() && closed == old(closed)
      ensures tasks == if old(closed) then RecordFailure(old(tasks), id, err)
                       else AfterFailure(old(tasks), maxConcurrent, id, err)
      ensures old(WithinCap()) ==> WithinCap()
      ensures Forward(old(tasks), tasks)
    {
      var found := IndexOf(tasks, id);
      if found.Some? && !tasks[found.value].stopped {
        var k := found.value;
        tasks := tasks[k := Failed(tasks[k], err)];
      }
      RecordFailureKeepsInvariant(old(tasks), id, err);
      AfterFailureKeepsInvariant(old(tasks), maxConcurrent, id, err);
      FillSlots();
    }

    /**
     * `removeTask(task)` (lines 94-99): nothing on a completed queue or for
     * a stopped task; otherwise the task and every stopped task leave the
     * list, which is republished. `task` is the task as the caller holds
     * it; while it is listed, its listed copy is its current state.
     */
    method RemoveTask(task: Task<ActionQueue>)
      requires Valid()
      modifies this
      ensures Valid() && closed == old(closed)
      ensures tasks == if old(closed) then old(tasks) else AfterRemoval(old(tasks), maxConcurrent, task)
      ensures old(WithinCap()) ==> WithinCap()
    {
      if closed {
        return;
      }
      var found := IndexOf(tasks, task.id);
      var stopped := if found.Some? then tasks[found.value].stopped else task.stopped;
      if stopped {
        return;
      }
      var id := task.id;
      var ts := tasks;
      tasks := Pruned(tasks, id);
      PrunedKeepsOrder(ts, id);
      PrunedActiveCount(ts, id);
      FilledKeepsConsistency(tasks, maxConcurrent);
      if ActiveCount(ts) <= maxConcurrent {
        FilledWithinCap(tasks, maxConcurrent);
      }
      FillSlots();
    }

    /**
     * `complete()` (lines 56-58 with the handler at lines 27-35): the queue
     * stops publishing and every task not yet stopped is completed. Doing it
     * twice changes nothing.
     */
    method Complete()
      requires Valid()
      modifies this
      ensures Valid() && closed
      ensures tasks == if old(closed) then old(tasks) else CompletedAll(old(tasks))
      ensures Forward(old(tasks), tasks)
      ensures old(WithinCap()) ==> WithinCap()
    {
      if closed {
        return;
      }
      closed := true;
      CompletedAllStopsEveryTask(tasks);
      tasks := CompletedAll(tasks);
    }
  }
}
