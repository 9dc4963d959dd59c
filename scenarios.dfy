/**
 * A client of the queue replaying the trace that test/ActionQueue.spec.js
 * expects at lines 224-307: a cap of 3, six submissions of which the fifth
 * fails. Each step is its own method, stated by the statuses the test's
 * profile shows before and after it. The trace starts from a fresh id
 * counter; in the test suite, earlier tests have already drawn ids from the
 * process-wide counter, which the profile, showing names only, does not
 * reveal. The failure goes through the corrected `SettleErr`.
 */
module Scenarios {
  import opened Wrappers
  import opened Tasks
  import opened Admission
  import opened ActionQueues

  /** The list holds tasks with ids 1, 2, ... whose snapshots have these statuses. */
  ghost predicate Lists(ts: seq<Task<ActionQueue>>, ss: seq<Status>)
  {
    && |ts| == |ss|
    && forall i :: 0 <= i < |ss| ==> ts[i].id == i + 1 && ts[i].value.status == ss[i]
  }

  /** The open queue with cap 3 lists tasks with ids 1, 2, ... and these snapshot statuses. */
  ghost predicate Shows(q: ActionQueue, ss: seq<Status>)
    reads q
  {
    q.Valid() && !q.closed && q.maxConcurrent == 3 && Lists(q.tasks, ss)
  }

  /** Replacing one task by a stage of itself changes one listed status. */
  lemma ListsUpdate(ts: seq<Task<ActionQueue>>, ss: seq<Status>, k: nat, x: Task<ActionQueue>)
    requires Lists(ts, ss) && k < |ts| && x.id == ts[k].id
    ensures Lists(ts[k := x], ss[k := x.value.status])
  {
  }

  /** The first three submissions are admitted at once. */
  method SubmitThree() returns (q: ActionQueue, counter: IdCounter)
    ensures fresh(q) && fresh(counter)
    ensures Shows(q, [Active, Active, Active]) && ActiveCount(q.tasks) == 3
    ensures q.IdsDrawnFrom(counter) && counter.last == 3
  {
    counter := new IdCounter();
    q := new ActionQueue(3);
    var r := q.Add(counter, Function("of_first", 1), []);
    ActiveCountAppend([], q.tasks[0]);
    ghost var ts := q.tasks;
    r := q.Add(counter, Function("of_second", 2), []);
    ActiveCountAppend(ts, q.tasks[1]);
    ts := q.tasks;
    r := q.Add(counter, Function("of_third", 3), []);
    ActiveCountAppend(ts, q.tasks[2]);
  }

  /** The next three wait: the cap is reached. */
  method SubmitThreeMore(q: ActionQueue, counter: IdCounter)
    requires Shows(q, [Active, Active, Active]) && ActiveCount(q.tasks) == 3
    requires q.IdsDrawnFrom(counter) && counter.last == 3
    modifies q, counter
    ensures Shows(q, [Active, Active, Active, New, New, New]) && ActiveCount(q.tasks) == 3
  {
    ghost var ts := q.tasks;
    var r := q.Add(counter, Function("of_fourth", 4), []);
    ActiveCountAppend(ts, q.tasks[3]);
    ts := q.tasks;
    r := q.Add(counter, Function("of_fifth", 5), []);
    ActiveCountAppend(ts, q.tasks[4]);
    ts := q.tasks;
    r := q.Add(counter, Function("of_sixth", 6), []);
    ActiveCountAppend(ts, q.tasks[5]);
  }

  /** The next task to admit, by status: the first `new` one, if any. */
  predicate NextNew(ss: seq<Status>, p: Option<nat>)
  {
    match p
    case None => forall j :: 0 <= j < |ss| ==> ss[j] != New
    case Some(i) => i < |ss| && ss[i] == New && forall j :: 0 <= j < i ==> ss[j] != New
  }

  /** The statuses after task `k` settles as `s` and the next task `p`, if any, takes its slot. */
  function Advanced(ss: seq<Status>, k: nat, s: Status, p: Option<nat>): (r: seq<Status>)
    requires k < |ss|
    ensures |r| == |ss| && r[k] == (if p == Some(k) then Active else s)
    ensures forall j :: 0 <= j < |ss| && j != k && p != Some(j) ==> r[j] == ss[j]
  {
    if p.Some? && p.value < |ss| then ss[k := s][p.value := Active] else ss[k := s]
  }

  /** In a list at rest within the cap, resolving the active task `k` lists it as done and admits the first waiting task. */
  lemma ResolveAdvances(ts: seq<Task<ActionQueue>>, ss: seq<Status>, k: nat, p: Option<nat>, max: int)
    requires Lists(ts, ss) && k < |ts| && ss[k] == Active && NextNew(ss, p)
    requires IdsIncreasing(ts) && Saturated(ts, max) && ActiveCount(ts) <= max && StoppedIffTerminal(ts)
    ensures Lists(AfterSuccess(ts, max, k + 1, Undefined), Advanced(ss, k, Done, p))
    ensures ActiveCount(AfterSuccess(ts, max, k + 1, Undefined)) == if p.Some? then ActiveCount(ts) else ActiveCount(ts) - 1
    ensures forall j :: 0 <= j < |ts| && j != k && ss[j] != New ==> AfterSuccess(ts, max, k + 1, Undefined)[j] == ts[j]
  {
    var x := SettledOk(ts[k], Undefined);
    IndexOfIs(ts, k);
    if p.Some? {
      FirstPendingIs(ts, p.value);
    }
    AfterSuccessFreesSlot(ts, max, k + 1, Undefined);
    FreedAdmitsNext(ts, k, x);
    ListsUpdate(ts, ss, k, x);
    if p.Some? {
      ListsUpdate(ts[k := x], ss[k := Done], p.value, Activate(ts[p.value]));
    }
  }

  /** ... and rejecting it lists it as failed and admits the first waiting task. */
  lemma RejectAdvances(ts: seq<Task<ActionQueue>>, ss: seq<Status>, k: nat, p: Option<nat>, max: int, err: Value)
    requires Lists(ts, ss) && k < |ts| && ss[k] == Active && NextNew(ss, p)
    requires IdsIncreasing(ts) && Saturated(ts, max) && ActiveCount(ts) <= max && StoppedIffTerminal(ts)
    ensures Lists(AfterFailure(ts, max, k + 1, err), Advanced(ss, k, Error, p))
    ensures ActiveCount(AfterFailure(ts, max, k + 1, err)) == if p.Some? then ActiveCount(ts) else ActiveCount(ts) - 1
    ensures AfterFailure(ts, max, k + 1, err)[k] == Failed(ts[k], err)
    ensures forall j :: 0 <= j < |ts| && j != k && ss[j] != New ==> AfterFailure(ts, max, k + 1, err)[j] == ts[j]
  {
    var x := Failed(ts[k], err);
    IndexOfIs(ts, k);
    if p.Some? {
      FirstPendingIs(ts, p.value);
    }
    AfterFailureFreesSlot(ts, max, k + 1, err);
    FreedAdmitsNext(ts, k, x);
    ListsUpdate(ts, ss, k, x);
    if p.Some? {
      ListsUpdate(ts[k := x], ss[k := Error], p.value, Activate(ts[p.value]));
    }
  }

  /** of_first resolves and of_fourth takes its slot. */
  method FirstResolves(q: ActionQueue)
    requires Shows(q, [Active, Active, Active, New, New, New]) && ActiveCount(q.tasks) == 3
    modifies q
    ensures Shows(q, [Done, Active, Active, Active, New, New]) && ActiveCount(q.tasks) == 3
  {
    ResolveAdvances(q.tasks, [Active, Active, Active, New, New, New], 0, Some(3), 3);
    assert Advanced([Active, Active, Active, New, New, New], 0, Done, Some(3)) == [Done, Active, Active, Active, New, New];
    q.SettleOk(1, Undefined);
  }

  /** of_second resolves and of_fifth takes its slot. */
  method SecondResolves(q: ActionQueue)
    requires Shows(q, [Done, Active, Active, Active, New, New]) && ActiveCount(q.tasks) == 3
    modifies q
    ensures Shows(q, [Done, Done, Active, Active, Active, New]) && ActiveCount(q.tasks) == 3
  {
    ResolveAdvances(q.tasks, [Done, Active, Active, Active, New, New], 1, Some(4), 3);
    assert Advanced([Done, Active, Active, Active, New, New], 1, Done, Some(4)) == [Done, Done, Active, Active, Active, New];
    q.SettleOk(2, Undefined);
  }

  /** of_third resolves and of_sixth takes its slot. */
  method ThirdResolves(q: ActionQueue)
    requires Shows(q, [Done, Done, Active, Active, Active, New]) && ActiveCount(q.tasks) == 3
    modifies q
    ensures Shows(q, [Done, Done, Done, Active, Active, Active]) && ActiveCount(q.tasks) == 3
  {
    ResolveAdvances(q.tasks, [Done, Done, Active, Active, Active, New], 2, Some(5), 3);
    assert Advanced([Done, Done, Active, Active, Active, New], 2, Done, Some(5)) == [Done, Done, Done, Active, Active, Active];
    q.SettleOk(3, Undefined);
  }

  /** of_fourth resolves; nothing is left to admit. */
  method FourthResolves(q: ActionQueue)
    requires Shows(q, [Done, Done, Done, Active, Active, Active]) && ActiveCount(q.tasks) == 3
    modifies q
    ensures Shows(q, [Done, Done, Done, Done, Active, Active]) && ActiveCount(q.tasks) == 2
  {
    ResolveAdvances(q.tasks, [Done, Done, Done, Active, Active, Active], 3, None, 3);
    assert Advanced([Done, Done, Done, Active, Active, Active], 3, Done, None) == [Done, Done, Done, Done, Active, Active];
    q.SettleOk(4, Undefined);
  }

  /** of_fifth rejects: it is listed as failed and of_sixth carries on. */
  method FifthFails(q: ActionQueue)
    requires Shows(q, [Done, Done, Done, Done, Active, Active]) && ActiveCount(q.tasks) == 2
    modifies q
    ensures Shows(q, [Done, Done, Done, Done, Error, Active]) && ActiveCount(q.tasks) == 1
    ensures q.tasks[4].value.error == Some(Text("of fifth"))
  {
    RejectAdvances(q.tasks, [Done, Done, Done, Done, Active, Active], 4, None, 3, Text("of fifth"));
    assert Advanced([Done, Done, Done, Done, Active, Active], 4, Error, None) == [Done, Done, Done, Done, Error, Active];
    q.SettleErr(5, Text("of fifth"));
  }

  /** of_sixth resolves. */
  method SixthResolves(q: ActionQueue)
    requires Shows(q, [Done, Done, Done, Done, Error, Active]) && ActiveCount(q.tasks) == 1
    requires q.tasks[4].value.error == Some(Text("of fifth"))
    modifies q
    ensures Shows(q, [Done, Done, Done, Done, Error, Done]) && ActiveCount(q.tasks) == 0
    ensures q.tasks[4].value.error == Some(Text("of fifth"))
  {
    ResolveAdvances(q.tasks, [Done, Done, Done, Done, Error, Active], 5, None, 3);
    assert Advanced([Done, Done, Done, Done, Error, Active], 5, Done, None) == [Done, Done, Done, Done, Error, Done];
    q.SettleOk(6, Undefined);
  }

  /** The whole trace: the `status` getter groups the tasks as the test's last profile does. */
  method OverflowWithFailure() returns (q: ActionQueue)
    ensures fresh(q) && Shows(q, [Done, Done, Done, Done, Error, Done]) && ActiveCount(q.tasks) == 0
    ensures forall i :: 0 <= i < 6 && i != 4 ==> StatusOf(q.tasks[i]) == Done
    ensures StatusOf(q.tasks[4]) == Error
  {
    var counter: IdCounter;
    q, counter := SubmitThree();
    SubmitThreeMore(q, counter);
    FirstResolves(q);
    SecondResolves(q);
    ThirdResolves(q);
    FourthResolves(q);
    FifthFails(q);
    SixthResolves(q);
    ReportsAsProfiled(q.tasks);
  }

  /** The `status` getter reports what the snapshots hold: the last profile of the trace. */
  lemma ReportsAsProfiled(ts: seq<Task<ActionQueue>>)
    requires |ts| == 6 && AllWellFormed(ts) && StoppedIffTerminal(ts)
    requires forall i :: 0 <= i < 6 ==> ts[i].value.status == [Done, Done, Done, Done, Error, Done][i]
    requires ts[4].value.error == Some(Text("of fifth"))
    ensures forall i :: 0 <= i < 6 && i != 4 ==> StatusOf(ts[i]) == Done
    ensures StatusOf(ts[4]) == Error
  {
  }

  /** With a cap of 1, the first of two submissions runs and the second waits. */
  method StartTwo() returns (q: ActionQueue, counter: IdCounter)
    ensures fresh(q) && fresh(counter)
    ensures q.Valid() && !q.closed && q.maxConcurrent == 1 && |q.tasks| == 2
    ensures q.tasks[0].id == 1 && q.tasks[0].value.status == Active
    ensures q.tasks[1].id == 2 && Pending(q.tasks[1])
    ensures q.IdsDrawnFrom(counter) && counter.last == 2
  {
    counter := new IdCounter();
    q := new ActionQueue(1);
    var r := q.Add(counter, Function("slow", 1), []);
    ghost var ts := q.tasks;
    r := q.Add(counter, Function("later", 2), []);
    ActiveCountAppend(ts, q.tasks[1]);
  }

  /**
   * Shutting down: a non-function is refused without effect; after
   * `complete()` every task serializes as "stopped", the running task's
   * later resolution records nothing, and a submission after shutdown is
   * listed but never admitted.
   */
  method ShutDown() returns (q: ActionQueue)
    ensures fresh(q) && q.Valid() && q.closed && |q.tasks| == 3
    ensures q.tasks[0].value.status == Active && q.tasks[0].value.result.None?
    ensures q.tasks[0].value.error.None? && StatusOf(q.tasks[0]) == Done
    ensures forall i :: 0 <= i < 2 ==> ToJson(q.tasks[i]) == Stopped && IsDone(q.tasks[i])
    ensures q.tasks[2].id == 3 && Pending(q.tasks[2])
  {
    var counter: IdCounter;
    q, counter := StartTwo();
    var r := q.Add(counter, Number(7), []);
    assert r.Fail? && |q.tasks| == 2;
    ghost var ts := q.tasks;
    CompletedAllStopsEveryTask(ts);
    q.Complete();
    q.SettleOk(1, Number(1));
    q.SettleErr(1, Text("late"));
    assert q.tasks == CompletedAll(ts);
    assert q.tasks[0].value == ts[0].value;
    r := q.Add(counter, Function("late", 3), []);
  }
}
