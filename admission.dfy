/**
 * The scans and list transitions of the admission scheduler (src/ActionQueue.js),
 * as functions on the published task list, with what they guarantee.
 *
 * The admission check counts tasks whose raw snapshot status is `active`
 * (line 19) and, while that count is below the cap, admits the first task
 * that is neither stopped nor past `new` (lines 42-47). Each admission
 * republishes the list, which runs the check again: `Filled` is the list
 * once that re-entrant process has come to rest.
 */
module Admission {
  import opened Wrappers
  import opened Tasks

  /** Counted by the admission check: the raw snapshot status, not the `status` getter. */
  predicate IsActive<Q>(t: Task<Q>) { t.value.status == Active }

  /** Eligible for admission: not stopped and still `new`. */
  predicate Pending<Q>(t: Task<Q>) { !t.stopped && t.value.status == New }

  function ActiveCount<Q>(ts: seq<Task<Q>>): (n: nat)
    ensures n <= |ts|
  {
    if ts == [] then 0 else (if IsActive(ts[0]) then 1 else 0) + ActiveCount(ts[1..])
  }

  function PendingCount<Q>(ts: seq<Task<Q>>): (n: nat)
    ensures n <= |ts|
  {
    if ts == [] then 0 else (if Pending(ts[0]) then 1 else 0) + PendingCount(ts[1..])
  }

  /** `list.find` from position `i` on. */
  function FirstPendingFrom<Q>(ts: seq<Task<Q>>, i: nat): (r: Option<nat>)
    requires i <= |ts|
    ensures r.Some? ==>
      i <= r.value < |ts| && Pending(ts[r.value])
      && forall j :: i <= j < r.value ==> !Pending(ts[j])
    ensures r.None? ==> forall j :: i <= j < |ts| ==> !Pending(ts[j])
    decreases |ts| - i
  {
    if i == |ts| then None
    else if Pending(ts[i]) then Some(i)
    else FirstPendingFrom(ts, i + 1)
  }

  /** The task `performNext` picks: the earliest pending one in list order. */
  function FirstPending<Q>(ts: seq<Task<Q>>): (r: Option<nat>)
    ensures r.Some? ==>
      r.value < |ts| && Pending(ts[r.value])
      && forall j :: 0 <= j < r.value ==> !Pending(ts[j])
    ensures r.None? ==> forall j :: 0 <= j < |ts| ==> !Pending(ts[j])
  {
    FirstPendingFrom(ts, 0)
  }

  /** The list is at rest: either every slot is taken or nothing is waiting. */
  predicate Saturated<Q>(ts: seq<Task<Q>>, max: int)
  {
    ActiveCount(ts) >= max || forall j :: 0 <= j < |ts| ==> !Pending(ts[j])
  }

  /** `task.next({...task.value, status: 'active'})`. */
  function Activate<Q>(t: Task<Q>): (r: Task<Q>)
    ensures IsActive(r) && !Pending(r)
    ensures r.value.(status := t.value.status) == t.value && r.(value := t.value) == t
    ensures WellFormed(t) && Pending(t) ==> WellFormed(r) && StatusOf(r) == Active
  {
    t.(value := t.value.(status := Active))
  }

  function Activated<Q>(ts: seq<Task<Q>>, k: nat): seq<Task<Q>>
    requires k < |ts|
  {
    ts[k := Activate(ts[k])]
  }

  lemma {:induction false} ActiveCountUpdate<Q>(ts: seq<Task<Q>>, k: nat, x: Task<Q>)
    requires k < |ts|
    ensures ActiveCount(ts[k := x])
         == ActiveCount(ts) - (if IsActive(ts[k]) then 1 else 0) + (if IsActive(x) then 1 else 0)
  {
    if k == 0 {
      assert ts[k := x][1..] == ts[1..];
    } else {
      assert ts[k := x][1..] == ts[1..][k - 1 := x];
      ActiveCountUpdate(ts[1..], k - 1, x);
    }
  }

  lemma {:induction false} PendingCountUpdate<Q>(ts: seq<Task<Q>>, k: nat, x: Task<Q>)
    requires k < |ts|
    ensures PendingCount(ts[k := x])
         == PendingCount(ts) - (if Pending(ts[k]) then 1 else 0) + (if Pending(x) then 1 else 0)
  {
    if k == 0 {
      assert ts[k := x][1..] == ts[1..];
    } else {
      assert ts[k := x][1..] == ts[1..][k - 1 := x];
      PendingCountUpdate(ts[1..], k - 1, x);
    }
  }

  lemma {:induction false} ActiveCountAppend<Q>(ts: seq<Task<Q>>, t: Task<Q>)
    ensures ActiveCount(ts + [t]) == ActiveCount(ts) + (if IsActive(t) then 1 else 0)
  {
    if ts != [] {
      assert (ts + [t])[1..] == ts[1..] + [t];
      ActiveCountAppend(ts[1..], t);
    }
  }

  /** Nothing is pending exactly when the pending count is zero. */
  lemma {:induction false} NoPendingIffZero<Q>(ts: seq<Task<Q>>)
    ensures PendingCount(ts) == 0 <==> forall j :: 0 <= j < |ts| ==> !Pending(ts[j])
  {
    if ts != [] {
      NoPendingIffZero(ts[1..]);
      assert forall j :: 1 <= j < |ts| ==> ts[j] == ts[1..][j - 1];
    }
  }

  /**
   * The list once the re-entrant admission check has come to rest: while
   * fewer than `max` tasks are active and some task is pending, the first
   * pending task is activated.
   */
  function Filled<Q>(ts: seq<Task<Q>>, max: int): (r: seq<Task<Q>>)
    ensures |r| == |ts|
    ensures forall j :: 0 <= j < |ts| ==>
      r[j] == ts[j] || (Pending(ts[j]) && r[j] == Activate(ts[j]))
    ensures Saturated(r, max)
    decreases PendingCount(ts)
  {
    if ActiveCount(ts) >= max then ts
    else match FirstPending(ts)
      case None => ts
      case Some(k) =>
        PendingCountUpdate(ts, k, Activate(ts[k]));
        Filled(Activated(ts, k), max)
  }

  /** No list the admission check publishes exceeds the cap, if the list it started from did not. */
  lemma {:induction false} FilledWithinCap<Q>(ts: seq<Task<Q>>, max: int)
    requires ActiveCount(ts) <= max
    ensures ActiveCount(Filled(ts, max)) <= max
    decreases PendingCount(ts)
  {
    if ActiveCount(ts) < max {
      match FirstPending(ts)
      case None =>
      case Some(k) =>
        PendingCountUpdate(ts, k, Activate(ts[k]));
        ActiveCountUpdate(ts, k, Activate(ts[k]));
        FilledWithinCap(Activated(ts, k), max);
    }
  }

  /**
   * Exactly as many tasks are admitted as there are free slots, or as there
   * are pending tasks when those are fewer.
   */
  lemma {:induction false} FilledActiveCount<Q>(ts: seq<Task<Q>>, max: int)
    ensures ActiveCount(Filled(ts, max))
         == if ActiveCount(ts) >= max then ActiveCount(ts)
            else if ActiveCount(ts) + PendingCount(ts) <= max then ActiveCount(ts) + PendingCount(ts)
            else max
    decreases PendingCount(ts)
  {
    if ActiveCount(ts) < max {
      match FirstPending(ts)
      case None =>
        NoPendingIffZero(ts);
      case Some(k) =>
        PendingCountUpdate(ts, k, Activate(ts[k]));
        ActiveCountUpdate(ts, k, Activate(ts[k]));
        FilledActiveCount(Activated(ts, k), max);
    }
  }

  /**
   * Admission is first-in-first-out: a task is admitted only if every
   * pending task before it in the list is admitted too.
   */
  lemma {:induction false} FilledIsFifo<Q>(ts: seq<Task<Q>>, max: int, i: nat, j: nat)
    requires i < j < |ts|
    requires Pending(ts[i]) && Filled(ts, max)[j] != ts[j]
    ensures Filled(ts, max)[i] == Activate(ts[i])
    decreases PendingCount(ts)
  {
    if ActiveCount(ts) < max {
      match FirstPending(ts)
      case None =>
      case Some(k) =>
        PendingCountUpdate(ts, k, Activate(ts[k]));
        var us := Activated(ts, k);
        if i != k {
          FilledIsFifo(us, max, i, j);
        }
    }
  }

  /** The earliest pending task is the one `performNext` picks, whichever way it is found. */
  lemma FirstPendingIs<Q>(ts: seq<Task<Q>>, p: nat)
    requires p < |ts| && Pending(ts[p]) && forall j :: 0 <= j < p ==> !Pending(ts[j])
    ensures FirstPending(ts) == Some(p)
  {
    var q := FirstPending(ts);
    assert q.Some?;
    assert !(q.value < p) && !(p < q.value);
  }

  /** With strictly increasing ids, the task with a given id is found at its own position. */
  lemma IndexOfIs<Q>(ts: seq<Task<Q>>, k: nat)
    requires k < |ts| && IdsIncreasing(ts)
    ensures IndexOf(ts, ts[k].id) == Some(k)
  {
    var r := IndexOf(ts, ts[k].id);
    assert r.Some?;
    assert !(r.value < k) && !(k < r.value);
  }

  /** Filling changes nothing when the list is already at rest. */
  lemma FilledAtRest<Q>(ts: seq<Task<Q>>, max: int)
    requires Saturated(ts, max)
    ensures Filled(ts, max) == ts
  {
    if ActiveCount(ts) < max {
      assert FirstPending(ts).None?;
    }
  }

  /** Replacing one task that is not pending by another that is not pending leaves the first pending task where it was. */
  lemma FirstPendingUpdate<Q>(ts: seq<Task<Q>>, k: nat, x: Task<Q>)
    requires k < |ts| && !Pending(ts[k]) && !Pending(x)
    ensures FirstPending(ts[k := x]) == FirstPending(ts)
  {
    var us := ts[k := x];
    assert forall j :: 0 <= j < |ts| ==> (Pending(us[j]) <==> Pending(ts[j]));
    match FirstPending(ts)
    case None =>
    case Some(p) =>
      var q := FirstPending(us);
      assert q.Some?;
      assert !(q.value < p) && !(p < q.value);
  }

  /**
   * `add`: appending a new task to a list at rest admits it exactly when a
   * slot is free; the earlier tasks are untouched.
   */
  lemma FilledAfterAppend<Q>(ts: seq<Task<Q>>, max: int, t: Task<Q>)
    requires Saturated(ts, max) && Pending(t)
    ensures Filled(ts + [t], max) == ts + [if ActiveCount(ts) < max then Activate(t) else t]
  {
    var us := ts + [t];
    ActiveCountAppend(ts, t);
    if ActiveCount(ts) < max {
      assert forall j :: 0 <= j < |ts| ==> us[j] == ts[j];
      assert Pending(us[|ts|]);
      assert FirstPending(us) == Some(|ts|) by {
        var q := FirstPending(us);
        assert q.Some?;
        assert !(q.value < |ts|);
      }
      var vs := Activated(us, |ts|);
      assert vs == ts + [Activate(t)];
      assert FirstPending(vs).None? by {
        assert forall j :: 0 <= j < |vs| ==> !Pending(vs[j]);
      }
    }
  }

  /**
   * Settling one active task: the task at `k` is replaced by its settled form
   * and, if some task was waiting, the earliest waiting one takes the slot.
   */
  function Freed<Q>(ts: seq<Task<Q>>, k: nat, x: Task<Q>): seq<Task<Q>>
    requires k < |ts|
  {
    var us := ts[k := x];
    match FirstPending(us)
    case None => us
    case Some(p) => us[p := Activate(us[p])]
  }

  /**
   * When a task leaves the active state in a list at rest, the admission
   * check admits exactly the next waiting task, unless the list was over
   * the cap, in which case the freed slot is not enough to admit anyone.
   */
  lemma FilledAfterSettle<Q>(ts: seq<Task<Q>>, max: int, k: nat, x: Task<Q>)
    requires k < |ts| && IsActive(ts[k]) && !IsActive(x) && !Pending(x)
    requires Saturated(ts, max)
    ensures Filled(ts[k := x], max) == if ActiveCount(ts) > max then ts[k := x] else Freed(ts, k, x)
  {
    var us := ts[k := x];
    ActiveCountUpdate(ts, k, x);
    FirstPendingUpdate(ts, k, x);
    if ActiveCount(ts) <= max {
      match FirstPending(us)
      case None =>
      case Some(p) =>
        PendingCountUpdate(us, p, Activate(us[p]));
        ActiveCountUpdate(us, p, Activate(us[p]));
        var vs := Activated(us, p);
        assert ActiveCount(vs) == ActiveCount(ts);
        assert ActiveCount(ts) >= max;
    }
  }

  /** Settling in two stages (first the snapshot, then the stopped flag) frees the same slot as settling at once. */
  lemma FreedRestamp<Q>(ts: seq<Task<Q>>, k: nat, x: Task<Q>, y: Task<Q>)
    requires k < |ts| && !Pending(ts[k]) && !Pending(x) && !Pending(y)
    ensures |Freed(ts, k, x)| == |ts| && Freed(ts, k, x)[k := y] == Freed(ts, k, y)
  {
    FirstPendingUpdate(ts, k, x);
    FirstPendingUpdate(ts, k, y);
  }

  /** What settling frees: the count of active tasks drops by one unless a waiting task takes the slot, which is the earliest waiting one. */
  lemma FreedAdmitsNext<Q>(ts: seq<Task<Q>>, k: nat, x: Task<Q>)
    requires k < |ts| && IsActive(ts[k]) && !IsActive(x) && !Pending(x)
    ensures |Freed(ts, k, x)| == |ts| && Freed(ts, k, x)[k] == x
    ensures FirstPending(ts).None? ==>
      Freed(ts, k, x) == ts[k := x] && ActiveCount(Freed(ts, k, x)) == ActiveCount(ts) - 1
    ensures FirstPending(ts).Some? ==>
      var p := FirstPending(ts).value;
      Freed(ts, k, x) == ts[k := x][p := Activate(ts[p])]
      && ActiveCount(Freed(ts, k, x)) == ActiveCount(ts)
  {
    var us := ts[k := x];
    ActiveCountUpdate(ts, k, x);
    FirstPendingUpdate(ts, k, x);
    match FirstPending(us)
    case None =>
    case Some(p) =>
      ActiveCountUpdate(us, p, Activate(us[p]));
  }

  // ---------------------------------------------------------------------------
  // Settlement, shutdown and removal

  /** `task.next({...task.value, status: 'done', result})`. */
  function Succeeded<Q>(t: Task<Q>, result: Value): (r: Task<Q>)
    ensures r.value.status == Done && r.value.result == Some(result)
    ensures r.value.(status := t.value.status, result := t.value.result) == t.value && r.(value := t.value) == t
    ensures t.value.error.None? ==> WellFormed(r) && IsDone(r)
  {
    t.(value := t.value.(status := Done, result := Some(result)))
  }

  /** `task.complete()`: only the stopped flag changes. */
  function Completed<Q>(t: Task<Q>): (r: Task<Q>)
    ensures r.stopped && r.(stopped := t.stopped) == t
    ensures IsDone(r) && ToJson(r) == Stopped
    ensures WellFormed(t) ==> WellFormed(r) && StatusOf(r) == (if ErrorShown(t) then Error else Done)
  {
    t.(stopped := true)
  }

  /**
   * `task.error(err)` in its corrected form: the failure is recorded in the
   * snapshot, as status `error` with the `error` the status getter looks
   * for, and the task is stopped. As written, the code only stops the task
   * (`Completed`). The getter tests the error for truthiness, so a task
   * rejected with a falsy reason reports `done`.
   */
  function Failed<Q>(t: Task<Q>, err: Value): (r: Task<Q>)
    ensures r.stopped && r.value.status == Error && r.value.error == Some(err) && ToJson(r) == Stopped
    ensures StatusOf(r) == (if Truthy(err) then Error else Done)
    ensures r.value.(status := t.value.status, error := t.value.error) == t.value
    ensures r.id == t.id && r.name == t.name
    ensures t.value.result.None? ==> WellFormed(r)
  {
    t.(value := t.value.(status := Error, error := Some(err)), stopped := true)
  }

  /** The queue's `complete` handler: every task not yet stopped is completed. */
  function CompletedAll<Q>(ts: seq<Task<Q>>): (r: seq<Task<Q>>)
    ensures |r| == |ts|
    ensures forall j :: 0 <= j < |ts| ==> r[j] == Completed(ts[j])
  {
    if ts == [] then [] else [Completed(ts[0])] + CompletedAll(ts[1..])
  }

  /** The filter of `removeTask`: drop the given task and every stopped task. */
  function Pruned<Q>(ts: seq<Task<Q>>, id: nat): (r: seq<Task<Q>>)
    ensures |r| <= |ts|
    ensures forall j :: 0 <= j < |r| ==> r[j] in ts && r[j].id != id && !r[j].stopped
    ensures forall i :: 0 <= i < |ts| && ts[i].id != id && !ts[i].stopped ==> ts[i] in r
  {
    if ts == [] then []
    else (if ts[0].id != id && !ts[0].stopped then [ts[0]] else []) + Pruned(ts[1..], id)
  }

  /** Position of the task with a given id; ids stand for object identity. */
  function IndexOf<Q>(ts: seq<Task<Q>>, id: nat): (r: Option<nat>)
    ensures r.Some? ==> r.value < |ts| && ts[r.value].id == id
    ensures r.None? ==> forall j :: 0 <= j < |ts| ==> ts[j].id != id
  {
    if ts == [] then None
    else if ts[0].id == id then Some(0)
    else match IndexOf(ts[1..], id)
      case None => None
      case Some(k) => Some(k + 1)
  }

  // ---------------------------------------------------------------------------
  // Ordering and monotonic statuses

  predicate IdsIncreasing<Q>(ts: seq<Task<Q>>)
  {
    forall i, j :: 0 <= i < j < |ts| ==> ts[i].id < ts[j].id
  }

  /** Removal keeps the survivors in their order, so their ids stay strictly increasing. */
  lemma {:induction false} PrunedKeepsOrder<Q>(ts: seq<Task<Q>>, id: nat)
    requires IdsIncreasing(ts)
    ensures IdsIncreasing(Pruned(ts, id))
  {
    if ts != [] {
      var rest := Pruned(ts[1..], id);
      PrunedKeepsOrder(ts[1..], id);
      if ts[0].id != id && !ts[0].stopped {
        PrunedAbove(ts[1..], id, ts[0].id);
        ConsIncreasing(ts[0], rest);
        assert Pruned(ts, id) == [ts[0]] + rest;
      } else {
        assert Pruned(ts, id) == rest;
      }
    }
  }

  /** A task with a smaller id than every task of an increasing list can go in front of it. */
  lemma ConsIncreasing<Q>(t: Task<Q>, ts: seq<Task<Q>>)
    requires IdsIncreasing(ts) && forall j :: 0 <= j < |ts| ==> t.id < ts[j].id
    ensures IdsIncreasing([t] + ts)
  {
    var r := [t] + ts;
    forall a, b | 0 <= a < b < |r|
      ensures r[a].id < r[b].id
    {
      if a > 0 {
        assert r[a] == ts[a - 1] && r[b] == ts[b - 1];
      } else {
        assert r[b] == ts[b - 1];
      }
    }
  }

  /** Every task removal keeps has an id above any bound all listed ids exceed. */
  lemma {:induction false} PrunedAbove<Q>(ts: seq<Task<Q>>, id: nat, bound: int)
    requires forall j :: 0 <= j < |ts| ==> ts[j].id > bound
    ensures forall j :: 0 <= j < |Pruned(ts, id)| ==> Pruned(ts, id)[j].id > bound
  {
    if ts != [] {
      var rest := Pruned(ts[1..], id);
      PrunedAbove(ts[1..], id, bound);
      if ts[0].id != id && !ts[0].stopped {
        assert Pruned(ts, id) == [ts[0]] + rest;
      } else {
        assert Pruned(ts, id) == rest;
      }
    }
  }

  /** Removal never adds an active task. */
  lemma {:induction false} PrunedActiveCount<Q>(ts: seq<Task<Q>>, id: nat)
    ensures ActiveCount(Pruned(ts, id)) <= ActiveCount(ts)
  {
    if ts != [] {
      var rest := Pruned(ts[1..], id);
      PrunedActiveCount(ts[1..], id);
      if ts[0].id != id && !ts[0].stopped {
        var r := [ts[0]] + rest;
        assert Pruned(ts, id) == r;
        assert r[0] == ts[0] && r[1..] == rest;
      } else {
        assert Pruned(ts, id) == rest;
      }
    }
  }

  /** A status may stay, or move along new -> active -> done | error; a terminal status never changes. */
  predicate Precedes(a: Status, b: Status)
  {
    a == b || a == New || (a == Active && Terminal(b))
  }

  /** Position by position, the same tasks, no status moved backwards, no stopped task restarted. */
  predicate Forward<Q>(ts: seq<Task<Q>>, us: seq<Task<Q>>)
  {
    && |ts| == |us|
    && forall j :: 0 <= j < |ts| ==>
      && us[j].id == ts[j].id
      && Precedes(ts[j].value.status, us[j].value.status)
      && (ts[j].stopped ==> us[j].stopped)
  }

  lemma ForwardTransitive<Q>(ts: seq<Task<Q>>, us: seq<Task<Q>>, vs: seq<Task<Q>>)
    requires Forward(ts, us) && Forward(us, vs)
    ensures Forward(ts, vs)
  {
  }

  /** Filling only moves pending tasks forward, and never touches a terminal one. */
  lemma FilledForward<Q>(ts: seq<Task<Q>>, max: int)
    ensures Forward(ts, Filled(ts, max))
    ensures forall j :: 0 <= j < |ts| && Terminal(ts[j].value.status) ==> Filled(ts, max)[j] == ts[j]
  {
  }

  // ---------------------------------------------------------------------------
  // Consistency of the list

  predicate AllWellFormed<Q>(ts: seq<Task<Q>>)
  {
    forall k :: 0 <= k < |ts| ==> WellFormed(ts[k])
  }

  /** While the queue is open, a task is stopped exactly when it has settled. */
  predicate StoppedIffTerminal<Q>(ts: seq<Task<Q>>)
  {
    forall k :: 0 <= k < |ts| ==> (ts[k].stopped <==> Terminal(ts[k].value.status))
  }

  /** Admission keeps ids, consistent snapshots, and the link between stopped and settled. */
  lemma FilledKeepsConsistency<Q>(ts: seq<Task<Q>>, max: int)
    ensures IdsIncreasing(ts) ==> IdsIncreasing(Filled(ts, max))
    ensures AllWellFormed(ts) ==> AllWellFormed(Filled(ts, max))
    ensures StoppedIffTerminal(ts) ==> StoppedIffTerminal(Filled(ts, max))
  {
    var r := Filled(ts, max);
    assert forall j :: 0 <= j < |ts| ==> r[j].id == ts[j].id;
  }
}
