# action-queue in Dafny

This project models the admission scheduler of `action-queue`. The scheduler
has two parts:

- **ActionQueue** owns an ordered list of tasks and a cap, `maxConcurrent`.
- **Task** is the lifecycle record of one unit of work: a snapshot
  `{fn, args, status, queue}`, an id drawn from a process-wide counter, a
  display name, and a "stopped" flag.

`add` appends a task and republishes the list. Every publication runs the
admission check. While fewer tasks than the cap have the raw snapshot status
`active`, the check admits the earliest task that is neither stopped nor past
`new`. Admission republishes the list, so slots fill one at a time. When the
work of a task succeeds, the task moves to `done`, and the resulting
publication admits the next waiting task. When it fails, the task is stopped,
and, as the code stands, nothing is republished (see Findings); a nullish
rejection reason makes the log line throw first, and the task is not even
stopped. `complete()`
shuts the queue down and completes every task that is not yet stopped.

The model is a sequential state machine:

- `Tasks` (`tasks.dfy`) models the task.
  - A task is a value: the `Task` datatype.
  - Its getters are `StatusOf`, `IsDone` and `ToJson`.
  - The module-level counter `_id` is the `IdCounter` class.
- `Admission` (`admission.dfy`) holds the scans and list transitions as
  functions, with the lemmas that relate them.
  - `Filled` is the list once the re-entrant admission check has come to rest.
- `ActionQueues` (`action_queue.dfy`) holds the class `ActionQueue`.
  - The list is a `seq` field.
  - Each mutation ends with an explicit `FillSlots` loop in place of the
    subscription.
  - The single `await fn(...)` is split in two. Admission happens in
    `Perform`. Settlement is a later external event, `SettleOk` or `SettleErr`.
- `Scenarios` (`scenarios.dfy`) is a client.
  - It replays the six-task trace with one failure from
    `test/ActionQueue.spec.js`, starting from a fresh id counter. of_fifth's
    failure goes through the corrected `SettleErr`; the code as written does
    not produce the test's profile (see Findings).
  - It also replays a shutdown.

The object invariant `ActionQueue.Valid` holds that:

- the cap is at least 1;
- ids increase along the list;
- every snapshot is consistent;
- while the queue is open, the list is at rest, and a task is stopped exactly
  when its snapshot is `done` or `error`.

The cap itself (`WithinCap`) is kept apart from `Valid`, because the public
`perform` and `performNext` do not look at it. Every other operation keeps it.

Some behaviour follows from the library semantics the code relies on:

- Completing or erroring a task stops it before its observer runs, so the
  `removeTask` calls from the task's own observer return at once. Done and
  errored tasks therefore stay listed, as the tests' profiles show. The model
  follows the code.
- A `next` on a completed list updates the list but notifies nobody. A task
  added after `complete()` is therefore listed but never admitted.
- Object identity of tasks is modelled by the task id. Ids are unique because
  they strictly increase.

## Model

| member | source | states |
|---|---|---|
| Tasks.Create | src/Task.js:14-24 | Fails exactly when `fn` is not a function. Otherwise the task has the given id, the snapshot `{fn, args, new, queue}` with `args` defaulting to empty, is not stopped, and is named by `fn.name` when that is non-empty and by its id otherwise |
| Tasks.IdCounter.constructor | src/Task.js:11 | The counter starts at 0 |
| Tasks.IdCounter.NewTask | src/Task.js:15-21 | A non-function is refused before the counter moves. A successful construction advances the counter by one and the task takes the new value as its id |
| Tasks.StatusOf | src/Task.js:31-39 | `error` when the snapshot carries a truthy error; otherwise `done` when stopped; otherwise the snapshot's status |
| Tasks.IsDone | src/Task.js:26-29 | True whenever the task is stopped; otherwise true exactly when the snapshot is `done` without a truthy error |
| Tasks.ToJson | src/Task.js:41-48 | "stopped" exactly for a stopped task; otherwise every snapshot field except the queue, unchanged |
| Tasks.ToJsonDropsOnlyQueue | src/Task.js:44-47 | Putting the queue back into the serialized record restores the snapshot exactly |
| Tasks.ToJsonIgnoresQueue | src/Task.js:41-48 | What `toJSON` shows does not depend on the queue |
| Tasks.StatusOfWellFormed | src/Task.js:26-39 | For a consistent snapshot, the getter reports `error` exactly for a failed snapshot that is still running or whose error is truthy, and a terminal status for a stopped task; `isDone` holds exactly when the task is stopped or done |
| Tasks.CreatedTaskIsNew | src/Task.js:18-20 | A new task is consistent, reports `new`, is not done, and serializes to `{fn, args, new}` |
| Admission.ActiveCount | src/ActionQueue.js:19 | The number of raw-`active` snapshots, at most the list length |
| Admission.FirstPendingFrom | src/ActionQueue.js:43-47 | The first index from `i` on whose task is not stopped and still `new`, or none if no such task exists |
| Admission.FirstPending | src/ActionQueue.js:42-47 | The earliest pending task in list order, or none exactly when no task is pending |
| Admission.Filled | src/ActionQueue.js:17-23 | The list at rest: same length, each task unchanged or a pending task activated, and afterwards either the cap is reached or nothing is pending |
| Admission.FilledWithinCap | src/ActionQueue.js:18-22 | Admission never takes a list within the cap over the cap |
| Admission.FilledActiveCount | src/ActionQueue.js:18-22 | Exactly min(free slots, pending tasks) tasks are admitted; none when the cap is already reached |
| Admission.FilledIsFifo | src/ActionQueue.js:40-54 | A task is admitted only if every pending task before it is admitted too |
| Admission.FirstPendingIs | src/ActionQueue.js:43-47 | A pending task with no pending task before it is the one `performNext` picks |
| Admission.FilledAtRest | src/ActionQueue.js:18-22 | Republishing a list at rest admits nothing |
| Admission.FilledAfterAppend | src/ActionQueue.js:101-117 | Appending a new task to a list at rest leaves the earlier tasks untouched and admits the new one exactly when a slot is free |
| Admission.FilledAfterSettle | src/ActionQueue.js:105-108 | When an active task settles in a list at rest, the republication admits exactly the earliest waiting task, unless the list was over the cap |
| Admission.FreedAdmitsNext | src/ActionQueue.js:105-108 | Settling a task hands its slot to the earliest pending task, keeping the active count. If nothing is pending, the active count drops by one |
| Admission.Activate | src/ActionQueue.js:80 | Only the raw status changes, to `active`; a consistent pending task then reports `active` |
| Admission.Succeeded | src/ActionQueue.js:83 | The raw status becomes `done` and the result is carried; nothing else changes; a task with no error is then consistent and done |
| Admission.Completed | src/ActionQueue.js:86 | Only the stopped flag changes; the task is done and serializes as "stopped"; a consistent task reports `error` if it carries a truthy error and `done` otherwise |
| Admission.Failed | src/ActionQueue.js:89 | Corrected form of `task.error(err)`: the task is stopped with raw status `error`, carries `err` and serializes as "stopped"; it reports `error` exactly when `err` is truthy, else `done`; only status and error change |
| Admission.CompletedAll | src/ActionQueue.js:27-35 | Every task is completed, in place |
| Admission.Pruned | src/ActionQueue.js:97 | The kept tasks are listed tasks that are neither the removed one nor stopped, and every such task is kept |
| Admission.IndexOf | src/ActionQueue.js:97 | The position of the task with the given identity, or none exactly when it is not listed |
| Admission.PrunedKeepsOrder | src/ActionQueue.js:97 | Removal keeps the survivors' submission order |
| Admission.PrunedActiveCount | src/ActionQueue.js:94-99 | Removal never adds an active task |
| Admission.FilledForward | src/ActionQueue.js:74-80 | Admission moves statuses only forward and never touches a settled task, so no task is run twice |
| Admission.FilledKeepsConsistency | src/ActionQueue.js:17-23 | Admission keeps ids ordered, snapshots consistent, and "stopped exactly when settled" |
| ActionQueues.CheckCap | src/ActionQueue.js:7-9 | The cap is accepted exactly when it is a number of at least 1, and is kept as given |
| ActionQueues.AfterSuccess | src/ActionQueue.js:81-86 | The settled list has the same length; its meaning is stated by AfterSuccessFreesSlot |
| ActionQueues.SettledOk | src/ActionQueue.js:83-86 | A resolved task: stopped and done, carrying the result, with fn and args kept; with no error, it is consistent, reports `done` and serializes as "stopped" |
| ActionQueues.AfterSuccessFreesSlot | src/ActionQueue.js:81-86 | Success equals settling the task as done and stopped, then admitting. Closed form: the slot goes to the earliest waiting task unless the list was over the cap |
| ActionQueues.AfterSuccessKeepsInvariant | src/ActionQueue.js:80-86 | Success keeps ids ordered, snapshots consistent, the list at rest, the cap, and forward progress |
| ActionQueues.AfterFailureAsWritten | src/ActionQueue.js:87-90 | The failure path as the code has it: a nullish reason makes line 88 throw, and nothing changes; otherwise the failed task is stopped, no snapshot changes, so its raw status stays `active`; every other task is unchanged (see Findings) |
| ActionQueues.AfterFailureAsWrittenHoldsSlot | src/ActionQueue.js:87-90 | The as-written failure keeps ids ordered, snapshots consistent and forward progress, leaves the active count unchanged, and republishing a list that was at rest admits nobody |
| ActionQueues.FailureAsWrittenLeavesSlotIdle | src/ActionQueue.js:87-90 | With cap 1 and tasks [A active, B new], after A fails as written with a non-nullish reason, the model still counts A as active, where the code's line 19 throws on it. Neither a republication nor a later `add(C)` admits B or C. The `status` getter reports A as `done` |
| ActionQueues.RecordFailure | src/ActionQueue.js:89 | Corrected: a failure is recorded as `Failed` on the task's listed copy if it is not yet stopped; a task already stopped, as every task is after `complete()`, is left alone, and every other task is unchanged |
| ActionQueues.RecordFailureKeepsInvariant | src/ActionQueue.js:87-90 | Recording a failure keeps ids ordered, snapshots consistent, "stopped exactly when settled" and forward progress, and never adds an active task |
| ActionQueues.AfterFailure | src/ActionQueue.js:87-90 | Corrected: a recorded failure followed by the admission check leaves the list at rest |
| ActionQueues.AfterFailureFreesSlot | src/ActionQueue.js:87-90 | After a failure, the failed task is recorded as errored and stopped. Unless the list was over the cap, which `perform` can cause, its slot goes to the earliest waiting task; over the cap, nobody is admitted. Every other task is unchanged |
| ActionQueues.AfterFailureKeepsInvariant | src/ActionQueue.js:87-90 | The corrected failure keeps ids ordered, snapshots consistent, the cap and forward progress |
| ActionQueues.AppendKeepsInvariant | src/ActionQueue.js:101-117 | Appending a fresh task, admitted exactly when the queue is open and a slot is free, keeps ids ordered, snapshots consistent, the list at rest and the cap |
| ActionQueues.ActivatedKeepsInvariant | src/ActionQueue.js:74-80 | Admitting a pending task and republishing keeps ids ordered, snapshots consistent and the list at rest, and moves statuses only forward |
| ActionQueues.AfterRemoval | src/ActionQueue.js:94-99 | If the task is stopped, nothing changes. Its state is its listed copy while listed, and the caller's copy once it is not. Otherwise the task leaves the list, the list never grows and is left at rest |
| ActionQueues.CompletedAllStopsEveryTask | src/ActionQueue.js:27-35 | Completing the queue keeps every snapshot and stops every task, so each is done and serializes as "stopped" |
| ActionQueues.ActionQueue.constructor | src/ActionQueue.js:10-14 | Open queue with the given cap and an empty list |
| ActionQueues.ActionQueue.Create | src/ActionQueue.js:6-14 | Rejects exactly the caps CheckCap rejects; otherwise a fresh open empty queue with that cap |
| ActionQueues.ActionQueue.FillSlots | src/ActionQueue.js:17-23 | The loop brings the list to `Filled` of the old list on an open queue and changes nothing on a completed one |
| ActionQueues.ActionQueue.Perform | src/ActionQueue.js:60-80 | A missing, stopped or non-`new` task is left alone. Otherwise the task becomes active and the list is republished. On an open queue below the cap, perform is a no-op. Statuses move only forward |
| ActionQueues.ActionQueue.PerformNext | src/ActionQueue.js:40-54 | Performs exactly the earliest pending task, or changes nothing when none is pending |
| ActionQueues.ActionQueue.Add | src/ActionQueue.js:101-117 | A non-function changes nothing. Otherwise exactly one task with the next id is appended, and earlier tasks are unchanged. The new task is active exactly when the queue is open and a slot was free, and new otherwise. The cap is kept |
| ActionQueues.ActionQueue.SettleOk | src/ActionQueue.js:81-86 | On a completed queue nothing is recorded; otherwise the list becomes AfterSuccess. The cap and forward progress are kept |
| ActionQueues.ActionQueue.SettleErr | src/ActionQueue.js:87-91 | Corrected: the failure is recorded in the snapshot (RecordFailure). On an open queue, the admission check follows (AfterFailure). The cap and forward progress are kept |
| ActionQueues.ActionQueue.RemoveTask | src/ActionQueue.js:94-99 | Nothing on a completed queue or for a stopped task, including a task no longer listed that has since stopped. Otherwise the list becomes AfterRemoval, within the cap |
| ActionQueues.ActionQueue.Complete | src/ActionQueue.js:56-58 | The queue is closed and every task is completed; a second call changes nothing |
| Scenarios.SubmitThree | test/ActionQueue.spec.js:274-276 | With cap 3 and a fresh id counter, the first three submissions are active at once and take ids 1-3 |
| Scenarios.SubmitThreeMore | test/ActionQueue.spec.js:277-287 | The next three wait as `new` |
| Scenarios.FirstResolves | test/ActionQueue.spec.js:287-291 | of_first is done and of_fourth is admitted |
| Scenarios.SecondResolves | test/ActionQueue.spec.js:291-295 | of_second is done and of_fifth is admitted |
| Scenarios.ThirdResolves | test/ActionQueue.spec.js:295-298 | of_third is done and of_sixth is admitted |
| Scenarios.FourthResolves | test/ActionQueue.spec.js:298-301 | of_fourth is done and nothing is left to admit |
| Scenarios.FifthFails | test/ActionQueue.spec.js:301-305 | Through the corrected `SettleErr`, of_fifth is listed as errored with its reason "of fifth" and of_sixth stays active |
| Scenarios.SixthResolves | test/ActionQueue.spec.js:306 | All done but of_fifth, which stays errored with its reason |
| Scenarios.ResolveAdvances | src/ActionQueue.js:81-86 | In a list at rest within the cap, resolving active task k lists it as done and admits the first `new` task, if any. The active count drops by one only when nothing waits |
| Scenarios.RejectAdvances | src/ActionQueue.js:87-90 | The same for a corrected rejection, which lists the task as `error` and records its reason; in both lemmas every other task that is not `new` is untouched |
| Scenarios.OverflowWithFailure | test/ActionQueue.spec.js:224-307 | The whole trace ends with five tasks reported `done` and of_fifth reported `error`, none active |
| Scenarios.ReportsAsProfiled | test/ActionQueue.spec.js:306 | The `status` getter groups the final list as the test's last profile does: of_fifth under `error`, the rest under `done` |
| Scenarios.StartTwo | src/ActionQueue.js:17-23 | With cap 1, the first of two submissions is active and the second waits as `new` |
| Scenarios.ShutDown | src/ActionQueue.js:27-35 | After `complete()`, both tasks serialize as "stopped" and are done. The running task's later resolution and later rejection record nothing: it stays `active` with no result and no error, and the getter reports it `done`. A non-function is refused. A later `add` is listed as `new` and not admitted |

## Left out

- Logging and warnings (`console.log`/`console.warn`) are not modelled, including the foreign-queue warning at src/ActionQueue.js:71-73, which does not abort. The one log call that changes control flow, `err.message` at src/ActionQueue.js:88, is modelled by `ActionQueues.AfterFailureAsWritten`.
- The work function, `setTimeout` delays and real asynchrony become the external settle events `SettleOk` and `SettleErr`. The model has no timing and no interleaving.
- The `EventEmitter` base class, the unused `finished`/`failed` subjects (src/ActionQueue.js:12-13) and `subscribe` (lines 119-121) are left out.
- The library internals of `BehaviorSubject` are not modelled. This includes the replay of the current list to a new subscriber. In `add` (line 105) the replay republishes the unchanged list before the append. On a list at rest that admits nothing (`Admission.FilledAtRest`).
- Tasks.StatusOf: the code reads `_value.error`, but no code shown ever writes an `error` field into a snapshot. Read literally, an errored task would report `done`, yet the tests' profiles group it under `error`. The model records a failure in the snapshot, as status `error` with an error field, so that the getter reports `error` when that error is truthy.
- Tasks.Truthy: the values the model has are `undefined`, `null`, integers, strings, functions and arrays; `false`, `NaN`, `-0` and other objects are not modelled.
- ActionQueues.CheckCap: the cap is an integer. Non-integer numbers such as 2.5, `NaN` and `Infinity` are not modelled. JavaScript's number width is not modelled either.
- ActionQueues.ActionQueue.Perform: takes a position in this queue's list. Performing a task object that is not in the list is not modelled. That includes a task from another queue, whose publications go to its own queue.
- ActionQueues.ActionQueue.SettleOk: takes the task's id and requires the task, if listed, to be active. This is the only state in which the awaited work of a `perform` can settle.
- ActionQueues.ActionQueue.SettleErr: takes the same id and has the same requirement as SettleOk. It follows the corrected failure path described under Findings, not the code as written: it records the failure in the snapshot and, while the queue is open, runs the admission check.
- ActionQueues.AfterFailureAsWritten: in the library, reading `value` of an errored task throws instead of returning the snapshot. So line 19 throws on that task at every later publication, before `performNext`, and the queue admits nobody from then on, whatever the cap. The model keeps the snapshot as the task last published it, with raw status `active`, and counts it; the throw itself, and what it does to the list's subscription, are not modelled. For a nullish reason, the rejection of `perform`'s promise, which nobody handles, is not modelled either.
- ActionQueues.AfterFailureAsWrittenHoldsSlot: with a cap above 1, the model still fills the other slots after another task settles, while the code, whose line 19 throws on the errored task, admits nobody. Only the errored task's own slot is shown to stay held.
- ActionQueues.ActionQueue.RemoveTask: the task is passed as a value and identified by its id. A task's current state is its listed copy while it is listed, and the caller's copy once it no longer is.
- Tasks.IdCounter: `_id` is shared by all queues in a process. The model makes it an explicit object passed to `Add`.

## Findings

| source | as written | input that shows it | evidently intended | confidence | as-written member | corrected member |
|---|---|---|---|---|---|---|
| src/ActionQueue.js:87-90 | On failure the task is errored, which stops it but writes nothing into its snapshot. The observer's `removeTask` and the explicit `removeTask(task)` both return at once for a stopped task, so the list is not republished. At every later publication line 19 throws on A's `value`, so no later publication admits anyone. A nullish reason makes line 88 throw before line 89, so A is not even stopped and stays `active` | cap 1, tasks [A active, B new]; A's work rejects with a non-nullish reason, then `add(C)`: B and C stay `new` (the model still counts A as active; the code throws at line 19) | a failed task frees its slot for the next waiting task, as a successful one does | not executed | ActionQueues.FailureAsWrittenLeavesSlotIdle | ActionQueues.AfterFailureFreesSlot |
