/**
 * A task: the lifecycle record of one unit of work (src/Task.js).
 *
 * A task is an observable cell holding a snapshot `{fn, args, status, queue}`
 * plus a "stopped" flag that becomes true once its stream has been completed
 * or errored. The queue type is a parameter: a task only carries a reference
 * to the queue that created it.
 */
module Tasks {
  import opened Wrappers

  /** The JavaScript values the model needs: work functions, their arguments and results. */
  datatype Value =
    | Undefined
    | Null
    | Number(n: int)
    | Text(s: string)
    | Function(name: string, code: nat)  // `code` tells apart functions that share a name
    | List(items: seq<Value>)

  /** JavaScript truthiness: `undefined`, `null`, `0` and `""` are falsy; functions and arrays are objects, so truthy. */
  predicate Truthy(v: Value)
  {
    !(v.Undefined? || v.Null? || v == Number(0) || v == Text(""))
  }

  /** `undefined` and `null`, the values whose properties cannot be read. */
  predicate Nullish(v: Value)
  {
    v.Undefined? || v.Null?
  }

  /** The raw `status` field of a snapshot. */
  datatype Status = New | Active | Done | Error

  predicate Terminal(s: Status) { s == Done || s == Error }

  /**
   * The snapshot a task publishes. `result` is present once the work
   * succeeded; `error` is the field the `status` getter looks at.
   */
  datatype Snapshot<Q> = Snapshot(
    fn: Value,
    args: seq<Value>,
    status: Status,
    queue: Q,
    result: Option<Value>,
    error: Option<Value>)

  /** `$name`: the function's name, or the numeric id when the name is empty. */
  datatype Name = Named(s: string) | Numbered(n: nat)

  datatype Task<Q> = Task(id: nat, name: Name, value: Snapshot<Q>, stopped: bool)

  datatype TaskError = NotAFunction

  /** The shape `toJSON` returns: the snapshot without its queue, or the marker "stopped". */
  datatype Json =
    | Stopped
    | Record(fn: Value, args: seq<Value>, status: Status, result: Option<Value>, error: Option<Value>)

  /** A snapshot is consistent when the error field marks exactly the failed state
      and a result is carried only by a finished task. */
  predicate WellFormed<Q>(t: Task<Q>)
  {
    && (t.value.status == Error <==> t.value.error.Some?)
    && (t.value.result.Some? ==> t.value.status == Done)
  }

  /** The constructor, given the id it draws from the counter. */
  function Create<Q>(id: nat, queue: Q, fn: Value, args: Option<seq<Value>>): (r: Result<Task<Q>, TaskError>)
    ensures r.Failure? <==> !fn.Function?
    ensures r.Success? ==>
      && r.value.id == id
      && r.value.value == Snapshot(fn, if args.Some? then args.value else [], New, queue, None, None)
      && !r.value.stopped
      && r.value.name == (if fn.name != "" then Named(fn.name) else Numbered(id))
  {
    if !fn.Function? then Failure(NotAFunction)
    else
      var name := if fn.name != "" then Named(fn.name) else Numbered(id);
      Success(Task(id, name, Snapshot(fn, if args.Some? then args.value else [], New, queue, None, None), false))
  }

  /** The getters' test of the snapshot's error field: present and truthy. */
  predicate ErrorShown<Q>(t: Task<Q>)
  {
    t.value.error.Some? && Truthy(t.value.error.value)
  }

  /** The `status` getter. */
  function StatusOf<Q>(t: Task<Q>): (s: Status)
    ensures ErrorShown(t) ==> s == Error
    ensures !ErrorShown(t) && t.stopped ==> s == Done
    ensures !ErrorShown(t) && !t.stopped ==> s == t.value.status
  {
    if ErrorShown(t) then Error
    else if t.stopped then Done
    else t.value.status
  }

  /** The `isDone` getter. */
  function IsDone<Q>(t: Task<Q>): (done: bool)
    ensures t.stopped ==> done
    ensures !t.stopped ==> (done <==> t.value.status == Done && !ErrorShown(t))
  {
    t.stopped || StatusOf(t) == Done
  }

  /** `toJSON`. */
  function ToJson<Q>(t: Task<Q>): (j: Json)
    ensures j.Stopped? <==> t.stopped
    ensures j.Record? ==>
      j.fn == t.value.fn && j.args == t.value.args && j.status == t.value.status
      && j.result == t.value.result && j.error == t.value.error
  {
    if t.stopped then Stopped
    else Record(t.value.fn, t.value.args, t.value.status, t.value.result, t.value.error)
  }

  /** Puts a queue back into a serialized record: the inverse of what `toJSON` drops. */
  function WithQueue<Q>(j: Json, queue: Q): Snapshot<Q>
    requires j.Record?
  {
    Snapshot(j.fn, j.args, j.status, queue, j.result, j.error)
  }

  /** `toJSON` removes the queue and nothing else: putting it back restores the snapshot. */
  lemma ToJsonDropsOnlyQueue<Q>(t: Task<Q>)
    requires !t.stopped
    ensures ToJson(t).Record? && WithQueue(ToJson(t), t.value.queue) == t.value
  {
  }

  /** What `toJSON` shows does not depend on which queue the task belongs to. */
  lemma ToJsonIgnoresQueue<Q>(t: Task<Q>, other: Q)
    ensures ToJson(t.(value := t.value.(queue := other))) == ToJson(t)
  {
  }

  /** For a consistent task, `status` reports Error exactly when the snapshot is failed and,
      once the task is stopped, its error is truthy; it reports a terminal status whenever the
      task is stopped, and `isDone` holds exactly when the task is stopped or has finished
      successfully. */
  lemma StatusOfWellFormed<Q>(t: Task<Q>)
    requires WellFormed(t)
    ensures StatusOf(t) == Error <==> t.value.status == Error && (!t.stopped || Truthy(t.value.error.value))
    ensures t.stopped ==> Terminal(StatusOf(t))
    ensures !t.stopped ==> StatusOf(t) == t.value.status
    ensures IsDone(t) <==> t.stopped || t.value.status == Done
  {
  }

  /** A freshly constructed task is new, not done, and serializes to its inputs. */
  lemma CreatedTaskIsNew<Q>(id: nat, queue: Q, fn: Value, args: seq<Value>)
    requires fn.Function?
    ensures var t := Create(id, queue, fn, Some(args)).value;
      && WellFormed(t)
      && StatusOf(t) == New
      && !IsDone(t)
      && ToJson(t) == Record(fn, args, New, None, None)
  {
  }

  /**
   * The module-level counter `_id`. Each successful construction advances it
   * by one before the task takes it as its id, so ids strictly increase.
   */
  class IdCounter {
    var last: nat

    constructor ()
      ensures last == 0
    {
      last := 0;
    }

    /** `new Task(queue, fn, args)`: the type check comes before the counter moves. */
    method NewTask<Q>(queue: Q, fn: Value, args: Option<seq<Value>>) returns (r: Result<Task<Q>, TaskError>)
      modifies this
      ensures r == Create(old(last) + 1, queue, fn, args)
      ensures r.Failure? ==> last == old(last)
      ensures r.Success? ==> last == old(last) + 1 && r.value.id == last
    {
      if !fn.Function? {
        return Failure(NotAFunction);
      }
      last := last + 1;
      r := Create(last, queue, fn, args);
    }
  }
}
