/**
 The task record: an identifier, an absolute due time fixed at construction,
 the work to run, and the one mutable field, the cancellation flag.
 */
module TaskModel {

  /** The unit of work a task carries. The model never runs or inspects it. */
  datatype Action = Action(name: string)

  /** The sign of an integer: -1, 0 or 1. */
  function Sign(x: int): (s: int)
    ensures s == -1 || s == 0 || s == 1
    ensures (s < 0 <==> x < 0) && (s == 0 <==> x == 0) && (s > 0 <==> x > 0)
  {
    if x < 0 then -1 else if x == 0 then 0 else 1
  }

  class Task {
    const id: string
    /** Absolute due time in milliseconds, computed once from the creation time and the delay. */
    const executionTime: int
    const action: Action
    var cancelled: bool

    /** `now` is the clock reading taken at construction. */
    constructor (id: string, delayMillis: int, now: int, action: Action)
      ensures this.id == id && this.action == action
      ensures executionTime == now + delayMillis
      ensures delayMillis <= 0 ==> executionTime <= now
      ensures !cancelled
    {
      this.id := id;
      this.executionTime := now + delayMillis;
      this.action := action;
      this.cancelled := false;
    }

    /** The ordering of the priority queue: compares due times only. */
    function CompareTo(other: Task): (r: int)
      ensures r == Sign(executionTime - other.executionTime)
    {
      if executionTime < other.executionTime then -1
      else if executionTime == other.executionTime then 0
      else 1
    }

    method SetCancelled(b: bool)
      modifies this
      ensures cancelled == b
    {
      cancelled := b;
    }
  }

  lemma CompareToAntisymmetric(a: Task, b: Task)
    ensures a.CompareTo(b) == -b.CompareTo(a)
  {
  }

  lemma CompareToZeroIff(a: Task, b: Task)
    ensures a.CompareTo(b) == 0 <==> a.executionTime == b.executionTime
    ensures a.CompareTo(b) < 0 <==> a.executionTime < b.executionTime
  {
  }

  /** Two pairs of tasks with the same due times compare alike, whatever their ids, actions and flags. */
  lemma CompareToOnlyDueTime(a: Task, b: Task, c: Task, d: Task)
    requires a.executionTime == c.executionTime && b.executionTime == d.executionTime
    ensures a.CompareTo(b) == c.CompareTo(d)
  {
  }
}
