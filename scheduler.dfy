/**
 The scheduler engine, sequentially: the ordered store `queue` and the id
 index `taskMap` kept side by side, with `schedule`, `cancel` and one pass
 of the worker loop as methods. The clock is an argument; running an action
 appends its task's id to the ghost log `executed`.
 */
module Scheduler {
  import opened TaskModel
  import opened TaskStore

  /** What one pass of the worker loop does. */
  datatype Outcome =
    | AwaitNonEmpty            // the store is empty: the worker blocks until a task is scheduled
    | AwaitDue(waitMillis: int) // the earliest task is not due: the worker blocks this long at most
    | Ran(task: Task)          // the earliest task was due and not cancelled: it was removed and run
    | Discarded(task: Task)    // the earliest task was due but cancelled: it was removed and not run
  {
    predicate Popped() { Ran? || Discarded? }
  }

  /**
   What a worker that peeks at the store `q` at clock reading `now` does:
   wait for a task, wait for the earliest one to fall due, or pop the
   earliest and run it unless it is cancelled.
   */
  function NextOutcome(q: seq<Task>, now: int): (o: Outcome)
    reads q
    ensures o == AwaitNonEmpty <==> q == []
    ensures o.AwaitDue? <==> q != [] && Head(q).executionTime > now
    ensures o.AwaitDue? ==> o.waitMillis == Head(q).executionTime - now > 0
    ensures o.Popped() ==> q != [] && o.task == Head(q) && o.task.executionTime <= now
    ensures o.Popped() ==> (o.Ran? <==> !o.task.cancelled)
  {
    if q == [] then AwaitNonEmpty
    else
      var t := Head(q);
      if t.executionTime > now then AwaitDue(t.executionTime - now)
      else if t.cancelled then Discarded(t)
      else Ran(t)
  }

  /** The records the passes `os` popped from the store, in order. */
  function Dequeued(os: seq<Outcome>): (ts: seq<Task>)
    ensures |ts| <= |os|
    ensures forall i :: 0 <= i < |os| && os[i].Popped() ==> os[i].task in ts
  {
    if os == [] then []
    else
      var last := os[|os| - 1];
      if last.Popped() then Dequeued(os[..|os| - 1]) + [last.task] else Dequeued(os[..|os| - 1])
  }

  /** The ids of the tasks whose actions the passes `os` ran, in order. */
  function RanIds(os: seq<Outcome>): (ids: seq<string>)
    ensures |ids| <= |Dequeued(os)|
    ensures forall i :: 0 <= i < |os| && os[i].Ran? ==> os[i].task.id in ids
  {
    if os == [] then []
    else
      var last := os[|os| - 1];
      if last.Ran? then RanIds(os[..|os| - 1]) + [last.task.id] else RanIds(os[..|os| - 1])
  }

  lemma OutcomesAppend(os: seq<Outcome>, o: Outcome)
    ensures Dequeued(os + [o]) == if o.Popped() then Dequeued(os) + [o.task] else Dequeued(os)
    ensures RanIds(os + [o]) == if o.Ran? then RanIds(os) + [o.task.id] else RanIds(os)
  {
    assert (os + [o])[..|os|] == os;
  }

  /**
   What the passes `passes`, made at the first clock readings of `clock`,
   have done so far: each popped record was due at its reading, the popped records
   were taken from `start` in due order leaving `q`, and the log grew from
   `log0` to `log` by the ids of the records that ran.
   */
  ghost predicate PassesSoFar(start: seq<Task>, q: seq<Task>, log0: seq<string>, log: seq<string>,
                              clock: seq<int>, passes: seq<Outcome>)
  {
    && DueAtReadings(clock, passes)
    && DequeuedInOrder(start, q, Dequeued(passes))
    && log == log0 + RanIds(passes)
  }

  /** One more pass at reading `now`, with outcome `o`, extends what the passes have done. */
  lemma PassExtends(start: seq<Task>, q: seq<Task>, q': seq<Task>, log0: seq<string>, log: seq<string>, log': seq<string>,
                    clock: seq<int>, passes: seq<Outcome>, o: Outcome)
    requires PassesSoFar(start, q, log0, log, clock, passes) && |passes| < |clock|
    requires o.Popped() ==>
      && multiset(q) == multiset(q') + multiset{o.task}
      && (forall r :: r in q' ==> o.task.executionTime <= r.executionTime)
      && o.task.executionTime <= clock[|passes|]
    requires !o.Popped() ==> q' == q
    requires log' == if o.Ran? then log + [o.task.id] else log
    ensures PassesSoFar(start, q', log0, log', clock, passes + [o])
  {
    OutcomesAppend(passes, o);
    if o.Popped() {
      PopExtendsRun(start, q, Dequeued(passes), o.task, q');
    }
    LogExtends(log0, log, log', passes, o);
    DueExtends(clock, passes, o);
  }

  /** Every record the passes popped was due at the reading of its pass. */
  ghost predicate DueAtReadings(clock: seq<int>, passes: seq<Outcome>)
  {
    && |passes| <= |clock|
    && forall j :: 0 <= j < |passes| && passes[j].Popped() ==> passes[j].task.executionTime <= clock[j]
  }

  lemma DueExtends(clock: seq<int>, passes: seq<Outcome>, o: Outcome)
    requires DueAtReadings(clock, passes) && |passes| < |clock|
    requires o.Popped() ==> o.task.executionTime <= clock[|passes|]
    ensures DueAtReadings(clock, passes + [o])
  {
    var passes' := passes + [o];
    assert forall j :: 0 <= j < |passes| ==> passes'[j] == passes[j];
  }

  lemma LogExtends(log0: seq<string>, log: seq<string>, log': seq<string>, passes: seq<Outcome>, o: Outcome)
    requires log == log0 + RanIds(passes)
    requires log' == if o.Ran? then log + [o.task.id] else log
    ensures log' == log0 + RanIds(passes + [o])
  {
    OutcomesAppend(passes, o);
  }

  /**
   The records `popped` have been taken from the store `start`, leaving `q`:
   together they make up `start`, they were taken in due order, and none is
   due later than a record still in `q`.
   */
  ghost predicate DequeuedInOrder(start: seq<Task>, q: seq<Task>, popped: seq<Task>)
  {
    && multiset(start) == multiset(q) + multiset(popped)
    && InDueOrder(popped)
    && forall j, r :: 0 <= j < |popped| && r in q ==> popped[j].executionTime <= r.executionTime
  }

  /** Taking the earliest record of `q` next extends an in-order run. */
  lemma PopExtendsRun(start: seq<Task>, q: seq<Task>, popped: seq<Task>, t: Task, q': seq<Task>)
    requires DequeuedInOrder(start, q, popped)
    requires multiset(q) == multiset(q') + multiset{t}
    requires forall r :: r in q' ==> t.executionTime <= r.executionTime
    ensures DequeuedInOrder(start, q', popped + [t])
  {
    assert t in multiset(q);
    assert t in q;
    forall r | r in q' ensures r in q {
      assert r in multiset(q');
      assert r in multiset(q);
    }
    assert multiset(popped + [t]) == multiset(popped) + multiset{t};
  }

  /** The ids of the records the passes `os` popped. */
  ghost function PoppedIds(os: seq<Outcome>): set<string>
  {
    set t | t in Dequeued(os) :: t.id
  }

  /** One more pass deletes from the index exactly the id of the record it popped, if any. */
  lemma IndexExtends(m0: map<string, Task>, m: map<string, Task>, m': map<string, Task>, passes: seq<Outcome>, o: Outcome)
    requires m == m0 - PoppedIds(passes)
    requires m' == if o.Popped() then m - {o.task.id} else m
    ensures m' == m0 - PoppedIds(passes + [o])
  {
    OutcomesAppend(passes, o);
    if o.Popped() {
      assert PoppedIds(passes + [o]) == PoppedIds(passes) + {o.task.id};
    }
  }

  /** Every pass that popped a record ran it exactly when the record is not cancelled. */
  ghost predicate RanIffLive(passes: seq<Outcome>)
    reads set o | o in passes && o.Popped() :: o.task
  {
    forall i :: 0 <= i < |passes| && passes[i].Popped() ==> (passes[i].Ran? <==> !passes[i].task.cancelled)
  }

  lemma LiveExtends(passes: seq<Outcome>, o: Outcome)
    requires RanIffLive(passes)
    requires o.Popped() ==> (o.Ran? <==> !o.task.cancelled)
    ensures RanIffLive(passes + [o])
  {
    var passes' := passes + [o];
    assert forall j :: 0 <= j < |passes| ==> passes'[j] == passes[j];
  }

  /** Due times never decrease along `ps`. */
  ghost predicate InDueOrder(ps: seq<Task>)
  {
    forall i, j :: 0 <= i < j < |ps| ==> ps[i].executionTime <= ps[j].executionTime
  }

  class TaskScheduler {
    var queue: seq<Task>
    var taskMap: map<string, Task>
    ghost var executed: seq<string>

    ghost predicate Valid()
      reads this
    {
      Wellformed(queue, taskMap)
    }

    /** Store and index hold the same records. */
    ghost predicate InSync()
      reads this
    {
      Consistent(queue, taskMap)
    }

    constructor ()
      ensures Valid() && InSync()
      ensures queue == [] && taskMap == map[] && executed == []
    {
      queue := [];
      taskMap := map[];
      executed := [];
    }

    /**
     Creates a task due at `now + delayMillis`, adds it to the store and files
     it in the index under `id`, replacing any earlier entry for `id`.
     */
    method Schedule(id: string, delayMillis: int, now: int, action: Action)
      requires Valid()
      modifies this
      ensures Valid()
      ensures |queue| == |old(queue)| + 1 && queue[..|old(queue)|] == old(queue)
      ensures var t := queue[|queue| - 1];
        && fresh(t) && t.id == id && t.action == action
        && t.executionTime == now + delayMillis && !t.cancelled
        && taskMap == old(taskMap)[id := t]
      ensures executed == old(executed)
      ensures id !in old(taskMap) && old(InSync()) ==> InSync()
      ensures id in old(taskMap) ==>
        && old(taskMap)[id] in queue
        && old(taskMap)[id] !in taskMap.Values
        && !InSync()
    {
      var t := new Task(id, delayMillis, now, action);
      InsertPreservesWellformed(queue, taskMap, t);
      if id !in taskMap && InSync() {
        InsertFreshPreservesConsistent(queue, taskMap, t);
      }
      if id in taskMap {
        InsertDuplicateBreaksConsistent(queue, taskMap, t);
      }
      queue := queue + [t];
      taskMap := taskMap[id := t];
    }

    /** Sets the flag of the record the index files under `id`; does nothing when there is none. */
    method Cancel(id: string)
      requires Valid()
      modifies if id in taskMap then {taskMap[id]} else {}
      ensures unchanged(this)
      ensures Valid()
      ensures id in taskMap ==> taskMap[id].cancelled
      ensures forall t :: t in queue && (id !in taskMap || t != taskMap[id]) ==> t.cancelled == old(t.cancelled)
    {
      if id in taskMap {
        var t := taskMap[id];
        t.SetCancelled(true);
      }
    }

    /**
     One pass of the worker loop at clock reading `now`: wait while the store
     is empty or its earliest record is not due; otherwise pop that record,
     delete its id from the index, and run its action unless it is cancelled.
     */
    method Step(now: int) returns (outcome: Outcome)
      requires Valid()
      modifies this
      ensures Valid()
      ensures old(InSync()) ==> InSync()
      ensures outcome == old(NextOutcome(queue, now))
      ensures queue == if outcome.Popped() then RemoveAt(old(queue), Earliest(old(queue))) else old(queue)
      ensures taskMap == if outcome.Popped() then old(taskMap) - {outcome.task.id} else old(taskMap)
      ensures executed == if outcome.Ran? then old(executed) + [outcome.task.id] else old(executed)
      ensures outcome.Popped() ==>
        && outcome.task.executionTime <= now
        && (outcome.Ran? <==> !outcome.task.cancelled)
        && multiset(old(queue)) == multiset(queue) + multiset{outcome.task}
        && forall t :: t in queue ==> outcome.task.executionTime <= t.executionTime
    {
      if queue == [] {
        outcome := AwaitNonEmpty;
      } else {
        var k := Earliest(queue);
        var t := queue[k];
        if t.executionTime > now {
          outcome := AwaitDue(t.executionTime - now);
        } else {
          PopEarliest(queue, taskMap);
          queue := RemoveAt(queue, k);
          taskMap := taskMap - {t.id};
          if !t.cancelled {
            executed := executed + [t.id];
            outcome := Ran(t);
          } else {
            outcome := Discarded(t);
          }
        }
      }
    }

    /**
     The worker loop run for as long as the scheduler runs, one pass per
     clock reading in `clock`. Returns what each pass did.
     */
    method WorkerLoop(clock: seq<int>) returns (passes: seq<Outcome>)
      requires Valid()
      modifies this
      ensures Valid()
      ensures old(InSync()) ==> InSync()
      ensures |passes| == |clock|
      ensures forall i :: 0 <= i < |clock| && passes[i].Popped() ==> passes[i].task.executionTime <= clock[i]
      ensures multiset(old(queue)) == multiset(queue) + multiset(Dequeued(passes))
      ensures InDueOrder(Dequeued(passes))
      ensures forall i, t :: 0 <= i < |Dequeued(passes)| && t in queue ==> Dequeued(passes)[i].executionTime <= t.executionTime
      ensures executed == old(executed) + RanIds(passes)
      ensures taskMap == old(taskMap) - PoppedIds(passes)
      ensures forall i :: 0 <= i < |passes| && passes[i].Popped() ==> (passes[i].Ran? <==> !passes[i].task.cancelled)
    {
      passes := [];
      var i := 0;
      while i < |clock|
        invariant 0 <= i <= |clock|
        invariant Valid()
        invariant old(InSync()) ==> InSync()
        invariant |passes| == i
        invariant PassesSoFar(old(queue), queue, old(executed), executed, clock, passes)
        invariant RanIffLive(passes)
        invariant taskMap == old(taskMap) - PoppedIds(passes)
      {
        ghost var q0, m0, log0 := queue, taskMap, executed;
        var outcome := Step(clock[i]);
        PassExtends(old(queue), q0, queue, old(executed), log0, executed, clock, passes, outcome);
        LiveExtends(passes, outcome);
        IndexExtends(old(taskMap), m0, taskMap, passes, outcome);
        passes := passes + [outcome];
        i := i + 1;
      }
    }
  }
}
