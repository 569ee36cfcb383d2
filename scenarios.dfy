/**
 Client programs over the scheduler whose assertions follow from the
 method contracts alone.
 */
module Scenarios {
  import opened TaskModel
  import opened TaskStore
  import opened Scheduler

  /** How two records, the first due later, leave a store that holds them in insertion order. */
  lemma PopTwo(later: Task, earlier: Task)
    requires later.executionTime > earlier.executionTime
    ensures Earliest([later, earlier]) == 1 && Head([later, earlier]) == earlier
    ensures RemoveAt([later, earlier], 1) == [later]
    ensures Earliest([later]) == 0 && Head([later]) == later
    ensures RemoveAt([later], 0) == []
  {
  }

  /** Schedules "a" with delay 50 and then "b" with delay 10, both at time 0, on a new scheduler. */
  method ScheduleTwo(a: Action, b: Action) returns (s: TaskScheduler, ghost ta: Task, ghost tb: Task)
    ensures fresh(s) && s.Valid() && s.queue == [ta, tb] && s.executed == []
    ensures ta.id == "a" && ta.executionTime == 50 && !ta.cancelled
    ensures tb.id == "b" && tb.executionTime == 10 && !tb.cancelled
  {
    s := new TaskScheduler();
    s.Schedule("a", 50, 0, a);
    ta := s.queue[0];
    s.Schedule("b", 10, 0, b);
    tb := s.queue[1];
    assert s.queue == [ta, tb];
  }

  /** "a" due at 50 and "b" due at 10: two passes at time 100 run "b" and then "a". */
  method RunsInDueOrder(a: Action, b: Action)
  {
    var s, ta, tb := ScheduleTwo(a, b);
    PopTwo(ta, tb);
    var first := s.Step(100);
    var second := s.Step(100);
    assert first == Ran(tb) && second == Ran(ta);
    assert s.queue == [] && s.executed == ["b", "a"];
  }

  /** A task cancelled before it falls due is popped when due but not run. */
  method CancelledNeverRuns(x: Action)
  {
    var s := new TaskScheduler();
    s.Schedule("x", 1000, 0, x);
    var early := s.Step(500);
    assert early == AwaitDue(500);
    s.Cancel("x");
    var late := s.Step(1100);
    assert late.Discarded? && late.task.id == "x";
    assert s.executed == [];
  }

  /** Cancelling an unknown id changes nothing. */
  method CancelUnknown(x: Action)
  {
    var s := new TaskScheduler();
    s.Schedule("x", 10, 0, x);
    ghost var tx := s.queue[0];
    s.Cancel("unknown-id");
    assert s.queue == [tx] && !tx.cancelled;
  }

  /**
   Scheduling "d" twice: the cancel reaches only the newer record, and the
   older one still runs.
   */
  method DuplicateIdEscapesCancel(a: Action, b: Action)
  {
    var s := new TaskScheduler();
    s.Schedule("d", 10, 0, a);
    ghost var older := s.queue[0];
    s.Schedule("d", 20, 0, b);
    ghost var newer := s.queue[1];
    assert !s.InSync();
    s.Cancel("d");
    assert newer.cancelled && !older.cancelled;
    var first := s.Step(100);
    assert first == Ran(older);
    assert s.executed == ["d"];
  }
}
