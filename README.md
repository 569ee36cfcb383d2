# Delayed-task scheduler, sequential core

This project models the engine of a small Java scheduler for delayed tasks.
A client schedules a task under an id with a delay, and may later cancel it
by id. Worker threads repeatedly take the task that falls due first and run
its action unless it was cancelled.

The state is two structures kept side by side:

- **the store** (`queue`): a priority queue of task records ordered by due time;
- **the index** (`taskMap`): a map from id to record.

Cancellation is lazy. `cancel` only sets a flag on the record the index
files under the id. The record stays in the store until a worker pops it and
then skips its action.

The model is sequential. Threads and locks are removed. The clock reading is
an argument `now`. Running an action appends the task's id to a ghost log
`executed`.

Modules:

- `TaskModel` (`task.dfy`): the `Task` class. Its id, due time and action are
  constant. Its `cancelled` flag is mutable. `CompareTo` compares due times
  only.
- `TaskStore` (`task_store.dfy`): the store as a sequence of records and the
  index as a map, treated as values.
  - `Earliest` and `Head` define which record `peek`/`poll` take.
  - `RemoveAt` is the pop.
  - Two invariants:
    - `Wellformed`: each record is stored once, each index entry is filed
      under its own record's id, and the index reaches only stored records.
      Every operation keeps it.
    - `Consistent`: `Wellformed`, and every stored record is reachable by its
      id. Equivalently, store and index hold the same records.
  - Lemmas saying which operation keeps which invariant.
- `Scheduler` (`scheduler.dfy`): the `TaskScheduler` class with fields
  `queue`, `taskMap` and `executed`.
  - Methods `Schedule`, `Cancel` and `Step` (one pass of the worker loop).
  - `WorkerLoop`: the loop itself, one pass per clock reading.
  - The pure function `NextOutcome`: what a pass does on a given store at a
    given time.
- `Scenarios` (`scenarios.dfy`): small client methods whose assertions follow
  from the contracts:
  - tasks run in due order;
  - a cancelled task is popped but never run;
  - cancelling an unknown id changes nothing;
  - a duplicate id lets the older record escape cancellation.

### Duplicate ids

On a duplicate id the code does not keep store and index one-to-one. The
model follows the code:

- `schedule` always adds a new record to the store and overwrites the index
  entry (`put`). The older record stays in the store, unreachable by id.
  `Schedule` proves that in this case `InSync()` (store and index consistent)
  is false afterwards.
- `cancel` then reaches only the newer record.
- When the older record is popped, `remove(id)` deletes the *newer* record's
  entry. `TaskStore.PopDisplacedLosesNewer` shows this.
- With fresh ids, consistency is preserved by every operation.

## Model

| member | source | states |
|---|---|---|
| TaskModel.Task.constructor | src/model/Task.java:9-13 | the record keeps the given id and action; its due time is the creation time plus the delay, so a zero or negative delay gives a record already due; it starts not cancelled |
| TaskModel.Task.CompareTo | src/model/Task.java:15-18 | the comparison is the sign of the difference of the two due times (`Long.compare`) |
| TaskModel.CompareToAntisymmetric | src/model/Task.java:17 | swapping the operands negates the comparison |
| TaskModel.CompareToZeroIff | src/model/Task.java:17 | the comparison is 0 exactly when the due times are equal, and negative exactly when the first is due earlier |
| TaskModel.CompareToOnlyDueTime | src/model/Task.java:15-18 | two pairs of records with equal due times compare alike, whatever their ids, actions and flags |
| TaskModel.Task.SetCancelled | src/model/Task.java:36-38 | afterwards the flag reads back as the given value; id, due time and action are constants and cannot change |
| TaskStore.Earliest | src/service/TaskScheduler.java:60 | `peek` position: a record whose due time is no later than every other, and no later by `CompareTo`; every record before it is due strictly later |
| TaskStore.Head | src/service/TaskScheduler.java:60 | the peeked record is in the store and is due no later than every stored record |
| TaskStore.RemoveAt | src/service/TaskScheduler.java:69 | `poll` removes exactly one occurrence of the chosen record: the store shrinks by one, its multiset loses exactly that record, and the rest keep their order |
| TaskStore.ConsistentIffSameRecords | src/service/TaskScheduler.java:31-32 | for a well formed state, consistency is exactly "a record is in the store if and only if it is a value of the index" |
| TaskStore.ConsistentIdsUnique | src/service/TaskScheduler.java:31-32 | in a consistent state no two stored records share an id |
| TaskStore.InsertPreservesWellformed | src/service/TaskScheduler.java:30-32 | `offer` plus `put` under any id keeps the state well formed |
| TaskStore.InsertFreshPreservesConsistent | src/service/TaskScheduler.java:30-32 | `offer` plus `put` under a fresh id keeps store and index holding the same records |
| TaskStore.InsertDuplicateBreaksConsistent | src/service/TaskScheduler.java:30-32 | `put` under an id already indexed displaces the old record from the index while it stays in the store, so store and index no longer hold the same records |
| TaskStore.PopPreservesWellformed | src/service/TaskScheduler.java:69-70 | `poll` of any record plus `remove` of its id keeps the state well formed |
| TaskStore.PopPreservesConsistent | src/service/TaskScheduler.java:69-70 | in a consistent state the popped record is the one indexed under its id, and the pop keeps store and index in step |
| TaskStore.PopDisplacedLosesNewer | src/service/TaskScheduler.java:69-70 | popping a record displaced by a later `put` removes the newer record's index entry, leaving the newer record in the store unreachable by id |
| TaskStore.PopEarliest | src/service/TaskScheduler.java:60-70 | popping the earliest record keeps the state well formed (and consistent if it was), removes exactly that record, and it is due no later than every record left |
| Scheduler.NextOutcome | src/service/TaskScheduler.java:56-74 | a pass waits for a task exactly when the store is empty; it waits for the due time exactly when the earliest record is not due, for a positive number of milliseconds; otherwise it pops the earliest record, which is due, and runs it exactly when it is not cancelled |
| Scheduler.Dequeued | src/service/TaskScheduler.java:69 | no more records are popped than passes made, and every popping pass's record is among them |
| Scheduler.RanIds | src/service/TaskScheduler.java:72-73 | no more ids run than records popped, and the id of every running pass's record is among them |
| Scheduler.OutcomesAppend | src/service/TaskScheduler.java:69-73 | one more pass extends the popped records and the run ids by its own record exactly when it popped or ran |
| Scheduler.PassExtends | src/service/TaskScheduler.java:53-80 | one more iteration of the loop keeps: popped records due at their readings, popped in due order, no later than what is left, and the log grown by exactly the ids that ran |
| Scheduler.PopExtendsRun | src/service/TaskScheduler.java:60-70 | popping the earliest remaining record extends an in-due-order run of pops, and the store plus the popped records still make up the initial store |
| Scheduler.DueExtends | src/service/TaskScheduler.java:63-69 | a record popped at a reading was due at that reading, for every pass so far |
| Scheduler.LogExtends | src/service/TaskScheduler.java:72-73 | the log is the initial log followed by the ids of the records that ran, in order |
| Scheduler.LiveExtends | src/service/TaskScheduler.java:72-74 | one more pass keeps "every popped record ran exactly when it is not cancelled" for all passes so far |
| Scheduler.IndexExtends | src/service/TaskScheduler.java:69-70 | one more pass deletes from the index exactly the id of the record it popped, so the index is always the initial one minus the ids of the records popped so far |
| Scheduler.TaskScheduler.constructor | src/service/TaskScheduler.java:10-11 | a new scheduler has an empty store, an empty index and nothing run; it is consistent |
| Scheduler.TaskScheduler.Schedule | src/service/TaskScheduler.java:27-38 | the store gains exactly one new record, last, with the given id and action, due at `now + delayMillis`, not cancelled; the index maps the id to that record and is otherwise unchanged; nothing runs; with a fresh id consistency is kept; with a duplicate id the old record stays stored, is no longer indexed and consistency is lost |
| Scheduler.TaskScheduler.Cancel | src/service/TaskScheduler.java:40-50 | store and index are unchanged; the record indexed under the id is flagged; every other stored record keeps its flag, so an unknown id changes nothing |
| Scheduler.TaskScheduler.Step | src/service/TaskScheduler.java:55-74 | the outcome is `NextOutcome` of the store at `now`; a waiting pass changes nothing; a popping pass removes the earliest record from the store and its id from the index, the record was due, is no later than every record left, and is appended to the log exactly when it is not cancelled; well formedness and consistency are kept |
| Scheduler.TaskScheduler.WorkerLoop | src/service/TaskScheduler.java:52-81 | one pass per clock reading; every popped record was due at its reading; the popped records and the final store together make up the initial store; records are popped in due order, none later than a record left; every popped record ran exactly when it was not cancelled, the log grows by exactly the ids of the records that ran, in order; the final index is the initial one with the id of every popped record deleted |

## Left out

- Worker threads and their creation (`src/service/TaskScheduler.java:16-25`). This is concurrency; the model runs one worker loop.
- `ReentrantLock` and the `Condition` waits and signal. These are blocking mechanics. A waiting pass is a step with outcome `AwaitNonEmpty` or `AwaitDue` that changes nothing.
- `shutdown`, the `running` flag and `Thread.interrupt`. These are cross-thread visibility. `WorkerLoop` stops when its clock readings run out; that stands for shutdown.
- The `InterruptedException` handler and its message on the error stream. This is I/O.
- `System.currentTimeMillis()`. The clock reading is the parameter `now` (one reading per pass in `WorkerLoop`).
- `TaskModel.Task.constructor`: Java `long` wrap-around of `now + delayMillis` is not modelled; due times are unbounded integers.
- `Scheduler.NextOutcome`: the wait is reported in milliseconds, and the `long` overflow of the conversion to nanoseconds is not modelled.
- `Runnable.run()`. It is foreign code. The model appends the task's id to the ghost log `executed` instead, and keeps the runnable as an uninterpreted `Action` value.
- The heap layout of `PriorityQueue`. The store is a sequence in insertion order, and a pop takes the first record with the smallest due time. The Java heap breaks ties arbitrarily; everything defined through `Earliest` (`Head`, `NextOutcome`, and `Step`'s outcome and new store) fixes which tied record is taken; the other stated properties speak only of the smallest due time.
- The getters `getId`, `getExecutionTime`, `getTask` and `isCancelled`. They are reads of the fields `id`, `executionTime`, `action` and `cancelled`.
- `Scheduler.TaskScheduler.WorkerLoop`: actions never fail in the model, so it always makes one pass per reading. In the code the `try` catches only `InterruptedException`, so any other exception from `run()` leaves the loop after the lock is released and that worker stops for good.
- `Scheduler.TaskScheduler.WorkerLoop`: progress is not promised. Nothing is promised about how soon a due task is run, only what holds whenever one is popped.
