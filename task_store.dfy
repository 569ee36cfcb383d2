/**
 The scheduler's two structures as values: the ordered store, a sequence of
 task records in insertion order from which the earliest is taken, and the
 identifier index, a map from id to record.
 */
module TaskStore {
  import opened TaskModel

  /**
   The position of a record with the smallest due time: the record the
   priority queue's `peek` and `poll` return. Among equal due times the
   earliest inserted is chosen.
   */
  function Earliest(q: seq<Task>): (k: nat)
    requires |q| > 0
    ensures k < |q|
    ensures forall j :: 0 <= j < |q| ==> q[k].executionTime <= q[j].executionTime
    ensures forall j :: 0 <= j < |q| ==> q[k].CompareTo(q[j]) <= 0
    ensures forall j :: 0 <= j < k ==> q[j].executionTime > q[k].executionTime
  {
    if |q| == 1 then 0
    else
      var k' := Earliest(q[1..]);
      if q[0].executionTime <= q[1..][k'].executionTime then 0 else k' + 1
  }

  /** The record `peek` returns: one with the smallest due time. */
  function Head(q: seq<Task>): (t: Task)
    requires |q| > 0
    ensures t in q
    ensures forall r :: r in q ==> t.executionTime <= r.executionTime
  {
    q[Earliest(q)]
  }

  /** The store after removing the record at position `k`; the others keep their order. */
  function RemoveAt(q: seq<Task>, k: nat): (r: seq<Task>)
    requires k < |q|
    ensures |r| == |q| - 1
    ensures multiset(r) == multiset(q) - multiset{q[k]}
    ensures forall i :: 0 <= i < k ==> r[i] == q[i]
    ensures forall i :: k <= i < |r| ==> r[i] == q[i + 1]
  {
    assert q == q[..k] + [q[k]] + q[k + 1..];
    assert multiset(q) == multiset(q[..k]) + multiset{q[k]} + multiset(q[k + 1..]);
    q[..k] + q[k + 1..]
  }

  /** No record occurs twice in the store. */
  ghost predicate Distinct(q: seq<Task>)
  {
    forall i, j :: 0 <= i < j < |q| ==> q[i] != q[j]
  }

  /** Every index entry is filed under its record's own id. */
  ghost predicate KeysAreIds(m: map<string, Task>)
  {
    forall id :: id in m ==> m[id].id == id
  }

  /**
   What every operation keeps, duplicate ids included: the store holds each
   record once, and every record the index reaches is still in the store.
   */
  ghost predicate Wellformed(q: seq<Task>, m: map<string, Task>)
  {
    && Distinct(q)
    && KeysAreIds(m)
    && forall id :: id in m ==> m[id] in q
  }

  /** The intended state: besides being well formed, every stored record is reachable through the index under its id. */
  ghost predicate Consistent(q: seq<Task>, m: map<string, Task>)
  {
    && Wellformed(q, m)
    && forall i :: 0 <= i < |q| ==> q[i].id in m && m[q[i].id] == q[i]
  }

  /** For a well formed state, being consistent is exactly "store and index hold the same records". */
  lemma ConsistentIffSameRecords(q: seq<Task>, m: map<string, Task>)
    requires Wellformed(q, m)
    ensures Consistent(q, m) <==> forall t :: t in q <==> t in m.Values
  {
    if forall t :: t in q <==> t in m.Values {
      forall i | 0 <= i < |q|
        ensures q[i].id in m && m[q[i].id] == q[i]
      {
        assert q[i] in m.Values;
        var id :| id in m && m[id] == q[i];
      }
    }
    if Consistent(q, m) {
      forall t | t in q ensures t in m.Values {
        var i :| 0 <= i < |q| && q[i] == t;
        assert m[q[i].id] == t;
      }
    }
  }

  /** In a consistent state no two stored records share an id. */
  lemma ConsistentIdsUnique(q: seq<Task>, m: map<string, Task>)
    requires Consistent(q, m)
    ensures forall i, j :: 0 <= i < j < |q| ==> q[i].id != q[j].id
  {
  }

  /** An insertion under any id keeps the state well formed. */
  lemma InsertPreservesWellformed(q: seq<Task>, m: map<string, Task>, t: Task)
    requires Wellformed(q, m) && t !in q
    ensures Wellformed(q + [t], m[t.id := t])
  {
    var q', m' := q + [t], m[t.id := t];
    forall id | id in m' ensures m'[id] in q' {
      if id != t.id {
        assert m[id] in q;
      }
    }
  }

  /** An insertion under a fresh id keeps store and index in step. */
  lemma InsertFreshPreservesConsistent(q: seq<Task>, m: map<string, Task>, t: Task)
    requires Consistent(q, m) && t !in q && t.id !in m
    ensures Consistent(q + [t], m[t.id := t])
  {
    InsertPreservesWellformed(q, m, t);
    var q', m' := q + [t], m[t.id := t];
    forall i | 0 <= i < |q'| ensures q'[i].id in m' && m'[q'[i].id] == q'[i] {
      if i < |q| {
        assert q'[i] == q[i];
        assert q[i].id in m;
      }
    }
  }

  /**
   An insertion under an id already in the index overwrites the entry: the
   displaced record stays in the store but the index no longer reaches it,
   so store and index fall out of step.
   */
  lemma InsertDuplicateBreaksConsistent(q: seq<Task>, m: map<string, Task>, t: Task)
    requires Wellformed(q, m) && t !in q && t.id in m
    ensures m[t.id] in q + [t]
    ensures m[t.id] !in m[t.id := t].Values
    ensures !Consistent(q + [t], m[t.id := t])
  {
    var displaced := m[t.id];
    var m' := m[t.id := t];
    assert displaced in q;
    assert displaced != t;
    forall id | id in m' ensures m'[id] != displaced {
      if id != t.id {
        assert m[id].id == id;
      }
    }
    InsertPreservesWellformed(q, m, t);
    ConsistentIffSameRecords(q + [t], m');
  }

  /** Popping any record and deleting its id from the index keeps the state well formed. */
  lemma PopPreservesWellformed(q: seq<Task>, m: map<string, Task>, k: nat)
    requires Wellformed(q, m) && k < |q|
    ensures Wellformed(RemoveAt(q, k), m - {q[k].id})
  {
    var q', m' := RemoveAt(q, k), m - {q[k].id};
    forall i, j | 0 <= i < j < |q'| ensures q'[i] != q'[j] {
      var i0 := if i < k then i else i + 1;
      var j0 := if j < k then j else j + 1;
      assert q'[i] == q[i0] && q'[j] == q[j0];
    }
    forall id | id in m' ensures m'[id] in q' {
      var t := m[id];
      assert t in q;
      assert t != q[k];
      assert t in multiset(q');
    }
  }

  /**
   In a consistent state the popped record is the one the index files under
   its id, and deleting that id keeps store and index in step.
   */
  lemma PopPreservesConsistent(q: seq<Task>, m: map<string, Task>, k: nat)
    requires Consistent(q, m) && k < |q|
    ensures q[k].id in m && m[q[k].id] == q[k]
    ensures Consistent(RemoveAt(q, k), m - {q[k].id})
  {
    PopPreservesWellformed(q, m, k);
    var q', m' := RemoveAt(q, k), m - {q[k].id};
    forall i | 0 <= i < |q'| ensures q'[i].id in m' && m'[q'[i].id] == q'[i] {
      var i0 := if i < k then i else i + 1;
      assert q'[i] == q[i0];
      assert q[i0] != q[k];
    }
  }

  /**
   Popping a record that a later insertion under the same id displaced from
   the index deletes the newer record's entry: the newer record stays in
   the store, unreachable by id.
   */
  lemma PopDisplacedLosesNewer(q: seq<Task>, m: map<string, Task>, k: nat)
    requires Wellformed(q, m) && k < |q|
    requires q[k].id in m && m[q[k].id] != q[k]
    ensures m[q[k].id] in RemoveAt(q, k)
    ensures m[q[k].id] !in (m - {q[k].id}).Values
  {
    var newer := m[q[k].id];
    assert newer in q;
    assert newer in multiset(RemoveAt(q, k));
    var m' := m - {q[k].id};
    forall id | id in m' ensures m'[id] != newer {
      assert m[id].id == id;
    }
  }

  /**
   What a pop of the earliest record does to a well formed state: it stays
   well formed, a consistent state stays consistent, exactly that record
   leaves the store, and it is due no later than any record left.
   */
  lemma PopEarliest(q: seq<Task>, m: map<string, Task>)
    requires Wellformed(q, m) && |q| > 0
    ensures Wellformed(RemoveAt(q, Earliest(q)), m - {Head(q).id})
    ensures Consistent(q, m) ==> Consistent(RemoveAt(q, Earliest(q)), m - {Head(q).id})
    ensures multiset(q) == multiset(RemoveAt(q, Earliest(q))) + multiset{Head(q)}
    ensures forall r :: r in RemoveAt(q, Earliest(q)) ==> Head(q).executionTime <= r.executionTime
  {
    var k := Earliest(q);
    PopPreservesWellformed(q, m, k);
    if Consistent(q, m) {
      PopPreservesConsistent(q, m, k);
    }
    forall t | t in RemoveAt(q, k) ensures q[k].executionTime <= t.executionTime {
      assert t in multiset(q);
    }
  }
}
