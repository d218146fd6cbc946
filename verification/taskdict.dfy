/** A Python `dict[TaskId, Task]` keyed by each task's own id.

    A Python dict remembers insertion order, which the file backend writes
    out line by line, so the dict is a sequence of tasks with pairwise
    distinct ids; `View` is the id-to-task map it denotes. Assigning to a
    present key keeps its position, assigning to a new key appends, and
    `del` removes the entry. */
module TaskDict {
  import opened Wrappers
  import opened Tasks

  predicate HasId(d: seq<Task>, id: string)
  {
    exists i | 0 <= i < |d| :: d[i].taskId == id
  }

  predicate UniqueIds(d: seq<Task>)
  {
    forall i, j | 0 <= i < j < |d| :: d[i].taskId != d[j].taskId
  }

  /** Every dict the repositories hold is keyed by `task_id`. */
  type Dict = d: seq<Task> | UniqueIds(d) witness []

  /** The map a dict denotes. */
  ghost function View(d: seq<Task>): map<string, Task>
    decreases |d|
  {
    if |d| == 0 then map[] else View(d[1..])[d[0].taskId := d[0]]
  }

  lemma {:induction false} ViewKeys(d: seq<Task>, id: string)
    ensures id in View(d) <==> HasId(d, id)
    decreases |d|
  {
    if |d| > 0 {
      ViewKeys(d[1..], id);
      if HasId(d, id) && d[0].taskId != id {
        var i :| 0 <= i < |d| && d[i].taskId == id;
        assert d[1..][i - 1].taskId == id;
      }
    }
  }

  /** The map is keyed by `task_id`: every entry is stored under its own id. */
  lemma {:induction false} ViewKeyedById(d: seq<Task>, id: string)
    ensures id in View(d) ==> View(d)[id].taskId == id
    decreases |d|
  {
    if |d| > 0 {
      ViewKeyedById(d[1..], id);
    }
  }

  lemma {:induction false} ViewAt(d: seq<Task>, i: nat)
    requires UniqueIds(d) && i < |d|
    ensures d[i].taskId in View(d) && View(d)[d[i].taskId] == d[i]
    decreases |d|
  {
    if i > 0 {
      ViewAt(d[1..], i - 1);
    }
  }

  lemma {:induction false} ViewSize(d: seq<Task>)
    requires UniqueIds(d)
    ensures |View(d)| == |d|
    decreases |d|
  {
    if |d| > 0 {
      ViewSize(d[1..]);
      ViewKeys(d[1..], d[0].taskId);
      assert !HasId(d[1..], d[0].taskId) by {
        forall i | 0 <= i < |d[1..]|
          ensures d[1..][i].taskId != d[0].taskId
        {
          assert d[1..][i] == d[i + 1];
        }
      }
    }
  }

  /** A task is an element of a dict's values exactly when the dict maps
      its id to it. */
  lemma MemberIff(d: Dict, x: Task)
    ensures x in d <==> x.taskId in View(d) && View(d)[x.taskId] == x
  {
    if x in d {
      var i :| 0 <= i < |d| && d[i] == x;
      ViewAt(d, i);
    }
    if x.taskId in View(d) && View(d)[x.taskId] == x {
      ViewKeys(d, x.taskId);
      var i :| 0 <= i < |d| && d[i].taskId == x.taskId;
      ViewAt(d, i);
    }
  }

  lemma {:induction false} ViewAppend(d: seq<Task>, t: Task)
    ensures View(d + [t]) == if t.taskId in View(d) then View(d) else View(d)[t.taskId := t]
    decreases |d|
  {
    if |d| > 0 {
      assert (d + [t])[1..] == d[1..] + [t];
      ViewAppend(d[1..], t);
    } else {
      assert d + [t] == [t];
      assert [t][1..] == [];
    }
  }

  /** `d.get(id)`. */
  function Lookup(d: seq<Task>, id: string): (r: Option<Task>)
    ensures r == if id in View(d) then Some(View(d)[id]) else None
    decreases |d|
  {
    if |d| == 0 then None
    else if d[0].taskId == id then Some(d[0])
    else Lookup(d[1..], id)
  }

  /** The value of a present key replaced in place. */
  function Replace(d: seq<Task>, t: Task): (r: seq<Task>)
    ensures |r| == |d|
    ensures forall i | 0 <= i < |d| :: r[i] == if d[i].taskId == t.taskId then t else d[i]
    ensures View(r) == if t.taskId in View(d) then View(d)[t.taskId := t] else View(d)
    decreases |d|
  {
    if |d| == 0 then []
    else
      var rest := Replace(d[1..], t);
      var r := [if d[0].taskId == t.taskId then t else d[0]] + rest;
      assert r[1..] == rest;
      r
  }

  /** The first task of a dict followed by tasks drawn from the rest of it
      has unique ids. */
  lemma ConsUnique(d: seq<Task>, rest: seq<Task>)
    requires |d| > 0 && UniqueIds(d) && UniqueIds(rest)
    requires forall i | 0 <= i < |rest| :: rest[i] in d[1..]
    ensures UniqueIds([d[0]] + rest)
  {
    forall j | 0 <= j < |rest|
      ensures rest[j].taskId != d[0].taskId
    {
      var k :| 0 <= k < |d[1..]| && d[1..][k] == rest[j];
      assert d[k + 1] == rest[j];
    }
  }

  lemma RemoveThenUpdate(m: map<string, Task>, id: string, k: string, v: Task)
    requires k != id
    ensures (m - {id})[k := v] == m[k := v] - {id}
  {
  }

  /** `del d[id]`: every entry but `id`'s, in order. */
  function Without(d: seq<Task>, id: string): (r: seq<Task>)
    ensures View(r) == View(d) - {id}
    ensures forall i | 0 <= i < |r| :: r[i] in d && r[i].taskId != id
    ensures UniqueIds(d) ==> UniqueIds(r)
    decreases |d|
  {
    if |d| == 0 then []
    else
      var rest := Without(d[1..], id);
      if d[0].taskId == id then
        assert View(d) - {id} == View(d[1..]) - {id};
        rest
      else
        var r := [d[0]] + rest;
        assert r[1..] == rest;
        RemoveThenUpdate(View(d[1..]), id, d[0].taskId, d[0]);
        if UniqueIds(d) then ConsUnique(d, rest); r else r
  }

  /** `d[t.task_id] = t`. */
  function Put(d: seq<Task>, t: Task): (r: seq<Task>)
    ensures View(r) == View(d)[t.taskId := t]
    ensures UniqueIds(d) ==> UniqueIds(r)
  {
    ViewKeys(d, t.taskId);
    ViewAppend(d, t);
    if HasId(d, t.taskId) then Replace(d, t) else d + [t]
  }
}
