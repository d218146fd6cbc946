/** `InMemoryTaskRepository`: the reference backend, a dict keyed by
    `task_id`. A failed call returns `Err` and the dict passed in is the
    state that remains, which is how the source leaves `_data` untouched
    when it raises. */
module InMemoryRepo {
  import opened Wrappers
  import opened Ordering
  import opened Errors
  import opened Tasks
  import opened TaskDict
  import opened TaskRepository

  /** No later element of `s` has the id of `s[i]`. */
  ghost predicate LastWithItsId(s: seq<Task>, i: nat)
    requires i < |s|
  {
    forall j | i < j < |s| :: s[j].taskId != s[i].taskId
  }

  /** The seeding constructor: each task of `initial` is assigned under its
      id in turn (`SeedMeets` states the result). */
  function Seed(initial: seq<Task>): (d: Dict)
    decreases |initial|
  {
    if |initial| == 0 then [] else Put(Seed(initial[..|initial| - 1]), initial[|initial| - 1])
  }

  /** The ids of a sequence of tasks. */
  ghost function Ids(s: seq<Task>): set<string>
  {
    set i | 0 <= i < |s| :: s[i].taskId
  }

  lemma {:induction false} IdsSnoc(s: seq<Task>)
    requires |s| > 0
    ensures Ids(s) == Ids(s[..|s| - 1]) + {s[|s| - 1].taskId}
  {
    var prefix := s[..|s| - 1];
    forall id | id in Ids(s)
      ensures id in Ids(prefix) + {s[|s| - 1].taskId}
    {
      var i :| 0 <= i < |s| && s[i].taskId == id;
      if i < |s| - 1 {
        assert prefix[i].taskId == id;
      }
    }
    forall id | id in Ids(prefix)
      ensures id in Ids(s)
    {
      var i :| 0 <= i < |prefix| && prefix[i].taskId == id;
      assert s[i].taskId == id;
    }
  }

  /** Seeding stores exactly the ids of `initial`, one entry per distinct
      id. */
  lemma {:induction false} SeedKeys(initial: seq<Task>)
    ensures View(Seed(initial)).Keys == Ids(initial)
    ensures |Seed(initial)| == |Ids(initial)|
    decreases |initial|
  {
    if |initial| > 0 {
      SeedKeys(initial[..|initial| - 1]);
      IdsSnoc(initial);
    }
    ViewSize(Seed(initial));
  }

  /** For a repeated id, the last task with that id wins. */
  lemma {:induction false} SeedLastWins(initial: seq<Task>, i: nat)
    requires i < |initial| && LastWithItsId(initial, i)
    ensures initial[i].taskId in View(Seed(initial))
    ensures View(Seed(initial))[initial[i].taskId] == initial[i]
    decreases |initial|
  {
    var n := |initial| - 1;
    if i < n {
      var prefix := initial[..n];
      assert prefix[i] == initial[i];
      assert LastWithItsId(prefix, i) by {
        forall j | i < j < |prefix|
          ensures prefix[j].taskId != prefix[i].taskId
        {
          assert prefix[j] == initial[j];
        }
      }
      SeedLastWins(prefix, i);
    }
  }

  /** `add`: inserts a new key, or raises already-exists. */
  function Add(d: Dict, t: Task): (r: Result<Dict, Error>)
    ensures AddMeets(View(d), t, ViewOf(r))
    ensures r.Ok? ==> |r.value| == |d| + 1
  {
    ViewKeys(d, t.taskId);
    ViewAppend(d, t);
    if !HasId(d, t.taskId) then Ok(d + [t])
    else Err(AlreadyExists(t.taskId))
  }

  /** `get`: the stored task or `None`. */
  function Get(d: Dict, id: string): (r: Option<Task>)
    ensures GetMeets(View(d), id, r)
  {
    Lookup(d, id)
  }

  /** `update`: replaces the value under an existing key. */
  function Update(d: Dict, t: Task): (r: Result<Dict, Error>)
    ensures UpdateMeets(View(d), t, ViewOf(r))
    ensures r.Ok? ==> |r.value| == |d|
  {
    ViewKeys(d, t.taskId);
    if HasId(d, t.taskId) then Ok(Replace(d, t))
    else Err(NotFound(t.taskId))
  }

  /** `remove`: deletes an existing key. */
  function Remove(d: Dict, id: string): (r: Result<Dict, Error>)
    ensures RemoveMeets(View(d), id, ViewOf(r))
    ensures r.Ok? ==> |r.value| == |d| - 1
  {
    ViewKeys(d, id);
    if HasId(d, id) then
      var r := Without(d, id);
      ViewSize(d);
      ViewSize(r);
      Ok(r)
    else Err(NotFound(id))
  }

  /** `count_all`: the number of stored tasks. */
  function CountAll(d: Dict): (n: nat)
    ensures n == |View(d)|
  {
    ViewSize(d);
    |d|
  }

  /** `exists`: whether the id is stored. */
  function Exists(d: Dict, id: string): (b: bool)
    ensures b <==> id in View(d)
  {
    ViewKeys(d, id);
    HasId(d, id)
  }

  /** "Nieobsługiwane pole: " */
  const UnsupportedField := "Nieobs\U{142}ugiwane pole: "

  /** `order_by or "created_at"`. */
  function OrderName(orderBy: Option<string>): string
  {
    if orderBy.None? || orderBy.value == "" then "created_at" else orderBy.value
  }

  /** `list_all`: validates its parameters (an unknown order field, a
      negative offset and a non-positive limit are errors), then sorts by
      (field, `task_id`) and slices. */
  function ListAll(d: Dict, limit: Option<int>, offset: Option<int>, orderBy: Option<string>): (r: Result<seq<Task>, Error>)
    ensures var name := OrderName(orderBy);
      name != "created_at" && name != "title" ==> r == Err(Validation("order_by", UnsupportedField + name))
    ensures r.Err? <==>
      || (OrderName(orderBy) != "created_at" && OrderName(orderBy) != "title")
      || offset.GetOr(0) < 0
      || (limit.Some? && limit.value <= 0)
    ensures r.Ok? ==>
      var f := if OrderName(orderBy) == "title" then ByTitle else ByCreatedAt;
      var start := offset.GetOr(0);
      && SortedBy(r.value, SortKey(f))
      && (forall x | x in r.value :: x.taskId in View(d) && View(d)[x.taskId] == x)
      && |r.value| == (if start >= |View(d)| then 0
                       else if limit.Some? && limit.value < |View(d)| - start then limit.value
                       else |View(d)| - start)
      && ListMeets(d, start, if limit.Some? then Some(limit.value) else None, f, r.value)
  {
    var name := OrderName(orderBy);
    var start := offset.GetOr(0);
    if name != "created_at" && name != "title" then
      Err(Validation("order_by", UnsupportedField + name))
    else if start < 0 || (limit.Some? && limit.value <= 0) then
      Err(Validation("pagination", "Offset >= 0, limit > 0"))
    else
      var f := if name == "title" then ByTitle else ByCreatedAt;
      var lim := if limit.Some? then Some(limit.value as nat) else None;
      PageOfListing(d, f, start, lim);
      Ok(Page(Listing(d, f), start, lim))
  }
}
