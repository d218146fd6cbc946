/** The `TaskRepository` contract every backend implements, stated over the
    id-to-task map a backend holds. */
module TaskRepository {
  import opened Wrappers
  import opened Ordering
  import opened Timestamps
  import opened Errors
  import opened Tasks
  import opened TaskDict

  /** The primary sort field of `list_all`. */
  datatype OrderBy = ByCreatedAt | ByTitle

  /** `(getattr(t, order_by), t.task_id)`, the key every listing sorts by. */
  function SortKey(f: OrderBy): Task -> Key
  {
    (t: Task) => Key(if f == ByCreatedAt then Fields(t.createdAt) else Codes(t.title), Codes(t.taskId))
  }

  lemma DistinctIdsDistinctKeys(d: Dict, f: OrderBy)
    ensures KeysDistinct(d, SortKey(f))
  {
    forall i, j | 0 <= i < j < |d|
      ensures SortKey(f)(d[i]) != SortKey(f)(d[j])
    {
      CodesInjective(d[i].taskId, d[j].taskId);
    }
  }

  /** All records sorted ascending by the primary field, ties broken by
      ascending `task_id`; the order every backend's `list_all` pages
      through. */
  function Listing(d: Dict, f: OrderBy): (r: seq<Task>)
    ensures SortedBy(r, SortKey(f))
    ensures |r| == |View(d)|
    ensures forall x :: x in r <==> x.taskId in View(d) && View(d)[x.taskId] == x
  {
    DistinctIdsDistinctKeys(d, f);
    ViewSize(d);
    var r := Sort(d, SortKey(f));
    forall x
      ensures x in r <==> x.taskId in View(d) && View(d)[x.taskId] == x
    {
      assert x in r <==> x in multiset(r);
      MemberIff(d, x);
    }
    r
  }

  /** The listing depends only on which tasks are stored, not on the order
      they were inserted in; so every backend holding the same records
      lists them identically. */
  lemma ListingDependsOnlyOnView(d1: Dict, d2: Dict, f: OrderBy)
    requires View(d1) == View(d2)
    ensures Listing(d1, f) == Listing(d2, f)
  {
    SortedUnique(Listing(d1, f), Listing(d2, f), SortKey(f));
  }

  /** `s[start : start + limit]`, or `s[start:]` without a limit. */
  function Page<T>(s: seq<T>, start: nat, limit: Option<nat>): (r: seq<T>)
    ensures |r| == if start >= |s| then 0
                   else if limit.Some? && limit.value < |s| - start then limit.value
                   else |s| - start
    ensures forall i | 0 <= i < |r| :: r[i] == s[start + i]
  {
    var lo := if start < |s| then start else |s|;
    var hi := if limit.Some? && start + limit.value < |s| then start + limit.value else |s|;
    s[lo..if hi < lo then lo else hi]
  }

  /** Two adjacent pages of the same size make one page twice as long. */
  lemma PagesAdjoin<T>(s: seq<T>, start: nat, n: nat)
    ensures Page(s, start, Some(n)) + Page(s, start + n, Some(n)) == Page(s, start, Some(2 * n))
  {
    var a := Page(s, start, Some(n));
    var b := Page(s, start + n, Some(n));
    var c := Page(s, start, Some(2 * n));
    forall i | 0 <= i < |c|
      ensures (a + b)[i] == c[i]
    {
      if i >= |a| {
        assert b[i - |a|] == s[start + n + (i - |a|)];
      }
    }
  }

  /** A page of the listing is itself sorted, holds only stored tasks, and
      its length follows from the number of stored tasks. */
  lemma PageOfListing(d: Dict, f: OrderBy, start: nat, limit: Option<nat>)
    ensures var r := Page(Listing(d, f), start, limit);
      && SortedBy(r, SortKey(f))
      && (forall x | x in r :: x.taskId in View(d) && View(d)[x.taskId] == x)
      && |r| == (if start >= |View(d)| then 0
                 else if limit.Some? && limit.value < |View(d)| - start then limit.value
                 else |View(d)| - start)
  {
    var all := Listing(d, f);
    var r := Page(all, start, limit);
    forall i, j | 0 <= i < j < |r|
      ensures KeyLess(SortKey(f)(r[i]), SortKey(f)(r[j]))
    {
      assert r[i] == all[start + i] && r[j] == all[start + j];
    }
    forall x | x in r
      ensures x in all
    {
      var i :| 0 <= i < |r| && r[i] == x;
      assert all[start + i] == x;
    }
  }

  /** The map a successful mutation leaves behind. */
  ghost function ViewOf(r: Result<Dict, Error>): Result<map<string, Task>, Error>
  {
    match r
    case Ok(d) => Ok(View(d))
    case Err(e) => Err(e)
  }

  /** `add`: already-exists when the id is present, else one new entry. */
  ghost predicate AddMeets(before: map<string, Task>, t: Task, after: Result<map<string, Task>, Error>)
  {
    if t.taskId in before then after == Err(AlreadyExists(t.taskId))
    else after == Ok(before[t.taskId := t])
  }

  /** `get`: the stored task, or `None`; never raises. */
  ghost predicate GetMeets(before: map<string, Task>, id: string, r: Option<Task>)
  {
    r == if id in before then Some(before[id]) else None
  }

  /** `update`: full replacement of the present record, else not-found. */
  ghost predicate UpdateMeets(before: map<string, Task>, t: Task, after: Result<map<string, Task>, Error>)
  {
    if t.taskId in before then after == Ok(before[t.taskId := t])
    else after == Err(NotFound(t.taskId))
  }

  /** `remove`: hard delete of the present record, else not-found. */
  ghost predicate RemoveMeets(before: map<string, Task>, id: string, after: Result<map<string, Task>, Error>)
  {
    if id in before then after == Ok(before - {id})
    else after == Err(NotFound(id))
  }

  /** `list_all`: sort, then skip `offset`, then take `limit`. */
  ghost predicate ListMeets(d: Dict, offset: nat, limit: Option<nat>, f: OrderBy, r: seq<Task>)
  {
    r == Page(Listing(d, f), offset, limit)
  }

  /** Removing an absent id is an error, so `remove` is not idempotent. */
  lemma RemoveIsNotIdempotent(before: map<string, Task>, id: string, after: map<string, Task>, again: Result<map<string, Task>, Error>)
    requires RemoveMeets(before, id, Ok(after))
    requires RemoveMeets(after, id, again)
    ensures again == Err(NotFound(id))
  {
  }
}
