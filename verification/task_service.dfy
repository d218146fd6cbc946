/** `TaskService`: the use cases over a repository. The repository is the
    in-memory backend, whose behaviour is the port contract; the fresh id
    and the current time, which the source draws from `uuid4()` and the
    clock, are inputs. Each use case returns the repository state it leaves
    with its result; on `Err` the state passed in is unchanged. */
module TaskService {
  import opened Wrappers
  import opened Enums
  import opened Timestamps
  import opened Errors
  import opened Tasks
  import opened TaskDict
  import opened TaskRepository
  import InMemoryRepo

  /** The characters `str.isspace()` accepts, which `str.strip()` removes. */
  predicate IsSpace(c: char)
  {
    || c in {'\t', '\n', '\U{B}', '\U{C}', '\r', '\U{1C}', '\U{1D}', '\U{1E}', '\U{1F}', ' ',
             '\U{85}', '\U{A0}', '\U{1680}', '\U{2028}', '\U{2029}', '\U{202F}', '\U{205F}', '\U{3000}'}
    || ('\U{2000}' <= c <= '\U{200A}')
  }

  /** `not title or not title.strip()`. */
  predicate IsBlank(title: string)
  {
    forall i | 0 <= i < |title| :: IsSpace(title[i])
  }

  /** `str.lstrip()`. */
  function StripStart(s: string): (r: string)
    ensures |r| <= |s| && r == s[|s| - |r|..]
    ensures |r| == 0 || !IsSpace(r[0])
    ensures forall i | 0 <= i < |s| - |r| :: IsSpace(s[i])
    decreases |s|
  {
    if |s| > 0 && IsSpace(s[0]) then
      var r := StripStart(s[1..]);
      forall i | 1 <= i < |s| - |r|
        ensures IsSpace(s[i])
      {
        assert s[i] == s[1..][i - 1];
      }
      r
    else s
  }

  /** `str.rstrip()`. */
  function StripEnd(s: string): (r: string)
    ensures |r| <= |s| && r == s[..|r|]
    ensures |r| == 0 || !IsSpace(r[|r| - 1])
    ensures forall i | |r| <= i < |s| :: IsSpace(s[i])
    decreases |s|
  {
    if |s| > 0 && IsSpace(s[|s| - 1]) then
      var r := StripEnd(s[..|s| - 1]);
      forall i | |r| <= i < |s| - 1
        ensures IsSpace(s[i])
      {
        assert s[i] == s[..|s| - 1][i];
      }
      r
    else s
  }

  /** `str.strip()`. */
  function Strip(s: string): (r: string)
    ensures |r| <= |s|
  {
    StripEnd(StripStart(s))
  }

  /** A title is blank exactly when stripping leaves nothing, which is the
      source's test. */
  lemma BlankIffStripsToEmpty(s: string)
    ensures IsBlank(s) <==> Strip(s) == ""
  {
    var a := StripStart(s);
    if Strip(s) == "" {
      assert |a| == 0;
    }
  }

  const TitleEmpty := "Tytul nie moze byc pusty"

  /** `create_task`: a blank title is a validation error; otherwise a new
      Open task with the title as given (not stripped) is added under `id`
      at time `now`. */
  function CreateTask(d: Dict, title: string, description: Option<string>, id: string, now: Instant): (r: Result<(Dict, Task), Error>)
    ensures IsBlank(title) ==> r == Err(Validation("title", TitleEmpty))
    ensures !IsBlank(title) && id in View(d) ==> r == Err(AlreadyExists(id))
    ensures r.Ok? <==> !IsBlank(title) && id !in View(d)
    ensures r.Ok? ==>
      && r.value.1 == Task(id, title, now, description, Open)
      && View(r.value.0) == View(d)[id := r.value.1]
  {
    if IsBlank(title) then Err(Validation("title", TitleEmpty))
    else
      var t := NewTask(id, title, now, description);
      match InMemoryRepo.Add(d, t)
      case Err(e) => Err(e)
      case Ok(next) => Ok((next, t))
  }

  const PaginationRule := "page >= 1, page_size >= 1"

  /** `list_tasks`: page `page` of `pageSize` items in the repository's
      default order, and the total count. `orderBy` is normalised but never
      passed on, so it has no effect. */
  function ListTasks(d: Dict, page: int, pageSize: int, orderBy: Option<string>): (r: Result<(seq<Task>, nat), Error>)
    ensures r.Err? <==> page < 1 || pageSize < 1
    ensures r.Err? ==> r.error == Validation("pagination", PaginationRule)
    ensures r.Ok? ==>
      && r.value.1 == |View(d)|
      && |r.value.0| <= pageSize
      && ListMeets(d, (page - 1) * pageSize, Some(pageSize), ByCreatedAt, r.value.0)
  {
    if page < 1 || pageSize < 1 then Err(Validation("pagination", PaginationRule))
    else
      var offset := (page - 1) * pageSize;
      var total := InMemoryRepo.CountAll(d);
      match InMemoryRepo.ListAll(d, Some(pageSize), Some(offset), None)
      case Err(e) => Err(e)
      case Ok(items) => Ok((items, total))
  }

  /** The order argument has no effect on the result. */
  lemma ListTasksIgnoresOrder(d: Dict, page: int, pageSize: int, a: Option<string>, b: Option<string>)
    ensures ListTasks(d, page, pageSize, a) == ListTasks(d, page, pageSize, b)
  {
  }

  /** Consecutive pages are adjacent runs of the listing: page `p` followed
      by page `p + 1` is the run of `2 * pageSize` items where page `p`
      starts. */
  lemma ConsecutivePages(d: Dict, page: int, pageSize: int, orderBy: Option<string>)
    requires page >= 1 && pageSize >= 1
    ensures ListTasks(d, page, pageSize, orderBy).Ok? && ListTasks(d, page + 1, pageSize, orderBy).Ok?
    ensures ListTasks(d, page, pageSize, orderBy).value.0 + ListTasks(d, page + 1, pageSize, orderBy).value.0
         == Page(Listing(d, ByCreatedAt), (page - 1) * pageSize, Some(2 * pageSize))
  {
    var start := (page - 1) * pageSize;
    ListTasksPage(d, page, pageSize, orderBy);
    ListTasksPage(d, page + 1, pageSize, orderBy);
    assert (page + 1 - 1) * pageSize == start + pageSize;
    PagesAdjoin(Listing(d, ByCreatedAt), start, pageSize);
  }

  lemma ListTasksPage(d: Dict, page: int, pageSize: int, orderBy: Option<string>)
    requires page >= 1 && pageSize >= 1
    ensures ListTasks(d, page, pageSize, orderBy).Ok?
    ensures ListTasks(d, page, pageSize, orderBy).value.0 == Page(Listing(d, ByCreatedAt), (page - 1) * pageSize, Some(pageSize))
  {
  }

  /** `mark_in_progress` and `mark_done`: not-found for an absent id; the
      task as stored when it already has the target status (no update);
      otherwise the copy with the target status, stored by `update`. */
  function MarkStatus(d: Dict, id: string, target: TaskStatus): (r: Result<(Dict, Task), Error>)
    ensures r.Err? <==> id !in View(d)
    ensures r.Err? ==> r.error == NotFound(id)
    ensures r.Ok? ==>
      && r.value.1 == WithStatus(View(d)[id], target)
      && View(r.value.0) == View(d)[id := r.value.1]
      && (View(d)[id].status == target ==> r.value.0 == d)
  {
    ViewKeyedById(d, id);
    match InMemoryRepo.Get(d, id)
    case None => Err(NotFound(id))
    case Some(task) =>
      if EqualsText(task.status, Label(target)) then
        LabelInjective(task.status, target);
        Ok((d, task))
      else
        LabelInjective(task.status, target);
        var changed := Task(task.taskId, task.title, task.createdAt, task.description, target);
        match InMemoryRepo.Update(d, changed)
        case Err(e) => Err(e)
        case Ok(next) => Ok((next, changed))
  }

  /** `mark_in_progress`. */
  function MarkInProgress(d: Dict, id: string): (r: Result<(Dict, Task), Error>)
    ensures r.Err? <==> id !in View(d)
    ensures r.Err? ==> r.error == NotFound(id)
    ensures r.Ok? ==>
      && r.value.1.status == InProgress
      && r.value.1.(status := View(d)[id].status) == View(d)[id]
      && View(r.value.0) == View(d)[id := r.value.1]
  {
    MarkStatus(d, id, InProgress)
  }

  /** `mark_done`. */
  function MarkDone(d: Dict, id: string): (r: Result<(Dict, Task), Error>)
    ensures r.Err? <==> id !in View(d)
    ensures r.Err? ==> r.error == NotFound(id)
    ensures r.Ok? ==>
      && r.value.1.status == Closed
      && r.value.1.(status := View(d)[id].status) == View(d)[id]
      && View(r.value.0) == View(d)[id := r.value.1]
  {
    MarkStatus(d, id, Closed)
  }

  /** A second transition to the same status changes nothing and returns
      the same task; `created_at` is that of the stored task throughout. */
  lemma MarkStatusIdempotent(d: Dict, id: string, target: TaskStatus)
    requires id in View(d)
    ensures MarkStatus(d, id, target).Ok?
    ensures var (next, t) := MarkStatus(d, id, target).value;
      && t.createdAt == View(d)[id].createdAt
      && MarkStatus(next, id, target) == Ok((next, t))
  {
    var (next, t) := MarkStatus(d, id, target).value;
    assert id in View(next) && View(next)[id] == t;
  }

  /** `remove_task`: the repository's `remove`, its not-found passed on. */
  function RemoveTask(d: Dict, id: string): (r: Result<Dict, Error>)
    ensures RemoveMeets(View(d), id, ViewOf(r))
  {
    InMemoryRepo.Remove(d, id)
  }

  /** `get_task`: the stored task, or not-found. */
  function GetTask(d: Dict, id: string): (r: Result<Task, Error>)
    ensures r == if id in View(d) then Ok(View(d)[id]) else Err(NotFound(id))
  {
    match InMemoryRepo.Get(d, id)
    case None => Err(NotFound(id))
    case Some(t) => Ok(t)
  }

  /** A created task can be read back, is counted, and removing it restores
      the stored map. */
  lemma CreateGetRemove(d: Dict, title: string, description: Option<string>, id: string, now: Instant)
    requires CreateTask(d, title, description, id, now).Ok?
    ensures var (next, t) := CreateTask(d, title, description, id, now).value;
      && GetTask(next, id) == Ok(t)
      && InMemoryRepo.CountAll(next) == InMemoryRepo.CountAll(d) + 1
      && RemoveTask(next, id).Ok?
      && View(RemoveTask(next, id).value) == View(d)
  {
    var (next, t) := CreateTask(d, title, description, id, now).value;
    assert View(next) - {id} == View(d);
  }
}
