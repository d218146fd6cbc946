/** `JsonlTaskRepository`: one JSON object per line, the whole file read on
    every call and rewritten atomically on every change.

    A line is modelled by what `strip()` and `json.loads` make of it, not
    by its characters: blank, not JSON, JSON but not an object, or an
    object whose keys of interest hold a string or `null`. */
module JsonlRepo {
  import opened Wrappers
  import opened Enums
  import opened Timestamps
  import opened IsoText
  import opened Errors
  import opened Tasks
  import opened TaskDict
  import opened TaskRepository

  /** A JSON value where the file holds a string or `null`. */
  datatype Field = Str(text: string) | Null

  /** A decoded JSON object; `None` is a missing key. */
  datatype Record = Record(
    taskId: Option<string>,
    title: Option<string>,
    description: Option<Field>,
    createdAt: Option<Field>,
    status: Option<Field>)

  /** One line of the file after `strip()` and `json.loads`. */
  datatype Line = Blank | Malformed(detail: string) | NonObject | Object(record: Record)

  /** `%d` of a line number. */
  function Decimal(n: nat): (s: string)
    ensures |s| > 0 && AllDigits(s)
    decreases n
  {
    if n < 10 then [Digit(n)] else Decimal(n / 10) + [Digit(n % 10)]
  }

  lemma {:induction false} DecimalValue(n: nat)
    ensures DigitsValue(Decimal(n)) == n
    decreases n
  {
    if n >= 10 {
      var s := Decimal(n);
      assert s[..|s| - 1] == Decimal(n / 10);
      DecimalValue(n / 10);
    }
  }

  const NotUtcZ := "created_at must be ISO8601 UTC with 'Z'"

  /** `_parse_utc_z`: only a string ending in `Z` is read, with every `Z`
      replaced by `+00:00` before `fromisoformat`; the error is the text of
      the `ValueError` raised. */
  function ParseUtcZ(f: Field): (r: Result<Instant, string>)
    ensures r.Ok? ==> f.Str? && |f.text| > 0 && f.text[|f.text| - 1] == 'Z'
    ensures f.Str? && |f.text| > 0 && f.text[|f.text| - 1] == 'Z' ==>
      (r.Ok? <==> FromIsoFormat(ReplaceZ(f.text)).Some?)
  {
    if f.Null? || |f.text| == 0 || f.text[|f.text| - 1] != 'Z' then Err(NotUtcZ)
    else match FromIsoFormat(ReplaceZ(f.text))
      case Some(dt) => Ok(dt)
      case None => Err("Invalid isoformat string: '" + ReplaceZ(f.text) + "'")
  }

  /** `_format_dt`: `%Y-%m-%dT%H:%M:%SZ`, whole seconds. */
  function FormatDt(dt: Instant): (s: string)
    ensures |s| == 20 && s[19] == 'Z'
  {
    SecondsText(dt) + "Z"
  }

  /** Reading back what `_format_dt` writes gives the instant with its
      sub-second part dropped. */
  lemma ParseFormatDt(dt: Instant)
    ensures ParseUtcZ(Str(FormatDt(dt))) == Ok(WholeSecond(dt))
  {
    var s := SecondsText(dt);
    SecondsTextHasNoZ(dt);
    ReplaceZNoZ(s);
    ReplaceZAppend(s, "Z");
    assert ReplaceZ("Z") == UtcOffset;
    FromIsoFormatSeconds(dt);
  }

  /** A task as the file keeps it: `created_at` to the second. */
  function Stored(t: Task): (r: Task)
    ensures r.createdAt.microsecond == 0
    ensures r.(createdAt := t.createdAt) == t
  {
    t.(createdAt := WholeSecond(t.createdAt))
  }

  /** Storing is idempotent. */
  lemma StoredIdempotent(t: Task)
    ensures Stored(Stored(t)) == Stored(t)
  {
  }

  /** Every task of a dict as the file keeps it, in the same order. */
  function StoredAll(d: seq<Task>): (r: seq<Task>)
    ensures |r| == |d|
    ensures forall i | 0 <= i < |d| :: r[i] == Stored(d[i])
    ensures UniqueIds(d) ==> UniqueIds(r)
  {
    seq(|d|, i requires 0 <= i < |d| => Stored(d[i]))
  }

  /** A map of tasks as the file keeps them. */
  ghost function StoredView(m: map<string, Task>): map<string, Task>
  {
    map id | id in m :: Stored(m[id])
  }

  lemma {:induction false} ViewStoredAll(d: seq<Task>)
    ensures View(StoredAll(d)) == StoredView(View(d))
    decreases |d|
  {
    if |d| > 0 {
      assert StoredAll(d)[1..] == StoredAll(d[1..]);
      ViewStoredAll(d[1..]);
    }
  }

  /** When every time is already whole-second, the file keeps the map as it
      is, so the backend meets the repository contract exactly. */
  lemma StoredViewOfWholeSeconds(m: map<string, Task>)
    requires forall id | id in m :: m[id].createdAt.microsecond == 0
    ensures StoredView(m) == m
  {
    forall id | id in m
      ensures Stored(m[id]) == m[id]
    {
    }
  }

  /** `_task_to_record`: `asdict` with `created_at` formatted. */
  function ToRecord(t: Task): Record
  {
    Record(
      Some(t.taskId),
      Some(t.title),
      Some(if t.description.Some? then Str(t.description.value) else Null),
      Some(Str(FormatDt(t.createdAt))),
      Some(Str(Label(t.status))))
  }

  /** `record.get("description")`. */
  function DescriptionOf(f: Option<Field>): Option<string>
  {
    if f.Some? && f.value.Str? then Some(f.value.text) else None
  }

  /** `str(status)` for the not-allowed message. */
  function StatusText(f: Field): string
  {
    if f.Str? then f.text else "None"
  }

  /** The body of the record loop: required keys in the order the source
      reads them, then the time, then the status; every failure is a
      validation error on `"record"` prefixed by `at` (`name:lineno: `). */
  function DecodeRecord(at: string, rec: Record): (r: Result<Task, Error>)
    ensures r.Ok? <==>
      && rec.taskId.Some? && rec.title.Some? && rec.createdAt.Some? && rec.status.Some?
      && ParseUtcZ(rec.createdAt.value).Ok?
      && rec.status.value.Str? && rec.status.value.text in Allowed
    ensures r.Ok? ==>
      && r.value.taskId == rec.taskId.value
      && r.value.title == rec.title.value
      && Label(r.value.status) == rec.status.value.text
      && r.value.description == DescriptionOf(rec.description)
    ensures r.Err? ==> r.error.Validation? && r.error.field == "record"
  {
    if rec.taskId.None? then Err(Validation("record", at + "missing field 'task_id'"))
    else if rec.title.None? then Err(Validation("record", at + "missing field 'title'"))
    else if rec.createdAt.None? then Err(Validation("record", at + "missing field 'created_at'"))
    else match ParseUtcZ(rec.createdAt.value)
      case Err(m) => Err(Validation("record", at + m))
      case Ok(createdAt) =>
        if rec.status.None? then Err(Validation("record", at + "missing field 'status'"))
        else
          var text := StatusText(rec.status.value);
          match FromLabel(text)
          case None => Err(Validation("record", at + "status '" + text + "' is not allowed"))
          case Some(status) =>
            Ok(Task(rec.taskId.value, rec.title.value, createdAt, DescriptionOf(rec.description), status))
  }

  /** Decoding the record of a task gives the task back, to the second. */
  lemma DecodeToRecord(at: string, t: Task)
    ensures DecodeRecord(at, ToRecord(t)) == Ok(Stored(t))
  {
    ParseFormatDt(t.createdAt);
    LabelRoundTrip(t.status);
  }

  /** How a line that is not JSON is reported: as `_load_tasks` is
      written, the one-argument `TaskValidationError(...)` call itself
      fails. */
  datatype JsonFailure = AsWritten | Corrected

  function InvalidJson(mode: JsonFailure, at: string, detail: string): (e: Error)
    ensures mode == Corrected ==> e.Validation? && e.field == "record"
    ensures mode == AsWritten ==> !IsDomainError(e)
  {
    match mode
    case AsWritten =>
      Defect("TypeError", "TaskValidationError.__init__() missing 1 required positional argument: 'message'")
    case Corrected => Validation("record", at + "invalid JSON: " + detail)
  }

  /** The location prefix of every per-line message. */
  function At(name: string, lineno: nat): string
  {
    name + ":" + Decimal(lineno) + ": "
  }

  /** One iteration of the `_load_tasks` loop. */
  function LoadLine(mode: JsonFailure, at: string, line: Line, acc: Dict): (r: Result<Dict, Error>)
    ensures r.Ok? ==> View(r.value).Keys >= View(acc).Keys
    ensures r.Ok? && line.Object? ==> |r.value| == |acc| + 1
  {
    match line
    case Blank => Ok(acc)
    case Malformed(detail) => Err(InvalidJson(mode, at, detail))
    case NonObject => Result<Dict, Error>.Err(Defect("TypeError", "a JSON value that is not an object has no keys"))
    case Object(rec) =>
      match DecodeRecord(at, rec)
      case Err(e) => Err(e)
      case Ok(t) =>
        ViewKeys(acc, t.taskId);
        ViewAppend(acc, t);
        if HasId(acc, t.taskId) then Err(Validation("record", at + "duplicate task_id '" + t.taskId + "'"))
        else Ok(acc + [t])
  }

  /** `_load_tasks` over the lines of a present file: the first failing line
      decides the error (`LoadFirstErrorWins`); blank lines are skipped and
      still counted in line numbers. */
  function LoadLines(mode: JsonFailure, name: string, lines: seq<Line>): (r: Result<Dict, Error>)
    ensures r.Ok? ==> forall i | 0 <= i < |lines| :: lines[i].Blank? || lines[i].Object?
    ensures r.Ok? ==> |r.value| <= |lines|
    decreases |lines|
  {
    if |lines| == 0 then Ok([])
    else
      var n := |lines| - 1;
      match LoadLines(mode, name, lines[..n])
      case Err(e) => Err(e)
      case Ok(acc) =>
        var r := LoadLine(mode, At(name, |lines|), lines[n], acc);
        assert r.Ok? ==> forall i | 0 <= i < n :: lines[..n][i] == lines[i];
        r
  }

  /** Appending a blank line changes nothing. */
  lemma LoadSkipsBlank(mode: JsonFailure, name: string, lines: seq<Line>)
    ensures LoadLines(mode, name, lines + [Blank]) == LoadLines(mode, name, lines)
  {
    assert (lines + [Blank])[..|lines|] == lines;
  }

  /** Once a prefix of the file fails, the whole load fails the same way. */
  lemma {:induction false} LoadFirstErrorWins(mode: JsonFailure, name: string, lines: seq<Line>, k: nat)
    requires k <= |lines|
    requires LoadLines(mode, name, lines[..k]).Err?
    ensures LoadLines(mode, name, lines) == LoadLines(mode, name, lines[..k])
    decreases |lines|
  {
    if k < |lines| {
      var n := |lines| - 1;
      assert lines[..n][..k] == lines[..k];
      LoadFirstErrorWins(mode, name, lines[..n], k);
    } else {
      assert lines[..k] == lines;
    }
  }

  /** `_task_to_record` of every task, one line each. */
  function Dump(d: seq<Task>): (r: seq<Line>)
    ensures |r| == |d|
    ensures forall i | 0 <= i < |d| :: r[i] == Object(ToRecord(d[i]))
  {
    seq(|d|, i requires 0 <= i < |d| => Object(ToRecord(d[i])))
  }

  lemma DumpPrefix(d: seq<Task>, n: nat)
    requires n <= |d|
    ensures Dump(d)[..n] == Dump(d[..n])
    ensures StoredAll(d)[..n] == StoredAll(d[..n])
  {
  }

  /** The line of a task whose id is new is accepted as its stored form. */
  lemma LoadLineOfTask(mode: JsonFailure, at: string, t: Task, acc: Dict)
    requires !HasId(acc, t.taskId)
    ensures LoadLine(mode, at, Object(ToRecord(t)), acc) == Ok(acc + [Stored(t)])
  {
    DecodeToRecord(at, t);
  }

  /** One more line is loaded into what the lines before it gave. */
  lemma LoadLinesStep(mode: JsonFailure, name: string, lines: seq<Line>, acc: Dict)
    requires |lines| > 0 && LoadLines(mode, name, lines[..|lines| - 1]) == Ok(acc)
    ensures LoadLines(mode, name, lines) == LoadLine(mode, At(name, |lines|), lines[|lines| - 1], acc)
  {
  }

  /** The last task's id is not among the stored tasks before it. */
  lemma StoredPrefixLacksLast(d: Dict)
    requires |d| > 0
    ensures !HasId(StoredAll(d[..|d| - 1]), d[|d| - 1].taskId)
  {
    var n := |d| - 1;
    var acc := StoredAll(d[..n]);
    forall i | 0 <= i < n
      ensures acc[i].taskId != d[n].taskId
    {
      assert d[..n][i] == d[i];
    }
  }

  /** Loading what was dumped gives the dict back, in order, with every
      `created_at` truncated to the second. */
  lemma {:induction false} LoadDump(mode: JsonFailure, name: string, d: Dict)
    ensures LoadLines(mode, name, Dump(d)) == Ok(StoredAll(d))
    decreases |d|
  {
    if |d| > 0 {
      LoadDump(mode, name, d[..|d| - 1]);
      LoadDumpStep(mode, name, d);
    }
  }

  /** The step of `LoadDump`: if the dump of all but the last task loads,
      the dump of the whole dict loads with the last task appended. */
  lemma LoadDumpStep(mode: JsonFailure, name: string, d: Dict)
    requires |d| > 0
    requires LoadLines(mode, name, Dump(d[..|d| - 1])) == Ok(StoredAll(d[..|d| - 1]))
    ensures LoadLines(mode, name, Dump(d)) == Ok(StoredAll(d))
  {
    var n := |d| - 1;
    var acc := StoredAll(d[..n]);
    var lines := Dump(d);
    assert LoadLines(mode, name, lines) == LoadLine(mode, At(name, |d|), lines[n], acc) by {
      DumpPrefix(d, n);
      LoadLinesStep(mode, name, lines, acc);
    }
    assert LoadLine(mode, At(name, |d|), lines[n], acc) == Ok(acc + [Stored(d[n])]) by {
      StoredPrefixLacksLast(d);
      LoadLineOfTask(mode, At(name, |d|), d[n], acc);
    }
    StoredAllSnoc(d);
  }

  lemma StoredAllSnoc(d: seq<Task>)
    requires |d| > 0
    ensures StoredAll(d) == StoredAll(d[..|d| - 1]) + [Stored(d[|d| - 1])]
  {
    var n := |d| - 1;
    assert StoredAll(d) == StoredAll(d[..n]) + [Stored(d[n])];
  }

  /** A file whose lines were loaded without error, followed by a line that
      is not JSON: as written the load escapes the domain errors with a
      `TypeError`; corrected it is a validation error naming the line. */
  lemma InvalidJsonLine(name: string, lines: seq<Line>, detail: string)
    requires LoadLines(Corrected, name, lines).Ok?
    ensures LoadLines(AsWritten, name, lines).Ok?
    ensures !IsDomainError(LoadLines(AsWritten, name, lines + [Malformed(detail)]).error)
    ensures LoadLines(Corrected, name, lines + [Malformed(detail)])
         == Err(Validation("record", At(name, |lines| + 1) + "invalid JSON: " + detail))
  {
    var acc := LoadLines(Corrected, name, lines).value;
    LoadModeIrrelevantWithoutMalformed(name, lines);
    var ext := lines + [Malformed(detail)];
    assert ext[..|lines|] == lines;
    LoadLinesStep(AsWritten, name, ext, acc);
    LoadLinesStep(Corrected, name, ext, acc);
  }

  /** The two readings agree on every file without a malformed line. */
  lemma {:induction false} LoadModeIrrelevantWithoutMalformed(name: string, lines: seq<Line>)
    requires forall i | 0 <= i < |lines| :: !lines[i].Malformed?
    ensures LoadLines(AsWritten, name, lines) == LoadLines(Corrected, name, lines)
    decreases |lines|
  {
    if |lines| > 0 {
      LoadModeIrrelevantWithoutMalformed(name, lines[..|lines| - 1]);
    }
  }

  /** The smallest file that shows the difference: one line `{`. */
  lemma InvalidJsonExample()
    ensures LoadLines(AsWritten, "tasks.jsonl", [Malformed("Expecting property name enclosed in double quotes")]).error.Defect?
    ensures LoadLines(Corrected, "tasks.jsonl", [Malformed("Expecting property name enclosed in double quotes")]).error
         == Validation("record", At("tasks.jsonl", 1) + "invalid JSON: " + "Expecting property name enclosed in double quotes")
    ensures At("tasks.jsonl", 1) == "tasks.jsonl:1: "
  {
    var lines := [Malformed("Expecting property name enclosed in double quotes")];
    assert lines[..0] == [];
    assert Decimal(1) == "1" by {
      assert Digit(1) == '1';
    }
    assert At("tasks.jsonl", 1) == "tasks.jsonl:1: ";
    assert LoadLines(Corrected, "tasks.jsonl", lines)
        == LoadLine(Corrected, At("tasks.jsonl", 1), lines[0], []);
  }

  /** The data file: absent (an empty store), unreadable, or present. */
  datatype Target = Missing | Unreadable(reason: string) | Present(lines: seq<Line>)

  /** The data file, its name, and the `*.swap` file beside it. */
  datatype Disk = Disk(name: string, target: Target, swap: Option<seq<Line>>)

  /** `_load_tasks`: a missing file is an empty store; any other I/O error
      is a bare domain error carrying `str(e)`. */
  function Load(mode: JsonFailure, disk: Disk): (r: Result<Dict, Error>)
    ensures disk.target.Missing? ==> r == Ok([])
    ensures disk.target.Unreadable? ==> r == Err(Infrastructure(disk.target.reason))
  {
    match disk.target
    case Missing => Ok([])
    case Unreadable(reason) => Err(Infrastructure(reason))
    case Present(lines) => LoadLines(mode, disk.name, lines)
  }

  /** Where `_atomic_dump` may fail: opening the swap file, after writing
      some of its lines, or at `os.replace`. */
  datatype Fault = NoFault | OpenFails(reason: string) | WriteFails(written: nat, reason: string) | ReplaceFails(reason: string)

  function FaultReason(fault: Fault): string
    requires !fault.NoFault?
  {
    fault.reason
  }

  /** A call's effect on the disk and what it returns or raises. */
  datatype Outcome<T> = Outcome(disk: Disk, result: Result<T, Error>)

  /** `_atomic_dump`: write the swap file, then replace the target with it.
      `cleanupFails` is an `OSError` from removing the swap file, which is
      swallowed. */
  function AtomicDump(disk: Disk, lines: seq<Line>, fault: Fault, cleanupFails: bool): (o: Outcome<()>)
    ensures o.disk.name == disk.name
    ensures o.disk.target == disk.target || o.disk.target == Present(lines)
    ensures o.result.Ok? <==> fault.NoFault?
    ensures o.result.Ok? ==> o.disk == Disk(disk.name, Present(lines), None)
    ensures o.result.Err? ==> o.disk.target == disk.target && o.result == Err(Infrastructure(FaultReason(fault)))
    ensures o.result.Err? && !cleanupFails ==> o.disk.swap == None
  {
    match fault
    case NoFault => Outcome(Disk(disk.name, Present(lines), None), Ok(()))
    case OpenFails(reason) =>
      Outcome(disk.(swap := if cleanupFails then disk.swap else None), Err(Infrastructure(reason)))
    case WriteFails(written, reason) =>
      var partial := lines[..if written < |lines| then written else |lines|];
      Outcome(disk.(swap := if cleanupFails then Some(partial) else None), Err(Infrastructure(reason)))
    case ReplaceFails(reason) =>
      Outcome(disk.(swap := if cleanupFails then Some(lines) else None), Err(Infrastructure(reason)))
  }

  /** A failed write leaves what the next call loads untouched. */
  lemma FailedDumpKeepsData(mode: JsonFailure, disk: Disk, lines: seq<Line>, fault: Fault, cleanupFails: bool)
    requires !fault.NoFault?
    ensures Load(mode, AtomicDump(disk, lines, fault, cleanupFails).disk) == Load(mode, disk)
  {
  }

  /** What a later call sees: the reloaded map after success, else the
      error. */
  function Seen(mode: JsonFailure, o: Outcome<()>): Result<Dict, Error>
  {
    if o.result.Ok? then Load(mode, o.disk) else Err(o.result.error)
  }

  /** Dumping a dict and loading the file gives it back, to the second. */
  lemma DumpThenLoad(mode: JsonFailure, name: string, d: Dict, swap: Option<seq<Line>>)
    ensures Load(mode, Disk(name, Present(Dump(d)), swap)) == Ok(StoredAll(d))
    ensures View(StoredAll(d)) == StoredView(View(d))
  {
    LoadDump(mode, name, d);
    ViewStoredAll(d);
  }

  /** What a later call sees after a successful dump of `next`. */
  lemma SeenAfterDump(mode: JsonFailure, disk: Disk, next: Dict, fault: Fault, cleanupFails: bool)
    ensures fault.NoFault? ==> Seen(mode, AtomicDump(disk, Dump(next), fault, cleanupFails)) == Ok(StoredAll(next))
    ensures View(StoredAll(next)) == StoredView(View(next))
  {
    DumpThenLoad(mode, disk.name, next, None);
  }

  lemma StoredViewPut(m: map<string, Task>, t: Task)
    ensures StoredView(m[t.taskId := t]) == StoredView(m)[t.taskId := Stored(t)]
  {
  }

  lemma StoredViewRemove(m: map<string, Task>, id: string)
    ensures StoredView(m - {id}) == StoredView(m) - {id}
  {
  }

  /** `add`. */
  function Add(mode: JsonFailure, disk: Disk, t: Task, fault: Fault, cleanupFails: bool): (o: Outcome<()>)
    ensures Load(mode, disk).Err? ==> o == Outcome(disk, Err(Load(mode, disk).error))
    ensures Load(mode, disk).Ok? && fault.NoFault? ==>
      AddMeets(StoredView(View(Load(mode, disk).value)), Stored(t), ViewOf(Seen(mode, o)))
    ensures Load(mode, disk).Ok? && t.taskId in View(Load(mode, disk).value) ==> o == Outcome(disk, Err(AlreadyExists(t.taskId)))
    ensures Load(mode, disk).Ok? && t.taskId !in View(Load(mode, disk).value) && !fault.NoFault? ==>
      o.result == Err(Infrastructure(FaultReason(fault)))
    ensures o.result.Err? ==> Load(mode, o.disk) == Load(mode, disk)
  {
    match Load(mode, disk)
    case Err(e) => Outcome(disk, Err(e))
    case Ok(d) =>
      ViewKeys(d, t.taskId);
      if HasId(d, t.taskId) then Outcome(disk, Err(AlreadyExists(t.taskId)))
      else
        var next: Dict := d + [t];
        ViewAppend(d, t);
        SeenAfterDump(mode, disk, next, fault, cleanupFails);
        StoredViewPut(View(d), t);
        AtomicDump(disk, Dump(next), fault, cleanupFails)
  }

  /** `get`: unlike the repository contract, an absent id raises
      not-found. */
  function Get(mode: JsonFailure, disk: Disk, id: string): (r: Result<Task, Error>)
    ensures Load(mode, disk).Err? ==> r == Err(Load(mode, disk).error)
    ensures Load(mode, disk).Ok? ==>
      r == if id in View(Load(mode, disk).value) then Ok(View(Load(mode, disk).value)[id]) else Err(NotFound(id))
  {
    match Load(mode, disk)
    case Err(e) => Err(e)
    case Ok(d) =>
      match Lookup(d, id)
      case None => Err(NotFound(id))
      case Some(t) => Ok(t)
  }

  /** `update`. */
  function Update(mode: JsonFailure, disk: Disk, t: Task, fault: Fault, cleanupFails: bool): (o: Outcome<()>)
    ensures Load(mode, disk).Err? ==> o == Outcome(disk, Err(Load(mode, disk).error))
    ensures Load(mode, disk).Ok? && fault.NoFault? ==>
      UpdateMeets(StoredView(View(Load(mode, disk).value)), Stored(t), ViewOf(Seen(mode, o)))
    ensures Load(mode, disk).Ok? && t.taskId !in View(Load(mode, disk).value) ==> o == Outcome(disk, Err(NotFound(t.taskId)))
    ensures Load(mode, disk).Ok? && t.taskId in View(Load(mode, disk).value) && !fault.NoFault? ==>
      o.result == Err(Infrastructure(FaultReason(fault)))
    ensures o.result.Err? ==> Load(mode, o.disk) == Load(mode, disk)
  {
    match Load(mode, disk)
    case Err(e) => Outcome(disk, Err(e))
    case Ok(d) =>
      ViewKeys(d, t.taskId);
      if !HasId(d, t.taskId) then Outcome(disk, Err(NotFound(t.taskId)))
      else
        var next: Dict := Put(d, t);
        SeenAfterDump(mode, disk, next, fault, cleanupFails);
        StoredViewPut(View(d), t);
        AtomicDump(disk, Dump(next), fault, cleanupFails)
  }

  /** `remove`. */
  function Remove(mode: JsonFailure, disk: Disk, id: string, fault: Fault, cleanupFails: bool): (o: Outcome<()>)
    ensures Load(mode, disk).Err? ==> o == Outcome(disk, Err(Load(mode, disk).error))
    ensures Load(mode, disk).Ok? && fault.NoFault? ==>
      RemoveMeets(StoredView(View(Load(mode, disk).value)), id, ViewOf(Seen(mode, o)))
    ensures Load(mode, disk).Ok? && id !in View(Load(mode, disk).value) ==> o == Outcome(disk, Err(NotFound(id)))
    ensures Load(mode, disk).Ok? && id in View(Load(mode, disk).value) && !fault.NoFault? ==>
      o.result == Err(Infrastructure(FaultReason(fault)))
    ensures o.result.Err? ==> Load(mode, o.disk) == Load(mode, disk)
  {
    match Load(mode, disk)
    case Err(e) => Outcome(disk, Err(e))
    case Ok(d) =>
      ViewKeys(d, id);
      if !HasId(d, id) then Outcome(disk, Err(NotFound(id)))
      else
        var next: Dict := Without(d, id);
        SeenAfterDump(mode, disk, next, fault, cleanupFails);
        StoredViewRemove(View(d), id);
        AtomicDump(disk, Dump(next), fault, cleanupFails)
  }

  /** `list_all`: always by (`created_at`, `task_id`); a negative offset
      counts as 0 and a non-positive limit gives an empty page, where the
      in-memory backend raises. */
  function ListAll(mode: JsonFailure, disk: Disk, offset: int, limit: Option<int>): (r: Result<seq<Task>, Error>)
    ensures Load(mode, disk).Err? ==> r == Err(Load(mode, disk).error)
    ensures Load(mode, disk).Ok? && limit.Some? && limit.value <= 0 ==> r == Ok([])
    ensures Load(mode, disk).Ok? && (limit.None? || limit.value > 0) ==>
      var start := if offset < 0 then 0 else offset;
      r.Ok? && ListMeets(Load(mode, disk).value, start, if limit.Some? then Some(limit.value as nat) else None, ByCreatedAt, r.value)
  {
    match Load(mode, disk)
    case Err(e) => Err(e)
    case Ok(d) =>
      var tasks := Listing(d, ByCreatedAt);
      var start := if offset < 0 then 0 else offset;
      if limit.None? then Ok(Page(tasks, start, None))
      else if limit.value <= 0 then Ok([])
      else Ok(Page(tasks, start, Some(limit.value)))
  }

  /** `count_all`. */
  function CountAll(mode: JsonFailure, disk: Disk): (r: Result<nat, Error>)
    ensures Load(mode, disk).Err? ==> r == Err(Load(mode, disk).error)
    ensures Load(mode, disk).Ok? ==> r == Ok(|View(Load(mode, disk).value)|)
  {
    match Load(mode, disk)
    case Err(e) => Err(e)
    case Ok(d) => ViewSize(d); Ok(|d|)
  }

  /** `exists`. */
  function Exists(mode: JsonFailure, disk: Disk, id: string): (r: Result<bool, Error>)
    ensures Load(mode, disk).Err? ==> r == Err(Load(mode, disk).error)
    ensures Load(mode, disk).Ok? ==> r == Ok(id in View(Load(mode, disk).value))
  {
    match Load(mode, disk)
    case Err(e) => Err(e)
    case Ok(d) => ViewKeys(d, id); Ok(HasId(d, id))
  }
}
