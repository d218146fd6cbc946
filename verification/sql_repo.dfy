/** `SqlTaskRepository`: the `tasks` table of a SQLite database, every
    column text, `task_id` the primary key. Each call is one statement; the
    table is the state, and a failed call leaves it as it was. */
module SqlRepo {
  import opened Wrappers
  import opened Ordering
  import opened Enums
  import opened Timestamps
  import opened IsoText
  import opened IsoOrder
  import opened Errors
  import opened Tasks
  import opened TaskDict
  import opened TaskRepository

  /** A row; only `description` is nullable. */
  datatype Row = Row(taskId: string, title: string, description: Option<string>, createdAt: string, status: string)

  predicate UniqueRowIds(t: seq<Row>)
  {
    forall i, j | 0 <= i < j < |t| :: t[i].taskId != t[j].taskId
  }

  predicate HasRow(t: seq<Row>, id: string)
  {
    exists i | 0 <= i < |t| :: t[i].taskId == id
  }

  /** The primary key keeps `task_id` unique. */
  type Table = t: seq<Row> | UniqueRowIds(t) witness []

  /** The `url` argument: a filesystem path, or a URL as text. */
  datatype Location = PathArg(path: string) | UrlArg(url: string)

  /** The URL the constructor computes from its argument. */
  function DbUrl(loc: Location): string
  {
    match loc
    case PathArg(path) => "sqlite:///" + path
    case UrlArg(url) => url
  }

  const HardCodedUrl := "sqlite:///data/users.db"

  /** The URL the engine is created with, as written: the computed URL is
      never used. */
  function EngineUrlAsWritten(loc: Location): (u: string)
    ensures u == HardCodedUrl
  {
    HardCodedUrl
  }

  /** The URL the engine is created with, corrected: the computed one. */
  function EngineUrl(loc: Location): (u: string)
    ensures loc.UrlArg? ==> u == loc.url
    ensures loc.PathArg? ==> u == "sqlite:///" + loc.path
  {
    DbUrl(loc)
  }

  /** The table a repository opens; `create_all` creates an empty one in a
      database that lacks it. */
  function OpenTable(databases: map<string, Table>, url: string): (t: Table)
    ensures url !in databases ==> t == []
  {
    if url in databases then databases[url] else []
  }

  /** As written, any two repositories open the same table, whatever
      locations they were given. */
  lemma RepositoriesShareOneTableAsWritten(databases: map<string, Table>, a: Location, b: Location)
    ensures OpenTable(databases, EngineUrlAsWritten(a)) == OpenTable(databases, EngineUrlAsWritten(b))
  {
  }

  /** Corrected, two repositories on different paths use different
      databases. */
  lemma DistinctPathsDistinctDatabases(a: string, b: string)
    requires a != b
    ensures EngineUrl(PathArg(a)) != EngineUrl(PathArg(b))
  {
    var p := "sqlite:///";
    assert (p + a)[|p|..] == a && (p + b)[|p|..] == b;
  }

  /** `_encode_dt` as written: `isoformat()` omits the fraction when it is
      zero, so the stored text has two widths. */
  function EncodeDtAsWritten(dt: Instant): (s: string)
    ensures |s| == if dt.microsecond == 0 then 20 else 27
    ensures s[|s| - 1] == 'Z'
  {
    (if dt.microsecond == 0 then SecondsText(dt) else MicrosText(dt)) + "Z"
  }

  /** `_encode_dt` corrected: the fraction is always written
      (`isoformat(timespec="microseconds")`), so the text has one width. */
  function EncodeDt(dt: Instant): (s: string)
    ensures |s| == 27 && s[26] == 'Z'
  {
    MicrosText(dt) + "Z"
  }

  /** `_decode_dt`: a `ValueError` is not a domain error. */
  function DecodeDt(s: string): (r: Result<Instant, Error>)
    ensures r.Err? ==> !IsDomainError(r.error)
  {
    match FromIsoFormat(ReplaceZ(s))
    case Some(dt) => Ok(dt)
    case None => Err(Defect("ValueError", "Invalid isoformat string: '" + ReplaceZ(s) + "'"))
  }

  lemma MicrosTextHasNoZ(dt: Instant)
    ensures forall i | 0 <= i < |MicrosText(dt)| :: MicrosText(dt)[i] != 'Z'
  {
    SecondsTextHasNoZ(dt);
    var s := MicrosText(dt);
    forall i | 0 <= i < |s|
      ensures s[i] != 'Z'
    {
      if i >= 20 {
        assert s[i] == Pad(dt.microsecond, 6)[i - 20];
      }
    }
  }

  /** Decoding the stored text gives the instant back, to the microsecond. */
  lemma DecodeEncode(dt: Instant)
    ensures DecodeDt(EncodeDt(dt)) == Ok(dt)
  {
    MicrosTextHasNoZ(dt);
    ReplaceZNoZ(MicrosText(dt));
    ReplaceZAppend(MicrosText(dt), "Z");
    assert ReplaceZ("Z") == UtcOffset;
    FromIsoFormatMicros(dt);
  }

  /** So does the text as written, in both of its widths. */
  lemma DecodeEncodeAsWritten(dt: Instant)
    ensures DecodeDt(EncodeDtAsWritten(dt)) == Ok(dt)
  {
    assert ReplaceZ("Z") == UtcOffset;
    if dt.microsecond == 0 {
      SecondsTextHasNoZ(dt);
      ReplaceZNoZ(SecondsText(dt));
      ReplaceZAppend(SecondsText(dt), "Z");
      FromIsoFormatSeconds(dt);
    } else {
      DecodeEncode(dt);
    }
  }

  /** The fixed-width text sorts as the instants do: `ORDER BY created_at`
      is chronological. */
  lemma EncodeDtOrder(a: Instant, b: Instant)
    ensures LexLess(Codes(EncodeDt(a)), Codes(EncodeDt(b))) <==> Before(a, b)
    ensures EncodeDt(a) == EncodeDt(b) <==> a == b
  {
    MicrosTextSuffixOrder(a, b, "Z");
  }

  lemma SameSecondSameText(a: Instant, b: Instant)
    requires Fields(a)[..6] == Fields(b)[..6]
    ensures SecondsText(a) == SecondsText(b)
  {
    assert Fields(a)[0] == Fields(b)[0] && Fields(a)[1] == Fields(b)[1] && Fields(a)[2] == Fields(b)[2];
    assert Fields(a)[3] == Fields(b)[3] && Fields(a)[4] == Fields(b)[4] && Fields(a)[5] == Fields(b)[5];
  }

  /** As written, a whole second is listed after every later instant
      within that second, since `Z` follows `.` in code-point order. */
  lemma WholeSecondListedLastAsWritten(a: Instant, b: Instant)
    requires Fields(a)[..6] == Fields(b)[..6]
    requires a.microsecond == 0 < b.microsecond
    ensures Before(a, b)
    ensures LexLess(Codes(EncodeDtAsWritten(b)), Codes(EncodeDtAsWritten(a)))
  {
    StepFields(Fields(a), Fields(b));
    SameSecondSameText(a, b);
    AsWrittenSplit(a);
    AsWrittenSplit(b);
    CommonPrefixOrder(SecondsText(a), AfterSeconds(b), AfterSeconds(a));
  }

  /** The as-written text is the whole-second text, then the rest. */
  lemma AsWrittenSplit(dt: Instant)
    ensures EncodeDtAsWritten(dt) == SecondsText(dt) + AfterSeconds(dt)
  {
    if dt.microsecond != 0 {
      ConcatAssoc(SecondsText(dt), ".", Pad(dt.microsecond, 6), "Z");
    }
  }

  /** What `isoformat()` writes after the seconds, with the `Z`. */
  function AfterSeconds(dt: Instant): (s: string)
    ensures |s| > 0 && s[0] == if dt.microsecond == 0 then 'Z' else '.'
  {
    if dt.microsecond == 0 then "Z" else "." + Pad(dt.microsecond, 6) + "Z"
  }

  lemma ConcatAssoc(p: string, q: string, r: string, z: string)
    ensures p + q + r + z == p + (q + r + z)
  {
  }

  /** After a common prefix, text starting with `.` sorts before `Z`. */
  lemma CommonPrefixOrder(s: string, tail: string, z: string)
    requires |tail| > 0 && tail[0] == '.' && z == "Z"
    ensures LexLess(Codes(s + tail), Codes(s + z))
  {
    CodesAppend(s, tail);
    CodesAppend(s, z);
    LexAppend(Codes(s), Codes(tail), Codes(s), Codes(z));
    assert Codes(tail)[0] == '.' as int && Codes(z)[0] == 'Z' as int;
  }

  /** The two instants of the ordering defect: 12:00:00.5 is listed before
      12:00:00 by `ORDER BY created_at`. */
  lemma TextOrderAsWrittenDisagrees()
    ensures var a := DateTime(2024, 1, 1, 12, 0, 0, 0);
            var b := DateTime(2024, 1, 1, 12, 0, 0, 500000);
            && Valid(a) && Valid(b) && Before(a, b)
            && LexLess(Codes(EncodeDtAsWritten(b)), Codes(EncodeDtAsWritten(a)))
  {
    var a: Instant := DateTime(2024, 1, 1, 12, 0, 0, 0);
    var b: Instant := DateTime(2024, 1, 1, 12, 0, 0, 500000);
    WholeSecondListedLastAsWritten(a, b);
  }

  /** Which `_encode_dt` writes the `created_at` text: `isoformat()`, as
      the backend does, or the fixed-width text of the correction. */
  datatype TimeText = AsWritten | Corrected

  /** The stored text of an instant; either way it decodes back. */
  function Encode(enc: TimeText, dt: Instant): (s: string)
    ensures DecodeDt(s) == Ok(dt)
    ensures s[|s| - 1] == 'Z'
  {
    DecodeEncode(dt);
    DecodeEncodeAsWritten(dt);
    if enc == AsWritten then EncodeDtAsWritten(dt) else EncodeDt(dt)
  }

  /** The stored texts of two instants sort as the instants do: always with
      the fixed-width text; as written, unless the two share a second and
      exactly one of them is on the whole second. */
  predicate TextOrdersTime(enc: TimeText, a: Instant, b: Instant)
  {
    enc == Corrected || (Fields(a)[..6] == Fields(b)[..6] ==> (a.microsecond == 0 <==> b.microsecond == 0))
  }

  lemma FieldsSplit(dt: DateTime)
    ensures Fields(dt) == Fields(dt)[..6] + [dt.microsecond]
  {
  }

  /** In different seconds the as-written texts differ within their first
      19 characters, and those decide the order. */
  lemma DifferentSecondsOrderAsWritten(a: Instant, b: Instant)
    requires Fields(a)[..6] != Fields(b)[..6]
    ensures LexLess(Codes(EncodeDtAsWritten(a)), Codes(EncodeDtAsWritten(b))) <==> Before(a, b)
    ensures EncodeDtAsWritten(a) != EncodeDtAsWritten(b) && a != b
  {
    var sa, sb := SecondsText(a), SecondsText(b);
    var ta, tb := EncodeDtAsWritten(a), EncodeDtAsWritten(b);
    SecondsTextOrder(a, b);
    assert sa != sb;
    assert ta != tb && (LexLess(Codes(ta), Codes(tb)) <==> LexLess(Codes(sa), Codes(sb))) by {
      var ra, rb := AfterSeconds(a), AfterSeconds(b);
      AsWrittenSplit(a);
      AsWrittenSplit(b);
      CodesEqual(sa, sb);
      CodesAppend(sa, ra);
      CodesAppend(sb, rb);
      LexAppend(Codes(sa), Codes(ra), Codes(sb), Codes(rb));
      ConcatEqual(sa, ra, sb, rb);
    }
    assert a != b && (Before(a, b) <==> LexLess(Fields(a)[..6], Fields(b)[..6])) by {
      FieldsSplit(a);
      FieldsSplit(b);
      LexAppend(Fields(a)[..6], [a.microsecond], Fields(b)[..6], [b.microsecond]);
    }
  }

  /** Where the condition holds the stored text sorts as the instants do,
      and different instants always have different text. */
  lemma EncodeOrder(enc: TimeText, a: Instant, b: Instant)
    requires TextOrdersTime(enc, a, b)
    ensures LexLess(Codes(Encode(enc, a)), Codes(Encode(enc, b))) <==> Before(a, b)
    ensures Encode(enc, a) == Encode(enc, b) <==> a == b
  {
    if enc == Corrected || (a.microsecond != 0 && b.microsecond != 0) {
      EncodeDtOrder(a, b);
    } else if Fields(a)[..6] == Fields(b)[..6] {
      FieldsSplit(a);
      FieldsSplit(b);
      FieldsInjective(a, b);
      LexIrreflexive(Codes(Encode(enc, a)));
      LexIrreflexive(Fields(a));
    } else {
      DifferentSecondsOrderAsWritten(a, b);
    }
  }

  /** The condition is exact: as written, the text order agrees with time
      in both directions precisely when it holds. */
  lemma TextOrdersTimeExactly(a: Instant, b: Instant)
    ensures TextOrdersTime(AsWritten, a, b) <==>
      && (LexLess(Codes(Encode(AsWritten, a)), Codes(Encode(AsWritten, b))) <==> Before(a, b))
      && (LexLess(Codes(Encode(AsWritten, b)), Codes(Encode(AsWritten, a))) <==> Before(b, a))
  {
    if TextOrdersTime(AsWritten, a, b) {
      EncodeOrder(AsWritten, a, b);
      EncodeOrder(AsWritten, b, a);
    } else if a.microsecond == 0 {
      WholeSecondListedLastAsWritten(a, b);
      LexAsymmetric(Fields(a), Fields(b));
    } else {
      WholeSecondListedLastAsWritten(b, a);
      LexAsymmetric(Fields(b), Fields(a));
    }
  }

  /** `_to_row`, with `created_at` written by `enc`: the row decodes back
      to the task. */
  function ToRow(enc: TimeText, t: Task): (r: Row)
    ensures r.taskId == t.taskId
    ensures FromRow(r) == Ok(t)
  {
    LabelRoundTrip(t.status);
    Row(t.taskId, t.title, t.description, Encode(enc, t.createdAt), Label(t.status))
  }

  /** `TaskStatus(raw)`, falling back to Open on `ValueError`. */
  function StatusOrOpen(text: string): (s: TaskStatus)
    ensures text in Allowed ==> Label(s) == text
    ensures text !in Allowed ==> s == Open
  {
    match FromLabel(text)
    case Some(s) => s
    case None => Open
  }

  /** `_from_row`: fails only on an unreadable `created_at`. */
  function FromRow(r: Row): (res: Result<Task, Error>)
    ensures res.Ok? <==> DecodeDt(r.createdAt).Ok?
    ensures res.Ok? ==>
      && res.value.taskId == r.taskId && res.value.title == r.title
      && res.value.description == r.description
      && res.value.status == StatusOrOpen(r.status)
    ensures res.Err? ==> !IsDomainError(res.error)
  {
    match DecodeDt(r.createdAt)
    case Err(e) => Err(e)
    case Ok(createdAt) => Ok(Task(r.taskId, r.title, createdAt, r.description, StatusOrOpen(r.status)))
  }

  /** Every row decoded in order; the first row that fails decides. */
  function DecodeAll(t: seq<Row>): (r: Result<seq<Task>, Error>)
    ensures r.Ok? <==> forall i | 0 <= i < |t| :: FromRow(t[i]).Ok?
    ensures r.Ok? ==> |r.value| == |t| && forall i | 0 <= i < |t| :: r.value[i] == FromRow(t[i]).value
    ensures r.Err? ==> !IsDomainError(r.error)
    decreases |t|
  {
    if |t| == 0 then Ok([])
    else match FromRow(t[0])
      case Err(e) => Err(e)
      case Ok(x) =>
        match DecodeAll(t[1..])
        case Err(e) => Err(e)
        case Ok(rest) => Ok([x] + rest)
  }

  /** Rows that each decode to the task at the same position. */
  lemma DecodeAllOf(rows: seq<Row>, ts: seq<Task>)
    requires |rows| == |ts|
    requires forall i | 0 <= i < |rows| :: FromRow(rows[i]) == Ok(ts[i])
    ensures DecodeAll(rows) == Ok(ts)
  {
    assert DecodeAll(rows).Ok?;
  }

  /** The tasks of a table whose rows all decode. */
  lemma DecodedIds(t: Table)
    requires DecodeAll(t).Ok?
    ensures UniqueIds(DecodeAll(t).value)
    ensures forall id :: HasRow(t, id) <==> HasId(DecodeAll(t).value, id)
  {
    var d := DecodeAll(t).value;
    forall id
      ensures HasRow(t, id) <==> HasId(d, id)
    {
      if HasId(d, id) {
        var i :| 0 <= i < |d| && d[i].taskId == id;
        assert t[i].taskId == id;
      }
    }
  }

  /** A row with the id exists iff the decoded map holds the id. */
  lemma TableKeys(table: Table, id: string)
    ensures DecodeAll(table).Ok? ==> (HasRow(table, id) <==> id in View(DecodeAll(table).value))
  {
    if DecodeAll(table).Ok? {
      DecodedIds(table);
      ViewKeys(DecodeAll(table).value, id);
    }
  }

  /** The table holding exactly the rows of these tasks. */
  function Rows(enc: TimeText, d: seq<Task>): (r: seq<Row>)
    ensures |r| == |d|
    ensures forall i | 0 <= i < |d| :: r[i] == ToRow(enc, d[i])
    ensures UniqueIds(d) ==> UniqueRowIds(r)
  {
    seq(|d|, i requires 0 <= i < |d| => ToRow(enc, d[i]))
  }

  lemma DecodeRows(enc: TimeText, d: seq<Task>)
    ensures DecodeAll(Rows(enc, d)) == Ok(d)
  {
    forall i | 0 <= i < |d|
      ensures FromRow(Rows(enc, d)[i]) == Ok(d[i])
    {
    }
    DecodeAllOf(Rows(enc, d), d);
  }

  /** The map a statement's outcome leaves for later reads. */
  ghost function Decoded(r: Result<Table, Error>): Result<map<string, Task>, Error>
  {
    if r.Err? then Err(r.error)
    else if DecodeAll(r.value).Ok? then Ok(View(DecodeAll(r.value).value))
    else Err(DecodeAll(r.value).error)
  }

  lemma DecodeAppend(enc: TimeText, table: seq<Row>, d: seq<Task>, t: Task)
    requires DecodeAll(table) == Ok(d)
    ensures DecodeAll(table + [ToRow(enc, t)]) == Ok(d + [t])
  {
    var next := table + [ToRow(enc, t)];
    forall i | 0 <= i < |next|
      ensures FromRow(next[i]) == Ok((d + [t])[i])
    {
      if i < |table| {
        assert next[i] == table[i];
      }
    }
    DecodeAllOf(next, d + [t]);
  }

  /** `add`: an `INSERT`; a primary key conflict is already-exists. */
  function Add(enc: TimeText, table: Table, t: Task): (r: Result<Table, Error>)
    ensures r.Err? <==> HasRow(table, t.taskId)
    ensures r.Err? ==> r.error == AlreadyExists(t.taskId)
    ensures r.Ok? ==> r.value == table + [ToRow(enc, t)]
    ensures DecodeAll(table).Ok? ==> AddMeets(View(DecodeAll(table).value), t, Decoded(r))
  {
    TableKeys(table, t.taskId);
    if HasRow(table, t.taskId) then Err(AlreadyExists(t.taskId))
    else
      var next: Table := table + [ToRow(enc, t)];
      if DecodeAll(table).Ok? then
        var d := DecodeAll(table).value;
        ViewAppend(d, t);
        DecodeAppend(enc, table, d, t);
        Ok(next)
      else Ok(next)
  }

  /** The row of an id, if any: `SELECT ... WHERE task_id = ?`. */
  function RowOf(table: seq<Row>, id: string): (r: Option<Row>)
    ensures r.Some? <==> HasRow(table, id)
    ensures r.Some? ==> exists i | 0 <= i < |table| :: table[i] == r.value && r.value.taskId == id
    decreases |table|
  {
    if |table| == 0 then None
    else if table[0].taskId == id then Some(table[0])
    else
      var r := RowOf(table[1..], id);
      assert HasRow(table, id) ==> HasRow(table[1..], id) by {
        if HasRow(table, id) {
          var i :| 0 <= i < |table| && table[i].taskId == id;
          assert table[1..][i - 1].taskId == id;
        }
      }
      assert r.Some? ==> exists i | 0 <= i < |table| :: table[i] == r.value && r.value.taskId == id by {
        if r.Some? {
          var i :| 0 <= i < |table[1..]| && table[1..][i] == r.value && r.value.taskId == id;
          assert table[i + 1] == r.value;
        }
      }
      r
  }

  /** Decoding the row at position `i` gives the decoded map's entry. */
  lemma DecodedAt(table: Table, i: nat)
    requires i < |table| && DecodeAll(table).Ok?
    ensures table[i].taskId in View(DecodeAll(table).value)
    ensures FromRow(table[i]) == Ok(View(DecodeAll(table).value)[table[i].taskId])
  {
    var d := DecodeAll(table).value;
    DecodedIds(table);
    ViewAt(d, i);
  }

  /** `get`: not-found for a missing row, a `ValueError` for a row that
      does not decode. */
  function Get(table: Table, id: string): (r: Result<Task, Error>)
    ensures !HasRow(table, id) ==> r == Err(NotFound(id))
    ensures r.Err? && HasRow(table, id) ==> !IsDomainError(r.error)
    ensures DecodeAll(table).Ok? ==>
      var d := DecodeAll(table).value;
      r == if id in View(d) then Ok(View(d)[id]) else Err(NotFound(id))
  {
    TableKeys(table, id);
    match RowOf(table, id)
    case None => Err(NotFound(id))
    case Some(row) =>
      var i :| 0 <= i < |table| && table[i] == row && row.taskId == id;
      if DecodeAll(table).Ok? then
        DecodedAt(table, i);
        FromRow(row)
      else FromRow(row)
  }

  /** Every row, the one with the id replaced. */
  function ReplaceRow(table: seq<Row>, row: Row): (r: seq<Row>)
    ensures |r| == |table|
    ensures forall i | 0 <= i < |table| :: r[i] == if table[i].taskId == row.taskId then row else table[i]
  {
    seq(|table|, i requires 0 <= i < |table| => if table[i].taskId == row.taskId then row else table[i])
  }

  lemma DecodeReplaceRow(enc: TimeText, table: seq<Row>, d: seq<Task>, t: Task)
    requires DecodeAll(table) == Ok(d)
    ensures DecodeAll(ReplaceRow(table, ToRow(enc, t))) == Ok(Replace(d, t))
  {
    var next := ReplaceRow(table, ToRow(enc, t));
    forall i | 0 <= i < |next|
      ensures FromRow(next[i]) == Ok(Replace(d, t)[i])
    {
      assert d[i].taskId == table[i].taskId;
    }
    DecodeAllOf(next, Replace(d, t));
  }

  /** `update`: an `UPDATE`; no row affected is not-found. */
  function Update(enc: TimeText, table: Table, t: Task): (r: Result<Table, Error>)
    ensures r.Err? <==> !HasRow(table, t.taskId)
    ensures r.Err? ==> r.error == NotFound(t.taskId)
    ensures r.Ok? ==> |r.value| == |table|
    ensures DecodeAll(table).Ok? ==> UpdateMeets(View(DecodeAll(table).value), t, Decoded(r))
  {
    TableKeys(table, t.taskId);
    if !HasRow(table, t.taskId) then Err(NotFound(t.taskId))
    else
      var next: Table := ReplaceRow(table, ToRow(enc, t));
      if DecodeAll(table).Ok? then
        DecodeReplaceRow(enc, table, DecodeAll(table).value, t);
        Ok(next)
      else Ok(next)
  }

  /** Every row but the id's, in order. */
  function DeleteRows(table: seq<Row>, id: string): (r: seq<Row>)
    ensures forall x | x in r :: x in table && x.taskId != id
    ensures UniqueRowIds(table) ==> UniqueRowIds(r)
    ensures |r| <= |table|
    ensures HasRow(table, id) ==> |r| < |table|
    decreases |table|
  {
    if |table| == 0 then []
    else
      var rest := DeleteRows(table[1..], id);
      assert HasRow(table, id) && table[0].taskId != id ==> HasRow(table[1..], id) by {
        if HasRow(table, id) && table[0].taskId != id {
          var i :| 0 <= i < |table| && table[i].taskId == id;
          assert table[1..][i - 1].taskId == id;
        }
      }
      if table[0].taskId == id then rest
      else
        var r := [table[0]] + rest;
        assert UniqueRowIds(table) ==> UniqueRowIds(r) by {
          if UniqueRowIds(table) {
            forall j | 0 <= j < |rest|
              ensures rest[j].taskId != table[0].taskId
            {
              assert rest[j] in table[1..];
              var k :| 0 <= k < |table[1..]| && table[1..][k] == rest[j];
              assert table[k + 1] == rest[j];
            }
          }
        }
        r
  }

  /** Deleting rows and decoding commute with the dict's `del`. */
  lemma {:induction false} DecodeDeleteRows(table: seq<Row>, d: seq<Task>, id: string)
    requires DecodeAll(table) == Ok(d)
    ensures DecodeAll(DeleteRows(table, id)) == Ok(Without(d, id))
    decreases |table|
  {
    if |table| > 0 {
      assert DecodeAll(table[1..]) == Ok(d[1..]);
      DecodeDeleteRows(table[1..], d[1..], id);
      assert FromRow(table[0]) == Ok(d[0]);
    }
  }

  /** `remove`: a `DELETE`; no row affected is not-found. */
  function Remove(table: Table, id: string): (r: Result<Table, Error>)
    ensures r.Err? <==> !HasRow(table, id)
    ensures r.Err? ==> r.error == NotFound(id)
    ensures r.Ok? ==> |r.value| < |table|
    ensures DecodeAll(table).Ok? ==> RemoveMeets(View(DecodeAll(table).value), id, Decoded(r))
  {
    TableKeys(table, id);
    if !HasRow(table, id) then Err(NotFound(id))
    else
      var next: Table := DeleteRows(table, id);
      if DecodeAll(table).Ok? then
        DecodeDeleteRows(table, DecodeAll(table).value, id);
        Ok(next)
      else Ok(next)
  }

  /** `exists`. */
  function Exists(table: Table, id: string): (b: bool)
    ensures b <==> HasRow(table, id)
    ensures DecodeAll(table).Ok? ==> (b <==> id in View(DecodeAll(table).value))
  {
    TableKeys(table, id);
    HasRow(table, id)
  }

  /** `count_all`: `SELECT count(*)`. */
  function CountAll(table: Table): (n: nat)
    ensures DecodeAll(table).Ok? ==> n == |View(DecodeAll(table).value)|
  {
    if DecodeAll(table).Ok? then
      DecodedIds(table);
      ViewSize(DecodeAll(table).value);
      |table|
    else |table|
  }

  /** `str.lower()` on the letters `A` to `Z`, which is all it takes to
      compare the result with `"title"`. */
  function LowerAscii(s: string): (r: string)
    ensures |r| == |s|
    ensures forall i | 0 <= i < |s| :: r[i] == if 'A' <= s[i] <= 'Z' then (s[i] as int + 32) as char else s[i]
  {
    seq(|s|, i requires 0 <= i < |s| => if 'A' <= s[i] <= 'Z' then (s[i] as int + 32) as char else s[i])
  }

  /** `(order_by or "created_at").lower()`: `title` in any letter case
      orders by title; any other value, valid or not, by `created_at`. */
  function OrderField(orderBy: Option<string>): (f: OrderBy)
    ensures f == ByTitle <==> orderBy.Some? && LowerAscii(orderBy.value) == "title"
  {
    var name := if orderBy.None? || orderBy.value == "" then "created_at" else orderBy.value;
    if LowerAscii(name) == "title" then ByTitle else ByCreatedAt
  }

  /** The `ORDER BY` key of a row: the text column, then `task_id`. */
  function RowKey(f: OrderBy): Row -> Key
  {
    (r: Row) => Key(if f == ByTitle then Codes(r.title) else Codes(r.createdAt), Codes(r.taskId))
  }

  /** `list_all`: a non-positive limit gives an empty list before any query,
      a non-positive offset is ignored, rows are ordered by their text,
      paged, then decoded. */
  function ListAll(table: Table, limit: Option<int>, offset: int, orderBy: Option<string>): (r: Result<seq<Task>, Error>)
    ensures limit.Some? && limit.value <= 0 ==> r == Ok([])
    ensures r.Ok? && limit.Some? && limit.value > 0 ==> |r.value| <= limit.value
    ensures r.Ok? ==> |r.value| <= |table|
    ensures r.Err? ==> !IsDomainError(r.error)
  {
    if limit.Some? && limit.value <= 0 then Ok([])
    else
      var start: nat := if offset > 0 then offset else 0;
      DecodeAll(Page(Sort(table, RowKey(OrderField(orderBy))), start, if limit.Some? then Some(limit.value as nat) else None))
  }

  /** Every two tasks of `d` sort by their row text as by field `f`. */
  predicate TextOrdersTasks(enc: TimeText, f: OrderBy, d: seq<Task>)
  {
    f == ByTitle || forall x, y | x in d && y in d :: TextOrdersTime(enc, x.createdAt, y.createdAt)
  }

  /** Comparing the rows of two tasks is comparing the tasks by the same
      field, wherever the stored text orders their instants. */
  lemma RowKeyOrder(enc: TimeText, f: OrderBy, x: Task, y: Task)
    requires f == ByTitle || TextOrdersTime(enc, x.createdAt, y.createdAt)
    ensures KeyLess(RowKey(f)(ToRow(enc, x)), RowKey(f)(ToRow(enc, y))) <==> KeyLess(SortKey(f)(x), SortKey(f)(y))
  {
    if f == ByCreatedAt {
      EncodeOrder(enc, x.createdAt, y.createdAt);
      CodesEqual(Encode(enc, x.createdAt), Encode(enc, y.createdAt));
    }
  }

  /** Decoding a page of rows is paging the decoded rows. */
  lemma DecodePage(s: seq<Row>, ts: seq<Task>, start: nat, limit: Option<nat>)
    requires DecodeAll(s) == Ok(ts)
    ensures DecodeAll(Page(s, start, limit)) == Ok(Page(ts, start, limit))
  {
    var p := Page(s, start, limit);
    var q := Page(ts, start, limit);
    forall i | 0 <= i < |p|
      ensures FromRow(p[i]) == Ok(q[i])
    {
      assert p[i] == s[start + i];
    }
    DecodeAllOf(p, q);
  }

  /** Distinct ids give distinct row keys. */
  lemma RowKeysDistinct(enc: TimeText, d: Dict, f: OrderBy)
    ensures KeysDistinct(Rows(enc, d), RowKey(f))
  {
    var rows := Rows(enc, d);
    forall i, j | 0 <= i < j < |rows|
      ensures RowKey(f)(rows[i]) != RowKey(f)(rows[j])
    {
      CodesInjective(rows[i].taskId, rows[j].taskId);
    }
  }

  /** Rows that are all rows of tasks decode, each back to its task. */
  lemma DecodeTaskRows(enc: TimeText, rows: seq<Row>, d: seq<Task>)
    requires forall r | r in rows :: exists x | x in d :: r == ToRow(enc, x)
    ensures DecodeAll(rows).Ok?
    ensures forall k | 0 <= k < |rows| :: rows[k] == ToRow(enc, DecodeAll(rows).value[k]) && DecodeAll(rows).value[k] in d
  {
    forall k | 0 <= k < |rows|
      ensures FromRow(rows[k]).Ok? && rows[k] == ToRow(enc, FromRow(rows[k]).value) && FromRow(rows[k]).value in d
    {
      assert rows[k] in rows;
      var x :| x in d && rows[k] == ToRow(enc, x);
    }
  }

  lemma RowOfSomeTask(enc: TimeText, d: seq<Task>, r: Row)
    requires r in Rows(enc, d)
    ensures exists x | x in d :: r == ToRow(enc, x)
  {
    var m :| 0 <= m < |d| && Rows(enc, d)[m] == r;
    assert d[m] in d;
  }

  /** The rows of a dict, sorted, are rows of its tasks. */
  lemma SortedRowsAreTaskRows(enc: TimeText, d: Dict, f: OrderBy)
    ensures forall r | r in Sort(Rows(enc, d), RowKey(f)) :: exists x | x in d :: r == ToRow(enc, x)
  {
    forall r | r in Sort(Rows(enc, d), RowKey(f))
      ensures exists x | x in d :: r == ToRow(enc, x)
    {
      SortMembers(Rows(enc, d), RowKey(f), r);
      RowOfSomeTask(enc, d, r);
    }
  }

  /** Tasks whose rows are sorted by a row key are sorted by the task key. */
  lemma DecodedSorted(enc: TimeText, rows: seq<Row>, ts: seq<Task>, f: OrderBy)
    requires |rows| == |ts| && SortedBy(rows, RowKey(f))
    requires forall k | 0 <= k < |rows| :: rows[k] == ToRow(enc, ts[k])
    requires TextOrdersTasks(enc, f, ts)
    ensures SortedBy(ts, SortKey(f))
  {
    forall i, j | 0 <= i < j < |ts|
      ensures KeyLess(SortKey(f)(ts[i]), SortKey(f)(ts[j]))
    {
      assert ts[i] in ts && ts[j] in ts;
      RowKeyOrder(enc, f, ts[i], ts[j]);
    }
  }

  /** A task whose row is among the decoded rows is among the results. */
  lemma DecodedKeepsTask(enc: TimeText, sorted: seq<Row>, ts: seq<Task>, x: Task)
    requires DecodeAll(sorted) == Ok(ts)
    requires ToRow(enc, x) in sorted
    ensures x in ts
  {
    var k :| 0 <= k < |sorted| && sorted[k] == ToRow(enc, x);
    assert FromRow(sorted[k]) == Ok(ts[k]);
  }

  /** The rows of a dict, sorted by text, decode to its listing wherever
      the stored text orders its tasks. */
  lemma SortedRowsDecodeToListing(enc: TimeText, d: Dict, f: OrderBy)
    requires TextOrdersTasks(enc, f, d)
    ensures DecodeAll(Sort(Rows(enc, d), RowKey(f))) == Ok(Listing(d, f))
  {
    var sorted := Sort(Rows(enc, d), RowKey(f));
    SortedRowsDecodeSorted(enc, d, f);
    var ts := DecodeAll(sorted).value;
    var listing := Listing(d, f);
    forall x
      ensures x in ts <==> x in listing
    {
      MemberIff(d, x);
      if x in d {
        var m :| 0 <= m < |d| && d[m] == x;
        assert Rows(enc, d)[m] == ToRow(enc, x);
        SortMembers(Rows(enc, d), RowKey(f), ToRow(enc, x));
        DecodedKeepsTask(enc, sorted, ts, x);
      }
    }
    SortedUnique(ts, listing, SortKey(f));
  }

  /** The sorted rows decode to tasks of `d`, sorted by the task key. */
  lemma SortedRowsDecodeSorted(enc: TimeText, d: Dict, f: OrderBy)
    requires TextOrdersTasks(enc, f, d)
    ensures DecodeAll(Sort(Rows(enc, d), RowKey(f))).Ok?
    ensures forall x | x in DecodeAll(Sort(Rows(enc, d), RowKey(f))).value :: x in d
    ensures SortedBy(DecodeAll(Sort(Rows(enc, d), RowKey(f))).value, SortKey(f))
  {
    var sorted := Sort(Rows(enc, d), RowKey(f));
    RowKeysDistinct(enc, d, f);
    SortedRowsAreTaskRows(enc, d, f);
    DecodeTaskRows(enc, sorted, d);
    var ts := DecodeAll(sorted).value;
    assert forall x | x in ts :: x in d;
    assert TextOrdersTasks(enc, f, ts);
    DecodedSorted(enc, sorted, ts, f);
  }

  /** A table written with either encoder lists its tasks as the in-memory
      backend orders them, wherever the stored text orders them: always
      with the corrected encoder, and as written when the order is by title
      or no two tasks share a second with exactly one on the whole second. */
  lemma ListAllIsListing(enc: TimeText, d: Dict, limit: Option<int>, offset: int, orderBy: Option<string>)
    requires limit.None? || limit.value > 0
    requires TextOrdersTasks(enc, OrderField(orderBy), d)
    ensures ListAll(Rows(enc, d), limit, offset, orderBy)
         == Ok(Page(Listing(d, OrderField(orderBy)), if offset > 0 then offset else 0,
                    if limit.Some? then Some(limit.value as nat) else None))
  {
    var f := OrderField(orderBy);
    SortedRowsDecodeToListing(enc, d, f);
    DecodePage(Sort(Rows(enc, d), RowKey(f)), Listing(d, f), if offset > 0 then offset else 0,
               if limit.Some? then Some(limit.value as nat) else None);
  }
}
