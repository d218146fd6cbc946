# Task manager core, modelled in Dafny

This project models the core of a small layered task manager:

- the `Task` entity and its `TaskStatus` enumeration;
- the domain errors;
- the `TaskRepository` port;
- its three backends: an in-memory dict, a JSON-lines file and an SQLite table through SQLAlchemy;
- the `TaskService` use cases built on the port.

Each module follows one source file:

| module | file | models |
|---|---|---|
| `Enums` | `enums.dfy` | `TaskStatus` and its string labels |
| `Tasks` | `task.dfy` | the frozen `Task` dataclass |
| `Errors` | `errors.dfy` | `DomainError` and its subclasses, plus a `Defect` case for Python exceptions outside that hierarchy |
| `TaskRepository` | `task_repository.dfy` | the port's promises, as predicates over the id-to-task map a backend holds, plus the sorted listing every `list_all` pages through |
| `InMemoryRepo` | `memory_repo.dfy` | `InMemoryTaskRepository` |
| `JsonlRepo` | `jsonl_repo.dfy` | `JsonlTaskRepository`: loading line by line, the atomic dump and the UTC `Z` timestamps |
| `SqlRepo` | `sql_repo.dfy` | `SqlTaskRepository`: rows, timestamp text, engine URL, `ORDER BY`/`OFFSET`/`LIMIT` |
| `TaskService` | `task_service.dfy` | `TaskService` over the in-memory backend |
| `Backends` | `backends.dfy` | how the three backends agree and differ |

Helper modules:

- `Wrappers` holds `Option` and `Result`.
- `Ordering` holds lexicographic keys and an insertion sort. It stands in for Python's `sort` and SQL's `ORDER BY`.
- `Timestamps` holds aware UTC datetimes.
- `IsoText` and `IsoOrder` hold ISO 8601 text and its ordering.
- `TaskDict` holds insertion-ordered dicts.

Some design choices:

- A Python `dict[str, Task]` is an insertion-ordered `seq<Task>` with unique ids (`TaskDict.Dict`). Its meaning is the ghost map `View`.
- A raised exception is an `Err`. When a call fails, the state passed in is the state that remains.
- A fresh id and the current time become inputs: `uuid4()` and `datetime.now`.
- Disk faults become inputs: which step of the atomic write fails, and whether cleanup fails.
- The JSON text codec is abstracted into a `Line` datatype. A line is blank, malformed, not an object, or an object whose fields are present or missing.
- Where the source has a defect listed under Findings and the defect changes what an operation returns, the operation takes a mode: `JsonlRepo.JsonFailure` for how malformed JSON is reported, and `SqlRepo.TimeText` for how `created_at` is written. Each mode is either `AsWritten` or `Corrected`. `Backends` compares the backends as written.

## Model

| member | source | states |
|---|---|---|
| Enums.Label | notes/domain/enums.py:3-9 | every status has a non-empty value in the set of allowed labels |
| Enums.FromLabel | notes/domain/enums.py:3-9 | `TaskStatus(text)` succeeds exactly for the three labels and returns the member with that value |
| Enums.LabelInjective | notes/domain/enums.py:3-9 | two statuses have the same label exactly when they are the same status |
| Enums.LabelRoundTrip | notes/domain/enums.py:3-9 | decoding the label of a status gives the status back |
| Enums.EqualsTextIsMembership | notes/services/task_service.py:110 | comparing a status with a string is the same as decoding the string to that status |
| Tasks.NewTaskDefaults | notes/domain/task.py:7-17 | a task built without a status is Open and has no description |
| Tasks.WithStatus | notes/services/task_service.py:112 | the copy has the new status and agrees with the original in every other field |
| Errors.AlreadyExistsMessageNamesId | notes/domain/errors.py:28-38 | two already-exists messages are equal exactly when their ids are equal |
| Errors.NotFoundMessageDiffers | notes/domain/errors.py:59-69 | a not-found message never equals an already-exists message |
| Errors.ValidationMessageShape | notes/domain/errors.py:50-55 | a validation message starts with the fixed prefix and the field name, and ends with the message |
| Timestamps.FieldsInjective | notes/domain/task.py:7-17 | two datetimes with the same fields are the same datetime |
| Timestamps.WholeSecond | notes/adapters/jsonl/task_repo.py:112-117 | dropping the fraction keeps every other field and leaves a whole-second instant unchanged |
| IsoText.PadValue | notes/adapters/jsonl/task_repo.py:117 | a zero-padded number reads back as that number |
| IsoText.PadInjective | notes/adapters/jsonl/task_repo.py:117 | distinct numbers pad to distinct text of the same width |
| IsoText.ParseSecondsTextRoundTrip | notes/adapters/jsonl/task_repo.py:14-18 | parsing the `YYYY-MM-DDTHH:MM:SS` text of an instant gives that instant back |
| IsoText.FromIsoFormatSeconds | notes/adapters/jsonl/task_repo.py:18 | `fromisoformat` of the whole-second text with `+00:00` gives the instant without its fraction |
| IsoText.FromIsoFormatMicros | notes/adapters/sql/task_repo.py:45-47 | `fromisoformat` of the text with six fraction digits and `+00:00` gives the instant exactly |
| IsoText.ReplaceZNoZ | notes/adapters/sql/task_repo.py:47 | replacing `Z` leaves text without a `Z` unchanged |
| IsoOrder.RenderOrder | notes/adapters/sql/task_repo.py:148-151 | for fixed-width fields, comparing the rendered text compares the fields lexicographically |
| IsoOrder.MicrosTextOrder | notes/adapters/sql/task_repo.py:151 | comparing the full-precision ISO text of two instants compares the instants in time |
| Ordering.LexTransitive | notes/adapters/memory/task_repo.py:147 | the tuple order used by `sort` is transitive |
| Ordering.LexTotal | notes/adapters/memory/task_repo.py:147 | distinct tuples are ordered one way or the other |
| Ordering.Sort | notes/adapters/memory/task_repo.py:147 | the result has the same multiset of elements as the input, and it is strictly sorted when the keys are distinct |
| Ordering.SortMembers | notes/adapters/memory/task_repo.py:147 | sorting keeps exactly the elements of the input |
| Ordering.SortedUnique | notes/adapters/memory/task_repo.py:146-147 | two strictly sorted sequences with the same elements are equal, so a total order has a single sorted listing |
| TaskDict.ViewKeys | notes/adapters/memory/task_repo.py:32-37 | a key is stored exactly when some entry has that id |
| TaskDict.ViewSize | notes/adapters/memory/task_repo.py:157-166 | a dict with unique ids stores as many keys as it has entries |
| TaskDict.MemberIff | notes/adapters/memory/task_repo.py:144 | a task is among the dict's values exactly when it is stored under its own id |
| TaskDict.Lookup | notes/adapters/memory/task_repo.py:59-73 | the result is the task stored under the id, or none |
| TaskDict.Replace | notes/adapters/memory/task_repo.py:75-92 | only the entry with the task's id changes, and the map assigns the task to its id when the id is present |
| TaskDict.Without | notes/adapters/memory/task_repo.py:94-110 | the map loses exactly the id, and the remaining entries come from the dict |
| TaskDict.Put | notes/adapters/jsonl/task_repo.py:74 | `tasks[id] = task`: the map assigns the task to its id and the ids stay unique |
| TaskRepository.Listing | notes/ports/task_repository.py:79-113 | the listing is strictly sorted by (field, id), has one entry per stored task, and holds exactly the stored tasks |
| TaskRepository.ListingDependsOnlyOnView | notes/ports/task_repository.py:79-113 | two dicts storing the same tasks list them identically, whatever the insertion order |
| TaskRepository.Page | notes/adapters/memory/task_repo.py:150-153 | the page has the length of `s[start:start+limit]` (or `s[start:]` without a limit), and its i-th item is `s[start+i]` |
| TaskRepository.PagesAdjoin | notes/ports/task_repository.py:79-113 | two adjacent pages of size n join into the page of size 2n |
| TaskRepository.PageOfListing | notes/ports/task_repository.py:79-113 | a page of the listing is sorted and holds only stored tasks, and its length follows from the count |
| TaskRepository.RemoveIsNotIdempotent | notes/ports/task_repository.py:66-77 | removing the same id a second time is a not-found error |
| InMemoryRepo.SeedKeys | notes/adapters/memory/task_repo.py:32-37 | seeding stores exactly the ids of the initial tasks, one entry per distinct id |
| InMemoryRepo.SeedLastWins | notes/adapters/memory/task_repo.py:28-37 | when an id repeats among the initial tasks, the last one wins |
| InMemoryRepo.Add | notes/adapters/memory/task_repo.py:39-57 | already-exists when the id is stored, otherwise one new entry (the port's `add`) |
| InMemoryRepo.Get | notes/adapters/memory/task_repo.py:59-73 | the stored task or none, never an error (the port's `get`) |
| InMemoryRepo.Update | notes/adapters/memory/task_repo.py:75-92 | not-found when the id is absent, otherwise the stored task is replaced (the port's `update`) |
| InMemoryRepo.Remove | notes/adapters/memory/task_repo.py:94-110 | not-found when the id is absent, otherwise exactly that key is deleted (the port's `remove`) |
| InMemoryRepo.CountAll | notes/adapters/memory/task_repo.py:157-166 | the number of stored tasks |
| InMemoryRepo.Exists | notes/adapters/memory/task_repo.py:169-183 | true exactly when the id is stored |
| InMemoryRepo.ListAll | notes/adapters/memory/task_repo.py:112-155 | an unknown order field, a negative offset and a non-positive limit are the only errors; otherwise the result is the page of the listing sorted by (field, id) |
| JsonlRepo.DecimalValue | notes/adapters/jsonl/task_repo.py:49 | the decimal text of a line number reads back as that number |
| JsonlRepo.ParseUtcZ | notes/adapters/jsonl/task_repo.py:14-18 | text without a trailing `Z`, or a non-string value, is rejected; text ending in `Z` parses exactly when `fromisoformat` accepts it with `Z` replaced by `+00:00` |
| JsonlRepo.FormatDt | notes/adapters/jsonl/task_repo.py:112-117 | the text is 20 characters ending in `Z` |
| JsonlRepo.ParseFormatDt | notes/adapters/jsonl/task_repo.py:14-18 | parsing a formatted instant gives it back without its fraction |
| JsonlRepo.Stored | notes/adapters/jsonl/task_repo.py:119-122 | a stored task is the task with its sub-second part dropped |
| JsonlRepo.StoredIdempotent | notes/adapters/jsonl/task_repo.py:119-122 | storing twice is storing once |
| JsonlRepo.StoredAll | notes/adapters/jsonl/task_repo.py:96-99 | every record is stored positionwise and ids stay unique |
| JsonlRepo.ViewStoredAll | notes/adapters/jsonl/task_repo.py:96-99 | the stored file holds the stored version of each task in the map |
| JsonlRepo.StoredViewOfWholeSeconds | notes/adapters/jsonl/task_repo.py:119-122 | storing changes nothing when every timestamp is a whole second |
| JsonlRepo.DecodeRecord | notes/adapters/jsonl/task_repo.py:51-62 | a record decodes exactly when every required field is present, `created_at` parses and the status is allowed; each field is taken from the record; every failure is a validation error on field `record` |
| JsonlRepo.DecodeToRecord | notes/adapters/jsonl/task_repo.py:51-62 | the record written for a task decodes to its stored version |
| JsonlRepo.InvalidJson | notes/adapters/jsonl/task_repo.py:45-50 | with the corrected call, malformed JSON is a validation error on `record`; as written, it is not a domain error |
| JsonlRepo.LoadLine | notes/adapters/jsonl/task_repo.py:41-74 | a loaded line never removes keys, and an object line adds exactly one entry |
| JsonlRepo.LoadLines | notes/adapters/jsonl/task_repo.py:36-84 | a file loads only if each line is blank or an object, and it yields at most one task per line |
| JsonlRepo.LoadSkipsBlank | notes/adapters/jsonl/task_repo.py:41-43 | a trailing blank line changes nothing |
| JsonlRepo.LoadFirstErrorWins | notes/adapters/jsonl/task_repo.py:45-65 | the first bad line's error is the error of the whole file |
| JsonlRepo.Dump | notes/adapters/jsonl/task_repo.py:96-99 | one object line per task, in order |
| JsonlRepo.LoadLineOfTask | notes/adapters/jsonl/task_repo.py:64-74 | a task's line appends its stored version when its id is new |
| JsonlRepo.LoadDump | notes/adapters/jsonl/task_repo.py:29-110 | loading a dumped dict gives back the dict, with each task stored |
| JsonlRepo.InvalidJsonLine | notes/adapters/jsonl/task_repo.py:45-50 | after a valid prefix, a malformed line fails with a non-domain error as written, and with a validation error on `record` when corrected |
| JsonlRepo.LoadModeIrrelevantWithoutMalformed | notes/adapters/jsonl/task_repo.py:45-50 | the two ways of reporting malformed JSON agree on files without a malformed line |
| JsonlRepo.InvalidJsonExample | notes/adapters/jsonl/task_repo.py:45-50 | a concrete one-line file on which the as-written call ends in a defect, while the corrected call ends in a validation error |
| JsonlRepo.Load | notes/adapters/jsonl/task_repo.py:76-82 | a missing file is an empty repository, and an unreadable one is an infrastructure error with the OS reason; a present file loads line by line, with malformed JSON reported as written or corrected |
| JsonlRepo.AtomicDump | notes/adapters/jsonl/task_repo.py:87-110 | on success the target holds the new lines and the swap file is gone; on a fault the target is untouched and the error is an infrastructure error; the swap file is removed unless cleanup fails |
| JsonlRepo.FailedDumpKeepsData | notes/adapters/jsonl/task_repo.py:87-110 | after a failed dump the file loads exactly as before |
| JsonlRepo.DumpThenLoad | notes/adapters/jsonl/task_repo.py:87-102 | what a successful dump writes loads back as the stored dict |
| JsonlRepo.SeenAfterDump | notes/adapters/jsonl/task_repo.py:87-102 | after a fault-free dump, the next load sees the stored dict |
| JsonlRepo.StoredViewPut | notes/adapters/jsonl/task_repo.py:119-122 | storing commutes with assigning a task |
| JsonlRepo.StoredViewRemove | notes/adapters/jsonl/task_repo.py:119-122 | storing commutes with deleting a key |
| JsonlRepo.Add | notes/adapters/jsonl/task_repo.py:124-133 | a load error is passed on; an existing id is already-exists and writes nothing; a disk fault on a new id is an infrastructure error with the OS reason; otherwise the port's `add` holds for the stored records; a failed call leaves the file as it was |
| JsonlRepo.Get | notes/adapters/jsonl/task_repo.py:136-143 | a load error is passed on; otherwise the stored task, or not-found |
| JsonlRepo.Update | notes/adapters/jsonl/task_repo.py:145-152 | a load error is passed on; a missing id is not-found and writes nothing; a disk fault on an existing id is an infrastructure error with the OS reason; otherwise the port's `update` holds; a failed call leaves the file as it was |
| JsonlRepo.Remove | notes/adapters/jsonl/task_repo.py:154-163 | a load error is passed on; a missing id is not-found and writes nothing; a disk fault on an existing id is an infrastructure error with the OS reason; otherwise the port's `remove` holds; a failed call leaves the file as it was |
| JsonlRepo.ListAll | notes/adapters/jsonl/task_repo.py:165-181 | always ordered by `created_at`; a negative offset counts as zero and a non-positive limit gives an empty page; otherwise the page of the listing |
| JsonlRepo.CountAll | notes/adapters/jsonl/task_repo.py:184-187 | the number of stored tasks, or the load error |
| JsonlRepo.Exists | notes/adapters/jsonl/task_repo.py:189-192 | whether the id is stored, or the load error |
| SqlRepo.EngineUrlAsWritten | notes/adapters/sql/task_repo.py:18-24 | the engine always opens the same hard-coded database, whatever the argument |
| SqlRepo.RepositoriesShareOneTableAsWritten | notes/adapters/sql/task_repo.py:24 | two repositories built with any two arguments read and write the same table |
| SqlRepo.EngineUrl | notes/adapters/sql/task_repo.py:18-22 | a URL argument is used as given, and a path becomes `sqlite:///` followed by the path |
| SqlRepo.OpenTable | notes/adapters/sql/task_repo.py:38-39 | a database that does not exist yet starts with an empty table |
| SqlRepo.DistinctPathsDistinctDatabases | notes/adapters/sql/task_repo.py:18-22 | distinct paths name distinct databases |
| SqlRepo.EncodeDtAsWritten | notes/adapters/sql/task_repo.py:41-43 | `isoformat()` text ends in `Z`, and is 20 characters for a whole second or 27 otherwise |
| SqlRepo.EncodeDt | notes/adapters/sql/task_repo.py:41-43 | the corrected text always has six fraction digits: 27 characters ending in `Z` |
| SqlRepo.DecodeDt | notes/adapters/sql/task_repo.py:45-47 | undecodable text is a `ValueError`, which is not a domain error |
| SqlRepo.DecodeEncode | notes/adapters/sql/task_repo.py:41-47 | decoding the encoded text of an instant gives the instant |
| SqlRepo.DecodeEncodeAsWritten | notes/adapters/sql/task_repo.py:41-47 | the as-written encoding round-trips too |
| SqlRepo.EncodeDtOrder | notes/adapters/sql/task_repo.py:151 | with the corrected encoding, text order is time order and equal text is an equal instant |
| SqlRepo.WholeSecondListedLastAsWritten | notes/adapters/sql/task_repo.py:41-43 | with the as-written encoding, a whole second sorts after a later instant in the same second |
| SqlRepo.TextOrderAsWrittenDisagrees | notes/adapters/sql/task_repo.py:151 | concrete instants 12:00:00 and 12:00:00.5 whose as-written texts sort in the wrong order |
| SqlRepo.Encode | notes/adapters/sql/task_repo.py:41-47 | the text either encoder writes ends in `Z` and decodes back to the instant |
| SqlRepo.AsWrittenSplit | notes/adapters/sql/task_repo.py:41-43 | the as-written text is the whole-second text followed by `Z`, or by the fraction and `Z` |
| SqlRepo.DifferentSecondsOrderAsWritten | notes/adapters/sql/task_repo.py:41-43 | as written, instants in different seconds have different texts that sort as the instants do |
| SqlRepo.EncodeOrder | notes/adapters/sql/task_repo.py:41-43 | text order is time order, for the corrected text always and for the as-written text unless the two share a second with exactly one on the whole second; different instants always have different text |
| SqlRepo.TextOrdersTimeExactly | notes/adapters/sql/task_repo.py:41-43 | as written, text order agrees with time order in both directions exactly when that condition holds |
| SqlRepo.ToRow | notes/adapters/sql/task_repo.py:49-56 | the row is keyed by the task's id and, with either encoder, decodes back to the task |
| SqlRepo.StatusOrOpen | notes/adapters/sql/task_repo.py:59-63 | a known label decodes to its status, and any other text falls back to Open |
| SqlRepo.FromRow | notes/adapters/sql/task_repo.py:58-71 | a row decodes exactly when its time text decodes; the fields are taken from the row; a failure is not a domain error |
| SqlRepo.DecodeAll | notes/adapters/sql/task_repo.py:164 | a list of rows decodes exactly when every row does, positionwise |
| SqlRepo.DecodedIds | notes/adapters/sql/task_repo.py:31 | the primary key makes the decoded ids unique, with the same ids as the rows |
| SqlRepo.TableKeys | notes/adapters/sql/task_repo.py:31 | in a decodable table, a row exists exactly when the decoded map holds the id |
| SqlRepo.Rows | notes/adapters/sql/task_repo.py:49-56 | one row per task, in order, with unique keys, under either encoder |
| SqlRepo.DecodeRows | notes/adapters/sql/task_repo.py:49-71 | the rows of a dict decode to the dict, under either encoder |
| SqlRepo.Add | notes/adapters/sql/task_repo.py:73-81 | a primary-key conflict is already-exists, otherwise the task's row is inserted; on a decodable table the port's `add` holds, under either encoder |
| SqlRepo.RowOf | notes/adapters/sql/task_repo.py:84-88 | the first row with the id, found exactly when one exists |
| SqlRepo.Get | notes/adapters/sql/task_repo.py:83-92 | not-found without a row, a non-domain error if the row does not decode, and otherwise the stored task |
| SqlRepo.ReplaceRow | notes/adapters/sql/task_repo.py:96-100 | only rows with the task's id are replaced |
| SqlRepo.DecodeReplaceRow | notes/adapters/sql/task_repo.py:94-107 | replacing the row replaces the decoded task, under either encoder |
| SqlRepo.Update | notes/adapters/sql/task_repo.py:94-107 | zero affected rows is not-found; on a decodable table the port's `update` holds, under either encoder |
| SqlRepo.DeleteRows | notes/adapters/sql/task_repo.py:110 | the remaining rows come from the table and none has the id; deleting an existing row shrinks the table |
| SqlRepo.DecodeDeleteRows | notes/adapters/sql/task_repo.py:109-117 | deleting the rows deletes the decoded task |
| SqlRepo.Remove | notes/adapters/sql/task_repo.py:109-117 | zero affected rows is not-found; on a decodable table the port's `remove` holds |
| SqlRepo.Exists | notes/adapters/sql/task_repo.py:119-130 | true exactly when a row has the id, which on a decodable table means the id is stored |
| SqlRepo.CountAll | notes/adapters/sql/task_repo.py:132-138 | on a decodable table, the number of stored tasks |
| SqlRepo.LowerAscii | notes/adapters/sql/task_repo.py:147 | lower-casing keeps the length and maps exactly the upper-case letters |
| SqlRepo.OrderField | notes/adapters/sql/task_repo.py:147-151 | title order exactly when the argument lower-cases to `title`; every other value, including a missing one, means `created_at` |
| SqlRepo.ListAll | notes/adapters/sql/task_repo.py:140-166 | a non-positive limit is an empty list, a positive limit bounds the length, and a decode failure is not a domain error |
| SqlRepo.RowKeyOrder | notes/adapters/sql/task_repo.py:148-151 | the `ORDER BY` orders two rows as the port orders their tasks, by title always and by `created_at` wherever the stored text orders the two instants |
| SqlRepo.DecodePage | notes/adapters/sql/task_repo.py:153-164 | decoding a page of rows gives the same page of tasks |
| SqlRepo.SortedRowsDecodeSorted | notes/adapters/sql/task_repo.py:148-164 | where the stored text orders the tasks, the sorted rows decode to tasks of the dict in the port's order |
| SqlRepo.SortedRowsDecodeToListing | notes/adapters/sql/task_repo.py:148-164 | the sorted rows of a dict decode to the port's listing: with the corrected text always, and as written when ordering by title or when no two tasks share a second with exactly one on the whole second |
| SqlRepo.ListAllIsListing | notes/adapters/sql/task_repo.py:140-166 | with no limit or a positive one, the result is the page of the listing, under the same condition on the stored text; a negative offset counts as zero |
| TaskService.StripStart | notes/services/task_service.py:54 | only leading whitespace is removed, and all of it |
| TaskService.StripEnd | notes/services/task_service.py:54 | only trailing whitespace is removed, and all of it |
| TaskService.BlankIffStripsToEmpty | notes/services/task_service.py:54 | a title is all whitespace exactly when stripping leaves nothing |
| TaskService.CreateTask | notes/services/task_service.py:38-62 | a blank title is a validation error on `title`, and a taken id is already-exists; otherwise a new Open task with the title as given is stored under the id |
| TaskService.ListTasks | notes/services/task_service.py:64-92 | page or page size below one is a pagination error; otherwise the total count and the page at offset (page-1)*size in `created_at` order |
| TaskService.ListTasksIgnoresOrder | notes/services/task_service.py:85-90 | the order argument never reaches the repository, so it has no effect |
| TaskService.ListTasksPage | notes/services/task_service.py:82-92 | a valid page is the page of the listing at (page-1)*size |
| TaskService.ConsecutivePages | notes/services/task_service.py:86-90 | consecutive pages are adjacent, non-overlapping runs of the listing |
| TaskService.MarkStatus | notes/services/task_service.py:107-114 | not-found for an absent id; the stored task unchanged when it already has the target status; otherwise a copy with the new status that replaces the stored one |
| TaskService.MarkInProgress | notes/services/task_service.py:94-114 | the result is In Progress, differs from the stored task only in status, and is stored |
| TaskService.MarkDone | notes/services/task_service.py:116-136 | the result is Closed, differs from the stored task only in status, and is stored |
| TaskService.MarkStatusIdempotent | notes/services/task_service.py:107-114 | a second transition to the same status changes nothing and keeps `created_at` |
| TaskService.RemoveTask | notes/services/task_service.py:138-149 | the repository's `remove`, with its not-found |
| TaskService.GetTask | notes/services/task_service.py:151-165 | the stored task, or not-found |
| TaskService.CreateGetRemove | notes/services/task_service.py:38-165 | a created task can be read back and is counted, and removing it restores the previous map |
| Backends.DumpLoadsBack | notes/adapters/jsonl/task_repo.py:29-122 | with whole-second timestamps, the JSONL file loads back as exactly the dict |
| Backends.WholeSecondsSortAsWritten | notes/adapters/sql/task_repo.py:41-43 | whole-second timestamps are all written in one width, so the as-written text sorts them as instants |
| Backends.ListingsAgree | notes/ports/task_repository.py:79-113 | with a positive limit and whole-second timestamps, the three backends as written list the same page of the same records |
| Backends.NegativeOffsetDiverges | notes/adapters/memory/task_repo.py:140-141 | a negative offset is an error in memory, while JSONL and SQL treat it as zero |
| Backends.NonPositiveLimitDiverges | notes/adapters/memory/task_repo.py:140-141 | a non-positive limit is an error in memory, while JSONL and SQL return an empty page |

## Left out

- Naive datetimes are not modelled. Every `Instant` is an aware UTC value in years 1 to 9999, which the service always produces.
- JsonlRepo.ParseUtcZ: only the canonical `YYYY-MM-DDTHH:MM:SS[.ffffff]Z` forms are decoded. Every other spelling that `fromisoformat` also accepts is treated as invalid. Examples are ordinal and week dates, the basic format without separators, a date-time separator other than `T`, reduced-precision times, a comma before the fraction, and fractions of other than six digits.
- JsonlRepo.FormatDt: years below 1000 are written zero-padded to four digits. The platform's `%Y` may not pad them, and no such year arises from the service's clock.
- The JSON text codec (`json.loads`, `json.dumps`) is abstracted to the `Line` datatype. There, the id and title are strings, and the description, `created_at` and status are strings or null. JSON values of other types are outside the model:
  - a non-string id or title, which the source stores as is, except that a list or object as the id raises `TypeError` at the duplicate check because it is unhashable;
  - a number, boolean, list or object as the description, which the source also stores as is;
  - a number or boolean as the status, which the source rejects as not allowed, like an unknown string;
  - a list or object as the status, which raises `TypeError` because it is unhashable (the `in` test at notes/adapters/jsonl/task_repo.py:57 against the set at line 12);
  - a number, boolean, list or object as `created_at`, which `_parse_utc_z` rejects just as it rejects null.
- `repr` quoting inside error messages is not modelled. Messages carry the identifying text but not Python's exact formatting of a `KeyError`.
- A UTF-8 decoding error while reading the JSONL file is not modelled. Only a missing file and a generic OS error are.
- SqlRepo.DecodeDt: only the two forms `_encode_dt` writes are decoded: whole seconds, or a six-digit fraction, followed by `Z` or `+00:00`. Every other text that `fromisoformat` accepts is read as a `ValueError` defect. Examples are other UTC offsets such as `+02:00`, which the source converts to UTC; fractions of other than six digits; and naive text, which `astimezone` reads as local time. This changes the outcome of `SqlRepo.FromRow`, `SqlRepo.Get` and `SqlRepo.ListAll` only on rows this backend did not write, since `SqlRepo.DecodeEncode` and `SqlRepo.DecodeEncodeAsWritten` show that every text it writes decodes exactly.
- SqlRepo: the SQL engine, connections and transactions are not modelled. The table is a sequence of rows. The mapping from `OSError` to `DomainError` has no model because the table cannot fail.
- SqlRepo.LowerAscii: `str.lower()` is modelled only on ASCII letters. That is exact for the one comparison it feeds, equality with `title`.
- SqlRepo.ListAll: the contract bounds the length directly. The exact page is stated by `SqlRepo.ListAllIsListing` for tables built from a dict.
- The system adapters `uuid4()` and `datetime.now` are inputs to `TaskService.CreateTask`, not modelled. So are the id and clock ports.
- Concurrency between processes sharing a file or database is not modelled.
- TaskService is modelled over the in-memory backend only, whose behaviour is the port contract. The JSONL and SQL backends differ in `get`, and in `list_all` arguments the service never passes. The JSONL backend also keeps `created_at` only to the second (`JsonlRepo.Stored`). So the read-back in `TaskService.CreateGetRemove` holds there only when the clock gives a whole second.
- SqlRepo.ListAllIsListing: as written, the page is the port's listing only when ordering by title, or when no two tasks share a second with exactly one on the whole second. `SqlRepo.TextOrdersTimeExactly` shows the text order is wrong otherwise. With the corrected encoder it holds unconditionally.
- SqlRepo.SortedRowsDecodeToListing: the same condition, for the same reason.
- SqlRepo.RowKeyOrder: the same condition on the two tasks compared when ordering by `created_at`.
- The service's `due_date` parameter is unused by the source and is not modelled.
- The command-line interface and its colours are presentation only, so they are not modelled.
- The JSONL `get` raises not-found for an absent id where the port returns `None`. `JsonlRepo.Get` models that, so the JSONL backend is not claimed to meet `GetMeets`.
- The SQL `get` raises not-found as well, and `SqlRepo.Get` models it as written.
- InMemoryRepo.Seed: the seeding constructor carries no contract of its own. `InMemoryRepo.SeedKeys` and `InMemoryRepo.SeedLastWins` state what it does.

## Findings

| source | as written | input that shows it | evidently intended | confidence | as-written member | corrected member |
|---|---|---|---|---|---|---|
| notes/adapters/sql/task_repo.py:41-43 | `isoformat()` omits the fraction for a whole second, so `ORDER BY created_at` on the text puts `...12:00:00Z` after `...12:00:00.500000Z` | two tasks created at 2024-01-01 12:00:00 and 12:00:00.5 UTC | text order equals time order: a fixed six-digit fraction | high (proved; not executed) | SqlRepo.TextOrderAsWrittenDisagrees | SqlRepo.EncodeDtOrder |
| notes/adapters/sql/task_repo.py:18-24 | the URL computed from the argument is never used; every repository opens `sqlite:///data/users.db` | two repositories built with paths `a.db` and `b.db` share one table | the engine opens the computed URL | high (proved; not executed) | SqlRepo.RepositoriesShareOneTableAsWritten | SqlRepo.DistinctPathsDistinctDatabases |
| notes/adapters/jsonl/task_repo.py:45-50 | `TaskValidationError` is called with one argument where it needs two, so a malformed line raises `TypeError` instead of a domain error | a file whose only line is `{bad json` | a validation error on field `record` naming the file and line | high (proved; not executed) | JsonlRepo.InvalidJsonExample | JsonlRepo.InvalidJsonLine |
