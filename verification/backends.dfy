/** How the three backends compare on the same records: they list valid
    requests identically, and differ on the pagination arguments the port
    leaves to each of them. */
module Backends {
  import opened Wrappers
  import opened Tasks
  import opened TaskDict
  import opened TaskRepository
  import InMemoryRepo
  import JsonlRepo
  import SqlRepo

  /** Every timestamp is a whole second, so the JSONL file keeps it
      exactly. */
  predicate WholeSeconds(d: seq<Task>)
  {
    forall i | 0 <= i < |d| :: d[i].createdAt.microsecond == 0
  }

  lemma StoredAllWholeSeconds(d: Dict)
    requires WholeSeconds(d)
    ensures JsonlRepo.StoredAll(d) == d
  {
    forall i | 0 <= i < |d|
      ensures JsonlRepo.Stored(d[i]) == d[i]
    {
    }
  }

  /** The JSONL file a dict with whole-second timestamps dumps to loads
      back as that dict. */
  lemma DumpLoadsBack(d: Dict, name: string, swap: Option<seq<JsonlRepo.Line>>)
    requires WholeSeconds(d)
    ensures JsonlRepo.Load(JsonlRepo.AsWritten, JsonlRepo.Disk(name, JsonlRepo.Present(JsonlRepo.Dump(d)), swap)) == Ok(d)
  {
    JsonlRepo.LoadDump(JsonlRepo.AsWritten, name, d);
    StoredAllWholeSeconds(d);
  }

  /** Whole seconds are all written in one width, so the SQL text sorts
      them as instants. */
  lemma WholeSecondsSortAsWritten(d: Dict)
    requires WholeSeconds(d)
    ensures SqlRepo.TextOrdersTasks(SqlRepo.AsWritten, ByCreatedAt, d)
  {
    forall x, y | x in d && y in d
      ensures SqlRepo.TextOrdersTime(SqlRepo.AsWritten, x.createdAt, y.createdAt)
    {
    }
  }

  /** With a positive limit and a non-negative offset, the in-memory dict,
      the JSONL file it dumps to and the SQL table of its rows list the
      same page, in `created_at` order. */
  lemma ListingsAgree(d: Dict, name: string, swap: Option<seq<JsonlRepo.Line>>, offset: nat, limit: nat)
    requires limit > 0 && WholeSeconds(d)
    ensures var page := Page(Listing(d, ByCreatedAt), offset, Some(limit));
      && InMemoryRepo.ListAll(d, Some(limit), Some(offset), None) == Ok(page)
      && JsonlRepo.ListAll(JsonlRepo.AsWritten, JsonlRepo.Disk(name, JsonlRepo.Present(JsonlRepo.Dump(d)), swap), offset, Some(limit)) == Ok(page)
      && SqlRepo.ListAll(SqlRepo.Rows(SqlRepo.AsWritten, d), Some(limit), offset, None) == Ok(page)
  {
    MemoryListsPage(d, offset, limit);
    JsonlListsPage(d, name, swap, offset, limit);
    SqlListsPage(d, offset, limit);
  }

  lemma MemoryListsPage(d: Dict, offset: nat, limit: nat)
    requires limit > 0
    ensures InMemoryRepo.ListAll(d, Some(limit), Some(offset), None) == Ok(Page(Listing(d, ByCreatedAt), offset, Some(limit)))
  {
  }

  lemma JsonlListsPage(d: Dict, name: string, swap: Option<seq<JsonlRepo.Line>>, offset: nat, limit: nat)
    requires limit > 0 && WholeSeconds(d)
    ensures JsonlRepo.ListAll(JsonlRepo.AsWritten, JsonlRepo.Disk(name, JsonlRepo.Present(JsonlRepo.Dump(d)), swap), offset, Some(limit))
         == Ok(Page(Listing(d, ByCreatedAt), offset, Some(limit)))
  {
    DumpLoadsBack(d, name, swap);
  }

  lemma SqlListsPage(d: Dict, offset: nat, limit: nat)
    requires limit > 0 && WholeSeconds(d)
    ensures SqlRepo.ListAll(SqlRepo.Rows(SqlRepo.AsWritten, d), Some(limit), offset, None) == Ok(Page(Listing(d, ByCreatedAt), offset, Some(limit)))
  {
    WholeSecondsSortAsWritten(d);
    SqlRepo.ListAllIsListing(SqlRepo.AsWritten, d, Some(limit), offset, None);
  }

  /** A negative offset: the in-memory backend rejects it, while the JSONL
      backend reads it as zero and the SQL backend ignores it. */
  lemma NegativeOffsetDiverges(d: Dict, name: string, swap: Option<seq<JsonlRepo.Line>>, offset: int, limit: nat)
    requires offset < 0 && limit > 0 && WholeSeconds(d)
    ensures InMemoryRepo.ListAll(d, Some(limit), Some(offset), None) == Err(Errors.Validation("pagination", "Offset >= 0, limit > 0"))
    ensures JsonlRepo.ListAll(JsonlRepo.AsWritten, JsonlRepo.Disk(name, JsonlRepo.Present(JsonlRepo.Dump(d)), swap), offset, Some(limit))
         == JsonlRepo.ListAll(JsonlRepo.AsWritten, JsonlRepo.Disk(name, JsonlRepo.Present(JsonlRepo.Dump(d)), swap), 0, Some(limit))
    ensures SqlRepo.ListAll(SqlRepo.Rows(SqlRepo.AsWritten, d), Some(limit), offset, None) == SqlRepo.ListAll(SqlRepo.Rows(SqlRepo.AsWritten, d), Some(limit), 0, None)
  {
  }

  /** A non-positive limit: an error in memory, an empty page in the other
      two. */
  lemma NonPositiveLimitDiverges(d: Dict, name: string, swap: Option<seq<JsonlRepo.Line>>, offset: nat, limit: int)
    requires limit <= 0
    ensures InMemoryRepo.ListAll(d, Some(limit), Some(offset), None).Err?
    ensures JsonlRepo.ListAll(JsonlRepo.AsWritten, JsonlRepo.Disk(name, JsonlRepo.Present(JsonlRepo.Dump(d)), swap), offset, Some(limit)) == Ok([])
    ensures SqlRepo.ListAll(SqlRepo.Rows(SqlRepo.AsWritten, d), Some(limit), offset, None) == Ok([])
  {
    JsonlRepo.LoadDump(JsonlRepo.AsWritten, name, d);
    assert JsonlRepo.Load(JsonlRepo.AsWritten, JsonlRepo.Disk(name, JsonlRepo.Present(JsonlRepo.Dump(d)), swap)).Ok?;
  }
}
