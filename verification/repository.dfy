/** The public storage API over the lazily hydrated module-level cache. Each
    operation takes the cache as it stands (`None` before the first access)
    and what the durable store would yield if read, and returns the cache
    afterwards together with its result. The current time is a parameter. */
module Repository {
  import opened Wrappers
  import opened Quotes
  import opened Identifiers
  import opened Query
  import opened Mutations
  import opened Invariants

  /** The module-level cache: `None` until the first access hydrates it. */
  type Cache = Option<seq<Quote>>

  /** `ensureCache()`. `stored` is the outcome of reading and parsing the
      durable entry: `None` when it is absent, empty or unreadable. An
      existing cache is returned as it is and the store is not consulted;
      otherwise the cache becomes the stored records, or no records. */
  function EnsureCache(cache: Cache, stored: Option<seq<Quote>>): (r: seq<Quote>)
    ensures cache.Some? ==> r == cache.value
    ensures cache.None? && stored.Some? ==> r == stored.value
    ensures cache.None? && stored.None? ==> r == []
  {
    match cache
    case Some(records) => records
    case None => stored.GetOr([])
  }

  /** Hydration happens once: after the first access the cache answers
      every later one, whatever the store then holds. */
  lemma HydratesOnce(cache: Cache, stored: Option<seq<Quote>>, later: Option<seq<Quote>>)
    ensures EnsureCache(Some(EnsureCache(cache, stored)), later) == EnsureCache(cache, stored)
  {
  }

  lemma SortStableAll(qs: seq<Quote>)
    ensures forall t :: WithTimestamp(SortDesc(qs), t) == WithTimestamp(qs, t)
  {
    forall t ensures WithTimestamp(SortDesc(qs), t) == WithTimestamp(qs, t) {
      SortStable(qs, t);
    }
  }

  /** `getAll()`: every record, newest first, ties in stored order; the
      cache is only hydrated, never reordered. */
  function GetAll(cache: Cache, stored: Option<seq<Quote>>): (r: (Cache, seq<Quote>))
    ensures r.0 == Some(EnsureCache(cache, stored))
    ensures multiset(r.1) == multiset(EnsureCache(cache, stored))
    ensures Sorted(r.1)
    ensures forall t :: WithTimestamp(r.1, t) == WithTimestamp(EnsureCache(cache, stored), t)
  {
    var history := EnsureCache(cache, stored);
    SortStableAll(history);
    (Some(history), SortDesc(history))
  }

  /** `getPaginated(page, limit, query)`: one page of the matching records,
      newest first, with the match count and the page count; the cache is
      only hydrated. */
  function GetPaginated(cache: Cache, stored: Option<seq<Quote>>, page: int, limit: int, query: string): (r: (Cache, Page))
    requires limit > 0
    ensures r.0 == Some(EnsureCache(cache, stored))
    ensures r.1.total == |Search(EnsureCache(cache, stored), query)| && r.1.page == page
    ensures r.1.totalPages * limit >= r.1.total && (r.1.totalPages == 0 || (r.1.totalPages - 1) * limit < r.1.total)
    ensures |r.1.data| <= limit
    ensures page > r.1.totalPages ==> r.1.data == []
  {
    var history := EnsureCache(cache, stored);
    (Some(history), Paginated(history, page, limit, query))
  }

  /** `getNextQuoteNumber()`: the next display number; nothing is reserved
      and the cache is only hydrated. */
  method GetNextQuoteNumber(cache: Cache, stored: Option<seq<Quote>>) returns (after: Cache, display: string)
    ensures after == Some(EnsureCache(cache, stored))
    ensures |display| > 3 && display[..3] == "ORC" && Decimal.Canonical(display[3..]) && display[3] != '0'
    ensures forall q | q in EnsureCache(cache, stored) && DisplayNumber(q).Some? ::
              DisplayNumber(q).value < Decimal.Value(display[3..])
    ensures Decimal.Value(display[3..]) == 1
         || exists q | q in EnsureCache(cache, stored) :: DisplayNumber(q) == Some(Decimal.Value(display[3..]) - 1)
  {
    var history := EnsureCache(cache, stored);
    display := NextQuoteNumber(history);
    after := Some(history);
  }

  /** `save(quote)` on the hydrated cache. The cache grows by one exactly
      when the record has no id, and the returned record ends up in the cache
      exactly when it is new or its id was already held. */
  function Save(cache: Cache, stored: Option<seq<Quote>>, q: Quote, now: int): (r: (Cache, Quote))
    ensures r.0.Some?
    ensures |r.0.value| == |EnsureCache(cache, stored)| + (if Truthy(q.id) then 0 else 1)
    ensures r.1.lastUpdated == Some(now) && Truthy(r.1.id)
    ensures r.1 in r.0.value <==>
              !Truthy(q.id) || exists j | 0 <= j < |EnsureCache(cache, stored)| :: EnsureCache(cache, stored)[j].id == q.id
  {
    var history := EnsureCache(cache, stored);
    var saved := SaveIn(history, q, now);
    SaveKeepsRecord(history, q, now);
    (Some(saved.history), saved.record)
  }

  lemma SaveKeepsRecord(history: seq<Quote>, q: Quote, now: int)
    ensures SaveIn(history, q, now).record in SaveIn(history, q, now).history <==>
              !Truthy(q.id) || exists j | 0 <= j < |history| :: history[j].id == q.id
  {
    var r := SaveIn(history, q, now);
    if !Truthy(q.id) {
      assert r.history[|history|] == r.record;
    } else {
      match FindIndex(history, q.id.value)
      case Some(i) =>
        assert r.history[i] == r.record;
      case None =>
        forall j | 0 <= j < |history| ensures r.history[j] == history[j] {
          assert !FirstWithId(history, q.id.value, j);
        }
        assert r.history == history;
    }
  }

  /** `updateStatus(id, status)` on the hydrated cache: ids and length are
      kept, at most the first record with the id changes, and when some record
      has the id it now carries the new status and timestamp. */
  function UpdateStatus(cache: Cache, stored: Option<seq<Quote>>, id: string, status: string, now: int): (r: Cache)
    ensures r.Some? && SameIds(EnsureCache(cache, stored), r.value)
    ensures forall j | 0 <= j < |r.value| && r.value[j] != EnsureCache(cache, stored)[j] ::
              FirstWithId(EnsureCache(cache, stored), id, j)
    ensures forall j | FirstWithId(EnsureCache(cache, stored), id, j) ::
              r.value[j].status == Some(status) && r.value[j].lastUpdated == Some(now)
  {
    var history := EnsureCache(cache, stored);
    UpdateStatusKeepsIds(history, id, status, now);
    Some(UpdateStatusIn(history, id, status, now))
  }

  /** `delete(id)` on the hydrated cache: exactly the records without that id
      remain, and the cache shrinks by the number of records that had it. */
  function Delete(cache: Cache, stored: Option<seq<Quote>>, id: string): (r: Cache)
    ensures r.Some?
    ensures forall x :: x in r.value <==> x in EnsureCache(cache, stored) && x.id != Some(id)
    ensures |r.value| == |EnsureCache(cache, stored)| - CountId(EnsureCache(cache, stored), id)
  {
    Some(DeleteIn(EnsureCache(cache, stored), id))
  }

  // ---------------------------------------------------------------------------
  // Sequences of calls
  // ---------------------------------------------------------------------------

  lemma {:induction false} CountIdInsert(x: Quote, s: seq<Quote>, id: string)
    ensures CountId(Insert(x, s), id) == CountId(s, id) + (if x.id == Some(id) then 1 else 0)
  {
    if |s| > 0 && Timestamp(s[0]) > Timestamp(x) {
      CountIdInsert(x, s[1..], id);
      assert Insert(x, s)[1..] == Insert(x, s[1..]);
    }
  }

  /** Ordering keeps how many records hold each id. */
  lemma {:induction false} CountIdSort(s: seq<Quote>, id: string)
    ensures CountId(SortDesc(s), id) == CountId(s, id)
  {
    if |s| > 0 {
      CountIdSort(s[1..], id);
      CountIdInsert(s[0], SortDesc(s[1..]), id);
    }
  }

  /** Saving a new record, or one whose id is held (ids being unique), and
      then listing shows the returned record exactly once, stamped with the
      save time. */
  lemma SaveThenListedOnce(cache: Cache, stored: Option<seq<Quote>>, q: Quote, now: int, later: Option<seq<Quote>>)
    requires Truthy(q.id) ==>
      UniqueIds(EnsureCache(cache, stored)) && FindIndex(EnsureCache(cache, stored), q.id.value).Some?
    ensures var (after, saved) := Save(cache, stored, q, now);
            var all := GetAll(after, later).1;
            && saved in all
            && CountId(all, saved.id.value) == 1
            && saved.lastUpdated == Some(now)
            && (!Truthy(q.status) ==> saved.status == Some(DefaultStatus))
  {
    var history := EnsureCache(cache, stored);
    var r := SaveIn(history, q, now);
    var id := r.record.id.value;
    var all := GetAll(Some(r.history), later).1;
    assert all == SortDesc(r.history);
    CountIdSort(r.history, id);
    if Truthy(q.id) {
      var i := FindIndex(history, q.id.value).value;
      assert r.history == history[i := r.record];
      CountIdReplaceSameId(history, i, r.record, id);
      UniqueCount(history, id);
      assert r.history[i] == r.record;
    } else {
      CountIdAppend(history, r.record, id);
      CountIdZero(history, id);
      assert r.history[|history|] == r.record;
    }
    assert r.record in multiset(r.history);
  }

  /** Saving a record whose id no record holds stores nothing, although the
      stamped record is still returned. */
  lemma SaveUnknownIdStoresNothing(cache: Cache, stored: Option<seq<Quote>>, q: Quote, now: int)
    requires Truthy(q.id) && FindIndex(EnsureCache(cache, stored), q.id.value).None?
    ensures Save(cache, stored, q, now).0 == Some(EnsureCache(cache, stored))
    ensures Save(cache, stored, q, now).1.lastUpdated == Some(now)
  {
    var history := EnsureCache(cache, stored);
    var r := SaveIn(history, q, now);
    forall j | 0 <= j < |history| ensures r.history[j] == history[j] {
      assert !FirstWithId(history, q.id.value, j);
    }
  }

  /** After `delete(id)` no listed record has the id, and the list shrinks by
      the number of records that had it: by one when ids are unique and the
      id was present, by none when it was absent. */
  lemma DeleteThenList(cache: Cache, stored: Option<seq<Quote>>, id: string, later: Option<seq<Quote>>)
    ensures var history := EnsureCache(cache, stored);
            var all := GetAll(Some(DeleteIn(history, id)), later).1;
            && (forall x | x in all :: x.id != Some(id))
            && |all| == |history| - CountId(history, id)
            && (UniqueIds(history) ==>
                  |all| == |history| - (if exists j | 0 <= j < |history| :: history[j].id == Some(id) then 1 else 0))
  {
    var history := EnsureCache(cache, stored);
    var d := DeleteIn(history, id);
    var all := GetAll(Some(d), later).1;
    assert all == SortDesc(d);
    forall x | x in all ensures x.id != Some(id) {
      assert x in multiset(d);
    }
    if UniqueIds(history) {
      UniqueCount(history, id);
      CountIdZero(history, id);
    }
  }
}
