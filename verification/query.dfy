/** The query engine behind the history list: free-text search, the
    newest-first ordering, and page slicing. */
module Query {
  import opened Wrappers
  import opened Seqs
  import opened Text
  import opened Quotes

  // ---------------------------------------------------------------------------
  // Search
  // ---------------------------------------------------------------------------

  /** A field that is present, non-empty and contains `term` once lowered. */
  predicate LoweredFieldHas(f: Option<string>, term: string) {
    Truthy(f) && Contains(Lower(f.value), term)
  }

  /** A field that is present, non-empty and contains `term` as written. */
  predicate RawFieldHas(f: Option<string>, term: string) {
    Truthy(f) && Contains(f.value, term)
  }

  /** A record matches a lowered search term when its id, client name, display
      number or trade name contains the term case-insensitively, or its client
      document or date contains it verbatim. */
  predicate Matches(q: Quote, term: string) {
    || LoweredFieldHas(q.id, term)
    || LoweredFieldHas(q.client.name, term)
    || LoweredFieldHas(q.number, term)
    || RawFieldHas(q.client.document, term)
    || RawFieldHas(q.date, term)
    || LoweredFieldHas(q.company.tradeName, term)
  }

  /** How many positions of `qs` hold a record matching `term`. */
  function CountMatching(qs: seq<Quote>, term: string): nat {
    if |qs| == 0 then 0
    else (if Matches(qs[0], term) then 1 else 0) + CountMatching(qs[1..], term)
  }

  /** The records of `qs` that match `term`, in their original order: a
      subsequence holding only matching records, as many as there are
      matching positions, so no duplicate is lost. */
  function KeepMatching(qs: seq<Quote>, term: string): (r: seq<Quote>)
    ensures forall x | x in r :: x in qs && Matches(x, term)
    ensures forall x | x in qs && Matches(x, term) :: x in r
    ensures IsSubseq(r, qs)
    ensures |r| == CountMatching(qs, term)
  {
    if |qs| == 0 then []
    else
      var rest := KeepMatching(qs[1..], term);
      assert qs == [qs[0]] + qs[1..];
      if Matches(qs[0], term) then [qs[0]] + rest else rest
  }

  /** The search step of `getPaginated`: an empty query keeps everything,
      any other query keeps the records matching its lowered form. */
  function Search(qs: seq<Quote>, query: string): (r: seq<Quote>)
    ensures query == "" ==> r == qs
    ensures query != "" ==> forall x | x in qs :: x in r <==> Matches(x, Lower(query))
    ensures query != "" ==> |r| == CountMatching(qs, Lower(query))
    ensures IsSubseq(r, qs)
  {
    if query == "" then (SubseqRefl(qs); qs) else KeepMatching(qs, Lower(query))
  }

  /** When every record matches, searching keeps them all. */
  lemma {:induction false} KeepMatchingAll(qs: seq<Quote>, term: string)
    requires forall i | 0 <= i < |qs| :: Matches(qs[i], term)
    ensures KeepMatching(qs, term) == qs
  {
    if |qs| > 0 {
      KeepMatchingAll(qs[1..], term);
      assert qs == [qs[0]] + qs[1..];
    }
  }

  /** Searching twice with the same query is searching once. */
  lemma {:induction false} SearchIdempotent(qs: seq<Quote>, query: string)
    ensures Search(Search(qs, query), query) == Search(qs, query)
  {
    if query != "" {
      var r := KeepMatching(qs, Lower(query));
      forall i | 0 <= i < |r| ensures Matches(r[i], Lower(query)) {
        assert r[i] in r;
      }
      KeepMatchingAll(r, Lower(query));
    }
  }

  /** A record whose client name contains the query in any letter case is
      found, for instance "Acme Corp" by "acme". */
  lemma NameMatchIgnoresCase(q: Quote, query: string)
    requires query != "" && Truthy(q.client.name)
    requires Contains(Lower(q.client.name.value), Lower(query))
    ensures Matches(q, Lower(query))
  {
  }

  /** "Acme Corp" is found by the query "ACME": both sides are lowered before
      the comparison. */
  lemma {:induction false} AcmeFoundByUpperCaseQuery(q: Quote)
    requires q.client.name == Some("Acme Corp")
    ensures Matches(q, Lower("ACME"))
  {
    assert Lower("ACME") == "acme";
    assert Lower("Acme Corp") == "acme corp";
    assert OccursAt(Lower("Acme Corp"), Lower("ACME"), 0);
  }

  /** The client document is compared, as written, with the lowered term, so
      a document holding an upper-case letter is not found through that field
      even by a query equal to the document itself. */
  lemma DocumentMatchIsCaseSensitive(q: Quote, k: int)
    requires Truthy(q.client.document)
    requires 0 <= k < |q.client.document.value| && IsUpper(q.client.document.value[k])
    ensures !RawFieldHas(q.client.document, Lower(q.client.document.value))
  {
    var doc := q.client.document.value;
    forall i | 0 <= i <= |doc| - |Lower(doc)|
      ensures !OccursAt(doc, Lower(doc), i)
    {
      assert doc[i..i + |doc|][k] == doc[k] != Lower(doc)[k];
    }
  }

  // ---------------------------------------------------------------------------
  // Newest-first ordering
  // ---------------------------------------------------------------------------

  /** Timestamps never increase along the sequence. */
  predicate Sorted(s: seq<Quote>) {
    forall i, j | 0 <= i < j < |s| :: Timestamp(s[i]) >= Timestamp(s[j])
  }

  /** The records of `s` with timestamp `t`, in their order in `s`. */
  function WithTimestamp(s: seq<Quote>, t: int): seq<Quote> {
    if |s| == 0 then []
    else (if Timestamp(s[0]) == t then [s[0]] else []) + WithTimestamp(s[1..], t)
  }

  /** Insert `x` into a newest-first sequence in front of the first record
      that is not newer than it. */
  function Insert(x: Quote, s: seq<Quote>): seq<Quote> {
    if |s| == 0 then [x]
    else if Timestamp(s[0]) <= Timestamp(x) then [x] + s
    else [s[0]] + Insert(x, s[1..])
  }

  /** Inserting adds exactly `x`. */
  lemma {:induction false} InsertMultiset(x: Quote, s: seq<Quote>)
    ensures multiset(Insert(x, s)) == multiset(s) + multiset{x}
  {
    if |s| > 0 && Timestamp(s[0]) > Timestamp(x) {
      InsertMultiset(x, s[1..]);
      assert s == [s[0]] + s[1..];
    }
  }

  /** A record no older than everything in a newest-first sequence can lead it. */
  lemma SortedCons(y: Quote, s: seq<Quote>)
    requires Sorted(s)
    requires forall j | 0 <= j < |s| :: Timestamp(s[j]) <= Timestamp(y)
    ensures Sorted([y] + s)
  {
    var r := [y] + s;
    forall i, j | 0 <= i < j < |r|
      ensures Timestamp(r[i]) >= Timestamp(r[j])
    {
      assert r[j] == s[j - 1];
      if i > 0 {
        assert r[i] == s[i - 1];
      }
    }
  }

  /** Inserting into a newest-first sequence keeps it newest-first. */
  lemma {:induction false} InsertSorted(x: Quote, s: seq<Quote>)
    requires Sorted(s)
    ensures Sorted(Insert(x, s))
  {
    if |s| == 0 {
    } else if Timestamp(s[0]) <= Timestamp(x) {
      SortedCons(x, s);
    } else {
      var tail := Insert(x, s[1..]);
      assert Sorted(s[1..]);
      InsertSorted(x, s[1..]);
      InsertMultiset(x, s[1..]);
      forall j | 0 <= j < |tail|
        ensures Timestamp(tail[j]) <= Timestamp(s[0])
      {
        assert tail[j] in multiset(tail);
        if tail[j] != x {
          assert tail[j] in s[1..];
        }
      }
      SortedCons(s[0], tail);
    }
  }

  /** `[...qs].sort((a, b) => (b.lastUpdated || 0) - (a.lastUpdated || 0))`.
      `Array.prototype.sort` is stable, so records with equal timestamps
      keep their relative order; `SortStable` and `SortUnique` prove that this
      definition is exactly that sort. */
  function SortDesc(qs: seq<Quote>): (r: seq<Quote>)
    ensures Sorted(r)
    ensures multiset(r) == multiset(qs)
    ensures |r| == |qs|
  {
    if |qs| == 0 then []
    else
      assert qs == [qs[0]] + qs[1..];
      InsertSorted(qs[0], SortDesc(qs[1..]));
      InsertMultiset(qs[0], SortDesc(qs[1..]));
      Insert(qs[0], SortDesc(qs[1..]))
  }

  lemma {:induction false} InsertKeepsTies(x: Quote, s: seq<Quote>, t: int)
    requires Sorted(s)
    ensures WithTimestamp(Insert(x, s), t) == (if Timestamp(x) == t then [x] else []) + WithTimestamp(s, t)
  {
    if |s| > 0 && Timestamp(s[0]) > Timestamp(x) {
      var tail := Insert(x, s[1..]);
      InsertKeepsTies(x, s[1..], t);
      var r := [s[0]] + tail;
      assert r[1..] == tail;
      var head := if Timestamp(s[0]) == t then [s[0]] else [];
      var mid := if Timestamp(x) == t then [x] else [];
      calc {
        WithTimestamp(r, t);
        head + WithTimestamp(tail, t);
        head + (mid + WithTimestamp(s[1..], t));
        { assert head == [] || mid == []; }
        mid + (head + WithTimestamp(s[1..], t));
        mid + WithTimestamp(s, t);
      }
    }
  }

  /** Stability: among records with equal timestamps, the sorted order is the
      original order. */
  lemma {:induction false} SortStable(qs: seq<Quote>, t: int)
    ensures WithTimestamp(SortDesc(qs), t) == WithTimestamp(qs, t)
  {
    if |qs| > 0 {
      SortStable(qs[1..], t);
      InsertKeepsTies(qs[0], SortDesc(qs[1..]), t);
    }
  }

  lemma {:induction false} WithTimestampMembers(s: seq<Quote>, t: int)
    ensures forall y | y in WithTimestamp(s, t) :: y in s && Timestamp(y) == t
    ensures forall i | 0 <= i < |s| && Timestamp(s[i]) == t :: WithTimestamp(s, t) != []
  {
    if |s| > 0 {
      WithTimestampMembers(s[1..], t);
      forall i | 0 <= i < |s| && Timestamp(s[i]) == t
        ensures WithTimestamp(s, t) != []
      {
        if i > 0 {
          assert s[1..][i - 1] == s[i];
        }
      }
    }
  }

  /** A newest-first sequence is determined by its per-timestamp subsequences:
      two sorted sequences that agree on every one of them are equal. */
  lemma {:induction false} SortedDeterminedByTies(a: seq<Quote>, b: seq<Quote>)
    requires Sorted(a) && Sorted(b)
    requires forall t :: WithTimestamp(a, t) == WithTimestamp(b, t)
    ensures a == b
    decreases |a| + |b|
  {
    if |a| > 0 && |b| > 0 {
      var ta, tb := Timestamp(a[0]), Timestamp(b[0]);
      WithTimestampMembers(a, tb);
      WithTimestampMembers(b, ta);
      assert WithTimestamp(a, ta) != [];
      var ya := WithTimestamp(b, ta)[0];
      assert ya in b && Timestamp(ya) == ta;
      var yb := WithTimestamp(a, tb)[0];
      assert WithTimestamp(b, tb) != [];
      assert yb in a && Timestamp(yb) == tb;
      assert ta == tb;
      assert a[0] == WithTimestamp(a, ta)[0] == WithTimestamp(b, ta)[0] == b[0];
      forall t ensures WithTimestamp(a[1..], t) == WithTimestamp(b[1..], t) {
        var head := if ta == t then [a[0]] else [];
        assert WithTimestamp(a, t) == WithTimestamp(b, t);
        assert WithTimestamp(a, t) == head + WithTimestamp(a[1..], t);
        assert WithTimestamp(b, t) == head + WithTimestamp(b[1..], t);
        assert (head + WithTimestamp(a[1..], t))[|head|..] == WithTimestamp(a[1..], t);
        assert (head + WithTimestamp(b[1..], t))[|head|..] == WithTimestamp(b[1..], t);
      }
      SortedDeterminedByTies(a[1..], b[1..]);
      assert a == [a[0]] + a[1..] && b == [b[0]] + b[1..];
    } else {
      var t := if |a| > 0 then Timestamp(a[0]) else if |b| > 0 then Timestamp(b[0]) else 0;
      assert WithTimestamp(a, t) == WithTimestamp(b, t);
    }
  }

  /** Any newest-first rearrangement of `qs` that keeps ties in their original
      order is `SortDesc(qs)`: the ordering the history list shows is fully
      determined by the records. */
  lemma SortUnique(qs: seq<Quote>, r: seq<Quote>)
    requires Sorted(r)
    requires forall t :: WithTimestamp(r, t) == WithTimestamp(qs, t)
    ensures r == SortDesc(qs)
  {
    forall t ensures WithTimestamp(r, t) == WithTimestamp(SortDesc(qs), t) {
      SortStable(qs, t);
    }
    SortedDeterminedByTies(r, SortDesc(qs));
  }

  // ---------------------------------------------------------------------------
  // Pages
  // ---------------------------------------------------------------------------

  function Min(a: int, b: int): int {
    if a < b then a else b
  }

  function Max(a: int, b: int): int {
    if a < b then b else a
  }

  /** Where `Array.prototype.slice` places an index into a sequence of length
      `len`: a negative index counts back from the end, and the result is
      clamped to `[0, len]`. */
  function SliceIndex(i: int, len: nat): (k: nat)
    ensures k <= len
  {
    if i < 0 then Max(len + i, 0) else Min(i, len)
  }

  /** `s.slice(start, end)`. With non-negative bounds it is the window
      `[start, end)` cut down to the sequence, and whenever `start <= end` it
      holds at most `end - start` elements. */
  function Slice<T>(s: seq<T>, start: int, end: int): (r: seq<T>)
    ensures 0 <= start <= end ==> r == s[Min(start, |s|)..Min(end, |s|)]
    ensures start <= end ==> |r| <= end - start
  {
    var b := SliceIndex(start, |s|);
    var e := SliceIndex(end, |s|);
    if b < e then s[b..e] else []
  }

  /** `Math.ceil(n / d)` for a positive divisor: the least `q` with `q * d >= n`. */
  function CeilDiv(n: nat, d: int): (q: nat)
    requires d > 0
    ensures q * d >= n
    ensures q == 0 || (q - 1) * d < n
  {
    var q := (n + d - 1) / d;
    assert n + d - 1 == q * d + (n + d - 1) % d;
    q
  }

  /** The start offset of a 1-based page, `(page - 1) * limit`. */
  function PageStart(page: int, limit: int): int {
    (page - 1) * limit
  }

  /** The records `getPaginated` returns for a page of an ordered list. */
  function PageOf<T>(s: seq<T>, page: int, limit: int): seq<T> {
    Slice(s, PageStart(page, limit), PageStart(page, limit) + limit)
  }

  lemma PageStartGrows(page: int, limit: int)
    requires limit > 0
    ensures PageStart(page + 1, limit) == PageStart(page, limit) + limit
    ensures page >= 1 ==> PageStart(page, limit) >= 0
    ensures page <= 0 ==> PageStart(page, limit) + limit <= 0
  {
  }

  lemma {:induction false} PageStartMonotone(a: int, b: int, limit: int)
    requires limit > 0 && a <= b
    ensures PageStart(a, limit) <= PageStart(b, limit)
    decreases b - a
  {
    if a < b {
      PageStartGrows(b - 1, limit);
      PageStartMonotone(a, b - 1, limit);
    }
  }

  lemma PageStartOrder(a: int, b: int, limit: int)
    requires limit > 0
    ensures a <= b ==> PageStart(a, limit) <= PageStart(b, limit)
  {
    if a <= b {
      PageStartMonotone(a, b, limit);
    }
  }

  /** A page never holds more than `limit` records. */
  lemma PageSize<T>(s: seq<T>, page: int, limit: int)
    requires limit > 0
    ensures |PageOf(s, page, limit)| <= limit
  {
  }

  /** From page 1 on, a page is the window of the list that starts at
      `(page - 1) * limit`, cut down to the list. */
  lemma PageWindow<T>(s: seq<T>, page: int, limit: int)
    requires limit > 0 && page >= 1
    ensures 0 <= PageStart(page, limit)
         && PageOf(s, page, limit) == s[Min(PageStart(page, limit), |s|)..Min(PageStart(page, limit) + limit, |s|)]
  {
    PageStartGrows(page, limit);
  }

  /** A page past the last one is empty. */
  lemma PagePastEnd<T>(s: seq<T>, page: int, limit: int)
    requires limit > 0
    ensures page > CeilDiv(|s|, limit) ==> PageOf(s, page, limit) == []
  {
    var pages := CeilDiv(|s|, limit);
    PageStartOrder(pages + 1, page, limit);
    PageStartGrows(pages, limit);
  }

  /** Every page from 1 to the last is non-empty: full except perhaps the last. */
  lemma PageBeforeEnd<T>(s: seq<T>, page: int, limit: int)
    requires limit > 0
    ensures 1 <= page <= CeilDiv(|s|, limit) ==>
      |PageOf(s, page, limit)| == Min(limit, |s| - PageStart(page, limit)) > 0
  {
    var pages := CeilDiv(|s|, limit);
    if 1 <= page <= pages {
      PageStartGrows(page, limit);
      PageStartOrder(page + 1, pages, limit);
      PageStartGrows(pages, limit);
    }
  }

  /** The response of `getPaginated`. */
  datatype Page = Page(data: seq<Quote>, total: nat, page: int, totalPages: nat)

  /** `getPaginated(page, limit, query)` over the records `qs`: search, order
      newest first, count, and cut out one page. */
  function Paginated(qs: seq<Quote>, page: int, limit: int, query: string): (r: Page)
    requires limit > 0
    ensures r.total == |Search(qs, query)|
    ensures r.page == page
    ensures r.totalPages * limit >= r.total
    ensures r.totalPages == 0 || (r.totalPages - 1) * limit < r.total
    ensures r.data == PageOf(SortDesc(Search(qs, query)), page, limit)
    ensures |r.data| <= limit
    ensures page > r.totalPages ==> r.data == []
  {
    var sorted := SortDesc(Search(qs, query));
    var total := |sorted|;
    var pages := CeilDiv(total, limit);
    PageSize(sorted, page, limit);
    PagePastEnd(sorted, page, limit);
    Page(PageOf(sorted, page, limit), total, page, pages)
  }

  /** A page holds only records of the list it is cut from. */
  lemma PageOfMembers<T>(s: seq<T>, page: int, limit: int)
    ensures forall x | x in PageOf(s, page, limit) :: x in s
  {
  }

  /** A page of a newest-first list is newest first. */
  lemma PageOfSorted(s: seq<Quote>, page: int, limit: int)
    requires Sorted(s)
    ensures Sorted(PageOf(s, page, limit))
  {
    var b := SliceIndex(PageStart(page, limit), |s|);
    var e := SliceIndex(PageStart(page, limit) + limit, |s|);
    if b < e {
      var data := s[b..e];
      forall i, j | 0 <= i < j < |data|
        ensures Timestamp(data[i]) >= Timestamp(data[j])
      {
        assert data[i] == s[b + i] && data[j] == s[b + j];
      }
    }
  }

  /** Every record on a page is one of the stored records that the query
      selects, and a page is itself newest first. */
  lemma PaginatedRecords(qs: seq<Quote>, page: int, limit: int, query: string)
    requires limit > 0
    ensures Sorted(Paginated(qs, page, limit, query).data)
    ensures forall x | x in Paginated(qs, page, limit, query).data ::
              x in qs && (query == "" || Matches(x, Lower(query)))
  {
    var found := Search(qs, query);
    var sorted := SortDesc(found);
    var data := PageOf(sorted, page, limit);
    assert Paginated(qs, page, limit, query).data == data;
    PageOfSorted(sorted, page, limit);
    PageOfMembers(sorted, page, limit);
    SubseqBounds(found, qs);
    forall x | x in data
      ensures x in qs && (query == "" || Matches(x, Lower(query)))
    {
      assert x in multiset(sorted);
      assert x in found;
    }
  }

  /** Pages 1 to `n` of an ordered list, laid end to end. */
  function PagesUpTo<T>(s: seq<T>, limit: int, n: nat): seq<T>
    requires limit > 0
  {
    if n == 0 then [] else PagesUpTo(s, limit, n - 1) + PageOf(s, n, limit)
  }

  /** Pages 1 to `n` laid end to end are the list's first `n * limit`
      records, or the whole list when it is shorter. */
  lemma {:induction false} PagesUpToPrefix<T>(s: seq<T>, limit: int, n: nat)
    requires limit > 0
    ensures 0 <= PageStart(n + 1, limit)
         && PagesUpTo(s, limit, n) == s[..Min(PageStart(n + 1, limit), |s|)]
  {
    PageStartGrows(n + 1, limit);
    if n > 0 {
      PagesUpToPrefix(s, limit, n - 1);
      PageWindow(s, n, limit);
      PageStartGrows(n, limit);
      PrefixThenWindow(s, PageStart(n, limit), PageStart(n + 1, limit));
    }
  }

  /** A prefix followed by the window after it is the longer prefix. */
  lemma PrefixThenWindow<T>(s: seq<T>, a: int, c: int)
    requires 0 <= a <= c
    ensures s[..Min(a, |s|)] + s[Min(a, |s|)..Min(c, |s|)] == s[..Min(c, |s|)]
  {
  }

  /** Reading pages 1 to `totalPages` in turn yields the whole ordered list,
      each record exactly once and in order. */
  lemma PagesCoverAll<T>(s: seq<T>, limit: int)
    requires limit > 0
    ensures PagesUpTo(s, limit, CeilDiv(|s|, limit)) == s
  {
    var pages := CeilDiv(|s|, limit);
    PagesUpToPrefix(s, limit, pages);
    assert PageStart(pages + 1, limit) == pages * limit;
  }

  /** Pages are meant to start at 1. Page 0 is empty, and a negative page
      counts back from the end of the list, as `slice` does with negative
      indices. */
  lemma NonPositivePages<T>(s: seq<T>, page: int, limit: int)
    requires limit > 0 && page <= 0
    ensures page == 0 ==> PageOf(s, page, limit) == []
    ensures page < 0 ==>
      PageOf(s, page, limit)
        == s[Max(|s| + PageStart(page, limit), 0)..Max(|s| + PageStart(page, limit) + limit, 0)]
  {
    PageStartGrows(page, limit);
  }

  /** With 25 records and 10 per page there are 3 pages, the third holds the
      last 5 records and the fourth is empty. */
  lemma TwentyFiveRecordsTenPerPage(qs: seq<Quote>)
    requires |qs| == 25
    ensures Paginated(qs, 3, 10, "").totalPages == 3
    ensures Paginated(qs, 3, 10, "").data == SortDesc(qs)[20..]
    ensures Paginated(qs, 4, 10, "").data == [] && Paginated(qs, 4, 10, "").total == 25
  {
    var sorted := SortDesc(Search(qs, ""));
    assert |sorted| == 25;
    assert CeilDiv(25, 10) == 3;
    PageWindow(sorted, 3, 10);
    PagePastEnd(sorted, 4, 10);
    assert PageStart(3, 10) == 20;
  }
}
