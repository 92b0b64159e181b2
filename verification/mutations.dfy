/** The three mutators — save, status update and delete — as pure functions
    from the held records to the records held afterwards. */
module Mutations {
  import opened Wrappers
  import opened Seqs
  import opened Quotes
  import opened Identifiers

  // ---------------------------------------------------------------------------
  // Locating a record by id
  // ---------------------------------------------------------------------------

  /** Position `j` holds the first record whose id is `id`. */
  predicate FirstWithId(qs: seq<Quote>, id: string, j: int) {
    0 <= j < |qs| && qs[j].id == Some(id) && forall k | 0 <= k < j :: qs[k].id != Some(id)
  }

  /** `qs.findIndex(q => q.id === id)`, with `None` for -1. */
  function FindIndex(qs: seq<Quote>, id: string): (r: Option<nat>)
    ensures r.Some? ==> FirstWithId(qs, id, r.value)
    ensures r.None? ==> forall j | 0 <= j < |qs| :: qs[j].id != Some(id)
  {
    if |qs| == 0 then None
    else if qs[0].id == Some(id) then Some(0)
    else
      match FindIndex(qs[1..], id)
      case Some(k) =>
        assert forall j | 1 <= j <= k :: qs[j] == qs[1..][j - 1];
        Some(k + 1)
      case None =>
        assert forall j | 1 <= j < |qs| :: qs[j] == qs[1..][j - 1];
        None
  }

  /** At most one position is the first with a given id. */
  lemma FirstWithIdUnique(qs: seq<Quote>, id: string, i: int, j: int)
    requires FirstWithId(qs, id, i) && FirstWithId(qs, id, j)
    ensures i == j
  {
  }

  /** The lookup sees only ids: sequences with the same ids, position by
      position, find the same index. */
  lemma {:induction false} FindIndexSameIds(a: seq<Quote>, b: seq<Quote>, id: string)
    requires |a| == |b|
    requires forall j | 0 <= j < |a| :: a[j].id == b[j].id
    ensures FindIndex(a, id) == FindIndex(b, id)
  {
    if |a| > 0 {
      FindIndexSameIds(a[1..], b[1..], id);
    }
  }

  /** How many records have id `id`. */
  function CountId(qs: seq<Quote>, id: string): nat {
    if |qs| == 0 then 0
    else (if qs[0].id == Some(id) then 1 else 0) + CountId(qs[1..], id)
  }

  /** No record has the id exactly when the count is zero. */
  lemma {:induction false} CountIdZero(qs: seq<Quote>, id: string)
    ensures CountId(qs, id) == 0 <==> forall j | 0 <= j < |qs| :: qs[j].id != Some(id)
  {
    if |qs| > 0 {
      CountIdZero(qs[1..], id);
      assert forall j | 1 <= j < |qs| :: qs[j] == qs[1..][j - 1];
    }
  }

  /** Appending one record adds one to its id's count. */
  lemma {:induction false} CountIdAppend(qs: seq<Quote>, x: Quote, id: string)
    ensures CountId(qs + [x], id) == CountId(qs, id) + (if x.id == Some(id) then 1 else 0)
  {
    if |qs| > 0 {
      assert (qs + [x])[1..] == qs[1..] + [x];
      CountIdAppend(qs[1..], x, id);
    }
  }

  /** Overwriting one position by a record with the same id keeps every count. */
  lemma {:induction false} CountIdReplaceSameId(qs: seq<Quote>, i: int, x: Quote, id: string)
    requires 0 <= i < |qs| && x.id == qs[i].id
    ensures CountId(qs[i := x], id) == CountId(qs, id)
  {
    if i > 0 {
      assert qs[i := x][1..] == qs[1..][i - 1 := x];
      CountIdReplaceSameId(qs[1..], i - 1, x, id);
    }
  }

  // ---------------------------------------------------------------------------
  // Collection invariants
  // ---------------------------------------------------------------------------

  /** No two records share an id. */
  predicate UniqueIds(qs: seq<Quote>) {
    forall i, j | 0 <= i < j < |qs| :: qs[i].id.Some? ==> qs[i].id != qs[j].id
  }

  /** Every record carries what a save gives it: a non-empty id and a timestamp. */
  predicate AllSaved(qs: seq<Quote>) {
    forall i | 0 <= i < |qs| :: Truthy(qs[i].id) && qs[i].lastUpdated.Some?
  }

  /** With unique ids, an id is held by at most one record. */
  lemma {:induction false} UniqueCount(qs: seq<Quote>, id: string)
    requires UniqueIds(qs)
    ensures CountId(qs, id) <= 1
    ensures CountId(qs, id) == 1 <==> exists j | 0 <= j < |qs| :: qs[j].id == Some(id)
  {
    CountIdZero(qs, id);
    if |qs| > 0 {
      UniqueCount(qs[1..], id);
      if qs[0].id == Some(id) {
        CountIdZero(qs[1..], id);
      }
    }
  }

  // ---------------------------------------------------------------------------
  // save
  // ---------------------------------------------------------------------------

  /** The fields every save sets: the timestamp, and the status, which keeps
      the caller's value when it is set and is "pending" otherwise. No other
      field changes. */
  function Stamp(q: Quote, now: int): (r: Quote)
    ensures r.lastUpdated == Some(now) && Truthy(r.status)
    ensures Truthy(q.status) ==> r.status == q.status
    ensures !Truthy(q.status) ==> r.status == Some(DefaultStatus)
    ensures r.(lastUpdated := q.lastUpdated, status := q.status) == q
  {
    q.(lastUpdated := Some(now), status := if Truthy(q.status) then q.status else Some(DefaultStatus))
  }

  /** What `save` leaves behind: the records afterwards and the record it returns. */
  datatype Saved = Saved(history: seq<Quote>, record: Quote)

  /** `save(quote)`. A record without an id gets a fresh one and is appended;
      a record with an id replaces the first record holding that id, and
      replaces nothing when no record holds it. Either way the returned record
      is the caller's with the timestamp set, the status defaulted, and —
      only for a new record — the id assigned. */
  function SaveIn(qs: seq<Quote>, q: Quote, now: int): (r: Saved)
    ensures r.record.lastUpdated == Some(now) && Truthy(r.record.status) && Truthy(r.record.id)
    ensures Truthy(q.status) ==> r.record.status == q.status
    ensures !Truthy(q.status) ==> r.record.status == Some(DefaultStatus)
    ensures r.record.(id := q.id, lastUpdated := q.lastUpdated, status := q.status) == q
    ensures !Truthy(q.id) ==>
      && |r.history| == |qs| + 1
      && r.history[..|qs|] == qs
      && r.history[|qs|] == r.record
      && r.record.id == Some(NextQuoteId(qs))
      && ParseInternalId(r.record.id.value) == Some(MaxIdSuffix(qs) + 1)
      && (forall i | 0 <= i < |qs| :: qs[i].id != r.record.id)
    ensures Truthy(q.id) ==>
      && r.record.id == q.id
      && |r.history| == |qs|
      && (forall j | 0 <= j < |qs| && FirstWithId(qs, q.id.value, j) :: r.history[j] == r.record)
      && (forall j | 0 <= j < |qs| && !FirstWithId(qs, q.id.value, j) :: r.history[j] == qs[j])
  {
    if Truthy(q.id) then
      var saved := Stamp(q, now);
      match FindIndex(qs, q.id.value)
      case Some(i) => Saved(qs[i := saved], saved)
      case None => Saved(qs, saved)
    else
      NextQuoteIdFresh(qs);
      var saved := Stamp(q, now).(id := Some(NextQuoteId(qs)));
      Saved(qs + [saved], saved)
  }

  // ---------------------------------------------------------------------------
  // updateStatus
  // ---------------------------------------------------------------------------

  /** `updateStatus(id, status)`: the first record with that id gets the new
      status and timestamp and keeps every other field; every other record
      stays as it is, and nothing changes when no record has the id. */
  function UpdateStatusIn(qs: seq<Quote>, id: string, status: string, now: int): (r: seq<Quote>)
    ensures |r| == |qs|
    ensures forall j | 0 <= j < |qs| && !FirstWithId(qs, id, j) :: r[j] == qs[j]
    ensures forall j | 0 <= j < |qs| && FirstWithId(qs, id, j) ::
              && r[j].status == Some(status)
              && r[j].lastUpdated == Some(now)
              && r[j].(status := qs[j].status, lastUpdated := qs[j].lastUpdated) == qs[j]
  {
    match FindIndex(qs, id)
    case Some(i) => qs[i := qs[i].(status := Some(status), lastUpdated := Some(now))]
    case None => qs
  }

  // ---------------------------------------------------------------------------
  // delete
  // ---------------------------------------------------------------------------

  /** `delete(id)`: `qs.filter(q => q.id !== id)`. Every record with the id is
      removed, every other record is kept in its original order, and the
      length drops by exactly the number of records that had the id. */
  function DeleteIn(qs: seq<Quote>, id: string): (r: seq<Quote>)
    ensures forall x | x in r :: x in qs && x.id != Some(id)
    ensures forall x | x in qs && x.id != Some(id) :: x in r
    ensures IsSubseq(r, qs)
    ensures |r| == |qs| - CountId(qs, id)
  {
    if |qs| == 0 then []
    else
      var rest := DeleteIn(qs[1..], id);
      if qs[0].id == Some(id) then rest else [qs[0]] + rest
  }

  /** A record appended with the deleted id leaves no trace. */
  lemma {:induction false} DeleteAppended(qs: seq<Quote>, x: Quote, id: string)
    requires x.id == Some(id)
    ensures DeleteIn(qs + [x], id) == DeleteIn(qs, id)
  {
    if |qs| == 0 {
      assert qs + [x] == [x];
    } else {
      assert (qs + [x])[0] == qs[0] && (qs + [x])[1..] == qs[1..] + [x];
      DeleteAppended(qs[1..], x, id);
    }
  }

  /** Deleting an id no record has changes nothing. */
  lemma {:induction false} DeleteAbsent(qs: seq<Quote>, id: string)
    requires forall j | 0 <= j < |qs| :: qs[j].id != Some(id)
    ensures DeleteIn(qs, id) == qs
  {
    if |qs| > 0 {
      assert forall j | 1 <= j < |qs| :: qs[j] == qs[1..][j - 1];
      DeleteAbsent(qs[1..], id);
      assert qs == [qs[0]] + qs[1..];
    }
  }
}
