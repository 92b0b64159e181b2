/** What the mutators preserve and how they interact: id uniqueness, the
    fields every saved record carries, the id counter, and repeat updates. */
module Invariants {
  import opened Wrappers
  import opened Decimal
  import opened Quotes
  import opened Identifiers
  import opened Mutations

  /** The ids of `a` and `b` agree position by position. */
  predicate SameIds(a: seq<Quote>, b: seq<Quote>) {
    |a| == |b| && forall j | 0 <= j < |a| :: a[j].id == b[j].id
  }

  /** Uniqueness depends only on the ids. */
  lemma SameIdsUnique(a: seq<Quote>, b: seq<Quote>)
    requires SameIds(a, b)
    ensures UniqueIds(a) <==> UniqueIds(b)
  {
  }

  /** The id counter depends only on the ids. */
  lemma {:induction false} SameIdsSameMax(a: seq<Quote>, b: seq<Quote>)
    requires SameIds(a, b)
    ensures MaxIdSuffix(a) == MaxIdSuffix(b)
  {
    if |a| > 0 {
      SameIdsSameMax(a[..|a| - 1], b[..|b| - 1]);
      assert IdSuffix(a[|a| - 1]) == IdSuffix(b[|b| - 1]);
    }
  }

  /** Saving a record that already has an id changes no id in the collection. */
  lemma SaveWithIdKeepsIds(qs: seq<Quote>, q: Quote, now: int)
    requires Truthy(q.id)
    ensures SameIds(qs, SaveIn(qs, q, now).history)
  {
    var r := SaveIn(qs, q, now);
    forall j | 0 <= j < |qs| ensures qs[j].id == r.history[j].id {
      if FirstWithId(qs, q.id.value, j) {
        assert r.history[j] == r.record;
      }
    }
  }

  /** A status update changes no id in the collection. */
  lemma UpdateStatusKeepsIds(qs: seq<Quote>, id: string, status: string, now: int)
    ensures SameIds(qs, UpdateStatusIn(qs, id, status, now))
  {
    var r := UpdateStatusIn(qs, id, status, now);
    forall j | 0 <= j < |qs| ensures qs[j].id == r[j].id {
      if FirstWithId(qs, id, j) {
        assert r[j].(status := qs[j].status, lastUpdated := qs[j].lastUpdated) == qs[j];
      }
    }
  }

  /** Saving keeps ids unique: a new record gets an id no record has, and an
      existing record is replaced by one with the same id. */
  lemma SaveKeepsUniqueIds(qs: seq<Quote>, q: Quote, now: int)
    requires UniqueIds(qs)
    ensures UniqueIds(SaveIn(qs, q, now).history)
  {
    var r := SaveIn(qs, q, now);
    if Truthy(q.id) {
      SaveWithIdKeepsIds(qs, q, now);
      SameIdsUnique(qs, r.history);
    } else {
      forall i, j | 0 <= i < j < |r.history| && r.history[i].id.Some?
        ensures r.history[i].id != r.history[j].id
      {
        assert r.history[i] == qs[i];
        if j < |qs| {
          assert r.history[j] == qs[j];
        }
      }
    }
  }

  /** A status update keeps ids unique. */
  lemma UpdateStatusKeepsUniqueIds(qs: seq<Quote>, id: string, status: string, now: int)
    requires UniqueIds(qs)
    ensures UniqueIds(UpdateStatusIn(qs, id, status, now))
  {
    UpdateStatusKeepsIds(qs, id, status, now);
    SameIdsUnique(qs, UpdateStatusIn(qs, id, status, now));
  }

  /** Deleting keeps ids unique. */
  lemma {:induction false} DeleteKeepsUniqueIds(qs: seq<Quote>, id: string)
    requires UniqueIds(qs)
    ensures UniqueIds(DeleteIn(qs, id))
  {
    if |qs| > 0 {
      var rest := DeleteIn(qs[1..], id);
      DeleteKeepsUniqueIds(qs[1..], id);
      if qs[0].id != Some(id) {
        forall y | y in rest ensures qs[0].id.Some? ==> y.id != qs[0].id {
          var k :| 0 <= k < |qs[1..]| && qs[1..][k] == y;
          assert qs[k + 1] == y;
        }
        UniqueCons(qs[0], rest);
      }
    }
  }

  /** A record whose id no later record carries can be put in front of a
      list with unique ids. */
  lemma UniqueCons(x: Quote, rest: seq<Quote>)
    requires UniqueIds(rest)
    requires forall y | y in rest :: x.id.Some? ==> y.id != x.id
    ensures UniqueIds([x] + rest)
  {
    var r := [x] + rest;
    forall i, j | 0 <= i < j < |r| && r[i].id.Some?
      ensures r[i].id != r[j].id
    {
      assert r[j] == rest[j - 1];
      if i > 0 {
        assert r[i] == rest[i - 1];
      }
    }
  }

  /** Every mutator keeps the "all records saved" invariant. */
  lemma MutatorsKeepAllSaved(qs: seq<Quote>, q: Quote, id: string, status: string, now: int)
    requires AllSaved(qs)
    ensures AllSaved(SaveIn(qs, q, now).history)
    ensures AllSaved(UpdateStatusIn(qs, id, status, now))
    ensures AllSaved(DeleteIn(qs, id))
  {
    var r := SaveIn(qs, q, now);
    forall j | 0 <= j < |r.history|
      ensures Truthy(r.history[j].id) && r.history[j].lastUpdated.Some?
    {
      if j < |qs| && r.history[j] != qs[j] {
        assert FirstWithId(qs, q.id.value, j);
      }
    }
    var u := UpdateStatusIn(qs, id, status, now);
    UpdateStatusKeepsIds(qs, id, status, now);
    forall j | 0 <= j < |u|
      ensures u[j].lastUpdated.Some?
    {
      if FirstWithId(qs, id, j) {
        assert u[j].lastUpdated == Some(now);
      }
    }
    var d := DeleteIn(qs, id);
    forall j | 0 <= j < |d|
      ensures Truthy(d[j].id) && d[j].lastUpdated.Some?
    {
      assert d[j] in qs;
    }
  }

  /** Each save of a record without an id raises the id counter by exactly
      one, so the ids such saves hand out increase strictly. */
  lemma SaveNewAdvancesCounter(qs: seq<Quote>, q: Quote, now: int)
    requires !Truthy(q.id)
    ensures MaxIdSuffix(SaveIn(qs, q, now).history) == MaxIdSuffix(qs) + 1
    ensures IdSuffix(SaveIn(qs, q, now).record) == MaxIdSuffix(qs) + 1
  {
    var r := SaveIn(qs, q, now);
    assert r.history[..|r.history| - 1] == qs;
  }

  /** Two saves of new records in a row receive consecutive ids. */
  lemma ConsecutiveNewIds(qs: seq<Quote>, q1: Quote, q2: Quote, t1: int, t2: int)
    requires !Truthy(q1.id) && !Truthy(q2.id)
    ensures var first := SaveIn(qs, q1, t1);
            var second := SaveIn(first.history, q2, t2);
            IdSuffix(second.record) == IdSuffix(first.record) + 1
  {
    var first := SaveIn(qs, q1, t1);
    SaveNewAdvancesCounter(qs, q1, t1);
    SaveNewAdvancesCounter(first.history, q2, t2);
  }

  /** Saving or updating an existing record leaves the next generated id as it was. */
  lemma UpdatesKeepNextId(qs: seq<Quote>, q: Quote, id: string, status: string, now: int)
    ensures Truthy(q.id) ==> NextQuoteId(SaveIn(qs, q, now).history) == NextQuoteId(qs)
    ensures NextQuoteId(UpdateStatusIn(qs, id, status, now)) == NextQuoteId(qs)
  {
    if Truthy(q.id) {
      var h := SaveIn(qs, q, now).history;
      SaveWithIdKeepsIds(qs, q, now);
      SameIdsSameMax(qs, h);
      SameMaxSameNextId(qs, h);
    }
    var u := UpdateStatusIn(qs, id, status, now);
    UpdateStatusKeepsIds(qs, id, status, now);
    SameIdsSameMax(qs, u);
    SameMaxSameNextId(qs, u);
  }

  /** The next id is a function of the largest suffix alone. */
  lemma SameMaxSameNextId(a: seq<Quote>, b: seq<Quote>)
    requires MaxIdSuffix(a) == MaxIdSuffix(b)
    ensures NextQuoteId(a) == NextQuoteId(b)
  {
  }

  /** Saving a new record and then deleting the id it was given restores the
      list exactly. The counter is recomputed from the records present, not
      remembered, so the next new record receives that id again. */
  lemma SaveNewThenDelete(qs: seq<Quote>, q: Quote, now: int, again: Quote, later: int)
    requires !Truthy(q.id) && !Truthy(again.id)
    ensures var s := SaveIn(qs, q, now);
      DeleteIn(s.history, s.record.id.value) == qs
    ensures var s := SaveIn(qs, q, now);
      SaveIn(DeleteIn(s.history, s.record.id.value), again, later).record.id == s.record.id
  {
    var s := SaveIn(qs, q, now);
    var id := s.record.id.value;
    DeleteAppended(qs, s.record, id);
    DeleteAbsent(qs, id);
  }

  /** Updating a status twice is updating it once with the later timestamp. */
  lemma UpdateStatusIdempotent(qs: seq<Quote>, id: string, status: string, t1: int, t2: int)
    ensures UpdateStatusIn(UpdateStatusIn(qs, id, status, t1), id, status, t2)
         == UpdateStatusIn(qs, id, status, t2)
  {
    var once := UpdateStatusIn(qs, id, status, t1);
    UpdateStatusKeepsIds(qs, id, status, t1);
    FindIndexSameIds(qs, once, id);
  }

  /** After a delete no record has the deleted id. */
  lemma DeleteRemovesAll(qs: seq<Quote>, id: string)
    ensures CountId(DeleteIn(qs, id), id) == 0
  {
    var d := DeleteIn(qs, id);
    forall j | 0 <= j < |d| ensures d[j].id != Some(id) {
      assert d[j] in d;
    }
    CountIdZero(d, id);
  }
}
