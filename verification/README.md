# OrcaFacil quote history — a Dafny model of the storage service

This project models the persistence layer of the OrcaFacil quote form: the
in-memory list of quote records that is hydrated once from the browser's
durable store, the two identifier generators (internal id `O<n>`, display
number `ORC<n>`), the query engine behind the history screen (free-text
search, newest-first ordering, pagination) and the three mutators (`save`,
`updateStatus`, `delete`).

Everything is a pure function of a `seq<Quote>` and a few scalars:

- `Quote` keeps the fields the layer inspects or writes. Optional string
  fields are `Option<string>`, and JavaScript truthiness is "present and
  non-empty" (`Truthy`). `lastUpdated` is `Option<int>`, and the sort key
  `lastUpdated || 0` is `Timestamp`. Every other field sits in `rest` and is
  copied unchanged.
- The module-level cache is `Cache = Option<seq<Quote>>`, with `None` before
  the first access. Each API call takes it, plus `stored`: what reading and
  parsing the durable entry would yield (`None` when absent, empty or
  unreadable). It returns the cache afterwards and the call's result.
- `Date.now()` is the parameter `now`.

Modules, leaves first: `Wrappers` (Option), `Seqs` (subsequence),
`Decimal` (`parseInt`, `${n}`, `replace(/\D/g, '')`), `Text` (ASCII
`toLowerCase`, `includes`), `Quotes` (the record), `Identifiers`, `Query`,
`Mutations`, `Invariants` (what the mutators preserve) and `Repository` (the
public API over the cache, and properties of call sequences).

Three behaviours of the code worth noting:

- The `date` field is searched verbatim against the lowered term, like the
  client document. It is not searched case-insensitively.
- `delete` removes every record with the id, not just one. The list shrinks
  by exactly one only when ids are unique (`DeleteThenList`).
- Pages before the first are not simply empty. Page 0 is empty, and a
  negative page counts back from the end of the list, because `slice`
  treats negative indices that way (`NonPositivePages`).

`Array.prototype.sort` is stable, so `SortDesc` is a stable insertion sort.
`SortUnique` shows it is the only newest-first rearrangement that keeps tied
records in stored order.

## Model

| member | source | states |
|---|---|---|
| `Decimal.Show` | services/storageService.ts:19 | `${n}` renders a non-negative integer as a canonical digit string, starting with '0' only for 0 |
| `Decimal.ValueOfShow` | services/storageService.ts:15-19 | parsing the digits of a rendered id suffix gives back the number rendered |
| `Decimal.ShowOfValue` | services/storageService.ts:15-19 | rendering the value of a canonical digit string gives back that string, so rendering and parsing are inverse bijections |
| `Decimal.StripNonDigits` | services/storageService.ts:96 | what is left after removing non-digits is digits only |
| `Decimal.StripKeepsDigits` | services/storageService.ts:96 | removing non-digits keeps exactly the digit occurrences, in order, as a subsequence of the input |
| `Decimal.StripDigitsOnly` | services/storageService.ts:96 | a digit-only display number is left unchanged by the stripping |
| `Text.Lower` | services/storageService.ts:68 | lowering keeps the length, leaves no upper-case letter, and changes only upper-case letters, each to its lower-case partner |
| `Text.LowerIdempotent` | services/storageService.ts:68-75 | lowering an already lowered term changes nothing |
| `Text.ContainsLowered` | services/storageService.ts:70-75 | a verbatim occurrence of the query is also found by the case-insensitive comparison |
| `Text.LoweredNeverContainsUpper` | services/storageService.ts:68-75 | a term with an upper-case letter never occurs in lowered text |
| `Identifiers.MaxIdSuffix` | services/storageService.ts:12-18 | the maximum is at least every record's id suffix, where absent, empty or non-`O<digits>` ids count 0, and it is attained or is 0 |
| `Identifiers.NextQuoteId` | services/storageService.ts:11-20 | the new id is `O` followed by a canonical number without leading zero, and it parses back as suffix max+1 |
| `Identifiers.NextQuoteIdFresh` | services/storageService.ts:11-20 | the new id's suffix exceeds every suffix in use, so it equals no existing id |
| `Identifiers.PrefixedShow` | services/storageService.ts:19 | the text after the prefix of a rendered positive number is canonical, has no leading '0' and reads back as the number |
| `Identifiers.MaxDisplayNumber` | services/storageService.ts:92-101 | the largest display number is at least every number that has digits, and is one of them or 0 |
| `Identifiers.NextQuoteNumber` | services/storageService.ts:90-104 | the result is `ORC` plus a canonical positive number; that number exceeds every display number that has digits, and is 1 or one more than a number in use |
| `Query.KeepMatching` | services/storageService.ts:69-76 | filtering keeps exactly the matching records, as a subsequence in stored order, with as many records as there are matching positions, so duplicates are kept |
| `Query.Search` | services/storageService.ts:66-77 | an empty query keeps every record; otherwise a record is kept iff it matches the lowered query, and the result is a subsequence as long as the number of matching positions |
| `Query.KeepMatchingAll` | services/storageService.ts:69-76 | when every record matches, the filter returns the list unchanged |
| `Query.SearchIdempotent` | services/storageService.ts:66-77 | searching the search result again with the same query changes nothing |
| `Query.NameMatchIgnoresCase` | services/storageService.ts:71 | a client name containing the query in any letter case is found |
| `Query.AcmeFoundByUpperCaseQuery` | services/storageService.ts:67-71 | a record whose client name is "Acme Corp" is found by the query "ACME" |
| `Query.DocumentMatchIsCaseSensitive` | services/storageService.ts:73 | a document with an upper-case letter is not matched through the document field even by a query equal to it |
| `Query.InsertSorted` | services/storageService.ts:80 | inserting into a newest-first list keeps it newest-first |
| `Query.InsertMultiset` | services/storageService.ts:80 | inserting adds exactly the inserted record |
| `Query.SortDesc` | services/storageService.ts:60 | the ordering is a permutation of its input with non-increasing `lastUpdated` (missing = 0) |
| `Query.InsertKeepsTies` | services/storageService.ts:80 | insertion keeps the relative order of records with equal timestamps |
| `Query.SortStable` | services/storageService.ts:60 | records with equal timestamps keep their stored relative order |
| `Query.SortedDeterminedByTies` | services/storageService.ts:60 | two newest-first lists with the same records per timestamp are equal |
| `Query.SortUnique` | services/storageService.ts:60 | any newest-first, tie-order-preserving rearrangement equals `SortDesc` |
| `Query.Slice` | services/storageService.ts:85 | `slice` with non-negative bounds is the window cut to the list, and has at most end-start elements |
| `Query.CeilDiv` | services/storageService.ts:83 | `Math.ceil(total/limit)` is the least q with q*limit >= total |
| `Query.PageSize` | services/storageService.ts:84-85 | a page holds at most `limit` records |
| `Query.PageWindow` | services/storageService.ts:84-85 | from page 1 on, a page is the window from `(page-1)*limit` of length `limit`, cut down to the list |
| `Query.PagePastEnd` | services/storageService.ts:83-85 | a page past `totalPages` is empty |
| `Query.PageBeforeEnd` | services/storageService.ts:83-85 | every page from 1 to `totalPages` is non-empty and is full except perhaps the last |
| `Query.Paginated` | services/storageService.ts:63-88 | total is the match count, page is echoed, totalPages is the ceiling of total over limit, the data is that page of the newest-first matches, at most `limit` long, empty past the end |
| `Query.PaginatedRecords` | services/storageService.ts:63-88 | every returned record is a stored record the query selects, and the page is newest-first |
| `Query.PagesUpToPrefix` | services/storageService.ts:84-85 | pages 1..n laid end to end are the first n*limit records of the list |
| `Query.PagesCoverAll` | services/storageService.ts:82-85 | pages 1..totalPages laid end to end are the whole sorted list, each record once |
| `Query.NonPositivePages` | services/storageService.ts:84-85 | page 0 is empty; a negative page is a window counted from the end of the list |
| `Query.TwentyFiveRecordsTenPerPage` | services/storageService.ts:82-85 | 25 records at 10 per page: 3 pages, page 3 holds the last 5, page 4 is empty with total 25 |
| `Mutations.FindIndex` | services/storageService.ts:116 | `findIndex` returns the first position holding the id, or none when no record holds it |
| `Mutations.FindIndexSameIds` | services/storageService.ts:134 | the lookup depends only on the ids, position by position |
| `Mutations.CountIdZero` | services/storageService.ts:143 | no record has the id iff its count is zero |
| `Mutations.UniqueCount` | services/storageService.ts:143 | with unique ids an id is held by at most one record, and by one iff present |
| `Mutations.Stamp` | services/storageService.ts:111-115 | a saved record has `lastUpdated = now`, the caller's status or "pending", and no other field changed |
| `Mutations.SaveIn` | services/storageService.ts:106-130 | no id: append one record whose id is the generated next id, earlier records untouched; with an id: same length, only the first index holding it is replaced, nothing when none; returned record stamped |
| `Mutations.UpdateStatusIn` | services/storageService.ts:132-139 | only the first record with the id changes, only in status and lastUpdated; unknown id leaves all unchanged |
| `Mutations.DeleteIn` | services/storageService.ts:141-145 | exactly the records without the id remain, in order, and the length drops by the number of records that had it |
| `Mutations.DeleteAppended` | services/storageService.ts:143 | a record appended with the deleted id leaves no trace in the result |
| `Mutations.DeleteAbsent` | services/storageService.ts:143 | deleting an id no record has changes nothing |
| `Invariants.SaveKeepsUniqueIds` | services/storageService.ts:110-126 | save keeps ids unique |
| `Invariants.UpdateStatusKeepsUniqueIds` | services/storageService.ts:132-139 | a status update keeps ids unique |
| `Invariants.UniqueCons` | services/storageService.ts:141-145 | a record whose id no later record carries can head a list of unique ids |
| `Invariants.DeleteKeepsUniqueIds` | services/storageService.ts:141-145 | delete keeps ids unique |
| `Invariants.MutatorsKeepAllSaved` | services/storageService.ts:106-145 | if every record has an id and a timestamp, the same holds after save, updateStatus or delete |
| `Invariants.SaveNewAdvancesCounter` | services/storageService.ts:118-125 | a save without id raises the largest id suffix by exactly one |
| `Invariants.ConsecutiveNewIds` | services/storageService.ts:118-125 | two saves of new records in a row receive consecutive id suffixes |
| `Invariants.UpdatesKeepNextId` | services/storageService.ts:110-117 | saving an existing record or updating a status leaves the next generated id unchanged |
| `Invariants.SaveNewThenDelete` | services/storageService.ts:106-145 | saving a new record and deleting the id it received restores the list exactly, and a following new record receives that same id |
| `Invariants.UpdateStatusIdempotent` | services/storageService.ts:132-139 | two identical status updates equal one update with the later timestamp |
| `Invariants.DeleteRemovesAll` | services/storageService.ts:143 | after delete no record holds the id, duplicates included |
| `Repository.EnsureCache` | services/storageService.ts:29-44 | an existing cache is returned without reading the store; otherwise the stored records, or none |
| `Repository.HydratesOnce` | services/storageService.ts:29-30 | after the first access the cache answers later accesses, whatever the store holds |
| `Repository.GetAll` | services/storageService.ts:57-61 | the cache is only hydrated; the result is a permutation of it, newest first, ties in stored order |
| `Repository.GetPaginated` | services/storageService.ts:63-88 | the cache is only hydrated; total, page count, page size bound and past-the-end emptiness hold |
| `Repository.GetNextQuoteNumber` | services/storageService.ts:90-104 | the cache is only hydrated; the result is `ORC` plus a canonical number without leading zero, above every display number in use, and 1 or one more than a number in use |
| `Repository.Save` | services/storageService.ts:106-130 | the cache grows by one iff the record has no id; the stamped record is in the cache iff it is new or its id was held |
| `Repository.UpdateStatus` | services/storageService.ts:132-139 | ids and length are kept, only the first record with the id may change, and it gets the new status and time |
| `Repository.Delete` | services/storageService.ts:141-145 | exactly the records without the id remain, the cache shrinks by their count |
| `Repository.CountIdSort` | services/storageService.ts:60 | ordering keeps how many records hold each id |
| `Repository.SaveThenListedOnce` | services/storageService.ts:57-61 | after saving a new or existing record (unique ids), listing shows it exactly once, stamped with `now` and defaulted status |
| `Repository.SaveUnknownIdStoresNothing` | services/storageService.ts:110-117 | saving with an id no record holds leaves the cache unchanged yet returns the stamped record |
| `Repository.DeleteThenList` | services/storageService.ts:141-145 | after delete, listing shows no record with the id and is shorter by the count of such records, by one when ids are unique and it was present |

## Left out

- Durable writes are not modelled: `persistCache` and its `setTimeout` write of `JSON.stringify(memoryCache)` are browser I/O scheduled on the event loop. Which calls would schedule a write is therefore not stated.
- Reading the store is the `stored` parameter. A store entry that parses to something other than an array (such as `"null"`) is not modelled; with it the source's later calls fail.
- The logging in `ensureCache`'s error path is not modelled.
- `Date.now()` is the parameter `now`.
- `Object.freeze` and the `Promise`/`async` signatures are not modelled. Records are immutable values here, so callers cannot alias the cache. In the source they can: `save` returns the very object it stored, and `getAll` and `getPaginated` copy only the array (`[...history]`), so the records they return are the stored objects themselves.
- `Query.Paginated`: requires `limit > 0`. For `limit <= 0` the source computes `Math.ceil` of a division by zero or of a negative quotient in floating point; that is not modelled.
- `Repository.GetPaginated`: requires `limit > 0`, for the same reason.
- Page and limit are integers here. Fractional values are not modelled.
- `Text.Lower`: lowers ASCII letters only. Unicode case mapping, including mappings that change a string's length, is not modelled.
- `Decimal.Value`: numbers are unbounded naturals. `parseInt` loses precision past 2^53, and `Math.max(0, ...ids)` fails on very large arrays; neither is modelled.
- Values of `number` that are not strings, for which the source calls `toString()`, are not modelled.
- `status` is any string, since the `QuoteStatus` type is not part of this model.
- The search fields are optional strings. An absent field and an empty one never match, because a non-empty query lowers to a non-empty term.
- `components/StepIndicator.tsx` is not part of this model: it is rendering only, with no state or storage dependency.
