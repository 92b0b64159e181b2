/** The quote record, reduced to the fields the storage layer reads or writes. */
module Quotes {
  import opened Wrappers

  datatype Client = Client(name: Option<string>, document: Option<string>)

  datatype Company = Company(tradeName: Option<string>)

  /** One persisted quote. `id` is the internal identifier (`O<n>`), `number`
      the display number (`ORC<n>`), `tradeName` the company's
      `nome_fantasia`, and `lastUpdated` a millisecond timestamp. `rest`
      stands for every field this layer copies without looking at it (line
      items, the remaining client and company details). */
  datatype Quote = Quote(
    id: Option<string>,
    number: Option<string>,
    client: Client,
    company: Company,
    date: Option<string>,
    status: Option<string>,
    lastUpdated: Option<int>,
    rest: map<string, string>)

  /** JavaScript truthiness of an optional string field: present and non-empty. */
  predicate Truthy(f: Option<string>) {
    f.Some? && f.value != ""
  }

  /** The sort key `q.lastUpdated || 0`. */
  function Timestamp(q: Quote): int {
    q.lastUpdated.GetOr(0)
  }

  /** The status a record is saved with: its own when set, otherwise "pending". */
  const DefaultStatus: string := "pending"
}
