/** The two identifier generators: the next internal id `O<n>` and the next
    display number `ORC<n>`, both derived from the records currently held. */
module Identifiers {
  import opened Wrappers
  import opened Decimal
  import opened Quotes

  /** `/^O(\d+)$/`: the numeric suffix of an internal id, if it has that shape. */
  function ParseInternalId(s: string): Option<nat> {
    if |s| >= 2 && s[0] == 'O' && AllDigits(s[1..]) then Some(Value(s[1..])) else None
  }

  /** The number one record contributes to the id maximum: its parsed suffix,
      or 0 when the id is absent, empty or not of the form `O<digits>`. */
  function IdSuffix(q: Quote): nat {
    if !Truthy(q.id) then 0
    else
      match ParseInternalId(q.id.value)
      case Some(n) => n
      case None => 0
  }

  /** `Math.max(0, ...ids)` over the suffixes of all records. */
  function MaxIdSuffix(qs: seq<Quote>): (m: nat)
    ensures forall i | 0 <= i < |qs| :: IdSuffix(qs[i]) <= m
    ensures m == 0 || exists i | 0 <= i < |qs| :: IdSuffix(qs[i]) == m
  {
    if |qs| == 0 then 0
    else
      var m := MaxIdSuffix(qs[..|qs| - 1]);
      var x := IdSuffix(qs[|qs| - 1]);
      if x > m then x else m
  }

  /** `getNextQuoteId`: `O` followed by the canonical rendering of one more
      than the largest suffix, so the result parses back to that number. */
  function NextQuoteId(qs: seq<Quote>): (id: string)
    ensures ParseInternalId(id) == Some(MaxIdSuffix(qs) + 1)
    ensures |id| >= 2 && id[0] == 'O' && Canonical(id[1..]) && id[1] != '0'
  {
    PrefixedShow("O", MaxIdSuffix(qs) + 1);
    "O" + Show(MaxIdSuffix(qs) + 1)
  }

  /** The generated id is larger than every suffix in use and so equals no
      record's id. */
  lemma NextQuoteIdFresh(qs: seq<Quote>)
    ensures ParseInternalId(NextQuoteId(qs)).Some?
    ensures forall i | 0 <= i < |qs| :: IdSuffix(qs[i]) < ParseInternalId(NextQuoteId(qs)).value
    ensures forall i | 0 <= i < |qs| :: qs[i].id != Some(NextQuoteId(qs))
  {
    var id := NextQuoteId(qs);
    forall i | 0 <= i < |qs| ensures qs[i].id != Some(id) {
      assert IdSuffix(qs[i]) < MaxIdSuffix(qs) + 1;
    }
  }

  /** The number a record's display number contributes: the value of its
      digits once every non-digit is removed; none when the field is absent
      or empty, or holds no digit at all. */
  function DisplayNumber(q: Quote): Option<nat> {
    if !Truthy(q.number) then None
    else
      var clean := StripNonDigits(q.number.value);
      if |clean| == 0 then None else Some(Value(clean))
  }

  /** The largest display number in use, or 0 when no record has one. */
  function MaxDisplayNumber(qs: seq<Quote>): (m: nat)
    ensures forall i | 0 <= i < |qs| && DisplayNumber(qs[i]).Some? :: DisplayNumber(qs[i]).value <= m
    ensures m == 0 || exists i | 0 <= i < |qs| :: DisplayNumber(qs[i]) == Some(m)
  {
    if |qs| == 0 then 0
    else
      var m := MaxDisplayNumber(qs[..|qs| - 1]);
      var x := DisplayNumber(qs[|qs| - 1]);
      if x.Some? && x.value > m then x.value else m
  }

  /** `getNextQuoteNumber`: `ORC` followed by k + 1, where k is the largest
      display number in use, or 0 when none participates. The suffix is
      canonical and positive, exceeds every participating number, and is one
      more than a number in use unless it is 1. */
  method NextQuoteNumber(qs: seq<Quote>) returns (display: string)
    ensures |display| > 3 && display[..3] == "ORC" && Canonical(display[3..]) && display[3] != '0'
    ensures forall i | 0 <= i < |qs| && DisplayNumber(qs[i]).Some? ::
              DisplayNumber(qs[i]).value < Value(display[3..])
    ensures Value(display[3..]) == 1
         || exists i | 0 <= i < |qs| :: DisplayNumber(qs[i]) == Some(Value(display[3..]) - 1)
  {
    var maxNumber: nat := 0;
    var i := 0;
    while i < |qs|
      invariant 0 <= i <= |qs|
      invariant maxNumber == MaxDisplayNumber(qs[..i])
    {
      assert qs[..i + 1][..i] == qs[..i];
      var found := DisplayNumber(qs[i]);
      if found.Some? && found.value > maxNumber {
        maxNumber := found.value;
      }
      i := i + 1;
    }
    assert qs[..i] == qs;
    display := "ORC" + Show(maxNumber + 1);
    PrefixedShow("ORC", maxNumber + 1);
  }

  /** A prefix followed by a rendered positive number: the number can be read
      back from the text after the prefix, which is canonical and does not
      start with '0'. */
  lemma PrefixedShow(prefix: string, n: nat)
    requires n > 0
    ensures (prefix + Show(n))[..|prefix|] == prefix
    ensures (prefix + Show(n))[|prefix|..] == Show(n)
    ensures Canonical(Show(n)) && Show(n)[0] != '0' && Value(Show(n)) == n
  {
    ValueOfShow(n);
    assert (prefix + Show(n))[|prefix|..] == Show(n);
  }
}
