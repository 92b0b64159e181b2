/** The two string operations the search relies on: `toLowerCase`, restricted
    to ASCII letters, and `includes`, substring containment. */
module Text {

  predicate IsUpper(c: char) {
    'A' <= c <= 'Z'
  }

  function LowerChar(c: char): char {
    if IsUpper(c) then ((c as int) + 32) as char else c
  }

  /** `s.toLowerCase()` for ASCII text: each upper-case letter becomes its
      lower-case partner and every other character stays as it is. */
  function Lower(s: string): (r: string)
    ensures |r| == |s|
    ensures forall i | 0 <= i < |r| :: !IsUpper(r[i])
    ensures forall i | 0 <= i < |s| && !IsUpper(s[i]) :: r[i] == s[i]
    ensures forall i | 0 <= i < |s| && IsUpper(s[i]) :: r[i] as int == s[i] as int + 32
  {
    seq(|s|, i requires 0 <= i < |s| => LowerChar(s[i]))
  }

  /** Lowering twice is lowering once. */
  lemma LowerIdempotent(s: string)
    ensures Lower(Lower(s)) == Lower(s)
  {
  }

  /** `needle` occurs in `hay` starting at offset `i`. */
  predicate OccursAt(hay: string, needle: string, i: int) {
    0 <= i <= |hay| - |needle| && hay[i..i + |needle|] == needle
  }

  /** `hay.includes(needle)`: `needle` occurs in `hay` at some offset. */
  predicate Contains(hay: string, needle: string) {
    exists i | 0 <= i <= |hay| - |needle| :: OccursAt(hay, needle, i)
  }

  /** Case-insensitive containment is weaker than containment: a verbatim
      occurrence is still an occurrence once both sides are lowered. */
  lemma ContainsLowered(hay: string, needle: string)
    requires Contains(hay, needle)
    ensures Contains(Lower(hay), Lower(needle))
  {
    var i :| 0 <= i <= |hay| - |needle| && OccursAt(hay, needle, i);
    assert OccursAt(Lower(hay), Lower(needle), i) by {
      forall k | 0 <= k < |needle|
        ensures Lower(hay)[i + k] == Lower(needle)[k]
      {
        assert hay[i + k] == needle[k];
      }
    }
  }

  /** A text that contains an upper-case letter never occurs inside a fully
      lowered text. */
  lemma LoweredNeverContainsUpper(hay: string, needle: string, k: int)
    requires 0 <= k < |needle| && IsUpper(needle[k])
    ensures !Contains(Lower(hay), needle)
  {
    forall i | 0 <= i <= |hay| - |needle|
      ensures !OccursAt(Lower(hay), needle, i)
    {
      assert Lower(hay)[i + k] != needle[k];
    }
  }
}
