/** Decimal digit strings as the storage layer reads and writes them:
    `parseInt(s, 10)` on a digit-only string, the template-literal rendering
    `${n}` of a non-negative integer, and `s.replace(/\D/g, '')`. Only the
    ASCII digits count, as for `\d` in a regular expression without the `u` flag. */
module Decimal {
  import opened Seqs

  predicate IsDigit(c: char) {
    '0' <= c <= '9'
  }

  predicate AllDigits(s: string) {
    forall i | 0 <= i < |s| :: IsDigit(s[i])
  }

  /** A canonical rendering: non-empty, digits only, no leading zero unless it is "0". */
  predicate Canonical(s: string) {
    |s| > 0 && AllDigits(s) && (|s| == 1 || s[0] != '0')
  }

  function DigitValue(c: char): (d: nat)
    requires IsDigit(c)
    ensures d < 10
  {
    (c as int) - ('0' as int)
  }

  function DigitChar(d: nat): (c: char)
    requires d < 10
    ensures IsDigit(c) && DigitValue(c) == d
  {
    (('0' as int) + d) as char
  }

  /** The number a digit-only string denotes, which is what `parseInt(s, 10)`
      returns for it: leading zeros are allowed, and "" denotes 0. */
  function Value(s: string): nat
    requires AllDigits(s)
  {
    if |s| == 0 then 0 else 10 * Value(s[..|s| - 1]) + DigitValue(s[|s| - 1])
  }

  /** `${n}`: the canonical decimal rendering of n. */
  function Show(n: nat): (s: string)
    ensures Canonical(s)
    ensures s[0] == '0' <==> n == 0
  {
    if n < 10 then [DigitChar(n)] else Show(n / 10) + [DigitChar(n % 10)]
  }

  /** Reading back a rendering gives the number rendered. */
  lemma {:induction false} ValueOfShow(n: nat)
    ensures Value(Show(n)) == n
  {
    if n >= 10 {
      var s := Show(n);
      assert s[..|s| - 1] == Show(n / 10);
      ValueOfShow(n / 10);
    }
  }

  /** A canonical digit string with a non-zero leading digit denotes a positive number. */
  lemma {:induction false} ValuePositive(s: string)
    requires |s| > 0 && AllDigits(s) && s[0] != '0'
    ensures Value(s) > 0
  {
    if |s| > 1 {
      ValuePositive(s[..|s| - 1]);
    }
  }

  /** Rendering the number a canonical string denotes gives that string back,
      so canonical strings and naturals are in one-to-one correspondence. */
  lemma {:induction false} ShowOfValue(s: string)
    requires Canonical(s)
    ensures Show(Value(s)) == s
  {
    var last := s[|s| - 1];
    if |s| == 1 {
      assert s == [last];
    } else {
      var p := s[..|s| - 1];
      ValuePositive(p);
      ShowOfValue(p);
      var n := Value(s);
      assert n / 10 == Value(p) && n % 10 == DigitValue(last);
      assert s == p + [last];
    }
  }

  /** `s.replace(/\D/g, '')`: the digits of `s`, in their original order. */
  function StripNonDigits(s: string): (r: string)
    ensures AllDigits(r)
  {
    if |s| == 0 then []
    else
      var rest := StripNonDigits(s[1..]);
      if IsDigit(s[0]) then [s[0]] + rest else rest
  }

  /** Stripping keeps exactly the digit occurrences of the input, in their
      order: the result is a subsequence of the input with the same number of
      each digit. */
  lemma {:induction false} StripKeepsDigits(s: string)
    ensures IsSubseq(StripNonDigits(s), s)
    ensures forall c | IsDigit(c) :: multiset(StripNonDigits(s))[c] == multiset(s)[c]
  {
    if |s| > 0 {
      StripKeepsDigits(s[1..]);
      assert s == [s[0]] + s[1..];
    }
  }

  /** Stripping leaves a digit-only string unchanged. */
  lemma {:induction false} StripDigitsOnly(s: string)
    requires AllDigits(s)
    ensures StripNonDigits(s) == s
  {
    if |s| > 0 {
      StripDigitsOnly(s[1..]);
      assert s == [s[0]] + s[1..];
    }
  }
}
