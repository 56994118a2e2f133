/** The string operations the filter applies to a field: Python's `str.lower()`
    and the substring test `term in text`, plus decimal rendering of naturals. */
module Strings {

  /** Lower-casing of one character, for the ASCII letters A-Z. */
  function LowerChar(c: char): char
  {
    if 'A' <= c <= 'Z' then (c as int - 'A' as int + 'a' as int) as char else c
  }

  function Lower(s: string): string
  {
    seq(|s|, i requires 0 <= i < |s| => LowerChar(s[i]))
  }

  predicate IsUpper(c: char)
  {
    'A' <= c <= 'Z'
  }

  /** Lower-casing leaves a text without upper-case letters unchanged. */
  lemma LowerKeepsNonUpper(s: string)
    requires forall i :: 0 <= i < |s| ==> !IsUpper(s[i])
    ensures Lower(s) == s
  {
  }

  /** Python's `t in s`: tries every starting position of `s` from the left. */
  function Contains(s: string, t: string): bool
    decreases |s|
  {
    if |t| <= |s| && s[..|t|] == t then true
    else if s == [] then false
    else Contains(s[1..], t)
  }

  /** `t` occurs in `s` starting at position `k`. */
  ghost predicate OccursAt(s: string, t: string, k: int)
  {
    0 <= k && k + |t| <= |s| && s[k..k + |t|] == t
  }

  /** Where the search succeeds, the term occurs there. */
  lemma {:induction false} ContainsFound(s: string, t: string) returns (k: nat)
    requires Contains(s, t)
    ensures OccursAt(s, t, k)
    decreases |s|
  {
    if |t| <= |s| && s[..|t|] == t {
      k := 0;
    } else {
      var k' := ContainsFound(s[1..], t);
      assert s[k' + 1..k' + 1 + |t|] == s[1..][k'..k' + |t|];
      k := k' + 1;
    }
  }

  /** The search reaches every occurrence. */
  lemma {:induction false} OccursFound(s: string, t: string, k: nat)
    requires OccursAt(s, t, k)
    ensures Contains(s, t)
    decreases k
  {
    if k > 0 && !(|t| <= |s| && s[..|t|] == t) {
      assert s[1..][k - 1..k - 1 + |t|] == s[k..k + |t|];
      OccursFound(s[1..], t, k - 1);
    }
  }

  /** The search agrees with the definition of a substring. */
  lemma ContainsIff(s: string, t: string)
    ensures Contains(s, t) <==> exists k :: OccursAt(s, t, k)
  {
    if Contains(s, t) {
      var k := ContainsFound(s, t);
    }
    if k :| OccursAt(s, t, k) {
      OccursFound(s, t, k);
    }
  }

  /** The empty term is a substring of every text, as in Python. */
  lemma EmptyTermOccurs(s: string)
    ensures Contains(s, "")
  {
    assert s[..0] == "";
  }

  /** A term holding an upper-case letter never occurs in lower-cased text. */
  lemma UpperTermNeverOccursInLower(s: string, t: string, i: nat)
    requires i < |t| && IsUpper(t[i])
    ensures !Contains(Lower(s), t)
  {
    ContainsIff(Lower(s), t);
  }

  /** A term longer than the text does not occur in it. */
  lemma ShorterTextNeverContains(s: string, t: string)
    requires |s| < |t|
    ensures !Contains(s, t)
  {
    ContainsIff(s, t);
  }

  /** A non-empty term whose first character is absent from `s` does not occur in `s`. */
  lemma {:induction false} NotContainsWithoutHead(s: string, t: string)
    requires |t| > 0 && t[0] !in s
    ensures !Contains(s, t)
    decreases |s|
  {
    if s != [] {
      if |t| <= |s| {
        assert s[..|t|][0] == s[0];
      }
      NotContainsWithoutHead(s[1..], t);
    }
  }

  /** A term whose first character occurs in `s` only at position 0 occurs in
      `s` only if `s` starts with it; a mismatch at position `p` rules that out. */
  lemma NotContainsAnchored(s: string, t: string, p: nat)
    requires p < |t| && (p >= |s| || s[p] != t[p])
    requires |s| > 0 && t[0] !in s[1..]
    ensures !Contains(s, t)
  {
    if |t| <= |s| {
      assert s[..|t|][p] == s[p];
    }
    NotContainsWithoutHead(s[1..], t);
  }

  function DigitChar(d: nat): char
    requires d < 10
  {
    ('0' as int + d) as char
  }

  /** The decimal digits of `n`, without leading zeros. */
  function Decimal(n: nat): string
  {
    if n < 10 then [DigitChar(n)] else Decimal(n / 10) + [DigitChar(n % 10)]
  }
}
