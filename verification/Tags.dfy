/** Choice of C tags: a base name, renamed with a counter until it is unused. */
module Tags {

  const DIGITS := "0123456789"

  function Decimal(n: nat): (s: string)
    ensures s != []
  {
    if n < 10 then [DIGITS[n]] else Decimal(n / 10) + [DIGITS[n % 10]]
  }

  function DigitValue(c: char): int {
    if '0' <= c <= '9' then c as int - '0' as int else -1
  }

  /** The number that decimal digits spell. */
  function Spelled(s: string): int {
    if s == "" then 0 else 10 * Spelled(s[..|s| - 1]) + DigitValue(s[|s| - 1])
  }

  lemma {:induction false} DecimalSpells(n: nat)
    ensures Spelled(Decimal(n)) == n
  {
    var s := Decimal(n);
    assert DigitValue(DIGITS[n % 10]) == n % 10;
    if n < 10 {
      assert s[..0] == "";
    } else {
      DecimalSpells(n / 10);
      assert s[..|s| - 1] == Decimal(n / 10);
    }
  }

  lemma {:induction false} DecimalInjective(m: nat, n: nat)
    requires Decimal(m) == Decimal(n)
    ensures m == n
  {
    if m < 10 && n < 10 {
      assert DIGITS[m] == Decimal(m)[0] == DIGITS[n];
    } else if m >= 10 && n >= 10 {
      var s, t := Decimal(m), Decimal(n);
      assert s[..|s| - 1] == Decimal(m / 10) && s[|s| - 1] == DIGITS[m % 10];
      assert t[..|t| - 1] == Decimal(n / 10) && t[|t| - 1] == DIGITS[n % 10];
      DecimalInjective(m / 10, n / 10);
    } else {
      assert false;
    }
  }

  /** The n-th name tried: the base itself, then base_2, base_3 and so on. */
  function Candidate(base: string, n: nat): string {
    if n <= 1 then base else base + "_" + Decimal(n)
  }

  lemma CandidateInjective(base: string, m: nat, n: nat)
    requires 1 <= m < n
    ensures Candidate(base, m) != Candidate(base, n)
  {
    if m == 1 {
      assert |Candidate(base, n)| > |base|;
    } else if Candidate(base, m) == Candidate(base, n) {
      var k := |base| + 1;
      assert Candidate(base, m)[k..] == Decimal(m) && Candidate(base, n)[k..] == Decimal(n);
      DecimalInjective(m, n);
    }
  }

  ghost predicate AllUsed(used: set<string>, base: string, n: nat) {
    forall k :: 1 <= k < n ==> Candidate(base, k) in used
  }

  ghost function Tried(base: string, n: nat): set<string> {
    if n <= 1 then {} else Tried(base, n - 1) + {Candidate(base, n - 1)}
  }

  lemma {:induction false} TriedEarlier(base: string, n: nat, t: string)
    requires t in Tried(base, n)
    ensures exists k :: 1 <= k < n && t == Candidate(base, k)
  {
    hide Candidate;
    if t == Candidate(base, n - 1) {
    } else {
      TriedEarlier(base, n - 1, t);
    }
  }

  lemma {:induction false} TriedDistinct(base: string, n: nat, used: set<string>)
    requires 1 <= n && AllUsed(used, base, n)
    ensures |Tried(base, n)| == n - 1 && Tried(base, n) <= used
  {
    hide Candidate;
    if n <= 1 {
    } else {
      TriedDistinct(base, n - 1, used);
      if Candidate(base, n - 1) in Tried(base, n - 1) {
        TriedEarlier(base, n - 1, Candidate(base, n - 1));
        var k :| 1 <= k < n - 1 && Candidate(base, n - 1) == Candidate(base, k);
        CandidateInjective(base, k, n - 1);
      }
      assert Candidate(base, n - 1) in used;
    }
  }

  /** Renaming must end: only as many names can be taken as there are tags. */
  lemma TriesBounded(used: set<string>, base: string, n: nat)
    requires 1 <= n && AllUsed(used, base, n)
    ensures n <= |used| + 1
  {
    TriedDistinct(base, n, used);
    SubsetSize(Tried(base, n), used);
  }

  lemma SubsetSize<T>(a: set<T>, b: set<T>)
    requires a <= b
    ensures |a| <= |b|
  {
    assert b == a + (b - a);
    assert |b| == |a| + |b - a|;
  }

  /** The first candidate from the n-th on that is not in use. */
  function FreshTag(used: set<string>, base: string, n: nat): (tag: string)
    requires 1 <= n && AllUsed(used, base, n)
    ensures tag !in used
    ensures exists k :: n <= k <= |used| + 1 && tag == Candidate(base, k) && AllUsed(used, base, k)
    decreases |used| + 1 - n
  {
    TriesBounded(used, base, n);
    if Candidate(base, n) in used then
      TriesBounded(used, base, n + 1);
      FreshTag(used, base, n + 1)
    else Candidate(base, n)
  }
}
