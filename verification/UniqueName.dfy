/** The name of a service deployed from a template: base, base-2, base-3, ... (`uniqueServiceName`). */
module UniqueName {

  function Digit(n: nat): (c: char)
    requires n < 10
  {
    "0123456789"[n]
  }

  /** A number as a template literal prints it. */
  function Decimal(n: nat): (s: string) {
    if n < 10 then [Digit(n)] else Decimal(n / 10) + [Digit(n % 10)]
  }

  function DigitValue(c: char): (n: nat) {
    if '0' <= c <= '9' then (c - '0') as nat else 0
  }

  function ValueOf(s: string): (n: nat) {
    if s == "" then 0 else 10 * ValueOf(s[..|s| - 1]) + DigitValue(s[|s| - 1])
  }

  /** Different numbers print differently. */
  lemma {:induction false} DecimalIsReadBack(n: nat)
    ensures ValueOf(Decimal(n)) == n
  {
    if n < 10 {
      assert ValueOf("") == 0;
    } else {
      DecimalIsReadBack(n / 10);
    }
  }

  /** The names in the order they are tried, counted from 1. */
  function Candidate(base: string, k: nat): (name: string) {
    if k <= 1 then base else base + "-" + Decimal(k)
  }

  /** No superfluous zero at the front, and nothing but digits. */
  predicate IsNumeral(s: string) {
    s != "" && (forall c <- s :: '0' <= c <= '9') && (|s| > 1 ==> s[0] != '0')
  }

  lemma {:induction false} DecimalIsNumeral(n: nat)
    ensures IsNumeral(Decimal(n)) && (n > 0 ==> Decimal(n)[0] != '0')
  {
    if n >= 10 { DecimalIsNumeral(n / 10); }
  }

  /** The first name is the base itself, and the k-th one is the base, a dash and the number k, from 2 on. */
  lemma CandidatesAreNumbered(base: string, k: nat)
    requires k >= 1
    ensures k == 1 ==> Candidate(base, k) == base
    ensures k >= 2 ==> exists numeral ::
              Candidate(base, k) == base + "-" + numeral && IsNumeral(numeral) && ValueOf(numeral) == k
  {
    DecimalIsReadBack(k);
    DecimalIsNumeral(k);
    assert k >= 2 ==> Candidate(base, k) == base + "-" + Decimal(k);
  }

  lemma CandidatesDiffer(base: string, j: nat, k: nat)
    requires 1 <= j < k
    ensures Candidate(base, j) != Candidate(base, k)
  {
    DecimalIsReadBack(j);
    DecimalIsReadBack(k);
    var prefix := base + "-";
    assert (prefix + Decimal(k))[|prefix|..] == Decimal(k);
    assert (prefix + Decimal(j))[|prefix|..] == Decimal(j);
  }

  ghost function Tried(base: string, n: nat): (names: set<string>) {
    set k | 1 <= k <= n :: Candidate(base, k)
  }

  /** As many names as numbers. */
  lemma {:induction false} TriedCount(base: string, n: nat)
    ensures |Tried(base, n)| == n
  {
    if n > 0 {
      TriedCount(base, n - 1);
      forall k | 1 <= k <= n - 1
        ensures Candidate(base, k) != Candidate(base, n)
      {
        CandidatesDiffer(base, k, n);
      }
      assert Tried(base, n) == Tried(base, n - 1) + {Candidate(base, n)};
    }
  }

  lemma {:induction false} SubsetCount(a: set<string>, b: set<string>)
    requires a <= b
    ensures |a| <= |b|
  {
    if x :| x in a {
      SubsetCount(a - {x}, b - {x});
    }
  }

  /** The first `n` names cannot all be taken when fewer names are taken. */
  lemma Pigeonhole(base: string, taken: set<string>, n: nat)
    requires forall k | 1 <= k <= n :: Candidate(base, k) in taken
    ensures n <= |taken|
  {
    TriedCount(base, n);
    SubsetCount(Tried(base, n), taken);
  }

  /** The first free name; it is found after at most one try more than names are taken. */
  method UniqueServiceName(base: string, taken: set<string>) returns (name: string, ghost tries: nat)
    ensures name !in taken
    ensures name == Candidate(base, tries) && 1 <= tries <= |taken| + 1
    ensures forall k | 1 <= k < tries :: Candidate(base, k) in taken
  {
    if base !in taken { return base, 1; }
    var attempt := 2;
    Pigeonhole(base, taken, 1);
    while base + "-" + Decimal(attempt) in taken
      invariant 2 <= attempt <= |taken| + 1
      invariant forall k | 1 <= k < attempt :: Candidate(base, k) in taken
      decreases |taken| + 1 - attempt
    {
      assert Candidate(base, attempt) in taken;
      Pigeonhole(base, taken, attempt);
      attempt := attempt + 1;
    }
    return base + "-" + Decimal(attempt), attempt;
  }

  /** Which name that is does not depend on how it is searched for. */
  lemma FirstFreeIsUnique(base: string, taken: set<string>, j: nat, k: nat)
    requires 1 <= j && 1 <= k
    requires Candidate(base, j) !in taken && forall i | 1 <= i < j :: Candidate(base, i) in taken
    requires Candidate(base, k) !in taken && forall i | 1 <= i < k :: Candidate(base, i) in taken
    ensures j == k
  {
    assert j < k ==> Candidate(base, j) in taken;
    assert k < j ==> Candidate(base, k) in taken;
  }
}
