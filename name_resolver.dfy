/**
 * The duplicate-name policy of handle_client (TCPserver.c:20-26): the server stores an
 * incoming file as "./name" and, while that path exists, tries "./name(1)", "./name(2)", ...
 * The working directory's namespace is a finite set of paths; `access(p, F_OK) == 0` is
 * membership in it.
 */
module NameResolver {

  /** The decimal digit character for d, as `%d` prints it. */
  function DigitChar(d: nat): char
    requires d < 10
  {
    ('0' as int + d) as char
  }

  predicate IsDigits(s: string)
  {
    forall i :: 0 <= i < |s| ==> '0' <= s[i] <= '9'
  }

  /** `%d` of a non-negative integer: its decimal digits, most significant first. */
  function Decimal(n: nat): (s: string)
    ensures |s| >= 1 && IsDigits(s)
  {
    if n < 10 then [DigitChar(n)] else Decimal(n / 10) + [DigitChar(n % 10)]
  }

  /** The number a string of decimal digits denotes. */
  function DecimalValue(s: string): nat
    requires IsDigits(s)
  {
    if s == [] then 0 else DecimalValue(s[..|s| - 1]) * 10 + (s[|s| - 1] as int - '0' as int)
  }

  /** Reading back what `%d` printed gives the number. */
  lemma {:induction false} DecimalRoundTrip(n: nat)
    ensures DecimalValue(Decimal(n)) == n
  {
    if n >= 10 {
      var s := Decimal(n);
      assert s[..|s| - 1] == Decimal(n / 10);
      DecimalRoundTrip(n / 10);
    }
  }

  /** Distinct suffixes print differently. */
  lemma DecimalInjective(m: nat, n: nat)
    requires Decimal(m) == Decimal(n)
    ensures m == n
  {
    DecimalRoundTrip(m);
    DecimalRoundTrip(n);
  }

  /** "./" + name: the first path tried (TCPserver.c:22). */
  function BasePath(name: string): string
  {
    "./" + name
  }

  /** "./" + name + "(" + k + ")": the path tried for suffix k (TCPserver.c:25). */
  function Candidate(name: string, k: nat): string
  {
    "./" + name + "(" + Decimal(k) + ")"
  }

  /** Different suffixes give different candidate paths, so the search never revisits one. */
  lemma CandidateInjective(name: string, j: nat, k: nat)
    requires Candidate(name, j) == Candidate(name, k)
    ensures j == k
  {
    var start := |name| + 3;
    var cj, ck := Candidate(name, j), Candidate(name, k);
    assert cj[start..|cj| - 1] == Decimal(j);
    assert ck[start..|ck| - 1] == Decimal(k);
    DecimalInjective(j, k);
  }

  /** The bare path is shorter than every suffixed one. */
  lemma BaseIsNoCandidate(name: string, k: nat)
    ensures BasePath(name) != Candidate(name, k)
  {
    assert |Candidate(name, k)| > |BasePath(name)|;
  }

  /** The candidates with suffixes 1..n. */
  function CandidatesUpTo(name: string, n: nat): set<string>
  {
    set k | 1 <= k <= n :: Candidate(name, k)
  }

  /** There are exactly n candidates with suffixes 1..n. */
  lemma {:induction false} CandidatesUpToSize(name: string, n: nat)
    ensures |CandidatesUpTo(name, n)| == n
  {
    if n == 0 {
      assert CandidatesUpTo(name, 0) == {};
    } else {
      CandidatesUpToSize(name, n - 1);
      var c := Candidate(name, n);
      assert CandidatesUpTo(name, n) == CandidatesUpTo(name, n - 1) + {c};
      if c in CandidatesUpTo(name, n - 1) {
        var k :| 1 <= k <= n - 1 && Candidate(name, k) == c;
        CandidateInjective(name, k, n);
      }
    }
  }

  lemma SubsetSize<T>(a: set<T>, b: set<T>)
    requires a <= b
    ensures |a| <= |b|
  {
    assert b == a + (b - a);
  }

  /**
   * When "./name" and the candidates 1..n all exist, the namespace holds at least n + 1
   * paths: the suffix counter never passes the number of existing files.
   */
  lemma ExistingCandidatesBound(existing: set<string>, name: string, n: nat)
    requires forall k :: 1 <= k <= n ==> Candidate(name, k) in existing
    ensures n <= |existing|
    ensures BasePath(name) in existing ==> n < |existing|
  {
    CandidatesUpToSize(name, n);
    SubsetSize(CandidatesUpTo(name, n), existing);
    if BasePath(name) in existing {
      forall k | 1 <= k <= n
        ensures BasePath(name) != Candidate(name, k)
      {
        BaseIsNoCandidate(name, k);
      }
      assert BasePath(name) !in CandidatesUpTo(name, n);
      SubsetSize(CandidatesUpTo(name, n) + {BasePath(name)}, existing);
    }
  }

  /** The first candidate from suffix k on that is absent from the namespace. */
  function FirstFreeCandidate(existing: set<string>, name: string, k: nat): string
    requires 1 <= k
    requires forall j :: 1 <= j < k ==> Candidate(name, j) in existing
    decreases |existing| - (k - 1)
  {
    if Candidate(name, k) !in existing then Candidate(name, k)
    else
      ExistingCandidatesBound(existing, name, k);
      FirstFreeCandidate(existing, name, k + 1)
  }

  /** The path handle_client stores the file under. */
  function Resolved(existing: set<string>, name: string): string
  {
    if BasePath(name) !in existing then BasePath(name) else FirstFreeCandidate(existing, name, 1)
  }

  lemma {:induction false} FirstFreeCandidateIsFree(existing: set<string>, name: string, k: nat)
    requires 1 <= k
    requires forall j :: 1 <= j < k ==> Candidate(name, j) in existing
    ensures FirstFreeCandidate(existing, name, k) !in existing
    decreases |existing| - (k - 1)
  {
    if Candidate(name, k) in existing {
      ExistingCandidatesBound(existing, name, k);
      FirstFreeCandidateIsFree(existing, name, k + 1);
    }
  }

  lemma {:induction false} FirstFreeCandidateIs(existing: set<string>, name: string, k: nat, m: nat)
    requires 1 <= k <= m
    requires forall j :: 1 <= j < m ==> Candidate(name, j) in existing
    requires Candidate(name, m) !in existing
    ensures FirstFreeCandidate(existing, name, k) == Candidate(name, m)
    decreases m - k
  {
    if k < m {
      FirstFreeCandidateIs(existing, name, k + 1, m);
    }
  }

  /** The resolved path never names an existing file: nothing is overwritten. */
  lemma ResolvedIsFree(existing: set<string>, name: string)
    ensures Resolved(existing, name) !in existing
  {
    if BasePath(name) in existing {
      FirstFreeCandidateIsFree(existing, name, 1);
    }
  }

  /**
   * When "./name" exists, the resolved path is "./name(k)" for the smallest k >= 1 whose
   * candidate is absent: every "./name(1)" .. "./name(k-1)" exists, and k is at most the
   * number of existing files.
   */
  lemma {:induction false} ResolvedIsSmallestSuffix(existing: set<string>, name: string) returns (k: nat)
    requires BasePath(name) in existing
    ensures 1 <= k <= |existing|
    ensures Resolved(existing, name) == Candidate(name, k) && Candidate(name, k) !in existing
    ensures forall j :: 1 <= j < k ==> Candidate(name, j) in existing
  {
    k := 1;
    while Candidate(name, k) in existing
      invariant 1 <= k
      invariant forall j :: 1 <= j < k ==> Candidate(name, j) in existing
      decreases |existing| - (k - 1)
    {
      ExistingCandidatesBound(existing, name, k);
      k := k + 1;
    }
    ExistingCandidatesBound(existing, name, k - 1);
    FirstFreeCandidateIs(existing, name, 1, k);
  }

  /** Any suffix with that property is the one chosen. */
  lemma ResolvedUnique(existing: set<string>, name: string, k: nat)
    requires BasePath(name) in existing && 1 <= k
    requires forall j :: 1 <= j < k ==> Candidate(name, j) in existing
    requires Candidate(name, k) !in existing
    ensures Resolved(existing, name) == Candidate(name, k)
  {
    FirstFreeCandidateIs(existing, name, 1, k);
  }

  /**
   * The loop of TCPserver.c:22-26: start from "./name" and, while the path exists, rebuild it
   * with the post-incremented suffix.
   */
  method Resolve(existing: set<string>, name: string) returns (path: string)
    ensures path == Resolved(existing, name)
    ensures path !in existing
    ensures BasePath(name) !in existing ==> path == BasePath(name)
  {
    path := BasePath(name);
    var suffix := 1;
    while path in existing
      invariant 1 <= suffix
      invariant suffix == 1 ==> path == BasePath(name)
      invariant suffix > 1 ==> BasePath(name) in existing && path == Candidate(name, suffix - 1)
      invariant forall j :: 1 <= j < suffix - 1 ==> Candidate(name, j) in existing
      decreases |existing| - (suffix - 1)
    {
      if suffix > 1 {
        ExistingCandidatesBound(existing, name, suffix - 1);
      }
      path := Candidate(name, suffix);
      suffix := suffix + 1;
    }
    if suffix > 1 {
      ResolvedUnique(existing, name, suffix - 1);
    }
  }
}
