/** The probe for a free slug: base, base-2, base-3, ... until one is not taken. */
module Slugs {
  import opened Base

  function Candidate(base: string, n: nat): string {
    if n == 1 then base else base + "-" + Dec(n)
  }

  /** Different probes try different slugs. */
  lemma CandidatesDiffer(base: string, m: nat, n: nat)
    requires 1 <= m && 1 <= n && Candidate(base, m) == Candidate(base, n)
    ensures m == n
  {
    if m != 1 && n != 1 {
      var a, b := Candidate(base, m), Candidate(base, n);
      assert a[|base| + 1..] == Dec(m) && b[|base| + 1..] == Dec(n);
      DecInjective(m, n);
    }
  }

  /** The slugs a probe that reached number `n` has found taken. */
  function Tried(base: string, n: nat): set<string> {
    set k | 1 <= k < n :: Candidate(base, k)
  }

  lemma {:induction false} TriedSize(base: string, n: nat)
    requires n >= 1
    ensures |Tried(base, n)| == n - 1
  {
    if n == 1 {
      assert Tried(base, 1) == {};
    } else {
      TriedSize(base, n - 1);
      assert Tried(base, n) == Tried(base, n - 1) + {Candidate(base, n - 1)};
      if Candidate(base, n - 1) in Tried(base, n - 1) {
        var k :| 1 <= k < n - 1 && Candidate(base, k) == Candidate(base, n - 1);
        CandidatesDiffer(base, k, n - 1);
      }
    }
  }

  /** Pigeonhole: distinct candidates that are all taken are no more than the taken slugs. */
  lemma TriedFits(base: string, n: nat, taken: set<string>)
    requires n >= 1 && Tried(base, n) <= taken
    ensures n - 1 <= |taken|
  {
    TriedSize(base, n);
    assert taken == Tried(base, n) + (taken - Tried(base, n));
  }

  /** `slug` is the first candidate that is free. */
  ghost predicate FirstFree(base: string, taken: set<string>, n: nat, slug: string) {
    && 1 <= n <= |taken| + 1
    && slug == Candidate(base, n)
    && slug !in taken
    && forall k :: 1 <= k < n ==> Candidate(base, k) in taken
  }

  /** The number of the first free candidate, from a probe that has got to `n`. */
  function FreeNumber(base: string, taken: set<string>, n: nat): (free: nat)
    requires n >= 1 && Tried(base, n) <= taken
    ensures FirstFree(base, taken, free, Candidate(base, free))
    decreases |taken| + 1 - n
  {
    TriedFits(base, n, taken);
    if Candidate(base, n) in taken then
      assert Tried(base, n + 1) == Tried(base, n) + {Candidate(base, n)};
      TriedFits(base, n + 1, taken);
      FreeNumber(base, taken, n + 1)
    else
      assert forall k :: 1 <= k < n ==> Candidate(base, k) in Tried(base, n);
      n
  }

  function FreeSlug(base: string, taken: set<string>): (slug: string)
    ensures slug !in taken
  {
    assert Tried(base, 1) == {};
    Candidate(base, FreeNumber(base, taken, 1))
  }

  /** The loop makes at most one look-up more than there are slugs and stops at the first free one. */
  method UniqueSlug(base: string, taken: set<string>) returns (candidate: string, lookups: nat)
    ensures FirstFree(base, taken, lookups, candidate)
    ensures lookups == 1 <==> base !in taken
    ensures candidate == if lookups == 1 then base else base + "-" + Dec(lookups)
    ensures forall k :: 2 <= k < lookups ==> base + "-" + Dec(k) in taken
    ensures candidate == FreeSlug(base, taken)
  {
    candidate := base;
    var n := 1;
    TriedFits(base, 1, taken);
    while candidate in taken
      invariant 1 <= n <= |taken| + 1 && candidate == Candidate(base, n)
      invariant forall k :: 1 <= k < n ==> Candidate(base, k) in taken
      decreases |taken| + 1 - n
    {
      n := n + 1;
      candidate := base + "-" + Dec(n);
      TriedFits(base, n, taken);
    }
    lookups := n;
    assert 1 < n ==> Candidate(base, 1) in taken;
    assert forall k :: 2 <= k < n ==> Candidate(base, k) in taken && Candidate(base, k) == base + "-" + Dec(k);
    assert Tried(base, 1) == {};
    FirstFreeIsUnique(base, taken, n, candidate, FreeNumber(base, taken, 1), FreeSlug(base, taken));
  }

  /** There is only one first free slug, so the allocation is a function of the taken ones. */
  lemma FirstFreeIsUnique(base: string, taken: set<string>, m: nat, a: string, n: nat, b: string)
    requires FirstFree(base, taken, m, a) && FirstFree(base, taken, n, b)
    ensures m == n && a == b
  {
    assert m < n ==> Candidate(base, m) in taken;
    assert n < m ==> Candidate(base, n) in taken;
  }
}
