/** `orderBy` over rows selected by id: the unique strictly sorted list of the selection. */
module Sorting {

  type Keys = seq<(int, int)>

  predicate Less(keys: Keys, a: nat, b: nat)
    requires a < |keys| && b < |keys|
  {
    keys[a].0 < keys[b].0 || (keys[a].0 == keys[b].0 && keys[a].1 < keys[b].1)
  }

  predicate InRange(keys: Keys, s: seq<nat>) {
    forall i :: 0 <= i < |s| ==> s[i] < |keys|
  }

  predicate Sorted(keys: Keys, s: seq<nat>)
    requires InRange(keys, s)
  {
    forall i, j :: 0 <= i < j < |s| ==> Less(keys, s[i], s[j])
  }

  predicate DistinctOn(keys: Keys, selected: set<nat>) {
    forall a, b :: a in selected && b in selected && a < |keys| && b < |keys| && a != b ==> keys[a] != keys[b]
  }

  /** `s` lists the selection, in strictly increasing key order. */
  ghost predicate Lists(keys: Keys, selected: set<nat>, s: seq<nat>) {
    InRange(keys, s) && Sorted(keys, s) && forall x: nat :: x in s <==> x in selected
  }

  function Insert(keys: Keys, s: seq<nat>, x: nat): seq<nat>
    requires InRange(keys, s) && x < |keys|
  {
    if s == [] || Less(keys, x, s[0]) then [x] + s else [s[0]] + Insert(keys, s[1..], x)
  }

  lemma {:induction false} InsertMembers(keys: Keys, s: seq<nat>, x: nat)
    requires InRange(keys, s) && x < |keys|
    ensures InRange(keys, Insert(keys, s, x))
    ensures forall y: nat :: y in Insert(keys, s, x) <==> y in s || y == x
  {
    if s != [] && !Less(keys, x, s[0]) {
      InsertMembers(keys, s[1..], x);
      assert s == [s[0]] + s[1..];
    }
  }

  lemma TailSorted(keys: Keys, s: seq<nat>)
    requires InRange(keys, s) && Sorted(keys, s) && s != []
    ensures Sorted(keys, s[1..])
    ensures forall y :: y in s[1..] ==> Less(keys, s[0], y)
  {
    forall y | y in s[1..]
      ensures Less(keys, s[0], y)
    {
      var i :| 0 <= i < |s| - 1 && s[1..][i] == y;
      assert s[i + 1] == y;
    }
  }

  lemma ConsSorted(keys: Keys, x: nat, s: seq<nat>)
    requires InRange(keys, s) && Sorted(keys, s) && x < |keys|
    requires forall y :: y in s ==> Less(keys, x, y)
    ensures InRange(keys, [x] + s) && Sorted(keys, [x] + s)
  {
    assert forall i :: 0 <= i < |s| ==> s[i] in s;
  }

  lemma {:induction false} InsertSorts(keys: Keys, s: seq<nat>, x: nat)
    requires InRange(keys, s) && Sorted(keys, s) && x < |keys|
    requires forall y :: y in s ==> y < |keys| && keys[y] != keys[x]
    ensures InRange(keys, Insert(keys, s, x)) && Sorted(keys, Insert(keys, s, x))
  {
    InsertMembers(keys, s, x);
    if s == [] {
    } else {
      TailSorted(keys, s);
      assert s[0] in s && s == [s[0]] + s[1..];
      if Less(keys, x, s[0]) {
        ConsSorted(keys, x, s);
      } else {
        InsertSorts(keys, s[1..], x);
        InsertMembers(keys, s[1..], x);
        ConsSorted(keys, s[0], Insert(keys, s[1..], x));
      }
    }
  }

  /** Rows below `n` in the selection, sorted. */
  function SortUpTo(keys: Keys, selected: set<nat>, n: nat): (s: seq<nat>)
    requires n <= |keys|
    ensures InRange(keys, s)
  {
    if n == 0 then []
    else
      var rest := SortUpTo(keys, selected, n - 1);
      if n - 1 in selected then InsertMembers(keys, rest, n - 1); Insert(keys, rest, n - 1) else rest
  }

  function Sort(keys: Keys, selected: set<nat>): seq<nat> {
    SortUpTo(keys, selected, |keys|)
  }

  lemma {:induction false} SortUpToLists(keys: Keys, selected: set<nat>, n: nat)
    requires n <= |keys| && DistinctOn(keys, selected)
    ensures Sorted(keys, SortUpTo(keys, selected, n))
    ensures forall x: nat :: x in SortUpTo(keys, selected, n) <==> x in selected && x < n
  {
    if n > 0 {
      SortUpToLists(keys, selected, n - 1);
      if n - 1 in selected {
        InsertSorts(keys, SortUpTo(keys, selected, n - 1), n - 1);
        InsertMembers(keys, SortUpTo(keys, selected, n - 1), n - 1);
      }
    }
  }

  lemma SortLists(keys: Keys, selected: set<nat>)
    requires DistinctOn(keys, selected) && forall x :: x in selected ==> x < |keys|
    ensures Lists(keys, selected, Sort(keys, selected))
  {
    SortUpToLists(keys, selected, |keys|);
  }

  lemma TailLists(keys: Keys, selected: set<nat>, s: seq<nat>)
    requires Lists(keys, selected, s) && s != []
    ensures Lists(keys, selected - {s[0]}, s[1..])
    ensures forall y :: y in s[1..] ==> Less(keys, s[0], y)
  {
    TailSorted(keys, s);
    assert s == [s[0]] + s[1..];
  }

  lemma {:induction false} ListingLength(keys: Keys, selected: set<nat>, s: seq<nat>)
    requires Lists(keys, selected, s)
    ensures |s| == |selected|
    decreases |s|
  {
    if s == [] {
      assert selected == {};
    } else {
      TailLists(keys, selected, s);
      ListingLength(keys, selected - {s[0]}, s[1..]);
      assert s[0] in s;
    }
  }

  /** A strict order leaves no choice: two sorted lists of one selection are the same list. */
  lemma {:induction false} ListingIsUnique(keys: Keys, selected: set<nat>, s: seq<nat>, t: seq<nat>)
    requires Lists(keys, selected, s) && Lists(keys, selected, t)
    ensures s == t
    decreases |s|
  {
    ListingLength(keys, selected, s);
    ListingLength(keys, selected, t);
    if s != [] {
      assert s[0] in s && s[0] in t;
      assert t[0] in t && t[0] in s;
      TailLists(keys, selected, s);
      TailLists(keys, selected, t);
      assert s == [s[0]] + s[1..] && t == [t[0]] + t[1..];
      assert s[0] == t[0];
      ListingIsUnique(keys, selected - {s[0]}, s[1..], t[1..]);
    }
  }
}
