/**
 Ordering facts about sequences of ids, and the ascending in-place sort the
 solver applies to the ids it collected (Collections.sort on an ArrayList).
 */
module Sorting {

  /** No id occurs twice. */
  predicate Distinct<T(==)>(s: seq<T>)
  {
    forall i, j :: 0 <= i < j < |s| ==> s[i] != s[j]
  }

  /** Non-decreasing order. */
  predicate Ascending(s: seq<int>)
  {
    forall i, j :: 0 <= i < j < |s| ==> s[i] <= s[j]
  }

  /** Increasing order: ascending with no id twice. */
  predicate StrictlyAscending(s: seq<int>)
  {
    forall i, j :: 0 <= i < j < |s| ==> s[i] < s[j]
  }

  /** Exchanges two slots of a. */
  method Swap(a: array<int>, i: int, j: int)
    requires 0 <= i < a.Length && 0 <= j < a.Length
    modifies a
    ensures a[i] == old(a[j]) && a[j] == old(a[i])
    ensures forall k :: 0 <= k < a.Length && k != i && k != j ==> a[k] == old(a[k])
    ensures multiset(a[..]) == old(multiset(a[..]))
  {
    a[i], a[j] := a[j], a[i];
  }

  /** Sorts a into ascending order in place, keeping its elements: an insertion
      sort standing in for the library sort, whose algorithm is not modelled. */
  method SortAscending(a: array<int>)
    modifies a
    ensures Ascending(a[..])
    ensures multiset(a[..]) == old(multiset(a[..]))
  {
    for i := 0 to a.Length
      invariant forall k, l :: 0 <= k < l < i ==> a[k] <= a[l]
      invariant multiset(a[..]) == old(multiset(a[..]))
    {
      var j := i;
      while j > 0 && a[j - 1] > a[j]
        invariant 0 <= j <= i
        invariant forall k, l :: 0 <= k < l <= i && k != j && l != j ==> a[k] <= a[l]
        invariant forall l :: j < l <= i ==> a[j] < a[l]
        invariant multiset(a[..]) == old(multiset(a[..]))
      {
        Swap(a, j - 1, j);
        j := j - 1;
      }
    }
  }

  /** A distinct sequence holds each id at most once. */
  lemma {:induction false} DistinctCount(s: seq<int>, x: int)
    requires Distinct(s)
    ensures multiset(s)[x] <= 1
  {
    if s != [] {
      var init := s[..|s| - 1];
      assert s == init + [s[|s| - 1]];
      assert Distinct(init);
      DistinctCount(init, x);
      if x == s[|s| - 1] {
        assert x !in init;
      }
    }
  }

  /** Reordering a sequence without duplicates creates none. */
  lemma DistinctPermutation(s: seq<int>, t: seq<int>)
    requires Distinct(s)
    requires multiset(s) == multiset(t)
    ensures Distinct(t)
  {
    forall i, j | 0 <= i < j < |t|
      ensures t[i] != t[j]
    {
      if t[i] == t[j] {
        var x := t[i];
        assert t == t[..j] + t[j..];
        assert x in t[..j] && x in t[j..];
        assert multiset(t)[x] == multiset(t[..j])[x] + multiset(t[j..])[x];
        DistinctCount(s, x);
        assert false;
      }
    }
  }

  /** There is one increasing sequence per set of ids: the sorted output does not
      depend on the order in which the ids were collected. */
  lemma {:induction false} StrictlyAscendingUnique(s: seq<int>, t: seq<int>)
    requires StrictlyAscending(s) && StrictlyAscending(t)
    requires forall x :: x in s <==> x in t
    ensures s == t
  {
    if s != [] {
      assert s[0] in s && s[0] in t;
    }
    if t != [] {
      assert t[0] in t && t[0] in s;
    }
    if s != [] && t != [] {
      assert s[0] == t[0];
      forall x
        ensures x in s[1..] <==> x in t[1..]
      {
        if x in s[1..] {
          assert x in t;
        }
        if x in t[1..] {
          assert x in s;
        }
      }
      StrictlyAscendingUnique(s[1..], t[1..]);
      assert s == [s[0]] + s[1..] && t == [t[0]] + t[1..];
    }
  }
}
