/** Ascending order on integers: `sorted(...)` of a set of keys and of a
    list of integers, as the scripts use it for dictionary keys and
    pointer-location lists. */
module Ordering {

  predicate Ascending(s: seq<int>)
  {
    forall i, j :: 0 <= i < j < |s| ==> s[i] <= s[j]
  }

  predicate StrictlyIncreasing(s: seq<int>)
  {
    forall i, j :: 0 <= i < j < |s| ==> s[i] < s[j]
  }

  /** No value occurs twice. */
  predicate Distinct(s: seq<int>)
  {
    forall i, j :: 0 <= i < j < |s| ==> s[i] != s[j]
  }

  /** `v` placed after every element not larger than it. */
  function InsertInt(v: int, s: seq<int>): seq<int>
  {
    if s == [] then [v]
    else if v < s[0] then [v] + s
    else [s[0]] + InsertInt(v, s[1..])
  }

  lemma {:induction false} InsertIntElements(v: int, s: seq<int>)
    ensures multiset(InsertInt(v, s)) == multiset(s) + multiset{v}
    ensures forall y :: y in InsertInt(v, s) ==> y == v || y in s
  {
    if s != [] && v >= s[0] {
      InsertIntElements(v, s[1..]);
      assert s == [s[0]] + s[1..];
    }
  }

  lemma {:induction false} InsertIntSorted(v: int, s: seq<int>)
    requires Ascending(s)
    ensures Ascending(InsertInt(v, s))
  {
    if s == [] {
    } else if v < s[0] {
      var r := [v] + s;
      forall i, j | 0 <= i < j < |r| ensures r[i] <= r[j] {
        assert r[j] == s[j - 1];
        if i > 0 { assert r[i] == s[i - 1]; } else { assert s[0] <= s[j - 1]; }
      }
    } else {
      var rest := InsertInt(v, s[1..]);
      InsertIntSorted(v, s[1..]);
      InsertIntElements(v, s[1..]);
      forall y | y in rest ensures y >= s[0] {
        if y != v {
          var k :| 0 <= k < |s[1..]| && s[1..][k] == y;
          assert s[k + 1] == y;
        }
      }
      var r := [s[0]] + rest;
      forall i, j | 0 <= i < j < |r| ensures r[i] <= r[j] {
        assert r[j] == rest[j - 1];
        assert r[j] in rest;
        if i > 0 { assert r[i] == rest[i - 1]; }
      }
    }
  }

  /** `sorted(s)` for a list of integers. */
  function SortInts(s: seq<int>): seq<int>
  {
    if s == [] then [] else InsertInt(s[|s| - 1], SortInts(s[..|s| - 1]))
  }

  /** The sorted list is ascending and a permutation of the input. */
  lemma {:induction false} SortIntsSorted(s: seq<int>)
    ensures Ascending(SortInts(s))
    ensures multiset(SortInts(s)) == multiset(s)
  {
    if s != [] {
      var p := s[..|s| - 1];
      SortIntsSorted(p);
      InsertIntSorted(s[|s| - 1], SortInts(p));
      InsertIntElements(s[|s| - 1], SortInts(p));
      assert s == p + [s[|s| - 1]];
    }
  }

  /** A value that occurs at most once in a distinct list. */
  lemma {:induction false} DistinctCount(s: seq<int>, x: int)
    requires Distinct(s)
    ensures multiset(s)[x] <= 1
  {
    if s != [] {
      DistinctCount(s[1..], x);
      assert s == [s[0]] + s[1..];
      if s[0] == x {
        assert x !in s[1..];
      }
    }
  }

  /** A permutation of a distinct list is distinct. */
  lemma DistinctPermutation(a: seq<int>, b: seq<int>)
    requires multiset(a) == multiset(b) && Distinct(b)
    ensures Distinct(a)
  {
    forall i, j | 0 <= i < j < |a| ensures a[i] != a[j] {
      if a[i] == a[j] {
        var x := a[i];
        assert a == a[..j] + [a[j]] + a[j + 1..];
        assert x in a[..j];
        assert multiset(a[..j])[x] >= 1;
        assert multiset(a)[x] >= 2;
        DistinctCount(b, x);
        assert false;
      }
    }
  }

  /** Sorting a distinct list gives a strictly increasing one. */
  lemma SortIntsDistinct(s: seq<int>)
    requires Distinct(s)
    ensures StrictlyIncreasing(SortInts(s))
  {
    SortIntsSorted(s);
    DistinctPermutation(SortInts(s), s);
  }
}
