/**
 * Descending sort by a natural-number key, standing for the `sort.Slice`
 * calls of the read path, which order span names by their last-written
 * timestamp and entries by their last-seen time, most recent first.
 * `sort.Slice` is not stable, so callers rely only on the two facts proved
 * here: the result is sorted and it is a permutation of the input.
 */
module Sorting {

  /** Every element is at least as recent (by `key`) as every later one. */
  predicate SortedDesc<T>(s: seq<T>, key: T -> nat)
  {
    forall i, j | 0 <= i < j < |s| :: key(s[i]) >= key(s[j])
  }

  /** Inserts `x` in front of the first element whose key is not larger. */
  function Insert<T>(x: T, s: seq<T>, key: T -> nat): (r: seq<T>)
    ensures multiset(r) == multiset(s) + multiset{x}
    ensures |r| == |s| + 1
  {
    if s == [] then [x]
    else if key(x) >= key(s[0]) then [x] + s
    else
      assert s == [s[0]] + s[1..];
      [s[0]] + Insert(x, s[1..], key)
  }

  /** Every element of `Insert(x, s, key)` is `x` or an element of `s`, and conversely. */
  lemma InsertMembers<T>(x: T, s: seq<T>, key: T -> nat)
    ensures forall y :: y in Insert(x, s, key) <==> y == x || y in s
  {
    var r := Insert(x, s, key);
    forall y ensures y in r <==> y == x || y in s {
      assert y in r <==> y in multiset(r);
      assert y in s <==> y in multiset(s);
    }
  }

  /** Inserting into a sorted sequence keeps it sorted. */
  lemma {:induction false} InsertSorted<T>(x: T, s: seq<T>, key: T -> nat)
    requires SortedDesc(s, key)
    ensures SortedDesc(Insert(x, s, key), key)
  {
    if s != [] && key(x) < key(s[0]) {
      var t := s[1..];
      assert SortedDesc(t, key);
      InsertSorted(x, t, key);
      var rest := Insert(x, t, key);
      forall m | 0 <= m < |t| ensures key(s[0]) >= key(t[m]) {
        assert t[m] == s[m + 1];
      }
      forall k | 0 <= k < |rest| ensures key(s[0]) >= key(rest[k]) {
        var y := rest[k];
        assert y in multiset(rest);
        assert y == x || y in multiset(t);
        if y != x {
          var m :| 0 <= m < |t| && t[m] == y;
        }
      }
    }
  }

  /** Insertion sort, most recent first: sorted, and a permutation of `s`. */
  function SortDesc<T>(s: seq<T>, key: T -> nat): (r: seq<T>)
    ensures SortedDesc(r, key)
    ensures multiset(r) == multiset(s)
    ensures |r| == |s|
  {
    if s == [] then []
    else
      assert s == [s[0]] + s[1..];
      var rest := SortDesc(s[1..], key);
      InsertSorted(s[0], rest, key);
      Insert(s[0], rest, key)
  }

  /** A sequence without repeated elements. */
  predicate Distinct<T(==)>(s: seq<T>)
  {
    forall i, j | 0 <= i < j < |s| :: s[i] != s[j]
  }

  /** Inserting a new element into a distinct sequence keeps it distinct. */
  lemma {:induction false} InsertDistinct<T>(x: T, s: seq<T>, key: T -> nat)
    requires Distinct(s) && x !in s
    ensures Distinct(Insert(x, s, key))
  {
    if s != [] && key(x) < key(s[0]) {
      var t := s[1..];
      assert Distinct(t);
      forall m | 0 <= m < |t| ensures t[m] != s[0] {
        assert t[m] == s[m + 1];
      }
      InsertDistinct(x, t, key);
      InsertMembers(x, t, key);
      var rest := Insert(x, t, key);
      assert x != s[0];
      forall k | 0 <= k < |rest| ensures rest[k] != s[0] {
        assert rest[k] in rest;
      }
      assert Insert(x, s, key) == [s[0]] + rest;
    }
  }

  /** Sorting a distinct sequence keeps it distinct and keeps its elements. */
  lemma {:induction false} SortDescKeepsDistinct<T>(s: seq<T>, key: T -> nat)
    requires Distinct(s)
    ensures Distinct(SortDesc(s, key))
    ensures forall x :: x in SortDesc(s, key) <==> x in s
  {
    if s != [] {
      var t := s[1..];
      assert s == [s[0]] + t;
      assert Distinct(t);
      SortDescKeepsDistinct(t, key);
      var rest := SortDesc(t, key);
      forall m | 0 <= m < |t| ensures t[m] != s[0] {
        assert t[m] == s[m + 1];
      }
      assert s[0] !in rest;
      InsertDistinct(s[0], rest, key);
      InsertMembers(s[0], rest, key);
    }
  }

  /** In a distinct sequence an element does not occur before its own position. */
  lemma DistinctNotBefore<T>(s: seq<T>, j: nat)
    requires Distinct(s) && j < |s|
    ensures s[j] !in s[..j]
  {
    forall k | 0 <= k < j ensures s[..j][k] != s[j] { }
  }

  /** A distinct sequence drawn from `ks` is no longer than `ks` has elements. */
  lemma {:induction false} DistinctWithin<T>(s: seq<T>, ks: set<T>)
    requires Distinct(s) && forall x | x in s :: x in ks
    ensures |s| <= |ks|
  {
    if s != [] {
      var t := s[1..];
      forall m | 0 <= m < |t| ensures t[m] != s[0] {
        assert t[m] == s[m + 1];
      }
      forall x | x in t ensures x in ks - {s[0]} {
        var m :| 0 <= m < |t| && t[m] == x;
      }
      DistinctWithin(t, ks - {s[0]});
    }
  }
}
