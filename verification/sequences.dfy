/**
 Ordering and membership facts about integer sequences, used to state what
 the posting-list algorithms compute. A Python `set` of document ids is
 modelled by a sequence read only through membership; `SortedSet` is the
 model of Python's `sorted(set(xs))`.
 */
module Sequences {

  /** Strictly increasing, hence also duplicate-free. */
  predicate Ascending(s: seq<int>) {
    forall i, j :: 0 <= i < j < |s| ==> s[i] < s[j]
  }

  /** No element occurs twice. */
  predicate Distinct<T(==)>(s: seq<T>) {
    forall i, j :: 0 <= i < j < |s| ==> s[i] != s[j]
  }

  /** `a` can be obtained from `b` by deleting elements. */
  predicate IsSubsequence<T(==)>(a: seq<T>, b: seq<T>)
    decreases |b|
  {
    if a == [] then true
    else if b == [] then false
    else (a[0] == b[0] && IsSubsequence(a[1..], b[1..])) || IsSubsequence(a, b[1..])
  }

  /** Inserts `x` into an ascending sequence unless it is already there. */
  function InsertAscending(x: int, s: seq<int>): (r: seq<int>)
    requires Ascending(s)
    ensures Ascending(r)
    ensures forall y :: y in r <==> y == x || y in s
    ensures r != [] && (r[0] == x || (s != [] && r[0] == s[0]))
  {
    if s == [] then [x]
    else if x < s[0] then [x] + s
    else if x == s[0] then s
    else
      var rest := InsertAscending(x, s[1..]);
      assert s[0] < rest[0] by {
        if rest[0] != x {
          assert s[0] < s[1];
        }
      }
      [s[0]] + rest
  }

  /** The ascending enumeration of the elements of `xs` (Python's `sorted(set(xs))`). */
  function SortedSet(xs: seq<int>): (r: seq<int>)
    ensures Ascending(r)
    ensures forall y :: y in r <==> y in xs
  {
    if xs == [] then [] else InsertAscending(xs[0], SortedSet(xs[1..]))
  }

  /** The elements of `a` that also occur in `b`, in the order of `a` (set intersection). */
  function Common(a: seq<int>, b: seq<int>): (r: seq<int>)
    ensures forall y :: y in r <==> y in a && y in b
  {
    if a == [] then []
    else if a[0] in b then [a[0]] + Common(a[1..], b)
    else Common(a[1..], b)
  }

  /** The elements of `a` that do not occur in `b`, in the order of `a` (set difference). */
  function Without(a: seq<int>, b: seq<int>): (r: seq<int>)
    ensures forall y :: y in r <==> y in a && y !in b
  {
    if a == [] then []
    else if a[0] in b then Without(a[1..], b)
    else [a[0]] + Without(a[1..], b)
  }

  /** An ascending sequence is determined by its elements. */
  lemma {:induction false} AscendingUnique(a: seq<int>, b: seq<int>)
    requires Ascending(a) && Ascending(b)
    requires forall x :: x in a <==> x in b
    ensures a == b
    decreases |a|
  {
    if a != [] {
      var a0 := a[0];
      assert a0 in a;
      assert a0 in b;
    }
    if b != [] {
      var b0 := b[0];
      assert b0 in b;
      assert b0 in a;
    }
    if a != [] {
      var a0, b0 := a[0], b[0];
      assert a0 in b && b0 in a;
      AscendingHeadIsLeast(a, b0);
      AscendingHeadIsLeast(b, a0);
      forall x | x in a[1..]
        ensures x in b[1..]
      {
        var k :| 1 <= k < |a| && a[k] == x;
        assert a0 < x;
        assert x in b;
        var j :| 0 <= j < |b| && b[j] == x;
        assert j != 0;
        assert b[1..][j - 1] == x;
      }
      forall x | x in b[1..]
        ensures x in a[1..]
      {
        var k :| 1 <= k < |b| && b[k] == x;
        assert b0 < x;
        assert x in a;
        var j :| 0 <= j < |a| && a[j] == x;
        assert j != 0;
        assert a[1..][j - 1] == x;
      }
      AscendingUnique(a[1..], b[1..]);
      assert a == [a0] + a[1..];
      assert b == [b0] + b[1..];
    }
  }

  /** The head of an ascending sequence is its least element. */
  lemma AscendingHeadIsLeast(s: seq<int>, x: int)
    requires Ascending(s) && x in s
    ensures s[0] <= x
  {
    var k :| 0 <= k < |s| && s[k] == x;
    if k > 0 {
      assert s[0] < s[k];
    }
  }

  /** An element other than the head occurs in the tail. */
  lemma InTail<T>(s: seq<T>, x: T)
    requires x in s && x != s[0]
    ensures x in s[1..]
  {
    var k :| 0 <= k < |s| && s[k] == x;
    assert s[1..][k - 1] == x;
  }

  /** Sorting the elements of an ascending sequence gives that sequence back. */
  lemma SortedSetOfAscending(s: seq<int>)
    requires Ascending(s)
    ensures SortedSet(s) == s
  {
    AscendingUnique(SortedSet(s), s);
  }

  /** Sequences with the same elements have the same sorted enumeration. */
  lemma SortedSetByElements(a: seq<int>, b: seq<int>)
    requires forall x :: x in a <==> x in b
    ensures SortedSet(a) == SortedSet(b)
  {
    AscendingUnique(SortedSet(a), SortedSet(b));
  }

  /** A subsequence keeps only elements of the longer sequence, and of an ascending one is ascending. */
  lemma {:induction false} SubsequenceAscending(a: seq<int>, b: seq<int>)
    requires IsSubsequence(a, b) && Ascending(b)
    ensures Ascending(a)
    ensures forall x :: x in a ==> x in b
    decreases |b|
  {
    if a != [] {
      assert b != [];
      if a[0] == b[0] && IsSubsequence(a[1..], b[1..]) {
        SubsequenceAscending(a[1..], b[1..]);
        forall i, j | 0 <= i < j < |a|
          ensures a[i] < a[j]
        {
          var aj := a[j];
          assert aj == a[1..][j - 1];
          assert aj in a[1..];
          assert aj in b[1..];
          var k :| 1 <= k < |b| && b[k] == aj;
          if i > 0 {
            assert a[i] == a[1..][i - 1];
          } else {
            assert b[0] < b[k];
          }
        }
        forall x | x in a
          ensures x in b
        {
          var k :| 0 <= k < |a| && a[k] == x;
          if k > 0 {
            assert a[1..][k - 1] == x;
            assert x in b[1..];
            var m :| 1 <= m < |b| && b[m] == x;
          } else {
            assert b[0] == x;
          }
        }
      } else {
        SubsequenceAscending(a, b[1..]);
        forall x | x in a
          ensures x in b
        {
          assert x in b[1..];
          var m :| 1 <= m < |b| && b[m] == x;
        }
      }
    }
  }
}
