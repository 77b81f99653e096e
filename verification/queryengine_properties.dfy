/**
 Properties of the query evaluator: correctness of the merge intersection,
 of the multi-way AND and of negation, the outcome of each flat-path
 operator, and closed forms of the tree path as the source computes it.
 */
module QueryEngineProperties {
  import opened Wrappers
  import opened Sequences
  import opened QueryParser
  import opened QueryEngine

  /**
   Document `d` is selected by term id `t`: a positive id selects the documents
   of its postings; a non-positive id `-u` selects the loaded documents that do
   not contain term `u` (all of them when `u` has no postings). This is the
   reference meaning that `Negate` is proved to compute.
   */
  predicate Selects(ix: Index, t: int, d: int)
  {
    if t > 0 then t in ix.postings && d in ix.postings[t]
    else d in ix.documents && (-t in ix.postings ==> d !in ix.postings[-t])
  }

  /** Document `d` is selected by every id of `ts`. */
  predicate SelectedByAll(ix: Index, ts: seq<int>, d: int)
  {
    forall i :: 0 <= i < |ts| ==> Selects(ix, ts[i], d)
  }

  /** Document `d` is selected by some id of `ts`. */
  predicate SelectedBySome(ix: Index, ts: seq<int>, d: int)
  {
    exists i :: 0 <= i < |ts| && Selects(ix, ts[i], d)
  }

  /** A signed id whose list is ascending: a known id, or the negation of one. */
  predicate ProperId(ix: Index, t: int)
  {
    t != 0 && (if t > 0 then t in ix.postings else -t in ix.postings)
  }

  // ---------------------------------------------------------------------------
  // Merge intersection and negation
  // ---------------------------------------------------------------------------

  /** On ascending inputs `_intersect_two` returns exactly the common elements, ascending. */
  lemma {:induction false} IntersectTwoCommon(p1: seq<int>, p2: seq<int>)
    requires Ascending(p1) && Ascending(p2)
    ensures Ascending(IntersectTwo(p1, p2))
    ensures forall x :: x in IntersectTwo(p1, p2) <==> x in p1 && x in p2
    decreases |p1| + |p2|
  {
    var r := IntersectTwo(p1, p2);
    SubsequenceAscending(r, p1);
    SubsequenceAscending(r, p2);
    if p1 != [] && p2 != [] {
      if p1[0] == p2[0] {
        IntersectTwoCommon(p1[1..], p2[1..]);
        forall x | x in p1 && x in p2
          ensures x in r
        {
          if x != p1[0] {
            InTail(p1, x);
            InTail(p2, x);
          }
        }
      } else if p1[0] < p2[0] {
        IntersectTwoCommon(p1[1..], p2);
        forall x | x in p1 && x in p2
          ensures x in r
        {
          AscendingHeadIsLeast(p2, x);
          InTail(p1, x);
        }
      } else {
        IntersectTwoCommon(p1, p2[1..]);
        forall x | x in p1 && x in p2
          ensures x in r
        {
          AscendingHeadIsLeast(p1, x);
          InTail(p2, x);
        }
      }
    }
  }

  /**
   Negation is an involution on a known term whose postings lie within the
   document ids: complementing its complement gives the postings back.
   */
  lemma NegationInvolution(ix: Index, t: int)
    requires Valid(ix) && t in ix.postings
    requires forall d :: d in ix.postings[t] ==> d in ix.documents
    ensures SortedSet(Without(ix.documents, Negate(ix, t))) == ix.postings[t]
  {
    AscendingUnique(SortedSet(Without(ix.documents, Negate(ix, t))), ix.postings[t]);
  }

  // ---------------------------------------------------------------------------
  // Multi-way intersection
  // ---------------------------------------------------------------------------

  /** The list of a proper id resolves without error, is ascending, and holds what it selects. */
  lemma ProperIdList(ix: Index, t: int)
    requires Valid(ix) && ProperId(ix, t)
    ensures ResolvedList(ix, t).Success?
    ensures Ascending(ResolvedList(ix, t).value)
    ensures forall d :: d in ResolvedList(ix, t).value <==> Selects(ix, t, d)
  {
  }

  /** Selection by all ids depends only on which ids occur. */
  lemma SelectionBySameIds(ix: Index, a: seq<int>, b: seq<int>)
    requires forall x :: x in a <==> x in b
    ensures forall d :: SelectedByAll(ix, a, d) <==> SelectedByAll(ix, b, d)
    ensures forall d :: SelectedBySome(ix, a, d) <==> SelectedBySome(ix, b, d)
  {
    forall d | SelectedByAll(ix, a, d)
      ensures SelectedByAll(ix, b, d)
    {
      forall i | 0 <= i < |b|
        ensures Selects(ix, b[i], d)
      {
        var bi := b[i];
        assert bi in b;
        var k :| 0 <= k < |a| && a[k] == bi;
      }
    }
    forall d | SelectedByAll(ix, b, d)
      ensures SelectedByAll(ix, a, d)
    {
      forall i | 0 <= i < |a|
        ensures Selects(ix, a[i], d)
      {
        var ai := a[i];
        assert ai in a;
        var k :| 0 <= k < |b| && b[k] == ai;
      }
    }
    forall d | SelectedBySome(ix, a, d)
      ensures SelectedBySome(ix, b, d)
    {
      var i :| 0 <= i < |a| && Selects(ix, a[i], d);
      var ai := a[i];
      assert ai in a;
      var k :| 0 <= k < |b| && b[k] == ai;
    }
    forall d | SelectedBySome(ix, b, d)
      ensures SelectedBySome(ix, a, d)
    {
      var i :| 0 <= i < |b| && Selects(ix, b[i], d);
      var bi := b[i];
      assert bi in b;
      var k :| 0 <= k < |a| && a[k] == bi;
    }
  }

  /** Splitting selection-by-all at the head. */
  lemma SelectedByAllCons(ix: Index, ts: seq<int>, d: int)
    requires ts != []
    ensures SelectedByAll(ix, ts, d) <==> Selects(ix, ts[0], d) && SelectedByAll(ix, ts[1..], d)
  {
    if Selects(ix, ts[0], d) && SelectedByAll(ix, ts[1..], d) {
      forall i | 0 <= i < |ts|
        ensures Selects(ix, ts[i], d)
      {
        if i > 0 {
          assert ts[i] == ts[1..][i - 1];
        }
      }
    }
    if SelectedByAll(ix, ts, d) {
      forall i | 0 <= i < |ts[1..]|
        ensures Selects(ix, ts[1..][i], d)
      {
        assert ts[1..][i] == ts[i + 1];
      }
    }
  }
  /** Ids that resolution can produce, or that `_intersect` can be given safely. */
  predicate ProperOrZero(ix: Index, ts: seq<int>)
  {
    forall i :: 0 <= i < |ts| ==> ts[i] == 0 || ProperId(ix, ts[i])
  }

  /** The tail of a sequence holds only elements of the sequence. */
  lemma TailMembers(s: seq<int>)
    requires s != []
    ensures forall x :: x in s[1..] ==> x in s
  {
    forall x | x in s[1..]
      ensures x in s
    {
      var k :| 0 <= k < |s[1..]| && s[1..][k] == x;
      assert s[k + 1] == x;
    }
  }

  lemma ProperOrZeroTail(ix: Index, ts: seq<int>)
    requires ts != [] && ProperOrZero(ix, ts)
    ensures ProperOrZero(ix, ts[1..])
  {
    forall i | 0 <= i < |ts[1..]|
      ensures ts[1..][i] == 0 || ProperId(ix, ts[1..][i])
    {
      assert ts[1..][i] == ts[i + 1];
    }
  }

  /** `Frequencies` cannot fail on proper ids and the sentinel. */
  lemma {:induction false} FrequenciesSucceed(ix: Index, ts: seq<int>)
    requires Valid(ix) && ProperOrZero(ix, ts)
    ensures Frequencies(ix, ts).Success?
  {
    if ts != [] {
      ProperOrZeroTail(ix, ts);
      FrequenciesSucceed(ix, ts[1..]);
    }
  }

  /** One merge step of `_intersect` with the list of a proper id keeps what that id selects. */
  lemma StepMeet(ix: Index, result: seq<int>, t: int)
    requires Valid(ix) && Ascending(result) && ProperId(ix, t)
    ensures ResolvedList(ix, t).Success?
    ensures Ascending(IntersectTwo(result, ResolvedList(ix, t).value))
    ensures forall d :: d in IntersectTwo(result, ResolvedList(ix, t).value) <==> d in result && Selects(ix, t, d)
  {
    ProperIdList(ix, t);
    IntersectTwoCommon(result, ResolvedList(ix, t).value);
  }

  /**
   The loop of `_intersect`: from an ascending running result, it never fails
   on proper ids and the sentinel, stays ascending, keeps exactly what every
   further id selects, and ends empty once a sentinel 0 is met.
   */
  lemma {:induction false} IntersectRestMeet(ix: Index, result: seq<int>, ts: seq<int>)
    requires Valid(ix) && Ascending(result) && ProperOrZero(ix, ts)
    ensures IntersectRest(ix, result, ts).Success?
    ensures Ascending(IntersectRest(ix, result, ts).value)
    ensures 0 !in ts ==>
              forall d :: d in IntersectRest(ix, result, ts).value <==> d in result && SelectedByAll(ix, ts, d)
    ensures 0 in ts ==> IntersectRest(ix, result, ts).value == []
    decreases |ts|
  {
    if ts != [] && result != [] {
      ProperOrZeroTail(ix, ts);
      TailMembers(ts);
      var t := ts[0];
      if t == 0 {
        assert IntersectRest(ix, result, ts) == IntersectRest(ix, [], ts[1..]);
        IntersectRestMeet(ix, [], ts[1..]);
        assert 0 in ts;
      } else {
        StepMeet(ix, result, t);
        var next := IntersectTwo(result, ResolvedList(ix, t).value);
        assert IntersectRest(ix, result, ts) == IntersectRest(ix, next, ts[1..]);
        IntersectRestMeet(ix, next, ts[1..]);
        if 0 in ts {
          InTail(ts, 0);
        } else {
          forall d
            ensures d in IntersectRest(ix, result, ts).value <==> d in result && SelectedByAll(ix, ts, d)
          {
            SelectedByAllCons(ix, ts, d);
          }
        }
      }
    }
  }

  /** The sorted pairs carry the same ids as the term list they were built from. */
  lemma SortedIdsSameElements(ts: seq<int>, freqs: seq<(int, nat)>)
    requires |freqs| == |ts| && forall i :: 0 <= i < |ts| ==> freqs[i].0 == ts[i]
    ensures |SortByLength(freqs)| == |ts|
    ensures forall x :: x in Ids(SortByLength(freqs)) <==> x in ts
  {
    var order := SortByLength(freqs);
    var ids := Ids(order);
    forall x | x in ids
      ensures x in ts
    {
      var k :| 0 <= k < |ids| && ids[k] == x;
      assert order[k] in multiset(freqs);
      var i :| 0 <= i < |freqs| && freqs[i] == order[k];
      assert ts[i] == x;
    }
    forall x | x in ts
      ensures x in ids
    {
      var i :| 0 <= i < |ts| && ts[i] == x;
      assert freqs[i] in multiset(order);
      var k :| 0 <= k < |order| && order[k] == freqs[i];
      assert ids[k] == x;
    }
  }

  /** The ids of `_intersect` after its sort by list length. */
  function SortedIds(ix: Index, ts: seq<int>): seq<int>
    requires Frequencies(ix, ts).Success?
  {
    Ids(SortByLength(Frequencies(ix, ts).value))
  }

  /** The sorted ids are the given ids, reordered; they stay proper ids or sentinels. */
  lemma SortedIdsFacts(ix: Index, ts: seq<int>)
    requires Valid(ix) && ProperOrZero(ix, ts)
    ensures Frequencies(ix, ts).Success?
    ensures |SortedIds(ix, ts)| == |ts|
    ensures forall x :: x in SortedIds(ix, ts) <==> x in ts
    ensures ProperOrZero(ix, SortedIds(ix, ts))
  {
    FrequenciesSucceed(ix, ts);
    var freqs := Frequencies(ix, ts).value;
    SortedIdsSameElements(ts, freqs);
    var ids := SortedIds(ix, ts);
    forall i | 0 <= i < |ids|
      ensures ids[i] == 0 || ProperId(ix, ids[i])
    {
      var x := ids[i];
      assert x in ids;
      var j :| 0 <= j < |ts| && ts[j] == x;
    }
  }

  /**
   `_intersect` once its pair list is built: the shortest list either fails
   the lookup or seeds the loop over the remaining ids.
   */
  lemma IntersectUnfolds(ix: Index, ts: seq<int>)
    requires ts != [] && Frequencies(ix, ts).Success?
    ensures |SortedIds(ix, ts)| == |ts|
    ensures var first := SortedIds(ix, ts)[0];
            Intersect(ix, ts) ==
              if first >= 0 && first !in ix.postings then Failure(MissingPostings(first))
              else IntersectRest(ix, if first < 0 then Negate(ix, -first) else ix.postings[first], SortedIds(ix, ts)[1..])
  {
    var freqs := Frequencies(ix, ts).value;
    var order := SortByLength(freqs);
    assert order != [];
    var ids := Ids(order);
    assert Ids(order[1..]) == ids[1..];
    assert order[0].0 == ids[0];
  }

  /**
   `_intersect` on a non-empty list of proper ids returns the ascending list
   of the documents every id selects: the result is the intersection of the
   resolved lists, whatever order the ids come in.
   */
  lemma IntersectIsMeet(ix: Index, ts: seq<int>)
    requires Valid(ix) && ts != []
    requires forall i :: 0 <= i < |ts| ==> ProperId(ix, ts[i])
    ensures Intersect(ix, ts).Success?
    ensures Ascending(Intersect(ix, ts).value)
    ensures forall d :: d in Intersect(ix, ts).value <==> SelectedByAll(ix, ts, d)
  {
    SortedIdsFacts(ix, ts);
    IntersectUnfolds(ix, ts);
    var ids := SortedIds(ix, ts);
    assert 0 !in ts;
    assert 0 !in ids;
    TailMembers(ids);
    ProperOrZeroTail(ix, ids);
    ProperIdList(ix, ids[0]);
    IntersectRestMeet(ix, ResolvedList(ix, ids[0]).value, ids[1..]);
    SelectionBySameIds(ix, ids, ts);
    forall d
      ensures d in Intersect(ix, ts).value <==> SelectedByAll(ix, ts, d)
    {
      SelectedByAllCons(ix, ids, d);
    }
  }

  /** The order of the ids given to `_intersect` does not change its result. */
  lemma IntersectOrderIndependent(ix: Index, ts: seq<int>, us: seq<int>)
    requires Valid(ix) && ts != []
    requires forall i :: 0 <= i < |ts| ==> ProperId(ix, ts[i])
    requires multiset(ts) == multiset(us)
    ensures Intersect(ix, ts) == Intersect(ix, us)
  {
    forall x
      ensures x in ts <==> x in us
    {
      assert x in ts <==> x in multiset(ts);
      assert x in us <==> x in multiset(us);
    }
    assert |us| == |multiset(us)| == |multiset(ts)| == |ts|;
    forall i | 0 <= i < |us|
      ensures ProperId(ix, us[i])
    {
      var u := us[i];
      assert u in us;
      var j :| 0 <= j < |ts| && ts[j] == u;
    }
    IntersectIsMeet(ix, ts);
    IntersectIsMeet(ix, us);
    SelectionBySameIds(ix, ts, us);
    AscendingUnique(Intersect(ix, ts).value, Intersect(ix, us).value);
  }

  /**
   The sentinel 0 of an unknown plain term inside an AND: it is ranked by the
   length of `_negate(0)`, the number of documents. If that ranks it first,
   `_the_index[0]` raises KeyError; otherwise the loop meets it and
   intersects with the empty list, so the answer is empty.
   */
  lemma IntersectWithSentinel(ix: Index, ts: seq<int>)
    requires Valid(ix) && ProperOrZero(ix, ts) && 0 in ts
    ensures Frequencies(ix, ts).Success? && |SortedIds(ix, ts)| == |ts| > 0
    ensures SortedIds(ix, ts)[0] == 0 ==> Intersect(ix, ts) == Failure(MissingPostings(0))
    ensures SortedIds(ix, ts)[0] != 0 ==> Intersect(ix, ts) == Success([])
  {
    SortedIdsFacts(ix, ts);
    IntersectUnfolds(ix, ts);
    var ids := SortedIds(ix, ts);
    if ids[0] != 0 {
      assert 0 in ids;
      InTail(ids, 0);
      ProperOrZeroTail(ix, ids);
      ProperIdList(ix, ids[0]);
      IntersectRestMeet(ix, ResolvedList(ix, ids[0]).value, ids[1..]);
    }
  }

  /**
   When the sentinel's list is as long as another id's list, the stable
   length sort keeps the order of the words, and that order decides between
   KeyError and the empty answer: with one document that holds term 1,
   `[0, 1]` fails and `[1, 0]` answers [].
   */
  lemma SentinelTieOrderMatters()
    ensures Intersect(Index([1], map["x" := 1], map[1 := [1]]), [0, 1]) == Failure(MissingPostings(0))
    ensures Intersect(Index([1], map["x" := 1], map[1 := [1]]), [1, 0]) == Success([])
  {
    var ix := Index([1], map["x" := 1], map[1 := [1]]);
    SentinelTieFrequencies();
    var f01: seq<(int, nat)> := [(0, 1), (1, 1)];
    var f10: seq<(int, nat)> := [(1, 1), (0, 1)];
    assert SortByLength(f01) == f01 by {
      assert f01[1..] == [(1, 1)];
      assert SortByLength([(1, 1)]) == [(1, 1)];
    }
    assert SortByLength(f10) == f10 by {
      assert f10[1..] == [(0, 1)];
      assert SortByLength([(0, 1)]) == [(0, 1)];
    }
    assert Ids(f01[1..]) == [1];
    assert Ids(f10[1..]) == [0];
    assert IntersectRest(ix, [1], [0]) == Success([]);
  }

  /** Both lists of the tie have length one: the sentinel's `_negate(0)` and term 1's postings. */
  lemma SentinelTieFrequencies()
    ensures Frequencies(Index([1], map["x" := 1], map[1 := [1]]), [0, 1]) == Success([(0, 1), (1, 1)])
    ensures Frequencies(Index([1], map["x" := 1], map[1 := [1]]), [1, 0]) == Success([(1, 1), (0, 1)])
  {
    var ix := Index([1], map["x" := 1], map[1 := [1]]);
    assert Negate(ix, 0) == [1];
    assert [1][1..] == [] && [0][1..] == [] && [0, 1][1..] == [1] && [1, 0][1..] == [0];
    var g1: seq<(int, nat)> := [(1, 1)] + [];
    var g0: seq<(int, nat)> := [(0, 1)] + [];
    assert Frequencies(ix, [1]) == Success(g1);
    assert Frequencies(ix, [0]) == Success(g0);
    var f01: seq<(int, nat)> := [(0, 1)] + g1;
    var f10: seq<(int, nat)> := [(1, 1)] + g0;
    assert f01 == [(0, 1), (1, 1)] && f10 == [(1, 1), (0, 1)];
  }

  /** An AND whose arguments were all dropped fails at the unpacking of its empty pair list. */
  lemma EmptyConjunctionFails(ix: Index)
    ensures Intersect(ix, []) == Failure(EmptyConjunction)
  {
  }
}
