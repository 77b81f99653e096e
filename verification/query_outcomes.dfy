/**
 What `execute_query` returns for each kind of query, stated against the
 meaning of the query's words. A word is one of four kinds: a known term,
 an unknown term, and the same two behind the negation marker `-`.
 */
module QueryOutcomes {
  import opened Wrappers
  import opened Sequences
  import opened QueryParser
  import opened QueryEngine
  import opened QueryEngineProperties

  predicate KnownNegated(ix: Index, w: string) { IsNegated(w) && w[1..] in ix.terms }
  predicate UnknownNegated(ix: Index, w: string) { IsNegated(w) && w[1..] !in ix.terms }
  predicate KnownPlain(ix: Index, w: string) { !IsNegated(w) && w in ix.terms }
  predicate UnknownPlain(ix: Index, w: string) { !IsNegated(w) && w !in ix.terms }

  /** Document `d` satisfies a known word: it holds the term, or for `-t` is a document without it. */
  predicate WordSelects(ix: Index, w: string, d: int)
  {
    if KnownNegated(ix, w) then
      ix.terms[w[1..]] in ix.postings && d in ix.documents && d !in ix.postings[ix.terms[w[1..]]]
    else if KnownPlain(ix, w) then
      ix.terms[w] in ix.postings && d in ix.postings[ix.terms[w]]
    else false
  }

  /** Every argument is a word (the query is not complex). */
  predicate AllWords(args: seq<Arg>)
  {
    forall i :: 0 <= i < |args| ==> args[i].Word?
  }

  // ---------------------------------------------------------------------------
  // Resolution of words to signed term ids
  // ---------------------------------------------------------------------------

  /**
   The resolution table: a `-t` with t unknown is dropped, an unknown plain
   term becomes the sentinel 0, and every other word becomes a proper id
   whose list selects exactly what the word means.
   */
  lemma ResolutionTable(ix: Index, w: string)
    requires Valid(ix)
    ensures ResolveWord(ix, w).None? <==> UnknownNegated(ix, w)
    ensures ResolveWord(ix, w) == Some(0) <==> UnknownPlain(ix, w)
    ensures KnownNegated(ix, w) || KnownPlain(ix, w) ==>
              && ResolveWord(ix, w).Some?
              && ProperId(ix, ResolveWord(ix, w).value)
              && forall d :: Selects(ix, ResolveWord(ix, w).value, d) <==> WordSelects(ix, w, d)
  {
  }

  /** The ids of a word list: proper or sentinel, a sentinel exactly for an unknown plain word. */
  lemma ResolvedIds(ix: Index, args: seq<Arg>)
    requires Valid(ix) && AllWords(args)
    ensures ProperOrZero(ix, ResolveArgs(ix, args))
    ensures 0 in ResolveArgs(ix, args) <==> exists i :: 0 <= i < |args| && UnknownPlain(ix, args[i].word)
    ensures ResolveArgs(ix, args) == [] <==> forall i :: 0 <= i < |args| ==> UnknownNegated(ix, args[i].word)
  {
    var ids := ResolveArgs(ix, args);
    forall k | 0 <= k < |ids|
      ensures ids[k] == 0 || ProperId(ix, ids[k])
    {
      var i :| 0 <= i < |args| && ResolveWord(ix, args[i].word) == Some(ids[k]);
      ResolutionTable(ix, args[i].word);
    }
    if 0 in ids {
      var k :| 0 <= k < |ids| && ids[k] == 0;
      var i :| 0 <= i < |args| && ResolveWord(ix, args[i].word) == Some(ids[k]);
      ResolutionTable(ix, args[i].word);
    }
    if exists i :: 0 <= i < |args| && UnknownPlain(ix, args[i].word) {
      var i :| 0 <= i < |args| && UnknownPlain(ix, args[i].word);
      ResolutionTable(ix, args[i].word);
    }
    if ids == [] {
      forall i | 0 <= i < |args|
        ensures UnknownNegated(ix, args[i].word)
      {
        ResolutionTable(ix, args[i].word);
      }
    }
    if ids != [] {
      var i :| 0 <= i < |args| && ResolveWord(ix, args[i].word) == Some(ids[0]);
      ResolutionTable(ix, args[i].word);
    }
  }

  /** Without unknown plain words, some id selects `d` exactly when some word does. */
  lemma ResolvedSelectsSome(ix: Index, args: seq<Arg>, d: int)
    requires Valid(ix) && AllWords(args)
    requires forall i :: 0 <= i < |args| ==> !UnknownPlain(ix, args[i].word)
    ensures SelectedBySome(ix, ResolveArgs(ix, args), d) <==>
              exists i :: 0 <= i < |args| && WordSelects(ix, args[i].word, d)
  {
    var ids := ResolveArgs(ix, args);
    if SelectedBySome(ix, ids, d) {
      var k :| 0 <= k < |ids| && Selects(ix, ids[k], d);
      var i :| 0 <= i < |args| && ResolveWord(ix, args[i].word) == Some(ids[k]);
      ResolutionTable(ix, args[i].word);
    }
    if exists i :: 0 <= i < |args| && WordSelects(ix, args[i].word, d) {
      var i :| 0 <= i < |args| && WordSelects(ix, args[i].word, d);
      ResolutionTable(ix, args[i].word);
      var t := ResolveWord(ix, args[i].word).value;
      assert t in ids;
      var k :| 0 <= k < |ids| && ids[k] == t;
    }
  }

  /** Without unknown plain words, every id selects `d` exactly when every word that is kept does. */
  lemma ResolvedSelectsAll(ix: Index, args: seq<Arg>, d: int)
    requires Valid(ix) && AllWords(args)
    requires forall i :: 0 <= i < |args| ==> !UnknownPlain(ix, args[i].word)
    ensures SelectedByAll(ix, ResolveArgs(ix, args), d) <==>
              forall i :: 0 <= i < |args| && !UnknownNegated(ix, args[i].word) ==> WordSelects(ix, args[i].word, d)
  {
    var ids := ResolveArgs(ix, args);
    if SelectedByAll(ix, ids, d) {
      forall i | 0 <= i < |args| && !UnknownNegated(ix, args[i].word)
        ensures WordSelects(ix, args[i].word, d)
      {
        ResolutionTable(ix, args[i].word);
        var t := ResolveWord(ix, args[i].word).value;
        assert t in ids;
        var k :| 0 <= k < |ids| && ids[k] == t;
      }
    }
    if forall i :: 0 <= i < |args| && !UnknownNegated(ix, args[i].word) ==> WordSelects(ix, args[i].word, d) {
      forall k | 0 <= k < |ids|
        ensures Selects(ix, ids[k], d)
      {
        var i :| 0 <= i < |args| && ResolveWord(ix, args[i].word) == Some(ids[k]);
        ResolutionTable(ix, args[i].word);
      }
    }
  }

  // ---------------------------------------------------------------------------
  // The flat path
  // ---------------------------------------------------------------------------

  /** The OR loop fails at the first sentinel, and otherwise collects what some id selects. */
  lemma {:induction false} UnionOfMeaning(ix: Index, ids: seq<int>)
    requires Valid(ix) && ProperOrZero(ix, ids)
    ensures 0 in ids ==> UnionOf(ix, ids) == Failure(MissingPostings(0))
    ensures 0 !in ids ==>
              UnionOf(ix, ids).Success? &&
              forall d :: d in UnionOf(ix, ids).value <==> SelectedBySome(ix, ids, d)
  {
    if ids != [] {
      ProperOrZeroTail(ix, ids);
      TailMembers(ids);
      UnionOfMeaning(ix, ids[1..]);
      if ids[0] != 0 {
        ProperIdList(ix, ids[0]);
        if 0 in ids {
          InTail(ids, 0);
        } else {
          forall d
            ensures d in UnionOf(ix, ids).value <==> SelectedBySome(ix, ids, d)
          {
            if SelectedBySome(ix, ids, d) {
              var k :| 0 <= k < |ids| && Selects(ix, ids[k], d);
              if k > 0 {
                assert ids[1..][k - 1] == ids[k];
              }
            }
            if SelectedBySome(ix, ids[1..], d) {
              var k :| 0 <= k < |ids[1..]| && Selects(ix, ids[1..][k], d);
              assert ids[k + 1] == ids[1..][k];
            }
          }
        }
      }
    }
  }

  /**
   A flat OR: an unknown plain term fails the posting lookup of the sentinel
   0; otherwise the result is the ascending list of the documents that some
   word selects, where a `-t` with t unknown is ignored.
   */
  lemma FlatOr(ix: Index, args: seq<Arg>)
    requires Valid(ix) && AllWords(args)
    ensures (exists i :: 0 <= i < |args| && UnknownPlain(ix, args[i].word)) ==>
              ExecuteOperation(ix, Operation(Or, args)) == Failure(MissingPostings(0))
    ensures (forall i :: 0 <= i < |args| ==> !UnknownPlain(ix, args[i].word)) ==>
              && ExecuteOperation(ix, Operation(Or, args)).Success?
              && Ascending(ExecuteOperation(ix, Operation(Or, args)).value)
              && forall d :: d in ExecuteOperation(ix, Operation(Or, args)).value <==>
                               exists i :: 0 <= i < |args| && WordSelects(ix, args[i].word, d)
  {
    FlatOrIsSortedUnion(ix, args);
    ResolvedUnion(ix, args);
  }

  /** `FlatOr` stated on the `_union` of the resolved ids. */
  lemma ResolvedUnion(ix: Index, args: seq<Arg>)
    requires Valid(ix) && AllWords(args)
    ensures (exists i :: 0 <= i < |args| && UnknownPlain(ix, args[i].word)) ==>
              UnionOf(ix, ResolveArgs(ix, args)) == Failure(MissingPostings(0))
    ensures (forall i :: 0 <= i < |args| ==> !UnknownPlain(ix, args[i].word)) ==>
              && UnionOf(ix, ResolveArgs(ix, args)).Success?
              && forall d :: d in UnionOf(ix, ResolveArgs(ix, args)).value <==>
                               exists i :: 0 <= i < |args| && WordSelects(ix, args[i].word, d)
  {
    var ids := ResolveArgs(ix, args);
    ResolvedIds(ix, args);
    UnionOfMeaning(ix, ids);
    if forall i :: 0 <= i < |args| ==> !UnknownPlain(ix, args[i].word) {
      forall d
        ensures d in UnionOf(ix, ids).value <==>
                  exists i :: 0 <= i < |args| && WordSelects(ix, args[i].word, d)
      {
        ResolvedSelectsSome(ix, args, d);
      }
    }
  }

  /** Every id `_intersect` can be given by resolution leaves an ascending result. */
  lemma IntersectAscending(ix: Index, ts: seq<int>)
    requires Valid(ix) && ProperOrZero(ix, ts) && Intersect(ix, ts).Success?
    ensures Ascending(Intersect(ix, ts).value)
  {
    SortedIdsFacts(ix, ts);
    IntersectUnfolds(ix, ts);
    var ids := SortedIds(ix, ts);
    ProperOrZeroTail(ix, ids);
    ProperIdList(ix, ids[0]);
    IntersectRestMeet(ix, ResolvedList(ix, ids[0]).value, ids[1..]);
  }

  /** A flat OR answers with the sorted set of the union of its resolved ids, or fails as that union does. */
  lemma FlatOrIsSortedUnion(ix: Index, args: seq<Arg>)
    requires AllWords(args)
    ensures UnionOf(ix, ResolveArgs(ix, args)).Success? ==>
              ExecuteOperation(ix, Operation(Or, args)) == Success(SortedSet(UnionOf(ix, ResolveArgs(ix, args)).value))
    ensures UnionOf(ix, ResolveArgs(ix, args)).Failure? ==>
              ExecuteOperation(ix, Operation(Or, args)) == Failure(UnionOf(ix, ResolveArgs(ix, args)).error)
  {
    assert !IsComplex(Operation(Or, args));
  }

  /** A flat AND is answered by the multi-way intersection of its resolved ids. */
  lemma FlatAndIsIntersect(ix: Index, args: seq<Arg>)
    requires AllWords(args)
    ensures ExecuteOperation(ix, Operation(And, args)) == Intersect(ix, ResolveArgs(ix, args))
  {
    assert !IsComplex(Operation(And, args));
  }

  /** `FlatAndIsIntersect` for a flat AND whose arguments are known to resolve to `ids`. */
  lemma FlatAndOfIds(ix: Index, args: seq<Arg>, ids: seq<int>)
    requires AllWords(args) && ResolveArgs(ix, args) == ids
    ensures ExecuteOperation(ix, Operation(And, args)) == Intersect(ix, ids)
  {
    FlatAndIsIntersect(ix, args);
  }

  /**
   A flat AND: when every word is a `-t` with t unknown nothing is left and
   the unpacking fails; an unknown plain term empties the result or fails
   its lookup; otherwise the result is the ascending list of the documents
   every kept word selects.
   */
  lemma FlatAnd(ix: Index, args: seq<Arg>)
    requires Valid(ix) && AllWords(args)
    ensures (forall i :: 0 <= i < |args| ==> UnknownNegated(ix, args[i].word)) ==>
              ExecuteOperation(ix, Operation(And, args)) == Failure(EmptyConjunction)
    ensures (exists i :: 0 <= i < |args| && UnknownPlain(ix, args[i].word)) ==>
              ExecuteOperation(ix, Operation(And, args)) == Failure(MissingPostings(0)) ||
              ExecuteOperation(ix, Operation(And, args)) == Success([])
    ensures (exists i :: 0 <= i < |args| && !UnknownNegated(ix, args[i].word)) &&
            (forall i :: 0 <= i < |args| ==> !UnknownPlain(ix, args[i].word)) ==>
              && ExecuteOperation(ix, Operation(And, args)).Success?
              && Ascending(ExecuteOperation(ix, Operation(And, args)).value)
              && forall d :: d in ExecuteOperation(ix, Operation(And, args)).value <==>
                               forall i :: 0 <= i < |args| && !UnknownNegated(ix, args[i].word) ==>
                                             WordSelects(ix, args[i].word, d)
  {
    FlatAndIsIntersect(ix, args);
    ResolvedIntersect(ix, args);
  }

  /** `FlatAnd` stated on the `_intersect` of the resolved ids. */
  lemma ResolvedIntersect(ix: Index, args: seq<Arg>)
    requires Valid(ix) && AllWords(args)
    ensures (forall i :: 0 <= i < |args| ==> UnknownNegated(ix, args[i].word)) ==>
              Intersect(ix, ResolveArgs(ix, args)) == Failure(EmptyConjunction)
    ensures (exists i :: 0 <= i < |args| && UnknownPlain(ix, args[i].word)) ==>
              Intersect(ix, ResolveArgs(ix, args)) == Failure(MissingPostings(0)) ||
              Intersect(ix, ResolveArgs(ix, args)) == Success([])
    ensures (exists i :: 0 <= i < |args| && !UnknownNegated(ix, args[i].word)) &&
            (forall i :: 0 <= i < |args| ==> !UnknownPlain(ix, args[i].word)) ==>
              && Intersect(ix, ResolveArgs(ix, args)).Success?
              && Ascending(Intersect(ix, ResolveArgs(ix, args)).value)
              && forall d :: d in Intersect(ix, ResolveArgs(ix, args)).value <==>
                               forall i :: 0 <= i < |args| && !UnknownNegated(ix, args[i].word) ==>
                                             WordSelects(ix, args[i].word, d)
  {
    var ids := ResolveArgs(ix, args);
    ResolvedIds(ix, args);
    if 0 in ids {
      IntersectWithSentinel(ix, ids);
    } else if ids != [] {
      forall i | 0 <= i < |ids|
        ensures ProperId(ix, ids[i])
      {
        assert ids[i] in ids;
      }
      IntersectIsMeet(ix, ids);
      forall d
        ensures d in Intersect(ix, ids).value <==>
                  forall i :: 0 <= i < |args| && !UnknownNegated(ix, args[i].word) ==>
                                WordSelects(ix, args[i].word, d)
      {
        ResolvedSelectsAll(ix, args, d);
      }
    }
  }

  /**
   A flat NOT of one word: a known term gives the ascending documents
   without it; an unknown term fails on the sentinel; `-t` with t unknown is
   dropped and leaves every document in load order; `-t` with t known fails,
   since the negative id has no posting list.
   */
  lemma FlatNot(ix: Index, w: string)
    requires Valid(ix)
    ensures KnownPlain(ix, w) ==>
              && ExecuteOperation(ix, Operation(Not, [Word(w)])).Success?
              && Ascending(ExecuteOperation(ix, Operation(Not, [Word(w)])).value)
              && forall d :: d in ExecuteOperation(ix, Operation(Not, [Word(w)])).value <==>
                               d in ix.documents && d !in ix.postings[ix.terms[w]]
    ensures UnknownPlain(ix, w) ==> ExecuteOperation(ix, Operation(Not, [Word(w)])) == Failure(MissingPostings(0))
    ensures UnknownNegated(ix, w) ==> ExecuteOperation(ix, Operation(Not, [Word(w)])) == Success(ix.documents)
    ensures KnownNegated(ix, w) ==>
              ExecuteOperation(ix, Operation(Not, [Word(w)])) == Failure(MissingPostings(-ix.terms[w[1..]]))
  {
    var args := [Word(w)];
    assert args[1..] == [];
  }

  /**
   A flat LOOKUP of one word: a known term gives its posting list; an
   unknown term fails on the sentinel; `-t` with t unknown gives no
   documents; `-t` with t known fails on the negative id.
   */
  lemma FlatLookup(ix: Index, w: string)
    requires Valid(ix)
    ensures KnownPlain(ix, w) ==>
              ExecuteOperation(ix, Operation(Lookup, [Word(w)])) == Success(ix.postings[ix.terms[w]])
    ensures UnknownPlain(ix, w) ==> ExecuteOperation(ix, Operation(Lookup, [Word(w)])) == Failure(MissingPostings(0))
    ensures UnknownNegated(ix, w) ==> ExecuteOperation(ix, Operation(Lookup, [Word(w)])) == Success([])
    ensures KnownNegated(ix, w) ==>
              ExecuteOperation(ix, Operation(Lookup, [Word(w)])) == Failure(MissingPostings(-ix.terms[w[1..]]))
  {
    var args := [Word(w)];
    assert args[1..] == [];
  }

  /** The list `_intersect` computes for a known id and a negated known id. */
  lemma AndNotResult(ix: Index, ta: int, tb: int)
    requires Valid(ix) && ta in ix.postings && tb in ix.postings
    requires forall d :: d in ix.postings[ta] ==> d in ix.documents
    ensures Intersect(ix, [ta, -tb]) == Success(SortedSet(Without(ix.postings[ta], ix.postings[tb])))
  {
    AndNotMeet(ix, ta, tb);
    var r := Intersect(ix, [ta, -tb]).value;
    var expected := SortedSet(Without(ix.postings[ta], ix.postings[tb]));
    forall d
      ensures d in r <==> d in expected
    {
      assert d in ix.postings[ta] ==> d in ix.documents;
    }
    AscendingUnique(r, expected);
  }

  /** `_intersect` of a known id and a negated known id keeps the first list minus the second. */
  lemma AndNotMeet(ix: Index, ta: int, tb: int)
    requires Valid(ix) && ta in ix.postings && tb in ix.postings
    ensures Intersect(ix, [ta, -tb]).Success?
    ensures Ascending(Intersect(ix, [ta, -tb]).value)
    ensures forall d :: d in Intersect(ix, [ta, -tb]).value <==>
                          d in ix.postings[ta] && d in ix.documents && d !in ix.postings[tb]
  {
    assert ProperId(ix, ta) && ProperId(ix, -tb);
    IntersectIsMeet(ix, [ta, -tb]);
    forall d
      ensures d in Intersect(ix, [ta, -tb]).value <==>
                d in ix.postings[ta] && d in ix.documents && d !in ix.postings[tb]
    {
      AndNotSelects(ix, ta, tb, d);
    }
  }

  /** A document is selected by `ta` and by `-tb` when it has `ta` and is a document without `tb`. */
  lemma AndNotSelects(ix: Index, ta: int, tb: int, d: int)
    requires Valid(ix) && ta in ix.postings && tb in ix.postings
    ensures SelectedByAll(ix, [ta, -tb], d) <==>
              d in ix.postings[ta] && d in ix.documents && d !in ix.postings[tb]
  {
    assert [ta, -tb][0] == ta && [ta, -tb][1] == -tb;
  }

  /** `a AND NOT b` over known terms resolves to a's id and b's negated id. */
  lemma AndNotIds(ix: Index, a: string, b: string)
    requires !IsNegated(a) && a in ix.terms && b in ix.terms
    ensures ResolveArgs(ix, [Word(a), Word("-" + b)]) == [ix.terms[a], -ix.terms[b]]
  {
    var args := [Word(a), Word("-" + b)];
    assert ("-" + b)[0] == '-' && ("-" + b)[1..] == b;
    assert ResolveWord(ix, "-" + b) == Some(-ix.terms[b]);
    assert args[1..] == [Word("-" + b)] && args[1..][1..] == [];
    assert ResolveArgs(ix, args[1..]) == [-ix.terms[b]];
  }

  /**
   `a AND -b` is the set difference of the two posting lists (an
   independent characterisation of the flat AND with one negated word),
   provided the postings of `a` are all document ids.
   */
  lemma AndNotIsDifference(ix: Index, a: string, b: string)
    requires Valid(ix) && !IsNegated(a) && a in ix.terms && b in ix.terms
    requires forall d :: d in ix.postings[ix.terms[a]] ==> d in ix.documents
    ensures ExecuteOperation(ix, Operation(And, [Word(a), Word("-" + b)])) ==
              Success(SortedSet(Without(ix.postings[ix.terms[a]], ix.postings[ix.terms[b]])))
  {
    AndNotOfIds(ix, a, b, ix.terms[a], ix.terms[b]);
  }

  /** `AndNotIsDifference` with the two term ids named, so the merge is reasoned about on ids. */
  lemma AndNotOfIds(ix: Index, a: string, b: string, ta: int, tb: int)
    requires Valid(ix) && !IsNegated(a) && a in ix.terms && b in ix.terms
    requires ta == ix.terms[a] && tb == ix.terms[b]
    requires forall d :: d in ix.postings[ta] ==> d in ix.documents
    ensures ExecuteOperation(ix, Operation(And, [Word(a), Word("-" + b)])) ==
              Success(SortedSet(Without(ix.postings[ta], ix.postings[tb])))
  {
    AndNotIsIntersect(ix, a, b, ta, tb);
    AndNotResult(ix, ta, tb);
  }

  /** A flat `a AND -b` intersects the id of `a` with the negated id of `b`. */
  lemma AndNotIsIntersect(ix: Index, a: string, b: string, ta: int, tb: int)
    requires Valid(ix) && !IsNegated(a) && a in ix.terms && b in ix.terms
    requires ta == ix.terms[a] && tb == ix.terms[b]
    ensures ExecuteOperation(ix, Operation(And, [Word(a), Word("-" + b)])) == Intersect(ix, [ta, -tb])
  {
    AndNotIds(ix, a, b);
    FlatAndOfIds(ix, [Word(a), Word("-" + b)], [ta, -tb]);
  }

  /**
   Every successful answer is sorted, except the document list in load order
   that `NOT -unknown` and `_negate` of an unknown id return.
   */
  lemma ResultOrder(ix: Index, parsed: Option<Ast>)
    requires Valid(ix) && ExecuteQuery(ix, parsed).Success?
    ensures Ascending(ExecuteQuery(ix, parsed).value) || ExecuteQuery(ix, parsed).value == ix.documents
  {
    OperationOrder(ix, ProcessAst(parsed.value).value);
  }

  /** `ResultOrder` for an operation already produced by the parser. */
  lemma OperationOrder(ix: Index, o: Operation)
    requires Valid(ix) && ExecuteOperation(ix, o).Success?
    ensures Ascending(ExecuteOperation(ix, o).value) || ExecuteOperation(ix, o).value == ix.documents
  {
    if !IsComplex(o) {
      assert AllWords(o.args);
      if o.op == And {
        FlatAndOrder(ix, o.args);
      } else {
        FlatOtherOrder(ix, o);
      }
    }
  }

  /** A flat AND that succeeds answers in ascending order. */
  lemma FlatAndOrder(ix: Index, args: seq<Arg>)
    requires Valid(ix) && AllWords(args) && ExecuteOperation(ix, Operation(And, args)).Success?
    ensures Ascending(ExecuteOperation(ix, Operation(And, args)).value)
  {
    FlatAndIsIntersect(ix, args);
    ResolvedIds(ix, args);
    IntersectAscending(ix, ResolveArgs(ix, args));
  }

  /** A flat OR, NOT or LOOKUP that succeeds answers in ascending order or with every document in load order. */
  lemma FlatOtherOrder(ix: Index, o: Operation)
    requires Valid(ix) && o.op != And && !IsComplex(o) && ExecuteOperation(ix, o).Success?
    ensures Ascending(ExecuteOperation(ix, o).value) || ExecuteOperation(ix, o).value == ix.documents
  {
  }

  // ---------------------------------------------------------------------------
  // The tree path
  // ---------------------------------------------------------------------------

  /** Every nested argument evaluates without error. */
  predicate SubsSucceed(ix: Index, o: Operation)
  {
    forall i :: 0 <= i < |o.args| && o.args[i].Sub? ==> ExecuteQueryTree(ix, o.args[i].oper).Success?
  }

  /** No argument is an unknown plain word, so the stale `temp` is never read. */
  predicate NoUnknownPlain(ix: Index, o: Operation)
  {
    forall i :: 0 <= i < |o.args| && o.args[i].Word? ==> !UnknownPlain(ix, o.args[i].word)
  }

  /**
   What an argument of a tree-path OR adds: every document for any negated
   word (a known one passes a negative id to `_negate`), the postings of a
   known plain word, and nothing for a nested operation.
   */
  predicate TreeOrAdds(ix: Index, a: Arg, d: int)
  {
    && a.Word?
    && ((IsNegated(a.word) && d in ix.documents)
        || (KnownPlain(ix, a.word) && ix.terms[a.word] in ix.postings && d in ix.postings[ix.terms[a.word]]))
  }

  /**
   What an argument of a tree-path AND lets through: anything for a nested
   operation, every document for a known negated word, the postings of a
   known plain word, and nothing for a negated unknown word.
   */
  predicate TreeAndAdmits(ix: Index, a: Arg, d: int)
  {
    || a.Sub?
    || (KnownNegated(ix, a.word) && d in ix.documents)
    || (KnownPlain(ix, a.word) && ix.terms[a.word] in ix.postings && d in ix.postings[ix.terms[a.word]])
  }

  /** The list one word other than an unknown plain term assigns to `temp` in a tree-path OR. */
  lemma OrContribution(ix: Index, w: string)
    requires Valid(ix) && !UnknownPlain(ix, w)
    ensures WordValue(ix, Or, w).Success? && WordValue(ix, Or, w).value.Some?
    ensures forall d :: d in WordValue(ix, Or, w).value.value <==> TreeOrAdds(ix, Word(w), d)
  {
  }

  /** The list one word other than an unknown plain term assigns to `temp` in a tree-path AND. */
  lemma AndContribution(ix: Index, w: string)
    requires Valid(ix) && !UnknownPlain(ix, w)
    ensures WordValue(ix, And, w).Success? && WordValue(ix, And, w).value.Some?
    ensures forall d :: d in WordValue(ix, And, w).value.value <==> TreeAndAdmits(ix, Word(w), d)
  {
  }

  /** The tree-path OR loop from argument `i` on adds exactly what those arguments add. */
  lemma {:induction false} TreeFoldOr(ix: Index, o: Operation, i: nat, acc: seq<int>, temp: Option<seq<int>>)
    requires Valid(ix) && o.op == Or && i <= |o.args| && SubsSucceed(ix, o) && NoUnknownPlain(ix, o)
    ensures TreeFold(ix, o, i, acc, temp).Success?
    ensures forall d :: d in TreeFold(ix, o, i, acc, temp).value <==>
                          d in acc || exists j :: i <= j < |o.args| && TreeOrAdds(ix, o.args[j], d)
    decreases |o.args| - i
  {
    if i < |o.args| {
      var next, temp' := acc, temp;
      match o.args[i] {
        case Sub(c) =>
          temp' := Some(ExecuteQueryTree(ix, c).value);
        case Word(w) =>
          OrContribution(ix, w);
          var t := WordValue(ix, Or, w).value.value;
          next, temp' := acc + t, Some(t);
      }
      assert TreeFold(ix, o, i, acc, temp) == TreeFold(ix, o, i + 1, next, temp');
      TreeFoldOr(ix, o, i + 1, next, temp');
      forall d
        ensures d in next || (exists j :: i + 1 <= j < |o.args| && TreeOrAdds(ix, o.args[j], d)) <==>
                d in acc || exists j :: i <= j < |o.args| && TreeOrAdds(ix, o.args[j], d)
      {
        if exists j :: i <= j < |o.args| && TreeOrAdds(ix, o.args[j], d) {
          var j :| i <= j < |o.args| && TreeOrAdds(ix, o.args[j], d);
        }
      }
    }
  }

  /** The tree-path AND loop from argument `i` on keeps exactly what every one of those arguments admits. */
  lemma {:induction false} TreeFoldAnd(ix: Index, o: Operation, i: nat, acc: seq<int>, temp: Option<seq<int>>)
    requires Valid(ix) && o.op == And && i <= |o.args| && SubsSucceed(ix, o) && NoUnknownPlain(ix, o)
    ensures TreeFold(ix, o, i, acc, temp).Success?
    ensures forall d :: d in TreeFold(ix, o, i, acc, temp).value <==>
                          d in acc && forall j :: i <= j < |o.args| ==> TreeAndAdmits(ix, o.args[j], d)
    decreases |o.args| - i
  {
    if i < |o.args| {
      var next, temp' := acc, temp;
      match o.args[i] {
        case Sub(c) =>
          temp' := Some(ExecuteQueryTree(ix, c).value);
        case Word(w) =>
          AndContribution(ix, w);
          var t := WordValue(ix, And, w).value.value;
          next, temp' := Common(acc, t), Some(t);
      }
      assert TreeFold(ix, o, i, acc, temp) == TreeFold(ix, o, i + 1, next, temp');
      TreeFoldAnd(ix, o, i + 1, next, temp');
      forall d
        ensures (d in next && forall j :: i + 1 <= j < |o.args| ==> TreeAndAdmits(ix, o.args[j], d)) <==>
                d in acc && forall j :: i <= j < |o.args| ==> TreeAndAdmits(ix, o.args[j], d)
      {
        assert d in next <==> d in acc && TreeAndAdmits(ix, o.args[i], d);
      }
    }
  }

  /**
   A tree-path OR (a query with a nested operation): the ascending list of
   every document when some word is negated, together with the postings of
   its known plain words. The nested results are dropped.
   */
  lemma TreeOr(ix: Index, o: Operation)
    requires Valid(ix) && o.op == Or && SubsSucceed(ix, o) && NoUnknownPlain(ix, o)
    ensures ExecuteQueryTree(ix, o).Success?
    ensures forall d :: d in ExecuteQueryTree(ix, o).value <==>
                          exists j :: 0 <= j < |o.args| && TreeOrAdds(ix, o.args[j], d)
  {
    TreeFoldOr(ix, o, 0, [], None);
  }

  /**
   A tree-path AND: the ascending list of the documents in the postings of
   every known plain word, empty when some negated word is unknown. Known
   negated words and nested operations do not restrict it.
   */
  lemma TreeAnd(ix: Index, o: Operation)
    requires Valid(ix) && o.op == And && SubsSucceed(ix, o) && NoUnknownPlain(ix, o)
    ensures ExecuteQueryTree(ix, o).Success?
    ensures forall d :: d in ExecuteQueryTree(ix, o).value <==>
                          d in ix.documents && forall j :: 0 <= j < |o.args| ==> TreeAndAdmits(ix, o.args[j], d)
  {
    TreeFoldAnd(ix, o, 0, ix.documents, None);
  }

  /** A NOT over a nested operation answers with no documents, unless the nested operation fails. */
  lemma TreeNotOverNested(ix: Index, c: Operation)
    ensures ExecuteQueryTree(ix, Operation(Not, [Sub(c)])) ==
              if ExecuteQueryTree(ix, c).Failure? then Failure(ExecuteQueryTree(ix, c).error) else Success([])
  {
    var o := Operation(Not, [Sub(c)]);
    if ExecuteQueryTree(ix, c).Success? {
      var t := ExecuteQueryTree(ix, c).value;
      assert TreeFold(ix, o, 1, [], Some(t)) == Success([]);
      assert TreeFold(ix, o, 0, [], None) == Success([]);
    }
  }

  /**
   A NOT over one known word complements its postings within the document
   ids, and the tree path agrees with the flat path on it.
   */
  lemma TreeNotOfKnownTerm(ix: Index, w: string)
    requires Valid(ix) && KnownPlain(ix, w)
    ensures ExecuteQueryTree(ix, Operation(Not, [Word(w)])).Success?
    ensures forall d :: d in ExecuteQueryTree(ix, Operation(Not, [Word(w)])).value <==>
                          d in ix.documents && d !in ix.postings[ix.terms[w]]
    ensures ExecuteQueryTree(ix, Operation(Not, [Word(w)])) == ExecuteOperation(ix, Operation(Not, [Word(w)]))
  {
    var o := Operation(Not, [Word(w)]);
    var p := ix.postings[ix.terms[w]];
    assert TreeFold(ix, o, 1, Without(ix.documents, p), Some(p)) == Success(Without(ix.documents, p));
    assert o.args[1..] == [];
    assert !IsComplex(o);
  }

  /**
   An unknown plain word as the first argument of an OR, an AND or a
   one-argument NOT makes the combine step read `temp` before any assignment;
   a NOT with more arguments fails its arity assertion first.
   */
  lemma TreeUnknownFirst(ix: Index, o: Operation)
    requires o.args != [] && o.args[0].Word? && UnknownPlain(ix, o.args[0].word)
    ensures o.op == Or || o.op == And || (o.op == Not && |o.args| == 1) ==>
              ExecuteQueryTree(ix, o) == Failure(NoContribution)
    ensures o.op == Not && |o.args| != 1 ==> ExecuteQueryTree(ix, o) == Failure(ArityViolation)
  {
  }

  /** The tree-path LOOKUP loop never reads `temp` and never changes its accumulator. */
  lemma {:induction false} TreeFoldLookup(ix: Index, o: Operation, i: nat, acc: seq<int>, temp: Option<seq<int>>)
    requires Valid(ix) && o.op == Lookup && i <= |o.args| && SubsSucceed(ix, o)
    ensures TreeFold(ix, o, i, acc, temp) == Success(acc)
    decreases |o.args| - i
  {
    if i < |o.args| {
      match o.args[i] {
        case Sub(c) =>
          TreeFoldLookup(ix, o, i + 1, acc, Some(ExecuteQueryTree(ix, c).value));
        case Word(w) =>
          var v := WordValue(ix, Lookup, w).value;
          TreeFoldLookup(ix, o, i + 1, acc, if v.Some? then v else temp);
      }
    }
  }

  /**
   A tree-path LOOKUP (a single operand wrapped around a nested operation)
   answers with no documents whatever its words are, unknown plain terms
   included, unless a nested operation fails.
   */
  lemma TreeLookupIsEmpty(ix: Index, o: Operation)
    requires Valid(ix) && o.op == Lookup && SubsSucceed(ix, o)
    ensures ExecuteQueryTree(ix, o) == Success([])
  {
    TreeFoldLookup(ix, o, 0, [], None);
  }

  /**
   The only way a nested result reaches the answer: an unknown plain word
   right after it reuses it as the stale `temp`, so `(c) OR u` answers
   exactly what `c` does.
   */
  lemma StaleTempRepeatsNested(ix: Index, c: Operation, u: string)
    requires UnknownPlain(ix, u) && ExecuteQueryTree(ix, c).Success?
    ensures ExecuteQueryTree(ix, Operation(Or, [Sub(c), Word(u)])) == ExecuteQueryTree(ix, c)
  {
    var o := Operation(Or, [Sub(c), Word(u)]);
    var t := ExecuteQueryTree(ix, c).value;
    assert [] + t == t;
    assert WordValue(ix, Or, u) == Success(None);
    assert TreeFold(ix, o, 2, t, Some(t)) == Success(t);
    assert TreeFold(ix, o, 1, [], Some(t)) == Success(t);
    assert TreeFold(ix, o, 0, [], None) == Success(t);
    SortedSetOfAscending(t);
  }

  /** Appending a nested operation that succeeds changes no fold step. */
  lemma {:induction false} TreeFoldIgnoresTrailingNested(ix: Index, op: Op, args: seq<Arg>, c: Operation,
                                                         i: nat, acc: seq<int>, temp: Option<seq<int>>)
    requires op != Not && i <= |args| && ExecuteQueryTree(ix, c).Success?
    ensures TreeFold(ix, Operation(op, args + [Sub(c)]), i, acc, temp) == TreeFold(ix, Operation(op, args), i, acc, temp)
    decreases |args| - i
  {
    var o, o' := Operation(op, args), Operation(op, args + [Sub(c)]);
    if i == |args| {
      assert o'.args[i] == Sub(c);
    } else {
      assert o'.args[i] == o.args[i];
      match o.args[i] {
        case Sub(c') =>
          if ExecuteQueryTree(ix, c').Success? {
            TreeFoldIgnoresTrailingNested(ix, op, args, c, i + 1, acc, Some(ExecuteQueryTree(ix, c').value));
          }
        case Word(w) =>
          var v := WordValue(ix, op, w);
          if v.Success? {
            var temp' := if v.value.Some? then v.value else temp;
            assert Combine(ix, o', acc, temp') == Combine(ix, o, acc, temp');
            var next := Combine(ix, o, acc, temp');
            if next.Success? {
              TreeFoldIgnoresTrailingNested(ix, op, args, c, i + 1, next.value, temp');
            }
          }
      }
    }
  }

  /**
   Under AND and OR, a trailing nested operation that evaluates without error
   does not change the answer: its result is computed and discarded.
   */
  lemma TrailingNestedIgnored(ix: Index, op: Op, args: seq<Arg>, c: Operation)
    requires op != Not && ExecuteQueryTree(ix, c).Success?
    ensures ExecuteQueryTree(ix, Operation(op, args + [Sub(c)])) == ExecuteQueryTree(ix, Operation(op, args))
  {
    TreeFoldIgnoresTrailingNested(ix, op, args, c, 0, if op == And then ix.documents else [], None);
  }
}
