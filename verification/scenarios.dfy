/**
 Worked queries against the small index of "Introduction to Information
 Retrieval", chapter 1: five documents, with "Caesar" in 1, 2 and 3,
 "Brutus" in 1 and 4, and "Calpurnia" in 1. Each query is given as the
 tree the external parser produces and answered through `ExecuteQuery`.
 */
module Scenarios {
  import opened Wrappers
  import opened Sequences
  import opened QueryParser
  import opened QueryEngine
  import opened QueryEngineProperties
  import opened QueryOutcomes

  function Shakespeare(): Index
  {
    Index([1, 2, 3, 4, 5],
          map["Caesar" := 1, "Brutus" := 2, "Calpurnia" := 3],
          map[1 := [1, 2, 3], 2 := [1, 4], 3 := [1]])
  }

  /** The index meets the loader's guarantees, and its vocabulary is as described. */
  lemma Vocabulary()
    ensures Valid(Shakespeare())
    ensures KnownPlain(Shakespeare(), "Caesar") && Shakespeare().terms["Caesar"] == 1
    ensures KnownPlain(Shakespeare(), "Brutus") && Shakespeare().terms["Brutus"] == 2
    ensures KnownPlain(Shakespeare(), "Calpurnia") && Shakespeare().terms["Calpurnia"] == 3
    ensures UnknownPlain(Shakespeare(), "Ptolemy")
  {
    var ix := Shakespeare();
    assert Ascending(ix.postings[1]) && Ascending(ix.postings[2]) && Ascending(ix.postings[3]);
  }

  function Binary(op: Connective, a: Ast, b: Ast): Ast
  {
    Node(Some(OneOp(op)), a, One(b))
  }

  function Negation(a: Ast): Ast
  {
    Node(Some(OneOp(Not)), a, Absent)
  }

  /** A binary node over two terms becomes one operation with two words. */
  lemma BinaryOfTerms(op: Connective, a: string, b: string)
    requires op != Not
    ensures ProcessAst(Binary(op, Term(a), Term(b))) == Success(Operation(op, [Word(a), Word(b)]))
  {
    var o1 := AddArg(Operation(op, []), Operation(Lookup, [Word(a)]));
    assert o1 == Operation(op, [Word(a)]);
    assert AddArg(o1, Operation(Lookup, [Word(b)])) == Operation(op, [Word(a), Word(b)]);
  }

  /** A parsed query is answered by its normalised operation. */
  lemma Answered(ix: Index, ast: Ast, o: Operation)
    requires ProcessAst(ast) == Success(o)
    ensures ExecuteQuery(ix, Some(ast)) == ExecuteOperation(ix, o)
  {
  }

  lemma CaesarBrutusIds()
    ensures ResolveArgs(Shakespeare(), [Word("Caesar"), Word("Brutus")]) == [1, 2]
  {
    Vocabulary();
  }

  lemma CaesarBrutusMeet()
    ensures Intersect(Shakespeare(), [1, 2]) == Success([1])
  {
    var ix := Shakespeare();
    Vocabulary();
    assert ProperId(ix, 1) && ProperId(ix, 2);
    IntersectIsMeet(ix, [1, 2]);
    var r := Intersect(ix, [1, 2]).value;
    forall d
      ensures d in r <==> d in [1]
    {
      assert d in r <==> Selects(ix, 1, d) && Selects(ix, 2, d);
    }
    AscendingUnique(r, [1]);
  }

  lemma CaesarAndBrutusAnswer()
    ensures ExecuteOperation(Shakespeare(), Operation(And, [Word("Caesar"), Word("Brutus")])) == Success([1])
  {
    var args := [Word("Caesar"), Word("Brutus")];
    calc {
      ExecuteOperation(Shakespeare(), Operation(And, args));
      { FlatAndIsIntersect(Shakespeare(), args); }
      Intersect(Shakespeare(), ResolveArgs(Shakespeare(), args));
      { CaesarBrutusIds(); }
      Intersect(Shakespeare(), [1, 2]);
      { CaesarBrutusMeet(); }
      Success([1]);
    }
  }

  /** `Caesar AND Brutus` is answered by the intersection of the two posting lists. */
  lemma CaesarAndBrutus()
    ensures ExecuteQuery(Shakespeare(), Some(Binary(And, Term("Caesar"), Term("Brutus")))) == Success([1])
  {
    BinaryOfTerms(And, "Caesar", "Brutus");
    Answered(Shakespeare(), Binary(And, Term("Caesar"), Term("Brutus")), Operation(And, [Word("Caesar"), Word("Brutus")]));
    CaesarAndBrutusAnswer();
  }

  lemma CaesarBrutusUnion()
    ensures UnionOf(Shakespeare(), [1, 2]) == Success([1, 2, 3, 1, 4])
  {
    var ix := Shakespeare();
    assert [1, 2][1..] == [2] && [2][1..] == [];
    assert UnionOf(ix, [2]) == Success([1, 4] + []);
    assert [1, 2, 3] + ([1, 4] + []) == [1, 2, 3, 1, 4];
  }

  lemma SortedCaesarBrutusUnion()
    ensures SortedSet([1, 2, 3, 1, 4]) == [1, 2, 3, 4]
  {
    var u := [1, 2, 3, 1, 4];
    assert forall d :: d in u <==> d in [1, 2, 3, 4];
    SortedSetByElements(u, [1, 2, 3, 4]);
    SortedSetOfAscending([1, 2, 3, 4]);
  }

  lemma CaesarOrBrutusAnswer()
    ensures ExecuteOperation(Shakespeare(), Operation(Or, [Word("Caesar"), Word("Brutus")])) == Success([1, 2, 3, 4])
  {
    var args := [Word("Caesar"), Word("Brutus")];
    CaesarBrutusIds();
    CaesarBrutusUnion();
    calc {
      ExecuteOperation(Shakespeare(), Operation(Or, args));
      { FlatOrIsSortedUnion(Shakespeare(), args); }
      Success(SortedSet([1, 2, 3, 1, 4]));
      { SortedCaesarBrutusUnion(); }
      Success([1, 2, 3, 4]);
    }
  }

  /** `Caesar OR Brutus` is answered by the sorted union. */
  lemma CaesarOrBrutus()
    ensures ExecuteQuery(Shakespeare(), Some(Binary(Or, Term("Caesar"), Term("Brutus")))) == Success([1, 2, 3, 4])
  {
    BinaryOfTerms(Or, "Caesar", "Brutus");
    Answered(Shakespeare(), Binary(Or, Term("Caesar"), Term("Brutus")), Operation(Or, [Word("Caesar"), Word("Brutus")]));
    CaesarOrBrutusAnswer();
  }

  /** `NOT Caesar` is answered by the complement within the documents. */
  lemma NotCaesarAnswer()
    ensures ExecuteOperation(Shakespeare(), Operation(Not, [Word("Caesar")])) == Success([4, 5])
  {
    var ix := Shakespeare();
    Vocabulary();
    FlatNot(ix, "Caesar");
    var r := ExecuteOperation(ix, Operation(Not, [Word("Caesar")])).value;
    AscendingUnique(r, [4, 5]);
  }

  lemma NotCaesar()
    ensures ExecuteQuery(Shakespeare(), Some(Negation(Term("Caesar")))) == Success([4, 5])
  {
    NegatedTermIsDirect("Caesar");
    Answered(Shakespeare(), Negation(Term("Caesar")), Operation(Not, [Word("Caesar")]));
    NotCaesarAnswer();
  }

  lemma ParseCaesarAndNotBrutus()
    ensures ProcessAst(Binary(And, Term("Caesar"), Negation(Term("Brutus"))))
            == Success(Operation(And, [Word("Caesar"), Word("-Brutus")]))
  {
    NegatedTermIsDirect("Brutus");
    var o1 := AddArg(Operation(And, []), Operation(Lookup, [Word("Caesar")]));
    assert o1 == Operation(And, [Word("Caesar")]);
    assert "-" + "Brutus" == "-Brutus";
    assert AddArg(o1, Operation(Not, [Word("Brutus")])) == Operation(And, [Word("Caesar"), Word("-Brutus")]);
  }

  lemma CaesarWithoutBrutus()
    ensures SortedSet(Without([1, 2, 3], [1, 4])) == [2, 3]
  {
    var w := Without([1, 2, 3], [1, 4]);
    assert forall d :: d in w <==> d in [2, 3];
    SortedSetByElements(w, [2, 3]);
    SortedSetOfAscending([2, 3]);
  }

  lemma CaesarAndNotBrutusAnswer()
    ensures ExecuteOperation(Shakespeare(), Operation(And, [Word("Caesar"), Word("-Brutus")])) == Success([2, 3])
  {
    Vocabulary();
    assert "-" + "Brutus" == "-Brutus";
    AndNotIsDifference(Shakespeare(), "Caesar", "Brutus");
    CaesarWithoutBrutus();
  }

  /**
   `Caesar AND NOT Brutus`: the negation is folded into the word `-Brutus`,
   so the flat path intersects with the complement of Brutus.
   */
  lemma CaesarAndNotBrutus()
    ensures ExecuteQuery(Shakespeare(), Some(Binary(And, Term("Caesar"), Negation(Term("Brutus"))))) == Success([2, 3])
  {
    ParseCaesarAndNotBrutus();
    Answered(Shakespeare(), Binary(And, Term("Caesar"), Negation(Term("Brutus"))),
             Operation(And, [Word("Caesar"), Word("-Brutus")]));
    CaesarAndNotBrutusAnswer();
  }

  lemma ParseCaesarAndNested()
    ensures ProcessAst(Binary(And, Term("Caesar"), Binary(Or, Term("Brutus"), Term("Calpurnia"))))
            == Success(Operation(And, [Word("Caesar"), Sub(Operation(Or, [Word("Brutus"), Word("Calpurnia")]))]))
  {
    var inner := Operation(Or, [Word("Brutus"), Word("Calpurnia")]);
    BinaryOfTerms(Or, "Brutus", "Calpurnia");
    var o1 := AddArg(Operation(And, []), Operation(Lookup, [Word("Caesar")]));
    assert o1 == Operation(And, [Word("Caesar")]);
    assert NestableUnder(And, inner);
    assert AddArg(o1, inner) == Operation(And, [Word("Caesar"), Sub(inner)]);
  }

  /** The parenthesised OR evaluates without error on its own. */
  lemma BrutusOrCalpurniaSucceeds()
    ensures ExecuteQueryTree(Shakespeare(), Operation(Or, [Word("Brutus"), Word("Calpurnia")])).Success?
  {
    var ix := Shakespeare();
    var inner := Operation(Or, [Word("Brutus"), Word("Calpurnia")]);
    Vocabulary();
    assert [] + [1, 4] == [1, 4];
    assert TreeFold(ix, inner, 2, [1, 4] + [1], Some([1])) == Success([1, 4] + [1]);
    assert TreeFold(ix, inner, 1, [1, 4], Some([1, 4])) == Success([1, 4] + [1]);
  }

  lemma CaesarAndNestedAnswer()
    ensures ExecuteOperation(Shakespeare(),
                             Operation(And, [Word("Caesar"), Sub(Operation(Or, [Word("Brutus"), Word("Calpurnia")]))]))
            == Success([1, 2, 3])
  {
    var ix := Shakespeare();
    var inner := Operation(Or, [Word("Brutus"), Word("Calpurnia")]);
    var o := Operation(And, [Word("Caesar"), Sub(inner)]);
    assert o.args[1].Sub? && IsComplex(o);
    BrutusOrCalpurniaSucceeds();
    assert [Word("Caesar")] + [Sub(inner)] == o.args;
    TrailingNestedIgnored(ix, And, [Word("Caesar")], inner);
    CaesarAloneOnTreePath();
  }

  /** `Caesar` on its own, folded the way the tree path folds it, gives documents 1 to 3. */
  lemma CaesarAloneOnTreePath()
    ensures ExecuteQueryTree(Shakespeare(), Operation(And, [Word("Caesar")])) == Success([1, 2, 3])
  {
    var ix := Shakespeare();
    var o := Operation(And, [Word("Caesar")]);
    Vocabulary();
    var c := Common([1, 2, 3, 4, 5], [1, 2, 3]);
    assert WordValue(ix, And, "Caesar") == Success(Some([1, 2, 3]));
    assert Combine(ix, o, ix.documents, Some([1, 2, 3])) == Success(c);
    assert TreeFold(ix, o, 1, c, Some([1, 2, 3])) == Success(c);
    assert TreeFold(ix, o, 0, ix.documents, None) == Success(c);
    assert forall d :: d in c <==> d in [1, 2, 3];
    SortedSetByElements(c, [1, 2, 3]);
    SortedSetOfAscending([1, 2, 3]);
  }

  /**
   `Caesar AND (Brutus OR Calpurnia)` takes the tree path, where the result
   of the parenthesised OR is computed and then dropped: the answer is every
   document with Caesar, not only document 1.
   */
  lemma CaesarAndNested()
    ensures ExecuteQuery(Shakespeare(),
                         Some(Binary(And, Term("Caesar"), Binary(Or, Term("Brutus"), Term("Calpurnia")))))
            == Success([1, 2, 3])
  {
    ParseCaesarAndNested();
    Answered(Shakespeare(), Binary(And, Term("Caesar"), Binary(Or, Term("Brutus"), Term("Calpurnia"))),
             Operation(And, [Word("Caesar"), Sub(Operation(Or, [Word("Brutus"), Word("Calpurnia")]))]));
    CaesarAndNestedAnswer();
  }

  lemma CaesarPtolemyIds()
    ensures ResolveArgs(Shakespeare(), [Word("Caesar"), Word("Ptolemy")]) == [1, 0]
  {
    Vocabulary();
  }

  /** The sentinel's list for the length sort is every document, so Caesar comes first. */
  lemma CaesarPtolemyFrequencies()
    ensures Frequencies(Shakespeare(), [1, 0]) == Success([(1, 3), (0, 5)])
  {
    var ix := Shakespeare();
    assert Negate(ix, 0) == ix.documents;
    assert [0][1..] == [] && [1, 0][1..] == [0];
    var f0: seq<(int, nat)> := [(0, |ix.documents|)] + [];
    assert f0 == [(0, 5)];
    assert Frequencies(ix, [0]) == Success([(0, 5)]);
    var f1: seq<(int, nat)> := [(1, |ix.postings[1]|)] + [(0, 5)];
    assert f1 == [(1, 3), (0, 5)];
  }

  /** Caesar's three postings are shorter than the sentinel's five documents. */
  lemma CaesarPtolemyOrder()
    ensures SortByLength([(1, 3), (0, 5)]) == [(1, 3), (0, 5)]
  {
    assert [(1, 3), (0, 5)][1..] == [(0, 5)];
    assert SortByLength([(0, 5)]) == [(0, 5)];
  }

  /** A sentinel left in the loop empties whatever result it meets. */
  lemma SentinelEmpties(ix: Index, result: seq<int>)
    ensures IntersectRest(ix, result, [0]) == Success([])
  {
    assert [0][1..] == [];
  }

  lemma CaesarPtolemyIntersect()
    ensures Intersect(Shakespeare(), [1, 0]) == Success([])
  {
    var ix := Shakespeare();
    CaesarPtolemyFrequencies();
    CaesarPtolemyOrder();
    assert SortedIds(ix, [1, 0]) == [1, 0];
    IntersectUnfolds(ix, [1, 0]);
    assert [1, 0][1..] == [0];
    SentinelEmpties(ix, ix.postings[1]);
  }

  lemma CaesarAndPtolemyAnswer()
    ensures ExecuteOperation(Shakespeare(), Operation(And, [Word("Caesar"), Word("Ptolemy")])) == Success([])
  {
    var args := [Word("Caesar"), Word("Ptolemy")];
    calc {
      ExecuteOperation(Shakespeare(), Operation(And, args));
      { FlatAndIsIntersect(Shakespeare(), args); }
      Intersect(Shakespeare(), ResolveArgs(Shakespeare(), args));
      { CaesarPtolemyIds(); }
      Intersect(Shakespeare(), [1, 0]);
      { CaesarPtolemyIntersect(); }
      Success([]);
    }
  }

  /**
   `Caesar AND Ptolemy`: the unknown Ptolemy becomes the sentinel 0, whose
   list for the length sort is `_negate(0)`, every document. Caesar is
   shorter, so it seeds the loop, and the sentinel's empty list then
   empties the result.
   */
  lemma CaesarAndPtolemy()
    ensures ExecuteQuery(Shakespeare(), Some(Binary(And, Term("Caesar"), Term("Ptolemy")))) == Success([])
  {
    BinaryOfTerms(And, "Caesar", "Ptolemy");
    Answered(Shakespeare(), Binary(And, Term("Caesar"), Term("Ptolemy")), Operation(And, [Word("Caesar"), Word("Ptolemy")]));
    CaesarAndPtolemyAnswer();
  }

  /**
   A flat NOT whose only word is a negated unknown term answers with the
   document ids in load order, which need not be sorted.
   */
  lemma UniverseInLoadOrder()
    ensures ExecuteOperation(Index([3, 1, 2], map[], map[]), Operation(Not, [Word("-Ptolemy")])) == Success([3, 1, 2])
  {
    FlatNot(Index([3, 1, 2], map[], map[]), "-Ptolemy");
  }
}
