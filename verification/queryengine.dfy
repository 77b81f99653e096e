/**
 The query evaluator (queryengine.py, class `InvertedIndex`): answers a
 normalised boolean query against an in-memory inverted index.

 The index is one immutable value. `documents` lists the document ids in
 the order they were loaded (the key order of the Python dict), `terms`
 maps a term to its positive term id, and `postings` maps a term id to its
 posting list. Python sets are modelled by sequences that are only read
 through membership; every `sorted(...)` of a set is `SortedSet`. Where the
 Python code raises, the model returns a `Failure`.
 */
module QueryEngine {
  import opened Wrappers
  import opened Sequences
  import opened QueryParser

  datatype Index = Index(documents: seq<int>, terms: map<string, int>, postings: map<int, seq<int>>)

  /**
   What the loader guarantees: distinct document ids, positive term ids with
   ascending posting lists, and a posting list for every term of the dictionary.
   */
  predicate Valid(ix: Index)
  {
    && Distinct(ix.documents)
    && (forall t :: t in ix.postings ==> t > 0 && Ascending(ix.postings[t]))
    && (forall w :: w in ix.terms ==> ix.terms[w] in ix.postings)
  }

  /** The ways a query can fail; the Python code raises or returns None for these. */
  datatype QueryError =
    | ParseFailed               // parse_query raised ParseException; the source returns None
    | Malformed(shape: ShapeError) // an assertion of process_ast failed
    | MissingPostings(id: int)  // KeyError on `_the_index[id]`
    | EmptyConjunction          // unpacking `zip(*freqs)` of an empty AND argument list
    | NoContribution            // `temp` read before any assignment in the tree path
    | ArityViolation            // `assert(len(args) == 1)` failed

  /** `self._the_index[id]`. */
  function PostingsOf(ix: Index, id: int): Result<seq<int>, QueryError>
  {
    if id in ix.postings then Success(ix.postings[id]) else Failure(MissingPostings(id))
  }

  /**
   `_negate`: the ascending complement of a posting list within the document
   ids; for an id without a posting list, all document ids in load order.
   */
  function Negate(ix: Index, t: int): (r: seq<int>)
    ensures t in ix.postings ==>
              Ascending(r) && forall d :: d in r <==> d in ix.documents && d !in ix.postings[t]
    ensures t !in ix.postings ==> r == ix.documents
  {
    if t in ix.postings then SortedSet(Without(ix.documents, ix.postings[t])) else ix.documents
  }

  /**
   `_intersect_two`: the two-pointer merge of Figure 1.6 of "Introduction to
   Information Retrieval" (Manning, Raghavan, Schuetze), written as the tail
   recursion its loop performs.
   */
  function IntersectTwo(p1: seq<int>, p2: seq<int>): (r: seq<int>)
    ensures |r| <= |p1| && |r| <= |p2|
    ensures IsSubsequence(r, p1) && IsSubsequence(r, p2)
    ensures p1 == [] || p2 == [] ==> r == []
    decreases |p1| + |p2|
  {
    if p1 == [] || p2 == [] then []
    else if p1[0] == p2[0] then
      var rest := IntersectTwo(p1[1..], p2[1..]);
      assert ([p1[0]] + rest)[1..] == rest;
      [p1[0]] + rest
    else if p1[0] < p2[0] then IntersectTwo(p1[1..], p2)
    else IntersectTwo(p1, p2[1..])
  }

  /** The list `_intersect` pairs with a term id: postings for a positive id, else `_negate(-t)`. */
  function ResolvedList(ix: Index, t: int): Result<seq<int>, QueryError>
  {
    if t > 0 then PostingsOf(ix, t) else Success(Negate(ix, -t))
  }

  /** The `(t, len(p))` pairs `_intersect` builds, in input order. */
  function Frequencies(ix: Index, ts: seq<int>): (r: Result<seq<(int, nat)>, QueryError>)
    ensures r.Success? ==> |r.value| == |ts| && forall i :: 0 <= i < |ts| ==> r.value[i].0 == ts[i]
    ensures r.Failure? ==> r.error.MissingPostings? && r.error.id > 0 && r.error.id in ts && r.error.id !in ix.postings
  {
    if ts == [] then Success([])
    else
      var p :- ResolvedList(ix, ts[0]);
      var rest :- Frequencies(ix, ts[1..]);
      Success([(ts[0], |p|)] + rest)
  }

  /** Pairs ordered by their second component: each pair is no longer than the next. */
  predicate ByLength(s: seq<(int, nat)>)
  {
    |s| <= 1 || (s[0].1 <= s[1].1 && ByLength(s[1..]))
  }

  /** Inserts a pair before the first pair that is at least as long (keeps the sort stable). */
  function InsertByLength(x: (int, nat), s: seq<(int, nat)>): (r: seq<(int, nat)>)
    requires ByLength(s)
    ensures ByLength(r)
    ensures |r| == |s| + 1
    ensures multiset(r) == multiset(s) + multiset{x}
    ensures r != [] && (r[0] == x || (s != [] && r[0] == s[0]))
  {
    if s == [] || x.1 <= s[0].1 then
      assert ([x] + s)[1..] == s;
      [x] + s
    else
      var rest := InsertByLength(x, s[1..]);
      assert s == [s[0]] + s[1..];
      assert s[0].1 <= rest[0].1 by {
        if rest[0] != x {
          assert s[0].1 <= s[1].1;
        }
      }
      assert ([s[0]] + rest)[1..] == rest;
      [s[0]] + rest
  }

  /** `sorted(freqs, key=lambda x: x[1])`: a stable insertion sort on the length. */
  function SortByLength(ps: seq<(int, nat)>): (r: seq<(int, nat)>)
    ensures ByLength(r)
    ensures |r| == |ps|
    ensures multiset(r) == multiset(ps)
  {
    if ps == [] then []
    else
      assert ps == [ps[0]] + ps[1..];
      InsertByLength(ps[0], SortByLength(ps[1..]))
  }

  /** The term ids of a list of pairs. */
  function Ids(ps: seq<(int, nat)>): (r: seq<int>)
    ensures |r| == |ps| && forall i :: 0 <= i < |ps| ==> r[i] == ps[i].0
  {
    seq(|ps|, i requires 0 <= i < |ps| => ps[i].0)
  }

  /**
   `_intersect`: the Figure 1.7 loop. Starts from the shortest list and
   intersects with the rest in ascending length order, stopping once the
   running result is empty.
   */
  function Intersect(ix: Index, ts: seq<int>): (r: Result<seq<int>, QueryError>)
    ensures r == Failure(EmptyConjunction) <==> ts == []
    ensures r.Failure? && ts != [] ==> r.error.MissingPostings? && r.error.id >= 0 && r.error.id !in ix.postings
  {
    var freqs :- Frequencies(ix, ts);
    var order := SortByLength(freqs);
    if order == [] then Failure(EmptyConjunction)
    else
      var first := order[0].0;
      var result :- if first < 0 then Success(Negate(ix, -first)) else PostingsOf(ix, first);
      IntersectRest(ix, result, Ids(order[1..]))
  }

  /** The `while terms != [] and result != []` loop of `_intersect`. */
  function IntersectRest(ix: Index, result: seq<int>, ts: seq<int>): (r: Result<seq<int>, QueryError>)
    ensures result == [] ==> r == Success([])
    ensures r.Success? ==> |r.value| <= |result|
    ensures r.Failure? ==> r.error.MissingPostings? && r.error.id > 0 && r.error.id in ts && r.error.id !in ix.postings
    decreases |ts|
  {
    if ts == [] || result == [] then Success(result)
    else
      var ps :- if ts[0] < 0 then Success(Negate(ix, -ts[0]))
                else if ts[0] == 0 then Success([])
                else PostingsOf(ix, ts[0]);
      IntersectRest(ix, IntersectTwo(result, ps), ts[1..])
  }

  /** The word starts with the negation marker `-`. */
  predicate IsNegated(w: string)
  {
    |w| > 0 && w[0] == '-'
  }

  /**
   The flat path's resolution of one word to a signed term id: `-t` with t
   known becomes the negated id, `-t` with t unknown is dropped (None), a
   known plain term becomes its id, and an unknown plain term becomes 0.
   */
  function ResolveWord(ix: Index, w: string): (r: Option<int>)
    ensures r.None? <==> IsNegated(w) && w[1..] !in ix.terms
    ensures Valid(ix) && r.Some? ==> (r.value < 0 <==> IsNegated(w))
    ensures Valid(ix) && r.Some? ==> (r.value == 0 <==> !IsNegated(w) && w !in ix.terms)
  {
    if IsNegated(w) && w[1..] in ix.terms then Some(-ix.terms[w[1..]])
    else if IsNegated(w) then None
    else if w in ix.terms then Some(ix.terms[w])
    else Some(0)
  }

  /** The resolution loop of `execute_query` over word arguments, in order. */
  function ResolveArgs(ix: Index, args: seq<Arg>): (ids: seq<int>)
    requires forall i :: 0 <= i < |args| ==> args[i].Word?
    ensures |ids| <= |args|
    ensures forall k :: 0 <= k < |ids| ==>
              exists i :: 0 <= i < |args| && ResolveWord(ix, args[i].word) == Some(ids[k])
    ensures forall i :: 0 <= i < |args| && ResolveWord(ix, args[i].word).Some? ==>
              ResolveWord(ix, args[i].word).value in ids
  {
    if args == [] then []
    else
      var rest := ResolveArgs(ix, args[1..]);
      assert forall i :: 1 <= i < |args| ==> args[i] == args[1..][i - 1];
      match ResolveWord(ix, args[0].word)
      case None => rest
      case Some(t) => [t] + rest
  }

  /** The flat OR loop: the union, as a list, of the lists of the resolved ids. */
  function UnionOf(ix: Index, ids: seq<int>): (r: Result<seq<int>, QueryError>)
    ensures r.Failure? ==> r.error.MissingPostings? && r.error.id >= 0 && r.error.id in ids && r.error.id !in ix.postings
    ensures (forall k :: 0 <= k < |ids| ==> ids[k] < 0 || ids[k] in ix.postings) ==> r.Success?
  {
    if ids == [] then Success([])
    else
      var head :- if ids[0] < 0 then Success(Negate(ix, -ids[0])) else PostingsOf(ix, ids[0]);
      var rest :- UnionOf(ix, ids[1..]);
      Success(head + rest)
  }

  /**
   The value one word argument assigns to `temp` in the tree path. A known
   negated term passes its negative id to `_negate`; an unknown negated term
   gives nothing under AND and everything otherwise; a known plain term gives
   its postings. An unknown plain term assigns nothing (None), so the
   previous value of `temp`, if any, is what the combine step reads.
   */
  function WordValue(ix: Index, op: Op, w: string): (r: Result<Option<seq<int>>, QueryError>)
    ensures r == Success(None) <==> !IsNegated(w) && w !in ix.terms
    ensures r.Failure? ==> !IsNegated(w) && w in ix.terms && r == Failure(MissingPostings(ix.terms[w]))
    ensures Valid(ix) ==> r.Success?
    ensures r.Success? && r.value.Some? && IsNegated(w) ==>
              forall d :: d in r.value.value ==> d in ix.documents
  {
    if IsNegated(w) && w[1..] in ix.terms then Success(Some(Negate(ix, -ix.terms[w[1..]])))
    else if IsNegated(w) then Success(Some(if op == And then [] else ix.documents))
    else if w in ix.terms then
      var p :- PostingsOf(ix, ix.terms[w]);
      Success(Some(p))
    else Success(None)
  }

  /**
   The combine step of the tree path for one word argument, reading `temp`:
   OR adds it, AND keeps what is in it, NOT (after its one-argument
   assertion) complements it, and LOOKUP neither reads it nor changes the
   accumulator. Reading a `temp` that was never assigned fails.
   */
  function Combine(ix: Index, o: Operation, acc: seq<int>, temp: Option<seq<int>>): (r: Result<seq<int>, QueryError>)
    ensures o.op == Lookup ==> r == Success(acc)
    ensures o.op == Not && |o.args| != 1 ==> r == Failure(ArityViolation)
    ensures r.Failure? <==> (o.op == Not && |o.args| != 1) || (o.op != Lookup && temp.None?)
    ensures r.Success? && o.op == Or ==> forall d :: d in r.value <==> d in acc || d in temp.value
    ensures r.Success? && o.op == And ==> forall d :: d in r.value <==> d in acc && d in temp.value
    ensures r.Success? && o.op == Not ==> forall d :: d in r.value <==> d in ix.documents && d !in temp.value
  {
    match o.op
    case Lookup => Success(acc)
    case Not =>
      if |o.args| != 1 then Failure(ArityViolation)
      else if temp.None? then Failure(NoContribution)
      else Success(Without(ix.documents, temp.value))
    case Or => if temp.None? then Failure(NoContribution) else Success(acc + temp.value)
    case And => if temp.None? then Failure(NoContribution) else Success(Common(acc, temp.value))
  }

  /**
   `_execute_query_tree`: the accumulator starts as all document ids for AND
   and empty otherwise. As in the source, the combine step only runs for word
   arguments: the value computed for a nested operation is kept only as the
   stale `temp`.
   */
  function ExecuteQueryTree(ix: Index, o: Operation): (r: Result<seq<int>, QueryError>)
    ensures r.Success? ==> Ascending(r.value)
    decreases o, 1
  {
    var start := if o.op == And then ix.documents else [];
    var acc :- TreeFold(ix, o, 0, start, None);
    Success(SortedSet(acc))
  }

  /**
   The `for arg in flat.args` loop of the tree path, from argument `i` on;
   `temp` is the value of the Python local of that name, None while unassigned.
   */
  function TreeFold(ix: Index, o: Operation, i: nat, acc: seq<int>, temp: Option<seq<int>>)
    : (r: Result<seq<int>, QueryError>)
    requires i <= |o.args|
    ensures o.op == Lookup && r.Success? ==> r.value == acc
    decreases o, 0, |o.args| - i
  {
    if i == |o.args| then Success(acc)
    else
      match o.args[i]
      case Sub(c) =>
        var t :- ExecuteQueryTree(ix, c);
        TreeFold(ix, o, i + 1, acc, Some(t))
      case Word(w) =>
        var v :- WordValue(ix, o.op, w);
        var temp' := if v.Some? then v else temp;
        var next :- Combine(ix, o, acc, temp');
        TreeFold(ix, o, i + 1, next, temp')
  }

  /**
   `execute_query` after parsing: a query with a nested top-level argument
   goes to the tree path; otherwise the words are resolved and the operator
   dispatched.
   */
  function ExecuteOperation(ix: Index, o: Operation): (r: Result<seq<int>, QueryError>)
    ensures IsComplex(o) ==> r == ExecuteQueryTree(ix, o)
  {
    if IsComplex(o) then ExecuteQueryTree(ix, o)
    else
      var ids := ResolveArgs(ix, o.args);
      match o.op
      case Or =>
        var u :- UnionOf(ix, ids);
        Success(SortedSet(u))
      case And => Intersect(ix, ids)
      case Not =>
        if ids == [] then Success(ix.documents)
        else if |ids| != 1 then Failure(ArityViolation)
        else
          var p :- PostingsOf(ix, ids[0]);
          Success(SortedSet(Without(ix.documents, p)))
      case Lookup =>
        if ids == [] then Success([])
        else if |ids| != 1 then Failure(ArityViolation)
        else PostingsOf(ix, ids[0])
  }

  /**
   `execute_query`: `parsed` is the outcome of the external parser (None when
   it raised ParseException).
   */
  function ExecuteQuery(ix: Index, parsed: Option<Ast>): (r: Result<seq<int>, QueryError>)
    ensures parsed.None? ==> r == Failure(ParseFailed)
    ensures parsed.Some? && ProcessAst(parsed.value).Failure? ==>
              r == Failure(Malformed(ProcessAst(parsed.value).error))
    ensures parsed.Some? && ProcessAst(parsed.value).Success? ==>
              r == ExecuteOperation(ix, ProcessAst(parsed.value).value)
  {
    match parsed
    case None => Failure(ParseFailed)
    case Some(ast) =>
      match ProcessAst(ast)
      case Failure(e) => Failure(Malformed(e))
      case Success(o) => ExecuteOperation(ix, o)
  }
}
