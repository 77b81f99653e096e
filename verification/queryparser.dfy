/**
 The query normaliser (queryparser.py): turns the parser's syntax tree into a
 flattened `Operation` tree. Chains of one operator are spliced into one
 argument list, `NOT <term>` below another operator becomes the signed word
 `-term`, and single-term `LOOKUP` children are unwrapped.

 The syntax tree comes from a generated parser that is not part of this
 model, so `Ast` is an abstract rendering of the node shape it produces:
 an optional operator (one connective, or a list of connectives), a first
 operand, and an absent, single or list-valued rest.
 */
module QueryParser {
  import opened Wrappers

  /** The operation kinds of the normalised tree. */
  datatype Op = And | Or | Not | Lookup

  /** The operators a syntax-tree node can carry (the grammar has no LOOKUP). */
  type Connective = o: Op | o != Lookup witness And

  /** A node's `op` attribute: one operator, or a list of operators that must all agree. */
  datatype OpField = OneOp(single: Connective) | OpList(ops: seq<Connective>)

  /** A node's `lst` attribute. */
  datatype Rest = Absent | One(item: Ast) | Many(items: seq<Ast>)

  /** A syntax tree: a bare term, or a node with `op`, `fst` and `lst`. */
  datatype Ast = Term(text: string) | Node(op: Option<OpField>, fst: Ast, lst: Rest)

  /** An argument of an operation: a (possibly `-`-prefixed) word or a nested operation. */
  datatype Arg = Word(word: string) | Sub(oper: Operation)

  /** The `Operation` class: an operator and its ordered argument list. */
  datatype Operation = Operation(op: Op, args: seq<Arg>)

  /** The assertions `process_ast` makes about the node shape. */
  datatype ShapeError =
    | MixedOperators    // an operator list whose entries are not all the same
    | NegationWithRest  // a NOT node that also has a `lst`
    | UnwrapWithRest    // an operator-less node that has a `lst`

  /** A measure on syntax trees, for termination. */
  function Size(a: Ast): nat
  {
    match a
    case Term(_) => 1
    case Node(_, fst, lst) => 1 + Size(fst) + RestSize(lst)
  }

  function RestSize(r: Rest): nat
  {
    match r
    case Absent => 0
    case One(x) => Size(x)
    case Many(xs) => ListSize(xs)
  }

  function ListSize(xs: seq<Ast>): nat
  {
    if xs == [] then 0 else Size(xs[0]) + ListSize(xs[1..])
  }

  /** The operands of a node in the order they are added: `fst`, then the `lst` items. */
  function Operands(fst: Ast, lst: Rest): seq<Ast>
  {
    match lst
    case Absent => [fst]
    case One(x) => [fst, x]
    case Many(xs) => [fst] + xs
  }

  /** Arity facts the class documentation promises for every produced operation. */
  predicate Shaped(o: Operation)
  {
    && o.args != []
    && (o.op == Not ==> |o.args| == 1)
    && (o.op == Lookup ==> |o.args| == 1 && o.args[0].Word?)
  }

  /** A nested operation that may legitimately remain an argument of a `parentOp` operation. */
  predicate NestableUnder(parentOp: Op, c: Operation)
  {
    && Shaped(c)
    && c.op != parentOp
    && c.op != Lookup
    && !(c.op == Not && c.args[0].Word?)
  }

  /**
   The flattening invariant, throughout the tree: no nested operation has its
   parent's operator, none is a LOOKUP, and none is a NOT over a bare word.
   */
  predicate Normalised(o: Operation)
    decreases o
  {
    forall i :: 0 <= i < |o.args| && o.args[i].Sub? ==>
      NestableUnder(o.op, o.args[i].oper) && Normalised(o.args[i].oper)
  }

  /** `Operation.add_arg`: merges a normalised child into a parent. */
  function AddArg(p: Operation, c: Operation): (r: Operation)
    requires c.args != []
    ensures r.op == p.op
    ensures |r.args| > |p.args| && r.args[..|p.args|] == p.args
    ensures c.op == p.op ==> r.args == p.args + c.args
    ensures c.op != p.op ==> |r.args| == |p.args| + 1
    ensures c.op != p.op && c.op == Not && c.args[0].Word? ==>
              r.args[|p.args|] == Word("-" + c.args[0].word)
    ensures c.op != p.op && c.op == Lookup ==> r.args[|p.args|] == c.args[0]
    ensures NestableUnder(p.op, c) ==> r.args[|p.args|] == Sub(c)
  {
    if c.op == p.op then Operation(p.op, p.args + c.args)
    else if c.op == Not && c.args[0].Word? then Operation(p.op, p.args + [Word("-" + c.args[0].word)])
    else if c.op == Lookup then Operation(p.op, p.args + [c.args[0]])
    else Operation(p.op, p.args + [Sub(c)])
  }

  /** Merging a shaped, normalised child keeps the parent normalised. */
  lemma AddArgNormalised(p: Operation, c: Operation)
    requires Shaped(c) && Normalised(c) && Normalised(p)
    ensures Normalised(AddArg(p, c))
  {
    var r := AddArg(p, c);
    forall i | 0 <= i < |r.args| && r.args[i].Sub?
      ensures NestableUnder(r.op, r.args[i].oper) && Normalised(r.args[i].oper)
    {
      if i < |p.args| {
        assert r.args[i] == p.args[i];
      } else if c.op == p.op {
        assert r.args[i] == c.args[i - |p.args|];
      }
    }
  }

  /** Merges a sequence of already normalised children, left to right. */
  function AddAll(o: Operation, cs: seq<Operation>): (r: Operation)
    requires forall i :: 0 <= i < |cs| ==> cs[i].args != []
    ensures r.op == o.op
    ensures |r.args| >= |o.args| + |cs|
    ensures r.args[..|o.args|] == o.args
    decreases |cs|
  {
    if cs == [] then o else AddAll(AddArg(o, cs[0]), cs[1..])
  }

  /**
   The operator a node's `op` attribute names. A list must hold exactly one
   distinct operator (`len(set(op)) == 1`); otherwise the assertion fails.
   */
  function ResolveOp(f: OpField): (r: Result<Connective, ShapeError>)
    ensures f.OneOp? ==> r == Success(f.single)
    ensures r.Success? && f.OpList? ==> f.ops != [] && forall i :: 0 <= i < |f.ops| ==> f.ops[i] == r.value
    ensures r.Failure? ==>
              && r == Failure(MixedOperators) && f.OpList?
              && (f.ops == [] || exists i, j :: 0 <= i < j < |f.ops| && f.ops[i] != f.ops[j])
  {
    match f
    case OneOp(c) => Success(c)
    case OpList(ops) =>
      if |ops| > 0 && forall i :: 0 <= i < |ops| ==> ops[i] == ops[0] then Success(ops[0])
      else Failure(MixedOperators)
  }

  /**
   `process_ast`: the normalised operation for a syntax tree, or the shape
   assertion that fails on it.
   */
  function ProcessAst(ast: Ast): (r: Result<Operation, ShapeError>)
    ensures r.Success? ==> Shaped(r.value) && Normalised(r.value)
    ensures ast.Term? ==> r == Success(Operation(Lookup, [Word(ast.text)]))
    ensures ast.Node? && ast.op.None? && ast.lst.Absent? ==> r == ProcessAst(ast.fst)
    ensures ast.Node? && ast.op.None? && !ast.lst.Absent? ==> r == Failure(UnwrapWithRest)
    ensures r.Success? && ast.Node? && ast.op.Some? ==>
              ResolveOp(ast.op.value) == Success(r.value.op)
              && |r.value.args| >= |Operands(ast.fst, ast.lst)|
    decreases Size(ast), 1
  {
    match ast
    case Term(t) => Success(Operation(Lookup, [Word(t)]))
    case Node(None, fst, lst) =>
      if !lst.Absent? then Failure(UnwrapWithRest)
      else if fst.Node? then ProcessAst(fst)
      else Success(Operation(Lookup, [Word(fst.text)]))
    case Node(Some(field), fst, lst) =>
      var op :- ResolveOp(field);
      if op == Not && !lst.Absent? then Failure(NegationWithRest)
      else if op == Not && fst.Term? then Success(Operation(Not, [Word(fst.text)]))
      else
        var first :- ProcessAst(fst);
        AddArgNormalised(Operation(op, []), first);
        var o := AddArg(Operation(op, []), first);
        match lst
        case Absent => Success(o)
        case One(x) =>
          assert RestSize(lst) == Size(x);
          var c :- ProcessAst(x);
          AddArgNormalised(o, c);
          Success(AddArg(o, c))
        case Many(xs) =>
          assert RestSize(lst) == ListSize(xs);
          AddEach(o, xs)
  }

  /** The loop over a list-valued `lst`: processes and merges each item in order. */
  function AddEach(o: Operation, xs: seq<Ast>): (r: Result<Operation, ShapeError>)
    requires Normalised(o) && o.op != Lookup && o.op != Not && o.args != []
    ensures r.Success? ==> r.value.op == o.op && Normalised(r.value)
    ensures r.Success? ==> |r.value.args| >= |o.args| + |xs|
    decreases ListSize(xs), 2
  {
    if xs == [] then Success(o)
    else
      var c :- ProcessAst(xs[0]);
      AddArgNormalised(o, c);
      AddEach(AddArg(o, c), xs[1..])
  }

  /** The `lst` loop merges the processed items exactly as a left-to-right fold of `add_arg`. */
  lemma {:induction false} AddEachIsAddAll(o: Operation, xs: seq<Ast>, cs: seq<Operation>)
    requires Normalised(o) && o.op != Lookup && o.op != Not && o.args != []
    requires |cs| == |xs|
    requires forall i :: 0 <= i < |xs| ==> ProcessAst(xs[i]) == Success(cs[i])
    ensures forall i :: 0 <= i < |cs| ==> cs[i].args != []
    ensures AddEach(o, xs) == Success(AddAll(o, cs))
    decreases |xs|
  {
    if xs != [] {
      var c := cs[0];
      assert ProcessAst(xs[0]) == Success(c);
      AddArgNormalised(o, c);
      AddEachIsAddAll(AddArg(o, c), xs[1..], cs[1..]);
    }
  }

  /**
   Operands are processed and merged in order: `fst` first, then the `lst`
   item or each `lst` item, so the result is the left-to-right fold of
   `add_arg` over the processed operands.
   */
  lemma OperandsMergedInOrder(f: OpField, fst: Ast, lst: Rest, op: Connective, cs: seq<Operation>)
    requires ResolveOp(f) == Success(op)
    requires op == Not ==> fst.Node? && lst.Absent?
    requires |cs| == |Operands(fst, lst)|
    requires forall i :: 0 <= i < |cs| ==> ProcessAst(Operands(fst, lst)[i]) == Success(cs[i])
    ensures forall i :: 0 <= i < |cs| ==> cs[i].args != []
    ensures ProcessAst(Node(Some(f), fst, lst)) == Success(AddAll(Operation(op, []), cs))
  {
    var ops := Operands(fst, lst);
    assert ProcessAst(ops[0]) == Success(cs[0]);
    var o := AddArg(Operation(op, []), cs[0]);
    AddArgNormalised(Operation(op, []), cs[0]);
    match lst
    case Absent =>
    case One(x) =>
      assert ProcessAst(ops[1]) == Success(cs[1]);
      assert AddAll(o, cs[1..]) == AddAll(AddArg(o, cs[1]), cs[2..]);
    case Many(xs) =>
      assert forall i :: 0 <= i < |xs| ==> xs[i] == ops[i + 1];
      AddEachIsAddAll(o, xs, cs[1..]);
  }

  /** An operator given as a list of identical entries behaves as that single operator. */
  lemma OperatorListActsAsSingle(ops: seq<Connective>, fst: Ast, lst: Rest)
    requires |ops| > 0 && forall i :: 0 <= i < |ops| ==> ops[i] == ops[0]
    ensures ProcessAst(Node(Some(OpList(ops)), fst, lst)) == ProcessAst(Node(Some(OneOp(ops[0])), fst, lst))
  {
  }

  /** A NOT node over a bare term becomes `NOT [term]` directly, without merging. */
  lemma NegatedTermIsDirect(t: string)
    ensures ProcessAst(Node(Some(OneOp(Not)), Term(t), Absent)) == Success(Operation(Not, [Word(t)]))
  {
  }

  /**
   Because `add_arg` splices a child with the parent's operator, a NOT over a
   NOT collapses into a single NOT: `NOT (NOT t)` normalises like `NOT t`.
   */
  lemma DoubleNegationCollapses(t: string)
    ensures ProcessAst(Node(Some(OneOp(Not)), Node(Some(OneOp(Not)), Term(t), Absent), Absent))
            == Success(Operation(Not, [Word(t)]))
  {
  }

  /** A node with an operator, a first operand and a non-empty rest yields at least two arguments. */
  lemma RestGivesTwoArguments(f: OpField, fst: Ast, lst: Rest)
    requires lst.One? || (lst.Many? && lst.items != [])
    requires ProcessAst(Node(Some(f), fst, lst)).Success?
    ensures |ProcessAst(Node(Some(f), fst, lst)).value.args| >= 2
  {
  }

  /** A tree that carries an operator never normalises to a LOOKUP; a bare term never carries one. */
  lemma OperatorTreesAreNotLookups(ast: Ast)
    ensures ast.Term? ==> !AstHasOperation(ast)
    ensures AstHasOperation(ast) && ProcessAst(ast).Success? ==> ProcessAst(ast).value.op != Lookup
  {
  }

  /** `ast_has_operation`: the tree is a node that carries an operator. */
  predicate AstHasOperation(ast: Ast)
  {
    ast.Node? && ast.op.Some?
  }

  /** A nested operation occurs among the top-level arguments. */
  predicate IsComplex(o: Operation)
  {
    exists i :: 0 <= i < |o.args| && o.args[i].Sub?
  }

  /** `operation_is_complex`: scans the arguments for a nested operation. */
  method OperationIsComplex(o: Operation) returns (complex: bool)
    ensures complex <==> exists i :: 0 <= i < |o.args| && o.args[i].Sub?
  {
    for i := 0 to |o.args|
      invariant forall j :: 0 <= j < i ==> o.args[j].Word?
    {
      if o.args[i].Sub? {
        return true;
      }
    }
    return false;
  }
}
