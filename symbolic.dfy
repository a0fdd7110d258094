/** Symbolic expressions over the trace and the node arena they are
    flattened into (air_builders/symbolic/dag.rs and the types it uses).

    A `SymbolicExpression` shares its operands through `Arc`s.  The DAG
    builder's cache recognises a composite expression by the addresses of
    those `Arc`s (see the test at dag.rs:245), so the model keeps, for every
    operand, the address it lives at (`Arc.ptr`) next to the value it points
    to.  `Erase` forgets the addresses; two expressions with equal erasures
    are equal as Rust values (`PartialEq` compares the pointees). */
module Symbolic {
  import opened Algebra

  /** Where a variable is read from; `offset` 0 is the current row and 1 the next. */
  datatype Entry =
    | Preprocessed(offset: nat)
    | Main(partIndex: nat, offset: nat)
    | Permutation(offset: nat)
    | Public
    | Challenge
    | Exposed

  datatype SymbolicVariable = SymbolicVariable(entry: Entry, index: nat)

  /** A node of the arena; operands are referred to by node index. */
  datatype Node =
    | Variable(v: SymbolicVariable)
    | IsFirstRow
    | IsLastRow
    | IsTransition
    | Constant(c: Val)
    | Add(leftIdx: nat, rightIdx: nat, degreeMultiple: nat)
    | Sub(leftIdx: nat, rightIdx: nat, degreeMultiple: nat)
    | Neg(idx: nat, degreeMultiple: nat)
    | Mul(leftIdx: nat, rightIdx: nat, degreeMultiple: nat)

  /** `SymbolicExpressionDag`: the arena and the roots of the constraints. */
  datatype Dag = Dag(nodes: seq<Node>, constraintIdx: seq<nat>)

  /** Every operand index is smaller than the index of the node using it. */
  predicate Topo(nodes: seq<Node>) {
    forall i :: 0 <= i < |nodes| ==> ChildrenBelow(nodes[i], i)
  }

  predicate ChildrenBelow(n: Node, bound: nat) {
    match n
    case Add(l, r, _) => l < bound && r < bound
    case Sub(l, r, _) => l < bound && r < bound
    case Mul(l, r, _) => l < bound && r < bound
    case Neg(x, _) => x < bound
    case _ => true
  }

  /** What every DAG produced by the builder satisfies. */
  predicate WellFormed(dag: Dag) {
    && Topo(dag.nodes)
    && forall j :: 0 <= j < |dag.constraintIdx| ==> dag.constraintIdx[j] < |dag.nodes|
  }

  /** `SymbolicExpression`; the operands are `Arc`s. */
  datatype Expr =
    | Variable(v: SymbolicVariable)
    | IsFirstRow
    | IsLastRow
    | IsTransition
    | Constant(c: Val)
    | Add(x: Arc, y: Arc, degreeMultiple: nat)
    | Sub(x: Arc, y: Arc, degreeMultiple: nat)
    | Neg(x: Arc, degreeMultiple: nat)
    | Mul(x: Arc, y: Arc, degreeMultiple: nat)

  /** An `Arc<SymbolicExpression>`: the address of the allocation and its contents. */
  datatype Arc = Arc(ptr: nat, target: Expr)

  predicate IsLeaf(e: Expr) {
    e.Variable? || e.IsFirstRow? || e.IsLastRow? || e.IsTransition? || e.Constant?
  }

  /** The expression as a value, with every address forgotten. */
  function Erase(e: Expr): Expr {
    match e
    case Add(x, y, d) => Expr.Add(Arc(0, Erase(x.target)), Arc(0, Erase(y.target)), d)
    case Sub(x, y, d) => Expr.Sub(Arc(0, Erase(x.target)), Arc(0, Erase(y.target)), d)
    case Mul(x, y, d) => Expr.Mul(Arc(0, Erase(x.target)), Arc(0, Erase(y.target)), d)
    case Neg(x, d) => Expr.Neg(Arc(0, Erase(x.target)), d)
    case _ => e
  }

  /** What the DAG builder's cache recognises an expression by: a leaf by its
      value, a composite by its operator, its operand addresses and its degree. */
  datatype Key =
    | LeafKey(leaf: Expr)
    | AddKey(l: nat, r: nat, d: nat)
    | SubKey(l: nat, r: nat, d: nat)
    | NegKey(i: nat, d: nat)
    | MulKey(l: nat, r: nat, d: nat)

  function KeyOf(e: Expr): Key {
    match e
    case Add(x, y, d) => AddKey(x.ptr, y.ptr, d)
    case Sub(x, y, d) => SubKey(x.ptr, y.ptr, d)
    case Mul(x, y, d) => MulKey(x.ptr, y.ptr, d)
    case Neg(x, d) => NegKey(x.ptr, d)
    case _ => LeafKey(e)
  }

  /** `e` and all the expressions reachable from it. */
  function Subexprs(e: Expr): set<Expr> {
    {e} + match e
      case Add(x, y, _) => Subexprs(x.target) + Subexprs(y.target)
      case Sub(x, y, _) => Subexprs(x.target) + Subexprs(y.target)
      case Mul(x, y, _) => Subexprs(x.target) + Subexprs(y.target)
      case Neg(x, _) => Subexprs(x.target)
      case _ => {}
  }

  function SubexprsOf(exprs: seq<Expr>): set<Expr> {
    if |exprs| == 0 then {} else SubexprsOf(exprs[..|exprs| - 1]) + Subexprs(exprs[|exprs| - 1])
  }

  /** Every `Arc` reachable from `e`. */
  function ArcsOf(e: Expr): set<Arc> {
    match e
    case Add(x, y, _) => {x, y} + ArcsOf(x.target) + ArcsOf(y.target)
    case Sub(x, y, _) => {x, y} + ArcsOf(x.target) + ArcsOf(y.target)
    case Mul(x, y, _) => {x, y} + ArcsOf(x.target) + ArcsOf(y.target)
    case Neg(x, _) => {x} + ArcsOf(x.target)
    case _ => {}
  }

  function ArcsOfAll(exprs: seq<Expr>): set<Arc> {
    if |exprs| == 0 then {} else ArcsOfAll(exprs[..|exprs| - 1]) + ArcsOf(exprs[|exprs| - 1])
  }

  /** The operands of every member of `U` are members of `U`. */
  ghost predicate Closed(U: set<Expr>) {
    forall e :: e in U ==> match e
      case Add(x, y, _) => x.target in U && y.target in U
      case Sub(x, y, _) => x.target in U && y.target in U
      case Mul(x, y, _) => x.target in U && y.target in U
      case Neg(x, _) => x.target in U
      case _ => true
  }

  /** A cache hit within `U` always denotes an equal expression. */
  ghost predicate KeyConsistent(U: set<Expr>) {
    forall e1, e2 :: e1 in U && e2 in U && KeyOf(e1) == KeyOf(e2) ==> Erase(e1) == Erase(e2)
  }

  /** Two `Arc`s at the same address hold equal values, as on any real heap. */
  ghost predicate PointerConsistent(A: set<Arc>) {
    forall a, b :: a in A && b in A && a.ptr == b.ptr ==> Erase(a.target) == Erase(b.target)
  }

  lemma {:induction false} SubexprsClosed(e: Expr)
    ensures e in Subexprs(e)
    ensures Closed(Subexprs(e))
  {
    forall s | s in Subexprs(e)
      ensures match s
        case Add(x, y, _) => x.target in Subexprs(e) && y.target in Subexprs(e)
        case Sub(x, y, _) => x.target in Subexprs(e) && y.target in Subexprs(e)
        case Mul(x, y, _) => x.target in Subexprs(e) && y.target in Subexprs(e)
        case Neg(x, _) => x.target in Subexprs(e)
        case _ => true
    {
      SubexprContained(e, s);
    }
  }

  /** A subexpression's subexpressions are subexpressions, and its operand
      `Arc`s are among the `Arc`s of the whole. */
  lemma {:induction false} SubexprContained(e: Expr, s: Expr)
    requires s in Subexprs(e)
    ensures Subexprs(s) <= Subexprs(e)
    ensures ArcsOf(s) <= ArcsOf(e)
    ensures match s
      case Add(x, y, _) => x in ArcsOf(e) && y in ArcsOf(e)
      case Sub(x, y, _) => x in ArcsOf(e) && y in ArcsOf(e)
      case Mul(x, y, _) => x in ArcsOf(e) && y in ArcsOf(e)
      case Neg(x, _) => x in ArcsOf(e)
      case _ => true
    decreases e
  {
    if s != e {
      match e
      case Add(x, y, _) =>
        if s in Subexprs(x.target) { SubexprContained(x.target, s); } else { SubexprContained(y.target, s); }
      case Sub(x, y, _) =>
        if s in Subexprs(x.target) { SubexprContained(x.target, s); } else { SubexprContained(y.target, s); }
      case Mul(x, y, _) =>
        if s in Subexprs(x.target) { SubexprContained(x.target, s); } else { SubexprContained(y.target, s); }
      case Neg(x, _) =>
        SubexprContained(x.target, s);
    }
  }

  lemma ClosedUnion(A: set<Expr>, B: set<Expr>)
    requires Closed(A) && Closed(B)
    ensures Closed(A + B)
  {
    forall e | e in A + B
      ensures match e
        case Add(x, y, _) => x.target in A + B && y.target in A + B
        case Sub(x, y, _) => x.target in A + B && y.target in A + B
        case Mul(x, y, _) => x.target in A + B && y.target in A + B
        case Neg(x, _) => x.target in A + B
        case _ => true
    {
      if e in A { assert e in A; } else { assert e in B; }
    }
  }

  lemma {:induction false} SubexprsOfAll(exprs: seq<Expr>)
    ensures forall j :: 0 <= j < |exprs| ==> exprs[j] in SubexprsOf(exprs)
    ensures Closed(SubexprsOf(exprs))
    decreases |exprs|
  {
    if |exprs| > 0 {
      var n := |exprs|;
      SubexprsOfAll(exprs[..n - 1]);
      SubexprsClosed(exprs[n - 1]);
      ClosedUnion(SubexprsOf(exprs[..n - 1]), Subexprs(exprs[n - 1]));
      forall j | 0 <= j < n - 1 ensures exprs[j] in SubexprsOf(exprs) {
        assert exprs[..n - 1][j] == exprs[j];
      }
    }
  }

  lemma {:induction false} SubexprsOfOrigin(exprs: seq<Expr>, s: Expr) returns (j: nat)
    requires s in SubexprsOf(exprs)
    ensures j < |exprs| && s in Subexprs(exprs[j])
    decreases |exprs|
  {
    var n := |exprs|;
    if s in Subexprs(exprs[n - 1]) {
      j := n - 1;
    } else {
      j := SubexprsOfOrigin(exprs[..n - 1], s);
    }
  }

  lemma {:induction false} ArcsOfAllContains(exprs: seq<Expr>, j: nat)
    requires j < |exprs|
    ensures ArcsOf(exprs[j]) <= ArcsOfAll(exprs)
    decreases |exprs|
  {
    if j < |exprs| - 1 {
      ArcsOfAllContains(exprs[..|exprs| - 1], j);
    }
  }

  /** Arc addresses that identify their contents make every cache hit sound:
      within the constraints, expressions the cache cannot tell apart are equal. */
  lemma PointerConsistencyMakesKeysConsistent(exprs: seq<Expr>)
    requires PointerConsistent(ArcsOfAll(exprs))
    ensures KeyConsistent(SubexprsOf(exprs))
  {
    var U, A := SubexprsOf(exprs), ArcsOfAll(exprs);
    forall e1, e2 | e1 in U && e2 in U && KeyOf(e1) == KeyOf(e2)
      ensures Erase(e1) == Erase(e2)
    {
      var j1 := SubexprsOfOrigin(exprs, e1);
      var j2 := SubexprsOfOrigin(exprs, e2);
      SubexprContained(exprs[j1], e1);
      SubexprContained(exprs[j2], e2);
      ArcsOfAllContains(exprs, j1);
      ArcsOfAllContains(exprs, j2);
    }
  }
}
