/** Interpreting a node arena: what the three DAG interpreters of the backend
    (the two prover evaluators and the verifier folder) have in common.

    An interpreter is given the arithmetic of its value type (`Ops`) and the
    value of every leaf node (`leaf`: a variable read, a constant or a row
    selector; a read may panic).  It walks the nodes in stored order and
    gives each composite node the combination of values already computed.
    `EvalArena` is that walk as a function; `EvalExpr` interprets an
    expression tree directly (the `eval_expr` the verifier's comment at
    air_builders/verifier.rs:133 warns against).  The lemmas below show that
    the walk over a DAG built from some constraints gives every constraint the
    value its tree has, and that a map commuting with the arithmetic commutes
    with the walk. */
module Evaluation {
  import opened Wrappers
  import opened Algebra
  import opened Symbolic
  import DagBuild

  /** The arithmetic of an interpreter's value type. */
  datatype Ops<!T> = Ops(add: (T, T) -> T, sub: (T, T) -> T, neg: T -> T, mul: (T, T) -> T)

  /** The ring operations of an extension, as interpreter arithmetic. */
  function ExtOps<E>(R: Ext<E>): Ops<E> {
    Ops(R.add, R.sub, R.neg, R.mul)
  }

  predicate IsLeafNode(n: Node) {
    n.Variable? || n.IsFirstRow? || n.IsLastRow? || n.IsTransition? || n.Constant?
  }

  /** The value of node `n` when the earlier nodes have the values `vals`. */
  function NodeValue<T>(ops: Ops<T>, leaf: Node -> Result<T>, n: Node, vals: seq<T>): Result<T>
    requires ChildrenBelow(n, |vals|)
  {
    match n
    case Add(l, r, _) => Ok(ops.add(vals[l], vals[r]))
    case Sub(l, r, _) => Ok(ops.sub(vals[l], vals[r]))
    case Neg(i, _) => Ok(ops.neg(vals[i]))
    case Mul(l, r, _) => Ok(ops.mul(vals[l], vals[r]))
    case _ => leaf(n)
  }

  lemma TopoPrefix(nodes: seq<Node>, k: nat)
    requires Topo(nodes) && k <= |nodes|
    ensures Topo(nodes[..k])
  {
    forall i | 0 <= i < k ensures ChildrenBelow(nodes[..k][i], i) {
      assert nodes[..k][i] == nodes[i];
    }
  }

  /** The values of all nodes, computed in stored order; the first leaf whose
      read panics makes the whole walk panic. */
  function EvalArena<T>(ops: Ops<T>, leaf: Node -> Result<T>, nodes: seq<Node>): (r: Result<seq<T>>)
    requires Topo(nodes)
    ensures r.Ok? ==> |r.value| == |nodes|
    decreases |nodes|
  {
    if |nodes| == 0 then Ok([])
    else
      var n := |nodes|;
      TopoPrefix(nodes, n - 1);
      var prev :- EvalArena(ops, leaf, nodes[..n - 1]);
      var v :- NodeValue(ops, leaf, nodes[n - 1], prev);
      Ok(prev + [v])
  }

  /** One more node: the walk over `nodes[..i + 1]` extends the walk over
      `nodes[..i]` by the value of node `i`. */
  lemma ArenaStep<T>(ops: Ops<T>, leaf: Node -> Result<T>, nodes: seq<Node>, i: nat)
    requires Topo(nodes) && i < |nodes|
    requires EvalArena(ops, leaf, nodes[..i]).Ok?
    ensures Topo(nodes[..i]) && ChildrenBelow(nodes[i], i)
    ensures var prev := EvalArena(ops, leaf, nodes[..i]).value;
      EvalArena(ops, leaf, nodes[..i + 1]) ==
        match NodeValue(ops, leaf, nodes[i], prev)
        case Ok(v) => Ok(prev + [v])
        case Panic(m) => Panic(m)
  {
    TopoPrefix(nodes, i);
    TopoPrefix(nodes, i + 1);
    assert nodes[..i + 1][..i] == nodes[..i];
  }

  /** A walk that succeeds on the whole arena succeeds on every prefix, with
      the prefix of the values. */
  lemma {:induction false} ArenaPrefix<T>(ops: Ops<T>, leaf: Node -> Result<T>, nodes: seq<Node>, k: nat)
    requires Topo(nodes) && k <= |nodes|
    requires EvalArena(ops, leaf, nodes).Ok?
    ensures Topo(nodes[..k])
    ensures EvalArena(ops, leaf, nodes[..k]) == Ok(EvalArena(ops, leaf, nodes).value[..k])
    decreases |nodes| - k
  {
    TopoPrefix(nodes, k);
    if k < |nodes| {
      var n := |nodes|;
      TopoPrefix(nodes, n - 1);
      assert nodes[..n - 1][..k] == nodes[..k];
      ArenaPrefix(ops, leaf, nodes[..n - 1], k);
      var whole, prev := EvalArena(ops, leaf, nodes).value, EvalArena(ops, leaf, nodes[..n - 1]).value;
      assert whole == prev + [whole[n - 1]];
      assert whole[..k] == prev[..k];
    } else {
      assert nodes[..k] == nodes;
      assert EvalArena(ops, leaf, nodes).value[..k] == EvalArena(ops, leaf, nodes).value;
    }
  }

  /** The leaf node an expression leaf corresponds to. */
  function LeafOf(e: Expr): Node
    requires IsLeaf(e)
  {
    match e
    case Variable(v) => Node.Variable(v)
    case IsFirstRow => Node.IsFirstRow
    case IsLastRow => Node.IsLastRow
    case IsTransition => Node.IsTransition
    case Constant(c) => Node.Constant(c)
  }

  /** Direct interpretation of an expression tree, left operand first. */
  function EvalExpr<T>(ops: Ops<T>, leaf: Node -> Result<T>, e: Expr): Result<T>
    decreases e
  {
    match e
    case Add(x, y, _) =>
      var a :- EvalExpr(ops, leaf, x.target);
      var b :- EvalExpr(ops, leaf, y.target);
      Ok(ops.add(a, b))
    case Sub(x, y, _) =>
      var a :- EvalExpr(ops, leaf, x.target);
      var b :- EvalExpr(ops, leaf, y.target);
      Ok(ops.sub(a, b))
    case Mul(x, y, _) =>
      var a :- EvalExpr(ops, leaf, x.target);
      var b :- EvalExpr(ops, leaf, y.target);
      Ok(ops.mul(a, b))
    case Neg(x, _) =>
      var a :- EvalExpr(ops, leaf, x.target);
      Ok(ops.neg(a))
    case _ => leaf(LeafOf(e))
  }

  /** The value of an expression does not depend on where its operands live. */
  lemma {:induction false} EvalExprErase<T>(ops: Ops<T>, leaf: Node -> Result<T>, e: Expr)
    ensures EvalExpr(ops, leaf, Erase(e)) == EvalExpr(ops, leaf, e)
    decreases e
  {
    match e
    case Add(x, y, _) => EvalExprErase(ops, leaf, x.target); EvalExprErase(ops, leaf, y.target);
    case Sub(x, y, _) => EvalExprErase(ops, leaf, x.target); EvalExprErase(ops, leaf, y.target);
    case Mul(x, y, _) => EvalExprErase(ops, leaf, x.target); EvalExprErase(ops, leaf, y.target);
    case Neg(x, _) => EvalExprErase(ops, leaf, x.target);
    case _ =>
  }

  /** Expressions with equal erasures have equal values. */
  lemma EvalExprErasedEqual<T>(ops: Ops<T>, leaf: Node -> Result<T>, e1: Expr, e2: Expr)
    requires Erase(e1) == Erase(e2)
    ensures EvalExpr(ops, leaf, e1) == EvalExpr(ops, leaf, e2)
  {
    EvalExprErase(ops, leaf, e1);
    EvalExprErase(ops, leaf, e2);
  }

  /** The walk gives node `i` the value of the tree `to_symbolic_expressions`
      rebuilds for it. */
  lemma {:induction false} ArenaMatchesTrees<T>(ops: Ops<T>, leaf: Node -> Result<T>, nodes: seq<Node>)
    requires Topo(nodes)
    requires EvalArena(ops, leaf, nodes).Ok?
    ensures forall i :: 0 <= i < |nodes| ==>
      EvalExpr(ops, leaf, DagBuild.Rebuild(nodes)[i]) == Ok(EvalArena(ops, leaf, nodes).value[i])
    decreases |nodes|
  {
    if |nodes| > 0 {
      var n := |nodes|;
      var pre := nodes[..n - 1];
      TopoPrefix(nodes, n - 1);
      ArenaMatchesTrees(ops, leaf, pre);
      var prev := EvalArena(ops, leaf, pre).value;
      var prevE := DagBuild.Rebuild(pre);
      assert DagBuild.Rebuild(nodes) == prevE + [DagBuild.NodeExpr(nodes[n - 1], prevE)];
      var last := nodes[n - 1];
      assert ChildrenBelow(last, n - 1);
      match last
      case Add(l, r, _) =>
        assert EvalExpr(ops, leaf, prevE[l]) == Ok(prev[l]);
        assert EvalExpr(ops, leaf, prevE[r]) == Ok(prev[r]);
      case Sub(l, r, _) =>
        assert EvalExpr(ops, leaf, prevE[l]) == Ok(prev[l]);
        assert EvalExpr(ops, leaf, prevE[r]) == Ok(prev[r]);
      case Mul(l, r, _) =>
        assert EvalExpr(ops, leaf, prevE[l]) == Ok(prev[l]);
        assert EvalExpr(ops, leaf, prevE[r]) == Ok(prev[r]);
      case Neg(i, _) =>
        assert EvalExpr(ops, leaf, prevE[i]) == Ok(prev[i]);
      case _ =>
    }
  }

  /** The walk succeeds exactly when every leaf of the arena can be read. */
  lemma {:induction false} ArenaOkIffLeavesOk<T>(ops: Ops<T>, leaf: Node -> Result<T>, nodes: seq<Node>)
    requires Topo(nodes)
    ensures EvalArena(ops, leaf, nodes).Ok? <==>
      forall i :: 0 <= i < |nodes| && IsLeafNode(nodes[i]) ==> leaf(nodes[i]).Ok?
    decreases |nodes|
  {
    if |nodes| > 0 {
      var n := |nodes|;
      TopoPrefix(nodes, n - 1);
      ArenaOkIffLeavesOk(ops, leaf, nodes[..n - 1]);
      assert forall i :: 0 <= i < n - 1 ==> nodes[..n - 1][i] == nodes[i];
    }
  }

  /** The values of the constraint roots, in `constraint_idx` order. */
  function RootValues<T>(vals: seq<T>, roots: seq<nat>): (r: seq<T>)
    requires forall j :: 0 <= j < |roots| ==> roots[j] < |vals|
    ensures |r| == |roots|
    ensures forall j :: 0 <= j < |roots| ==> r[j] == vals[roots[j]]
  {
    seq(|roots|, j requires 0 <= j < |roots| => vals[roots[j]])
  }

  /** Interpreting the DAG built from `exprs` gives every constraint the value
      of its own tree, provided the builder's cache only identified equal
      expressions. */
  lemma DagEvaluatesConstraints<T>(ops: Ops<T>, leaf: Node -> Result<T>, exprs: seq<Expr>)
    requires KeyConsistent(SubexprsOf(exprs))
    ensures var dag := DagBuild.BuildSpec(exprs);
      WellFormed(dag) && |dag.constraintIdx| == |exprs| &&
      (EvalArena(ops, leaf, dag.nodes).Ok? ==>
        forall j :: 0 <= j < |exprs| ==>
          EvalExpr(ops, leaf, exprs[j]) == Ok(EvalArena(ops, leaf, dag.nodes).value[dag.constraintIdx[j]]))
  {
    var dag := DagBuild.BuildSpec(exprs);
    DagBuild.BuildRoundTrip(exprs);
    if EvalArena(ops, leaf, dag.nodes).Ok? {
      ArenaMatchesTrees(ops, leaf, dag.nodes);
      forall j | 0 <= j < |exprs|
        ensures EvalExpr(ops, leaf, exprs[j]) == Ok(EvalArena(ops, leaf, dag.nodes).value[dag.constraintIdx[j]])
      {
        EvalExprErasedEqual(ops, leaf, DagBuild.Rebuild(dag.nodes)[dag.constraintIdx[j]], exprs[j]);
      }
    }
  }

  /** The values of the constraint trees, when each of them evaluates. */
  function TreeValues<T>(ops: Ops<T>, leaf: Node -> Result<T>, exprs: seq<Expr>): (r: seq<T>)
    requires forall j :: 0 <= j < |exprs| ==> EvalExpr(ops, leaf, exprs[j]).Ok?
    ensures |r| == |exprs|
    ensures forall j :: 0 <= j < |exprs| ==> EvalExpr(ops, leaf, exprs[j]) == Ok(r[j])
  {
    seq(|exprs|, j requires 0 <= j < |exprs| => EvalExpr(ops, leaf, exprs[j]).value)
  }

  /** The same statement over the whole list of roots: when the DAG evaluates,
      so does every constraint tree, and the roots carry the trees' values. */
  lemma DagRootsAreTrees<T>(ops: Ops<T>, leaf: Node -> Result<T>, exprs: seq<Expr>)
    requires KeyConsistent(SubexprsOf(exprs))
    requires WellFormed(DagBuild.BuildSpec(exprs))
    requires EvalArena(ops, leaf, DagBuild.BuildSpec(exprs).nodes).Ok?
    ensures forall j :: 0 <= j < |exprs| ==> EvalExpr(ops, leaf, exprs[j]).Ok?
    ensures RootValues(EvalArena(ops, leaf, DagBuild.BuildSpec(exprs).nodes).value, DagBuild.BuildSpec(exprs).constraintIdx)
      == TreeValues(ops, leaf, exprs)
  {
    DagEvaluatesConstraints(ops, leaf, exprs);
  }

  /** `h` commutes with the arithmetic at `a`, `b`. */
  ghost predicate HomAt<T, U>(o1: Ops<T>, o2: Ops<U>, h: T -> U, a: T, b: T) {
    && h(o1.add(a, b)) == o2.add(h(a), h(b))
    && h(o1.sub(a, b)) == o2.sub(h(a), h(b))
    && h(o1.mul(a, b)) == o2.mul(h(a), h(b))
    && h(o1.neg(a)) == o2.neg(h(a))
  }

  ghost predicate IsHom<T(!new), U>(o1: Ops<T>, o2: Ops<U>, h: T -> U) {
    forall a, b {:trigger HomAt(o1, o2, h, a, b)} :: HomAt(o1, o2, h, a, b)
  }

  function MapSeq<T, U>(s: seq<T>, h: T -> U): (r: seq<U>)
    ensures |r| == |s|
    ensures forall i :: 0 <= i < |s| ==> r[i] == h(s[i])
  {
    seq(|s|, i requires 0 <= i < |s| => h(s[i]))
  }

  /** One step of the walk commutes with a homomorphism. */
  lemma NodeValueHom<T(!new), U>(
    o1: Ops<T>, o2: Ops<U>, h: T -> U, l1: Node -> Result<T>, l2: Node -> Result<U>,
    n: Node, v1: seq<T>, v2: seq<U>)
    requires ChildrenBelow(n, |v1|) && v2 == MapSeq(v1, h)
    requires IsHom(o1, o2, h)
    requires IsLeafNode(n) && l1(n).Ok? ==> l2(n) == Ok(h(l1(n).value))
    requires NodeValue(o1, l1, n, v1).Ok?
    ensures NodeValue(o2, l2, n, v2) == Ok(h(NodeValue(o1, l1, n, v1).value))
  {
    match n
    case Add(l, r, _) => assert HomAt(o1, o2, h, v1[l], v1[r]);
    case Sub(l, r, _) => assert HomAt(o1, o2, h, v1[l], v1[r]);
    case Mul(l, r, _) => assert HomAt(o1, o2, h, v1[l], v1[r]);
    case Neg(i, _) => assert HomAt(o1, o2, h, v1[i], v1[i]);
    case _ =>
  }

  /** If every leaf `l1` can read is read by `l2` as its image under a map
      commuting with the arithmetic, the second walk computes the image of the
      first. */
  lemma {:induction false} ArenaHomomorphism<T(!new), U>(
    o1: Ops<T>, o2: Ops<U>, h: T -> U, l1: Node -> Result<T>, l2: Node -> Result<U>, nodes: seq<Node>)
    requires Topo(nodes)
    requires IsHom(o1, o2, h)
    requires forall i :: 0 <= i < |nodes| && IsLeafNode(nodes[i]) && l1(nodes[i]).Ok? ==>
      l2(nodes[i]) == Ok(h(l1(nodes[i]).value))
    requires EvalArena(o1, l1, nodes).Ok?
    ensures EvalArena(o2, l2, nodes) == Ok(MapSeq(EvalArena(o1, l1, nodes).value, h))
    decreases |nodes|
  {
    if |nodes| > 0 {
      var n := |nodes|;
      var pre := nodes[..n - 1];
      TopoPrefix(nodes, n - 1);
      assert forall i :: 0 <= i < n - 1 ==> pre[i] == nodes[i];
      ArenaHomomorphism(o1, o2, h, l1, l2, pre);
      var v1 := EvalArena(o1, l1, pre).value;
      var v2 := EvalArena(o2, l2, pre).value;
      assert ChildrenBelow(nodes[n - 1], n - 1);
      NodeValueHom(o1, o2, h, l1, l2, nodes[n - 1], v1, v2);
      var w := EvalArena(o1, l1, nodes).value;
      assert MapSeq(w, h) == v2 + [h(w[n - 1])];
    }
  }
}
