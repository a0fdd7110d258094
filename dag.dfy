/** Flattening constraint expressions into a node arena and back
    (air_builders/symbolic/dag.rs). */
module DagBuild {
  import opened Wrappers
  import opened Algebra
  import opened Symbolic

  /** The expression a node stands for, given the expressions of the nodes
      before it; the `Arc` made for node i is given address i. */
  function NodeExpr(n: Node, prev: seq<Expr>): Expr
    requires ChildrenBelow(n, |prev|)
  {
    match n
    case Variable(v) => Expr.Variable(v)
    case IsFirstRow => Expr.IsFirstRow
    case IsLastRow => Expr.IsLastRow
    case IsTransition => Expr.IsTransition
    case Constant(c) => Expr.Constant(c)
    case Add(l, r, d) => Expr.Add(Arc(l, prev[l]), Arc(r, prev[r]), d)
    case Sub(l, r, d) => Expr.Sub(Arc(l, prev[l]), Arc(r, prev[r]), d)
    case Neg(i, d) => Expr.Neg(Arc(i, prev[i]), d)
    case Mul(l, r, d) => Expr.Mul(Arc(l, prev[l]), Arc(r, prev[r]), d)
  }

  /** The expression of every node of a topologically ordered arena. */
  function Rebuild(nodes: seq<Node>): (r: seq<Expr>)
    requires Topo(nodes)
    ensures |r| == |nodes|
    decreases |nodes|
  {
    if |nodes| == 0 then []
    else
      var prev := Rebuild(nodes[..|nodes| - 1]);
      prev + [NodeExpr(nodes[|nodes| - 1], prev)]
  }

  /** Appending nodes does not change the expressions of the earlier ones. */
  lemma {:induction false} RebuildPrefix(nodes: seq<Node>, k: nat)
    requires Topo(nodes) && k <= |nodes|
    ensures Topo(nodes[..k])
    ensures Rebuild(nodes[..k]) == Rebuild(nodes)[..k]
    decreases |nodes|
  {
    if k < |nodes| {
      var m := |nodes| - 1;
      assert nodes[..m][..k] == nodes[..k];
      RebuildPrefix(nodes[..m], k);
    } else {
      assert nodes[..k] == nodes;
    }
  }

  lemma RebuildPush(nodes: seq<Node>, n: Node)
    requires Topo(nodes) && ChildrenBelow(n, |nodes|)
    ensures Topo(nodes + [n])
    ensures Rebuild(nodes + [n]) == Rebuild(nodes) + [NodeExpr(n, Rebuild(nodes))]
  {
    var all := nodes + [n];
    assert all[..|nodes|] == nodes;
    assert forall i :: 0 <= i < |nodes| ==> all[i] == nodes[i];
    assert Topo(all);
  }

  /** The builder's state: the cache `expr_to_idx` and the arena `nodes`. */
  datatype SortState = SortState(cache: map<Key, nat>, nodes: seq<Node>)

  function Push(st: SortState, e: Expr, n: Node): (nat, SortState) {
    (|st.nodes|, SortState(st.cache[KeyOf(e) := |st.nodes|], st.nodes + [n]))
  }

  /** The node of a leaf expression. */
  function LeafNode(e: Expr): Node
    requires IsLeaf(e)
  {
    match e
    case Variable(v) => Node.Variable(v)
    case IsFirstRow => Node.IsFirstRow
    case IsLastRow => Node.IsLastRow
    case IsTransition => Node.IsTransition
    case Constant(c) => Node.Constant(c)
  }

  predicate IsBinary(e: Expr) { e.Add? || e.Sub? || e.Mul? }

  /** The node of a binary expression whose operands got indices `l` and `r`;
      the degree multiple is copied. */
  function BinaryNode(e: Expr, l: nat, r: nat): Node
    requires IsBinary(e)
  {
    match e
    case Add(_, _, d) => Node.Add(l, r, d)
    case Sub(_, _, d) => Node.Sub(l, r, d)
    case Mul(_, _, d) => Node.Mul(l, r, d)
  }

  /** `topological_sort_symbolic_expr`: the index of `e`'s node and the new
      state.  A hit returns the cached index; otherwise the operands are sorted
      left then right, and `e`'s node is appended and cached. */
  function TopoSort(e: Expr, st: SortState): (nat, SortState)
    decreases e
  {
    if KeyOf(e) in st.cache then (st.cache[KeyOf(e)], st)
    else if IsLeaf(e) then Push(st, e, LeafNode(e))
    else if e.Neg? then
      var (i, st1) := TopoSort(e.x.target, st);
      Push(st1, e, Node.Neg(i, e.degreeMultiple))
    else
      var (l, st1) := TopoSort(e.x.target, st);
      var (r, st2) := TopoSort(e.y.target, st1);
      Push(st2, e, BinaryNode(e, l, r))
  }

  /** The arena is topologically ordered and the cache only names existing nodes. */
  predicate Bounded(st: SortState) {
    && Topo(st.nodes)
    && forall k :: k in st.cache ==> st.cache[k] < |st.nodes|
  }

  /** A cache hit returns the cached index and leaves the state alone; a miss
      appends nodes, the last of which is `e`'s, and caches it.  Either way the
      arena stays topologically ordered and only grows. */
  lemma {:induction false} TopoSortShape(e: Expr, st: SortState)
    requires Bounded(st)
    ensures var (idx, st') := TopoSort(e, st);
      && Bounded(st')
      && st.nodes <= st'.nodes
      && idx < |st'.nodes|
      && KeyOf(e) in st'.cache && st'.cache[KeyOf(e)] == idx
      && (KeyOf(e) in st.cache ==> idx == st.cache[KeyOf(e)] && st' == st)
      && (KeyOf(e) !in st.cache ==> |st'.nodes| > |st.nodes| && idx == |st'.nodes| - 1)
    decreases e
  {
    if KeyOf(e) !in st.cache && !IsLeaf(e) {
      var (l, st1) := TopoSort(e.x.target, st);
      TopoSortShape(e.x.target, st);
      if e.Neg? {
        RebuildPushTopo(st1.nodes, Node.Neg(l, e.degreeMultiple));
      } else {
        var (r, st2) := TopoSort(e.y.target, st1);
        TopoSortShape(e.y.target, st1);
        RebuildPushTopo(st2.nodes, BinaryNode(e, l, r));
      }
    }
  }

  lemma RebuildPushTopo(nodes: seq<Node>, n: Node)
    requires Topo(nodes) && ChildrenBelow(n, |nodes|)
    ensures Topo(nodes + [n])
  {
  }

  /** Every cached index of an expression of `U` holds a node whose expression
      equals it. */
  ghost predicate CacheSound(U: set<Expr>, st: SortState) {
    && Bounded(st)
    && forall e :: e in U && KeyOf(e) in st.cache ==>
         Erase(Rebuild(st.nodes)[st.cache[KeyOf(e)]]) == Erase(e)
  }

  lemma PushSound(U: set<Expr>, st: SortState, e: Expr, n: Node)
    requires KeyConsistent(U) && e in U && CacheSound(U, st)
    requires ChildrenBelow(n, |st.nodes|)
    requires Erase(NodeExpr(n, Rebuild(st.nodes))) == Erase(e)
    ensures var (idx, st') := Push(st, e, n);
      CacheSound(U, st') && Erase(Rebuild(st'.nodes)[idx]) == Erase(e)
  {
    var (idx, st') := Push(st, e, n);
    RebuildPush(st.nodes, n);
    forall e' | e' in U && KeyOf(e') in st'.cache
      ensures Erase(Rebuild(st'.nodes)[st'.cache[KeyOf(e')]]) == Erase(e')
    {
      if KeyOf(e') == KeyOf(e) {
        assert Erase(e') == Erase(e);
      }
    }
  }

  /** Given a cache whose hits denote equal expressions, the node returned for
      `e` rebuilds to `e` (up to `Arc` addresses, so with the same operators,
      leaves and degree multiples), and the cache stays sound. */
  lemma {:induction false} TopoSortCorrect(U: set<Expr>, e: Expr, st: SortState)
    requires Closed(U) && KeyConsistent(U) && e in U
    requires CacheSound(U, st)
    ensures var (idx, st') := TopoSort(e, st);
      && CacheSound(U, st')
      && st.nodes <= st'.nodes
      && idx < |st'.nodes|
      && Erase(Rebuild(st'.nodes)[idx]) == Erase(e)
    decreases e, 1
  {
    TopoSortShape(e, st);
    if KeyOf(e) in st.cache {
    } else if IsLeaf(e) {
      PushSound(U, st, e, LeafNode(e));
    } else if e.Neg? {
      TopoSortCorrectNeg(U, e, st);
    } else {
      TopoSortCorrectBinary(U, e, st);
    }
  }

  lemma {:induction false} TopoSortCorrectNeg(U: set<Expr>, e: Expr, st: SortState)
    requires Closed(U) && KeyConsistent(U) && e in U && e.Neg?
    requires CacheSound(U, st) && KeyOf(e) !in st.cache
    ensures var (idx, st') := TopoSort(e, st);
      CacheSound(U, st') && Erase(Rebuild(st'.nodes)[idx]) == Erase(e)
    decreases e, 0
  {
    assert e.x.target in U;
    var (i, st1) := TopoSort(e.x.target, st);
    TopoSortCorrect(U, e.x.target, st);
    PushSound(U, st1, e, Node.Neg(i, e.degreeMultiple));
  }

  lemma {:induction false} TopoSortCorrectBinary(U: set<Expr>, e: Expr, st: SortState)
    requires Closed(U) && KeyConsistent(U) && e in U && IsBinary(e)
    requires CacheSound(U, st) && KeyOf(e) !in st.cache
    ensures var (idx, st') := TopoSort(e, st);
      CacheSound(U, st') && Erase(Rebuild(st'.nodes)[idx]) == Erase(e)
    decreases e, 0
  {
    assert e.x.target in U && e.y.target in U;
    var (l, st1) := TopoSort(e.x.target, st);
    TopoSortCorrect(U, e.x.target, st);
    var (r, st2) := TopoSort(e.y.target, st1);
    TopoSortCorrect(U, e.y.target, st1);
    RebuildKeeps(st1.nodes, st2.nodes, l);
    BinaryNodeErase(e, l, r, Rebuild(st2.nodes));
    PushSound(U, st2, e, BinaryNode(e, l, r));
  }

  lemma RebuildKeeps(nodes: seq<Node>, nodes': seq<Node>, i: nat)
    requires Topo(nodes') && nodes <= nodes' && i < |nodes|
    ensures Topo(nodes) && Rebuild(nodes')[i] == Rebuild(nodes)[i]
  {
    RebuildPrefix(nodes', |nodes|);
    assert nodes'[..|nodes|] == nodes;
  }

  lemma BinaryNodeErase(e: Expr, l: nat, r: nat, prev: seq<Expr>)
    requires IsBinary(e) && l < |prev| && r < |prev|
    requires Erase(prev[l]) == Erase(e.x.target) && Erase(prev[r]) == Erase(e.y.target)
    ensures ChildrenBelow(BinaryNode(e, l, r), |prev|)
    ensures Erase(NodeExpr(BinaryNode(e, l, r), prev)) == Erase(e)
  {
  }

  /** The constraint indices and builder state after sorting `exprs` in order
      from an empty cache and arena. */
  function BuildFold(exprs: seq<Expr>): (seq<nat>, SortState)
    decreases |exprs|
  {
    if |exprs| == 0 then ([], SortState(map[], []))
    else
      var (ci, st) := BuildFold(exprs[..|exprs| - 1]);
      var (i, st') := TopoSort(exprs[|exprs| - 1], st);
      (ci + [i], st')
  }

  /** `build_symbolic_expr_dag` as a function of its input. */
  function BuildSpec(exprs: seq<Expr>): Dag {
    var (ci, st) := BuildFold(exprs);
    Dag(st.nodes, ci)
  }

  /** One root per input, each naming an existing node, over an ordered arena. */
  lemma {:induction false} BuildFoldShape(exprs: seq<Expr>)
    ensures var (ci, st) := BuildFold(exprs);
      && Bounded(st)
      && |ci| == |exprs|
      && forall j :: 0 <= j < |ci| ==> ci[j] < |st.nodes|
    decreases |exprs|
  {
    if |exprs| > 0 {
      var (ci, st) := BuildFold(exprs[..|exprs| - 1]);
      BuildFoldShape(exprs[..|exprs| - 1]);
      TopoSortShape(exprs[|exprs| - 1], st);
    }
  }

  /** Each root rebuilds to its input expression. */
  lemma {:induction false} BuildFoldCorrect(U: set<Expr>, exprs: seq<Expr>)
    requires Closed(U) && KeyConsistent(U)
    requires forall j :: 0 <= j < |exprs| ==> exprs[j] in U
    ensures var (ci, st) := BuildFold(exprs);
      && CacheSound(U, st)
      && |ci| == |exprs|
      && forall j :: 0 <= j < |ci| ==>
           ci[j] < |st.nodes| && Erase(Rebuild(st.nodes)[ci[j]]) == Erase(exprs[j])
    decreases |exprs|
  {
    if |exprs| > 0 {
      var n := |exprs|;
      var (ci, st) := BuildFold(exprs[..n - 1]);
      BuildFoldCorrect(U, exprs[..n - 1]);
      var (i, st') := TopoSort(exprs[n - 1], st);
      TopoSortCorrect(U, exprs[n - 1], st);
      forall j | 0 <= j < n - 1
        ensures Erase(Rebuild(st'.nodes)[ci[j]]) == Erase(exprs[j])
      {
        assert exprs[..n - 1][j] == exprs[j];
        RebuildKeeps(st.nodes, st'.nodes, ci[j]);
      }
    }
  }

  /** The round trip: the DAG of `exprs` is well formed, has one root per
      input in input order, and each root rebuilds to its input (equal as a
      value, with the same operators, leaves and degree multiples), whenever
      the cache can only confuse equal expressions. */
  lemma BuildRoundTrip(exprs: seq<Expr>)
    requires KeyConsistent(SubexprsOf(exprs))
    ensures var dag := BuildSpec(exprs);
      && WellFormed(dag)
      && |dag.constraintIdx| == |exprs|
      && forall j :: 0 <= j < |exprs| ==>
           Erase(Rebuild(dag.nodes)[dag.constraintIdx[j]]) == Erase(exprs[j])
  {
    SubexprsOfAll(exprs);
    BuildFoldCorrect(SubexprsOf(exprs), exprs);
  }

  /** The same, for any inputs whose `Arc` addresses identify their contents. */
  lemma BuildRoundTripFromPointers(exprs: seq<Expr>)
    requires PointerConsistent(ArcsOfAll(exprs))
    ensures var dag := BuildSpec(exprs);
      && WellFormed(dag)
      && |dag.constraintIdx| == |exprs|
      && forall j :: 0 <= j < |exprs| ==>
           Erase(Rebuild(dag.nodes)[dag.constraintIdx[j]]) == Erase(exprs[j])
  {
    PointerConsistencyMakesKeysConsistent(exprs);
    BuildRoundTrip(exprs);
  }

  /** The mutable state of `build_symbolic_expr_dag`: the `expr_to_idx` cache
      and the `nodes` vector that `topological_sort_symbolic_expr` updates. */
  class DagBuilder {
    var exprToIdx: map<Key, nat>
    var nodes: seq<Node>

    function State(): SortState
      reads this
    {
      SortState(exprToIdx, nodes)
    }

    constructor ()
      ensures exprToIdx == map[] && nodes == []
    {
      exprToIdx := map[];
      nodes := [];
    }

    /** `topological_sort_symbolic_expr`. */
    method TopologicalSort(e: Expr) returns (idx: nat)
      modifies this
      ensures (idx, State()) == TopoSort(e, old(State()))
      decreases e
    {
      var key := KeyOf(e);
      if key in exprToIdx {
        return exprToIdx[key];
      }
      var node: Node;
      if IsLeaf(e) {
        node := LeafNode(e);
      } else if e.Neg? {
        var i := TopologicalSort(e.x.target);
        node := Node.Neg(i, e.degreeMultiple);
      } else {
        var l := TopologicalSort(e.x.target);
        var r := TopologicalSort(e.y.target);
        node := BinaryNode(e, l, r);
      }
      idx := |nodes|;
      nodes := nodes + [node];
      exprToIdx := exprToIdx[key := idx];
    }
  }

  /** `build_symbolic_expr_dag`: sorts the expressions in order through one
      shared builder. */
  method BuildSymbolicExprDag(exprs: seq<Expr>) returns (dag: Dag)
    ensures dag == BuildSpec(exprs)
    ensures WellFormed(dag) && |dag.constraintIdx| == |exprs|
    ensures KeyConsistent(SubexprsOf(exprs)) ==>
      forall j :: 0 <= j < |exprs| ==> Erase(Rebuild(dag.nodes)[dag.constraintIdx[j]]) == Erase(exprs[j])
  {
    var builder := new DagBuilder();
    var ci: seq<nat> := [];
    for j := 0 to |exprs|
      invariant (ci, builder.State()) == BuildFold(exprs[..j])
    {
      assert exprs[..j + 1][..j] == exprs[..j];
      var idx := builder.TopologicalSort(exprs[j]);
      ci := ci + [idx];
    }
    assert exprs[..|exprs|] == exprs;
    dag := Dag(builder.nodes, ci);
    BuildFoldShape(exprs);
    if KeyConsistent(SubexprsOf(exprs)) {
      BuildRoundTrip(exprs);
    }
  }

  /** `to_symbolic_expressions`: rebuilds the nodes in order, each from the
      expressions already rebuilt, then returns the roots in the order of
      `constraint_idx`.  An operand or root index that is not yet (or ever)
      rebuilt makes the checked vector index panic. */
  method ToSymbolicExpressions(dag: Dag) returns (r: Result<seq<Expr>>)
    ensures r.Ok? <==> WellFormed(dag)
    ensures r.Ok? ==> |r.value| == |dag.constraintIdx|
    ensures r.Ok? ==> forall j :: 0 <= j < |dag.constraintIdx| ==>
      r.value[j] == Rebuild(dag.nodes)[dag.constraintIdx[j]]
  {
    var exprs: seq<Expr> := [];
    for i := 0 to |dag.nodes|
      invariant Topo(dag.nodes[..i])
      invariant exprs == Rebuild(dag.nodes[..i])
    {
      var node := dag.nodes[i];
      if !ChildrenBelow(node, i) {
        return Panic("index out of bounds");
      }
      assert dag.nodes[..i + 1] == dag.nodes[..i] + [node];
      RebuildPush(dag.nodes[..i], node);
      exprs := exprs + [NodeExpr(node, exprs)];
    }
    assert dag.nodes[..|dag.nodes|] == dag.nodes;
    var roots: seq<Expr> := [];
    for j := 0 to |dag.constraintIdx|
      invariant |roots| == j
      invariant forall k :: 0 <= k < j ==>
        dag.constraintIdx[k] < |exprs| && roots[k] == exprs[dag.constraintIdx[k]]
    {
      var idx := dag.constraintIdx[j];
      if idx >= |exprs| {
        return Panic("index out of bounds");
      }
      roots := roots + [exprs[idx]];
    }
    return Ok(roots);
  }

  /** Rebuilding the DAG of `exprs` gives back `exprs`: one expression per
      input, in order, each equal to its input. */
  method RoundTrip(exprs: seq<Expr>) returns (back: Result<seq<Expr>>)
    requires KeyConsistent(SubexprsOf(exprs))
    ensures back.Ok? && |back.value| == |exprs|
    ensures forall j :: 0 <= j < |exprs| ==> Erase(back.value[j]) == Erase(exprs[j])
  {
    var dag := BuildSymbolicExprDag(exprs);
    back := ToSymbolicExpressions(dag);
  }

  /** The test at dag.rs:211-281.  Each `*` and `+` of the test allocates new
      `Arc`s for its operands; their addresses are `b + 1, ..., b + 21` for
      an arbitrary base address `b`.  `expr` is built once and cloned, so
      both copies share its operand `Arc`s. */
  const ExampleVar: SymbolicVariable := SymbolicVariable(Main(1, 2), 3)

  /** `expr = 1 * x` with `x` the main variable of part 1, column 3. */
  function ExampleExpr(b: nat): Expr {
    Expr.Mul(Arc(b + 20, Expr.Constant(1)), Arc(b + 21, Expr.Variable(ExampleVar)), 1)
  }

  /** `f * l + 1`. */
  function ExampleSum(b: nat): Expr {
    Expr.Add(Arc(b + 3, Expr.Mul(Arc(b + 1, Expr.IsFirstRow), Arc(b + 2, Expr.IsLastRow), 2)),
             Arc(b + 4, Expr.Constant(1)), 2)
  }

  /** The second `f * l`, built from fresh `Arc`s. */
  function ExampleProduct(b: nat): Expr {
    Expr.Mul(Arc(b + 5, Expr.IsFirstRow), Arc(b + 6, Expr.IsLastRow), 2)
  }

  /** `(f * l + 1) + f * l`. */
  function ExampleLeft(b: nat): Expr {
    Expr.Add(Arc(b + 7, ExampleSum(b)), Arc(b + 8, ExampleProduct(b)), 2)
  }

  /** The first constraint, `(f * l + 1) + f * l + expr`. */
  function ExampleFirst(b: nat): Expr {
    Expr.Add(Arc(b + 9, ExampleLeft(b)), Arc(b + 10, ExampleExpr(b)), 2)
  }

  /** The second constraint, `expr * expr`. */
  function ExampleSecond(b: nat): Expr {
    Expr.Mul(Arc(b + 11, ExampleExpr(b)), Arc(b + 12, ExampleExpr(b)), 2)
  }

  const ExampleNodes: seq<Node> :=
    [ Node.IsFirstRow, Node.IsLastRow, Node.Mul(0, 1, 2), Node.Constant(1), Node.Add(2, 3, 2),
      Node.Mul(0, 1, 2), Node.Add(4, 5, 2), Node.Variable(ExampleVar), Node.Mul(3, 7, 1),
      Node.Add(6, 8, 2), Node.Mul(8, 8, 2) ]

  /** The cache keys of `f * l + 1`. */
  predicate SumKey(b: nat, k: Key) {
    || k == LeafKey(Expr.IsFirstRow) || k == LeafKey(Expr.IsLastRow) || k == LeafKey(Expr.Constant(1))
    || k == MulKey(b + 1, b + 2, 2) || k == AddKey(b + 3, b + 4, 2)
  }

  /** `f * l + 1` fills nodes 0..4. */
  lemma ExampleSumSorted(b: nat)
    ensures var (i, st) := TopoSort(ExampleSum(b), SortState(map[], []));
      && i == 4 && st.nodes == ExampleNodes[..5]
      && LeafKey(Expr.IsFirstRow) in st.cache && st.cache[LeafKey(Expr.IsFirstRow)] == 0
      && LeafKey(Expr.IsLastRow) in st.cache && st.cache[LeafKey(Expr.IsLastRow)] == 1
      && LeafKey(Expr.Constant(1)) in st.cache && st.cache[LeafKey(Expr.Constant(1))] == 3
      && forall k :: k in st.cache ==> SumKey(b, k)
  {
    var e := ExampleSum(b);
    var st0 := SortState(map[], []);
    var (i0, st1) := TopoSort(Expr.IsFirstRow, st0);
    var (i1, st2) := TopoSort(Expr.IsLastRow, st1);
    SortBinaryMiss(e.x.target, st0);
    var (i2, st3) := TopoSort(e.x.target, st0);
    assert i2 == 2 && st3.nodes == [Node.IsFirstRow, Node.IsLastRow, Node.Mul(0, 1, 2)];
    var (i3, st4) := TopoSort(Expr.Constant(1), st3);
    SortBinaryMiss(e, st0);
    var (i4, st5) := TopoSort(e, st0);
    assert i4 == 4 && st5.nodes == st3.nodes + [Node.Constant(1), Node.Add(2, 3, 2)];
  }

  /** The cache keys of `(f * l + 1) + f * l`. */
  predicate LeftKey(b: nat, k: Key) {
    SumKey(b, k) || k == MulKey(b + 5, b + 6, 2) || k == AddKey(b + 7, b + 8, 2)
  }

  /** `(f * l + 1) + f * l` fills nodes 0..6: the second product is new. */
  lemma ExampleLeftSorted(b: nat)
    ensures var (i, st) := TopoSort(ExampleLeft(b), SortState(map[], []));
      && i == 6 && st.nodes == ExampleNodes[..7]
      && LeafKey(Expr.Constant(1)) in st.cache && st.cache[LeafKey(Expr.Constant(1))] == 3
      && forall k :: k in st.cache ==> LeftKey(b, k)
  {
    var st0 := SortState(map[], []);
    ExampleSumSorted(b);
    var (i4, st5) := TopoSort(ExampleSum(b), st0);
    ExampleProductSorted(b, st5);
    SortBinaryMiss(ExampleLeft(b), st0);
  }

  /** A binary expression missing from the cache sorts its operands left
      then right and appends its own node. */
  lemma SortBinaryMiss(e: Expr, st: SortState)
    requires IsBinary(e) && KeyOf(e) !in st.cache
    ensures var (l, st1) := TopoSort(e.x.target, st);
      var (r, st2) := TopoSort(e.y.target, st1);
      TopoSort(e, st) == Push(st2, e, BinaryNode(e, l, r))
  {
  }

  /** The second `IsFirstRow * IsLastRow` after `f * l + 1`: its leaves are
      hits, but its operand `Arc`s are new, so it is a new node 5. */
  lemma ExampleProductSorted(b: nat, st: SortState)
    requires |st.nodes| == 5
    requires LeafKey(Expr.IsFirstRow) in st.cache && st.cache[LeafKey(Expr.IsFirstRow)] == 0
    requires LeafKey(Expr.IsLastRow) in st.cache && st.cache[LeafKey(Expr.IsLastRow)] == 1
    requires forall k :: k in st.cache ==> SumKey(b, k)
    ensures var (i, st') := TopoSort(ExampleProduct(b), st);
      && i == 5 && st'.nodes == st.nodes + [Node.Mul(0, 1, 2)]
      && st'.cache == st.cache[MulKey(b + 5, b + 6, 2) := 5]
  {
    assert !SumKey(b, MulKey(b + 5, b + 6, 2));
    SortBinaryMiss(ExampleProduct(b), st);
    var (h0, s5) := TopoSort(Expr.IsFirstRow, st);
    assert h0 == 0 && s5 == st;
    var (h1, s5') := TopoSort(Expr.IsLastRow, st);
    assert h1 == 1 && s5' == st;
  }

  /** `expr` after the left operand: its constant is a hit, its variable and
      product are new nodes 7 and 8. */
  lemma ExampleExprSorted(b: nat, st: SortState)
    requires |st.nodes| == 7
    requires LeafKey(Expr.Constant(1)) in st.cache && st.cache[LeafKey(Expr.Constant(1))] == 3
    requires forall k :: k in st.cache ==> LeftKey(b, k)
    ensures var (i, st') := TopoSort(ExampleExpr(b), st);
      && i == 8 && st'.nodes == st.nodes + [Node.Variable(ExampleVar), Node.Mul(3, 7, 1)]
      && KeyOf(ExampleExpr(b)) in st'.cache && st'.cache[KeyOf(ExampleExpr(b))] == 8
      && MulKey(b + 11, b + 12, 2) !in st'.cache
  {
    assert !LeftKey(b, MulKey(b + 20, b + 21, 1)) && !LeftKey(b, LeafKey(Expr.Variable(ExampleVar)));
    assert !LeftKey(b, MulKey(b + 11, b + 12, 2));
    SortBinaryMiss(ExampleExpr(b), st);
    var (h3, s7) := TopoSort(Expr.Constant(1), st);
    assert h3 == 3 && s7 == st;
    var (i7, st8) := TopoSort(Expr.Variable(ExampleVar), st);
  }

  lemma ExampleNodesSplit()
    ensures ExampleNodes[..10] == ExampleNodes[..7] + [Node.Variable(ExampleVar), Node.Mul(3, 7, 1), Node.Add(6, 8, 2)]
  {
    assert ExampleNodes[..10] == ExampleNodes[..7] + ExampleNodes[7..10];
  }

  /** The first constraint fills nodes 0..9 and leaves `expr` cached at 8. */
  lemma ExampleFirstSorted(b: nat)
    ensures var (i, st) := TopoSort(ExampleFirst(b), SortState(map[], []));
      && i == 9 && st.nodes == ExampleNodes[..10]
      && KeyOf(ExampleExpr(b)) in st.cache && st.cache[KeyOf(ExampleExpr(b))] == 8
      && MulKey(b + 11, b + 12, 2) !in st.cache
  {
    var st0 := SortState(map[], []);
    var (i6, st7) := TopoSort(ExampleLeft(b), st0);
    ExampleLeftSorted(b);
    ExampleExprSorted(b, st7);
    SortBinaryMiss(ExampleFirst(b), st0);
    ExampleNodesSplit();
  }

  /** On the test's input the arena has the expected 11 nodes: the second
      `IsFirstRow * IsLastRow` is a new node because its operands are new
      allocations, while the square of `expr` becomes `Mul{8, 8}`; the roots
      are `[9, 10]`.  This holds whatever the addresses of the allocations. */
  lemma WorkedExample(b: nat)
    ensures BuildSpec([ExampleFirst(b), ExampleSecond(b)]) == Dag(ExampleNodes, [9, 10])
  {
    var st0 := SortState(map[], []);
    var (i9, st10) := TopoSort(ExampleFirst(b), st0);
    ExampleFirstSorted(b);
    BuildFoldSnoc([], ExampleFirst(b));
    assert [] + [ExampleFirst(b)] == [ExampleFirst(b)];
    ExampleSecondSorted(b, st10);
    BuildFoldSnoc([ExampleFirst(b)], ExampleSecond(b));
    assert [ExampleFirst(b)] + [ExampleSecond(b)] == [ExampleFirst(b), ExampleSecond(b)];
    assert ExampleNodes == ExampleNodes[..10] + [Node.Mul(8, 8, 2)];
  }

  /** The fold over one input more. */
  lemma BuildFoldSnoc(exprs: seq<Expr>, e: Expr)
    ensures BuildFold(exprs + [e]) ==
      (BuildFold(exprs).0 + [TopoSort(e, BuildFold(exprs).1).0], TopoSort(e, BuildFold(exprs).1).1)
  {
    assert (exprs + [e])[..|exprs|] == exprs;
  }

  /** The second input after the first: `expr` is a hit, so its square is
      `Mul{8, 8}`, a new node 10. */
  lemma ExampleSecondSorted(b: nat, st: SortState)
    requires |st.nodes| == 10
    requires KeyOf(ExampleExpr(b)) in st.cache && st.cache[KeyOf(ExampleExpr(b))] == 8
    requires MulKey(b + 11, b + 12, 2) !in st.cache
    ensures var (i, st') := TopoSort(ExampleSecond(b), st);
      i == 10 && st'.nodes == st.nodes + [Node.Mul(8, 8, 2)]
  {
    SortBinaryMiss(ExampleSecond(b), st);
    var (h8, s10) := TopoSort(ExampleExpr(b), st);
    assert h8 == 8 && s10 == st;
  }
}
