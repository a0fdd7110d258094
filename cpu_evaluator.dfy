/** The CPU prover's constraint evaluator (prover/cpu/quotient/evaluator.rs).

    Its variable reads are unchecked: the caller has already scanned the
    constraints and vouched that every read is in range.  That guarantee is
    `Readable`, a precondition here; the reads it does not cover (a partition
    index past the end, a row offset above 1) still panic.  The node values go
    into a buffer the caller provides, and `accumulate` takes the powers of
    alpha in increasing order and pairs them with the constraints from the
    last one back. */
module CpuEvaluator {
  import opened Wrappers
  import opened Algebra
  import opened Symbolic
  import opened Evaluation
  import opened Packed

  /** What the caller's scan guarantees about a variable read. */
  predicate Readable<E>(ev: ProverEvaluator<E>, v: SymbolicVariable) {
    match v.entry
    case Preprocessed(off) => CanRead(ev.preprocessed, off, v.index)
    case Main(p, off) => p < |ev.partitionedMain| ==> CanRead(ev.partitionedMain[p], off, v.index)
    case Public => v.index < |ev.publicValues|
    case Permutation(off) => |ev.afterChallenge| > 0 && CanRead(ev.afterChallenge[0], off, v.index)
    case Challenge => |ev.challenges| > 0 && v.index < |ev.challenges[0]|
    case Exposed => |ev.exposedValuesAfterChallenge| > 0 && v.index < |ev.exposedValuesAfterChallenge[0]|
  }

  /** The row offset a variable is read at (0 for entries without one). */
  function RowOffset(e: Entry): nat {
    match e
    case Preprocessed(off) => off
    case Main(_, off) => off
    case Permutation(off) => off
    case _ => 0
  }

  /** `eval_var`: trace and public entries give base values, the entries of
      the challenge phase give extension values.  A checked index into the
      partitions or a row offset above 1 panics. */
  function EvalVar<E>(ev: ProverEvaluator<E>, v: SymbolicVariable): (r: Result<PackedExpr<E>>)
    requires Readable(ev, v)
    ensures r.Panic? <==>
      RowOffset(v.entry) > 1 || (v.entry.Main? && v.entry.partIndex >= |ev.partitionedMain|)
    ensures r.Ok? ==> (r.value.Val? <==> v.entry.Preprocessed? || v.entry.Main? || v.entry.Public?)
  {
    match v.entry
    case Preprocessed(off) =>
      var x :- Get(ev.preprocessed, off, v.index);
      Ok(PackedExpr.Val(x))
    case Main(p, off) =>
      if p >= |ev.partitionedMain| then Panic("partition index out of bounds")
      else
        var x :- Get(ev.partitionedMain[p], off, v.index);
        Ok(PackedExpr.Val(x))
    case Public => Ok(PackedExpr.Val(ev.publicValues[v.index]))
    case Permutation(off) =>
      var y :- Get(ev.afterChallenge[0], off, v.index);
      Ok(PackedExpr.Challenge(y))
    case Challenge => Ok(PackedExpr.Challenge(ev.challenges[0][v.index]))
    case Exposed => Ok(PackedExpr.Challenge(ev.exposedValuesAfterChallenge[0][v.index]))
  }

  /** The value of a leaf node.  The reads the scan did not vouch for are
      undefined behaviour in the source; every method below requires them
      away, so the `Panic` reported for them is never produced. */
  function Leaf<E>(ev: ProverEvaluator<E>, n: Node): Result<PackedExpr<E>> {
    match n
    case Variable(v) => if Readable(ev, v) then EvalVar(ev, v) else Panic("unchecked read out of range")
    case Constant(_) => Ok(EvalNonVariableLeaf(ev, n))
    case IsFirstRow => Ok(EvalNonVariableLeaf(ev, n))
    case IsLastRow => Ok(EvalNonVariableLeaf(ev, n))
    case IsTransition => Ok(EvalNonVariableLeaf(ev, n))
    case _ => Panic("not a leaf")
  }

  function LeafFn<E>(ev: ProverEvaluator<E>): Node -> Result<PackedExpr<E>> {
    n => Leaf(ev, n)
  }

  /** Every variable of the arena is one the scan vouched for. */
  predicate AllReadable<E>(ev: ProverEvaluator<E>, nodes: seq<Node>) {
    forall i :: 0 <= i < |nodes| && nodes[i].Variable? ==> Readable(ev, nodes[i].v)
  }

  /** `eval_nodes_mut`: slot `i` of `exprs` receives the value of node `i`,
      computed from the slots already written; slots past the arena are left
      alone. */
  method EvalNodesMut<E>(R: Ext<E>, ev: ProverEvaluator<E>, nodes: seq<Node>, exprs: array<PackedExpr<E>>)
    returns (r: Result<()>)
    requires Topo(nodes) && |nodes| <= exprs.Length
    requires AllReadable(ev, nodes)
    modifies exprs
    ensures r.Ok? <==> EvalArena(PackedOps(R), LeafFn(ev), nodes).Ok?
    ensures r.Ok? ==> exprs[..|nodes|] == EvalArena(PackedOps(R), LeafFn(ev), nodes).value
    ensures exprs[|nodes|..] == old(exprs[|nodes|..])
  {
    var ops, leaf := PackedOps(R), LeafFn(ev);
    var i := 0;
    while i < |nodes|
      invariant 0 <= i <= |nodes|
      invariant Topo(nodes[..i])
      invariant EvalArena(ops, leaf, nodes[..i]) == Ok(exprs[..i])
      invariant exprs[|nodes|..] == old(exprs[|nodes|..])
    {
      ArenaStep(ops, leaf, nodes, i);
      assert AllReadable(ev, nodes) && (nodes[i].Variable? ==> Readable(ev, nodes[i].v));
      var rv := EvalNode(R, ev, nodes[i], exprs, i);
      if rv.Panic? {
        if EvalArena(ops, leaf, nodes).Ok? {
          ArenaPrefix(ops, leaf, nodes, i + 1);
        }
        return Panic(rv.reason);
      }
      var v := rv.value;
      ghost var prev := exprs[..i];
      exprs[i] := v;
      assert exprs[..i + 1] == prev + [v];
      i := i + 1;
    }
    assert nodes[..|nodes|] == nodes;
    return Ok(());
  }

  /** What `accumulate` computes: the sum of `alpha_powers[j]` times the value
      of the `j`-th constraint counted from the last, over all constraints. */
  function AccumulateSpec<E>(R: Ext<E>, vals: seq<PackedExpr<E>>, roots: seq<nat>, alphaPowers: seq<E>): E
    requires forall j :: 0 <= j < |roots| ==> roots[j] < |vals|
    requires |alphaPowers| >= |roots|
  {
    WeightedSum(R, alphaPowers[..|roots|], Reverse(MapSeq(RootValues(vals, roots), LiftFn(R))))
  }

  /** One node of `eval_nodes_mut`: a leaf is read, a composite node
      combines the slots of its children, which come before it. */
  method EvalNode<E>(R: Ext<E>, ev: ProverEvaluator<E>, n: Node, exprs: array<PackedExpr<E>>, i: nat)
    returns (r: Result<PackedExpr<E>>)
    requires i <= exprs.Length && ChildrenBelow(n, i)
    requires n.Variable? ==> Readable(ev, n.v)
    ensures r == NodeValue(PackedOps(R), LeafFn(ev), n, exprs[..i])
  {
    match n {
      case Variable(x) => r := EvalVar(ev, x);
      case Constant(c) => r := Ok(PackedExpr.Val(c));
      case Add(l, rt, _) => r := Ok(PAdd(R, exprs[l], exprs[rt]));
      case Sub(l, rt, _) => r := Ok(PSub(R, exprs[l], exprs[rt]));
      case Neg(j, _) => r := Ok(PNeg(R, exprs[j]));
      case Mul(l, rt, _) => r := Ok(PMul(R, exprs[l], exprs[rt]));
      case IsFirstRow => r := Ok(PackedExpr.Val(ev.isFirstRow));
      case IsLastRow => r := Ok(PackedExpr.Val(ev.isLastRow));
      case IsTransition => r := Ok(PackedExpr.Val(ev.isTransition));
    }
  }

  /** `accumulate`: evaluates the arena into `exprs`, then adds up
      `alpha_powers[j] * value(constraint_idx[n - 1 - j])`.  Fewer powers than
      constraints fails the debug assertion. */
  method Accumulate<E>(R: Ext<E>, ev: ProverEvaluator<E>, constraints: Dag, alphaPowers: seq<E>,
                       exprs: array<PackedExpr<E>>)
    returns (r: Result<E>)
    requires WellFormed(constraints) && |constraints.nodes| <= exprs.Length
    requires AllReadable(ev, constraints.nodes)
    modifies exprs
    ensures r.Ok? <==>
      |alphaPowers| >= |constraints.constraintIdx| && EvalArena(PackedOps(R), LeafFn(ev), constraints.nodes).Ok?
    ensures r.Ok? ==>
      r.value == AccumulateSpec(R, EvalArena(PackedOps(R), LeafFn(ev), constraints.nodes).value,
                                constraints.constraintIdx, alphaPowers)
  {
    if |alphaPowers| < |constraints.constraintIdx| {
      return Panic("fewer alpha powers than constraints");
    }
    var ok := EvalNodesMut(R, ev, constraints.nodes, exprs);
    if ok.Panic? {
      return Panic(ok.reason);
    }
    var acc := SumConstraints(R, exprs, |constraints.nodes|, constraints.constraintIdx, alphaPowers);
    return Ok(acc);
  }

  /** The summing loop of `accumulate`, once the first `m` slots of `exprs`
      hold the node values: the powers in order against the constraint
      values from the last constraint to the first. */
  method SumConstraints<E>(R: Ext<E>, exprs: array<PackedExpr<E>>, m: nat, roots: seq<nat>, alphaPowers: seq<E>)
    returns (acc: E)
    requires m <= exprs.Length
    requires forall j :: 0 <= j < |roots| ==> roots[j] < m
    requires |alphaPowers| >= |roots|
    ensures acc == AccumulateSpec(R, exprs[..m], roots, alphaPowers)
  {
    ghost var vals := exprs[..m];
    var n := |roots|;
    ghost var cs := Reverse(MapSeq(RootValues(vals, roots), LiftFn(R)));
    ghost var ws := alphaPowers[..n];
    acc := R.zero;
    for j := 0 to n
      invariant acc == WeightedSum(R, ws[..j], cs[..j])
    {
      var idx := roots[n - 1 - j];
      var term: E;
      match exprs[idx] {
        case Val(x) => term := R.mul(alphaPowers[j], R.embed(x));
        case Challenge(y) => term := R.mul(alphaPowers[j], y);
      }
      assert term == R.mul(ws[j], cs[j]) by {
        assert term == R.mul(alphaPowers[j], Lift(R, exprs[idx]));
        assert exprs[idx] == vals[idx];
        assert cs[j] == MapSeq(RootValues(vals, roots), LiftFn(R))[n - 1 - j];
      }
      WeightedSumSnoc(R, ws, cs, j);
      acc := R.add(acc, term);
    }
    assert ws[..n] == ws && cs[..n] == cs;
  }

  /** With the increasing powers `[alpha^0, alpha^1, ...]` this evaluator's
      documentation asks for, the sum is the verifier's Horner fold
      `acc = acc * alpha + c` over the constraints in order, from zero. */
  lemma AccumulateIncreasingIsHorner<E(!new)>(
    R: Ext<E>, alpha: E, vals: seq<PackedExpr<E>>, roots: seq<nat>, m: nat)
    requires IsExtension(R)
    requires forall j :: 0 <= j < |roots| ==> roots[j] < |vals|
    requires m >= |roots|
    ensures AccumulateSpec(R, vals, roots, Powers(R, alpha, m)) ==
      Horner(R, alpha, R.zero, MapSeq(RootValues(vals, roots), LiftFn(R)))
  {
    var cs := MapSeq(RootValues(vals, roots), LiftFn(R));
    assert Powers(R, alpha, m)[..|roots|] == Powers(R, alpha, |roots|);
    HornerIsIncreasingPowerSumReversed(R, alpha, cs);
  }
}
