/** The generic prover's constraint evaluator (prover/quotient/evaluator.rs).

    Unlike the CPU evaluator it checks most of its reads: an out-of-range
    partition or public value and a missing challenge phase panic.  Only the
    `ViewPair` reads and the first after-challenge view are taken on trust
    (`Readable`).  Its `accumulate` evaluates the whole arena and pairs the
    alpha powers with the constraints in order, so with the reversed powers
    `[alpha^(n-1), ..., alpha^0]` it computes the verifier's Horner fold. */
module QuotientEvaluator {
  import opened Wrappers
  import opened Algebra
  import opened Symbolic
  import opened Evaluation
  import opened Packed

  /** The reads taken on trust: the view reads and the first after-challenge view. */
  predicate Readable<E>(ev: ProverEvaluator<E>, v: SymbolicVariable) {
    match v.entry
    case Preprocessed(off) => CanRead(ev.preprocessed, off, v.index)
    case Main(p, off) => p < |ev.partitionedMain| ==> CanRead(ev.partitionedMain[p], off, v.index)
    case Permutation(off) => |ev.afterChallenge| > 0 && CanRead(ev.afterChallenge[0], off, v.index)
    case _ => true
  }

  /** `eval_var`. */
  function EvalVar<E>(ev: ProverEvaluator<E>, v: SymbolicVariable): (r: Result<PackedExpr<E>>)
    requires Readable(ev, v)
    ensures r.Ok? ==> (r.value.Val? <==> v.entry.Preprocessed? || v.entry.Main? || v.entry.Public?)
    ensures v.entry.Public? ==> (r.Ok? <==> v.index < |ev.publicValues|)
    ensures v.entry.Public? && r.Ok? ==> r.value == PackedExpr.Val(ev.publicValues[v.index])
    ensures v.entry.Main? ==>
      (r.Ok? <==> v.entry.partIndex < |ev.partitionedMain| && v.entry.offset <= 1)
    ensures v.entry.Main? && r.Ok? ==>
      r.value == PackedExpr.Val(Get(ev.partitionedMain[v.entry.partIndex], v.entry.offset, v.index).value)
    ensures v.entry.Challenge? ==>
      (r.Ok? <==> |ev.challenges| > 0 && v.index < |ev.challenges[0]|)
    ensures v.entry.Exposed? ==>
      (r.Ok? <==> |ev.exposedValuesAfterChallenge| > 0 && v.index < |ev.exposedValuesAfterChallenge[0]|)
    ensures (v.entry.Challenge? && |ev.challenges| == 0) ||
            (v.entry.Exposed? && |ev.exposedValuesAfterChallenge| == 0) ==>
      r == Panic("Challenge phase not supported")
  {
    match v.entry
    case Preprocessed(off) =>
      var x :- Get(ev.preprocessed, off, v.index);
      Ok(PackedExpr.Val(x))
    case Main(p, off) =>
      if p >= |ev.partitionedMain| then Panic("partition index out of bounds")
      else
        var x :- Get(ev.partitionedMain[p], off, v.index);
        Ok(PackedExpr.Val(x))
    case Public =>
      if v.index >= |ev.publicValues| then Panic("public value index out of bounds")
      else Ok(PackedExpr.Val(ev.publicValues[v.index]))
    case Permutation(off) =>
      var y :- Get(ev.afterChallenge[0], off, v.index);
      Ok(PackedExpr.Challenge(y))
    case Challenge =>
      if |ev.challenges| == 0 then Panic("Challenge phase not supported")
      else if v.index >= |ev.challenges[0]| then Panic("challenge index out of bounds")
      else Ok(PackedExpr.Challenge(ev.challenges[0][v.index]))
    case Exposed =>
      if |ev.exposedValuesAfterChallenge| == 0 then Panic("Challenge phase not supported")
      else if v.index >= |ev.exposedValuesAfterChallenge[0]| then Panic("exposed value index out of bounds")
      else Ok(PackedExpr.Challenge(ev.exposedValuesAfterChallenge[0][v.index]))
  }

  /** The value of a leaf node; reads taken on trust are required away by
      every user, so the `Panic` reported for them is never produced. */
  function Leaf<E>(ev: ProverEvaluator<E>, n: Node): Result<PackedExpr<E>> {
    match n
    case Variable(v) => if Readable(ev, v) then EvalVar(ev, v) else Panic("unchecked read out of range")
    case Constant(_) => Ok(EvalNonVariableLeaf(ev, n))
    case IsFirstRow => Ok(EvalNonVariableLeaf(ev, n))
    case IsLastRow => Ok(EvalNonVariableLeaf(ev, n))
    case IsTransition => Ok(EvalNonVariableLeaf(ev, n))
    case _ => Panic("not a leaf")
  }

  function LeafFn<E>(ev: ProverEvaluator<E>): Node -> Result<PackedExpr<E>> {
    n => Leaf(ev, n)
  }

  predicate AllReadable<E>(ev: ProverEvaluator<E>, nodes: seq<Node>) {
    forall i :: 0 <= i < |nodes| && nodes[i].Variable? ==> Readable(ev, nodes[i].v)
  }

  /** What `accumulate` computes: `sum_j alpha_powers[j] * value(constraint_idx[j])`
      over the pairs `zip` forms, i.e. the shorter of the two lists. */
  function AccumulateSpec<E>(R: Ext<E>, vals: seq<PackedExpr<E>>, roots: seq<nat>, alphaPowers: seq<E>): E
    requires forall j :: 0 <= j < |roots| ==> roots[j] < |vals|
  {
    var k := Min(|alphaPowers|, |roots|);
    WeightedSum(R, alphaPowers[..k], MapSeq(RootValues(vals, roots), LiftFn(R))[..k])
  }

  /** `accumulate`: evaluates every node (`eval_nodes`) and sums the zipped
      products from zero. */
  method Accumulate<E>(R: Ext<E>, ev: ProverEvaluator<E>, constraints: Dag, alphaPowers: seq<E>)
    returns (r: Result<E>)
    requires WellFormed(constraints)
    requires AllReadable(ev, constraints.nodes)
    ensures r.Ok? <==> EvalArena(PackedOps(R), LeafFn(ev), constraints.nodes).Ok?
    ensures r.Ok? ==>
      r.value == AccumulateSpec(R, EvalArena(PackedOps(R), LeafFn(ev), constraints.nodes).value,
                                constraints.constraintIdx, alphaPowers)
  {
    var evaluated := EvalArena(PackedOps(R), LeafFn(ev), constraints.nodes);
    if evaluated.Panic? {
      return Panic(evaluated.reason);
    }
    var vals := evaluated.value;
    var k := Min(|alphaPowers|, |constraints.constraintIdx|);
    ghost var cs := MapSeq(RootValues(vals, constraints.constraintIdx), LiftFn(R));
    var acc := R.zero;
    for j := 0 to k
      invariant acc == WeightedSum(R, alphaPowers[..j], cs[..j])
    {
      match vals[constraints.constraintIdx[j]] {
        case Val(x) => acc := R.add(acc, R.mul(alphaPowers[j], R.embed(x)));
        case Challenge(y) => acc := R.add(acc, R.mul(alphaPowers[j], y));
      }
      assert alphaPowers[..j + 1][..j] == alphaPowers[..j];
      assert cs[..j + 1][..j] == cs[..j];
    }
    return Ok(acc);
  }

  /** With the reversed powers the caller prepares, `accumulate` is the
      verifier's fold `acc = acc * alpha + c` over the constraint values in
      order, starting from zero. */
  lemma AccumulateReversedIsHorner<E(!new)>(R: Ext<E>, alpha: E, vals: seq<PackedExpr<E>>, roots: seq<nat>)
    requires IsExtension(R)
    requires forall j :: 0 <= j < |roots| ==> roots[j] < |vals|
    ensures AccumulateSpec(R, vals, roots, ReversedPowers(R, alpha, |roots|)) ==
      Horner(R, alpha, R.zero, MapSeq(RootValues(vals, roots), LiftFn(R)))
  {
    var cs := MapSeq(RootValues(vals, roots), LiftFn(R));
    assert ReversedPowers(R, alpha, |roots|)[..|roots|] == ReversedPowers(R, alpha, |roots|);
    assert cs[..|roots|] == cs;
    HornerFromZero(R, alpha, cs);
  }
}
