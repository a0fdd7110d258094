/** The verifier's constraint folder (air_builders/verifier.rs).

    The folder evaluates the constraints over the extension (its variables,
    selectors and alpha are extension values; public values are base values
    that it embeds).  `eval_constraints` flattens the constraints into a DAG,
    evaluates the nodes in stored order and folds every constraint value into
    the accumulator with `assert_zero`: `acc = acc * alpha + x`.

    `QuotientAgreesWithVerifier` is the reason the two sides fit together:
    on the same row, the generic prover's `accumulate` with reversed powers of
    alpha produces exactly what the folder's accumulator holds after folding
    the same constraints from zero. */
module Verifier {
  import opened Wrappers
  import opened Algebra
  import opened Symbolic
  import opened Evaluation
  import Packed
  import QuotientEvaluator
  import DagBuild

  /** The folder's `ViewPair` (defined with the air builders): a read outside
      the row, or of a next row that is absent, panics. */
  function ViewGet<E>(vp: Packed.ViewPair<E>, rowOffset: nat, col: nat): (r: Result<E>)
    ensures r.Ok? <==>
      || (rowOffset == 0 && col < |vp.local|)
      || (rowOffset == 1 && vp.next.Some? && col < |vp.next.value|)
    ensures r.Ok? ==> Packed.CanRead(vp, rowOffset, col) && r == Packed.Get(vp, rowOffset, col)
  {
    if rowOffset == 0 then
      if col < |vp.local| then Ok(vp.local[col]) else Panic("column index out of bounds")
    else if rowOffset == 1 then
      if vp.next.None? then Panic("no next row")
      else if col < |vp.next.value| then Ok(vp.next.value[col]) else Panic("column index out of bounds")
    else Panic("row offset not supported")
  }

  class GenericVerifierConstraintFolder<E> {
    const R: Ext<E>
    const preprocessed: Packed.ViewPair<E>
    const partitionedMain: seq<Packed.ViewPair<E>>
    const afterChallenge: seq<Packed.ViewPair<E>>
    const challenges: seq<seq<E>>
    const isFirstRow: E
    const isLastRow: E
    const isTransition: E
    const alpha: E
    var accumulator: E
    const publicValues: seq<Val>
    const exposedValuesAfterChallenge: seq<seq<E>>

    constructor(R: Ext<E>, preprocessed: Packed.ViewPair<E>, partitionedMain: seq<Packed.ViewPair<E>>,
                afterChallenge: seq<Packed.ViewPair<E>>, challenges: seq<seq<E>>,
                isFirstRow: E, isLastRow: E, isTransition: E, alpha: E, accumulator: E,
                publicValues: seq<Val>, exposedValuesAfterChallenge: seq<seq<E>>)
      ensures this.R == R && this.preprocessed == preprocessed && this.partitionedMain == partitionedMain
      ensures this.afterChallenge == afterChallenge && this.challenges == challenges
      ensures this.isFirstRow == isFirstRow && this.isLastRow == isLastRow && this.isTransition == isTransition
      ensures this.alpha == alpha && this.accumulator == accumulator
      ensures this.publicValues == publicValues && this.exposedValuesAfterChallenge == exposedValuesAfterChallenge
    {
      this.R := R;
      this.preprocessed := preprocessed;
      this.partitionedMain := partitionedMain;
      this.afterChallenge := afterChallenge;
      this.challenges := challenges;
      this.isFirstRow := isFirstRow;
      this.isLastRow := isLastRow;
      this.isTransition := isTransition;
      this.alpha := alpha;
      this.accumulator := accumulator;
      this.publicValues := publicValues;
      this.exposedValuesAfterChallenge := exposedValuesAfterChallenge;
    }

    /** `eval_var`: every read is checked; the entries of the challenge phase
        need a first phase and panic with "Challenge phase not supported"
        without one. */
    function EvalVar(v: SymbolicVariable): (r: Result<E>)
      ensures v.entry.Public? ==>
        r == (if v.index < |publicValues| then Ok(R.embed(publicValues[v.index]))
              else Panic("public value index out of bounds"))
      ensures v.entry.Preprocessed? ==> r == ViewGet(preprocessed, v.entry.offset, v.index)
      ensures v.entry.Main? ==>
        (r.Ok? <==> v.entry.partIndex < |partitionedMain| &&
                    ViewGet(partitionedMain[v.entry.partIndex], v.entry.offset, v.index).Ok?)
      ensures v.entry.Main? && v.entry.partIndex < |partitionedMain| ==>
        r == ViewGet(partitionedMain[v.entry.partIndex], v.entry.offset, v.index)
      ensures (v.entry.Permutation? && |afterChallenge| == 0) ||
              (v.entry.Challenge? && |challenges| == 0) ||
              (v.entry.Exposed? && |exposedValuesAfterChallenge| == 0) ==>
        r == Panic("Challenge phase not supported")
      ensures v.entry.Permutation? && |afterChallenge| > 0 ==>
        r == ViewGet(afterChallenge[0], v.entry.offset, v.index)
      ensures v.entry.Challenge? && |challenges| > 0 ==>
        r == (if v.index < |challenges[0]| then Ok(challenges[0][v.index])
              else Panic("challenge index out of bounds"))
      ensures v.entry.Exposed? && |exposedValuesAfterChallenge| > 0 ==>
        r == (if v.index < |exposedValuesAfterChallenge[0]| then Ok(exposedValuesAfterChallenge[0][v.index])
              else Panic("exposed value index out of bounds"))
    {
      match v.entry
      case Preprocessed(off) => ViewGet(preprocessed, off, v.index)
      case Main(p, off) =>
        if p < |partitionedMain| then ViewGet(partitionedMain[p], off, v.index)
        else Panic("partition index out of bounds")
      case Public =>
        if v.index < |publicValues| then Ok(R.embed(publicValues[v.index]))
        else Panic("public value index out of bounds")
      case Permutation(off) =>
        if |afterChallenge| == 0 then Panic("Challenge phase not supported")
        else ViewGet(afterChallenge[0], off, v.index)
      case Challenge =>
        if |challenges| == 0 then Panic("Challenge phase not supported")
        else if v.index < |challenges[0]| then Ok(challenges[0][v.index])
        else Panic("challenge index out of bounds")
      case Exposed =>
        if |exposedValuesAfterChallenge| == 0 then Panic("Challenge phase not supported")
        else if v.index < |exposedValuesAfterChallenge[0]| then Ok(exposedValuesAfterChallenge[0][v.index])
        else Panic("exposed value index out of bounds")
    }

    /** The value of a leaf node: a variable, a constant embedded with
        `Expr::from`, or one of the folder's selector fields. */
    function Leaf(n: Node): Result<E> {
      match n
      case Variable(v) => EvalVar(v)
      case Constant(c) => Ok(R.embed(c))
      case IsFirstRow => Ok(isFirstRow)
      case IsLastRow => Ok(isLastRow)
      case IsTransition => Ok(isTransition)
      case _ => Panic("not a leaf")
    }

    function LeafFn(): Node -> Result<E> {
      n => Leaf(n)
    }

    /** `assert_zero`: folds one constraint value into the accumulator. */
    method AssertZero(x: E)
      modifies this
      ensures accumulator == R.add(R.mul(old(accumulator), alpha), x)
    {
      accumulator := R.add(R.mul(accumulator, alpha), x);
    }

    /** `eval_constraints`: evaluates the DAG of `constraints` node by node and
        folds the constraint roots, in order, into the accumulator.  A failing
        read panics before anything is folded.  When the DAG builder's cache
        only identified equal expressions, the folded values are those of the
        constraint trees themselves.  The DAG is taken to be the one
        `build_symbolic_expr_dag` gives for `constraints`; the
        `build_symbolic_constraints_dag(constraints, &[])` that the verifier
        calls is not part of this model. */
    method EvalConstraints(constraints: seq<Expr>) returns (r: Result<()>)
      modifies this
      ensures var dag := DagBuild.BuildSpec(constraints);
        WellFormed(dag) &&
        (r.Ok? <==> EvalArena(ExtOps(R), LeafFn(), dag.nodes).Ok?) &&
        (r.Ok? ==> accumulator == Horner(R, alpha, old(accumulator),
                     RootValues(EvalArena(ExtOps(R), LeafFn(), dag.nodes).value, dag.constraintIdx))) &&
        (r.Panic? ==> accumulator == old(accumulator))
      ensures KeyConsistent(SubexprsOf(constraints)) && r.Ok? ==>
        (forall j :: 0 <= j < |constraints| ==> EvalExpr(ExtOps(R), LeafFn(), constraints[j]).Ok?) &&
        accumulator == Horner(R, alpha, old(accumulator), TreeValues(ExtOps(R), LeafFn(), constraints))
    {
      var dag := DagBuild.BuildSymbolicExprDag(constraints);
      var vals := EvalNodes(dag.nodes);
      if vals.Panic? {
        return Panic(vals.reason);
      }
      FoldRoots(vals.value, dag.constraintIdx);
      if KeyConsistent(SubexprsOf(constraints)) {
        DagRootsAreTrees(ExtOps(R), LeafFn(), constraints);
      }
      return Ok(());
    }

    /** The node loop of `eval_constraints`: the value of every node, in
        stored order; the first variable read that fails panics. */
    method EvalNodes(nodes: seq<Node>) returns (r: Result<seq<E>>)
      requires Topo(nodes)
      ensures r.Ok? <==> EvalArena(ExtOps(R), LeafFn(), nodes).Ok?
      ensures r.Ok? ==> r.value == EvalArena(ExtOps(R), LeafFn(), nodes).value
    {
      var ops, leaf := ExtOps(R), LeafFn();
      var exprs: seq<E> := [];
      var i := 0;
      while i < |nodes|
        invariant 0 <= i <= |nodes|
        invariant Topo(nodes[..i])
        invariant EvalArena(ops, leaf, nodes[..i]) == Ok(exprs)
      {
        ArenaStep(ops, leaf, nodes, i);
        var e := EvalNode(nodes[i], exprs);
        if e.Panic? {
          if EvalArena(ops, leaf, nodes).Ok? {
            ArenaPrefix(ops, leaf, nodes, i + 1);
          }
          return Panic(e.reason);
        }
        exprs := exprs + [e.value];
        i := i + 1;
      }
      assert nodes[..|nodes|] == nodes;
      return Ok(exprs);
    }

    /** One node of the loop: a leaf is read, a composite node combines the
        values of its children, which come before it. */
    method EvalNode(n: Node, exprs: seq<E>) returns (r: Result<E>)
      requires ChildrenBelow(n, |exprs|)
      ensures r == NodeValue(ExtOps(R), LeafFn(), n, exprs)
    {
      match n {
        case Variable(x) => r := EvalVar(x);
        case Constant(c) => r := Ok(R.embed(c));
        case Add(l, rt, _) => r := Ok(R.add(exprs[l], exprs[rt]));
        case Sub(l, rt, _) => r := Ok(R.sub(exprs[l], exprs[rt]));
        case Neg(j, _) => r := Ok(R.neg(exprs[j]));
        case Mul(l, rt, _) => r := Ok(R.mul(exprs[l], exprs[rt]));
        case IsFirstRow => r := Ok(isFirstRow);
        case IsLastRow => r := Ok(isLastRow);
        case IsTransition => r := Ok(isTransition);
      }
    }

    /** The folding loop of `eval_constraints`: `assert_zero` on every root's
        value, in the order of the roots. */
    method FoldRoots(vals: seq<E>, roots: seq<nat>)
      requires forall j :: 0 <= j < |roots| ==> roots[j] < |vals|
      modifies this
      ensures accumulator == Horner(R, alpha, old(accumulator), RootValues(vals, roots))
    {
      ghost var cs := RootValues(vals, roots);
      for j := 0 to |roots|
        invariant accumulator == Horner(R, alpha, old(accumulator), cs[..j])
      {
        AssertZero(vals[roots[j]]);
        assert cs[..j + 1][..j] == cs[..j];
      }
      assert cs[..|roots|] == cs;
    }
  }

  /** The folder reads, at every leaf the prover can read, the prover's value
      promoted to the extension. */
  ghost predicate Mirrors<E>(ev: Packed.ProverEvaluator<E>, f: GenericVerifierConstraintFolder<E>, nodes: seq<Node>) {
    forall i :: 0 <= i < |nodes| && IsLeafNode(nodes[i]) && QuotientEvaluator.Leaf(ev, nodes[i]).Ok? ==>
      f.Leaf(nodes[i]) == Ok(Packed.Lift(f.R, QuotientEvaluator.Leaf(ev, nodes[i]).value))
  }

  /** Prover and verifier agree: on a row where the folder sees the prover's
      inputs promoted to the extension, the prover's `accumulate` with the
      reversed powers of alpha equals the folder's accumulator after folding
      the constraints from zero. */
  lemma QuotientAgreesWithVerifier<E(!new)>(
    ev: Packed.ProverEvaluator<E>, f: GenericVerifierConstraintFolder<E>, dag: Dag)
    requires IsExtension(f.R)
    requires WellFormed(dag)
    requires Mirrors(ev, f, dag.nodes)
    requires EvalArena(Packed.PackedOps(f.R), QuotientEvaluator.LeafFn(ev), dag.nodes).Ok?
    ensures EvalArena(ExtOps(f.R), f.LeafFn(), dag.nodes).Ok?
    ensures
      var pv := EvalArena(Packed.PackedOps(f.R), QuotientEvaluator.LeafFn(ev), dag.nodes).value;
      var fv := EvalArena(ExtOps(f.R), f.LeafFn(), dag.nodes).value;
      QuotientEvaluator.AccumulateSpec(f.R, pv, dag.constraintIdx, ReversedPowers(f.R, f.alpha, |dag.constraintIdx|))
        == Horner(f.R, f.alpha, f.R.zero, RootValues(fv, dag.constraintIdx))
  {
    var R := f.R;
    Packed.LiftIsHom(R);
    ArenaHomomorphism(Packed.PackedOps(R), ExtOps(R), Packed.LiftFn(R), QuotientEvaluator.LeafFn(ev), f.LeafFn(), dag.nodes);
    var pv := EvalArena(Packed.PackedOps(R), QuotientEvaluator.LeafFn(ev), dag.nodes).value;
    var fv := EvalArena(ExtOps(R), f.LeafFn(), dag.nodes).value;
    QuotientEvaluator.AccumulateReversedIsHorner(R, f.alpha, pv, dag.constraintIdx);
    assert MapSeq(RootValues(pv, dag.constraintIdx), Packed.LiftFn(R)) == RootValues(fv, dag.constraintIdx);
  }

  /** The base-field row promoted to the extension. */
  function EmbedView<E>(R: Ext<E>, vp: Packed.ViewPair<Val>): Packed.ViewPair<E> {
    Packed.ViewPair(MapSeq(vp.local, R.embed),
                    if vp.next.Some? then Some(MapSeq(vp.next.value, R.embed)) else None)
  }

  /** A folder built from the prover's row, every base value embedded,
      mirrors the prover's evaluator. */
  lemma EmbeddedRowMirrors<E>(ev: Packed.ProverEvaluator<E>, f: GenericVerifierConstraintFolder<E>, nodes: seq<Node>)
    requires f.preprocessed == EmbedView(f.R, ev.preprocessed)
    requires |f.partitionedMain| == |ev.partitionedMain|
    requires forall p :: 0 <= p < |ev.partitionedMain| ==> f.partitionedMain[p] == EmbedView(f.R, ev.partitionedMain[p])
    requires f.afterChallenge == ev.afterChallenge
    requires f.challenges == ev.challenges
    requires f.exposedValuesAfterChallenge == ev.exposedValuesAfterChallenge
    requires f.publicValues == ev.publicValues
    requires f.isFirstRow == f.R.embed(ev.isFirstRow)
    requires f.isLastRow == f.R.embed(ev.isLastRow)
    requires f.isTransition == f.R.embed(ev.isTransition)
    ensures Mirrors(ev, f, nodes)
  {
    forall i | 0 <= i < |nodes| && IsLeafNode(nodes[i]) && QuotientEvaluator.Leaf(ev, nodes[i]).Ok?
      ensures f.Leaf(nodes[i]) == Ok(Packed.Lift(f.R, QuotientEvaluator.Leaf(ev, nodes[i]).value))
    {
      var n := nodes[i];
      if n.Variable? {
        var v := n.v;
        match v.entry
        case Preprocessed(off) =>
          assert off == 0 ==> f.preprocessed.local[v.index] == f.R.embed(ev.preprocessed.local[v.index]);
        case Main(p, off) =>
          assert off == 0 ==>
            f.partitionedMain[p].local[v.index] == f.R.embed(ev.partitionedMain[p].local[v.index]);
        case _ =>
      }
    }
  }
}
