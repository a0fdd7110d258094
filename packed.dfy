/** The values the prover's quotient evaluators compute with
    (prover/quotient/evaluator.rs and prover/cpu/quotient/evaluator.rs, which
    define the same `ViewPair`, `ProverConstraintEvaluator` fields and
    `PackedExpr` arithmetic).

    A `PackedExpr` holds a base-field value for as long as an expression only
    involves base-field inputs, and is promoted to the extension as soon as an
    extension value takes part.  The prover packs `WIDTH` rows into one SIMD
    value; every operation acts lane by lane, so the model follows one lane. */
module Packed {
  import opened Wrappers
  import opened Algebra
  import opened Symbolic
  import opened Evaluation

  datatype PackedExpr<E> = Val(x: Val) | Challenge(y: E)

  /** `Add for PackedExpr`. */
  function PAdd<E>(R: Ext<E>, a: PackedExpr<E>, b: PackedExpr<E>): (r: PackedExpr<E>)
    ensures r.Val? <==> a.Val? && b.Val?
  {
    match (a, b)
    case (Val(x), Val(y)) => PackedExpr.Val(FAdd(x, y))
    case (Val(x), Challenge(y)) => PackedExpr.Challenge(R.add(y, R.embed(x)))
    case (Challenge(x), Val(y)) => PackedExpr.Challenge(R.add(x, R.embed(y)))
    case (Challenge(x), Challenge(y)) => PackedExpr.Challenge(R.add(x, y))
  }

  /** `Sub for PackedExpr`. */
  function PSub<E>(R: Ext<E>, a: PackedExpr<E>, b: PackedExpr<E>): (r: PackedExpr<E>)
    ensures r.Val? <==> a.Val? && b.Val?
  {
    match (a, b)
    case (Val(x), Val(y)) => PackedExpr.Val(FSub(x, y))
    case (Val(x), Challenge(y)) => PackedExpr.Challenge(R.sub(R.embed(x), y))
    case (Challenge(x), Val(y)) => PackedExpr.Challenge(R.sub(x, R.embed(y)))
    case (Challenge(x), Challenge(y)) => PackedExpr.Challenge(R.sub(x, y))
  }

  /** `Mul for PackedExpr`. */
  function PMul<E>(R: Ext<E>, a: PackedExpr<E>, b: PackedExpr<E>): (r: PackedExpr<E>)
    ensures r.Val? <==> a.Val? && b.Val?
  {
    match (a, b)
    case (Val(x), Val(y)) => PackedExpr.Val(FMul(x, y))
    case (Val(x), Challenge(y)) => PackedExpr.Challenge(R.mul(y, R.embed(x)))
    case (Challenge(x), Val(y)) => PackedExpr.Challenge(R.mul(x, R.embed(y)))
    case (Challenge(x), Challenge(y)) => PackedExpr.Challenge(R.mul(x, y))
  }

  /** `Neg for PackedExpr`. */
  function PNeg<E>(R: Ext<E>, a: PackedExpr<E>): (r: PackedExpr<E>)
    ensures r.Val? <==> a.Val?
  {
    match a
    case Val(x) => PackedExpr.Val(FNeg(x))
    case Challenge(y) => PackedExpr.Challenge(R.neg(y))
  }

  function PackedOps<E>(R: Ext<E>): Ops<PackedExpr<E>> {
    Ops((a, b) => PAdd(R, a, b), (a, b) => PSub(R, a, b), a => PNeg(R, a), (a, b) => PMul(R, a, b))
  }

  /** The extension value a packed value stands for; `accumulate` multiplies
      either kind by an extension power this way. */
  function Lift<E>(R: Ext<E>, p: PackedExpr<E>): E {
    match p
    case Val(x) => R.embed(x)
    case Challenge(y) => y
  }

  function LiftFn<E>(R: Ext<E>): PackedExpr<E> -> E {
    p => Lift(R, p)
  }

  /** Every operation, whatever the kinds of its operands, computes the
      extension operation on the lifted operands: promoting a base value to
      the extension early or late gives the same result. */
  lemma LiftIsHom<E(!new)>(R: Ext<E>)
    requires IsExtension(R)
    ensures IsHom(PackedOps(R), ExtOps(R), LiftFn(R))
  {
    forall a: PackedExpr<E>, b: PackedExpr<E>
      ensures HomAt(PackedOps(R), ExtOps(R), LiftFn(R), a, b)
    {
      LiftOpsAt(R, a, b);
    }
  }

  lemma LiftOpsAt<E(!new)>(R: Ext<E>, a: PackedExpr<E>, b: PackedExpr<E>)
    requires IsExtension(R)
    ensures Lift(R, PAdd(R, a, b)) == R.add(Lift(R, a), Lift(R, b))
    ensures Lift(R, PSub(R, a, b)) == R.sub(Lift(R, a), Lift(R, b))
    ensures Lift(R, PMul(R, a, b)) == R.mul(Lift(R, a), Lift(R, b))
    ensures Lift(R, PNeg(R, a)) == R.neg(Lift(R, a))
  {
    match (a, b)
    case (Val(x), Val(y)) => assert EmbedLawsAt(R, x, y);
    case (Val(x), Challenge(y)) =>
      assert EmbedLawsAt(R, x, x);
      assert RingLawsAt(R, y, R.embed(x), y);
    case (Challenge(x), Val(y)) =>
    case (Challenge(x), Challenge(y)) =>
  }

  /** A `ViewPair`: the row being evaluated and, if some constraint needs it,
      the next row. */
  datatype ViewPair<T> = ViewPair(local: seq<T>, next: Option<seq<T>>)

  /** What `get` reads without checking: the column exists in the selected row. */
  predicate CanRead<T>(vp: ViewPair<T>, rowOffset: nat, col: nat) {
    && (rowOffset == 0 ==> col < |vp.local|)
    && (rowOffset == 1 ==> vp.next.Some? && col < |vp.next.value|)
  }

  /** `ViewPair::get`: offset 0 is the local row, 1 the next row, anything else panics. */
  function Get<T>(vp: ViewPair<T>, rowOffset: nat, col: nat): (r: Result<T>)
    requires CanRead(vp, rowOffset, col)
    ensures r.Ok? <==> rowOffset <= 1
    ensures rowOffset == 0 ==> r == Ok(vp.local[col])
    ensures rowOffset == 1 ==> r == Ok(vp.next.value[col])
  {
    match rowOffset
    case 0 => Ok(vp.local[col])
    case 1 => Ok(vp.next.value[col])
    case _ => Panic("row offset not supported")
  }

  /** The fields of `ProverConstraintEvaluator`, for one lane. */
  datatype ProverEvaluator<E> = ProverEvaluator(
    preprocessed: ViewPair<Val>,
    partitionedMain: seq<ViewPair<Val>>,
    afterChallenge: seq<ViewPair<E>>,
    challenges: seq<seq<E>>,
    isFirstRow: Val,
    isLastRow: Val,
    isTransition: Val,
    publicValues: seq<Val>,
    exposedValuesAfterChallenge: seq<seq<E>>)

  /** `eval_const` and the three selectors: always base values. */
  function EvalNonVariableLeaf<E>(ev: ProverEvaluator<E>, n: Node): (r: PackedExpr<E>)
    requires n.Constant? || n.IsFirstRow? || n.IsLastRow? || n.IsTransition?
    ensures r.Val?
    ensures n.Constant? ==> r.x == n.c
    ensures n.IsFirstRow? ==> r.x == ev.isFirstRow
    ensures n.IsLastRow? ==> r.x == ev.isLastRow
    ensures n.IsTransition? ==> r.x == ev.isTransition
  {
    match n
    case Constant(c) => PackedExpr.Val(c)
    case IsFirstRow => PackedExpr.Val(ev.isFirstRow)
    case IsLastRow => PackedExpr.Val(ev.isLastRow)
    case IsTransition => PackedExpr.Val(ev.isTransition)
  }
}
