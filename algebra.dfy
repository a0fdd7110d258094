/** The arithmetic the constraint engine computes in.

    `Val` is the base field: integers modulo the prime `P`.  The backend is
    generic over its field; the model fixes the BabyBear modulus used by the
    repository's test configurations, and no proof depends on which prime it is.

    The extension field (`Challenge` in the prover, the verifier's `Expr`/`Var`)
    is left abstract: a type `E` with the operations of `Ext<E>`, among them the
    embedding of the base field.  `IsExtension` states the commutative-ring laws
    and that the embedding is a ring homomorphism; lemmas that need algebra
    require it, so they hold for every extension the backend can be
    instantiated with. */
module Algebra {
  import opened Wrappers

  /** BabyBear: 15 * 2^27 + 1. */
  const P: nat := 2013265921

  type Val = x: int | 0 <= x < P

  function FAdd(x: Val, y: Val): Val { (x + y) % P }
  function FSub(x: Val, y: Val): Val { (x - y) % P }
  function FMul(x: Val, y: Val): Val { (x * y) % P }
  function FNeg(x: Val): Val { (P - x) % P }

  /** One is the unit of the field product and zero absorbs it. */
  lemma FMulUnitZero(x: Val, y: Val)
    ensures x == 1 ==> FMul(x, y) == y
    ensures y == 1 ==> FMul(x, y) == x
    ensures x == 0 || y == 0 ==> FMul(x, y) == 0
  {
  }

  /** Adding reduced integers reduces their sum: `from_canonical` of a
      sum is the field sum. */
  lemma FAddReduces(a: nat, b: nat)
    ensures FAdd((a % P) as Val, (b % P) as Val) == (a + b) % P
  {
    var qa, ra := a / P, a % P;
    var qb, rb := b / P, b % P;
    assert a + b == (qa + qb) * P + (ra + rb);
    if ra + rb < P {
      ModOfMultiple(qa + qb, ra + rb);
    } else {
      assert a + b == (qa + qb + 1) * P + (ra + rb - P);
      ModOfMultiple(qa + qb + 1, ra + rb - P);
    }
  }

  lemma ModOfMultiple(k: nat, r: nat)
    requires r < P
    ensures (k * P + r) % P == r
  {
    var x := k * P + r;
    assert x / P == k by {
      assert k * P <= x < (k + 1) * P;
    }
  }

  /** The operations of an extension of the base field. */
  datatype Ext<!E> = Ext(
    zero: E,
    one: E,
    add: (E, E) -> E,
    sub: (E, E) -> E,
    neg: E -> E,
    mul: (E, E) -> E,
    embed: Val -> E)

  /** The commutative-ring laws at the elements `x`, `y`, `z`. */
  ghost predicate RingLawsAt<E>(R: Ext<E>, x: E, y: E, z: E) {
    && R.add(x, y) == R.add(y, x)
    && R.add(R.add(x, y), z) == R.add(x, R.add(y, z))
    && R.add(R.zero, x) == x
    && R.sub(x, y) == R.add(x, R.neg(y))
    && R.add(x, R.neg(x)) == R.zero
    && R.mul(x, y) == R.mul(y, x)
    && R.mul(R.mul(x, y), z) == R.mul(x, R.mul(y, z))
    && R.mul(R.one, x) == x
    && R.mul(R.zero, x) == R.zero
    && R.mul(x, R.add(y, z)) == R.add(R.mul(x, y), R.mul(x, z))
  }

  /** The embedding commutes with the field operations at `a`, `b`. */
  ghost predicate EmbedLawsAt<E>(R: Ext<E>, a: Val, b: Val) {
    && R.embed(FAdd(a, b)) == R.add(R.embed(a), R.embed(b))
    && R.embed(FSub(a, b)) == R.sub(R.embed(a), R.embed(b))
    && R.embed(FMul(a, b)) == R.mul(R.embed(a), R.embed(b))
    && R.embed(FNeg(a)) == R.neg(R.embed(a))
  }

  /** `R` is a commutative ring into which `embed` maps the base field
      homomorphically.  The laws are instantiated only where a proof names the
      elements (by mentioning `RingLawsAt` or `EmbedLawsAt`), which keeps the
      solver from rewriting sums and products endlessly. */
  ghost predicate IsExtension<E(!new)>(R: Ext<E>) {
    && (forall x, y, z {:trigger RingLawsAt(R, x, y, z)} :: RingLawsAt(R, x, y, z))
    && (forall a, b {:trigger EmbedLawsAt(R, a, b)} :: EmbedLawsAt(R, a, b))
    && R.embed(0) == R.zero
    && R.embed(1) == R.one
  }

  /** `a^k`, computed the way `powers()` iterates: by repeated multiplication by `a`. */
  function Pow<E>(R: Ext<E>, a: E, k: nat): E {
    if k == 0 then R.one else R.mul(Pow(R, a, k - 1), a)
  }

  /** `[a^0, a^1, ..., a^(n-1)]`: `a.powers().take(n)`. */
  function Powers<E>(R: Ext<E>, a: E, n: nat): (r: seq<E>)
    ensures |r| == n
    ensures forall i :: 0 <= i < n ==> r[i] == Pow(R, a, i)
  {
    seq(n, i requires 0 <= i < n => Pow(R, a, i))
  }

  /** `[a^(n-1), ..., a^1, a^0]`: the powers in the order the prover passes them. */
  function ReversedPowers<E>(R: Ext<E>, a: E, n: nat): (r: seq<E>)
    ensures |r| == n
    ensures forall i :: 0 <= i < n ==> r[i] == Pow(R, a, n - 1 - i)
  {
    seq(n, i requires 0 <= i < n => Pow(R, a, n - 1 - i))
  }

  function Reverse<T>(s: seq<T>): (r: seq<T>)
    ensures |r| == |s|
    ensures forall i :: 0 <= i < |s| ==> r[i] == s[|s| - 1 - i]
  {
    seq(|s|, i requires 0 <= i < |s| => s[|s| - 1 - i])
  }

  /** `sum_i ws[i] * cs[i]`, accumulated left to right from zero, as the
      prover's `accumulator += alpha_pow * value` loop does. */
  function WeightedSum<E>(R: Ext<E>, ws: seq<E>, cs: seq<E>): E
    requires |ws| == |cs|
    decreases |ws|
  {
    if |ws| == 0 then R.zero
    else
      var n := |ws|;
      R.add(WeightedSum(R, ws[..n - 1], cs[..n - 1]), R.mul(ws[n - 1], cs[n - 1]))
  }

  /** One more term of the sum. */
  lemma WeightedSumSnoc<E>(R: Ext<E>, ws: seq<E>, cs: seq<E>, j: nat)
    requires |ws| == |cs| && j < |ws|
    ensures WeightedSum(R, ws[..j + 1], cs[..j + 1]) == R.add(WeightedSum(R, ws[..j], cs[..j]), R.mul(ws[j], cs[j]))
  {
    assert ws[..j + 1][..j] == ws[..j];
    assert cs[..j + 1][..j] == cs[..j];
  }

  /** The verifier's fold: starting from `acc`, every constraint value `c`
      turns the accumulator into `acc * alpha + c`. */
  function Horner<E>(R: Ext<E>, alpha: E, acc: E, cs: seq<E>): E
    decreases |cs|
  {
    if |cs| == 0 then acc
    else R.add(R.mul(Horner(R, alpha, acc, cs[..|cs| - 1]), alpha), cs[|cs| - 1])
  }

  function Scaled<E>(R: Ext<E>, ws: seq<E>, a: E): (r: seq<E>)
    ensures |r| == |ws|
    ensures forall i :: 0 <= i < |ws| ==> r[i] == R.mul(ws[i], a)
  {
    seq(|ws|, i requires 0 <= i < |ws| => R.mul(ws[i], a))
  }

  /** Multiplying every weight by `a` multiplies the weighted sum by `a`. */
  lemma {:induction false} WeightedSumScaled<E(!new)>(R: Ext<E>, ws: seq<E>, cs: seq<E>, a: E)
    requires IsExtension(R)
    requires |ws| == |cs|
    ensures WeightedSum(R, Scaled(R, ws, a), cs) == R.mul(WeightedSum(R, ws, cs), a)
    decreases |ws|
  {
    var n := |ws|;
    if n == 0 {
      assert RingLawsAt(R, a, a, a);
    } else {
      var ws', cs' := ws[..n - 1], cs[..n - 1];
      assert Scaled(R, ws, a)[..n - 1] == Scaled(R, ws', a);
      WeightedSumScaled(R, ws', cs', a);
      var s := WeightedSum(R, ws', cs');
      var w, c := ws[n - 1], cs[n - 1];
      var wc := R.mul(w, c);
      calc {
        WeightedSum(R, Scaled(R, ws, a), cs);
        R.add(R.mul(s, a), R.mul(R.mul(w, a), c));
        { assert RingLawsAt(R, w, a, c) && RingLawsAt(R, a, c, w) && RingLawsAt(R, w, c, a); }
        R.add(R.mul(s, a), R.mul(wc, a));
        { assert RingLawsAt(R, a, s, wc) && RingLawsAt(R, wc, a, a); }
        R.add(R.mul(a, s), R.mul(a, wc));
        R.mul(a, R.add(s, wc));
        { assert RingLawsAt(R, R.add(s, wc), a, a); }
        R.mul(R.add(s, wc), a);
      }
    }
  }

  /** The verifier's Horner fold from `acc` over n constraint values is
      `acc * alpha^n` plus the prover's sum weighted by the reversed powers
      `alpha^(n-1), ..., alpha^0`. */
  lemma {:induction false} HornerIsReversedPowerSum<E(!new)>(R: Ext<E>, alpha: E, acc: E, cs: seq<E>)
    requires IsExtension(R)
    ensures Horner(R, alpha, acc, cs)
         == R.add(R.mul(acc, Pow(R, alpha, |cs|)), WeightedSum(R, ReversedPowers(R, alpha, |cs|), cs))
    decreases |cs|
  {
    var n := |cs|;
    if n == 0 {
      assert RingLawsAt(R, acc, R.one, R.one) && RingLawsAt(R, R.mul(acc, R.one), R.zero, R.zero);
    } else {
      var m := n - 1;
      var cs', c := cs[..m], cs[m];
      HornerIsReversedPowerSum(R, alpha, acc, cs');
      var am := Pow(R, alpha, m);
      var an := Pow(R, alpha, n);
      var s := WeightedSum(R, ReversedPowers(R, alpha, m), cs');
      var h := Horner(R, alpha, acc, cs');
      // The first m reversed powers of length n are those of length m times alpha.
      assert ReversedPowers(R, alpha, n)[..m] == Scaled(R, ReversedPowers(R, alpha, m), alpha);
      WeightedSumScaled(R, ReversedPowers(R, alpha, m), cs', alpha);
      var t := R.mul(s, alpha);
      var u := R.mul(acc, an);
      assert WeightedSum(R, ReversedPowers(R, alpha, n), cs) == R.add(t, R.mul(R.one, c));
      assert RingLawsAt(R, c, c, c);
      calc {
        Horner(R, alpha, acc, cs);
        R.add(R.mul(h, alpha), c);
        R.add(R.mul(R.add(R.mul(acc, am), s), alpha), c);
        { assert RingLawsAt(R, R.add(R.mul(acc, am), s), alpha, alpha)
              && RingLawsAt(R, alpha, R.mul(acc, am), s)
              && RingLawsAt(R, alpha, R.mul(acc, am), alpha)
              && RingLawsAt(R, alpha, s, s)
              && RingLawsAt(R, acc, am, alpha); }
        R.add(R.add(u, t), c);
        { assert RingLawsAt(R, u, t, c); }
        R.add(u, R.add(t, R.mul(R.one, c)));
      }
    }
  }

  /** From a zero accumulator the Horner fold is exactly the reversed-power sum. */
  lemma HornerFromZero<E(!new)>(R: Ext<E>, alpha: E, cs: seq<E>)
    requires IsExtension(R)
    ensures Horner(R, alpha, R.zero, cs) == WeightedSum(R, ReversedPowers(R, alpha, |cs|), cs)
  {
    HornerIsReversedPowerSum(R, alpha, R.zero, cs);
    var an := Pow(R, alpha, |cs|);
    var s := WeightedSum(R, ReversedPowers(R, alpha, |cs|), cs);
    assert RingLawsAt(R, an, an, an) && RingLawsAt(R, s, s, s);
  }

  lemma {:induction false} WeightedSumCons<E(!new)>(R: Ext<E>, w: E, ws: seq<E>, c: E, cs: seq<E>)
    requires IsExtension(R)
    requires |ws| == |cs|
    ensures WeightedSum(R, [w] + ws, [c] + cs) == R.add(R.mul(w, c), WeightedSum(R, ws, cs))
    decreases |ws|
  {
    var n := |ws|;
    if n == 0 {
      assert ([w] + ws)[..0] == [];
      assert RingLawsAt(R, R.zero, R.mul(w, c), R.zero);
      assert RingLawsAt(R, R.mul(w, c), R.zero, R.zero);
    } else {
      var ws', cs' := ws[..n - 1], cs[..n - 1];
      assert ([w] + ws)[..n] == [w] + ws';
      assert ([c] + cs)[..n] == [c] + cs';
      WeightedSumCons(R, w, ws', c, cs');
      var wc, s, last := R.mul(w, c), WeightedSum(R, ws', cs'), R.mul(ws[n - 1], cs[n - 1]);
      assert RingLawsAt(R, wc, s, last);
    }
  }

  /** Pairing weights and values back to front does not change the sum. */
  lemma {:induction false} WeightedSumReversed<E(!new)>(R: Ext<E>, ws: seq<E>, cs: seq<E>)
    requires IsExtension(R)
    requires |ws| == |cs|
    ensures WeightedSum(R, Reverse(ws), Reverse(cs)) == WeightedSum(R, ws, cs)
    decreases |ws|
  {
    var n := |ws|;
    if n > 0 {
      var ws', cs' := ws[..n - 1], cs[..n - 1];
      WeightedSumReversed(R, ws', cs');
      assert Reverse(ws) == [ws[n - 1]] + Reverse(ws');
      assert Reverse(cs) == [cs[n - 1]] + Reverse(cs');
      WeightedSumCons(R, ws[n - 1], Reverse(ws'), cs[n - 1], Reverse(cs'));
      assert RingLawsAt(R, R.mul(ws[n - 1], cs[n - 1]), WeightedSum(R, ws', cs'), R.zero);
    }
  }

  /** Increasing powers paired with the constraint values in reverse order
      give the same Horner fold. */
  lemma HornerIsIncreasingPowerSumReversed<E(!new)>(R: Ext<E>, alpha: E, cs: seq<E>)
    requires IsExtension(R)
    ensures Horner(R, alpha, R.zero, cs) == WeightedSum(R, Powers(R, alpha, |cs|), Reverse(cs))
  {
    var n := |cs|;
    HornerFromZero(R, alpha, cs);
    assert Reverse(Powers(R, alpha, n)) == ReversedPowers(R, alpha, n);
    assert Reverse(Reverse(cs)) == cs;
    WeightedSumReversed(R, Powers(R, alpha, n), Reverse(cs));
  }
}
