/** The bookkeeping both versions of `compute_single_rap_quotient_values`
    share (prover/quotient/single.rs and prover/cpu/quotient/single.rs): the
    step between a row and its successor on the quotient domain, the alpha
    powers in decreasing order, the padding of the selector vectors, the
    wrapped row indices, the largest row offset the constraints read and
    the way blocks of `WIDTH` rows cover the output. */
module QuotientCommon {
  import opened Wrappers
  import opened Algebra
  import opened Symbolic
  import Packed

  /** `2^k`. */
  function Pow2(k: nat): (r: nat)
    ensures r >= 1
  {
    if k == 0 then 1 else 2 * Pow2(k - 1)
  }

  predicate IsPow2(n: nat)
    decreases n
  {
    n == 1 || (n >= 2 && n % 2 == 0 && IsPow2(n / 2))
  }

  /** The exponent of a power of two. */
  function Log2(n: nat): (r: nat)
    requires IsPow2(n)
    ensures Pow2(r) == n
    decreases n
  {
    if n == 1 then 0 else 1 + Log2(n / 2)
  }

  lemma {:induction false} Pow2IsPow2(k: nat)
    ensures IsPow2(Pow2(k))
  {
    if k > 0 {
      Pow2IsPow2(k - 1);
      assert Pow2(k) / 2 == Pow2(k - 1);
    }
  }

  lemma {:induction false} Pow2Add(a: nat, b: nat)
    ensures Pow2(a + b) == Pow2(a) * Pow2(b)
  {
    if a > 0 {
      Pow2Add(a - 1, b);
      assert Pow2(a + b) == 2 * Pow2(a - 1 + b);
    }
  }

  lemma {:induction false} Pow2Strict(a: nat, b: nat)
    requires a < b
    ensures Pow2(a) < Pow2(b)
    decreases b
  {
    if a < b - 1 {
      Pow2Strict(a, b - 1);
    }
  }

  /** `usize::MAX + 1` on a 64-bit target. */
  const UsizeLimit: nat := 0x1_0000_0000_0000_0000

  lemma {:induction false} Pow2At64()
    ensures Pow2(64) == UsizeLimit
  {
    Pow2At32();
    Pow2Add(32, 32);
  }

  lemma {:induction false} Pow2At32()
    ensures Pow2(32) == 0x1_0000_0000
  {
    Pow2At16();
    Pow2Add(16, 16);
  }

  lemma {:induction false} Pow2At16()
    ensures Pow2(16) == 0x1_0000
  {
    assert Pow2(4) == 16;
    assert Pow2(8) == 256 by { Pow2Add(4, 4); }
    Pow2Add(8, 8);
  }

  /** `log2_strict_usize`: the exponent of a power of two; anything else
      (zero included) fails its assertion. */
  function Log2Strict(n: nat): (r: Result<nat>)
    ensures r.Ok? <==> IsPow2(n)
    ensures r.Ok? ==> Pow2(r.value) == n
  {
    if IsPow2(n) then Ok(Log2(n)) else Panic("Not a power of two")
  }

  /** `next_step = 1 << (log2_strict(quotient_size) - log2_strict(trace_size))`:
      how many quotient-domain points lie between one trace row and the next.
      A smaller quotient domain underflows the subtraction. */
  function NextStep(quotientSize: nat, traceSize: nat): (r: Result<nat>)
    ensures r.Ok? <==> IsPow2(quotientSize) && IsPow2(traceSize) && traceSize <= quotientSize
    ensures r.Ok? ==> IsPow2(r.value) && r.value * traceSize == quotientSize
  {
    var lq :- Log2Strict(quotientSize);
    var lt :- Log2Strict(traceSize);
    ExponentGap(lq, lt);
    if lq < lt then Panic("attempt to subtract with overflow")
    else Ok(Pow2(lq - lt))
  }

  /** Comparing exponents compares the powers, and their gap is the ratio. */
  lemma ExponentGap(lq: nat, lt: nat)
    ensures lq < lt ==> Pow2(lq) < Pow2(lt)
    ensures lq >= lt ==> IsPow2(Pow2(lq - lt)) && Pow2(lq - lt) * Pow2(lt) == Pow2(lq)
  {
    if lq < lt {
      Pow2Strict(lq, lt);
    } else {
      Pow2Add(lq - lt, lt);
      Pow2IsPow2(lq - lt);
    }
  }

  /** Reverses `a` in place, as `Vec::reverse` does. */
  method ReverseInPlace<T>(a: array<T>)
    modifies a
    ensures a[..] == Reverse(old(a[..]))
  {
    var n := a.Length;
    for i := 0 to n / 2
      invariant forall k :: 0 <= k < i ==> a[k] == old(a[n - 1 - k]) && a[n - 1 - k] == old(a[k])
      invariant forall k :: i <= k < n - i ==> a[k] == old(a[k])
    {
      a[i], a[n - 1 - i] := a[n - 1 - i], a[i];
    }
  }

  /** The increasing powers, reversed, are the decreasing powers. */
  lemma ReversedPowersReverse<E>(R: Ext<E>, alpha: E, n: nat)
    ensures Reverse(Powers(R, alpha, n)) == ReversedPowers(R, alpha, n)
  {
  }

  /** `alpha.powers().take(n)` collected and then reversed in place:
      `[alpha^(n-1), ..., alpha^0]`, highest power first, as the folding
      accumulator wants them. */
  method AlphaPowers<E>(R: Ext<E>, alpha: E, n: nat) returns (a: array<E>)
    ensures fresh(a)
    ensures a[..] == ReversedPowers(R, alpha, n)
  {
    a := new E[n](_ => R.one);
    if n > 0 {
      for i := 1 to n
        invariant a[..i] == Powers(R, alpha, i)
      {
        a[i] := R.mul(a[i - 1], alpha);
        assert a[..i + 1] == a[..i] + [a[i]];
      }
    }
    assert a[..n] == a[..];
    ReverseInPlace(a);
    ReversedPowersReverse(R, alpha, n);
  }

  function Zeros(n: nat): (r: seq<Val>)
    ensures |r| == n && forall i :: 0 <= i < n ==> r[i] == 0
  {
    seq(n, _ => 0)
  }

  /** How many defaults `for _ in quotient_size..WIDTH` pushes. */
  function PadCount(quotientSize: nat, width: nat): nat {
    if quotientSize < width then width - quotientSize else 0
  }

  /** A selector vector of `quotient_size` evaluations, padded: it keeps its
      values, is zero beyond them, and is as long as both `quotient_size` and
      `WIDTH`, so the first block can always be sliced. */
  lemma PaddedSelector(s: seq<Val>, quotientSize: nat, width: nat)
    requires |s| == quotientSize
    ensures |s + Zeros(PadCount(quotientSize, width))| == Max(quotientSize, width)
    ensures forall j :: 0 <= j < quotientSize ==> (s + Zeros(PadCount(quotientSize, width)))[j] == s[j]
    ensures forall j :: quotientSize <= j < Max(quotientSize, width) ==>
      (s + Zeros(PadCount(quotientSize, width)))[j] == 0
  {
  }

  /** The selector vectors `selectors_on_coset` returns, which the function
      then pads in place. */
  class Selectors {
    var isFirstRow: seq<Val>
    var isLastRow: seq<Val>
    var isTransition: seq<Val>
    var invZeroifier: seq<Val>

    constructor(isFirstRow: seq<Val>, isLastRow: seq<Val>, isTransition: seq<Val>, invZeroifier: seq<Val>)
      ensures this.isFirstRow == isFirstRow && this.isLastRow == isLastRow
      ensures this.isTransition == isTransition && this.invZeroifier == invZeroifier
    {
      this.isFirstRow := isFirstRow;
      this.isLastRow := isLastRow;
      this.isTransition := isTransition;
      this.invZeroifier := invZeroifier;
    }

    /** Pushes a default (zero) onto each vector once for every row between
        `quotient_size` and `WIDTH`. */
    method Pad(quotientSize: nat, width: nat)
      modifies this
      ensures isFirstRow == old(isFirstRow) + Zeros(PadCount(quotientSize, width))
      ensures isLastRow == old(isLastRow) + Zeros(PadCount(quotientSize, width))
      ensures isTransition == old(isTransition) + Zeros(PadCount(quotientSize, width))
      ensures invZeroifier == old(invZeroifier) + Zeros(PadCount(quotientSize, width))
    {
      var k := quotientSize;
      while k < width
        invariant quotientSize <= k || width <= quotientSize
        invariant var pushed := if k <= quotientSize then 0 else k - quotientSize;
          && isFirstRow == old(isFirstRow) + Zeros(pushed)
          && isLastRow == old(isLastRow) + Zeros(pushed)
          && isTransition == old(isTransition) + Zeros(pushed)
          && invZeroifier == old(invZeroifier) + Zeros(pushed)
        invariant k < width ==> k >= quotientSize
        invariant k >= width ==> k == Max(quotientSize, width)
      {
        isFirstRow := isFirstRow + [0];
        isLastRow := isLastRow + [0];
        isTransition := isTransition + [0];
        invZeroifier := invZeroifier + [0];
        k := k + 1;
      }
    }
  }

  /** Lane `offset` of the block starting at `iStart` evaluates the local row
      `wrap(i_start + offset)`. */
  function LocalRow(iStart: nat, offset: nat, quotientSize: nat): (r: nat)
    requires quotientSize > 0
    ensures r < quotientSize
  {
    (iStart + offset) % quotientSize
  }

  /** ... and the next row `wrap(i_start + offset + next_step)`. */
  function NextRow(iStart: nat, offset: nat, nextStep: nat, quotientSize: nat): (r: nat)
    requires quotientSize > 0
    ensures r < quotientSize
  {
    (iStart + offset + nextStep) % quotientSize
  }

  /** The row reached from `row` after `k` steps to the next row. */
  function Advance(row: nat, k: nat, nextStep: nat, quotientSize: nat): (r: nat)
    requires quotientSize > 0
    ensures r < quotientSize
  {
    if k == 0 then row % quotientSize else NextRow(Advance(row, k - 1, nextStep, quotientSize), 0, nextStep, quotientSize)
  }

  lemma {:induction false} AdvanceIsOffset(row: nat, k: nat, nextStep: nat, quotientSize: nat)
    requires quotientSize > 0
    ensures Advance(row, k, nextStep, quotientSize) == (row + k * nextStep) % quotientSize
  {
    if k > 0 {
      AdvanceIsOffset(row, k - 1, nextStep, quotientSize);
      var a := row + (k - 1) * nextStep;
      assert row + k * nextStep == a + nextStep;
      ModAddStep(a, nextStep, quotientSize);
    }
  }

  lemma ModAddStep(a: nat, s: nat, q: nat)
    requires q > 0
    ensures (a % q + s) % q == (a + s) % q
  {
    var t := a % q + s;
    assert a + s == (a / q + t / q) * q + t % q;
    ModUnique(a + s, a / q + t / q, q, t % q);
  }

  lemma ModMultipleAdd(d: nat, q: nat, x: nat)
    requires q > 0
    ensures (d * q + x) % q == x % q
  {
    assert d * q + x == (d + x / q) * q + x % q;
    ModUnique(d * q + x, d + x / q, q, x % q);
  }

  /** Euclidean division is unique: `k * q + r` with `0 <= r < q` has
      quotient `k` and remainder `r`. */
  lemma ModUnique(a: int, k: int, q: int, r: int)
    requires q > 0 && 0 <= r < q && a == k * q + r
    ensures a % q == r && a / q == k
  {
    var m := a / q - k;
    assert m * q == r - a % q;
    if m > 0 {
      MulMonotone(1, m, q);
    } else if m < 0 {
      MulMonotone(1, -m, q);
    }
  }

  /** The row indices the block `iStart` hands to the evaluator: the local
      row is the lane's own point of the quotient domain and the next row
      is one trace step further, the quotient domain being traversed
      cyclically: `trace_size` steps from any row come back to it. */
  lemma NextRowWrapsAround(row: nat, nextStep: nat, traceSize: nat, quotientSize: nat)
    requires quotientSize > 0 && row < quotientSize
    requires nextStep * traceSize == quotientSize
    ensures NextRow(row, 0, nextStep, quotientSize) == Advance(row, 1, nextStep, quotientSize)
    ensures Advance(row, traceSize, nextStep, quotientSize) == row
  {
    ModUnique(row, 0, quotientSize, row);
    AdvanceIsOffset(row, traceSize, nextStep, quotientSize);
    ModUnique(row + traceSize * nextStep, 1, quotientSize, row);
  }

  /** The blocks `0, WIDTH, 2 WIDTH, ...` of `quotient_size` rows slice the
      padded selectors in range: either one block covers everything, or
      `WIDTH` divides the size. */
  predicate BlocksFit(quotientSize: nat, width: nat) {
    quotientSize <= width || (width > 0 && quotientSize % width == 0)
  }

  /** `x` is a whole number of blocks of `w` rows: where the block loop
      can start a block. */
  predicate BlockAligned(x: nat, w: nat)
    decreases x
  {
    x == 0 || (0 < w <= x && BlockAligned(x - w, w))
  }

  lemma {:induction false} BlockAlignedMod(x: nat, w: nat)
    requires w > 0 && BlockAligned(x, w)
    ensures x % w == 0
    decreases x
  {
    if x > 0 {
      BlockAlignedMod(x - w, w);
      ModMultipleAdd(1, w, x - w);
    }
  }

  /** A block starting at a multiple of `WIDTH` that runs past the end of
      the domain shows that `WIDTH` does not divide its size. */
  lemma Straddle(iStart: nat, qs: nat, w: nat)
    requires w > 0 && BlockAligned(iStart, w) && iStart < qs < iStart + w
    ensures qs % w != 0
  {
    BlockAlignedMod(iStart, w);
    ModUnique(qs, iStart / w, w, qs - iStart);
  }

  /** A block loop that ends exactly at the domain size shows the blocks fit. */
  lemma AlignedEndFits(qs: nat, w: nat)
    requires w > 0 && BlockAligned(qs, w)
    ensures BlocksFit(qs, w)
  {
    BlockAlignedMod(qs, w);
  }

  lemma {:induction false} Pow2Divides(a: nat, b: nat)
    requires a <= b
    ensures Pow2(b) % Pow2(a) == 0
  {
    var m, k := Pow2(a), Pow2(b - a);
    assert Pow2(b) == k * m by {
      Pow2Add(a, b - a);
    }
    ModMultipleAdd(k, m, 0);
  }

  /** With power-of-two sizes, as the domains always have, every block fits. */
  lemma PowTwoBlocksFit(quotientSize: nat, width: nat)
    requires IsPow2(quotientSize) && IsPow2(width)
    ensures BlocksFit(quotientSize, width)
  {
    if width <= quotientSize {
      var a, b := Log2(width), Log2(quotientSize);
      if b < a {
        Pow2Strict(b, a);
      }
      Pow2Divides(a, b);
    }
  }

  /** The row offset a node reads at, for the entries the scan takes into
      `rotation`; 0 for everything else. */
  function OffsetOf(n: Node): nat {
    match n
    case Variable(v) =>
      (match v.entry
       case Preprocessed(off) => off
       case Main(_, off) => off
       case Permutation(off) => off
       case _ => 0)
    case _ => 0
  }

  /** `rotation` after the scan: the largest such offset. */
  function MaxOffset(nodes: seq<Node>): nat {
    if |nodes| == 0 then 0 else Max(MaxOffset(nodes[..|nodes| - 1]), OffsetOf(nodes[|nodes| - 1]))
  }

  /** `rotation` bounds every offset and is one of them (or 0), so
      `needs_next` holds exactly when some node reads a later row. */
  lemma {:induction false} MaxOffsetIsMax(nodes: seq<Node>)
    ensures forall i :: 0 <= i < |nodes| ==> OffsetOf(nodes[i]) <= MaxOffset(nodes)
    ensures MaxOffset(nodes) > 0 ==> exists i :: 0 <= i < |nodes| && OffsetOf(nodes[i]) == MaxOffset(nodes)
    ensures MaxOffset(nodes) > 0 <==> exists i :: 0 <= i < |nodes| && OffsetOf(nodes[i]) > 0
  {
    if |nodes| > 0 {
      var prev := nodes[..|nodes| - 1];
      MaxOffsetIsMax(prev);
      assert forall i :: 0 <= i < |prev| ==> prev[i] == nodes[i];
    }
  }

  /** The shape of the views the function builds for the evaluator: a local
      row of `width` columns and, when `needs_next`, a next row of the same
      width. */
  predicate ViewShape<T>(vp: Packed.ViewPair<T>, width: nat, needsNext: bool) {
    && |vp.local| == width
    && (needsNext ==> vp.next.Some? && |vp.next.value| == width)
  }

  /** The number of extension columns `(0..base_width).step_by(ext_degree)` yields. */
  function ExtCols(baseWidth: nat, extDegree: nat): nat
    requires extDegree > 0
  {
    (baseWidth + extDegree - 1) / extDegree
  }

  /** Every index the scan accepts for an after-challenge matrix,
      `index < base_width / ext_degree`, names one of those columns. */
  lemma ExtColsCoverCheckedIndices(baseWidth: nat, extDegree: nat, index: nat)
    requires extDegree > 0 && index < baseWidth / extDegree
    ensures index < ExtCols(baseWidth, extDegree)
  {
    MulMonotone(index + 1, baseWidth / extDegree, extDegree);
    DivLowerBound(baseWidth + extDegree - 1, index + 1, extDegree);
  }

  /** `k * d <= m` puts at least `k` whole `d`s in `m`. */
  lemma DivLowerBound(m: nat, k: nat, d: nat)
    requires d > 0 && k * d <= m
    ensures m / d >= k
  {
    var r: nat := m - k * d;
    assert m == (k + r / d) * d + r % d;
    ModUnique(m, k + r / d, d, r % d);
  }

  lemma MulMonotone(a: int, b: int, c: nat)
    requires a <= b
    ensures a * c <= b * c
  {
  }
}
