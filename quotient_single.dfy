/** `compute_single_rap_quotient_values` of the generic prover
    (prover/quotient/single.rs).

    The function checks the constraints' variable indices once, then walks
    the quotient domain in blocks of `WIDTH` rows.  For every row it builds
    the evaluator's views from the row-major LDE matrices (the local row and,
    when some constraint reads it, the row one trace step further), folds the
    constraint values with the reversed powers of alpha and multiplies by the
    inverse of the vanishing polynomial at that point.  The packed lanes of a
    block are modelled one row at a time. */
module QuotientSingle {
  import opened Wrappers
  import opened Algebra
  import opened Symbolic
  import opened Evaluation
  import opened Packed
  import opened QuotientCommon
  import QuotientEvaluator
  import Verifier

  /** A `RowMajorMatrix`: the values row after row, `width` per row. */
  datatype Matrix = Matrix(values: seq<Val>, width: nat)

  /** `mat_get_unchecked`: the unchecked read of `values[r * width + c]`; a
      read outside the buffer is undefined behaviour, so it is required away. */
  function MatGetUnchecked(m: Matrix, r: nat, c: nat): Val
    requires r * m.width + c < |m.values|
  {
    m.values[r * m.width + c]
  }

  /** On a matrix of `height` full rows, the flat index of `(r, c)` lands in
      row `r` at column `c`. */
  lemma MatGetInRow(m: Matrix, height: nat, r: nat, c: nat)
    requires |m.values| == height * m.width
    requires r < height && c < m.width
    ensures r * m.width + c < |m.values|
    ensures (r + 1) * m.width <= |m.values|
    ensures MatGetUnchecked(m, r, c) == m.values[r * m.width .. (r + 1) * m.width][c]
  {
    MulMonotone(r + 1, height, m.width);
  }

  /** The buffer holds the first `span` values of each of the first `rows` rows. */
  predicate Covers(m: Matrix, rows: nat, span: nat) {
    rows == 0 || (rows - 1) * m.width + span <= |m.values|
  }

  lemma CoversRead(m: Matrix, rows: nat, span: nat, r: nat, c: nat)
    requires Covers(m, rows, span) && r < rows && c < span
    ensures r * m.width + c < |m.values|
  {
    MulMonotone(r, rows - 1, m.width);
  }

  lemma ExtReadInRange(j: nat, i: nat, n: nat, d: nat)
    requires j < n && i < d
    ensures j * d + i < n * d
  {
    MulMonotone(j + 1, n, d);
  }

  function Widths(ms: seq<Matrix>): (r: seq<nat>)
    ensures |r| == |ms| && forall p :: 0 <= p < |ms| ==> r[p] == ms[p].width
  {
    seq(|ms|, p requires 0 <= p < |ms| => ms[p].width)
  }

  /** The arguments of `compute_single_rap_quotient_values`, with the
      selectors `selectors_on_coset` computes for the quotient domain, the
      extension degree `D`, its `from_base_slice`, and the packing `WIDTH`. */
  datatype Inputs<E> = Inputs(
    constraints: Dag,
    traceSize: nat,
    quotientSize: nat,
    preprocessed: Matrix,
    partitionedMain: seq<Matrix>,
    afterChallenge: seq<Matrix>,
    challenges: seq<seq<E>>,
    alpha: E,
    publicValues: seq<Val>,
    exposedValuesAfterChallenge: seq<seq<E>>,
    isFirstRow: seq<Val>,
    isLastRow: seq<Val>,
    isTransition: seq<Val>,
    invZeroifier: seq<Val>,
    extDegree: nat,
    fromBase: seq<Val> -> E,
    packingWidth: nat)

  /** What the callers provide: an ordered DAG, a positive extension degree
      and packing width, one selector value per quotient-domain point, and
      matrices whose unchecked reads on the quotient domain stay in their
      buffers (after-challenge rows are read in whole extension elements). */
  predicate ValidInputs<E>(inp: Inputs<E>) {
    var qs := inp.quotientSize;
    && WellFormed(inp.constraints)
    && inp.extDegree > 0 && inp.packingWidth > 0
    && |inp.isFirstRow| == qs && |inp.isLastRow| == qs
    && |inp.isTransition| == qs && |inp.invZeroifier| == qs
    && Covers(inp.preprocessed, qs, inp.preprocessed.width)
    && (forall p :: 0 <= p < |inp.partitionedMain| ==>
          Covers(inp.partitionedMain[p], qs, inp.partitionedMain[p].width))
    && (forall p :: 0 <= p < |inp.afterChallenge| ==>
          Covers(inp.afterChallenge[p], qs, ExtCols(inp.afterChallenge[p].width, inp.extDegree) * inp.extDegree))
  }

  /** The index checks of the scan; other entry kinds are not checked here. */
  predicate VarChecked(v: SymbolicVariable, preprocessedWidth: nat, mainWidths: seq<nat>,
                       afterChallengeWidths: seq<nat>, extDegree: nat)
    requires extDegree > 0
  {
    match v.entry
    case Preprocessed(_) => v.index < preprocessedWidth
    case Main(p, _) => p < |mainWidths| && v.index < mainWidths[p]
    case Permutation(_) => |afterChallengeWidths| > 0 && v.index < afterChallengeWidths[0] / extDegree
    case _ => true
  }

  predicate AllChecked(nodes: seq<Node>, preprocessedWidth: nat, mainWidths: seq<nat>,
                       afterChallengeWidths: seq<nat>, extDegree: nat)
    requires extDegree > 0
  {
    forall i :: 0 <= i < |nodes| && nodes[i].Variable? ==>
      VarChecked(nodes[i].v, preprocessedWidth, mainWidths, afterChallengeWidths, extDegree)
  }

  /** The scan over the nodes: it tracks the largest row offset in
      `rotation` and asserts the index bounds (a Main part index past the
      partitions panics when the vector is indexed, a Permutation without a
      challenge phase panics in `expect`). */
  method Scan(nodes: seq<Node>, preprocessedWidth: nat, mainWidths: seq<nat>,
              afterChallengeWidths: seq<nat>, extDegree: nat)
    returns (r: Result<nat>)
    requires extDegree > 0
    ensures r.Ok? <==> AllChecked(nodes, preprocessedWidth, mainWidths, afterChallengeWidths, extDegree)
    ensures r.Ok? ==> r.value == MaxOffset(nodes)
  {
    var rotation := 0;
    for i := 0 to |nodes|
      invariant rotation == MaxOffset(nodes[..i])
      invariant AllChecked(nodes[..i], preprocessedWidth, mainWidths, afterChallengeWidths, extDegree)
    {
      assert nodes[..i + 1][..i] == nodes[..i];
      match nodes[i] {
        case Variable(v) =>
          match v.entry {
            case Preprocessed(off) =>
              rotation := Max(rotation, off);
              if v.index >= preprocessedWidth {
                return Panic("assertion failed: var.index < preprocessed_width");
              }
            case Main(p, off) =>
              rotation := Max(rotation, off);
              if p >= |mainWidths| {
                return Panic("index out of bounds");
              }
              if v.index >= mainWidths[p] {
                return Panic("assertion failed: var.index < width");
              }
            case Permutation(off) =>
              rotation := Max(rotation, off);
              if |afterChallengeWidths| == 0 {
                return Panic("Challenge phase not supported");
              }
              if v.index >= afterChallengeWidths[0] / extDegree {
                return Panic("assertion failed: var.index < ext_width");
              }
            case _ =>
          }
        case _ =>
      }
      assert nodes[..i + 1][i] == nodes[i];
    }
    assert nodes[..|nodes|] == nodes;
    return Ok(rotation);
  }

  /** Row `row` of `m`, `width` columns. */
  function BaseRow(m: Matrix, rows: nat, row: nat): (r: seq<Val>)
    requires row < rows && Covers(m, rows, m.width)
    ensures |r| == m.width
  {
    seq(m.width, c requires 0 <= c < m.width =>
      CoversRead(m, rows, m.width, row, c); MatGetUnchecked(m, row, c))
  }

  /** Extension column `j` of row `row`: `from_base_fn` over the `D` base
      values starting at column `j * D`. */
  function ExtElem<E>(m: Matrix, rows: nat, row: nat, d: nat, fromBase: seq<Val> -> E, j: nat): E
    requires d > 0 && row < rows && j < ExtCols(m.width, d)
    requires Covers(m, rows, ExtCols(m.width, d) * d)
  {
    fromBase(seq(d, i requires 0 <= i < d => ExtCoeff(m, rows, row, d, j, i)))
  }

  function ExtCoeff(m: Matrix, rows: nat, row: nat, d: nat, j: nat, i: nat): Val
    requires d > 0 && row < rows && j < ExtCols(m.width, d) && i < d
    requires Covers(m, rows, ExtCols(m.width, d) * d)
  {
    ExtReadInRange(j, i, ExtCols(m.width, d), d);
    CoversRead(m, rows, ExtCols(m.width, d) * d, row, j * d + i);
    MatGetUnchecked(m, row, j * d + i)
  }

  function ExtRow<E>(m: Matrix, rows: nat, row: nat, d: nat, fromBase: seq<Val> -> E): (r: seq<E>)
    requires d > 0 && row < rows
    requires Covers(m, rows, ExtCols(m.width, d) * d)
    ensures |r| == ExtCols(m.width, d)
  {
    seq(ExtCols(m.width, d), j requires 0 <= j < ExtCols(m.width, d) => ExtElem(m, rows, row, d, fromBase, j))
  }

  /** The evaluator for one lane: views of the local row and, if needed, the
      next row of every matrix, the lane's selector values, and the
      challenges and public values as given. */
  function LaneEvaluator<E>(inp: Inputs<E>, needsNext: bool, local: nat, next: nat,
                            isFirstRow: Val, isLastRow: Val, isTransition: Val): (ev: ProverEvaluator<E>)
    requires ValidInputs(inp) && local < inp.quotientSize && next < inp.quotientSize
    ensures ViewShape(ev.preprocessed, inp.preprocessed.width, needsNext)
    ensures |ev.partitionedMain| == |inp.partitionedMain|
    ensures forall p :: 0 <= p < |inp.partitionedMain| ==>
      ViewShape(ev.partitionedMain[p], inp.partitionedMain[p].width, needsNext)
    ensures |ev.afterChallenge| == |inp.afterChallenge|
    ensures forall p :: 0 <= p < |inp.afterChallenge| ==>
      ViewShape(ev.afterChallenge[p], ExtCols(inp.afterChallenge[p].width, inp.extDegree), needsNext)
  {
    var qs, d := inp.quotientSize, inp.extDegree;
    var pre := inp.preprocessed;
    ProverEvaluator(
      ViewPair(BaseRow(pre, qs, local), if needsNext then Some(BaseRow(pre, qs, next)) else None),
      seq(|inp.partitionedMain|, p requires 0 <= p < |inp.partitionedMain| =>
        var m := inp.partitionedMain[p];
        ViewPair(BaseRow(m, qs, local), if needsNext then Some(BaseRow(m, qs, next)) else None)),
      seq(|inp.afterChallenge|, p requires 0 <= p < |inp.afterChallenge| =>
        var m := inp.afterChallenge[p];
        ViewPair(ExtRow(m, qs, local, d, inp.fromBase),
                 if needsNext then Some(ExtRow(m, qs, next, d, inp.fromBase)) else None)),
      inp.challenges,
      isFirstRow, isLastRow, isTransition,
      inp.publicValues,
      inp.exposedValuesAfterChallenge)
  }

  /** Once the scan has passed, the evaluator of any lane can make every read
      it takes on trust. */
  lemma ScanMakesReadable<E>(inp: Inputs<E>, ev: ProverEvaluator<E>)
    requires ValidInputs(inp)
    requires AllChecked(inp.constraints.nodes, inp.preprocessed.width, Widths(inp.partitionedMain),
                        Widths(inp.afterChallenge), inp.extDegree)
    requires var needsNext := MaxOffset(inp.constraints.nodes) > 0;
      && ViewShape(ev.preprocessed, inp.preprocessed.width, needsNext)
      && |ev.partitionedMain| == |inp.partitionedMain|
      && (forall p :: 0 <= p < |inp.partitionedMain| ==>
            ViewShape(ev.partitionedMain[p], inp.partitionedMain[p].width, needsNext))
      && |ev.afterChallenge| == |inp.afterChallenge|
      && (forall p :: 0 <= p < |inp.afterChallenge| ==>
            ViewShape(ev.afterChallenge[p], ExtCols(inp.afterChallenge[p].width, inp.extDegree), needsNext))
    ensures QuotientEvaluator.AllReadable(ev, inp.constraints.nodes)
  {
    var nodes := inp.constraints.nodes;
    MaxOffsetIsMax(nodes);
    forall i | 0 <= i < |nodes| && nodes[i].Variable?
      ensures QuotientEvaluator.Readable(ev, nodes[i].v)
    {
      var v := nodes[i].v;
      assert OffsetOf(nodes[i]) <= MaxOffset(nodes);
      if v.entry.Permutation? {
        ExtColsCoverCheckedIndices(inp.afterChallenge[0].width, inp.extDegree, v.index);
      }
    }
  }

  predicate ScanPasses<E>(inp: Inputs<E>)
    requires ValidInputs(inp)
  {
    AllChecked(inp.constraints.nodes, inp.preprocessed.width, Widths(inp.partitionedMain),
               Widths(inp.afterChallenge), inp.extDegree)
  }

  /** The evaluator for quotient-domain point `row`. */
  function Lane<E>(inp: Inputs<E>, row: nat): ProverEvaluator<E>
    requires ValidInputs(inp) && NextStep(inp.quotientSize, inp.traceSize).Ok?
    requires row < inp.quotientSize
  {
    var qs, ns := inp.quotientSize, NextStep(inp.quotientSize, inp.traceSize).value;
    LaneEvaluator(inp, MaxOffset(inp.constraints.nodes) > 0, LocalRow(row, 0, qs), NextRow(row, 0, ns, qs),
                  inp.isFirstRow[row], inp.isLastRow[row], inp.isTransition[row])
  }

  /** The node values at point `row`. */
  function LaneValues<E>(R: Ext<E>, inp: Inputs<E>, row: nat): Result<seq<PackedExpr<E>>>
    requires ValidInputs(inp) && NextStep(inp.quotientSize, inp.traceSize).Ok?
    requires row < inp.quotientSize
  {
    EvalArena(PackedOps(R), QuotientEvaluator.LeafFn(Lane(inp, row)), inp.constraints.nodes)
  }

  /** The quotient at point `row`: the constraints folded with the reversed
      powers of alpha, times the inverse of the vanishing polynomial. */
  function QuotientValue<E>(R: Ext<E>, inp: Inputs<E>, row: nat): E
    requires ValidInputs(inp) && NextStep(inp.quotientSize, inp.traceSize).Ok?
    requires row < inp.quotientSize && LaneValues(R, inp, row).Ok?
  {
    R.mul(QuotientEvaluator.AccumulateSpec(R, LaneValues(R, inp, row).value, inp.constraints.constraintIdx,
                                           ReversedPowers(R, inp.alpha, |inp.constraints.constraintIdx|)),
          R.embed(inp.invZeroifier[row]))
  }

  /** When the function returns instead of panicking. */
  predicate Succeeds<E>(R: Ext<E>, inp: Inputs<E>)
    requires ValidInputs(inp)
  {
    && NextStep(inp.quotientSize, inp.traceSize).Ok?
    && ScanPasses(inp)
    && BlocksFit(inp.quotientSize, inp.packingWidth)
    && forall j :: 0 <= j < inp.quotientSize ==> LaneValues(R, inp, j).Ok?
  }

  /** `compute_single_rap_quotient_values`: one quotient value per point of
      the quotient domain, in order.  It panics exactly when the sizes are not
      powers of two with the trace domain inside the quotient domain, when the
      scan finds an index out of range, when a block would slice the selectors
      past their end, or when evaluating some row panics. */
  method ComputeSingleRapQuotientValues<E>(R: Ext<E>, inp: Inputs<E>) returns (r: Result<seq<E>>)
    requires ValidInputs(inp)
    ensures r.Ok? <==> Succeeds(R, inp)
    ensures r.Ok? ==> |r.value| == inp.quotientSize
    ensures r.Ok? ==> forall j :: 0 <= j < inp.quotientSize ==> r.value[j] == QuotientValue(R, inp, j)
  {
    var qs, w := inp.quotientSize, inp.packingWidth;
    var ci := inp.constraints.constraintIdx;
    var step := NextStep(qs, inp.traceSize);
    if step.Panic? {
      return Panic(step.reason);
    }
    var nextStep := step.value;
    var alphaPowers := AlphaPowers(R, inp.alpha, |ci|);
    var sels := new Selectors(inp.isFirstRow, inp.isLastRow, inp.isTransition, inp.invZeroifier);
    sels.Pad(qs, w);
    PaddedSelector(inp.isFirstRow, qs, w);
    var scanned := Scan(inp.constraints.nodes, inp.preprocessed.width, Widths(inp.partitionedMain),
                        Widths(inp.afterChallenge), inp.extDegree);
    if scanned.Panic? {
      return Panic(scanned.reason);
    }
    var powers := alphaPowers[..];
    r := EvalBlocks(R, inp, powers, nextStep, sels.isFirstRow, sels.isLastRow, sels.isTransition, sels.invZeroifier);
  }

  /** The walk over the quotient domain in blocks of `WIDTH` rows, on the
      padded selectors.  It panics exactly when a block would slice the
      selectors past their end or when evaluating some row panics. */
  method EvalBlocks<E>(R: Ext<E>, inp: Inputs<E>, powers: seq<E>, nextStep: nat,
                       firstRows: seq<Val>, lastRows: seq<Val>, transitions: seq<Val>, invZeroifier: seq<Val>)
    returns (r: Result<seq<E>>)
    requires ValidInputs(inp) && NextStep(inp.quotientSize, inp.traceSize) == Ok(nextStep)
    requires ScanPasses(inp)
    requires powers == ReversedPowers(R, inp.alpha, |inp.constraints.constraintIdx|)
    requires inp.isFirstRow <= firstRows && inp.isLastRow <= lastRows
    requires inp.isTransition <= transitions && inp.invZeroifier <= invZeroifier
    requires |firstRows| == Max(inp.quotientSize, inp.packingWidth)
    ensures r.Ok? <==>
      BlocksFit(inp.quotientSize, inp.packingWidth) &&
      forall j :: 0 <= j < inp.quotientSize ==> LaneValues(R, inp, j).Ok?
    ensures r.Ok? ==> |r.value| == inp.quotientSize
    ensures r.Ok? ==> forall j :: 0 <= j < inp.quotientSize ==> r.value[j] == QuotientValue(R, inp, j)
  {
    var qs, w := inp.quotientSize, inp.packingWidth;
    var out: seq<E> := [];
    var iStart := 0;
    while iStart < qs
      invariant BlockAligned(iStart, w)
      invariant qs <= w ==> iStart == 0 || iStart >= qs
      invariant iStart <= Max(qs, w)
      invariant |out| == Min(iStart, qs)
      invariant LanesDone(R, inp, 0, out)
      decreases qs - iStart
    {
      if iStart + w > |firstRows| {
        Straddle(iStart, qs, w);
        return Panic("range end index out of range for slice");
      }
      var block := EvalBlock(R, inp, powers, nextStep, iStart, Min(w, qs),
                             firstRows, lastRows, transitions, invZeroifier);
      if block.Panic? {
        return Panic(block.reason);
      }
      LanesDoneAppend(R, inp, out, block.value);
      out := out + block.value;
      iStart := iStart + w;
    }
    if qs > w {
      AlignedEndFits(qs, w);
    }
    return Ok(out);
  }

  /** One block: the lanes `iStart + k`, `k < count`, each evaluated on its
      own view of the matrices and selectors and divided by the vanishing
      polynomial.  It panics exactly when some lane's evaluation panics. */
  method EvalBlock<E>(R: Ext<E>, inp: Inputs<E>, alphaPowers: seq<E>, nextStep: nat, iStart: nat, count: nat,
                      isFirstRow: seq<Val>, isLastRow: seq<Val>, isTransition: seq<Val>, invZeroifier: seq<Val>)
    returns (r: Result<seq<E>>)
    requires ValidInputs(inp) && NextStep(inp.quotientSize, inp.traceSize) == Ok(nextStep)
    requires ScanPasses(inp)
    requires alphaPowers == ReversedPowers(R, inp.alpha, |inp.constraints.constraintIdx|)
    requires iStart + count <= inp.quotientSize
    requires inp.isFirstRow <= isFirstRow && inp.isLastRow <= isLastRow
    requires inp.isTransition <= isTransition && inp.invZeroifier <= invZeroifier
    ensures r.Ok? <==> forall row :: iStart <= row < iStart + count ==> LaneValues(R, inp, row).Ok?
    ensures r.Ok? ==> |r.value| == count && LanesDone(R, inp, iStart, r.value)
  {
    var out: seq<E> := [];
    for k := 0 to count
      invariant |out| == k
      invariant LanesDone(R, inp, iStart, out)
    {
      var v := EvalLane(R, inp, alphaPowers, nextStep, iStart, k, isFirstRow, isLastRow, isTransition, invZeroifier);
      if v.Panic? {
        return Panic(v.reason);
      }
      ghost var prev := out;
      out := out + [v.value];
      forall row | iStart <= row < iStart + |out|
        ensures LaneValues(R, inp, row).Ok? && out[row - iStart] == QuotientValue(R, inp, row)
      {
        if row < iStart + k {
          assert out[row - iStart] == prev[row - iStart];
        }
      }
    }
    return Ok(out);
  }

  /** The lanes `iStart .. iStart + |out|` evaluate without panicking and
      `out` holds their quotient values, in order. */
  ghost predicate LanesDone<E>(R: Ext<E>, inp: Inputs<E>, iStart: nat, out: seq<E>)
    requires ValidInputs(inp) && NextStep(inp.quotientSize, inp.traceSize).Ok?
    requires iStart + |out| <= inp.quotientSize
  {
    forall row :: iStart <= row < iStart + |out| ==>
      LaneValues(R, inp, row).Ok? && out[row - iStart] == QuotientValue(R, inp, row)
  }

  lemma LanesDoneAppend<E>(R: Ext<E>, inp: Inputs<E>, out: seq<E>, block: seq<E>)
    requires ValidInputs(inp) && NextStep(inp.quotientSize, inp.traceSize).Ok?
    requires |out| + |block| <= inp.quotientSize
    requires LanesDone(R, inp, 0, out) && LanesDone(R, inp, |out|, block)
    ensures LanesDone(R, inp, 0, out + block)
  {
    var all := out + block;
    forall row | |out| <= row < |all|
      ensures all[row] == block[row - |out|]
    {
    }
  }

  /** One lane `iStart + k` of a block: its evaluation on its own view of
      the matrices and selectors, divided by the vanishing polynomial. */
  method EvalLane<E>(R: Ext<E>, inp: Inputs<E>, alphaPowers: seq<E>, nextStep: nat, iStart: nat, k: nat,
                     isFirstRow: seq<Val>, isLastRow: seq<Val>, isTransition: seq<Val>, invZeroifier: seq<Val>)
    returns (r: Result<E>)
    requires ValidInputs(inp) && NextStep(inp.quotientSize, inp.traceSize) == Ok(nextStep)
    requires ScanPasses(inp)
    requires alphaPowers == ReversedPowers(R, inp.alpha, |inp.constraints.constraintIdx|)
    requires iStart + k < inp.quotientSize
    requires inp.isFirstRow <= isFirstRow && inp.isLastRow <= isLastRow
    requires inp.isTransition <= isTransition && inp.invZeroifier <= invZeroifier
    ensures r.Ok? <==> LaneValues(R, inp, iStart + k).Ok?
    ensures r.Ok? ==> r.value == QuotientValue(R, inp, iStart + k)
  {
    var qs := inp.quotientSize;
    var needsNext := MaxOffset(inp.constraints.nodes) > 0;
    var row := iStart + k;
    assert isFirstRow[row] == inp.isFirstRow[row] && isLastRow[row] == inp.isLastRow[row];
    assert isTransition[row] == inp.isTransition[row] && invZeroifier[row] == inp.invZeroifier[row];
    var ev := LaneEvaluator(inp, needsNext, LocalRow(iStart, k, qs), NextRow(iStart, k, nextStep, qs),
                            isFirstRow[row], isLastRow[row], isTransition[row]);
    assert ev == Lane(inp, row);
    ScanMakesReadable(inp, ev);
    var acc := QuotientEvaluator.Accumulate(R, ev, inp.constraints, alphaPowers);
    if acc.Panic? {
      assert !LaneValues(R, inp, row).Ok?;
      return Panic(acc.reason);
    }
    assert LaneValues(R, inp, row) == Ok(EvalArena(PackedOps(R), QuotientEvaluator.LeafFn(ev), inp.constraints.nodes).value);
    return Ok(R.mul(acc.value, R.embed(invZeroifier[row])));
  }

  /** The quotient at each point is the verifier's folded accumulator times
      the inverse vanishing polynomial: for a folder that sees the same row
      (promoted to the extension) and the same alpha, the prover's reversed
      powers and the folder's `acc * alpha + c` agree. */
  lemma QuotientIsVerifierFold<E(!new)>(R: Ext<E>, inp: Inputs<E>, row: nat,
                                        f: Verifier.GenericVerifierConstraintFolder<E>)
    requires IsExtension(R) && ValidInputs(inp) && NextStep(inp.quotientSize, inp.traceSize).Ok?
    requires row < inp.quotientSize && LaneValues(R, inp, row).Ok?
    requires f.R == R && f.alpha == inp.alpha
    requires Verifier.Mirrors(Lane(inp, row), f, inp.constraints.nodes)
    ensures EvalArena(ExtOps(R), f.LeafFn(), inp.constraints.nodes).Ok?
    ensures QuotientValue(R, inp, row) ==
      R.mul(Horner(R, inp.alpha, R.zero,
                   RootValues(EvalArena(ExtOps(R), f.LeafFn(), inp.constraints.nodes).value,
                              inp.constraints.constraintIdx)),
            R.embed(inp.invZeroifier[row]))
  {
    Verifier.QuotientAgreesWithVerifier(Lane(inp, row), f, inp.constraints);
  }
}
