/** `compute_single_rap_quotient_values` of the CPU prover
    (prover/cpu/quotient/single.rs).

    Its bookkeeping matches the generic version's, with more checks: the
    partitioned-main and after-challenge matrices must have at least
    `quotient_size` rows, the preprocessed matrix is optional, and the scan
    also bounds the public-value, challenge and exposed-value indices.  Those
    checks are exactly what the CPU evaluator's unchecked reads rely on
    (`ScanMakesReadable`).  The per-row constraint value is a parameter,
    `accumulate(row, alpha_powers)`: the evaluator this function calls takes
    a different argument list than the one shown, so the two are not composed. */
module CpuQuotientSingle {
  import opened Wrappers
  import opened Algebra
  import opened Symbolic
  import opened Packed
  import opened QuotientCommon
  import CpuEvaluator

  /** The dimensions of an LDE matrix. */
  datatype Shape = Shape(width: nat, height: nat)

  /** The arguments of the function, with the selectors `selectors_on_coset`
      computes, the extension degree `D`, the packing `WIDTH`, and the value
      the evaluator produces for a row and a list of alpha powers. */
  datatype Inputs<!E> = Inputs(
    constraints: Dag,
    traceSize: nat,
    quotientSize: nat,
    preprocessed: Option<Shape>,
    partitionedMain: seq<Shape>,
    afterChallenge: seq<Shape>,
    challenges: seq<seq<E>>,
    alpha: E,
    publicValues: seq<Val>,
    exposedValuesAfterChallenge: seq<seq<E>>,
    isFirstRow: seq<Val>,
    isLastRow: seq<Val>,
    isTransition: seq<Val>,
    invZeroifier: seq<Val>,
    extDegree: nat,
    packingWidth: nat,
    accumulate: (nat, seq<E>) -> E)

  predicate ValidInputs<E>(inp: Inputs<E>) {
    && inp.extDegree > 0 && inp.packingWidth > 0
    && |inp.isFirstRow| == inp.quotientSize && |inp.isLastRow| == inp.quotientSize
    && |inp.isTransition| == inp.quotientSize && |inp.invZeroifier| == inp.quotientSize
  }

  /** The opening assertions: every partitioned-main and after-challenge
      matrix has a row for each quotient-domain point. */
  predicate HeightsSuffice<E>(inp: Inputs<E>) {
    && (forall p :: 0 <= p < |inp.partitionedMain| ==> inp.partitionedMain[p].height >= inp.quotientSize)
    && (forall p :: 0 <= p < |inp.afterChallenge| ==> inp.afterChallenge[p].height >= inp.quotientSize)
  }

  /** Every block reads each preprocessed column at its wrapped rows through
      the checked `get`, whether or not a constraint uses it; over the whole
      domain those rows are all of `0..quotient_size`, so a preprocessed
      matrix with a column but fewer rows fails a read. */
  predicate PreprocessedRowsSuffice<E>(inp: Inputs<E>) {
    inp.preprocessed.Some? && inp.preprocessed.value.width > 0 ==>
      inp.preprocessed.value.height >= inp.quotientSize
  }

  /** `preprocessed_width`: 0 without a preprocessed matrix. */
  function PreprocessedWidth<E>(inp: Inputs<E>): nat {
    if inp.preprocessed.Some? then inp.preprocessed.value.width else 0
  }

  /** What the scan asserts about one variable. */
  predicate VarChecked<E>(inp: Inputs<E>, v: SymbolicVariable)
    requires inp.extDegree > 0
  {
    match v.entry
    case Preprocessed(_) =>
      v.index < PreprocessedWidth(inp) && inp.preprocessed.value.height >= inp.quotientSize
    case Main(p, _) => p < |inp.partitionedMain| && v.index < inp.partitionedMain[p].width
    case Public => v.index < |inp.publicValues|
    case Permutation(_) => |inp.afterChallenge| > 0 && v.index < inp.afterChallenge[0].width / inp.extDegree
    case Challenge => |inp.challenges| > 0 && v.index < |inp.challenges[0]|
    case Exposed => |inp.exposedValuesAfterChallenge| > 0 && v.index < |inp.exposedValuesAfterChallenge[0]|
  }

  predicate ScanPasses<E>(inp: Inputs<E>)
    requires inp.extDegree > 0
  {
    forall i :: 0 <= i < |inp.constraints.nodes| && inp.constraints.nodes[i].Variable? ==>
      VarChecked(inp, inp.constraints.nodes[i].v)
  }

  /** The scan: `rotation` is the largest row offset, and every variable
      index is checked against the matrix, list or phase it reads. */
  method Scan<E>(inp: Inputs<E>) returns (r: Result<nat>)
    requires inp.extDegree > 0
    ensures r.Ok? <==> ScanPasses(inp)
    ensures r.Ok? ==> r.value == MaxOffset(inp.constraints.nodes)
  {
    var nodes := inp.constraints.nodes;
    var rotation := 0;
    for i := 0 to |nodes|
      invariant rotation == MaxOffset(nodes[..i])
      invariant forall k :: 0 <= k < i && nodes[k].Variable? ==> VarChecked(inp, nodes[k].v)
    {
      assert nodes[..i + 1][..i] == nodes[..i];
      if nodes[i].Variable? {
        var checked := CheckVar(inp, nodes[i].v);
        if checked.Panic? {
          return Panic(checked.reason);
        }
      }
      rotation := Max(rotation, OffsetOf(nodes[i]));
      assert nodes[..i + 1][i] == nodes[i];
    }
    assert nodes[..|nodes|] == nodes;
    return Ok(rotation);
  }

  /** The index checks of the scan on one variable. */
  method CheckVar<E>(inp: Inputs<E>, v: SymbolicVariable) returns (r: Result<()>)
    requires inp.extDegree > 0
    ensures r.Ok? <==> VarChecked(inp, v)
  {
    match v.entry {
      case Preprocessed(off) =>
        if v.index >= PreprocessedWidth(inp) {
          return Panic("assertion failed: var.index < preprocessed_width");
        }
        if inp.preprocessed.value.height < inp.quotientSize {
          return Panic("assertion failed: preprocessed height >= quotient_size");
        }
      case Main(p, off) =>
        if p >= |inp.partitionedMain| {
          return Panic("index out of bounds");
        }
        if v.index >= inp.partitionedMain[p].width {
          return Panic("assertion failed: var.index < width");
        }
      case Public =>
        if v.index >= |inp.publicValues| {
          return Panic("assertion failed: var.index < public_values.len()");
        }
      case Permutation(off) =>
        if |inp.afterChallenge| == 0 {
          return Panic("Challenge phase not supported");
        }
        if v.index >= inp.afterChallenge[0].width / inp.extDegree {
          return Panic("assertion failed: var.index < ext_width");
        }
      case Challenge =>
        if |inp.challenges| == 0 {
          return Panic("Challenge phase not supported");
        }
        if v.index >= |inp.challenges[0]| {
          return Panic("assertion failed: var.index < challenges.len()");
        }
      case Exposed =>
        if |inp.exposedValuesAfterChallenge| == 0 {
          return Panic("Challenge phase not supported");
        }
        if v.index >= |inp.exposedValuesAfterChallenge[0]| {
          return Panic("assertion failed: var.index < exposed_values.len()");
        }
    }
    return Ok(());
  }

  /** The scan vouches for every read the CPU evaluator makes unchecked: an
      evaluator whose views have the matrices' widths (extension columns for
      the after-challenge matrices), with the next row present whenever
      `needs_next`, and which sees the same public values, challenges and
      exposed values, can read every variable of the DAG. */
  lemma ScanMakesReadable<E>(inp: Inputs<E>, ev: ProverEvaluator<E>)
    requires inp.extDegree > 0 && ScanPasses(inp)
    requires var needsNext := MaxOffset(inp.constraints.nodes) > 0;
      && ViewShape(ev.preprocessed, PreprocessedWidth(inp), needsNext)
      && |ev.partitionedMain| == |inp.partitionedMain|
      && (forall p :: 0 <= p < |inp.partitionedMain| ==>
            ViewShape(ev.partitionedMain[p], inp.partitionedMain[p].width, needsNext))
      && |ev.afterChallenge| == |inp.afterChallenge|
      && (forall p :: 0 <= p < |inp.afterChallenge| ==>
            ViewShape(ev.afterChallenge[p], ExtCols(inp.afterChallenge[p].width, inp.extDegree), needsNext))
    requires ev.publicValues == inp.publicValues && ev.challenges == inp.challenges
    requires ev.exposedValuesAfterChallenge == inp.exposedValuesAfterChallenge
    ensures CpuEvaluator.AllReadable(ev, inp.constraints.nodes)
  {
    var nodes := inp.constraints.nodes;
    MaxOffsetIsMax(nodes);
    forall i | 0 <= i < |nodes| && nodes[i].Variable?
      ensures CpuEvaluator.Readable(ev, nodes[i].v)
    {
      var v := nodes[i].v;
      assert OffsetOf(nodes[i]) <= MaxOffset(nodes);
      if v.entry.Permutation? {
        ExtColsCoverCheckedIndices(inp.afterChallenge[0].width, inp.extDegree, v.index);
      }
    }
  }

  /** The quotient at point `row`: the evaluator's value with the decreasing
      alpha powers, times the inverse of the vanishing polynomial. */
  function QuotientValue<E>(R: Ext<E>, inp: Inputs<E>, row: nat): E
    requires ValidInputs(inp) && row < inp.quotientSize
  {
    R.mul(inp.accumulate(row, ReversedPowers(R, inp.alpha, |inp.constraints.constraintIdx|)),
          R.embed(inp.invZeroifier[row]))
  }

  predicate Succeeds<E>(inp: Inputs<E>)
    requires ValidInputs(inp)
  {
    && HeightsSuffice(inp)
    && NextStep(inp.quotientSize, inp.traceSize).Ok?
    && ScanPasses(inp)
    && PreprocessedRowsSuffice(inp)
    && BlocksFit(inp.quotientSize, inp.packingWidth)
  }

  /** `compute_single_rap_quotient_values`: it panics exactly when a matrix
      is too short, the domain sizes are not powers of two with the trace
      domain inside the quotient domain, the scan rejects an index, a
      preprocessed column has fewer rows than the quotient domain, or a
      block would slice the selectors past their end; otherwise it returns
      one quotient value per quotient-domain point, in order. */
  method ComputeSingleRapQuotientValues<E>(R: Ext<E>, inp: Inputs<E>) returns (r: Result<seq<E>>)
    requires ValidInputs(inp)
    ensures r.Ok? <==> Succeeds(inp)
    ensures r.Ok? ==> |r.value| == inp.quotientSize
    ensures r.Ok? ==> forall j :: 0 <= j < inp.quotientSize ==> r.value[j] == QuotientValue(R, inp, j)
  {
    var qs, w := inp.quotientSize, inp.packingWidth;
    var heights := CheckHeights(inp);
    if heights.Panic? {
      return Panic(heights.reason);
    }
    var step := NextStep(qs, inp.traceSize);
    if step.Panic? {
      return Panic(step.reason);
    }
    var alphaPowers := AlphaPowers(R, inp.alpha, |inp.constraints.constraintIdx|);
    var powers := alphaPowers[..];
    var sels := new Selectors(inp.isFirstRow, inp.isLastRow, inp.isTransition, inp.invZeroifier);
    sels.Pad(qs, w);
    PaddedSelector(inp.isFirstRow, qs, w);
    var scanned := Scan(inp);
    if scanned.Panic? {
      return Panic(scanned.reason);
    }
    if inp.preprocessed.Some? && inp.preprocessed.value.width > 0 && inp.preprocessed.value.height < qs {
      return Panic("index out of bounds: preprocessed_trace_on_quotient_domain.get(wrapped_idx[offset], col)");
    }
    r := EvalBlocks(R, inp, powers, sels.invZeroifier, |sels.isFirstRow|);
  }

  /** The walk over the quotient domain in blocks of `WIDTH` rows, on the
      padded inverse vanishing polynomial: it panics exactly when a block
      would slice the selectors (all `padded` long) past their end. */
  method EvalBlocks<E>(R: Ext<E>, inp: Inputs<E>, powers: seq<E>, invZeroifier: seq<Val>, padded: nat)
    returns (r: Result<seq<E>>)
    requires ValidInputs(inp)
    requires powers == ReversedPowers(R, inp.alpha, |inp.constraints.constraintIdx|)
    requires inp.invZeroifier <= invZeroifier
    requires padded == Max(inp.quotientSize, inp.packingWidth)
    ensures r.Ok? <==> BlocksFit(inp.quotientSize, inp.packingWidth)
    ensures r.Ok? ==> |r.value| == inp.quotientSize
    ensures r.Ok? ==> forall j :: 0 <= j < inp.quotientSize ==> r.value[j] == QuotientValue(R, inp, j)
  {
    var qs, w := inp.quotientSize, inp.packingWidth;
    var out: seq<E> := [];
    var iStart := 0;
    while iStart < qs
      invariant BlockAligned(iStart, w)
      invariant qs <= w ==> iStart == 0 || iStart >= qs
      invariant iStart <= Max(qs, w)
      invariant |out| == Min(iStart, qs)
      invariant forall j :: 0 <= j < |out| ==> out[j] == QuotientValue(R, inp, j)
      decreases qs - iStart
    {
      if iStart + w > padded {
        Straddle(iStart, qs, w);
        return Panic("range end index out of range for slice");
      }
      var block := EvalBlock(R, inp, powers, iStart, Min(w, qs), invZeroifier);
      out := out + block;
      assert forall j :: iStart <= j < iStart + Min(w, qs) ==> out[j] == block[j - iStart];
      iStart := iStart + w;
    }
    if qs > w {
      AlignedEndFits(qs, w);
    }
    return Ok(out);
  }

  /** The opening assertions on the heights, matrix by matrix. */
  method CheckHeights<E>(inp: Inputs<E>) returns (r: Result<()>)
    ensures r.Ok? <==> HeightsSuffice(inp)
  {
    var qs := inp.quotientSize;
    for p := 0 to |inp.partitionedMain|
      invariant forall p' :: 0 <= p' < p ==> inp.partitionedMain[p'].height >= qs
    {
      if inp.partitionedMain[p].height < qs {
        return Panic("assertion failed: partitioned main height >= quotient_size");
      }
    }
    for p := 0 to |inp.afterChallenge|
      invariant forall p' :: 0 <= p' < p ==> inp.afterChallenge[p'].height >= qs
    {
      if inp.afterChallenge[p].height < qs {
        return Panic("assertion failed: after-challenge height >= quotient_size");
      }
    }
    return Ok(());
  }

  /** One block: lanes `iStart + k`, `k < count`, each the evaluator's
      value times the (padded) inverse vanishing polynomial. */
  method EvalBlock<E>(R: Ext<E>, inp: Inputs<E>, alphaPowers: seq<E>, iStart: nat, count: nat,
                      invZeroifier: seq<Val>)
    returns (out: seq<E>)
    requires ValidInputs(inp)
    requires alphaPowers == ReversedPowers(R, inp.alpha, |inp.constraints.constraintIdx|)
    requires iStart + count <= inp.quotientSize
    requires inp.invZeroifier <= invZeroifier
    ensures |out| == count
    ensures forall row :: iStart <= row < iStart + count ==> out[row - iStart] == QuotientValue(R, inp, row)
  {
    out := [];
    for k := 0 to count
      invariant |out| == k
      invariant forall row :: iStart <= row < iStart + k ==> out[row - iStart] == QuotientValue(R, inp, row)
    {
      var row := iStart + k;
      assert invZeroifier[row] == inp.invZeroifier[row];
      out := out + [R.mul(inp.accumulate(row, alphaPowers), R.embed(invZeroifier[row]))];
    }
  }
}
