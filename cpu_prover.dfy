/** The CPU prover device (prover/cpu/mod.rs): committing traces, the
    bookkeeping of `partially_prove` after the RAP phases, the views handed
    to the quotient computation, and moving a proving key to the device.

    The polynomial commitment scheme, the challenger and the RAP phase
    prover are outside the model: their results are parameters.  A trace is
    represented by its height, a committed matrix by where it lives
    (`MatrixRef`), and a domain by its size. */
module CpuProver {
  import opened Wrappers
  import opened QuotientCommon
  import KeyView

  const U8Limit: nat := 256

  /** `PcsData`: the prover data of one commitment and the log2 heights of
      its matrices, in commitment order. */
  datatype PcsData<D> = PcsData(data: D, logTraceHeights: seq<nat>)

  // ---------------------------------------------------------------------
  // commit
  // ---------------------------------------------------------------------

  /** `log2_strict_usize(height).try_into::<u8>().unwrap()`: panics unless
      the height is a power of two whose exponent fits in a byte. */
  function LogHeightU8(height: nat): (r: Result<nat>)
    ensures r.Ok? <==> Log2Strict(height).Ok? && Log2Strict(height).value < U8Limit
    ensures r.Ok? ==> Pow2(r.value) == height && r.value < U8Limit
  {
    var log :- Log2Strict(height);
    if log < U8Limit then Ok(log) else Panic("called `Result::unwrap()` on an `Err` value: TryFromIntError")
  }

  /** `commit`: the log heights of the traces, in order, alongside what the
      commitment scheme returns for them (passed in). */
  function CommitTraces<C, D>(heights: seq<nat>, commitment: C, data: D): (r: Result<(C, PcsData<D>)>)
    ensures r.Ok? <==> forall i :: 0 <= i < |heights| ==> LogHeightU8(heights[i]).Ok?
    ensures r.Ok? ==> r.value.0 == commitment && r.value.1.data == data
    ensures r.Ok? ==> |r.value.1.logTraceHeights| == |heights|
    ensures r.Ok? ==> forall i :: 0 <= i < |heights| ==>
      Pow2(r.value.1.logTraceHeights[i]) == heights[i] && r.value.1.logTraceHeights[i] < U8Limit
  {
    if forall i :: 0 <= i < |heights| ==> LogHeightU8(heights[i]).Ok? then
      Ok((commitment, PcsData(data, seq(|heights|, i requires 0 <= i < |heights| => LogHeightU8(heights[i]).value))))
    else
      Panic("Not a power of two")
  }

  // ---------------------------------------------------------------------
  // partially_prove
  // ---------------------------------------------------------------------

  /** `RapSinglePhaseView`: the matrix of one AIR in one challenge phase
      (if it has one), the phase's challenges and the AIR's exposed values. */
  datatype RapSinglePhaseView<M, E> = RapSinglePhaseView(inner: Option<M>, challenges: seq<E>, exposedValues: seq<E>)

  /** The default view: no matrix, no challenges, no exposed values. */
  function DefaultView<M, E>(): RapSinglePhaseView<M, E> {
    RapSinglePhaseView(None, [], [])
  }

  /** What the RAP phase prover returns after its single phase: the
      challenges it drew, and per AIR the height of its permutation trace
      and its exposed values, when it has them. */
  datatype PhaseData<E> = PhaseData(
    challenges: seq<E>,
    afterChallengeTracePerAir: seq<Option<nat>>,
    exposedValuesPerAir: seq<Option<seq<E>>>)

  /** `ProverDataAfterRapPhases`: one commitment per phase that has
      permutation traces, and per phase the view of every AIR, whose `inner`
      is the matrix index within that commitment. */
  datatype ProverDataAfterRapPhases<C, D, E> = ProverDataAfterRapPhases(
    committedPcsDataPerPhase: seq<(C, PcsData<D>)>,
    rapViewsPerPhase: seq<seq<RapSinglePhaseView<nat, E>>>)

  /** The running index of entry `i`: the number of present entries before
      it, when it is present itself.  `partially_prove` numbers the
      permutation traces this way, and `eval_and_commit_quotient` the common
      main traces. */
  function RunningIndex<T>(xs: seq<Option<T>>, i: nat): Option<nat>
    requires i < |xs|
  {
    if xs[i].Some? then Some(KeyView.CountSome(xs[..i])) else None
  }

  /** The running indices of all entries. */
  function RunningIndices<T>(xs: seq<Option<T>>): (r: seq<Option<nat>>)
    ensures |r| == |xs|
  {
    seq(|xs|, i requires 0 <= i < |xs| => RunningIndex(xs, i))
  }

  /** The permutation-phase view of AIR `i`: missing exposed values become
      the empty list. */
  function PermView<E>(pd: PhaseData<E>, i: nat): RapSinglePhaseView<nat, E>
    requires i < |pd.afterChallengeTracePerAir| && i < |pd.exposedValuesPerAir|
  {
    RapSinglePhaseView(RunningIndex(pd.afterChallengeTracePerAir, i), pd.challenges, pd.exposedValuesPerAir[i].UnwrapOr([]))
  }

  /** `partially_prove` after the RAP phase prover has run: checks the
      number of trace views and the phase shape, numbers the permutation
      traces, and commits to them when there is at least one.  `phaseData`
      is the phase prover's result; `commitment` and `data` are what the
      commitment scheme returns for the permutation traces. */
  method PartiallyProve<C, D, E, K>(
    numAirs: nat, numTraceViews: nat, view: seq<KeyView.StarkVerifyingKey<K>>,
    phaseData: Option<PhaseData<E>>, commitment: C, data: D)
    returns (r: Result<ProverDataAfterRapPhases<C, D, E>>)
    ensures numAirs != numTraceViews ==> r.Panic?
    ensures phaseData.None? ==>
      (r.Ok? <==> numAirs == numTraceViews && KeyView.NumPhases(view) == Ok(0))
    ensures phaseData.None? && r.Ok? ==> r.value == ProverDataAfterRapPhases([], [])
    ensures phaseData.Some? ==>
      (r.Ok? <==>
        && numAirs == numTraceViews
        && KeyView.NumPhases(view) == Ok(1)
        && KeyView.NumChallengesInPhase(view, 0) == Ok(|phaseData.value.challenges|)
        && |phaseData.value.afterChallengeTracePerAir| == |phaseData.value.exposedValuesPerAir|
        && forall i :: 0 <= i < |phaseData.value.afterChallengeTracePerAir| ==>
             phaseData.value.afterChallengeTracePerAir[i].Some? ==>
               LogHeightU8(phaseData.value.afterChallengeTracePerAir[i].value).Ok?)
    ensures phaseData.Some? && r.Ok? ==>
      var pd := phaseData.value;
      && |r.value.rapViewsPerPhase| == 1
      && |r.value.rapViewsPerPhase[0]| == |pd.afterChallengeTracePerAir|
      && (forall i :: 0 <= i < |pd.afterChallengeTracePerAir| ==> r.value.rapViewsPerPhase[0][i] == PermView(pd, i))
      && (|r.value.committedPcsDataPerPhase| == 1 <==> KeyView.CountSome(pd.afterChallengeTracePerAir) > 0)
      && (|r.value.committedPcsDataPerPhase| <= 1)
      && (|r.value.committedPcsDataPerPhase| == 1 ==>
            r.value.committedPcsDataPerPhase[0] == CommitTraces(KeyView.Somes(pd.afterChallengeTracePerAir), commitment, data).value)
  {
    if numAirs != numTraceViews {
      return Panic("assertion `left == right` failed: num_airs == trace_views.len()");
    }
    var numPhases := KeyView.NumPhases(view);
    if numPhases.Panic? {
      return Panic(numPhases.reason);
    }
    var permTracePerAir: seq<Option<nat>>;
    var rapViewsPerPhase: seq<seq<RapSinglePhaseView<nat, E>>>;
    if phaseData.Some? {
      var pd := phaseData.value;
      if numPhases.value != 1 {
        return Panic("assertion `left == right` failed: num_phases() == 1");
      }
      var shape := CheckPhaseShape(view, pd);
      if shape.Panic? {
        return Panic(shape.reason);
      }
      var permViews := NumberPermTraces(pd);
      rapViewsPerPhase := [permViews];
      permTracePerAir := pd.afterChallengeTracePerAir;
    } else {
      if numPhases.value != 0 {
        return Panic("assertion `left == right` failed: num_phases() == 0");
      }
      rapViewsPerPhase := [];
      permTracePerAir := seq(numAirs, i => None);
      NoSomes(permTracePerAir);
      KeyView.SomesAppend(permTracePerAir, []);
    }
    var committed := CommitPermTraces(permTracePerAir, commitment, data);
    if committed.Panic? {
      return Panic(committed.reason);
    }
    return Ok(ProverDataAfterRapPhases(committed.value, rapViewsPerPhase));
  }

  /** The assertions of `partially_prove` on the single phase: the key's
      challenge count for phase 0 is the number of challenges drawn, and
      every AIR has its exposed values next to its permutation trace. */
  method CheckPhaseShape<E, K>(view: seq<KeyView.StarkVerifyingKey<K>>, pd: PhaseData<E>) returns (r: Result<()>)
    requires KeyView.NumPhases(view) == Ok(1)
    ensures r.Ok? <==>
      KeyView.NumChallengesInPhase(view, 0) == Ok(|pd.challenges|) &&
      |pd.afterChallengeTracePerAir| == |pd.exposedValuesPerAir|
  {
    KeyView.PhasesBelowNumPhasesUsed(view);
    var numChallenges := KeyView.NumChallengesInPhase(view, 0).value;
    if numChallenges != |pd.challenges| {
      return Panic("assertion `left == right` failed: num_challenges_in_phase(0) == challenges.len()");
    }
    if |pd.afterChallengeTracePerAir| != |pd.exposedValuesPerAir| {
      return Panic("itertools: .zip_eq() reached end of one iterator before the other");
    }
    return Ok(());
  }

  /** The loop of `partially_prove` over the permutation traces: each AIR's
      view of the phase, its matrix numbered by the running index. */
  method NumberPermTraces<E>(pd: PhaseData<E>) returns (permViews: seq<RapSinglePhaseView<nat, E>>)
    requires |pd.afterChallengeTracePerAir| == |pd.exposedValuesPerAir|
    ensures |permViews| == |pd.afterChallengeTracePerAir|
    ensures forall k :: 0 <= k < |permViews| ==> permViews[k] == PermView(pd, k)
  {
    var traces := pd.afterChallengeTracePerAir;
    var permMatrixIdx := 0;
    permViews := [];
    for i := 0 to |traces|
      invariant permMatrixIdx == KeyView.CountSome(traces[..i])
      invariant |permViews| == i
      invariant forall k :: 0 <= k < i ==> permViews[k] == PermView(pd, k)
    {
      CountSomeSnoc(traces, i);
      var matrixIdx: Option<nat> := None;
      if traces[i].Some? {
        matrixIdx := Some(permMatrixIdx);
        permMatrixIdx := permMatrixIdx + 1;
      }
      permViews := permViews + [RapSinglePhaseView(matrixIdx, pd.challenges, pd.exposedValuesPerAir[i].UnwrapOr([]))];
    }
  }

  /** The commitment step of `partially_prove`: the present permutation
      traces are committed together, unless there are none. */
  method CommitPermTraces<C, D>(permTracePerAir: seq<Option<nat>>, commitment: C, data: D)
    returns (r: Result<seq<(C, PcsData<D>)>>)
    ensures r.Ok? <==> forall i :: 0 <= i < |permTracePerAir| ==>
      permTracePerAir[i].Some? ==> LogHeightU8(permTracePerAir[i].value).Ok?
    ensures r.Ok? ==> |r.value| <= 1
    ensures r.Ok? ==> (|r.value| == 1 <==> KeyView.CountSome(permTracePerAir) > 0)
    ensures r.Ok? && |r.value| == 1 ==>
      r.value[0] == CommitTraces(KeyView.Somes(permTracePerAir), commitment, data).value
  {
    var flattenedTraces := KeyView.Somes(permTracePerAir);
    KeyView.SomesAppend(permTracePerAir, []);
    SomesAllCommittable(permTracePerAir);
    if |flattenedTraces| > 0 {
      var committed := CommitTraces(flattenedTraces, commitment, data);
      if committed.Panic? {
        return Panic(committed.reason);
      }
      return Ok([committed.value]);
    }
    return Ok([]);
  }

  /** The count of present entries grows by one exactly at a present entry. */
  lemma CountSomeSnoc<T>(xs: seq<Option<T>>, i: nat)
    requires i < |xs|
    ensures KeyView.CountSome(xs[..i + 1]) == KeyView.CountSome(xs[..i]) + (if xs[i].Some? then 1 else 0)
  {
    assert xs[..i + 1] == xs[..i] + [xs[i]];
    KeyView.SomesAppend(xs[..i], [xs[i]]);
    KeyView.SomesAppend(xs[..i + 1], []);
    KeyView.SomesAppend([xs[i]], []);
  }

  lemma NoSomes<T>(xs: seq<Option<T>>)
    requires forall i :: 0 <= i < |xs| ==> xs[i].None?
    ensures KeyView.Somes(xs) == []
    decreases |xs|
  {
    if |xs| > 0 {
      NoSomes(xs[1..]);
    }
  }

  /** A property holds of every flattened value exactly when it holds of
      every present entry. */
  lemma SomesAll<T>(xs: seq<Option<T>>, p: T -> bool)
    ensures (forall j :: 0 <= j < |KeyView.Somes(xs)| ==> p(KeyView.Somes(xs)[j])) <==>
            (forall i :: 0 <= i < |xs| && xs[i].Some? ==> p(xs[i].value))
  {
    var all := KeyView.Somes(xs);
    KeyView.SomesComplete(xs);
    if forall i :: 0 <= i < |xs| && xs[i].Some? ==> p(xs[i].value) {
      forall j | 0 <= j < |all|
        ensures p(all[j])
      {
        assert Some(all[j]) in xs;
        var i :| 0 <= i < |xs| && xs[i] == Some(all[j]);
      }
    } else {
      var i :| 0 <= i < |xs| && xs[i].Some? && !p(xs[i].value);
      assert xs[i].value in all;
      var j :| 0 <= j < |all| && all[j] == xs[i].value;
      assert !p(all[j]);
    }
  }

  /** The heights of the present traces are all committable exactly when
      every present trace is. */
  lemma SomesAllCommittable(xs: seq<Option<nat>>)
    ensures (forall j :: 0 <= j < |KeyView.Somes(xs)| ==> LogHeightU8(KeyView.Somes(xs)[j]).Ok?) <==>
            (forall i :: 0 <= i < |xs| ==> xs[i].Some? ==> LogHeightU8(xs[i].value).Ok?)
  {
    SomesAll(xs, h => LogHeightU8(h).Ok?);
  }

  /** The present entries get the indices `0, 1, 2, …` in order: listing
      the running indices that are present gives exactly `0 .. count`. */
  lemma {:induction false} RunningIndicesConsecutive<T>(xs: seq<Option<T>>)
    ensures KeyView.Somes(RunningIndices(xs)) == KeyView.Range(KeyView.CountSome(xs))
    decreases |xs|
  {
    var n := |xs|;
    if n == 0 {
      assert RunningIndices(xs) == [];
    } else {
      var prefix := xs[..n - 1];
      RunningIndicesConsecutive(prefix);
      var last := RunningIndex(xs, n - 1);
      RunningIndicesSnoc(xs);
      KeyView.SomesAppend(RunningIndices(prefix), [last]);
      CountSomeSnoc(xs, n - 1);
      assert xs[..n] == xs;
      var c := KeyView.CountSome(prefix);
      if xs[n - 1].Some? {
        assert KeyView.Somes([last]) == [c];
        RangeSnoc(c);
      } else {
        assert KeyView.Somes([last]) == [];
      }
    }
  }

  lemma RunningIndicesSnoc<T>(xs: seq<Option<T>>)
    requires |xs| > 0
    ensures RunningIndices(xs) == RunningIndices(xs[..|xs| - 1]) + [RunningIndex(xs, |xs| - 1)]
  {
    var n := |xs|;
    var prefix := xs[..n - 1];
    forall k | 0 <= k < n - 1
      ensures RunningIndices(xs)[k] == RunningIndices(prefix)[k]
    {
      assert xs[..k] == prefix[..k];
    }
  }

  lemma RangeSnoc(c: nat)
    ensures KeyView.Range(c + 1) == KeyView.Range(c) + [c]
  {
  }

  // ---------------------------------------------------------------------
  // eval_and_commit_quotient: the extended views
  // ---------------------------------------------------------------------

  /** A matrix evaluated on an AIR's quotient domain, named by where it is
      committed: the AIR's preprocessed trace, its `part`-th cached main
      trace, the `idx`-th matrix of the common main commitment, or the
      `matrixIdx`-th matrix of the commitment of after-challenge phase
      `phase`. */
  datatype MatrixRef =
    | PreprocessedOf(air: nat)
    | CachedOf(air: nat, part: nat)
    | CommonMainAt(idx: nat)
    | AfterPhaseAt(phase: nat, matrixIdx: nat)

  /** The parts of an AIR's proving key the quotient views read. */
  datatype AirQuotientKey = AirQuotientKey(hasPreprocessed: bool, hasCommonMain: bool)

  /** `PairView`: the log height of the trace, the preprocessed matrix, the
      main partitions (cached ones first, then the common main) and the
      public values. */
  datatype PairView<V> = PairView(
    logTraceHeight: nat,
    preprocessed: Option<MatrixRef>,
    partitionedMain: seq<MatrixRef>,
    publicValues: seq<V>)

  /** `RapView`: the pair view and one view per after-challenge phase. */
  datatype RapView<V, E> = RapView(pair: PairView<V>, perPhase: seq<RapSinglePhaseView<MatrixRef, E>>)

  /** Which AIRs have a common main trace, as present entries. */
  function CommonMainPresence(pks: seq<AirQuotientKey>): (r: seq<Option<nat>>)
    ensures |r| == |pks|
    ensures forall i :: 0 <= i < |pks| ==> (r[i].Some? <==> pks[i].hasCommonMain)
  {
    seq(|pks|, i requires 0 <= i < |pks| => if pks[i].hasCommonMain then Some(i) else None)
  }

  /** The value of `common_main_idx` when AIR `i` is reached: the number of
      earlier AIRs with a common main. */
  function CommonMainIdx(pks: seq<AirQuotientKey>, i: nat): nat
    requires i <= |pks|
  {
    KeyView.CountSome(CommonMainPresence(pks)[..i])
  }

  /** AIR `i` has a matrix in the commitment of phase `p`. */
  predicate HasPhaseMatrix<C, D, E>(after: ProverDataAfterRapPhases<C, D, E>, i: nat, p: nat) {
    p < |after.rapViewsPerPhase| && i < |after.rapViewsPerPhase[p]| && after.rapViewsPerPhase[p][i].inner.Some?
  }

  /** The number of phases `zip` walks: those with both a commitment and
      views. */
  function ZippedPhases<C, D, E>(after: ProverDataAfterRapPhases<C, D, E>): nat {
    Min(|after.committedPcsDataPerPhase|, |after.rapViewsPerPhase|)
  }

  /** The view of AIR `i` in phase `p`, when it has a matrix there
      (`rap_views.get(i)?` and `rap_view.inner?`). */
  function PhaseEntry<C, D, E>(after: ProverDataAfterRapPhases<C, D, E>, i: nat, p: nat): (r: Option<RapSinglePhaseView<MatrixRef, E>>)
    requires p < |after.rapViewsPerPhase|
    ensures r.Some? <==> HasPhaseMatrix(after, i, p)
  {
    var rapViews := after.rapViewsPerPhase[p];
    if i < |rapViews| && rapViews[i].inner.Some? then
      Some(RapSinglePhaseView(Some(AfterPhaseAt(p, rapViews[i].inner.value)), rapViews[i].challenges, rapViews[i].exposedValues))
    else None
  }

  /** The per-phase views of AIR `i` before trimming. */
  function PhaseEntries<C, D, E>(after: ProverDataAfterRapPhases<C, D, E>, i: nat): (r: seq<Option<RapSinglePhaseView<MatrixRef, E>>>)
    ensures |r| == ZippedPhases(after)
    ensures forall p :: 0 <= p < |r| ==> r[p] == PhaseEntry(after, i, p)
  {
    seq(ZippedPhases(after), p requires 0 <= p < ZippedPhases(after) => PhaseEntry(after, i, p))
  }

  /** The list without its trailing `None`s. */
  function TrimTrailingNone<T>(xs: seq<Option<T>>): seq<Option<T>>
    decreases |xs|
  {
    if |xs| > 0 && xs[|xs| - 1].None? then TrimTrailingNone(xs[..|xs| - 1]) else xs
  }

  /** Trimming keeps a prefix that is empty or ends in a present entry, and
      drops only absent entries. */
  lemma {:induction false} TrimTrailingNoneMeaning<T>(xs: seq<Option<T>>)
    ensures |TrimTrailingNone(xs)| <= |xs|
    ensures TrimTrailingNone(xs) == xs[..|TrimTrailingNone(xs)|]
    ensures |TrimTrailingNone(xs)| > 0 ==> TrimTrailingNone(xs)[|TrimTrailingNone(xs)| - 1].Some?
    ensures forall k :: |TrimTrailingNone(xs)| <= k < |xs| ==> xs[k].None?
    decreases |xs|
  {
    if |xs| > 0 && xs[|xs| - 1].None? {
      var prefix := xs[..|xs| - 1];
      TrimTrailingNoneMeaning(prefix);
      var t := TrimTrailingNone(prefix);
      assert t == prefix[..|t|];
      assert prefix[..|t|] == xs[..|t|];
      forall k | |t| <= k < |xs|
        ensures xs[k].None?
      {
        if k < |xs| - 1 {
          assert xs[k] == prefix[k];
        }
      }
    }
  }

  /** `while let Some(last) = per_phase.last() { … pop … }`. */
  method PopTrailingNone<T>(xs: seq<Option<T>>) returns (r: seq<Option<T>>)
    ensures r == TrimTrailingNone(xs)
  {
    r := xs;
    while |r| > 0 && r[|r| - 1].None?
      invariant TrimTrailingNone(r) == TrimTrailingNone(xs)
      decreases |r|
    {
      r := r[..|r| - 1];
    }
  }

  /** `unwrap_or_default` on each entry. */
  function UnwrapOrDefault<E>(xs: seq<Option<RapSinglePhaseView<MatrixRef, E>>>): (r: seq<RapSinglePhaseView<MatrixRef, E>>)
    ensures |r| == |xs|
    ensures forall p :: 0 <= p < |xs| ==> r[p] == xs[p].UnwrapOr(DefaultView())
  {
    seq(|xs|, p requires 0 <= p < |xs| => xs[p].UnwrapOr(DefaultView()))
  }

  /** The cached main partitions of AIR `i`, in order. */
  function CachedRefs(i: nat, count: nat): (r: seq<MatrixRef>)
    ensures |r| == count && forall k :: 0 <= k < count ==> r[k] == CachedOf(i, k)
  {
    seq(count, k requires 0 <= k < count => CachedOf(i, k))
  }

  /** The log trace height of an AIR: the common main's entry in the common
      main commitment, or else `log2_strict(cached_views[0].height) as u8`.
      A missing entry and a missing cached view are out-of-range indices. */
  function LogTraceHeight(pk: AirQuotientKey, cachedHeights: seq<nat>, commonMainLogHeights: seq<nat>, commonMainIdx: nat): (r: Result<nat>)
    ensures pk.hasCommonMain ==> (r.Ok? <==> commonMainIdx < |commonMainLogHeights|)
    ensures pk.hasCommonMain && r.Ok? ==> r.value == commonMainLogHeights[commonMainIdx]
    ensures !pk.hasCommonMain ==> (r.Ok? <==> |cachedHeights| > 0 && IsPow2(cachedHeights[0]))
    ensures !pk.hasCommonMain && r.Ok? && cachedHeights[0] < UsizeLimit ==> Pow2(r.value) == cachedHeights[0]
  {
    if pk.hasCommonMain then
      if commonMainIdx < |commonMainLogHeights| then Ok(commonMainLogHeights[commonMainIdx])
      else Panic("index out of bounds: log_trace_heights[common_main_idx]")
    else if |cachedHeights| == 0 then Panic("index out of bounds: cached_views[0]")
    else
      var log :- Log2Strict(cachedHeights[0]);
      ByteLogOfUsize(cachedHeights[0], log);
      var truncated: nat := log % U8Limit;
      Ok(truncated)
  }

  /** The `as u8` cast keeps the exponent of a `usize` power of two. */
  lemma ByteLogOfUsize(height: nat, log: nat)
    requires Pow2(log) == height
    ensures height < UsizeLimit ==> log % U8Limit == log
  {
    if height < UsizeLimit && log >= 64 {
      Pow2At64();
      if log > 64 {
        Pow2Strict(64, log);
      }
    }
  }

  /** The extended view of AIR `i`, reached with `common_main_idx` equal to
      `commonMainIdx`. */
  function ExtendedView<V, C, D, E>(
    i: nat, pk: AirQuotientKey, cachedHeights: seq<nat>, publicValues: seq<V>,
    commonMainLogHeights: seq<nat>, commonMainIdx: nat, after: ProverDataAfterRapPhases<C, D, E>)
    : Result<RapView<V, E>>
  {
    var logTraceHeight :- LogTraceHeight(pk, cachedHeights, commonMainLogHeights, commonMainIdx);
    var preprocessed := if pk.hasPreprocessed then Some(PreprocessedOf(i)) else None;
    var partitionedMain := CachedRefs(i, |cachedHeights|) + (if pk.hasCommonMain then [CommonMainAt(commonMainIdx)] else []);
    Ok(RapView(PairView(logTraceHeight, preprocessed, partitionedMain, publicValues),
               UnwrapOrDefault(TrimTrailingNone(PhaseEntries(after, i)))))
  }

  /** What an extended view holds: the cached partitions in order followed by
      the common main when there is one; one view per zipped phase up to the
      last phase where the AIR has a matrix, the matrix of that phase where
      it has one and the default view elsewhere. */
  lemma ExtendedViewMeaning<V, C, D, E>(
    i: nat, pk: AirQuotientKey, cachedHeights: seq<nat>, publicValues: seq<V>,
    commonMainLogHeights: seq<nat>, commonMainIdx: nat, after: ProverDataAfterRapPhases<C, D, E>)
    requires ExtendedView(i, pk, cachedHeights, publicValues, commonMainLogHeights, commonMainIdx, after).Ok?
    ensures var v := ExtendedView(i, pk, cachedHeights, publicValues, commonMainLogHeights, commonMainIdx, after).value;
      && v.pair.publicValues == publicValues
      && (v.pair.preprocessed.Some? <==> pk.hasPreprocessed)
      && |v.pair.partitionedMain| == |cachedHeights| + (if pk.hasCommonMain then 1 else 0)
      && (forall k :: 0 <= k < |cachedHeights| ==> v.pair.partitionedMain[k] == CachedOf(i, k))
      && (pk.hasCommonMain ==> v.pair.partitionedMain[|cachedHeights|] == CommonMainAt(commonMainIdx))
      && |v.perPhase| <= ZippedPhases(after)
      && (forall p :: 0 <= p < |v.perPhase| ==>
            if HasPhaseMatrix(after, i, p) then
              v.perPhase[p] == RapSinglePhaseView(
                Some(AfterPhaseAt(p, after.rapViewsPerPhase[p][i].inner.value)),
                after.rapViewsPerPhase[p][i].challenges,
                after.rapViewsPerPhase[p][i].exposedValues)
            else v.perPhase[p] == DefaultView())
      && (|v.perPhase| > 0 ==> HasPhaseMatrix(after, i, |v.perPhase| - 1))
      && (forall p :: |v.perPhase| <= p < ZippedPhases(after) ==> !HasPhaseMatrix(after, i, p))
  {
    var entries := PhaseEntries(after, i);
    TrimTrailingNoneMeaning(entries);
    var trimmed := TrimTrailingNone(entries);
    forall p | 0 <= p < |trimmed|
      ensures trimmed[p] == PhaseEntry(after, i, p)
    {
      assert trimmed[p] == entries[p];
    }
    forall p | |trimmed| <= p < ZippedPhases(after)
      ensures !HasPhaseMatrix(after, i, p)
    {
      assert entries[p].None?;
    }
  }

  /** The common main traces get the indices `0, 1, 2, …` in AIR order:
      `common_main_idx` advances exactly at the AIRs with a common main. */
  lemma CommonMainIndicesConsecutive(pks: seq<AirQuotientKey>)
    ensures var presence := CommonMainPresence(pks);
      && (forall i :: 0 <= i < |pks| && pks[i].hasCommonMain ==> RunningIndex(presence, i) == Some(CommonMainIdx(pks, i)))
      && KeyView.Somes(RunningIndices(presence)) == KeyView.Range(CommonMainIdx(pks, |pks|))
  {
    var presence := CommonMainPresence(pks);
    RunningIndicesConsecutive(presence);
    assert presence[..|pks|] == presence;
  }

  /** The extended views of `eval_and_commit_quotient`, up to the shortest of
      the keys, the cached views and the public values (`izip!`).
      `commonMainLogHeights` are the log heights of the common main
      commitment.  The polynomial commitment scheme's evaluation on the
      quotient domain is not modelled: a matrix is named by where it lives. */
  method ExtendedViews<V, C, D, E>(
    pks: seq<AirQuotientKey>, cachedHeightsPerAir: seq<seq<nat>>, publicValues: seq<seq<V>>,
    commonMainLogHeights: seq<nat>, after: ProverDataAfterRapPhases<C, D, E>)
    returns (r: Result<seq<RapView<V, E>>>)
    ensures var n := Min(Min(|pks|, |cachedHeightsPerAir|), |publicValues|);
      r.Ok? <==> forall i :: 0 <= i < n ==>
        ExtendedView(i, pks[i], cachedHeightsPerAir[i], publicValues[i], commonMainLogHeights, CommonMainIdx(pks, i), after).Ok?
    ensures var n := Min(Min(|pks|, |cachedHeightsPerAir|), |publicValues|);
      r.Ok? ==> |r.value| == n && forall i :: 0 <= i < n ==>
        r.value[i] == ExtendedView(i, pks[i], cachedHeightsPerAir[i], publicValues[i], commonMainLogHeights, CommonMainIdx(pks, i), after).value
  {
    var n := Min(Min(|pks|, |cachedHeightsPerAir|), |publicValues|);
    var commonMainIdx := 0;
    var views: seq<RapView<V, E>> := [];
    for i := 0 to n
      invariant commonMainIdx == CommonMainIdx(pks, i)
      invariant ViewsSoFar(views, pks, cachedHeightsPerAir, publicValues, commonMainLogHeights, after, i)
    {
      var view := ExtendedViewOf(i, pks[i], cachedHeightsPerAir[i], publicValues[i], commonMainLogHeights, commonMainIdx, after);
      if view.Panic? {
        return Panic(view.reason);
      }
      CountSomeSnoc(CommonMainPresence(pks), i);
      if pks[i].hasCommonMain {
        commonMainIdx := commonMainIdx + 1;
      }
      ViewsSoFarSnoc(views, view.value, pks, cachedHeightsPerAir, publicValues, commonMainLogHeights, after, i);
      views := views + [view.value];
    }
    return Ok(views);
  }

  /** The first `i` extended views are computed and are `views`. */
  ghost predicate ViewsSoFar<V, C, D, E>(
    views: seq<RapView<V, E>>, pks: seq<AirQuotientKey>, cachedHeightsPerAir: seq<seq<nat>>, publicValues: seq<seq<V>>,
    commonMainLogHeights: seq<nat>, after: ProverDataAfterRapPhases<C, D, E>, i: nat)
    requires i <= |pks| && i <= |cachedHeightsPerAir| && i <= |publicValues|
  {
    && |views| == i
    && forall k :: 0 <= k < i ==>
      ExtendedView(k, pks[k], cachedHeightsPerAir[k], publicValues[k], commonMainLogHeights, CommonMainIdx(pks, k), after).Ok? &&
      views[k] == ExtendedView(k, pks[k], cachedHeightsPerAir[k], publicValues[k], commonMainLogHeights, CommonMainIdx(pks, k), after).value
  }

  lemma ViewsSoFarSnoc<V, C, D, E>(
    views: seq<RapView<V, E>>, v: RapView<V, E>, pks: seq<AirQuotientKey>, cachedHeightsPerAir: seq<seq<nat>>,
    publicValues: seq<seq<V>>, commonMainLogHeights: seq<nat>, after: ProverDataAfterRapPhases<C, D, E>, i: nat)
    requires i < |pks| && i < |cachedHeightsPerAir| && i < |publicValues|
    requires ViewsSoFar(views, pks, cachedHeightsPerAir, publicValues, commonMainLogHeights, after, i)
    requires ExtendedView(i, pks[i], cachedHeightsPerAir[i], publicValues[i], commonMainLogHeights, CommonMainIdx(pks, i), after) == Ok(v)
    ensures ViewsSoFar(views + [v], pks, cachedHeightsPerAir, publicValues, commonMainLogHeights, after, i + 1)
  {
  }

  /** The body of the loop of `eval_and_commit_quotient` for AIR `i`, with
      `commonMainIdx` common main traces met before it, step by step as the
      loop does it; its result is the function `ExtendedView`, which the
      loop invariant `ViewsSoFar` and the lemmas about the views use. */
  method ExtendedViewOf<V, C, D, E>(
    i: nat, pk: AirQuotientKey, cachedHeights: seq<nat>, publicValues: seq<V>,
    commonMainLogHeights: seq<nat>, commonMainIdx: nat, after: ProverDataAfterRapPhases<C, D, E>)
    returns (r: Result<RapView<V, E>>)
    ensures r == ExtendedView(i, pk, cachedHeights, publicValues, commonMainLogHeights, commonMainIdx, after)
  {
    var logTraceHeight: nat;
    if pk.hasCommonMain {
      if commonMainIdx >= |commonMainLogHeights| {
        return Panic("index out of bounds: log_trace_heights[common_main_idx]");
      }
      logTraceHeight := commonMainLogHeights[commonMainIdx];
    } else {
      if |cachedHeights| == 0 {
        return Panic("index out of bounds: cached_views[0]");
      }
      var log := Log2Strict(cachedHeights[0]);
      if log.Panic? {
        return Panic(log.reason);
      }
      logTraceHeight := log.value % U8Limit;
    }
    var preprocessed := if pk.hasPreprocessed then Some(PreprocessedOf(i)) else None;
    var partitionedMain := CachedRefs(i, |cachedHeights|);
    if pk.hasCommonMain {
      partitionedMain := partitionedMain + [CommonMainAt(commonMainIdx)];
    } else {
      assert partitionedMain + [] == partitionedMain;
    }
    assert LogTraceHeight(pk, cachedHeights, commonMainLogHeights, commonMainIdx) == Ok(logTraceHeight);
    var pair := PairView(logTraceHeight, preprocessed, partitionedMain, publicValues);
    var perPhase := PopTrailingNone(PhaseEntries(after, i));
    return Ok(RapView(pair, UnwrapOrDefault(perPhase)));
  }

  // ---------------------------------------------------------------------
  // transport_pk_to_device
  // ---------------------------------------------------------------------

  /** The preprocessed trace of a proving key and its prover data. */
  datatype PreprocessedData<D> = PreprocessedData(traceHeight: nat, data: D)

  /** The parts of `StarkProvingKey` the transport reads; `K` stands for the
      rest, which is passed through. */
  datatype StarkProvingKey<D, K> = StarkProvingKey(preprocessedData: Option<PreprocessedData<D>>, rest: K)

  /** `SingleCommitPreimage`: a trace, the data of its own commitment and its
      index in that commitment. */
  datatype SingleCommitPreimage<D> = SingleCommitPreimage(traceHeight: nat, data: PcsData<D>, matrixIdx: nat)

  datatype DeviceStarkProvingKey<D, K> = DeviceStarkProvingKey(preprocessedData: Option<SingleCommitPreimage<D>>, rest: K)

  datatype DeviceMultiStarkProvingKey<D, K> = DeviceMultiStarkProvingKey(airIds: seq<nat>, perAir: seq<DeviceStarkProvingKey<D, K>>)

  /** A preprocessed trace on the device: alone in its commitment, with the
      log height `log2_strict(height) as u8`. */
  function TransportPreprocessed<D>(pd: PreprocessedData<D>): (r: Result<SingleCommitPreimage<D>>)
    ensures r.Ok? <==> IsPow2(pd.traceHeight)
    ensures r.Ok? ==> r.value.traceHeight == pd.traceHeight && r.value.matrixIdx == 0
    ensures r.Ok? ==> r.value.data.data == pd.data && |r.value.data.logTraceHeights| == 1
    ensures r.Ok? && pd.traceHeight < UsizeLimit ==> Pow2(r.value.data.logTraceHeights[0]) == pd.traceHeight
  {
    var log :- Log2Strict(pd.traceHeight);
    ByteLogOfUsize(pd.traceHeight, log);
    Ok(SingleCommitPreimage(pd.traceHeight, PcsData(pd.data, [log % U8Limit]), 0))
  }

  /** Every preprocessed trace of the selected AIRs has a power-of-two
      height. */
  predicate PreprocessedTransportable<D, K>(perAir: seq<StarkProvingKey<D, K>>, airIds: seq<nat>) {
    forall k :: 0 <= k < |airIds| && airIds[k] < |perAir| && perAir[airIds[k]].preprocessedData.Some? ==>
      IsPow2(perAir[airIds[k]].preprocessedData.value.traceHeight)
  }

  /** `transport_pk_to_device`: the keys of the listed AIRs, in the order
      listed. */
  function TransportPkToDevice<D, K>(perAir: seq<StarkProvingKey<D, K>>, airIds: seq<nat>): (r: Result<DeviceMultiStarkProvingKey<D, K>>)
    ensures r.Ok? <==>
      && |airIds| <= |perAir|
      && (forall k :: 0 <= k < |airIds| ==> airIds[k] < |perAir|)
      && PreprocessedTransportable(perAir, airIds)
    ensures r.Ok? ==> r.value.airIds == airIds && |r.value.perAir| == |airIds|
    ensures r.Ok? ==> forall k :: 0 <= k < |airIds| ==>
      var pk := perAir[airIds[k]];
      && r.value.perAir[k].rest == pk.rest
      && (r.value.perAir[k].preprocessedData.Some? <==> pk.preprocessedData.Some?)
      && (pk.preprocessedData.Some? ==>
            r.value.perAir[k].preprocessedData.value == TransportPreprocessed(pk.preprocessedData.value).value)
  {
    if |airIds| > |perAir| then Panic("filtering more AIRs than available")
    else if exists k :: 0 <= k < |airIds| && airIds[k] >= |perAir| then Panic("index out of bounds: per_air[air_idx]")
    else if !PreprocessedTransportable(perAir, airIds) then Panic("Not a power of two")
    else
      Ok(DeviceMultiStarkProvingKey(airIds, seq(|airIds|, k requires 0 <= k < |airIds| =>
        var pk := perAir[airIds[k]];
        DeviceStarkProvingKey(
          if pk.preprocessedData.Some? then Some(TransportPreprocessed(pk.preprocessedData.value).value) else None,
          pk.rest))))
  }

  /** Transporting every AIR, in order, keeps the whole key. */
  lemma TransportAllAirs<D, K>(perAir: seq<StarkProvingKey<D, K>>)
    requires PreprocessedTransportable(perAir, KeyView.Range(|perAir|))
    ensures var r := TransportPkToDevice(perAir, KeyView.Range(|perAir|));
      && r.Ok?
      && |r.value.perAir| == |perAir|
      && forall k :: 0 <= k < |perAir| ==> r.value.perAir[k].rest == perAir[k].rest
  {
  }
}
