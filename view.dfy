/** Queries on a view of the multi-AIR verifying key (keygen/view.rs).

    A view is the list of the per-AIR verifying keys of the AIRs taking part
    in a proof, in the order the proof lists them.  Commitments are left
    abstract (the type parameter `C`). */
module KeyView {
  import opened Wrappers

  /** The parts of `StarkVerifyingKey` the queries read. */
  datatype StarkVerifyingKey<C> = StarkVerifyingKey(
    preprocessedCommit: Option<C>,
    afterChallengeWidths: seq<nat>,
    numChallengesToSample: seq<nat>,
    numExposedValuesAfterChallenge: seq<nat>)

  /** `view(air_ids)`: the key of each listed AIR, in the order listed; an
      id past the last AIR is an out-of-range index. */
  function View<C>(perAir: seq<StarkVerifyingKey<C>>, airIds: seq<nat>): (r: Result<seq<StarkVerifyingKey<C>>>)
    ensures r.Ok? <==> forall i :: 0 <= i < |airIds| ==> airIds[i] < |perAir|
    ensures r.Ok? ==> |r.value| == |airIds| && forall i :: 0 <= i < |airIds| ==> r.value[i] == perAir[airIds[i]]
  {
    if exists i :: 0 <= i < |airIds| && airIds[i] >= |perAir| then Panic("index out of bounds: per_air[id]")
    else Ok(seq(|airIds|, i requires 0 <= i < |airIds| => perAir[airIds[i]]))
  }

  /** `0..n` as a list. */
  function Range(n: nat): (r: seq<nat>)
    ensures |r| == n && forall i :: 0 <= i < n ==> r[i] == i
  {
    seq(n, i requires 0 <= i => i)
  }

  /** `full_view`: the view with every AIR. */
  function FullView<C>(perAir: seq<StarkVerifyingKey<C>>): Result<seq<StarkVerifyingKey<C>>> {
    View(perAir, Range(|perAir|))
  }

  /** The full view is the whole key, in order, and never panics. */
  lemma FullViewIsAll<C>(perAir: seq<StarkVerifyingKey<C>>)
    ensures FullView(perAir) == Ok(perAir)
  {
    var r := View(perAir, Range(|perAir|));
    assert r.value == perAir;
  }

  /** `preprocessed_commits`: one entry per AIR, present exactly for the AIRs
      with a preprocessed trace. */
  function PreprocessedCommits<C>(view: seq<StarkVerifyingKey<C>>): (r: seq<Option<C>>)
    ensures |r| == |view|
    ensures forall i :: 0 <= i < |view| ==> r[i] == view[i].preprocessedCommit
  {
    seq(|view|, i requires 0 <= i < |view| => view[i].preprocessedCommit)
  }

  /** `into_iter().flatten()` on options: the present values, in order. */
  function Somes<C>(xs: seq<Option<C>>): (r: seq<C>)
    ensures |r| <= |xs|
    ensures forall j :: 0 <= j < |r| ==> Some(r[j]) in xs
  {
    if |xs| == 0 then []
    else
      var rest := Somes(xs[1..]);
      assert forall j :: 0 <= j < |rest| ==> Some(rest[j]) in xs[1..];
      match xs[0]
      case Some(c) => [c] + rest
      case None => rest
  }

  /** Every present value is kept by the flattening. */
  lemma {:induction false} SomesComplete<C>(xs: seq<Option<C>>)
    ensures forall i :: 0 <= i < |xs| && xs[i].Some? ==> xs[i].value in Somes(xs)
    decreases |xs|
  {
    if |xs| > 0 {
      SomesComplete(xs[1..]);
      assert forall i :: 1 <= i < |xs| ==> xs[i] == xs[1..][i - 1];
    }
  }

  function CountSome<C>(xs: seq<Option<C>>): nat {
    if |xs| == 0 then 0 else (if xs[0].Some? then 1 else 0) + CountSome(xs[1..])
  }

  /** Flattening keeps every present value and their order: it distributes
      over concatenation and yields one value per `Some`. */
  lemma {:induction false} SomesAppend<C>(xs: seq<Option<C>>, ys: seq<Option<C>>)
    ensures Somes(xs + ys) == Somes(xs) + Somes(ys)
    ensures |Somes(xs)| == CountSome(xs)
    decreases |xs|
  {
    if |xs| == 0 {
      assert xs + ys == ys;
    } else {
      assert (xs + ys)[1..] == xs[1..] + ys;
      SomesAppend(xs[1..], ys);
    }
  }

  /** `flattened_preprocessed_commits`. */
  function FlattenedPreprocessedCommits<C>(view: seq<StarkVerifyingKey<C>>): (r: seq<C>)
    ensures |r| <= |view|
    ensures forall j :: 0 <= j < |r| ==> exists i :: 0 <= i < |view| && view[i].preprocessedCommit == Some(r[j])
  {
    var commits := PreprocessedCommits(view);
    var r := Somes(commits);
    assert forall j :: 0 <= j < |r| ==> Some(r[j]) in commits;
    r
  }

  /** The three per-phase lists of an AIR have the same length. */
  predicate Consistent<C>(vk: StarkVerifyingKey<C>) {
    && |vk.afterChallengeWidths| == |vk.numChallengesToSample|
    && |vk.afterChallengeWidths| == |vk.numExposedValuesAfterChallenge|
  }

  /** `num_phases`: the largest number of after-challenge phases of an AIR (0
      without AIRs), after checking each AIR's per-phase lists agree. */
  function NumPhases<C>(view: seq<StarkVerifyingKey<C>>): (r: Result<nat>)
    ensures r.Ok? <==> forall i :: 0 <= i < |view| ==> Consistent(view[i])
    ensures r.Ok? ==> forall i :: 0 <= i < |view| ==> |view[i].afterChallengeWidths| <= r.value
    ensures r.Ok? && |view| == 0 ==> r.value == 0
    ensures r.Ok? && |view| > 0 ==> exists i :: 0 <= i < |view| && |view[i].afterChallengeWidths| == r.value
  {
    if |view| == 0 then Ok(0)
    else
      var vk := view[0];
      if |vk.afterChallengeWidths| != |vk.numChallengesToSample| then
        Panic("assertion `left == right` failed: num == num_challenges_to_sample.len()")
      else if |vk.afterChallengeWidths| != |vk.numExposedValuesAfterChallenge| then
        Panic("assertion `left == right` failed: num == num_exposed_values_after_challenge.len()")
      else
        var rest :- NumPhases(view[1..]);
        assert forall i :: 1 <= i < |view| ==> view[i] == view[1..][i - 1];
        var m: nat := Max(|vk.afterChallengeWidths|, rest);
        Ok(m)
  }

  /** The challenge counts of phase `p` of the AIRs that have that phase. */
  function ChallengesInPhase<C>(view: seq<StarkVerifyingKey<C>>, p: nat): (r: seq<nat>)
    ensures |r| == 0 <==> forall i :: 0 <= i < |view| ==> p >= |view[i].numChallengesToSample|
    ensures forall i :: 0 <= i < |view| && p < |view[i].numChallengesToSample| ==> view[i].numChallengesToSample[p] in r
    ensures forall x :: x in r ==> exists i :: 0 <= i < |view| && p < |view[i].numChallengesToSample| && view[i].numChallengesToSample[p] == x
  {
    if |view| == 0 then []
    else
      var rest := ChallengesInPhase(view[1..], p);
      var here := if p < |view[0].numChallengesToSample| then [view[0].numChallengesToSample[p]] else [];
      PhaseCountsCons(view, p, here, rest);
      here + rest
  }

  /** The counts of phase `p` on `view` are those of its first AIR followed
      by those of the rest. */
  lemma PhaseCountsCons<C>(view: seq<StarkVerifyingKey<C>>, p: nat, here: seq<nat>, rest: seq<nat>)
    requires |view| > 0
    requires here == if p < |view[0].numChallengesToSample| then [view[0].numChallengesToSample[p]] else []
    requires |rest| == 0 <==> forall i :: 0 <= i < |view[1..]| ==> p >= |view[1..][i].numChallengesToSample|
    requires forall i :: 0 <= i < |view[1..]| && p < |view[1..][i].numChallengesToSample| ==>
      view[1..][i].numChallengesToSample[p] in rest
    requires forall x :: x in rest ==>
      exists i :: 0 <= i < |view[1..]| && p < |view[1..][i].numChallengesToSample| && view[1..][i].numChallengesToSample[p] == x
    ensures |here + rest| == 0 <==> forall i :: 0 <= i < |view| ==> p >= |view[i].numChallengesToSample|
    ensures forall i :: 0 <= i < |view| && p < |view[i].numChallengesToSample| ==> view[i].numChallengesToSample[p] in here + rest
    ensures forall x :: x in here + rest ==>
      exists i :: 0 <= i < |view| && p < |view[i].numChallengesToSample| && view[i].numChallengesToSample[p] == x
  {
    assert forall i :: 1 <= i < |view| ==> view[i] == view[1..][i - 1];
    forall x | x in here + rest
      ensures exists i :: 0 <= i < |view| && p < |view[i].numChallengesToSample| && view[i].numChallengesToSample[p] == x
    {
      if x !in here {
        var k :| 0 <= k < |view[1..]| && p < |view[1..][k].numChallengesToSample| && view[1..][k].numChallengesToSample[p] == x;
        assert view[k + 1] == view[1..][k];
      }
    }
  }

  function MaxOf(xs: seq<nat>): (r: nat)
    requires |xs| > 0
    ensures r in xs && forall x :: x in xs ==> x <= r
  {
    if |xs| == 1 then xs[0]
    else
      var m := MaxOf(xs[1..]);
      assert forall x :: x in xs ==> x == xs[0] || x in xs[1..];
      Max(xs[0], m)
  }

  /** Some AIR of the view has challenge phase `p`. */
  predicate PhaseUsed<C>(view: seq<StarkVerifyingKey<C>>, p: nat) {
    exists i :: 0 <= i < |view| && p < |view[i].numChallengesToSample|
  }

  /** `num_challenges_in_phase(p)`: the largest challenge count of phase `p`
      over the AIRs that have it; no such AIR panics. */
  function NumChallengesInPhase<C>(view: seq<StarkVerifyingKey<C>>, p: nat): (r: Result<nat>)
    ensures r.Ok? <==> PhaseUsed(view, p)
    ensures r.Ok? ==> forall i :: 0 <= i < |view| && p < |view[i].numChallengesToSample| ==>
      view[i].numChallengesToSample[p] <= r.value
    ensures r.Ok? ==>
      (exists i :: 0 <= i < |view| && p < |view[i].numChallengesToSample| &&
                   view[i].numChallengesToSample[p] == r.value)
  {
    var counts := ChallengesInPhase(view, p);
    if |counts| == 0 then Panic("No challenges used in challenge phase")
    else Ok(MaxOf(counts))
  }

  /** `num_challenges_per_phase`: one count per phase.  The panic of
      `num_challenges_in_phase` cannot happen here: once the per-phase lists
      are consistent every phase below `num_phases` is used by some AIR. */
  function NumChallengesPerPhase<C>(view: seq<StarkVerifyingKey<C>>): (r: Result<seq<nat>>)
    ensures r.Ok? <==> NumPhases(view).Ok?
    ensures r.Ok? ==> |r.value| == NumPhases(view).value
    ensures r.Ok? ==> forall p :: 0 <= p < |r.value| ==> NumChallengesInPhase(view, p) == Ok(r.value[p])
  {
    var n :- NumPhases(view);
    PhasesBelowNumPhasesUsed(view);
    Ok(seq(n, p requires 0 <= p < n => NumChallengesInPhase(view, p).value))
  }

  /** Every phase below `num_phases` is used by some AIR: the AIR with the
      most phases has consistent lists, so it samples challenges in each. */
  lemma PhasesBelowNumPhasesUsed<C>(view: seq<StarkVerifyingKey<C>>)
    requires NumPhases(view).Ok?
    ensures forall p :: 0 <= p < NumPhases(view).value ==> PhaseUsed(view, p)
  {
    var n := NumPhases(view).value;
    if |view| > 0 {
      var i :| 0 <= i < |view| && |view[i].afterChallengeWidths| == n;
      assert Consistent(view[i]);
      forall p | 0 <= p < n
        ensures PhaseUsed(view, p)
      {
        assert p < |view[i].numChallengesToSample|;
      }
    }
  }
}
