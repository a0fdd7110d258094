/** Interactions and challenge-phase shapes (interaction/mod.rs).

    An `InteractionBuilder` is an `AirBuilder` that also stores the bus
    interactions an AIR declares: each `push_send` / `push_receive` appends
    one `Interaction` to its list.  The model is that list, owned by an
    `InteractionRecorder`. */
module Interaction {
  import opened Rap

  datatype InteractionType = Send | Receive

  /** `Interaction<Expr>`: the message, its multiplicity and the bus. */
  datatype Interaction = Interaction(
    fields: seq<Term>,
    count: Term,
    busIndex: nat,
    interactionType: InteractionType)

  /** The interaction list of an `InteractionBuilder`. */
  class InteractionRecorder {
    var interactions: seq<Interaction>

    constructor()
      ensures interactions == []
    {
      interactions := [];
    }

    /** `all_interactions`. */
    function AllInteractions(): seq<Interaction>
      reads this
    {
      interactions
    }

    /** `num_interactions`: the number of interactions stored so far. */
    function NumInteractions(): (r: nat)
      reads this
      ensures r == |AllInteractions()|
    {
      |interactions|
    }

    /** `push_interaction`: stores one interaction after the earlier ones. */
    method PushInteraction(busIndex: nat, fields: seq<Term>, count: Term, interactionType: InteractionType)
      modifies this
      ensures interactions == old(interactions) + [Interaction(fields, count, busIndex, interactionType)]
      ensures NumInteractions() == old(NumInteractions()) + 1
    {
      interactions := interactions + [Interaction(fields, count, busIndex, interactionType)];
    }

    /** `push_send`: `push_interaction` with `Send`. */
    method PushSend(busIndex: nat, fields: seq<Term>, count: Term)
      modifies this
      ensures interactions == old(interactions) + [Interaction(fields, count, busIndex, Send)]
    {
      PushInteraction(busIndex, fields, count, Send);
    }

    /** `push_receive`: `push_interaction` with `Receive`. */
    method PushReceive(busIndex: nat, fields: seq<Term>, count: Term)
      modifies this
      ensures interactions == old(interactions) + [Interaction(fields, count, busIndex, Receive)]
    {
      PushInteraction(busIndex, fields, count, Receive);
    }
  }

  /** `STARK_LU_NUM_CHALLENGES` and `STARK_LU_NUM_EXPOSED_VALUES`, declared
      in interaction/fri_log_up.rs: the LogUp phase draws two challenges
      (alpha and beta) and exposes one value (the cumulative sum). */
  const StarkLuNumChallenges: nat := 2
  const StarkLuNumExposedValues: nat := 1

  /** `RapPhaseShape`. */
  datatype RapPhaseShape = RapPhaseShape(numChallenges: nat, numExposedValues: nat, extraOpeningRots: seq<nat>)

  /** `RapPhaseSeqKind`: at most one FRI-LogUp phase, or none. */
  datatype RapPhaseSeqKind = FriLogUp | NoPhase

  /** `shape`: one phase shape per challenge phase of the kind. */
  function Shape(kind: RapPhaseSeqKind): (r: seq<RapPhaseShape>)
    ensures kind.NoPhase? <==> r == []
    ensures kind.FriLogUp? ==> |r| == 1
    ensures forall i :: 0 <= i < |r| ==>
      r[i].numChallenges == StarkLuNumChallenges && r[i].numExposedValues == StarkLuNumExposedValues &&
      r[i].extraOpeningRots == []
  {
    match kind
    case FriLogUp => [RapPhaseShape(StarkLuNumChallenges, StarkLuNumExposedValues, [])]
    case NoPhase => []
  }
}
