/** FRI parameters of the SDK (config/fri_params.rs): the conjectured
    security of a parameter set, the standard table with 100 conjectured
    bits, and the constraint degree a blowup allows.

    Fields are `usize`; arithmetic that leaves the 64-bit range panics, as
    it does in a debug build. */
module FriParams {
  import opened Wrappers
  import opened QuotientCommon

  datatype FriParameters = FriParameters(
    logBlowup: nat,
    logFinalPolyLen: nat,
    numQueries: nat,
    proofOfWorkBits: nat)

  /** `get_conjectured_security_bits`: the query security
      `num_queries * log_blowup + proof_of_work_bits`, capped by the bits of
      the challenge field (ethSTARK, section 5.10.1, equation (19), without
      its `- 1`). */
  function ConjecturedSecurityBits(params: FriParameters, challengeFieldBits: nat): (r: Result<nat>)
    ensures r.Ok? <==>
      params.numQueries * params.logBlowup < UsizeLimit &&
      params.numQueries * params.logBlowup + params.proofOfWorkBits < UsizeLimit
    ensures r.Ok? ==> r.value <= challengeFieldBits
    ensures r.Ok? ==> r.value <= params.numQueries * params.logBlowup + params.proofOfWorkBits
    ensures r.Ok? ==>
      r.value == challengeFieldBits || r.value == params.numQueries * params.logBlowup + params.proofOfWorkBits
  {
    var product := params.numQueries * params.logBlowup;
    if product >= UsizeLimit then Panic("attempt to multiply with overflow")
    else if product + params.proofOfWorkBits >= UsizeLimit then Panic("attempt to add with overflow")
    else
      var friQuerySecurityBits: nat := product + params.proofOfWorkBits;
      var bits: nat := Min(challengeFieldBits, friQuerySecurityBits);
      Ok(bits)
  }

  /** The entry of the standard table before its security assertion. */
  function StandardEntry(logBlowup: nat): Option<FriParameters> {
    match logBlowup
    case 1 => Some(FriParameters(logBlowup, 0, 100, 16))
    case 2 => Some(FriParameters(logBlowup, 0, 44, 16))
    case 3 => Some(FriParameters(logBlowup, 0, 30, 16))
    case 4 => Some(FriParameters(logBlowup, 0, 23, 16))
    case _ => None
  }

  /** `standard_fri_params_with_100_bits_conjectured_security`: the table
      entry for blowups 1 to 4, after asserting it reaches 100 conjectured
      bits with a 100-bit challenge field; any other blowup is a `todo!`. */
  function StandardFriParamsWith100BitsConjecturedSecurity(logBlowup: nat): (r: Result<FriParameters>)
    ensures r.Ok? <==> 1 <= logBlowup <= 4
    ensures r.Ok? ==> r.value.logBlowup == logBlowup && r.value.logFinalPolyLen == 0
    ensures r.Ok? ==> r.value.proofOfWorkBits == 16
    ensures logBlowup == 1 ==> r == Ok(FriParameters(1, 0, 100, 16))
    ensures logBlowup == 2 ==> r == Ok(FriParameters(2, 0, 44, 16))
    ensures logBlowup == 3 ==> r == Ok(FriParameters(3, 0, 30, 16))
    ensures logBlowup == 4 ==> r == Ok(FriParameters(4, 0, 23, 16))
  {
    match StandardEntry(logBlowup)
    case None => Panic("not yet implemented: No standard FRI params defined for log blowup")
    case Some(params) =>
      var bits := ConjecturedSecurityBits(params, 100);
      if bits.Ok? && bits.value >= 100 then Ok(params)
      else Panic("assertion failed: fri_params.get_conjectured_security_bits(100) >= 100")
  }

  /** Every standard entry keeps its promise: with any challenge field of at
      least 100 bits it has at least 100 conjectured bits of security. */
  lemma StandardIsSecure(logBlowup: nat, challengeFieldBits: nat)
    requires StandardFriParamsWith100BitsConjecturedSecurity(logBlowup).Ok?
    requires challengeFieldBits >= 100
    ensures var bits := ConjecturedSecurityBits(StandardFriParamsWith100BitsConjecturedSecurity(logBlowup).value, challengeFieldBits);
      bits.Ok? && bits.value >= 100
  {
    var params := StandardFriParamsWith100BitsConjecturedSecurity(logBlowup).value;
    if logBlowup == 1 {
      assert params.numQueries * params.logBlowup == 100;
    } else if logBlowup == 2 {
      assert params.numQueries * params.logBlowup == 88;
    } else if logBlowup == 3 {
      assert params.numQueries * params.logBlowup == 90;
    } else {
      assert params.numQueries * params.logBlowup == 92;
    }
  }

  /** `FriParameters::standard_fast`: the entry with blowup 1. */
  function StandardFast(): (r: FriParameters)
    ensures StandardFriParamsWith100BitsConjecturedSecurity(1) == Ok(r)
  {
    FriParameters(1, 0, 100, 16)
  }

  /** `max_constraint_degree`: `2^log_blowup + 1`.  A shift by 64 or more
      overflows; below that the sum stays under `usize::MAX`. */
  function MaxConstraintDegree(params: FriParameters): (r: Result<nat>)
    ensures r.Ok? <==> params.logBlowup < 64
    ensures r.Ok? ==> r.value < UsizeLimit
    ensures r.Ok? ==> r.value >= 2 && Log2Strict(r.value - 1) == Ok(params.logBlowup)
  {
    if params.logBlowup >= 64 then Panic("attempt to shift left with overflow")
    else
      Pow2Below64(params.logBlowup);
      Log2StrictOfPow2(params.logBlowup);
      Ok(Pow2(params.logBlowup) + 1)
  }

  /** `2^k + 1` fits in a `usize` when `k < 64`. */
  lemma Pow2Below64(k: nat)
    requires k < 64
    ensures Pow2(k) + 1 < UsizeLimit
  {
    Pow2At64();
    Pow2Strict(k, 64);
  }

  /** `log2_strict(2^k) == k`. */
  lemma {:induction false} Log2StrictOfPow2(k: nat)
    ensures Log2Strict(Pow2(k)) == Ok(k)
  {
    Pow2IsPow2(k);
    var l := Log2(Pow2(k));
    if l < k {
      Pow2Strict(l, k);
    } else if l > k {
      Pow2Strict(k, l);
    }
  }

  /** `new_for_testing`: with `OPENVM_FAST_TEST` set to `1` (passed in as
      `fastTest`), two queries and no grinding, which is not secure;
      otherwise the standard entry. */
  function NewForTesting(logBlowup: nat, fastTest: bool): (r: Result<FriParameters>)
    ensures fastTest ==> r == Ok(FriParameters(logBlowup, 0, 2, 0))
    ensures !fastTest ==> r == StandardFriParamsWith100BitsConjecturedSecurity(logBlowup)
  {
    if fastTest then Ok(FriParameters(logBlowup, 0, 2, 0))
    else StandardFriParamsWith100BitsConjecturedSecurity(logBlowup)
  }

  /** `SecurityParameters`: FRI parameters with LogUp parameters, whose
      computation (config/log_up_params.rs) is not part of this model and is
      passed in. */
  datatype SecurityParameters<L> = SecurityParameters(friParams: FriParameters, logUpParams: L)

  /** `SecurityParameters::standard_fast`. */
  function SecurityStandardFast<L>(logUpParams: L): (r: SecurityParameters<L>)
    ensures r.friParams == StandardFast() && r.logUpParams == logUpParams
  {
    SecurityParameters(StandardFast(), logUpParams)
  }

  /** `SecurityParameters::standard_100_bits_with_fri_log_blowup`. */
  function Standard100BitsWithFriLogBlowup<L>(logBlowup: nat, logUpParams: L): (r: Result<SecurityParameters<L>>)
    ensures r.Ok? <==> StandardFriParamsWith100BitsConjecturedSecurity(logBlowup).Ok?
    ensures r.Ok? ==>
      r.value.friParams == StandardFriParamsWith100BitsConjecturedSecurity(logBlowup).value &&
      r.value.logUpParams == logUpParams
  {
    var fri :- StandardFriParamsWith100BitsConjecturedSecurity(logBlowup);
    Ok(SecurityParameters(fri, logUpParams))
  }
}
