# A verified model of the stark-backend constraint engine

This project models the symbolic-constraint engine of the `openvm-stark-backend` STARK prover and verifier in Dafny, together with the small helpers around it in the backend and the SDK.

An AIR (algebraic intermediate representation) states its constraints through an `AirBuilder`. The backend flattens the recorded symbolic expressions into a DAG of nodes. Then three interpreters evaluate that DAG:

- the generic prover's quotient evaluator;
- the CPU prover's quotient evaluator;
- the verifier's constraint folder.

The quotient computation walks the quotient domain in blocks of `WIDTH` rows. It folds every row's constraint values with powers of a challenge `alpha`.

The modules follow the source files:

| module | file | what it holds |
|---|---|---|
| `Wrappers` | — | `Option`, and `Result` with a `Panic` alternative for every Rust panic |
| `Algebra` | — | the base field `Val` (integers modulo the BabyBear prime 2013265921) and an abstract extension ring `Ext<E>` that embeds it |
| `Symbolic`, `DagBuild` | `air_builders/symbolic/dag.rs` | symbolic expressions with their `Arc` addresses; the topological sort into a node arena, and the way back |
| `Evaluation` | — | the forward pass over a node arena that the three interpreters share, and its agreement with evaluating the expression trees |
| `Packed`, `QuotientEvaluator`, `CpuEvaluator` | `prover/quotient/evaluator.rs`, `prover/cpu/quotient/evaluator.rs` | `PackedExpr` arithmetic with promotion to the extension, `ViewPair::get`, variable reads, and `accumulate` |
| `Verifier` | `air_builders/verifier.rs` | `eval_constraints` and `assert_zero` as a Horner fold |
| `QuotientCommon`, `QuotientSingle`, `CpuQuotientSingle` | both `single.rs` files | next step, reversed alpha powers, selector padding, the rotation scan, wrapped row indices and the block layout of the output |
| `Rap` | `rap.rs` | the default assertions, filtered builders and `get_air_name` |
| `Interaction` | `interaction/mod.rs` | sends and receives, and the shape of each phase sequence |
| `KeyView` | `keygen/view.rs` | queries on a view of the multi-AIR verifying key |
| `Utils` | `utils.rs` | batch inversion that lets zeros through, and the slices `parallelize_chunks` hands out |
| `CpuProver` | `prover/cpu/mod.rs` | the index bookkeeping of `commit`, `partially_prove`, `eval_and_commit_quotient` and `transport_pk_to_device` |
| `FriParams` | `stark-sdk/src/config/fri_params.rs` | conjectured security, the standard parameter table and the maximum constraint degree |
| `SdkUtils` | `stark-sdk/src/utils.rs` | the length check and chip sorting of a test's proof input, seed layout, field conversions |
| `DummyAir` | `stark-sdk/src/dummy_airs/interaction/dummy_interaction_air.rs` | the dummy interaction AIR, its chip and its two trace layouts |
| `FibTriplesAir`, `PartitionedSumAir`, `FibOracles` | the test AIRs and `tests/integration_test.rs` | the Fibonacci-triples constraints, the partitioned sum, and the Fibonacci oracles |

Modelling conventions:

- **Panics.** A panic, including a failed `assert!`, a `debug_assert!`, an `unwrap`, an arithmetic overflow or an out-of-range checked index, is the `Panic` alternative of `Result`.
- **Unchecked reads.** An `unsafe` or unchecked read would be undefined behaviour if it went out of range. It becomes a precondition, which the callers discharge with the same scan the source relies on.
- **Integer widths.** `usize` and `u32` arithmetic that can overflow is checked against `UsizeLimit` and `U32Limit`.
- **In-place state.** State that the source updates in place is a Dafny `class`:
  - builders and recorders;
  - the verifier folder;
  - the DAG builder's cache and node list;
  - the dummy chip;
  - a test's proof input.
- **Loops.** Loops become methods proved against the functions that specify them.

The central results are:

- **DAG round trip.** Flattening constraints into a DAG and rebuilding them gives back the same expressions, up to `Arc` addresses (`DagBuild.RoundTrip`, `DagBuild.BuildRoundTrip`).
- **Prover and verifier agree.** The prover's `accumulate`, called with the reversed alpha powers, equals the verifier's Horner fold (`QuotientEvaluator.AccumulateReversedIsHorner`, `Verifier.GenericVerifierConstraintFolder.EvalConstraints`).
- **Quotient output.** `compute_single_rap_quotient_values` produces one value per point of the quotient domain, namely that row's constraints folded with the reversed alpha powers and multiplied by the inverse of the vanishing polynomial (`QuotientSingle.ComputeSingleRapQuotientValues`).

## Model

| member | source | states |
|---|---|---|
| Algebra.Powers | crates/stark-backend/src/prover/cpu/quotient/single.rs:66-70 | the collected `alpha.powers().take(n)`: exactly n entries, entry i is alpha^i |
| Algebra.ReversedPowers | crates/stark-backend/src/prover/quotient/single.rs:57-64 | the powers after `reverse()`: n entries, entry i is alpha^(n-1-i), highest power first |
| Algebra.Reverse | crates/stark-backend/src/prover/cpu/quotient/single.rs:73 | `Vec::reverse`: same length, entry i is entry n-1-i of the input |
| Algebra.HornerIsReversedPowerSum | crates/stark-backend/src/air_builders/verifier.rs:86-95 | the verifier's fold `acc = acc*alpha + c` from any start acc equals acc*alpha^n plus the sum of the values weighted by the reversed powers, for every extension ring |
| Algebra.HornerFromZero | crates/stark-backend/src/prover/quotient/evaluator.rs:171-187 | from a zero accumulator the verifier's Horner fold equals the prover's `accumulate` sum with powers alpha^(n-1), ..., alpha^0 |
| Algebra.HornerIsIncreasingPowerSumReversed | crates/stark-backend/src/prover/cpu/quotient/evaluator.rs:216-243 | increasing powers zipped with the reversed `constraint_idx` give the same value as the verifier's Horner fold |
| Algebra.WeightedSumReversed | crates/stark-backend/src/prover/cpu/quotient/evaluator.rs:236 | zipping reversed powers with reversed values leaves the accumulated sum unchanged |
| Algebra.WeightedSumScaled | crates/stark-backend/src/air_builders/verifier.rs:93-94 | multiplying every weight by alpha multiplies the accumulated sum by alpha (one more Horner step) |
| Packed.PAdd | crates/stark-backend/src/prover/quotient/evaluator.rs:65-76 | the sum is a base value exactly when both operands are base values, a `Challenge` otherwise |
| Packed.PSub | crates/stark-backend/src/prover/quotient/evaluator.rs:78-93 | the difference is a base value exactly when both operands are base values |
| Packed.PMul | crates/stark-backend/src/prover/quotient/evaluator.rs:95-106 | the product is a base value exactly when both operands are base values |
| Packed.PNeg | crates/stark-backend/src/prover/quotient/evaluator.rs:108-117 | negation keeps the kind of its operand |
| Packed.LiftOpsAt | crates/stark-backend/src/prover/quotient/evaluator.rs:84-88 | a mixed-kind add, sub, mul or neg equals the extension operation on the embedded operands, e.g. Val(x) - Challenge(y) lifts to embed(x) - y |
| Packed.LiftIsHom | crates/stark-backend/src/prover/cpu/quotient/evaluator.rs:56-63 | embedding into the extension commutes with every `PackedExpr` operation, so evaluating in the smallest kind never changes the extension value |
| Packed.Get | crates/stark-backend/src/prover/quotient/evaluator.rs:25-39 | `ViewPair::get`: offset 0 reads `local[col]`, offset 1 reads `next[col]`, any other offset panics |
| Packed.EvalNonVariableLeaf | crates/stark-backend/src/prover/cpu/quotient/evaluator.rs:123-134 | constants and the three row selectors evaluate to base values: the constant itself and the evaluator's `is_first_row`, `is_last_row`, `is_transition` |
| Evaluation.EvalArena | crates/stark-backend/src/air_builders/verifier.rs:59-85 | walking the nodes in stored order yields, when no leaf read panics, exactly one value per node |
| Evaluation.ArenaStep | crates/stark-backend/src/air_builders/verifier.rs:60-84 | one loop step: the walk over the first i+1 nodes is the walk over the first i extended by node i's value, computed only from earlier values |
| Evaluation.ArenaPrefix | crates/stark-backend/src/prover/cpu/quotient/evaluator.rs:187-213 | a walk that succeeds on all nodes succeeds on every prefix, with the prefix of the values |
| Evaluation.TopoPrefix | crates/stark-backend/src/air_builders/symbolic/dag.rs:47 | every prefix of a topologically ordered arena is topologically ordered |
| Evaluation.ArenaOkIffLeavesOk | crates/stark-backend/src/air_builders/verifier.rs:59-85 | the walk panics exactly when some leaf (variable) read panics; operator nodes never panic on an ordered arena |
| Evaluation.ArenaMatchesTrees | crates/stark-backend/src/air_builders/symbolic/dag.rs:143-188 | the walk gives node i the value of the tree `to_symbolic_expressions` rebuilds for node i |
| Evaluation.EvalExprErase | crates/stark-backend/src/air_builders/symbolic/dag.rs:68-69 | the value of an expression does not depend on the `Arc` addresses of its operands |
| Evaluation.EvalExprErasedEqual | crates/stark-backend/src/air_builders/symbolic/dag.rs:14 | expressions equal as Rust values (equal pointees) have equal values |
| Evaluation.RootValues | crates/stark-backend/src/air_builders/verifier.rs:86-88 | the values of the constraint roots, one per `constraint_idx` entry, in order |
| Evaluation.DagEvaluatesConstraints | crates/stark-backend/src/air_builders/verifier.rs:54-88 | evaluating the DAG built from the constraints gives each constraint the value of its own expression tree, given a cache that only identifies equal expressions |
| Evaluation.DagRootsAreTrees | crates/stark-backend/src/air_builders/verifier.rs:55-88 | when the DAG evaluates, every constraint tree evaluates and the root values are the trees' values, in order |
| Evaluation.ArenaHomomorphism | crates/stark-backend/src/prover/cpu/quotient/evaluator.rs:56-57 | evaluating the arena in one number system and mapping the results equals evaluating in the image system, for any map that commutes with the arithmetic and the leaves |
| Evaluation.NodeValueHom | crates/stark-backend/src/prover/cpu/quotient/evaluator.rs:189-211 | one node's value commutes with such a map |
| Symbolic.PointerConsistencyMakesKeysConsistent | crates/stark-backend/src/air_builders/symbolic/dag.rs:68-69 | when `Arc` addresses identify their contents, any two expressions the cache cannot tell apart are equal |
| DagBuild.Rebuild | crates/stark-backend/src/air_builders/symbolic/dag.rs:143-188 | one rebuilt expression per node |
| DagBuild.RebuildPrefix | crates/stark-backend/src/air_builders/symbolic/dag.rs:145-188 | rebuilding a prefix of the arena gives the prefix of the rebuilt expressions |
| DagBuild.RebuildPush | crates/stark-backend/src/air_builders/symbolic/dag.rs:135-136 | pushing a node whose operands are earlier nodes keeps the arena ordered and rebuilds to the old expressions plus the new node's expression |
| DagBuild.RebuildKeeps | crates/stark-backend/src/air_builders/symbolic/dag.rs:144-187 | extending the arena does not change the expression rebuilt for an existing node |
| DagBuild.TopoSortShape | crates/stark-backend/src/air_builders/symbolic/dag.rs:70-139 | a cache hit returns the cached index and changes nothing; a miss appends at least one node, returns the last index and caches it; the arena only grows and stays ordered |
| DagBuild.PushSound | crates/stark-backend/src/air_builders/symbolic/dag.rs:135-138 | pushing the node of an expression and caching it at `nodes.len()` keeps every cache entry pointing at a node that rebuilds to that expression |
| DagBuild.TopoSortCorrect | crates/stark-backend/src/air_builders/symbolic/dag.rs:70-139 | the index returned for an expression rebuilds to that expression (same operators, leaves and degree multiples) and the cache stays sound |
| DagBuild.TopoSortCorrectNeg | crates/stark-backend/src/air_builders/symbolic/dag.rs:110-116 | the same for a `Neg` missing from the cache |
| DagBuild.TopoSortCorrectBinary | crates/stark-backend/src/air_builders/symbolic/dag.rs:84-132 | the same for an `Add`, `Sub` or `Mul` missing from the cache, operands sorted left then right |
| DagBuild.BinaryNodeErase | crates/stark-backend/src/air_builders/symbolic/dag.rs:152-185 | a binary node with both operands below it rebuilds to the operator of its expression with the same `degree_multiple` |
| DagBuild.SortBinaryMiss | crates/stark-backend/src/air_builders/symbolic/dag.rs:117-138 | a binary expression missing from the cache sorts its left operand, then its right, then pushes its own node |
| DagBuild.BuildFoldShape | crates/stark-backend/src/air_builders/symbolic/dag.rs:58-65 | `constraint_idx` has one entry per input, each a valid node index, over an ordered arena |
| DagBuild.BuildFoldCorrect | crates/stark-backend/src/air_builders/symbolic/dag.rs:53-66 | each entry of `constraint_idx` rebuilds to its input expression |
| DagBuild.BuildFoldSnoc | crates/stark-backend/src/air_builders/symbolic/dag.rs:58-61 | the fold over one more input sorts it with the state left by the earlier inputs |
| DagBuild.BuildRoundTrip | crates/stark-backend/src/air_builders/symbolic/dag.rs:53-193 | the built DAG is well formed, has one root per input in input order, and each root rebuilds to its input |
| DagBuild.BuildRoundTripFromPointers | crates/stark-backend/src/air_builders/symbolic/dag.rs:68-69 | the round trip holds for every input whose `Arc` addresses identify their contents |
| DagBuild.DagBuilder.constructor | crates/stark-backend/src/air_builders/symbolic/dag.rs:56-57 | the builder starts with an empty cache and no nodes |
| DagBuild.DagBuilder.TopologicalSort | crates/stark-backend/src/air_builders/symbolic/dag.rs:70-139 | the method's index and new cache and arena are those of the recursive specification, whose shape and correctness are proved above |
| DagBuild.BuildSymbolicExprDag | crates/stark-backend/src/air_builders/symbolic/dag.rs:53-66 | the DAG is well formed with one root per input; with a sound cache each root rebuilds to its input |
| DagBuild.ToSymbolicExpressions | crates/stark-backend/src/air_builders/symbolic/dag.rs:143-193 | returns one expression per `constraint_idx` entry, in order, each the rebuilt tree of its node; panics exactly when an index points at a node not yet rebuilt |
| DagBuild.RoundTrip | crates/stark-backend/src/air_builders/symbolic/dag.rs:143-193 | `to_symbolic_expressions(build_symbolic_expr_dag(exprs))` returns `exprs`, one per input, in order |
| DagBuild.ExampleSumSorted | crates/stark-backend/src/air_builders/symbolic/dag.rs:232-244 | on the test input, `IsFirstRow * IsLastRow + 1` fills nodes 0 to 4 |
| DagBuild.ExampleLeftSorted | crates/stark-backend/src/air_builders/symbolic/dag.rs:245-255 | the second `IsFirstRow * IsLastRow` is a new node 5 and the sum a new node 6 |
| DagBuild.ExampleProductSorted | crates/stark-backend/src/air_builders/symbolic/dag.rs:245-250 | with its leaves cached, the second product's fresh operand `Arc`s make it a new `Mul{0,1}` at index 5 |
| DagBuild.ExampleExprSorted | crates/stark-backend/src/air_builders/symbolic/dag.rs:256-267 | `expr` reuses the cached constant and adds the variable and `Mul{3,7}` as nodes 7 and 8 |
| DagBuild.ExampleFirstSorted | crates/stark-backend/src/air_builders/symbolic/dag.rs:268-272 | the first constraint ends at `Add{6,8}`, node 9, with `expr` cached at 8 |
| DagBuild.ExampleSecondSorted | crates/stark-backend/src/air_builders/symbolic/dag.rs:273-277 | `expr * expr` hits the cache for `expr` and becomes `Mul{8,8}`, node 10 |
| DagBuild.WorkedExample | crates/stark-backend/src/air_builders/symbolic/dag.rs:211-281 | the test's DAG: exactly the 11 expected nodes and `constraint_idx == [9, 10]` |
| QuotientCommon.Log2Strict | crates/stark-backend/src/prover/cpu/quotient/single.rs:61 | `log2_strict_usize`: succeeds exactly on powers of two, with the exponent k such that 2^k is the input |
| QuotientCommon.NextStep | crates/stark-backend/src/prover/cpu/quotient/single.rs:61-62 | `next_step = 1 << (log2 q - log2 t)`: defined exactly when both sizes are powers of two and the trace domain is no larger (the subtraction underflows otherwise); it is a power of two with next_step * trace_size == quotient_size |
| QuotientCommon.ExponentGap | crates/stark-backend/src/prover/quotient/single.rs:52-53 | comparing the two exponents compares the sizes, and 2^(lq - lt) is their ratio |
| QuotientCommon.ReverseInPlace | crates/stark-backend/src/prover/cpu/quotient/single.rs:73 | `alpha_powers.reverse()`: the array afterwards holds the reverse of its old contents |
| QuotientCommon.ReversedPowersReverse | crates/stark-backend/src/prover/quotient/single.rs:62-64 | the increasing powers, reversed, are alpha^(n-1), ..., alpha^0 |
| QuotientCommon.AlphaPowers | crates/stark-backend/src/prover/cpu/quotient/single.rs:66-73 | the collected and reversed powers are exactly alpha^(n-1), ..., alpha^0 for n constraints |
| QuotientCommon.PaddedSelector | crates/stark-backend/src/prover/cpu/quotient/single.rs:75-83 | a padded selector keeps its `quotient_size` values, is zero beyond them, and has length max(quotient_size, WIDTH) |
| QuotientCommon.Selectors.constructor | crates/stark-backend/src/prover/cpu/quotient/single.rs:59 | the selector vectors as `selectors_on_coset` hands them over |
| QuotientCommon.Selectors.Pad | crates/stark-backend/src/prover/quotient/single.rs:69-74 | each of the four vectors gets one default (zero) pushed per row from `quotient_size` up to `WIDTH`, and nothing else changes |
| QuotientCommon.LocalRow | crates/stark-backend/src/prover/cpu/quotient/single.rs:147-152 | the local row of lane k of block i_start is `(i_start + k) mod quotient_size`, always a valid row |
| QuotientCommon.NextRow | crates/stark-backend/src/prover/cpu/quotient/single.rs:150-152 | the next row is `(i_start + k + next_step) mod quotient_size`, always a valid row |
| QuotientCommon.AdvanceIsOffset | crates/stark-backend/src/prover/quotient/single.rs:109-114 | k steps to the next row reach `(row + k * next_step) mod quotient_size` |
| QuotientCommon.NextRowWrapsAround | crates/stark-backend/src/prover/quotient/single.rs:112-114 | the next row is one trace step from the local row, and `trace_size` steps come back to it: the quotient domain is walked as a cycle of the trace domain |
| QuotientCommon.Straddle | crates/stark-backend/src/prover/cpu/quotient/single.rs:143-160 | a block starting at a multiple of WIDTH that runs past `quotient_size` means WIDTH does not divide `quotient_size` |
| QuotientCommon.AlignedEndFits | crates/stark-backend/src/prover/cpu/quotient/single.rs:143-146 | a block loop ending exactly at `quotient_size` shows the blocks fit the padded selectors |
| QuotientCommon.PowTwoBlocksFit | crates/stark-backend/src/prover/cpu/quotient/single.rs:143-148 | for power-of-two sizes, as domain sizes always are, every block slices the padded selectors in range |
| QuotientCommon.MaxOffsetIsMax | crates/stark-backend/src/prover/cpu/quotient/single.rs:87-141 | `rotation` bounds every variable's offset and equals one of them (or 0), so `needs_next` holds exactly when some variable reads a later row |
| QuotientCommon.ExtColsCoverCheckedIndices | crates/stark-backend/src/prover/cpu/quotient/single.rs:111-118 | every index below `base_width / ext_degree` names one of the extension columns the block builds by stepping over the base columns |
| QuotientEvaluator.EvalVar | crates/stark-backend/src/prover/quotient/evaluator.rs:136-167 | trace and public entries give base values, after-challenge, challenge and exposed entries extension values; a Main read succeeds exactly when the partition exists and the offset is at most 1, public, challenge and exposed reads exactly when the index is in range, and Challenge and Exposed panic with "Challenge phase not supported" without a first phase |
| QuotientEvaluator.Accumulate | crates/stark-backend/src/prover/quotient/evaluator.rs:173-187 | succeeds exactly when the node walk does, and returns the sum of the zipped products `alpha_powers[j] * value(constraint_idx[j])` over the shorter list, from zero |
| QuotientEvaluator.AccumulateReversedIsHorner | crates/stark-backend/src/prover/quotient/evaluator.rs:171-187 | with the reversed powers the caller prepares, `accumulate` equals the verifier's fold `acc = acc*alpha + c` over the constraint values in order, from zero |
| CpuEvaluator.EvalVar | crates/stark-backend/src/prover/cpu/quotient/evaluator.rs:139-167 | panics exactly on a row offset above 1 or a partition index past the partitions; trace and public entries give base values, challenge-phase entries extension values |
| CpuEvaluator.EvalNode | crates/stark-backend/src/prover/cpu/quotient/evaluator.rs:189-211 | one slot: a leaf is read, a composite node combines the slots of its operands, which come before it |
| CpuEvaluator.EvalNodesMut | crates/stark-backend/src/prover/cpu/quotient/evaluator.rs:174-214 | slot i of `exprs` receives the value of node i for every node, computed from earlier slots only; slots past the nodes are untouched |
| CpuEvaluator.SumConstraints | crates/stark-backend/src/prover/cpu/quotient/evaluator.rs:235-242 | the loop adds `alpha_powers[j] * value(constraint_idx[n-1-j])` for every constraint |
| CpuEvaluator.Accumulate | crates/stark-backend/src/prover/cpu/quotient/evaluator.rs:225-243 | fails the debug assertion exactly when there are fewer powers than constraints; otherwise equals the powers zipped with the reversed `constraint_idx` |
| CpuEvaluator.AccumulateIncreasingIsHorner | crates/stark-backend/src/prover/cpu/quotient/evaluator.rs:216-243 | with the increasing powers the documentation asks for, the sum equals the verifier's Horner fold over the constraints in order |
| QuotientSingle.MatGetInRow | crates/stark-backend/src/prover/quotient/single.rs:215-217 | `mat_get_unchecked(mat, r, c)` reads `values[r*width + c]`, which is column c of row r and in range on a full matrix |
| QuotientSingle.Scan | crates/stark-backend/src/prover/quotient/single.rs:76-103 | the scan panics exactly when a Preprocessed, Main or Permutation index is out of range (other kinds are not checked), and otherwise returns the largest offset |
| QuotientSingle.LaneEvaluator | crates/stark-backend/src/prover/quotient/single.rs:128-198 | each lane's evaluator has views of the matrices' widths (extension columns for after-challenge matrices), with a next row exactly when `needs_next` |
| QuotientSingle.ScanMakesReadable | crates/stark-backend/src/prover/quotient/single.rs:76-103 | once the scan passes, every unchecked read the lane evaluator makes is in range |
| QuotientSingle.EvalLane | crates/stark-backend/src/prover/quotient/single.rs:199-201 | one lane panics exactly when its evaluation does, and otherwise yields its quotient value |
| QuotientSingle.EvalBlock | crates/stark-backend/src/prover/quotient/single.rs:105-210 | a block panics exactly when one of its lanes does, and otherwise yields one quotient value per lane, in order |
| QuotientSingle.LanesDoneAppend | crates/stark-backend/src/prover/quotient/single.rs:105-108 | the values of consecutive blocks, concatenated, are the values of the rows they cover |
| QuotientSingle.EvalBlocks | crates/stark-backend/src/prover/quotient/single.rs:105-212 | the block walk panics exactly when a block would slice the selectors past their end or a row panics; otherwise yields `quotient_size` values, value j for row j |
| QuotientSingle.ComputeSingleRapQuotientValues | crates/stark-backend/src/prover/quotient/single.rs:31-213 | panics exactly when the sizes are not powers of two with the trace domain inside, the scan rejects an index, a block straddles the end, or a row read panics; otherwise one value per quotient-domain point, in order: that row's constraints folded with the reversed alpha powers, times the inverse of the vanishing polynomial |
| QuotientSingle.QuotientIsVerifierFold | crates/stark-backend/src/prover/quotient/single.rs:199-201 | the quotient at a point is the verifier folder's accumulator, for a folder seeing the same row and alpha, times the inverse vanishing polynomial |
| CpuQuotientSingle.CheckVar | crates/stark-backend/src/prover/cpu/quotient/single.rs:90-137 | one variable's checks fail exactly when its index is out of range for its source or its phase is missing |
| CpuQuotientSingle.Scan | crates/stark-backend/src/prover/cpu/quotient/single.rs:85-141 | panics exactly when some variable fails its checks, otherwise returns the largest offset |
| CpuQuotientSingle.ScanMakesReadable | crates/stark-backend/src/prover/cpu/quotient/single.rs:85-141 | once the scan passes, every unchecked read of the CPU evaluator is in range |
| CpuQuotientSingle.CheckHeights | crates/stark-backend/src/prover/cpu/quotient/single.rs:49-54 | panics exactly when some partitioned-main or after-challenge matrix is shorter than `quotient_size` |
| CpuQuotientSingle.EvalBlock | crates/stark-backend/src/prover/cpu/quotient/single.rs:236-247 | one value per lane, the lane's accumulated value times its inverse vanishing polynomial |
| CpuQuotientSingle.EvalBlocks | crates/stark-backend/src/prover/cpu/quotient/single.rs:143-249 | panics exactly when the blocks do not fit the padded selectors, otherwise `quotient_size` values, value j for row j |
| CpuQuotientSingle.ComputeSingleRapQuotientValues | crates/stark-backend/src/prover/cpu/quotient/single.rs:30-250 | panics exactly when a height, a size, an index or a block check fails, or a preprocessed matrix with a column has fewer rows than the quotient domain (every block reads every preprocessed column through the checked `get`); otherwise one value per quotient-domain point, in order: the evaluator's value for that row with the decreasing alpha powers, times the inverse of the vanishing polynomial |
| Verifier.ViewGet | crates/stark-backend/src/air_builders/verifier.rs:110-120 | a folder read is in range exactly when the offset is 0 and the column exists, or the offset is 1 with a next row that has the column; then it is `ViewPair::get` |
| Verifier.GenericVerifierConstraintFolder.constructor | crates/stark-backend/src/air_builders/verifier.rs:33-44 | the folder's fields as given |
| Verifier.GenericVerifierConstraintFolder.EvalVar | crates/stark-backend/src/air_builders/verifier.rs:107-132 | every read is checked: Preprocessed reads the preprocessed view, Main the partition named by the entry (and panics without it), Public the public values, Permutation the first after-challenge view and Challenge and Exposed the first phase's challenges and exposed values, panicking on an index past them; Permutation, Challenge and Exposed panic with "Challenge phase not supported" without a first phase |
| Verifier.GenericVerifierConstraintFolder.AssertZero | crates/stark-backend/src/air_builders/verifier.rs:91-95 | `accumulator := accumulator * alpha + x`, no other field changes |
| Verifier.GenericVerifierConstraintFolder.EvalNode | crates/stark-backend/src/air_builders/verifier.rs:61-83 | one node's value, from its leaf or the values of its operands |
| Verifier.GenericVerifierConstraintFolder.EvalNodes | crates/stark-backend/src/air_builders/verifier.rs:59-85 | one value per node in stored order; the first failing read panics |
| Verifier.GenericVerifierConstraintFolder.FoldRoots | crates/stark-backend/src/air_builders/verifier.rs:86-88 | `assert_zero` once per root, in order: the accumulator becomes the Horner fold of the root values from its old value |
| Verifier.GenericVerifierConstraintFolder.EvalConstraints | crates/stark-backend/src/air_builders/verifier.rs:54-89 | the accumulator becomes the Horner fold of the constraint values, which are the values of the constraint trees; a failing read panics before anything is folded |
| Verifier.EmbeddedRowMirrors | crates/stark-backend/src/air_builders/verifier.rs:107-132 | a folder built from the prover's row, base values embedded, reads every variable as the embedding of the prover's read |
| Verifier.QuotientAgreesWithVerifier | crates/stark-backend/src/prover/quotient/evaluator.rs:171-187 | prover and verifier agree: the prover's `accumulate` with reversed powers equals the folder's accumulator from zero, on a row both see |
| KeyView.View | crates/stark-backend/src/keygen/view.rs:18-22 | `view(air_ids)`: succeeds exactly when every id names an AIR, and then holds the key of each listed id, in the order listed |
| KeyView.Range | crates/stark-backend/src/keygen/view.rs:16 | `0..n` collected: the indices below n, in order |
| KeyView.FullViewIsAll | crates/stark-backend/src/keygen/view.rs:14-17 | the full view is the whole list of keys, in order, and never panics |
| KeyView.PreprocessedCommits | crates/stark-backend/src/keygen/view.rs:26-36 | one entry per AIR, present exactly when that AIR has a preprocessed trace, and then its commitment |
| KeyView.Somes | crates/stark-backend/src/keygen/view.rs:40 | flattening options keeps only present values |
| KeyView.SomesComplete | crates/stark-backend/src/keygen/view.rs:40 | flattening options keeps every present value |
| KeyView.SomesAppend | crates/stark-backend/src/keygen/view.rs:40 | flattening distributes over concatenation and yields one value per present entry, so it keeps their order |
| KeyView.FlattenedPreprocessedCommits | crates/stark-backend/src/keygen/view.rs:38-41 | only commitments of AIRs that have a preprocessed trace, at most one per AIR |
| KeyView.NumPhases | crates/stark-backend/src/keygen/view.rs:43-55 | panics exactly when some AIR's phase lists (widths, challenge counts, exposed-value counts) differ in length; otherwise the largest number of phases, and 0 without AIRs |
| KeyView.ChallengesInPhase | crates/stark-backend/src/keygen/view.rs:65-68 | the challenge counts of phase p are exactly those of the AIRs that have phase p, and none when no AIR has it |
| KeyView.PhaseCountsCons | crates/stark-backend/src/keygen/view.rs:65-68 | the counts of phase p over a list of AIRs are those of its first AIR followed by those of the rest |
| KeyView.NumChallengesInPhase | crates/stark-backend/src/keygen/view.rs:64-71 | panics exactly when no AIR has phase p ("No challenges used in challenge phase"); otherwise the largest challenge count of that phase, taken from some AIR |
| KeyView.NumChallengesPerPhase | crates/stark-backend/src/keygen/view.rs:57-62 | fails exactly when `num_phases` does; otherwise one entry per phase, entry p being `num_challenges_in_phase(p)` |
| KeyView.PhasesBelowNumPhasesUsed | crates/stark-backend/src/keygen/view.rs:57-71 | with consistent phase lists every phase below `num_phases` is used by some AIR, so `num_challenges_per_phase` never reaches the panic of `num_challenges_in_phase` |
| Interaction.InteractionRecorder.constructor | crates/stark-backend/src/interaction/mod.rs:44-79 | a builder starts with no stored interactions |
| Interaction.InteractionRecorder.NumInteractions | crates/stark-backend/src/interaction/mod.rs:74-75 | the count of stored interactions is the length of `all_interactions` |
| Interaction.InteractionRecorder.PushInteraction | crates/stark-backend/src/interaction/mod.rs:65-72 | stores exactly one interaction, with the given fields, count, bus and type, after the earlier ones, which are kept |
| Interaction.InteractionRecorder.PushSend | crates/stark-backend/src/interaction/mod.rs:45-53 | `push_interaction` with `Send` |
| Interaction.InteractionRecorder.PushReceive | crates/stark-backend/src/interaction/mod.rs:55-63 | `push_interaction` with `Receive` |
| Interaction.Shape | crates/stark-backend/src/interaction/mod.rs:121-132 | no phase for `None`; for `FriLogUp` one phase, with the LogUp challenge and exposed-value counts and no extra opening rotations |
| Rap.ConstraintRecorder.constructor | crates/stark-backend/src/rap.rs:57-152 | the innermost builder starts with no recorded constraints |
| Rap.Builder.constructor | crates/stark-backend/src/rap.rs:202-205 | a builder is a recorder behind a chain of filter conditions |
| Rap.Builder.IsTransition | crates/stark-backend/src/rap.rs:89-91 | `is_transition` is the transition window of two rows |
| Rap.Builder.AssertZero | crates/stark-backend/src/rap.rs:235-237 | `assert_zero` through the filters records one base constraint, x multiplied on the left by every condition, innermost last; the extension constraints are unchanged |
| Rap.Builder.AssertZeroExt | crates/stark-backend/src/rap.rs:245-250 | `assert_zero_ext` records one extension constraint, x multiplied on the right by every condition; the base constraints are unchanged |
| Rap.Builder.AssertOne | crates/stark-backend/src/rap.rs:133-135 | records the filtered `x - 1` |
| Rap.Builder.AssertEq | crates/stark-backend/src/rap.rs:137-139 | records the filtered `x - y` |
| Rap.Builder.AssertBool | crates/stark-backend/src/rap.rs:141-145 | records the filtered `x * (x - 1)` |
| Rap.Builder.AssertTern | crates/stark-backend/src/rap.rs:147-151 | records the filtered `x * (x - 1) * (x - 2)` |
| Rap.Builder.AssertEqExt | crates/stark-backend/src/rap.rs:175-181 | records the filtered extension constraint `x - y` |
| Rap.Builder.AssertOneExt | crates/stark-backend/src/rap.rs:183-188 | records the filtered extension constraint `x - 1` |
| Rap.Builder.When | crates/stark-backend/src/rap.rs:94-100 | `when(c)`: a fresh filter over the same recorder, with c added innermost |
| Rap.Builder.WhenNe | crates/stark-backend/src/rap.rs:102-109 | `when_ne(x, y)`: filters by `x - y` |
| Rap.Builder.WhenFirstRow | crates/stark-backend/src/rap.rs:111-114 | filters by `is_first_row` |
| Rap.Builder.WhenLastRow | crates/stark-backend/src/rap.rs:116-119 | filters by `is_last_row` |
| Rap.Builder.WhenTransition | crates/stark-backend/src/rap.rs:121-124 | filters by the two-row transition window |
| Rap.Builder.WhenTransitionWindow | crates/stark-backend/src/rap.rs:126-129 | filters by the transition window of the given size |
| Rap.GuardMeaning | crates/stark-backend/src/rap.rs:94-100 | a filtered constraint is the constraint itself on rows where every condition is one, and vanishes on rows where some condition is zero or where the constraint itself vanishes |
| Rap.GuardExtMeaning | crates/stark-backend/src/rap.rs:245-250 | the same for extension constraints, whose conditions multiply on the right |
| Rap.DefaultsMeaning | crates/stark-backend/src/rap.rs:133-151 | `assert_one(x)` vanishes exactly where x is one, `assert_eq(x, y)` exactly where x and y agree; `assert_bool` vanishes on 0 and 1, `assert_tern` on 0, 1 and 2 |
| Rap.FindFrom | crates/stark-backend/src/rap.rs:340 | the first occurrence of the separator at or after a position, or none |
| Rap.Split | crates/stark-backend/src/rap.rs:340 | `split(pat)` yields at least one piece, and the last piece holds no separator |
| Rap.LastSegment | crates/stark-backend/src/rap.rs:340 | `split("::").last()` holds no `::` |
| Rap.TrimEndAngles | crates/stark-backend/src/rap.rs:344 | `trim_end_matches('>')` removes exactly a run of trailing `>` |
| Rap.SplitOnceAngle | crates/stark-backend/src/rap.rs:338 | `split_once('<')`: none exactly when there is no `<`; otherwise the parts around the first `<` |
| Rap.LastSegments | crates/stark-backend/src/rap.rs:345-350 | the last segment of every generic argument, in order |
| Rap.GetAirName | crates/stark-backend/src/rap.rs:335-358 | the name holds no `::`; without generics it is the part of the type name after its last `::`; with generics it is that last segment of the part before the first `<`, then `<`, the last segments of the comma-separated generic arguments (trailing `>` trimmed) joined by `, `, and `>` |
| Rap.LastSegmentIsSuffix | crates/stark-backend/src/rap.rs:355-356 | the last segment is a suffix that follows a `::` or is the whole name |
| Rap.LastPieceStep | crates/stark-backend/src/rap.rs:340 | past the first separator, the last piece is the last piece of the rest |
| Rap.SplitSuffix | crates/stark-backend/src/rap.rs:340 | the last piece follows a prefix that is empty or ends in the separator |
| Rap.JoinFree | crates/stark-backend/src/rap.rs:352-353 | pieces without `::` joined with ", " hold no `::` |
| Rap.AirNameExample | crates/stark-backend/src/rap.rs:334-358 | `air::Fib` is named `Fib` |
| Rap.GenericAirName | crates/stark-backend/src/rap.rs:335-358 | `path::Name<path1::Gen1, path2::Gen2>` is named `Name<Gen1, Gen2>` for any colon-free segments, e.g. `a::Foo<b::Bar, c::Baz>` gives `Foo<Bar, Baz>` |
| Rap.GenericsLastSegments | crates/stark-backend/src/rap.rs:342-350 | the generics part `path1::Gen1, path2::Gen2>` of a type name splits at `, ` after the trailing `>` is trimmed, and each argument keeps its last segment, giving `[Gen1, Gen2]` |
| Rap.WithoutGenerics | crates/stark-backend/src/rap.rs:354-357 | without `<` the name is the last `::` piece |
| DummyAir.FieldCol | crates/stark-sdk/src/dummy_airs/interaction/dummy_interaction_air.rs:28-35 | field i sits in column i + 1, never the count column 0 |
| DummyAir.New | crates/stark-sdk/src/dummy_airs/interaction/dummy_interaction_air.rs:49-57 | a new AIR has the given width, direction and bus, no count weight, and is not partitioned |
| DummyAir.Partition | crates/stark-sdk/src/dummy_airs/interaction/dummy_interaction_air.rs:59-64 | `partition` changes only the partition flag, which it sets |
| DummyAir.CachedMainWidths | crates/stark-sdk/src/dummy_airs/interaction/dummy_interaction_air.rs:73-79 | one cached trace of the field width when partitioned, none otherwise |
| DummyAir.CommonMainWidth | crates/stark-sdk/src/dummy_airs/interaction/dummy_interaction_air.rs:80-86 | the common main trace has at least the count column |
| DummyAir.WidthsAddUp | crates/stark-sdk/src/dummy_airs/interaction/dummy_interaction_air.rs:72-91 | common and cached widths add up to `width = 1 + field_width` in both layouts |
| DummyAir.WeightedInteractionRecorder.constructor | crates/stark-sdk/src/dummy_airs/interaction/dummy_interaction_air.rs:98 | a builder with no interactions pushed |
| DummyAir.WeightedInteractionRecorder.PushInteraction | crates/stark-sdk/src/dummy_airs/interaction/dummy_interaction_air.rs:116 | stores one interaction with its count weight after the earlier ones |
| DummyAir.FieldCells | crates/stark-sdk/src/dummy_airs/interaction/dummy_interaction_air.rs:100-114 | the fields are columns 1.. of the current main row, or the whole current row of the one cached trace when partitioned |
| DummyAir.Eval | crates/stark-sdk/src/dummy_airs/interaction/dummy_interaction_air.rs:98-125 | `eval` pushes exactly one interaction on the AIR's bus: the field cells, multiplicity `count` for a sender and `NEG_ONE * count` for a receiver, with the AIR's weight |
| DummyAir.EvalMeaning | crates/stark-sdk/src/dummy_airs/interaction/dummy_interaction_air.rs:98-125 | on a row holding `count` and `fields`, in either layout, the message is the fields and the multiplicity is `count` for a sender and `-count` in the field for a receiver |
| DummyAir.CheckData | crates/stark-sdk/src/dummy_airs/interaction/dummy_interaction_air.rs:170-176 | the asserts pass exactly when there are as many field rows as counts, at least one (the width is read from `fields[0]`), each of the AIR's field width |
| DummyAir.NextPowerOfTwo | crates/stark-sdk/src/dummy_airs/interaction/dummy_interaction_air.rs:194 | `next_power_of_two`: the least power of two at least n |
| DummyAir.FlattenLength | crates/stark-sdk/src/dummy_airs/interaction/dummy_interaction_air.rs:201-205 | flattening h rows of width w gives h * w values |
| DummyAir.FlattenRow | crates/stark-sdk/src/dummy_airs/interaction/dummy_interaction_air.rs:201-206 | row k of the flattened matrix is the k-th row |
| DummyAir.TraceRows | crates/stark-sdk/src/dummy_airs/interaction/dummy_interaction_air.rs:232-233 | row i of the unpartitioned trace is `count[i]` followed by `fields[i]` |
| DummyAir.UnpartitionedTrace | crates/stark-sdk/src/dummy_airs/interaction/dummy_interaction_air.rs:222-239 | `generate_traces_without_partition` panics exactly when the data do not fit; otherwise a matrix of width w + 1 with `(w + 1) * h.next_power_of_two()` values |
| DummyAir.UnpartitionedLayout | crates/stark-sdk/src/dummy_airs/interaction/dummy_interaction_air.rs:232-238 | row k of that trace is `[count[k]] ++ fields[k]` for k below h, and zero from h up to the next power of two |
| DummyAir.UnpartitionedShape | crates/stark-sdk/src/dummy_airs/interaction/dummy_interaction_air.rs:232-235 | the trace is the rows laid out back to back followed by zeros |
| DummyAir.RowInPrefix | crates/stark-sdk/src/dummy_airs/interaction/dummy_interaction_air.rs:234 | appending values leaves the earlier rows unchanged |
| DummyAir.RowInZeros | crates/stark-sdk/src/dummy_airs/interaction/dummy_interaction_air.rs:234 | a row that lies in the appended zeros is a zero row |
| DummyAir.GenerateTracesWithPartition | crates/stark-sdk/src/dummy_airs/interaction/dummy_interaction_air.rs:181-213 | panics exactly when the data do not fit; otherwise the count column padded with zeros to the next power of two of rows, and a cached trace of width w whose row k is `fields[k]` below h and zero after |
| DummyAir.DummyInteractionChip.constructor | crates/stark-sdk/src/dummy_airs/interaction/dummy_interaction_air.rs:149-169 | `new_without_partition` / `new_with_partition`: no data yet, the AIR partitioned exactly when a device is held |
| DummyAir.DummyInteractionChip.LoadData | crates/stark-sdk/src/dummy_airs/interaction/dummy_interaction_air.rs:170-178 | panics exactly when the data do not fit, leaving the chip unchanged; otherwise stores the data, and the trace height becomes the number of counts |
| DummyAir.DummyInteractionChip.CurrentTraceHeight | crates/stark-sdk/src/dummy_airs/interaction/dummy_interaction_air.rs:278-284 | 0 before any data is loaded |
| DummyAir.DummyInteractionChip.TraceWidth | crates/stark-sdk/src/dummy_airs/interaction/dummy_interaction_air.rs:286-288 | the AIR's width, `field_width + 1` |
| Utils.InverseAllowingZero | crates/stark-backend/src/utils.rs:10-35 | one entry per input entry |
| Utils.InverseAllowingZeroMeaning | crates/stark-backend/src/utils.rs:10-13 | zeros stay zero and every nonzero entry is replaced by its multiplicative inverse |
| Utils.NonzeroEntries | crates/stark-backend/src/utils.rs:14-23 | the first loop collects exactly the nonzero entries, with their positions, in increasing order of position |
| Utils.BatchMultiplicativeInverseAllowingZero | crates/stark-backend/src/utils.rs:13-35 | the copy with each inverse written back at its position is the input with every nonzero entry inverted and zeros kept |
| Utils.SequentialSlices | crates/stark-backend/src/utils.rs:51-54 | without the `parallel` feature the closure gets the whole slice, at offset 0 |
| Utils.SplitLayout | crates/stark-backend/src/utils.rs:80-87 | the split point lies inside the slice: after it come `n - t % n` slices of the shorter size and the `len % c` leftover entries |
| Utils.Chunks | crates/stark-backend/src/utils.rs:92-101 | `count` consecutive chunks of one size |
| Utils.ChunksSnoc | crates/stark-backend/src/utils.rs:92-101 | one more chunk is the old chunks followed by the slice after them |
| Utils.TwoRunsLayout | crates/stark-backend/src/utils.rs:89-104 | the two loops spawn `m` slices of the longer size and then, unless it is zero, `count` of the shorter, back to back from offset 0 |
| Utils.ParallelizeChunks | crates/stark-backend/src/utils.rs:45-106 | panics exactly when the chunk size is zero or does not divide the length (the debug assertion); otherwise spawns the slices of the split, in order |
| Utils.LoCount | crates/stark-backend/src/utils.rs:98-103 | the second loop spawns one slice for each thread from the cutoff on |
| Utils.SpawnRun | crates/stark-backend/src/utils.rs:92-95 | one loop spawns `count` slices of one size, each starting where the previous one ends |
| Utils.ParallelSlicesLayout | crates/stark-backend/src/utils.rs:55-104 | the first `t % n` slices are one chunk longer than the rest, no slice is empty, each is a whole number of chunks, each starts where the previous one ends, from offset 0 to `t * c`; none exactly when there are no whole chunks |
| Utils.SplitSizes | crates/stark-backend/src/utils.rs:80-86 | both sizes are whole numbers of chunks, the shorter one is empty exactly when there are fewer chunks than threads, and the slices hold all `len / c` chunks |
| Utils.ParallelCoversSequential | crates/stark-backend/src/utils.rs:40-106 | when the chunk size divides the length, as the function assumes, the parallel slices cover the same range as the sequential call |
| CpuProver.LogHeightU8 | crates/stark-backend/src/prover/cpu/mod.rs:110-111 | `log2_strict_usize(height).try_into::<u8>().unwrap()` succeeds exactly on a power of two whose exponent fits in a byte, and returns that exponent |
| CpuProver.CommitTraces | crates/stark-backend/src/prover/cpu/mod.rs:105-125 | `commit` panics exactly when some height is not such a power of two; otherwise one log height per trace, in order, each the exponent of its height, next to what the commitment scheme returns |
| CpuProver.RunningIndices | crates/stark-backend/src/prover/cpu/mod.rs:174-198 | one running index per AIR |
| CpuProver.PartiallyProve | crates/stark-backend/src/prover/cpu/mod.rs:129-232 | panics when the trace views do not match the AIRs; without phase data it needs `num_phases() == 0` and returns no views and no commitment; with it, exactly one phase whose challenge count matches, one view per AIR numbered by the running index, and a permutation commitment exactly when some AIR has a permutation trace |
| CpuProver.CheckPhaseShape | crates/stark-backend/src/prover/cpu/mod.rs:177-185 | passes exactly when the key's challenge count for phase 0 is the number drawn and every AIR has its exposed values next to its trace (`zip_eq`) |
| CpuProver.NumberPermTraces | crates/stark-backend/src/prover/cpu/mod.rs:182-198 | one view per AIR: the running matrix index when it has a permutation trace, the phase's challenges, and its exposed values or an empty list |
| CpuProver.CommitPermTraces | crates/stark-backend/src/prover/cpu/mod.rs:207-226 | at most one commitment, present exactly when some permutation trace exists, and then the commitment of the present traces in AIR order |
| CpuProver.CountSomeSnoc | crates/stark-backend/src/prover/cpu/mod.rs:188-191 | the running index advances by one exactly at an AIR with a permutation trace |
| CpuProver.SomesAll | crates/stark-backend/src/prover/cpu/mod.rs:211-216 | a property holds of every flattened trace exactly when it holds of every present one |
| CpuProver.SomesAllCommittable | crates/stark-backend/src/prover/cpu/mod.rs:211-219 | the flattened traces are committable exactly when every present permutation trace is |
| CpuProver.RunningIndicesConsecutive | crates/stark-backend/src/prover/cpu/mod.rs:174-198 | AIRs with a permutation trace get matrix indices 0, 1, 2, ... in AIR order, with no gaps |
| CpuProver.CommonMainPresence | crates/stark-backend/src/prover/cpu/mod.rs:257-289 | which AIRs have a common main trace |
| CpuProver.PhaseEntry | crates/stark-backend/src/prover/cpu/mod.rs:301-311 | the view of an AIR in a phase is present exactly when that phase lists the AIR and its view has a matrix |
| CpuProver.PhaseEntries | crates/stark-backend/src/prover/cpu/mod.rs:297-312 | one entry per zipped phase, in order |
| CpuProver.TrimTrailingNoneMeaning | crates/stark-backend/src/prover/cpu/mod.rs:313-319 | popping trailing `None`s keeps a prefix that is empty or ends in a present entry and drops only absent entries |
| CpuProver.PopTrailingNone | crates/stark-backend/src/prover/cpu/mod.rs:313-319 | the `while let` loop leaves exactly that prefix |
| CpuProver.UnwrapOrDefault | crates/stark-backend/src/prover/cpu/mod.rs:320-323 | every remaining absent entry becomes the default view, present ones are kept |
| CpuProver.CachedRefs | crates/stark-backend/src/prover/cpu/mod.rs:273-282 | the cached main partitions of an AIR, in order |
| CpuProver.LogTraceHeight | crates/stark-backend/src/prover/cpu/mod.rs:257-261 | with a common main, the entry at `common_main_idx` of the common main log heights, which must exist; otherwise `log2_strict` of the first cached view's height, which must exist and be a power of two |
| CpuProver.ByteLogOfUsize | crates/stark-backend/src/prover/cpu/mod.rs:260 | the `as u8` cast keeps the exponent of a `usize` power of two |
| CpuProver.ExtendedViewMeaning | crates/stark-backend/src/prover/cpu/mod.rs:255-325 | an extended view has the AIR's public values, a preprocessed view exactly when it has a preprocessed trace, the cached partitions in order followed by the common main when there is one, and one view per phase up to the last phase where the AIR has a matrix, defaults elsewhere |
| CpuProver.CommonMainIndicesConsecutive | crates/stark-backend/src/prover/cpu/mod.rs:252-290 | `common_main_idx` advances only at AIRs with a common main, so those AIRs read entries 0, 1, 2, ... in order |
| CpuProver.ExtendedViews | crates/stark-backend/src/prover/cpu/mod.rs:252-327 | one extended view per AIR up to the shortest of the three lists, each as above; panics exactly when one of them does |
| CpuProver.ExtendedViewOf | crates/stark-backend/src/prover/cpu/mod.rs:255-326 | the loop body computes the extended view of one AIR |
| CpuProver.TransportPreprocessed | crates/stark-backend/src/prover/cpu/mod.rs:427-437 | a preprocessed trace goes alone into its commitment, at matrix index 0, with one log height, the exponent of its height |
| CpuProver.TransportPkToDevice | crates/stark-backend/src/prover/cpu/mod.rs:411-452 | panics exactly when more AIRs are requested than exist, an id is out of range, or a listed preprocessed trace height is not a power of two; otherwise the keys of the listed AIRs in the order listed, each keeping its key and carrying its preprocessed trace when it has one |
| CpuProver.TransportAllAirs | crates/stark-backend/src/prover/cpu/mod.rs:411-452 | transporting every AIR in order keeps the whole key |
| FriParams.ConjecturedSecurityBits | crates/stark-sdk/src/config/fri_params.rs:15-23 | `min(challenge_field_bits, num_queries * log_blowup + proof_of_work_bits)`, equation (19) of section 5.10.1 of the ethSTARK paper without its `- 1`: no more than either bound and equal to one of them; panics exactly when the `usize` arithmetic overflows |
| FriParams.StandardFriParamsWith100BitsConjecturedSecurity | crates/stark-sdk/src/config/fri_params.rs:55-93 | the table: blowup 1 gives (100 queries, 16 bits of grinding), 2 gives (44, 16), 3 gives (30, 16), 4 gives (23, 16), all with final polynomial length 0; any other blowup panics |
| FriParams.StandardIsSecure | crates/stark-sdk/src/config/fri_params.rs:58-90 | every entry of the table reaches 100 conjectured bits with any challenge field of at least 100 bits, so its assertion never fails |
| FriParams.StandardFast | crates/stark-sdk/src/config/fri_params.rs:25-27 | `standard_fast` is the blowup-1 entry |
| FriParams.MaxConstraintDegree | crates/stark-sdk/src/config/fri_params.rs:33-35 | `(1 << log_blowup) + 1`: panics exactly when the shift overflows a `usize`; otherwise one more than a power of two with exponent `log_blowup` |
| FriParams.Pow2Below64 | crates/stark-sdk/src/config/fri_params.rs:34 | below 64 the result fits in a `usize` |
| FriParams.Log2StrictOfPow2 | crates/stark-sdk/src/config/fri_params.rs:34 | the exponent of 2^k is k |
| FriParams.NewForTesting | crates/stark-sdk/src/config/fri_params.rs:37-52 | with `OPENVM_FAST_TEST` set to "1", two queries, no grinding and final polynomial length 0; otherwise the standard entry |
| FriParams.SecurityStandardFast | crates/stark-sdk/src/config/fri_params.rs:102-107 | the fast FRI entry with the LogUp parameters |
| FriParams.Standard100BitsWithFriLogBlowup | crates/stark-sdk/src/config/fri_params.rs:108-113 | fails exactly when the table has no entry; otherwise that entry with the LogUp parameters |
| SdkUtils.Zip | crates/stark-sdk/src/utils.rs:33 | `zip` pairs entries up to the shorter list |
| SdkUtils.Unzip | crates/stark-sdk/src/utils.rs:44 | `unzip` splits pairs into their components, in order |
| SdkUtils.UnzipZip | crates/stark-sdk/src/utils.rs:33-44 | unzipping undoes zipping lists of equal length |
| SdkUtils.Insert | crates/stark-sdk/src/utils.rs:33-43 | one insertion step of the sort adds exactly the new pair |
| SdkUtils.SortByHeightDesc | crates/stark-sdk/src/utils.rs:33-43 | `sorted_by_key(Reverse(height))` returns a permutation of its input |
| SdkUtils.InsertSorted | crates/stark-sdk/src/utils.rs:34-43 | inserting into a list of non-increasing heights keeps it non-increasing |
| SdkUtils.InsertMembers | crates/stark-sdk/src/utils.rs:33-43 | inserting adds the new pair and nothing else |
| SdkUtils.SortByHeightDescSorted | crates/stark-sdk/src/utils.rs:33-43 | the sorted list has non-increasing heights, a common main's height or 0 without one, and is a permutation of the input |
| SdkUtils.ProofInputForTest.constructor | crates/stark-sdk/src/utils.rs:13-16 | the AIRs and proof inputs as given |
| SdkUtils.ProofInputForTest.RunTest | crates/stark-sdk/src/utils.rs:19-25 | panics exactly when the AIRs and proof inputs differ in number; otherwise the engine's outcome |
| SdkUtils.ProofInputForTest.SortChips | crates/stark-sdk/src/utils.rs:30-47 | the AIRs and inputs become the unzipped sort of their zipped pairs, as long as the shorter list |
| SdkUtils.SortChipsMeaning | crates/stark-sdk/src/utils.rs:26-47 | after `sort_chips` the heights do not increase and the (AIR, proof input) pairs are exactly those of the input, each AIR still next to its own input |
| SdkUtils.ToBeBytes | crates/stark-sdk/src/utils.rs:57 | `to_be_bytes` of an n-byte integer has n bytes |
| SdkUtils.BeBytesRoundTrip | crates/stark-sdk/src/utils.rs:57 | reading the big-endian bytes back gives the integer |
| SdkUtils.DefaultSeed | crates/stark-sdk/src/utils.rs:51-54 | `create_seeded_rng` uses 32 bytes of 42 |
| SdkUtils.SeedFromU64 | crates/stark-sdk/src/utils.rs:56-61 | a 32-byte seed whose bytes 0..24 are zero and whose bytes 24..32 read back, big-endian, as the `u64` |
| SdkUtils.SeedFromU64Injective | crates/stark-sdk/src/utils.rs:56-61 | different `u64` seeds give different seeds |
| SdkUtils.ToFieldVec | crates/stark-sdk/src/utils.rs:78-80 | `to_field_vec` keeps length, order and every (canonical) value |
| SdkUtils.GenerateRandomMatrix | crates/stark-sdk/src/utils.rs:63-76 | `height` rows of `width` entries, entry (i, j) the (i * width + j)-th drawn value reduced into the field |
| SdkUtils.RandomRow | crates/stark-sdk/src/utils.rs:70-74 | one row of `width` consecutive drawn values, reduced |
| FibTriplesAir.FibConstraints | crates/stark-backend/tests/fib_triples_air/air.rs:37-54 | `eval` records exactly seven constraints: three on the first row, three on transitions, one on the last row |
| FibTriplesAir.Eval | crates/stark-backend/tests/fib_triples_air/air.rs:24-55 | `eval` appends exactly those seven constraints, guarded by the builder's conditions, and records no extension constraint |
| FibTriplesAir.GuardedEq | crates/stark-backend/tests/fib_triples_air/air.rs:37-41 | an `assert_eq` under a 0/1 selector vanishes exactly when the selector is off or the two sides agree |
| FibTriplesAir.ColumnValues | crates/stark-backend/tests/fib_triples_air/air.rs:26-35 | `local`, `next` and the public values `a`, `b`, `x` read columns 0-2 of rows 0 and 1 and public values 0-2 |
| FibTriplesAir.FirstRowMeaning | crates/stark-backend/tests/fib_triples_air/air.rs:37-41 | the first-row constraints vanish iff, on the first row, left = a, middle = b and right = left + middle |
| FibTriplesAir.TransitionMeaning | crates/stark-backend/tests/fib_triples_air/air.rs:43-52 | the transition constraints vanish iff, on a transition, next.left = middle, next.middle = right and next.right = middle + right |
| FibTriplesAir.FibConstraintsMeaning | crates/stark-backend/tests/fib_triples_air/air.rs:37-54 | all seven constraints vanish iff the first-row, transition and last-row (right = x) relations all hold |
| FibTriplesAir.FibTraceCells | crates/stark-backend/tests/integration_test.rs:49-63 | row i of the test trace holds F_i, F_(i+1), F_(i+2) and the public values are 0, 1 and F_(n+1) |
| FibTriplesAir.FibTraceNextCells | crates/stark-backend/tests/integration_test.rs:49-63 | below the last row, the next-row window of row i holds row i + 1 |
| FibTriplesAir.FibTraceSatisfies | crates/stark-backend/tests/integration_test.rs:45-67 | the Fibonacci trace with a = 0, b = 1 and x = get_fib_number(n + 1) satisfies every constraint on every row |
| FibOracles.FibMonotone | crates/stark-backend/tests/integration_test.rs:268-277 | the Fibonacci numbers the oracle walks are non-decreasing |
| FibOracles.CountTrue | crates/stark-backend/tests/integration_test.rs:279-290 | the number of selected positions is at most the number of selectors |
| FibOracles.FibOracle | crates/stark-backend/tests/integration_test.rs:268-277 | `get_fib_number(n)` succeeds iff n >= 1 (else `n - 1` underflows) and F_n fits in a u32, and then returns F_n |
| FibOracles.ConditionalFibOracle | crates/stark-backend/tests/integration_test.rs:279-290 | `get_conditional_fib_number` succeeds iff sels is non-empty and F_(t+1) fits in a u32, t the selected positions before the last, and then returns F_(t+1) |
| FibOracles.GetFibNumber | crates/stark-backend/tests/integration_test.rs:268-277 | the loop returns exactly the oracle's result, including the underflow and overflow panics |
| FibOracles.GetConditionalFibNumber | crates/stark-backend/tests/integration_test.rs:279-290 | the selector loop returns exactly the conditional oracle's result, including its panics |
| FibOracles.CountTrueMonotone | crates/stark-backend/tests/integration_test.rs:282 | a prefix of the selectors has no more selected positions than the whole |
| FibOracles.AllSelectedIsFib | crates/stark-backend/tests/integration_test.rs:268-290 | with every selector set, `get_conditional_fib_number(sels)` equals `get_fib_number(sels.len())` |
| FibOracles.AllTrueCount | crates/stark-backend/tests/integration_test.rs:282-283 | with every selector set, all positions are counted |
| FibOracles.NoneSelectedIsOne | crates/stark-backend/tests/integration_test.rs:279-290 | with no selector set before the last, the result is 1 |
| FibOracles.NoTrueCount | crates/stark-backend/tests/integration_test.rs:282-283 | with no selector set, none is counted |
| FibOracles.LastSelectorIgnored | crates/stark-backend/tests/integration_test.rs:282 | the last selector never changes the result |
| PartitionedSumAir.WidthsAgree | crates/stark-backend/tests/partitioned_sum_air/air.rs:18-29 | the common main width and the cached widths add up to `width()` |
| PartitionedSumAir.Columns | crates/stark-backend/tests/partitioned_sum_air/air.rs:31-33 | `columns()` always panics |
| PartitionedSumAir.YSumIsRowSum | crates/stark-backend/tests/partitioned_sum_air/air.rs:43-46 | `y_sum` evaluates to the field sum of the cached row |
| PartitionedSumAir.SumConstraintMeaning | crates/stark-backend/tests/partitioned_sum_air/air.rs:49 | the constraint vanishes on a row iff x equals the field sum of the y row |
| PartitionedSumAir.Eval | crates/stark-backend/tests/partitioned_sum_air/air.rs:36-50 | `eval` succeeds iff there is exactly one cached partition (and a common column to read), then appends the single guarded constraint x - y_sum; on a panic nothing is recorded |

## Left out

- Verifier.GenericVerifierConstraintFolder.EvalConstraints: `eval_constraints` builds its DAG with `build_symbolic_constraints_dag(constraints, &[])` (crates/stark-backend/src/air_builders/verifier.rs:55), which is not part of this model; the model takes the `.constraints` part of that DAG, with no interactions, to be `build_symbolic_expr_dag` of the constraints (`DagBuild.BuildSpec`), so a different node order or sharing in that function is not captured.
- **Polynomial commitments.** `Pcs::commit`, `get_evaluations_on_domain`, the domain constructors, `selectors_on_coset`, `split_evals` and `OpeningProver::open` are calls into the Plonky3 library. Their results (LDE matrices, selector vectors, inverse vanishing values, commitments) are parameters of the model.
- **The challenger.** The sampling of `alpha` and `zeta` is Fiat–Shamir transcript machinery outside these files, so `alpha` is a parameter.
- **SIMD packing.** `PackedVal`/`PackedChallenge` and the final transpose in `prover/cpu/quotient/single.rs` are not modelled. One lane (one row) is evaluated at a time, and a block is the sequence of its lanes' values.
- **Parallelism.** `into_par_iter` and `rayon::scope` run sequentially in the model. Only the slice arithmetic of `parallelize_chunks` is modelled.
- **Pointer identity.** `Arc` pointer identity in the DAG cache is modelled by an explicit address beside every operand. The exact sharing pattern is not modelled beyond the worked example in `dag.rs`.
- **`unsafe` code.** The raw-pointer writes of `eval_nodes_mut` become ordinary writes into a Dafny array. The unchecked reads become preconditions.
- **Concrete fields.** BabyBear and extension-field internals are not modelled. The base field is integers modulo `P`, and the extension is an abstract commutative ring that embeds it. `p3_field::batch_multiplicative_inverse` is specified as the inverse of each element.
- **LogUp constants.** `STARK_LU_NUM_CHALLENGES` and `STARK_LU_NUM_EXPOSED_VALUES` come from `interaction/fri_log_up.rs`, which is not part of this model. They are taken as 2 and 1.
- **LogUp parameters.** `config/log_up_params.rs` is not part of this model. `SecurityParameters` takes its LogUp parameters as an opaque value.
- **Unshown LogUp machinery.** LogUp trace generation, bus checking and height constraints live in files that are not part of this model.
- **Configuration and drivers.** Engine configurations (hashes and permutations), metrics and tracing, `hal.rs` (traits only), `quotient/mod.rs` (delegation to the PCS), and the end-to-end test drivers and examples are not modelled.
- **The random number generator.** `create_seeded_rng` is represented by its seed. The values a generator draws are a parameter of `SdkUtils.GenerateRandomMatrix`.
- **Device commitments.** The commitment `generate_traces_with_partition` obtains from the device, and the assembly of `AirProofInput` in `generate_air_proof_input`, are not modelled. Only the traces are.
- **CPU accumulate signature.** `prover/cpu/quotient/single.rs` calls `accumulate` with two arguments, but the CPU evaluator's `accumulate` takes three. The CPU quotient driver therefore takes the evaluator's per-row result as a parameter, and the two CPU files are not composed.
- **CPU alpha powers.** The CPU evaluator documents increasing alpha powers and contradicts itself in its own comment, while the CPU driver passes decreasing ones. `CpuEvaluator.AccumulateIncreasingIsHorner` proves the Horner equality for the documented order. The prover–verifier equality is proved for the generic prover only.
- **Count weight.** `dummy_interaction_air.rs` passes a `count_weight` where `interaction/mod.rs` expects an `InteractionType`. The dummy AIR records its interactions on its own `WeightedInteractionRecorder`, which stores the weight.
- SdkUtils.SortChipsMeaning: states non-increasing heights and a permutation of the (AIR, input) pairs. It does not prove that the sort is stable.
- SdkUtils.ToFieldVec: requires values below the modulus, as `from_canonical_u32` asks of its callers. It does not model what happens on a larger value.
- DummyAir.UnpartitionedTrace: states the trace's width and length. Its contents are stated by `DummyAir.UnpartitionedLayout`. Trace entries are the `u32` values as naturals, and the `from_canonical_u32` conversion is not modelled.
- DummyAir.GenerateTracesWithPartition: trace entries are the `u32` values as naturals, and the `from_canonical_u32` conversion is not modelled.
- CpuProver.LogTraceHeight: the `as u8` cast is modelled as a reduction modulo 256. The result equals the exponent only for heights below `usize::MAX`.
