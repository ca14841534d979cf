# Hierarchical GPU tree reduction, modelled in Dafny

This project models the summation core of the gpu-samples repository. There
are three implementations of a hierarchical tree reduction:

- the OpenCL kernels `reduceBarrier`, `reduceSimd` and `reduceHybrid`, driven
  from Java through jocl by `ParallelReductionKernel` (jocl);
- the Aparapi `ParallelReductionKernel`, which halves the number of active
  lanes each round;
- the Aparapi `PointerJumpingKernel`, in which every lane follows a `next`
  pointer that doubles its reach each round.

Each variant plans a pass, splitting the input into work-groups. Each group
reduces its slice into one slot of a results array. The orchestrator then
recurses on the results until one group remains. The model proves that every
pass, and so the whole recursion, returns the sum of the input. It also proves
the invariants behind that claim: partition coverage, the halving-tree and
pointer-jumping range invariants, termination, and the jocl
buffer-ownership discipline. Values are mathematical integers added with `+`.

Modules, one concern each:

- `Sums`: the sum of a sequence and its splitting lemmas.
- `PowersOfTwo`: powers of two, and `closest2Power` written out with Java's
  32-bit `numberOfLeadingZeros` and `1 << s`.
- `Outcomes`: the errors a reduction can end with (Java's division by zero,
  OpenCL buffer and device errors) and a `Result` type.
- `Planner`: one pass's layout (group size, group count, padded size). The
  halving planners round a lone group to a power of two; the pointer-jumping
  planner does not.
- `Passes`: what one pass computes (`PassResult`, the per-group sums) and the
  fact that it keeps the total.
- `HalvingTree`: the copy phase and the barrier, SIMD and hybrid rounds as
  functions on sequences, with the stride-sum invariant and the group-sum lemmas.
- `OpenClKernels`: the three kernels of `reduce.c` as methods over arrays,
  each proved equal to the round functions, and a launch over all groups.
- `JoclReduction`: a `Device` class with a map of live buffers and a call
  counter, and the jocl kernel class (`reduceArray`, `reduceRecursively`,
  `reduceOnGpu`). The first pass of `reduceRecursively` is modelled both as
  written and with the release leak closed (see Findings); the recursion and
  `reduceArray` use the corrected pass.
- `AparapiReduction`: the Aparapi halving kernel. Its `run()` is modelled both
  as written and with the guard corrected (see Findings); the launch and
  `reduceArray` use the corrected `run()`.
- `PointerJumping`: the pointer-jumping round as functions, the range and
  stride invariants, the activity rule, and the kernel class.

Within a round the lanes run one after another in ascending order. For the
barrier rounds, lane `i` (below `active`) writes only its own slot and reads
its own slot and slot `i + active`, and no other lane writes either of them, so
the lane order does not matter. For the lock-step (SIMD) rounds, lane `i`
reads its own slot and slot `i + active`, neither of which a lane before it
has written. The ascending loop therefore computes the snapshot round, in
which all lanes read the old values and then all write. For pointer jumping,
lane `k` reads its own slot and the slot, pointer and indicator at
`next[k] > k`, and `PointerJumping.RunIsRaceFree` shows that no acting lane's
target acts in the same round.

A device call that fails is chosen by the `faults` set of the `Device` (call
positions that fail) rather than by the hardware. Exceptions are enabled
(jocl `ParallelReductionKernel.java:217`), so every call, releases included,
can fail. A buffer whose release failed stays live and is recorded in the
ghost set `stuck`; `Disposed(before, taken, after, stuck)` says that a call
left every other buffer as it was and that only buffers in `stuck` outlive it.

The SIMD loops have no `i < active` test, so lanes from `active` on read
`localSlice[i + active]`, up to half a group past the end of the group's
local allocation. In OpenCL C that read is undefined behaviour. The model
assumes it returns some value, `overrun(index)`, an arbitrary function given
with the device, and has no other effect (see Left out). The group sums are
proved for every such function.

## Model

| member | source | states |
|---|---|---|
| `PowersOfTwo.Closest2PowerIsLeastPow2` | src/main/java/pl/morgwai/samples/jocl/ParallelReductionKernel.java:165-167 | for 1 <= x <= 2^30, closest2Power(x) is a power of two, x <= it < 2x, and no smaller power of two is >= x; aparapi's `closest2Power` (aparapi/ParallelReductionKernel.java:98-100) is the same expression |
| `PowersOfTwo.Closest2Power` | src/main/java/pl/morgwai/samples/jocl/ParallelReductionKernel.java:165-167 | Java's `1 << (32 - numberOfLeadingZeros(x - 1))`; specified by `PowersOfTwo.Closest2PowerValue` and `PowersOfTwo.Closest2PowerIsLeastPow2` |
| `PowersOfTwo.NumberOfLeadingZeros` | src/main/java/pl/morgwai/samples/jocl/ParallelReductionKernel.java:166 | Java's `Integer.numberOfLeadingZeros` on a 32-bit int: 0 for a negative value, 32 minus the bit length otherwise; its value for x - 1 is what `PowersOfTwo.Closest2PowerValue` pins down |
| `PowersOfTwo.ShiftOneLeft` | src/main/java/pl/morgwai/samples/jocl/ParallelReductionKernel.java:166 | Java's `1 << s`, with the shift taken modulo 32 and `1 << 31` the negative minimum int; `PowersOfTwo.Closest2PowerValue` shows the shifts reached are below 31 |
| `PowersOfTwo.Closest2PowerValue` | src/main/java/pl/morgwai/samples/jocl/ParallelReductionKernel.java:166 | for 1 <= x <= 2^30 the shift `1 << (32 - numberOfLeadingZeros(x - 1))` gives 2^b, with b = 0 for x = 1 and 2^(b-1) < x <= 2^b otherwise |
| `Planner.PlanPass` | src/main/java/pl/morgwai/samples/jocl/ParallelReductionKernel.java:143-147 | one pass's group size and count; specified by `Planner.PlanCoverage`, `Planner.SingleGroupPlan`, `Planner.PowerOfTwoGroups` and `Planner.PlanShrinks`; the aparapi planners (aparapi/ParallelReductionKernel.java:86-90, PointerJumpingKernel.java:92-95) are the same with and without the power-of-two rounding |
| `Planner.GroupCount` | src/main/java/pl/morgwai/samples/aparapi/ParallelReductionKernel.java:87-88 | the ceiling division of the length by the group size; specified by `Planner.CeilingDivision` and `Planner.SingleGroupCount` |
| `Planner.PassWidth` | src/main/java/pl/morgwai/samples/jocl/ParallelReductionKernel.java:143-144 | the width limit: the SIMD width in SIMD mode, the maximum group size otherwise; `Planner.PowerOfTwoGroups` bounds every group size by it |
| `Planner.PlanCoverage` | src/main/java/pl/morgwai/samples/jocl/ParallelReductionKernel.java:143-147 | a pass fails (division by zero) exactly on an empty input; otherwise group size and count are >= 1, paddedSize = groupSize * numberOfGroups >= length, and the last group starts inside the input; with rounding switched off the same holds for the pointer-jumping planner (PointerJumpingKernel.java:92-95) |
| `Planner.CeilingDivision` | src/main/java/pl/morgwai/samples/aparapi/ParallelReductionKernel.java:87-88 | the group count is the ceiling of length / groupSize: groupSize * (n - 1) < length <= groupSize * n |
| `Planner.SingleGroupCount` | src/main/java/pl/morgwai/samples/aparapi/ParallelReductionKernel.java:87-88 | for a non-empty input the count is >= 1, and it is 1 exactly when the input fits in one group |
| `Planner.SingleGroupPlan` | src/main/java/pl/morgwai/samples/aparapi/ParallelReductionKernel.java:86-90 | one group exactly when length <= width; the halving planners then have a power-of-two group size in [length, 2 * length); the pointer-jumping planner keeps min(length, width) |
| `Planner.PlanShrinks` | src/main/java/pl/morgwai/samples/jocl/ParallelReductionKernel.java:145-153 | with width >= 2 and length >= 2 the next recursion level has strictly fewer elements (termination measure) |
| `Planner.PowerOfTwoGroups` | src/main/java/pl/morgwai/samples/jocl/ParallelReductionKernel.java:143-147 | with a power-of-two width every pass has a power-of-two group size no larger than the width |
| `Passes.PassResult` | src/main/java/pl/morgwai/samples/jocl/ParallelReductionKernel.java:148 | the results array of one pass, one slot per group holding the sum of that group's chunk; `Passes.PassPreservesSum` shows it keeps the total |
| `Passes.PassPrefixSum` | src/main/java/pl/morgwai/samples/aparapi/ParallelReductionKernel.java:93-95 | the first n per-group sums add up to the sum of the first n * groupSize input elements |
| `Passes.PassPreservesSum` | src/main/java/pl/morgwai/samples/jocl/ParallelReductionKernel.java:153 | when the groups cover the input, the results array of a pass has the same sum as the input, so recursing on it keeps the total |
| `Passes.SingleResult` | src/main/java/pl/morgwai/samples/aparapi/ParallelReductionKernel.java:94 | with one group covering the input, results[0] is the sum of the input |
| `HalvingTree.CopyPhase` | src/main/resources/reduce.c:64 | the copy phase: live global indices copied, other slots kept; specified by `HalvingTree.CopyPhaseLive` and `HalvingTree.PaddingNeverRead` |
| `HalvingTree.BarrierRounds` | src/main/resources/reduce.c:68-78 | the barrier loop from `active` down; keeps the length, and `HalvingTree.BarrierRoundsSum` shows it leaves the sum in slot 0 |
| `HalvingTree.SimdRound` | src/main/resources/reduce.c:100-103 | a lock-step round of all lanes, out-of-range reads given by `overrun`; keeps the length, and `HalvingTree.SimdRoundAgrees` ties it to the barrier round |
| `HalvingTree.SimdRounds` | src/main/resources/reduce.c:99-105 | the lock-step loop; keeps the length, and `HalvingTree.SimdRoundsSum` shows it leaves the sum in slot 0 |
| `HalvingTree.HybridRounds` | src/main/resources/reduce.c:28-47 | barrier rounds while active > simdWidth, then lock-step rounds of the first simdWidth lanes; keeps the length, and `HalvingTree.HybridRoundsSum` shows it leaves the sum in slot 0 |
| `HalvingTree.BarrierRound` | src/main/resources/reduce.c:69-77 | a round keeps the length and leaves every slot from `active` on unchanged (round disjointness) |
| `HalvingTree.BarrierRoundStep` | src/main/resources/reduce.c:70-74 | if slot i holds the sum of the live elements i, i + 2a, i + 4a, ..., then after a round with a active lanes slot i (i < a) holds the sum with stride a |
| `HalvingTree.BarrierRoundsStep` | src/main/resources/reduce.c:68-78 | from stride 2a, the rounds a, a/2, ..., 1 reach stride 1 |
| `HalvingTree.RoundCountIsLog` | src/main/resources/reduce.c:68-78 | starting from G/2 with G = 2^k, halving reaches 0 after exactly k rounds |
| `HalvingTree.InitialTree` | src/main/resources/reduce.c:64-68 | after the copy phase a power-of-two group satisfies the stride-G invariant for its live prefix |
| `HalvingTree.FinalTree` | src/main/resources/reduce.c:80 | at stride 1 slot 0 is the sum of the live elements |
| `HalvingTree.BarrierRoundsSum` | src/main/resources/reduce.c:68-78 | the barrier loop over a power-of-two slice leaves in slot 0 the sum of its live prefix |
| `HalvingTree.SimdRoundAgrees` | src/main/resources/reduce.c:100-103 | a lock-step round without the `i < active` test agrees with the barrier round on every slot below `active` |
| `HalvingTree.SimdRoundReadsPastRegion` | src/main/resources/reduce.c:101-102 | in the first lock-step round the last lane's partner index lies past the end of the local region, and its slot then depends on what that out-of-bounds read returns |
| `HalvingTree.SimdRoundStep` | src/main/resources/reduce.c:100-104 | a lock-step round keeps the stride invariant, whatever the out-of-range reads return |
| `HalvingTree.SimdRoundsStep` | src/main/resources/reduce.c:99-105 | the lock-step loop reaches stride 1 |
| `HalvingTree.SimdRoundsSum` | src/main/resources/reduce.c:99-105 | the lock-step loop leaves in slot 0 the sum of the live prefix |
| `HalvingTree.HybridRoundsStep` | src/main/resources/reduce.c:28-47 | barrier rounds while active > simdWidth, then lock-step rounds, reach stride 1 |
| `HalvingTree.HybridRoundsSum` | src/main/resources/reduce.c:27-47 | the hybrid loops leave in slot 0 the sum of the live prefix |
| `HalvingTree.CopyPhaseLive` | src/main/resources/reduce.c:64 | the copy phase puts the group's live input elements, in order, in the first slots |
| `HalvingTree.BarrierGroupSum` | src/main/resources/reduce.c:64-80 | with a power-of-two local size and a live element, copy + barrier rounds leave in slot 0 the sum of the group's live elements |
| `HalvingTree.SimdGroupSum` | src/main/resources/reduce.c:96-107 | the same for reduceSimd under lock-step semantics |
| `HalvingTree.HybridGroupSum` | src/main/resources/reduce.c:23-49 | the same for reduceHybrid |
| `HalvingTree.PaddingNeverRead` | src/main/resources/reduce.c:64-73 | slot 0 after the barrier loop does not depend on what the local slice held before the copy, so padding slots never contribute |
| `HalvingTree.BarrierRoundsFullBound` | src/main/java/pl/morgwai/samples/aparapi/ParallelReductionKernel.java:123 | any two guard bounds >= G give the same rounds: a bound that never cuts a lane off is as good as none |
| `OpenClKernels.AccumulateVolatile` | src/main/resources/reduce.c:7-9 | adds the source slot into the target slot; no other slot changes |
| `OpenClKernels.CopyToLocal` | src/main/resources/reduce.c:64 | the lanes' copy loop yields the copy phase: live global indices copied, other slots kept |
| `OpenClKernels.BarrierStep` | src/main/resources/reduce.c:70-76 | the lanes of one barrier round, run in order, give the barrier round of the old slice |
| `OpenClKernels.SimdStep` | src/main/resources/reduce.c:100-103 | the lanes of one lock-step round, run in ascending order, give the snapshot round |
| `OpenClKernels.ReduceBarrier` | src/main/resources/reduce.c:54-81 | the final slice is the barrier rounds of the copied slice; only results[groupId] changes, to slot 0; with a power-of-two group and a live element it is the group's sum; a group of 2^k lanes runs exactly k rounds |
| `OpenClKernels.ReduceSimd` | src/main/resources/reduce.c:86-108 | the final slice is the lock-step rounds of all lanes over the copied slice; only results[groupId] changes, to slot 0; with a power-of-two group and a live element it is the group's sum, whatever the out-of-bounds reads return |
| `OpenClKernels.ReduceHybrid` | src/main/resources/reduce.c:13-50 | the final slice is the hybrid rounds (barrier rounds while active > simdWidth, then lock-step rounds) over the copied slice; with simdWidth >= 1 (lane 0 survives the `i >= simdWidth` exit) only results[groupId] changes, to slot 0, and with a power-of-two group and a live element it is the group's sum, whatever the out-of-bounds reads return; with simdWidth = 0 `results` is unchanged |
| `OpenClKernels.LaunchKernel` | src/main/java/pl/morgwai/samples/jocl/ParallelReductionKernel.java:190-192 | a launch of numberOfGroups groups of groupSize lanes gives a results array of the same length holding each group's sum, when the groups are power-of-two sized and each has a live element |
| `OpenClKernels.RunGroup` | src/main/resources/reduce.c:13-108 | one work-group runs the kernel of the chosen mode and changes only its own slot of `results`, which becomes the group's sum when the group is power-of-two sized and has a live element |
| `JoclReduction.Device.CreateBuffer` | src/main/java/pl/morgwai/samples/jocl/ParallelReductionKernel.java:180-181 | a zero-size buffer is CL_INVALID_BUFFER_SIZE; otherwise, unless the call faults, a fresh live handle with the given contents and host access |
| `JoclReduction.Device.ReleaseMemObject` | src/main/java/pl/morgwai/samples/jocl/ParallelReductionKernel.java:150 | releasing a live handle is one counted device call (also at lines 161 and 195); it fails exactly when that call faults, and then the buffer stays live and is recorded as stuck; otherwise the handle stops being live; every other buffer is untouched |
| `JoclReduction.Device.EnqueueReduction` | src/main/java/pl/morgwai/samples/jocl/ParallelReductionKernel.java:185-192 | the launch fails exactly when the call faults; otherwise only the results buffer changes, to the launch's per-group sums |
| `JoclReduction.Device.ReadBuffer` | src/main/java/pl/morgwai/samples/jocl/ParallelReductionKernel.java:157-158 | reading a host-inaccessible buffer is refused; otherwise, unless the call faults, the first element |
| `JoclReduction.ParallelReductionKernel.constructor` | src/main/java/pl/morgwai/samples/jocl/ParallelReductionKernel.java:101-102 | the effective maximum group size is the device's maximum dimension size |
| `JoclReduction.ParallelReductionKernel.ReduceOnGpu` | src/main/java/pl/morgwai/samples/jocl/ParallelReductionKernel.java:175-198 | allocates numberOfGroups slots, host-readable iff one group; it succeeds whenever its two calls do not fault; on failure the new buffer is released and nothing else it made stays live (unless that release failed); on success exactly one new live buffer, owned by the caller, holding the pass result |
| `JoclReduction.ParallelReductionKernel.ReduceThenRelease` | src/main/java/pl/morgwai/samples/jocl/ParallelReductionKernel.java:148-151 | with the corrected release of the second Findings row: reduces on the GPU and releases `input` on every path; when only that release fails the results buffer is released too; it fails exactly when a device call faults, and then only buffers whose release failed outlive it; on success one new buffer, holding the pass result, replaces `input` |
| `JoclReduction.ParallelReductionKernel.ReducePassAsWritten` | src/main/java/pl/morgwai/samples/jocl/ParallelReductionKernel.java:141-151 | as written: with the first two device calls succeeding and the release of `input` in the `finally` faulting, the pass fails while the results buffer stays live without being recorded as stuck |
| `JoclReduction.ReleaseFaultCounterexample` | src/main/java/pl/morgwai/samples/jocl/ParallelReductionKernel.java:148-150 | on input [1, 2, 3] with the fourth device call faulting, the as-written pass leaves a live buffer that nothing tried to release: `Disposed` does not hold |
| `JoclReduction.ReleaseFaultClosed` | src/main/java/pl/morgwai/samples/jocl/ParallelReductionKernel.java:148-151 | on the same input and fault, the corrected pass disposes of every buffer except the input whose release failed |
| `JoclReduction.ParallelReductionKernel.ReducePass` | src/main/java/pl/morgwai/samples/jocl/ParallelReductionKernel.java:141-151 | with the corrected release of the second Findings row: `input` is released on every path; an empty input is a division by zero, unless that release faults; otherwise it fails exactly when a device call faults, and then only buffers whose release failed outlive it; on success (three calls) a new buffer holds partial sums whose total is the input's sum, host-readable exactly when it holds one value, and shorter than the input when it holds more than one |
| `JoclReduction.ParallelReductionKernel.ReduceRecursively` | src/main/java/pl/morgwai/samples/jocl/ParallelReductionKernel.java:139-163 | with the corrected release of the second Findings row: `input` and every buffer it creates are released on every path, except buffers whose release failed, which stay live and are recorded as stuck; on success the live set is the old one minus `input` and the value is the sum of the input's contents; an empty input is a division by zero unless a release faults; otherwise it fails exactly when a device call faults |
| `JoclReduction.ParallelReductionKernel.ReadSingleResult` | src/main/java/pl/morgwai/samples/jocl/ParallelReductionKernel.java:155-162 | reads the single result back and releases its buffer whatever the read did; it succeeds, with that value and the buffer gone, exactly when neither call faults, and a failed release replaces the read's outcome |
| `JoclReduction.ParallelReductionKernel.ReduceArray` | src/main/java/pl/morgwai/samples/jocl/ParallelReductionKernel.java:114-119 | with the corrected release of the second Findings row: no buffer outlives the call except one whose release failed; on success the live set is exactly as before and the value is the sum of the array; an empty array is CL_INVALID_BUFFER_SIZE; otherwise it fails exactly when a device call faults |
| `JoclReduction.ParallelReductionKernel.Width` | src/main/java/pl/morgwai/samples/jocl/ParallelReductionKernel.java:143-144 | the width limit of a pass, the SIMD width in SIMD mode and the maximum group size otherwise; specified through `Planner.PassWidth` and the plan lemmas |
| `AparapiReduction.ParallelReductionKernel.AccumulateValue` | src/main/java/pl/morgwai/samples/aparapi/ParallelReductionKernel.java:138-140 | adds slot `from` into slot `into`; no other slot changes |
| `AparapiReduction.ParallelReductionKernel.CopySlice` | src/main/java/pl/morgwai/samples/aparapi/ParallelReductionKernel.java:117 | the lanes' copy loop yields the copy phase |
| `AparapiReduction.ParallelReductionKernel.HalvingRound` | src/main/java/pl/morgwai/samples/aparapi/ParallelReductionKernel.java:122-126 | the lanes of one round give the barrier round: lanes i < active add slot i + active into slot i |
| `AparapiReduction.ParallelReductionKernel.HalvingRounds` | src/main/java/pl/morgwai/samples/aparapi/ParallelReductionKernel.java:121-128 | active starts at half the local size and halves to 0; the slice ends as the barrier rounds of its start |
| `AparapiReduction.ParallelReductionKernel.RunAsWritten` | src/main/java/pl/morgwai/samples/aparapi/ParallelReductionKernel.java:112-130 | with the local-index guard, only results[groupId] changes; it is the group's sum when the group is the first one or fully populated |
| `AparapiReduction.ParallelReductionKernel.Run` | src/main/java/pl/morgwai/samples/aparapi/ParallelReductionKernel.java:112-130 | with the global-index guard, every group with a live element writes its sum, whatever the local slice held |
| `AparapiReduction.AsWrittenGroupSum` | src/main/java/pl/morgwai/samples/aparapi/ParallelReductionKernel.java:117-129 | rounds guarded by the input length give the group's sum for the first group or a full group |
| `AparapiReduction.FullGroupBound` | src/main/java/pl/morgwai/samples/aparapi/ParallelReductionKernel.java:123 | for a group that lies wholly inside the input, guarding the rounds by the input length gives the same local slots as guarding them by the group's own live count |
| `AparapiReduction.GroupSum` | src/main/java/pl/morgwai/samples/aparapi/ParallelReductionKernel.java:117-129 | rounds guarded by the live count of the group give its sum |
| `AparapiReduction.ParallelReductionKernel.Execute` | src/main/java/pl/morgwai/samples/aparapi/ParallelReductionKernel.java:93 | with the corrected guard of the first Findings row: running every group of the range fills `results` with the per-group sums |
| `AparapiReduction.ParallelReductionKernel.ReducePass` | src/main/java/pl/morgwai/samples/aparapi/ParallelReductionKernel.java:85-93 | with the corrected guard of the first Findings row: stores the input; an empty input is a division by zero that leaves the arrays as they were; otherwise fresh `results` and `localSlice` sized by the plan, `results` holding the per-group sums of the input, which add up to its sum, with fewer slots than input elements unless there is one |
| `AparapiReduction.ParallelReductionKernel.RunGroup` | src/main/java/pl/morgwai/samples/aparapi/ParallelReductionKernel.java:112-130 | with the corrected guard of the first Findings row: one work-group of a launch changes only its own slot of `results`, which becomes the group's sum when the group has a live element |
| `AparapiReduction.ParallelReductionKernel.ReduceArray` | src/main/java/pl/morgwai/samples/aparapi/ParallelReductionKernel.java:84-96 | with the corrected guard of the first Findings row: the empty input is a division by zero (and only it); otherwise the value returned is the sum of the input, and the last pass leaves it as the single slot of `results` |
| `AparapiReduction.LocalGuardCounterexample` | src/main/java/pl/morgwai/samples/aparapi/ParallelReductionKernel.java:123 | on [1, 2, 3, 4, 5] with groups of 4, the as-written second group writes 18 instead of 5 and the total becomes 28 instead of 15 |
| `PointerJumping.ActivityRule` | src/main/java/pl/morgwai/samples/aparapi/PointerJumpingKernel.java:133-137 | in a round with the stride shape, an acting lane's target does not act, and a lane with an odd indicator keeps its pointer and indicator |
| `PointerJumping.JumpStrided` | src/main/java/pl/morgwai/samples/aparapi/PointerJumpingKernel.java:133-136 | a round turns stride P into stride 2P: lanes at multiples of 2P point 2P ahead with indicator k / 2P; the others are idle for good |
| `PointerJumping.InitNext` | src/main/java/pl/morgwai/samples/aparapi/PointerJumpingKernel.java:122-128 | the initial pointers: lane k points to k + 1 while that is a live element, and to the global size otherwise; `PointerJumping.InitialInvariants` shows they have stride 1 |
| `PointerJumping.JumpNext` | src/main/java/pl/morgwai/samples/aparapi/PointerJumpingKernel.java:135 | the pointers after a round: an acting lane takes its target's pointer; `PointerJumping.JumpForward` and `PointerJumping.JumpStrided` specify it |
| `PointerJumping.JumpLocal` | src/main/java/pl/morgwai/samples/aparapi/PointerJumpingKernel.java:134 | the local slice after a round: an acting lane adds its live target's slot; `PointerJumping.JumpRangeSums` specifies it |
| `PointerJumping.JumpIndicator` | src/main/java/pl/morgwai/samples/aparapi/PointerJumpingKernel.java:136 | the indicators after a round: an acting lane halves its indicator; `PointerJumping.ActivityRule` and `PointerJumping.JumpStrided` specify it |
| `PointerJumping.JumpForward` | src/main/java/pl/morgwai/samples/aparapi/PointerJumpingKernel.java:135 | a round keeps next[i] > i for every pointer inside the group |
| `PointerJumping.JumpPointsToLive` | src/main/java/pl/morgwai/samples/aparapi/PointerJumpingKernel.java:135 | a round keeps every in-group pointer on a live slot |
| `PointerJumping.JumpRangeSums` | src/main/java/pl/morgwai/samples/aparapi/PointerJumpingKernel.java:133-136 | a round keeps the range invariant: slot i is the sum of the live elements from i up to next[i] |
| `PointerJumping.Round` | src/main/java/pl/morgwai/samples/aparapi/PointerJumpingKernel.java:132-139 | a round keeps pointers forward and lane 0's indicator at 0, and advances next[0] while it is inside the group |
| `PointerJumping.Rounds` | src/main/java/pl/morgwai/samples/aparapi/PointerJumpingKernel.java:132 | the main loop ends, with next[0] outside the group |
| `PointerJumping.InitialState` | src/main/java/pl/morgwai/samples/aparapi/PointerJumpingKernel.java:118-128 | after the copy phase pointers point forward and lane 0's indicator is 0 |
| `PointerJumping.InitialInvariants` | src/main/java/pl/morgwai/samples/aparapi/PointerJumpingKernel.java:122-128 | after the copy phase each live slot holds its own element (range invariant) and the pointers have stride 1 |
| `PointerJumping.RoundsSum` | src/main/java/pl/morgwai/samples/aparapi/PointerJumpingKernel.java:132-139 | the main loop keeps the range invariant, so at the end slot 0 holds the sum of the live elements |
| `PointerJumping.GroupSum` | src/main/java/pl/morgwai/samples/aparapi/PointerJumpingKernel.java:114-140 | for a group with a live element, slot 0 after the loop is the sum of its live elements |
| `PointerJumping.StridedRaceFree` | src/main/java/pl/morgwai/samples/aparapi/PointerJumpingKernel.java:133-137 | from the stride shape, no round of the rest of the loop has an acting lane whose target acts |
| `PointerJumping.RunIsRaceFree` | src/main/java/pl/morgwai/samples/aparapi/PointerJumpingKernel.java:118-139 | in every round of run(), no acting lane's target acts, so the lanes of a round can run in any order |
| `PointerJumping.PointerJumpingKernel.AccumulateValue` | src/main/java/pl/morgwai/samples/aparapi/PointerJumpingKernel.java:149-151 | adds slot `from` into slot `into`; no other slot changes |
| `PointerJumping.PointerJumpingKernel.Initialize` | src/main/java/pl/morgwai/samples/aparapi/PointerJumpingKernel.java:122-128 | lanes before the last element point to i + 1 and copy; the others point to the global size, and only the last element is copied |
| `PointerJumping.PointerJumpingKernel.Jump` | src/main/java/pl/morgwai/samples/aparapi/PointerJumpingKernel.java:133-138 | the lanes of one round, in ascending order, give the round of the state at its start |
| `PointerJumping.PointerJumpingKernel.Run` | src/main/java/pl/morgwai/samples/aparapi/PointerJumpingKernel.java:114-141 | the local arrays end as the rounds of the initial state; only results[groupId] changes, to slot 0, which is the group's sum when the group has a live element |
| `PointerJumping.PointerJumpingKernel.Execute` | src/main/java/pl/morgwai/samples/aparapi/PointerJumpingKernel.java:99 | running every group of the range fills `results` with the per-group sums |
| `PointerJumping.PointerJumpingKernel.AccumulatePass` | src/main/java/pl/morgwai/samples/aparapi/PointerJumpingKernel.java:91-99 | stores the input; an empty input is a division by zero that leaves the arrays as they were; otherwise fresh `results`, `localSlice` and `next` sized by the plan, `results` holding the per-group sums of the input, which add up to its sum, with fewer slots than input elements unless there is one |
| `PointerJumping.PointerJumpingKernel.RunGroup` | src/main/java/pl/morgwai/samples/aparapi/PointerJumpingKernel.java:114-141 | one work-group of a launch changes only its own slot of `results`, which becomes the group's sum when the group has a live element |
| `PointerJumping.PointerJumpingKernel.AccumulateArray` | src/main/java/pl/morgwai/samples/aparapi/PointerJumpingKernel.java:90-102 | the empty input is a division by zero (and only it); otherwise the value returned is the sum of the input, and the last pass leaves it as the single slot of `results` |

## Left out

- Platform set-up (`init()`), the `getSimdWidth` kernel, kernel creation and
  the kernel's own work-group query: foreign OpenCL calls. The device's
  maximum dimension size and SIMD width are parameters of `Device`.
- `close()`, `dispose()`, `calculateSum`, `compile()`, `main`, the benchmark
  and timing harnesses, and the floating-point tolerance check: outside the
  reduction.
- `double` arithmetic: values are integers and `accumulateValue` is `+`.
  Rounding and reassociation error cannot be modelled this way. An overriding
  `accumulateValue` with another operator is not covered.
- Real concurrency: interleavings, barriers, `volatile` and memory fences.
  Rounds are synchronous steps whose lanes run in order. `reduceSimd` and the
  SIMD tail of `reduceHybrid` are modelled with lock-step snapshot semantics
  for the whole group. Hardware gives lock-step only within a sub-group
  (reduce.c:85).
- The pointer-jumping loop guard reads `next[0]` while lane 0 may be updating
  it in the same round. The model evaluates the guard between rounds.
- `clSetKernelArg` and `clEnqueueNDRangeKernel` are one `EnqueueReduction`
  call. jocl's exceptions are `Failure` results. Device failures are a set of
  failing call positions.
- `JoclReduction.ParallelReductionKernel.ReduceRecursively`: requires a
  power-of-two width of at least 2 (at most 2^30), and a SIMD width of at
  least 1. The source checks neither. A width of 1 makes the recursion
  endless on inputs of two or more elements.
- `JoclReduction.ParallelReductionKernel.ReducePass`: carries the same
  requirements as `ReduceRecursively`, for which it plans the pass; so does
  `ReducePassAsWritten`.
- `JoclReduction.ParallelReductionKernel.ReduceThenRelease`: requires the
  facts the plan gives (a power-of-two group size and a last group starting
  inside the input), which `ReducePass` establishes before calling it.
- `AparapiReduction.ParallelReductionKernel.ReduceArray`: requires a
  power-of-two maximum work-group size of at least 2, for the same reasons;
  so does `AparapiReduction.ParallelReductionKernel.ReducePass`.
- `PointerJumping.PointerJumpingKernel.AccumulateArray`: requires a maximum
  work-group size of at least 2, because a size of 1 never shrinks the input;
  so does `PointerJumping.PointerJumpingKernel.AccumulatePass`.
- The as-written programs end to end. The jocl orchestration
  (`JoclReduction.ParallelReductionKernel.ReduceThenRelease`, `ReducePass`,
  `ReduceRecursively`, `ReduceArray`) runs the corrected release of the second
  Findings row, and the Aparapi orchestration
  (`AparapiReduction.ParallelReductionKernel.Execute`, `ReducePass`,
  `RunGroup`, `ReduceArray`) runs the corrected guard of the first. Their
  sum and ownership promises hold for the corrected programs; for the code as
  written only the members named in the Findings table are modelled, and
  those show where the promises fail.
- Out-of-bounds local reads in `reduceSimd` and the SIMD tail of
  `reduceHybrid` (reduce.c:43-44 and 101-102): lanes from `active` on read
  `localSlice[i + active]` past the `groupSize` doubles allocated for the
  group (jocl `ParallelReductionKernel.java:188`), which is undefined
  behaviour in OpenCL C. The model assumes such a read yields some value,
  `overrun(index)`, and has no other effect (no fault, no write). The sums
  are proved for every `overrun`; an implementation that traps or corrupts
  memory on such a read is not covered.
- Java's 32-bit `int` overflow of `paddedSize` and of global indices for
  inputs near 2^31 elements: lengths are unbounded naturals. The width is
  bounded by 2^30 so that `closest2Power` stays a positive `int`.
- The results buffer of `reduceOnGpu` is created zero-filled (its contents
  are overwritten by the launch). Per-group local memory is a fresh array
  with arbitrary contents in the OpenCL model, and the kernel's shared field
  in the Aparapi models.

## Findings

| source | as written | input that shows it | evidently intended | confidence | as-written member | corrected member |
|---|---|---|---|---|---|---|
| src/main/java/pl/morgwai/samples/aparapi/ParallelReductionKernel.java:123 | a lane adds its partner when `i + activeThreadCount < input.length`, comparing the local index with the input length | input [1, 2, 3, 4, 5], maximum work-group size 4: group 1 has one live element, but lanes 0 and 1 pass the guard and add the stale slots 2 and 3 left by group 0, writing 18; the next pass returns 28 instead of 15 | compare the global index, `globalIndex + activeThreadCount < input.length`, as reduce.c:72 does | high; not executed | `AparapiReduction.ParallelReductionKernel.RunAsWritten`, `AparapiReduction.LocalGuardCounterexample` | `AparapiReduction.ParallelReductionKernel.Run` |
| src/main/java/pl/morgwai/samples/jocl/ParallelReductionKernel.java:148-150 | after `reduceOnGpu` has handed over its results buffer, the `finally` releases `input`; with exceptions enabled (line 217) that release can throw, and the exception leaves `reduceRecursively` with nothing releasing `results` | input [1, 2, 3], width 4, a device whose fourth call fails: call 0 creates the input, calls 1 and 2 create and fill `results`, and the release of `input` (call 3) throws; `results` stays allocated with no owner | release `results` as well when the release of `input` fails, as `reduceOnGpu`'s own `catch` does for its failures | medium; not executed | `JoclReduction.ParallelReductionKernel.ReducePassAsWritten`, `JoclReduction.ReleaseFaultCounterexample` | `JoclReduction.ParallelReductionKernel.ReducePass` |
