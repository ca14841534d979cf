/**
 * The OpenCL kernels of reduce.c: reduceBarrier, reduceSimd, reduceHybrid and
 * their helper accumulateVolatile, each as the work of one work-group on its
 * local array and the shared results array.
 *
 * The lanes of a group are run one after another, in ascending local index,
 * inside each round. For a barrier round this is exact because lanes below
 * `active` read only slots from `active` on, which no lane writes in that
 * round. For a lock-step round it is exact because lane i reads only slot
 * i + active, which no lane below i writes. Each round is proved equal to the
 * snapshot round of HalvingTree, and the whole group to the round functions
 * there.
 *
 * A lane whose partner index runs past the end of the group's local region
 * reads `overrun(index)`: what lies there is not specified by OpenCL.
 */
module OpenClKernels {
  import opened Sums
  import opened PowersOfTwo
  import opened Planner
  import opened HalvingTree
  import opened Passes

  /**
   * accumulateVolatile: adds the slot at `sourceIndex` into the slot at
   * `targetIndex` and changes no other slot.
   */
  method AccumulateVolatile(sourceIndex: nat, targetIndex: nat, localSlice: array<int>, overrun: nat -> int)
    requires targetIndex < localSlice.Length
    modifies localSlice
    ensures localSlice[..] == old(localSlice[..])[targetIndex :=
              old(localSlice[targetIndex]) + ReadLocal(old(localSlice[..]), sourceIndex, overrun)]
  {
    var source := if sourceIndex < localSlice.Length then localSlice[sourceIndex] else overrun(sourceIndex);
    localSlice[targetIndex] := localSlice[targetIndex] + source;
  }

  /**
   * The copy phase shared by the three kernels: lane i copies
   * input[groupId * G + i] when that global index is below inputLength.
   */
  method CopyToLocal(input: seq<int>, inputLength: nat, base: nat, localSlice: array<int>)
    requires inputLength <= |input|
    modifies localSlice
    ensures localSlice[..] == CopyPhase(old(localSlice[..]), input[..inputLength], base)
  {
    ghost var before := localSlice[..];
    for i := 0 to localSlice.Length
      invariant forall k :: 0 <= k < i ==> localSlice[k] == CopyPhase(before, input[..inputLength], base)[k]
      invariant forall k :: i <= k < localSlice.Length ==> localSlice[k] == before[k]
    {
      if base + i < inputLength {
        localSlice[i] := input[base + i];
      }
    }
  }

  /**
   * One barrier-separated round: lanes i < active whose partner's global
   * index is below inputLength add slot i + active into slot i.
   */
  method BarrierStep(localSlice: array<int>, active: nat, base: nat, inputLength: nat)
    requires 2 * active <= localSlice.Length
    modifies localSlice
    ensures localSlice[..] == BarrierRound(old(localSlice[..]), active, inputLength - base)
  {
    ghost var s := localSlice[..];
    for i := 0 to localSlice.Length
      invariant forall k :: 0 <= k < i ==> localSlice[k] == BarrierRound(s, active, inputLength - base)[k]
      invariant forall k :: i <= k < localSlice.Length ==> localSlice[k] == s[k]
    {
      if i < active && base + i + active < inputLength {
        localSlice[i] := localSlice[i] + localSlice[i + active];
      }
    }
  }

  /**
   * One lock-step round run by the first `lanes` lanes, with no `i < active`
   * test. reduceSimd writes the update inline on its volatile local pointer;
   * reduceHybrid calls accumulateVolatile; both are this update.
   */
  method SimdStep(localSlice: array<int>, active: nat, base: nat, inputLength: nat, lanes: nat, overrun: nat -> int)
    requires 2 * active <= localSlice.Length && active <= lanes <= localSlice.Length
    modifies localSlice
    ensures localSlice[..] == SimdRound(old(localSlice[..]), active, inputLength - base, lanes, overrun)
  {
    ghost var s := localSlice[..];
    for i := 0 to lanes
      invariant forall k :: 0 <= k < i ==>
                  localSlice[k] == SimdRound(s, active, inputLength - base, lanes, overrun)[k]
      invariant forall k :: i <= k < localSlice.Length ==> localSlice[k] == s[k]
    {
      if base + i + active < inputLength {
        AccumulateVolatile(i + active, i, localSlice, overrun);
      }
    }
  }

  /**
   * reduceBarrier for work-group `groupId`, whose local size is the length of
   * `localSlice`. The local array ends as the barrier rounds of the copied
   * slice; lane 0 writes slot 0 into results[groupId] and nothing else of
   * `results` changes. With a power-of-two local size and a live element in
   * the group, that value is the sum of the group's live elements. The loop
   * runs log2 of the local size rounds.
   */
  method ReduceBarrier(input: seq<int>, inputLength: nat, groupId: nat, localSlice: array<int>, results: array<int>)
    returns (ghost rounds: nat)
    requires inputLength <= |input| && localSlice.Length >= 1 && groupId < results.Length
    requires localSlice != results
    modifies localSlice, results
    ensures var g := localSlice.Length; var base := groupId * g;
            localSlice[..] == BarrierRounds(CopyPhase(old(localSlice[..]), input[..inputLength], base), g / 2, inputLength - base)
    ensures results[..] == old(results[..])[groupId := localSlice[0]]
    ensures var g := localSlice.Length; var base := groupId * g;
            IsPow2(g) && base < inputLength ==> results[groupId] == Sum(GroupSlice(input[..inputLength], base, g))
    ensures rounds == HalvingRoundCount(localSlice.Length / 2)
    ensures forall k :: Pow2(k) == localSlice.Length ==> rounds == k
  {
    var g := localSlice.Length;
    var base := groupId * g;
    ghost var before := localSlice[..];
    CopyToLocal(input, inputLength, base, localSlice);
    ghost var copied := localSlice[..];
    var active: nat := g / 2;
    rounds := 0;
    while active > 0
      invariant 2 * active <= g
      invariant rounds + HalvingRoundCount(active) == HalvingRoundCount(g / 2)
      invariant unchanged(results)
      invariant BarrierRounds(localSlice[..], active, inputLength - base) == BarrierRounds(copied, g / 2, inputLength - base)
      decreases active
    {
      BarrierStep(localSlice, active, base, inputLength);
      active := active / 2;
      rounds := rounds + 1;
    }
    forall k | Pow2(k) == g
      ensures rounds == k
    {
      RoundCountIsLog(k);
    }
    results[groupId] := localSlice[0];
    if IsPow2(g) && base < inputLength {
      BarrierGroupSum(before, input[..inputLength], base);
    }
  }

  /**
   * reduceSimd for work-group `groupId`, under lock-step execution of the whole
   * group (the kernel is only launched with groups no wider than the SIMD
   * width): every lane runs every round, and every lane writes slot 0 into
   * results[groupId], which is one write of the same value.
   */
  method ReduceSimd(input: seq<int>, inputLength: nat, groupId: nat, localSlice: array<int>, results: array<int>,
                    overrun: nat -> int)
    requires inputLength <= |input| && localSlice.Length >= 1 && groupId < results.Length
    requires localSlice != results
    modifies localSlice, results
    ensures var g := localSlice.Length; var base := groupId * g;
            localSlice[..] == SimdRounds(CopyPhase(old(localSlice[..]), input[..inputLength], base), g / 2,
                                         inputLength - base, g, overrun)
    ensures results[..] == old(results[..])[groupId := localSlice[0]]
    ensures var g := localSlice.Length; var base := groupId * g;
            IsPow2(g) && base < inputLength ==> results[groupId] == Sum(GroupSlice(input[..inputLength], base, g))
  {
    var g := localSlice.Length;
    var base := groupId * g;
    ghost var before := localSlice[..];
    CopyToLocal(input, inputLength, base, localSlice);
    ghost var copied := localSlice[..];
    var active: nat := g / 2;
    while active > 0
      invariant 2 * active <= g
      invariant unchanged(results)
      invariant SimdRounds(localSlice[..], active, inputLength - base, g, overrun)
                == SimdRounds(copied, g / 2, inputLength - base, g, overrun)
      decreases active
    {
      SimdStep(localSlice, active, base, inputLength, g, overrun);
      active := active / 2;
    }
    results[groupId] := localSlice[0];
    if IsPow2(g) && base < inputLength {
      SimdGroupSum(before, input[..inputLength], base, overrun);
    }
  }

  /**
   * reduceHybrid for work-group `groupId`: barrier rounds while more than
   * `simdWidth` lanes are active, then lanes from `simdWidth` on return and
   * the rest finish in lock-step through accumulateVolatile. Lane 0 writes
   * the result only if it did not return, that is when simdWidth >= 1.
   */
  method ReduceHybrid(input: seq<int>, inputLength: nat, groupId: nat, localSlice: array<int>, results: array<int>,
                      simdWidth: nat, overrun: nat -> int)
    requires inputLength <= |input| && localSlice.Length >= 1 && groupId < results.Length
    requires localSlice != results
    modifies localSlice, results
    ensures var g := localSlice.Length; var base := groupId * g;
            localSlice[..] == HybridRounds(CopyPhase(old(localSlice[..]), input[..inputLength], base), g / 2,
                                           inputLength - base, simdWidth, overrun)
    ensures results[..] == if simdWidth >= 1 then old(results[..])[groupId := localSlice[0]] else old(results[..])
    ensures var g := localSlice.Length; var base := groupId * g;
            IsPow2(g) && base < inputLength && simdWidth >= 1 ==>
              results[groupId] == Sum(GroupSlice(input[..inputLength], base, g))
  {
    var g := localSlice.Length;
    var base := groupId * g;
    ghost var before := localSlice[..];
    CopyToLocal(input, inputLength, base, localSlice);
    ghost var copied := localSlice[..];
    var active: nat := g / 2;
    while active > simdWidth
      invariant 2 * active <= g
      invariant unchanged(results)
      invariant HybridRounds(localSlice[..], active, inputLength - base, simdWidth, overrun)
                == HybridRounds(copied, g / 2, inputLength - base, simdWidth, overrun)
      decreases active
    {
      BarrierStep(localSlice, active, base, inputLength);
      active := active / 2;
    }
    var lanes := Min(g, simdWidth);
    while active > 0
      invariant 2 * active <= g && active <= lanes
      invariant unchanged(results)
      invariant SimdRounds(localSlice[..], active, inputLength - base, lanes, overrun)
                == HybridRounds(copied, g / 2, inputLength - base, simdWidth, overrun)
      decreases active
    {
      SimdStep(localSlice, active, base, inputLength, lanes, overrun);
      active := active / 2;
    }
    if 0 < simdWidth {
      results[groupId] := localSlice[0];
    }
    if IsPow2(g) && base < inputLength {
      HybridGroupSum(before, input[..inputLength], base, simdWidth, overrun);
    }
  }

  /**
   * One launch of a reduction kernel over `numberOfGroups` work-groups of
   * `groupSize` lanes, each with its own fresh local array; `results0` is the
   * results buffer before the launch. When the group size is a power of two,
   * every group holds a live element and lane 0 of the hybrid kernel stays
   * to write its result, the launch leaves one partial sum per group.
   */
  method LaunchKernel(mode: SyncMode, input: seq<int>, inputLength: nat, results0: seq<int>, groupSize: nat,
                      simdWidth: nat, overrun: nat -> int) returns (results: seq<int>)
    requires inputLength <= |input| && groupSize >= 1
    ensures |results| == |results0|
    ensures IsPow2(groupSize) && groupSize * (|results0| - 1) < inputLength && (mode == Hybrid ==> simdWidth >= 1)
            ==> results == PassResult(input[..inputLength], groupSize, |results0|)
  {
    var numberOfGroups := |results0|;
    var out := new int[numberOfGroups](i requires 0 <= i < numberOfGroups => results0[i]);
    ghost var sound := IsPow2(groupSize) && groupSize * (numberOfGroups - 1) < inputLength
                       && (mode == Hybrid ==> simdWidth >= 1);
    for groupId := 0 to numberOfGroups
      invariant sound ==> forall h :: 0 <= h < groupId ==>
                  out[h] == Sum(Chunk(input[..inputLength], groupSize, h))
    {
      if sound {
        GroupStartsInside(groupId, numberOfGroups, groupSize, inputLength);
      }
      RunGroup(mode, input, inputLength, groupId, groupSize, out, simdWidth, overrun);
    }
    results := out[..];
  }

  /**
   * One work-group of a launch: a fresh local array of `groupSize` slots and
   * the kernel the mode selects. Only results[groupId] may change.
   */
  method RunGroup(mode: SyncMode, input: seq<int>, inputLength: nat, groupId: nat, groupSize: nat,
                  results: array<int>, simdWidth: nat, overrun: nat -> int)
    requires inputLength <= |input| && groupSize >= 1 && groupId < results.Length
    modifies results
    ensures forall h :: 0 <= h < results.Length && h != groupId ==> results[h] == old(results[h])
    ensures IsPow2(groupSize) && groupId * groupSize < inputLength && (mode == Hybrid ==> simdWidth >= 1) ==>
              results[groupId] == Sum(Chunk(input[..inputLength], groupSize, groupId))
  {
    var localSlice := new int[groupSize];
    match mode {
      case Barrier => ghost var rounds := ReduceBarrier(input, inputLength, groupId, localSlice, results);
      case Simd => ReduceSimd(input, inputLength, groupId, localSlice, results, overrun);
      case Hybrid => ReduceHybrid(input, inputLength, groupId, localSlice, results, simdWidth, overrun);
    }
    if groupId * groupSize < inputLength {
      LiveChunk(input[..inputLength], groupSize, groupId);
    }
  }
}
