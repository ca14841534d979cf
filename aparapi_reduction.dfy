/**
 * The Aparapi halving-tree kernel: ParallelReductionKernel's reduceArray,
 * run and accumulateValue. The kernel object keeps the input, the results
 * array and the local slice in fields that reduceArray reassigns before each
 * launch; a launch runs every work-group in turn on the one local slice.
 *
 * run() as written guards a lane with its LOCAL index (`i + active <
 * input.length`). `RunAsWritten` models that guard and
 * `LocalGuardCounterexample` shows a partial last group summing stale slots.
 * `Run` uses the global index, as the OpenCL kernels do, and is what the rest
 * of the model launches.
 */
module AparapiReduction {
  import opened Sums
  import opened PowersOfTwo
  import opened Outcomes
  import opened Planner
  import opened HalvingTree
  import opened Passes

  class ParallelReductionKernel {
    /** The target device's maximum work-group size. */
    const maxWorkGroupSize: nat

    var input: seq<int>
    var results: array<int>
    var localSlice: array<int>

    constructor (maxWorkGroupSize: nat)
      ensures this.maxWorkGroupSize == maxWorkGroupSize && input == []
      ensures fresh(results) && fresh(localSlice) && results.Length == 0 && localSlice.Length == 0
    {
      this.maxWorkGroupSize := maxWorkGroupSize;
      input := [];
      results := new int[0];
      localSlice := new int[0];
    }

    /** accumulateValue: adds slot `fromIndex` into slot `intoIndex`; no other slot changes. */
    method AccumulateValue(fromIndex: nat, intoIndex: nat)
      requires fromIndex < localSlice.Length && intoIndex < localSlice.Length
      modifies localSlice
      ensures localSlice[..] == old(localSlice[..])[intoIndex := old(localSlice[intoIndex]) + old(localSlice[fromIndex])]
    {
      localSlice[intoIndex] := localSlice[intoIndex] + localSlice[fromIndex];
    }

    /** The copy phase: lane i copies input[base + i] when that index is inside the input. */
    method CopySlice(base: nat)
      modifies localSlice
      ensures localSlice[..] == CopyPhase(old(localSlice[..]), input, base)
    {
      ghost var before := localSlice[..];
      for i := 0 to localSlice.Length
        invariant forall k :: 0 <= k < i ==> localSlice[k] == CopyPhase(before, input, base)[k]
        invariant forall k :: i <= k < localSlice.Length ==> localSlice[k] == before[k]
      {
        if base + i < |input| {
          localSlice[i] := input[base + i];
        }
      }
    }

    /**
     * One round between two local barriers: lanes i < active with
     * i + active < bound call accumulateValue(i + active, i).
     */
    method HalvingRound(active: nat, bound: int)
      requires 2 * active <= localSlice.Length
      modifies localSlice
      ensures localSlice[..] == BarrierRound(old(localSlice[..]), active, bound)
    {
      ghost var s := localSlice[..];
      for i := 0 to localSlice.Length
        invariant forall k :: 0 <= k < i ==> localSlice[k] == BarrierRound(s, active, bound)[k]
        invariant forall k :: i <= k < localSlice.Length ==> localSlice[k] == s[k]
      {
        if i < active && i + active < bound {
          AccumulateValue(i + active, i);
        }
      }
    }

    /** The rounds of run(): `active` starts at half the local size and halves down to zero. */
    method HalvingRounds(bound: int)
      modifies localSlice
      ensures localSlice[..] == BarrierRounds(old(localSlice[..]), localSlice.Length / 2, bound)
    {
      var active: nat := localSlice.Length / 2;
      ghost var start := localSlice[..];
      while active > 0
        invariant 2 * active <= localSlice.Length
        invariant BarrierRounds(localSlice[..], active, bound) == BarrierRounds(start, localSlice.Length / 2, bound)
        decreases active
      {
        HalvingRound(active, bound);
        active := active / 2;
      }
    }

    /**
     * run() as written, for work-group `groupId`: the lane guard compares the
     * LOCAL index with the input length, so the rounds use `|input|` as bound.
     * It computes the group's sum when the group is the first one or is fully
     * populated; a partial group after the first adds stale slots.
     */
    method RunAsWritten(groupId: nat)
      requires localSlice.Length >= 1 && groupId < results.Length && localSlice != results
      modifies localSlice, results
      ensures var g := localSlice.Length; var base := groupId * g;
              localSlice[..] == BarrierRounds(CopyPhase(old(localSlice[..]), input, base), g / 2, |input|)
      ensures results[..] == old(results[..])[groupId := localSlice[0]]
      ensures var g := localSlice.Length; var base := groupId * g;
              IsPow2(g) && base < |input| && (base == 0 || base + g <= |input|) ==>
                results[groupId] == Sum(GroupSlice(input, base, g))
    {
      var g := localSlice.Length;
      var base := groupId * g;
      ghost var before := localSlice[..];
      CopySlice(base);
      HalvingRounds(|input|);
      AsWrittenGroupSum(before, input, base, localSlice[..]);
      results[groupId] := localSlice[0];
    }

    /**
     * run() with the guard on the global index, `base + i + active <
     * input.length`, as reduce.c has it: every group with a live element ends
     * with the sum of its live elements, whatever the local slice held before.
     */
    method Run(groupId: nat)
      requires localSlice.Length >= 1 && groupId < results.Length && localSlice != results
      modifies localSlice, results
      ensures var g := localSlice.Length; var base := groupId * g;
              localSlice[..] == BarrierRounds(CopyPhase(old(localSlice[..]), input, base), g / 2, |input| - base)
      ensures results[..] == old(results[..])[groupId := localSlice[0]]
      ensures var g := localSlice.Length; var base := groupId * g;
              IsPow2(g) && base < |input| ==> results[groupId] == Sum(GroupSlice(input, base, g))
    {
      var g := localSlice.Length;
      var base := groupId * g;
      ghost var before := localSlice[..];
      CopySlice(base);
      HalvingRounds(|input| - base);
      GroupSum(before, input, base, localSlice[..]);
      results[groupId] := localSlice[0];
    }

    /**
     * execute(Range.create(paddedSize, groupSize)): one run per work-group,
     * in order, on the shared local slice. With a power-of-two group size and
     * a live element in every group, slot g of `results` ends with group g's sum.
     */
    method Execute()
      requires localSlice.Length >= 1 && localSlice != results
      modifies localSlice, results
      ensures var g := localSlice.Length; var n := results.Length;
              IsPow2(g) && g * (n - 1) < |input| ==> results[..] == PassResult(input, g, n)
    {
      var g := localSlice.Length;
      var n := results.Length;
      ghost var sound := IsPow2(g) && g * (n - 1) < |input|;
      for groupId := 0 to n
        invariant sound ==> forall h :: 0 <= h < groupId ==> results[h] == Sum(Chunk(input, g, h))
      {
        if sound {
          GroupStartsInside(groupId, n, g, |input|);
        }
        RunGroup(groupId);
      }
      if sound {
        assert forall h :: 0 <= h < n ==> results[..][h] == PassResult(input, g, n)[h];
      }
    }

    /** One work-group of a launch; only results[groupId] changes. */
    method RunGroup(groupId: nat)
      requires localSlice.Length >= 1 && groupId < results.Length && localSlice != results
      modifies localSlice, results
      ensures forall h :: 0 <= h < results.Length && h != groupId ==> results[h] == old(results[h])
      ensures IsPow2(localSlice.Length) && groupId * localSlice.Length < |input| ==>
                results[groupId] == Sum(Chunk(input, localSlice.Length, groupId))
    {
      Run(groupId);
      if groupId * localSlice.Length < |input| {
        LiveChunk(input, localSlice.Length, groupId);
      }
    }

    /**
     * The first half of reduceArray: stores the input, plans a pass (an empty
     * input is Java's division by zero, after the input is stored), allocates
     * `results` and `localSlice` and launches. On success `results` holds the
     * pass's partial sums, which add up to the input's sum, and there are
     * fewer of them than input elements unless there is a single one.
     */
    method ReducePass(input: seq<int>) returns (r: Result<nat>)
      requires 2 <= maxWorkGroupSize <= 0x4000_0000 && IsPow2(maxWorkGroupSize)
      modifies this
      ensures this.input == input
      ensures r.Failure? <==> |input| == 0
      ensures r.Failure? ==> r.error == DivisionByZero && results == old(results) && localSlice == old(localSlice)
      ensures r.Success? ==> var p := PlanPass(|input|, maxWorkGroupSize, true).value;
                             r.value == p.numberOfGroups && fresh(results) && fresh(localSlice)
                             && results.Length == p.numberOfGroups && localSlice.Length == p.groupSize
                             && results[..] == PassResult(input, p.groupSize, p.numberOfGroups)
      ensures r.Success? ==> r.value >= 1 && (r.value > 1 ==> r.value < |input|) && Sum(results[..]) == Sum(input)
    {
      this.input := input;
      var plan := PlanPass(|input|, maxWorkGroupSize, true);
      PlanCoverage(|input|, maxWorkGroupSize, true);
      if plan.Failure? {
        return Failure(plan.error);
      }
      var groupSize := plan.value.groupSize;
      var numberOfGroups := plan.value.numberOfGroups;
      PowerOfTwoGroups(|input|, maxWorkGroupSize);
      results := new int[numberOfGroups](_ => 0);
      localSlice := new int[groupSize](_ => 0);
      Execute();
      ghost var partial := results[..];
      assert partial == PassResult(input, groupSize, numberOfGroups);
      PassPreservesSum(input, groupSize, numberOfGroups);
      if numberOfGroups > 1 {
        PlanShrinks(|input|, maxWorkGroupSize, true);
      }
      r := Success(numberOfGroups);
    }

    /**
     * reduceArray: one pass, then results[0] for a single group or a
     * recursive call on the results. The value is the sum of the input, and
     * the last pass leaves it as the only slot of `results`.
     */
    method ReduceArray(input: seq<int>) returns (r: Result<int>)
      requires 2 <= maxWorkGroupSize <= 0x4000_0000 && IsPow2(maxWorkGroupSize)
      modifies this
      ensures r.Failure? <==> |input| == 0
      ensures r.Failure? ==> r.error == DivisionByZero && this.input == input
      ensures r.Success? ==> r.value == Sum(input) && results.Length == 1 && results[0] == r.value
      decreases |input|
    {
      var pass := ReducePass(input);
      if pass.Failure? {
        return Failure(pass.error);
      }
      var partial := results[..];
      if pass.value == 1 {
        assert partial[1..] == [];
        return Success(results[0]);
      }
      r := ReduceArray(partial);
    }
  }

  /** The halving rounds of the corrected run() leave the group's sum in slot 0. */
  lemma GroupSum(before: seq<int>, input: seq<int>, base: nat, after: seq<int>)
    requires after == BarrierRounds(CopyPhase(before, input, base), |before| / 2, |input| - base)
    ensures IsPow2(|before|) && base < |input| ==> after[0] == Sum(GroupSlice(input, base, |before|))
  {
    if IsPow2(|before|) && base < |input| {
      BarrierGroupSum(before, input, base);
    }
  }

  /**
   * The halving rounds of run() as written leave the group's sum in slot 0
   * when the group is the first one or is fully populated.
   */
  lemma AsWrittenGroupSum(before: seq<int>, input: seq<int>, base: nat, after: seq<int>)
    requires after == BarrierRounds(CopyPhase(before, input, base), |before| / 2, |input|)
    ensures IsPow2(|before|) && base < |input| && (base == 0 || base + |before| <= |input|) ==>
              after[0] == Sum(GroupSlice(input, base, |before|))
  {
    if IsPow2(|before|) && base < |input| && (base == 0 || base + |before| <= |input|) {
      if base == 0 {
        BarrierGroupSum(before, input, 0);
      } else {
        BarrierGroupSum(before, input, base);
        FullGroupBound(before, input, base);
      }
    }
  }

  /** For a fully populated group the bound run() as written uses is as good as the group's own. */
  lemma FullGroupBound(before: seq<int>, input: seq<int>, base: nat)
    requires base + |before| <= |input|
    ensures BarrierRounds(CopyPhase(before, input, base), |before| / 2, |input|)
              == BarrierRounds(CopyPhase(before, input, base), |before| / 2, |input| - base)
  {
    var c := CopyPhase(before, input, base);
    assert |c| == |before|;
    BarrierRoundsFullBound(c, |before| / 2, |input|, |input| - base);
  }

  /**
   * The local-index guard on input [1, 2, 3, 4, 5] with a maximum work-group
   * size of 4: two groups of 4 run in order on one local slice that starts
   * zeroed. Group 0 leaves [10, 6, 3, 4] and writes 10; group 1 copies only
   * its one live element, then its lanes 0 and 1 pass the local guard and add
   * the stale slots 2 and 3, writing 18 instead of 5. The next pass returns
   * 28 where the sum is 15. With the global guard group 1 writes 5.
   */
  lemma LocalGuardCounterexample()
    ensures BarrierRounds(CopyPhase([0, 0, 0, 0], [1, 2, 3, 4, 5], 0), 2, 5) == [10, 6, 3, 4]
    ensures BarrierRounds(CopyPhase([10, 6, 3, 4], [1, 2, 3, 4, 5], 4), 2, 5)[0] == 18
    ensures BarrierRounds(CopyPhase([10, 6, 3, 4], [1, 2, 3, 4, 5], 4), 2, 5 - 4)[0] == 5
    ensures Sum(GroupSlice([1, 2, 3, 4, 5], 4, 4)) == 5 && Sum([1, 2, 3, 4, 5]) == 15 && Sum([10, 18]) == 28
  {
    var input := [1, 2, 3, 4, 5];
    var c0 := CopyPhase([0, 0, 0, 0], input, 0);
    assert c0 == [1, 2, 3, 4];
    assert BarrierRound(c0, 2, 5) == [4, 6, 3, 4];
    assert BarrierRound([4, 6, 3, 4], 1, 5) == [10, 6, 3, 4];
    var c1 := CopyPhase([10, 6, 3, 4], input, 4);
    assert c1 == [5, 6, 3, 4];
    assert BarrierRound(c1, 2, 5) == [8, 10, 3, 4];
    assert BarrierRound([8, 10, 3, 4], 1, 5) == [18, 10, 3, 4];
    assert BarrierRound(c1, 2, 1) == c1;
    assert BarrierRound(c1, 1, 1) == c1;
    assert GroupSlice(input, 4, 4) == [5];
  }
}
