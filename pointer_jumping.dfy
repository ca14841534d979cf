/**
 * The Aparapi pointer-jumping kernel: PointerJumpingKernel's accumulateArray,
 * run and accumulateValue.
 *
 * Lane i of a group owns slot i of `localSlice`, a pointer next[i] and a
 * private activity indicator. A slot holds the sum of the group's live values
 * from i up to (not including) next[i], or to the end of the live values once
 * next[i] points past the group. In a round every lane whose indicator is even
 * and whose pointer is inside the group adds its target's slot, takes over its
 * target's pointer and halves its indicator.
 *
 * A round is given as three functions on the state at the start of the round
 * (JumpLocal, JumpNext, JumpIndicator). The kernel runs the lanes in ascending
 * order, which computes exactly these functions because a lane only reads
 * slots and pointers of lanes above it. `ActivityRule` shows that no acting
 * lane's target acts in the same round, so any order of the lanes gives the
 * same round.
 */
module PointerJumping {
  import opened Sums
  import opened Outcomes
  import opened Planner
  import opened HalvingTree
  import opened Passes

  /** Every pointer that stays inside the group points forward. */
  ghost predicate Forward(next: seq<int>, groupSize: nat)
  {
    |next| == groupSize && forall k :: 0 <= k < groupSize && next[k] < groupSize ==> k < next[k]
  }

  /** Every pointer that stays inside the group points to one of the n live slots. */
  ghost predicate PointsToLive(next: seq<int>, groupSize: nat, n: nat)
    requires |next| == groupSize
  {
    forall k :: 0 <= k < groupSize && next[k] < groupSize ==> next[k] < n
  }

  /** Where the range owned by slot k ends: its pointer, or the end of the live values. */
  function End(next: seq<int>, groupSize: nat, n: nat, k: nat): int
    requires k < |next|
  {
    if next[k] < groupSize then next[k] else n
  }

  /** The range invariant: each live slot holds the sum of the live values it owns. */
  ghost predicate RangeSums(local: seq<int>, next: seq<int>, v: seq<int>, groupSize: nat)
  {
    && |local| == groupSize && |v| <= groupSize && Forward(next, groupSize) && PointsToLive(next, groupSize, |v|)
    && forall k :: 0 <= k < |v| ==> local[k] == Sum(v[k..End(next, groupSize, |v|, k)])
  }

  /** Lane k acts in a round: its indicator is even and its pointer is inside the group. */
  predicate Acting(next: seq<int>, indicator: seq<int>, groupSize: nat, k: nat)
    requires k < |next| && k < |indicator|
  {
    indicator[k] % 2 == 0 && next[k] < groupSize
  }

  /** Pointers after a round: an acting lane takes over its target's pointer. */
  function JumpNext(next: seq<int>, indicator: seq<int>, groupSize: nat): (r: seq<int>)
    requires Forward(next, groupSize) && |indicator| == groupSize
    ensures |r| == groupSize
  {
    seq(groupSize, k requires 0 <= k < groupSize =>
      if Acting(next, indicator, groupSize, k) then next[next[k]] else next[k])
  }

  /** Indicators after a round: an acting lane shifts its indicator right by one bit. */
  function JumpIndicator(next: seq<int>, indicator: seq<int>, groupSize: nat): (r: seq<int>)
    requires |next| == groupSize && |indicator| == groupSize
    ensures |r| == groupSize
  {
    seq(groupSize, k requires 0 <= k < groupSize =>
      if Acting(next, indicator, groupSize, k) then indicator[k] / 2 else indicator[k])
  }

  /** Slots after a round: an acting lane adds its target's slot. */
  function JumpLocal(local: seq<int>, next: seq<int>, indicator: seq<int>, groupSize: nat): (r: seq<int>)
    requires Forward(next, groupSize) && |indicator| == groupSize && |local| == groupSize
    ensures |r| == groupSize
  {
    seq(groupSize, k requires 0 <= k < groupSize =>
      if Acting(next, indicator, groupSize, k) then local[k] + local[next[k]] else local[k])
  }

  /**
   * The shape of the pointers after some rounds, with stride P = 2^rounds:
   * a lane at a multiple of P whose pointer is inside the group points exactly
   * P ahead and has indicator k / P; every other lane is idle for good (odd
   * indicator or pointer past the group).
   */
  ghost predicate Strided(next: seq<int>, indicator: seq<int>, groupSize: nat, stride: nat)
  {
    && stride >= 1 && |next| == groupSize && |indicator| == groupSize
    && (forall k :: 0 <= k < groupSize && k % stride == 0 && next[k] < groupSize ==>
          next[k] == k + stride && indicator[k] == k / stride)
    && (forall k :: 0 <= k < groupSize && k % stride != 0 ==>
          indicator[k] % 2 == 1 || next[k] >= groupSize)
  }

  /** k = d * q + r with 0 <= r < d fixes k / d and k % d. */
  lemma DivModUnique(k: int, d: int, q: int, r: int)
    requires d > 0 && k == d * q + r && 0 <= r < d
    ensures k / d == q && k % d == r
  {
    var q0 := k / d;
    var r0 := k % d;
    assert d * (q0 - q) == r - r0 by {
      assert k == d * q0 + r0;
      assert d * (q0 - q) == d * q0 - d * q;
    }
    MulAwayFromZero(d, q0 - q);
  }

  /** A nonzero multiple of d is at least d away from zero. */
  lemma MulAwayFromZero(d: int, e: int)
    requires d > 0
    ensures e == 0 || d * e >= d || d * e <= -d
  {
    if e >= 1 {
      MulMonotone(1, e, d);
    } else if e <= -1 {
      MulMonotone(e, -1, d);
    }
  }

  /** Division by 2P in two steps, by P and then by 2. */
  lemma DoubleStride(k: nat, stride: nat)
    requires stride >= 1
    ensures k / (2 * stride) == (k / stride) / 2
    ensures k % (2 * stride) == stride * ((k / stride) % 2) + k % stride
  {
    var q := k / stride;
    var r := k % stride;
    var q2 := q / 2;
    var b := q % 2;
    assert k == 2 * stride * q2 + (stride * b + r) by {
      assert k == stride * q + r;
      assert q == 2 * q2 + b;
      assert stride * q == stride * (2 * q2) + stride * b;
    }
    assert stride * b <= stride by {
      if b == 1 {
        assert stride * b == stride;
      } else {
        assert stride * b == 0;
      }
    }
    DivModUnique(k, 2 * stride, q2, stride * b + r);
  }

  /** The next multiple of P after a multiple of P. */
  lemma NextMultipleOfStride(k: nat, stride: nat)
    requires stride >= 1 && k % stride == 0
    ensures (k + stride) % stride == 0 && (k + stride) / stride == k / stride + 1
  {
    var q := k / stride;
    assert k == stride * q;
    DivModUnique(k + stride, stride, q + 1, 0);
  }

  /** Before the first round the pointers have stride one. */
  lemma InitialStride(next: seq<int>, indicator: seq<int>, groupSize: nat)
    requires |next| == groupSize && |indicator| == groupSize
    requires forall k :: 0 <= k < groupSize && next[k] < groupSize ==> next[k] == k + 1
    requires forall k :: 0 <= k < groupSize ==> indicator[k] == k
    ensures Strided(next, indicator, groupSize, 1)
  {
  }

  /**
   * The activity rule: in a round with stride P, no acting lane's target is
   * an acting lane, and a lane with an odd indicator stays as it is.
   */
  lemma ActivityRule(next: seq<int>, indicator: seq<int>, groupSize: nat, stride: nat)
    requires Strided(next, indicator, groupSize, stride) && Forward(next, groupSize)
    ensures forall k :: 0 <= k < groupSize && Acting(next, indicator, groupSize, k) ==>
              0 <= next[k] < groupSize && !Acting(next, indicator, groupSize, next[k])
    ensures forall k :: 0 <= k < groupSize && indicator[k] % 2 == 1 ==>
              JumpNext(next, indicator, groupSize)[k] == next[k]
              && JumpIndicator(next, indicator, groupSize)[k] == indicator[k]
  {
    forall k | 0 <= k < groupSize && Acting(next, indicator, groupSize, k)
      ensures 0 <= next[k] < groupSize && !Acting(next, indicator, groupSize, next[k])
    {
      assert k % stride == 0;
      var t := next[k];
      assert t == k + stride;
      NextMultipleOfStride(k, stride);
      if next[t] < groupSize {
        assert indicator[t] == k / stride + 1;
      }
    }
  }

  /** A round doubles the stride. */
  lemma {:induction false} JumpStrided(next: seq<int>, indicator: seq<int>, groupSize: nat, stride: nat)
    requires Strided(next, indicator, groupSize, stride) && Forward(next, groupSize)
    ensures Strided(JumpNext(next, indicator, groupSize), JumpIndicator(next, indicator, groupSize), groupSize, 2 * stride)
  {
    var next' := JumpNext(next, indicator, groupSize);
    var indicator' := JumpIndicator(next, indicator, groupSize);
    forall k | 0 <= k < groupSize && k % (2 * stride) == 0 && next'[k] < groupSize
      ensures next'[k] == k + 2 * stride && indicator'[k] == k / (2 * stride)
    {
      DoubleStride(k, stride);
      assert k % stride == 0 && (k / stride) % 2 == 0;
      assert Acting(next, indicator, groupSize, k);
      var t := next[k];
      NextMultipleOfStride(k, stride);
      assert next'[k] == next[t];
    }
    forall k | 0 <= k < groupSize && k % (2 * stride) != 0
      ensures indicator'[k] % 2 == 1 || next'[k] >= groupSize
    {
      DoubleStride(k, stride);
      if k % stride == 0 {
        assert (k / stride) % 2 == 1;
      }
    }
  }

  /** A round keeps pointers forward. */
  lemma JumpForward(next: seq<int>, indicator: seq<int>, groupSize: nat)
    requires Forward(next, groupSize) && |indicator| == groupSize
    ensures Forward(JumpNext(next, indicator, groupSize), groupSize)
  {
  }

  /** A round keeps pointers inside the live values. */
  lemma JumpPointsToLive(next: seq<int>, indicator: seq<int>, groupSize: nat, n: nat)
    requires Forward(next, groupSize) && PointsToLive(next, groupSize, n) && |indicator| == groupSize
    ensures PointsToLive(JumpNext(next, indicator, groupSize), groupSize, n)
  {
  }

  /** A round keeps the range invariant. */
  lemma JumpRangeSums(local: seq<int>, next: seq<int>, indicator: seq<int>, v: seq<int>, groupSize: nat)
    requires RangeSums(local, next, v, groupSize) && |indicator| == groupSize
    ensures RangeSums(JumpLocal(local, next, indicator, groupSize), JumpNext(next, indicator, groupSize), v, groupSize)
  {
    var n := |v|;
    var next' := JumpNext(next, indicator, groupSize);
    var local' := JumpLocal(local, next, indicator, groupSize);
    JumpForward(next, indicator, groupSize);
    JumpPointsToLive(next, indicator, groupSize, n);
    forall k | 0 <= k < n
      ensures local'[k] == Sum(v[k..End(next', groupSize, n, k)])
    {
      if Acting(next, indicator, groupSize, k) {
        var t := next[k];
        assert End(next', groupSize, n, k) == End(next, groupSize, n, t);
        SumAdjacent(v, k, t, End(next, groupSize, n, t));
      }
    }
  }

  /** The state of a group between rounds: slots, pointers and every lane's activity indicator. */
  datatype JumpState = JumpState(local: seq<int>, next: seq<int>, indicator: seq<int>)

  /**
   * What every round needs: the group is not empty, pointers point forward
   * and lane 0's indicator is zero (it is never odd, so lane 0 acts while its
   * pointer is inside the group).
   */
  ghost predicate Runnable(st: JumpState, groupSize: nat)
  {
    groupSize >= 1 && |st.local| == groupSize && |st.indicator| == groupSize
    && Forward(st.next, groupSize) && st.indicator[0] == 0
  }

  /** One round of all lanes; it keeps the group runnable and advances lane 0. */
  function Round(st: JumpState, groupSize: nat): (r: JumpState)
    requires Runnable(st, groupSize)
    ensures Runnable(r, groupSize)
    ensures st.next[0] < groupSize ==> r.next[0] > st.next[0]
  {
    JumpForward(st.next, st.indicator, groupSize);
    JumpState(JumpLocal(st.local, st.next, st.indicator, groupSize),
              JumpNext(st.next, st.indicator, groupSize),
              JumpIndicator(st.next, st.indicator, groupSize))
  }

  /** The main loop: rounds until lane 0's pointer leaves the group. */
  function Rounds(st: JumpState, groupSize: nat): (r: JumpState)
    requires Runnable(st, groupSize)
    ensures Runnable(r, groupSize) && r.next[0] >= groupSize
    decreases groupSize - st.next[0]
  {
    if st.next[0] >= groupSize then st else Rounds(Round(st, groupSize), groupSize)
  }

  /**
   * Initial pointers: lane k points to k + 1 when its global index is before
   * the last input element, and past the group (to the global size) otherwise.
   */
  function InitNext(inputLength: nat, base: nat, groupSize: nat, globalSize: nat): (r: seq<int>)
    ensures |r| == groupSize
  {
    seq(groupSize, k requires 0 <= k < groupSize => if base + k < inputLength - 1 then k + 1 else globalSize)
  }

  /** The state after the copy phase; lane k's indicator starts as its local index. */
  function InitialState(local: seq<int>, input: seq<int>, base: nat, globalSize: nat): (r: JumpState)
    requires 1 <= |local| <= globalSize
    ensures Runnable(r, |local|)
  {
    JumpState(CopyPhase(local, input, base), InitNext(|input|, base, |local|, globalSize), seq(|local|, k => k))
  }

  /** The copy phase sets up the range invariant with stride one. */
  lemma InitialInvariants(local: seq<int>, input: seq<int>, base: nat, globalSize: nat)
    requires 1 <= |local| <= globalSize && base <= |input|
    ensures var st := InitialState(local, input, base, globalSize); var g := |local|;
            && RangeSums(st.local, st.next, GroupSlice(input, base, g), g)
            && Strided(st.next, st.indicator, g, 1)
  {
    var st := InitialState(local, input, base, globalSize);
    var g := |local|;
    var v := GroupSlice(input, base, g);
    var n := |v|;
    forall k | 0 <= k < n
      ensures st.local[k] == Sum(v[k..End(st.next, g, n, k)])
    {
      assert End(st.next, g, n, k) == k + 1;
      assert v[k..k + 1] == [input[base + k]];
    }
    InitialStride(st.next, st.indicator, g);
  }

  /** Rounds keep the range invariant, so slot 0 ends with the group's sum. */
  lemma {:induction false} RoundsSum(st: JumpState, v: seq<int>, groupSize: nat)
    requires Runnable(st, groupSize) && RangeSums(st.local, st.next, v, groupSize)
    ensures RangeSums(Rounds(st, groupSize).local, Rounds(st, groupSize).next, v, groupSize)
    ensures |v| >= 1 ==> Rounds(st, groupSize).local[0] == Sum(v)
    decreases groupSize - st.next[0]
  {
    if st.next[0] < groupSize {
      JumpRangeSums(st.local, st.next, st.indicator, v, groupSize);
      RoundsSum(Round(st, groupSize), v, groupSize);
    } else if |v| >= 1 {
      assert v[0..|v|] == v;
    }
  }

  /**
   * Pointer-jumping sum: for a group with a live element, slot 0 after the
   * main loop is the sum of the group's live input elements.
   */
  lemma GroupSum(local: seq<int>, input: seq<int>, base: nat, globalSize: nat)
    requires 1 <= |local| <= globalSize && base < |input|
    ensures Rounds(InitialState(local, input, base, globalSize), |local|).local[0] == Sum(GroupSlice(input, base, |local|))
  {
    InitialInvariants(local, input, base, globalSize);
    RoundsSum(InitialState(local, input, base, globalSize), GroupSlice(input, base, |local|), |local|);
  }

  /** In this round no acting lane's target acts. */
  ghost predicate NoActingTarget(st: JumpState, groupSize: nat)
    requires Runnable(st, groupSize)
  {
    forall k :: 0 <= k < groupSize && Acting(st.next, st.indicator, groupSize, k) ==>
      !Acting(st.next, st.indicator, groupSize, st.next[k])
  }

  /** In this round and every later one, no acting lane's target acts. */
  ghost predicate RaceFree(st: JumpState, groupSize: nat)
    requires Runnable(st, groupSize)
    decreases groupSize - st.next[0]
  {
    st.next[0] >= groupSize || (NoActingTarget(st, groupSize) && RaceFree(Round(st, groupSize), groupSize))
  }

  /** The stride shape makes every remaining round race-free. */
  lemma {:induction false} StridedRaceFree(st: JumpState, groupSize: nat, stride: nat)
    requires Runnable(st, groupSize) && Strided(st.next, st.indicator, groupSize, stride)
    ensures RaceFree(st, groupSize)
    decreases groupSize - st.next[0]
  {
    if st.next[0] < groupSize {
      ActivityRule(st.next, st.indicator, groupSize, stride);
      JumpStrided(st.next, st.indicator, groupSize, stride);
      StridedRaceFree(Round(st, groupSize), groupSize, 2 * stride);
    }
  }

  /**
   * The activity rule over a whole run: in every round of the main loop no
   * acting lane reads a slot or pointer that another acting lane writes, so
   * the lanes of a round may run in any order.
   */
  lemma RunIsRaceFree(local: seq<int>, input: seq<int>, base: nat, globalSize: nat)
    requires 1 <= |local| <= globalSize && base <= |input|
    ensures RaceFree(InitialState(local, input, base, globalSize), |local|)
  {
    InitialInvariants(local, input, base, globalSize);
    StridedRaceFree(InitialState(local, input, base, globalSize), |local|, 1);
  }

  class PointerJumpingKernel {
    /** The target device's maximum work-group size. */
    const maxWorkGroupSize: nat

    var input: seq<int>
    var results: array<int>
    var localSlice: array<int>
    var next: array<int>

    constructor (maxWorkGroupSize: nat)
      ensures this.maxWorkGroupSize == maxWorkGroupSize && input == []
      ensures fresh(results) && fresh(localSlice) && fresh(next)
      ensures results.Length == 0 && localSlice.Length == 0 && next.Length == 0
    {
      this.maxWorkGroupSize := maxWorkGroupSize;
      input := [];
      results := new int[0];
      localSlice := new int[0];
      next := new int[0];
    }

    /** accumulateValue: adds slot `fromIndex` into slot `intoIndex`; no other slot changes. */
    method AccumulateValue(fromIndex: nat, intoIndex: nat)
      requires fromIndex < localSlice.Length && intoIndex < localSlice.Length
      modifies localSlice
      ensures localSlice[..] == old(localSlice[..])[intoIndex := old(localSlice[intoIndex]) + old(localSlice[fromIndex])]
    {
      localSlice[intoIndex] := localSlice[intoIndex] + localSlice[fromIndex];
    }

    /**
     * The copy phase of run(): lane k copies its input element when its
     * global index is inside the input and sets its pointer.
     */
    method Initialize(base: nat, globalSize: nat)
      requires 1 <= localSlice.Length <= globalSize && next.Length == localSlice.Length && localSlice != next
      modifies localSlice, next
      ensures var st := InitialState(old(localSlice[..]), input, base, globalSize);
              localSlice[..] == st.local && next[..] == st.next
    {
      ghost var before := localSlice[..];
      var g := localSlice.Length;
      for i := 0 to g
        invariant forall k :: 0 <= k < i ==> localSlice[k] == CopyPhase(before, input, base)[k]
        invariant forall k :: i <= k < g ==> localSlice[k] == before[k]
        invariant forall k :: 0 <= k < i ==> next[k] == InitNext(|input|, base, g, globalSize)[k]
      {
        var globalIndex := base + i;
        if globalIndex < |input| - 1 {
          next[i] := i + 1;
          localSlice[i] := input[globalIndex];
        } else {
          next[i] := globalSize;
          if globalIndex == |input| - 1 {
            localSlice[i] := input[globalIndex];
          }
        }
      }
    }

    /**
     * One round of the main loop, the lanes in ascending order. Lane k reads
     * only slots and pointers at next[k] > k, which no earlier lane has
     * written, so the round is the one given by the state at its start.
     * `indicator` holds every lane's private activity indicator.
     */
    method Jump(indicator: seq<int>) returns (indicator': seq<int>)
      requires Runnable(JumpState(localSlice[..], next[..], indicator), localSlice.Length) && localSlice != next
      modifies localSlice, next
      ensures JumpState(localSlice[..], next[..], indicator') == Round(JumpState(old(localSlice[..]), old(next[..]), indicator), localSlice.Length)
    {
      var g := localSlice.Length;
      ghost var s := localSlice[..];
      ghost var nx := next[..];
      ghost var local' := JumpLocal(s, nx, indicator, g);
      ghost var next' := JumpNext(nx, indicator, g);
      ghost var acting' := JumpIndicator(nx, indicator, g);
      indicator' := indicator;
      for i := 0 to g
        invariant |indicator'| == g
        invariant forall k :: 0 <= k < i ==> localSlice[k] == local'[k] && next[k] == next'[k] && indicator'[k] == acting'[k]
        invariant forall k :: i <= k < g ==> localSlice[k] == s[k] && next[k] == nx[k] && indicator'[k] == indicator[k]
      {
        if indicator'[i] % 2 == 0 && next[i] < g {
          AccumulateValue(next[i], i);
          next[i] := next[next[i]];
          indicator' := indicator'[i := indicator'[i] / 2];
        }
      }
      assert localSlice[..] == local';
      assert next[..] == next';
      assert indicator' == acting';
    }

    /**
     * run() for one work-group: the copy phase, rounds while next[0] is
     * inside the group, then lane 0 writes slot 0 to results[groupId]. With
     * a live element in the group that value is the sum of its live elements.
     */
    method Run(groupId: nat, globalSize: nat)
      requires 1 <= localSlice.Length <= globalSize && next.Length == localSlice.Length && groupId < results.Length
      requires localSlice != next && localSlice != results && next != results
      modifies localSlice, next, results
      ensures var st := Rounds(InitialState(old(localSlice[..]), input, groupId * localSlice.Length, globalSize), localSlice.Length);
              localSlice[..] == st.local && next[..] == st.next
      ensures results[..] == old(results[..])[groupId := localSlice[0]]
      ensures var base := groupId * localSlice.Length;
              base < |input| ==> results[groupId] == Sum(GroupSlice(input, base, localSlice.Length))
    {
      var g := localSlice.Length;
      var base := groupId * g;
      ghost var before := localSlice[..];
      var indicator := seq(g, k => k);
      Initialize(base, globalSize);
      ghost var start := InitialState(before, input, base, globalSize);
      assert JumpState(localSlice[..], next[..], indicator) == start;
      while next[0] < g
        invariant Runnable(JumpState(localSlice[..], next[..], indicator), g)
        invariant Rounds(JumpState(localSlice[..], next[..], indicator), g) == Rounds(start, g)
        invariant unchanged(results)
        decreases g - next[0]
      {
        indicator := Jump(indicator);
      }
      results[groupId] := localSlice[0];
      if base < |input| {
        GroupSum(before, input, base, globalSize);
      }
    }

    /**
     * execute(Range.create(paddedSize, groupSize)): one run per work-group,
     * in order, on the shared local arrays. With a live element in every
     * group, slot g of `results` ends with group g's sum.
     */
    method Execute(globalSize: nat)
      requires 1 <= localSlice.Length <= globalSize && next.Length == localSlice.Length
      requires localSlice != next && localSlice != results && next != results
      modifies localSlice, next, results
      ensures var g := localSlice.Length; var n := results.Length;
              g * (n - 1) < |input| ==> results[..] == PassResult(input, g, n)
    {
      var g := localSlice.Length;
      var n := results.Length;
      ghost var sound := g * (n - 1) < |input|;
      for groupId := 0 to n
        invariant sound ==> forall h :: 0 <= h < groupId ==> results[h] == Sum(Chunk(input, g, h))
      {
        if sound {
          GroupStartsInside(groupId, n, g, |input|);
        }
        RunGroup(groupId, globalSize);
      }
      if sound {
        assert forall h :: 0 <= h < n ==> results[..][h] == PassResult(input, g, n)[h];
      }
    }

    /** One work-group of a launch; only results[groupId] changes. */
    method RunGroup(groupId: nat, globalSize: nat)
      requires 1 <= localSlice.Length <= globalSize && next.Length == localSlice.Length && groupId < results.Length
      requires localSlice != next && localSlice != results && next != results
      modifies localSlice, next, results
      ensures forall h :: 0 <= h < results.Length && h != groupId ==> results[h] == old(results[h])
      ensures groupId * localSlice.Length < |input| ==>
                results[groupId] == Sum(Chunk(input, localSlice.Length, groupId))
    {
      Run(groupId, globalSize);
      if groupId * localSlice.Length < |input| {
        LiveChunk(input, localSlice.Length, groupId);
      }
    }

    /**
     * The first half of accumulateArray: stores the input, plans a pass
     * without power-of-two rounding (an empty input is Java's division by
     * zero, after the input is stored), allocates `results`, `localSlice` and
     * `next` and launches paddedSize work-items. On success `results` holds
     * the pass's partial sums, which add up to the input's sum, and there are
     * fewer of them than input elements unless there is a single one.
     */
    method AccumulatePass(input: seq<int>) returns (r: Result<nat>)
      requires 2 <= maxWorkGroupSize <= 0x4000_0000
      modifies this
      ensures this.input == input
      ensures r.Failure? <==> |input| == 0
      ensures r.Failure? ==> r.error == DivisionByZero && results == old(results)
                             && localSlice == old(localSlice) && next == old(next)
      ensures r.Success? ==> var p := PlanPass(|input|, maxWorkGroupSize, false).value;
                             r.value == p.numberOfGroups && fresh(results) && fresh(localSlice) && fresh(next)
                             && results.Length == p.numberOfGroups && localSlice.Length == p.groupSize
                             && next.Length == p.groupSize
                             && results[..] == PassResult(input, p.groupSize, p.numberOfGroups)
      ensures r.Success? ==> r.value >= 1 && (r.value > 1 ==> r.value < |input|) && Sum(results[..]) == Sum(input)
    {
      this.input := input;
      var plan := PlanPass(|input|, maxWorkGroupSize, false);
      PlanCoverage(|input|, maxWorkGroupSize, false);
      if plan.Failure? {
        return Failure(plan.error);
      }
      var groupSize := plan.value.groupSize;
      var numberOfGroups := plan.value.numberOfGroups;
      var paddedSize := plan.value.paddedSize;
      MulMonotone(1, numberOfGroups, groupSize);
      results := new int[numberOfGroups](_ => 0);
      localSlice := new int[groupSize](_ => 0);
      next := new int[groupSize](_ => 0);
      Execute(paddedSize);
      ghost var partial := results[..];
      assert partial == PassResult(input, groupSize, numberOfGroups);
      PassPreservesSum(input, groupSize, numberOfGroups);
      if numberOfGroups > 1 {
        PlanShrinks(|input|, maxWorkGroupSize, false);
      }
      r := Success(numberOfGroups);
    }

    /**
     * accumulateArray: one pass, then results[0] for a single group or a
     * recursive call on the results. The value is the sum of the input, and
     * the last pass leaves it as the only slot of `results`.
     */
    method AccumulateArray(input: seq<int>) returns (r: Result<int>)
      requires 2 <= maxWorkGroupSize <= 0x4000_0000
      modifies this
      ensures r.Failure? <==> |input| == 0
      ensures r.Failure? ==> r.error == DivisionByZero && this.input == input
      ensures r.Success? ==> r.value == Sum(input) && results.Length == 1 && results[0] == r.value
      decreases |input|
    {
      var pass := AccumulatePass(input);
      if pass.Failure? {
        return Failure(pass.error);
      }
      var partial := results[..];
      if pass.value == 1 {
        assert partial[1..] == [];
        return Success(results[0]);
      }
      r := AccumulateArray(partial);
    }
  }
}
