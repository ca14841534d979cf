/**
 * One work-group's halving-tree reduction as values: the copy phase, one
 * round in barrier style and in lock-step (SIMD) style, the whole loops of
 * reduceBarrier, reduceSimd and reduceHybrid, and the proof that slot 0 ends
 * with the sum of the group's live elements.
 *
 * A round is given with snapshot semantics: every lane reads the slots as they
 * were when the round started and then every lane writes. `bound` is the number
 * of live elements from the group's first slot on (inputLength minus the
 * group's base for the global-index guard of reduce.c), so the lane guard
 * `globalIndex + active < inputLength` reads `k + active < bound`.
 */
module HalvingTree {
  import opened Sums
  import opened PowersOfTwo
  import opened Planner

  /** The live part of a group: input[base..] cut at the end of the group or of the input. */
  function GroupSlice(input: seq<int>, base: nat, groupSize: nat): seq<int>
    requires base <= |input|
  {
    input[base..Min(base + groupSize, |input|)]
  }

  /**
   * Copy phase: lane i copies input[base + i] when that global index is inside
   * the input; every other slot keeps whatever it held before.
   */
  function CopyPhase(local: seq<int>, input: seq<int>, base: nat): seq<int>
  {
    seq(|local|, i requires 0 <= i < |local| => if base + i < |input| then input[base + i] else local[i])
  }

  /**
   * One barrier round: lanes k < active whose partner is live add slot
   * k + active into slot k. Slots from `active` on are never written.
   */
  function BarrierRound(s: seq<int>, active: nat, bound: int): (r: seq<int>)
    requires 2 * active <= |s|
    ensures |r| == |s|
    ensures forall k :: active <= k < |s| ==> r[k] == s[k]
  {
    seq(|s|, k requires 0 <= k < |s| =>
      if k < active && k + active < bound then s[k] + s[k + active] else s[k])
  }

  /** `while (active > 0) { round; active >>= 1; }` with barrier rounds. */
  function BarrierRounds(s: seq<int>, active: nat, bound: int): (r: seq<int>)
    requires 2 * active <= |s|
    ensures |r| == |s|
    decreases active
  {
    if active == 0 then s else BarrierRounds(BarrierRound(s, active, bound), active / 2, bound)
  }

  /**
   * What a lane reads at local offset j: the slot when it exists, otherwise
   * the unspecified content `overrun(j)` past the end of the group's local
   * region (the lock-step loops have no `i < active` test and can reach it).
   */
  function ReadLocal(s: seq<int>, j: nat, overrun: nat -> int): int
  {
    if j < |s| then s[j] else overrun(j)
  }

  /**
   * One lock-step round: the first `lanes` lanes all run the update when their
   * partner is live, with no `k < active` test; all read, then all write.
   */
  function SimdRound(s: seq<int>, active: nat, bound: int, lanes: nat, overrun: nat -> int): (r: seq<int>)
    requires 2 * active <= |s| && active <= lanes <= |s|
    ensures |r| == |s|
  {
    seq(|s|, k requires 0 <= k < |s| =>
      if k < lanes && k + active < bound then s[k] + ReadLocal(s, k + active, overrun) else s[k])
  }

  /** The lock-step loop of reduceSimd (all lanes) or of reduceHybrid's tail. */
  function SimdRounds(s: seq<int>, active: nat, bound: int, lanes: nat, overrun: nat -> int): (r: seq<int>)
    requires 2 * active <= |s| && active <= lanes <= |s|
    ensures |r| == |s|
    decreases active
  {
    if active == 0 then s else SimdRounds(SimdRound(s, active, bound, lanes, overrun), active / 2, bound, lanes, overrun)
  }

  /**
   * reduceHybrid: barrier rounds while active > simdWidth; then lanes from
   * simdWidth on leave and the remaining ones finish in lock-step.
   */
  function HybridRounds(s: seq<int>, active: nat, bound: int, simdWidth: nat, overrun: nat -> int): (r: seq<int>)
    requires 2 * active <= |s|
    ensures |r| == |s|
    decreases active
  {
    if active > simdWidth then HybridRounds(BarrierRound(s, active, bound), active / 2, bound, simdWidth, overrun)
    else SimdRounds(s, active, bound, Min(|s|, simdWidth), overrun)
  }

  /**
   * Once the bound reaches the end of the group every partner is live, and a
   * larger bound changes nothing.
   */
  lemma {:induction false} BarrierRoundsFullBound(s: seq<int>, active: nat, b1: int, b2: int)
    requires 2 * active <= |s| && b1 >= |s| && b2 >= |s|
    ensures BarrierRounds(s, active, b1) == BarrierRounds(s, active, b2)
    decreases active
  {
    if active > 0 {
      assert BarrierRound(s, active, b1) == BarrierRound(s, active, b2);
      BarrierRoundsFullBound(BarrierRound(s, active, b1), active / 2, b1, b2);
    }
  }

  /** Number of rounds of a halving loop started at `active`. */
  function HalvingRoundCount(active: nat): nat
  {
    if active == 0 then 0 else 1 + HalvingRoundCount(active / 2)
  }

  /** A group of 2^k lanes runs exactly k rounds. */
  lemma {:induction false} RoundCountIsLog(k: nat)
    ensures HalvingRoundCount(Pow2(k) / 2) == k
  {
    if k > 0 {
      RoundCountIsLog(k - 1);
      assert Pow2(k) / 2 == Pow2(k - 1);
      if k == 1 {
        assert Pow2(k - 1) / 2 == 0;
      } else {
        assert Pow2(k - 1) / 2 == Pow2(k - 2);
      }
    }
  }

  /**
   * The tree invariant at stride m: slot i (i < m) holds the sum of the live
   * values v[i], v[i+m], v[i+2m], ...
   */
  ghost predicate TreeInv(s: seq<int>, v: seq<int>, m: nat)
  {
    m >= 1 && |v| <= |s| && forall i :: 0 <= i < |v| && i < m ==> s[i] == StrideSum(v, i, m)
  }

  /** The stride that a halving loop about to run round `active` has reached. */
  function Stride(active: nat): nat
  {
    if active == 0 then 1 else 2 * active
  }

  /** One barrier round halves the stride of the tree invariant. */
  lemma BarrierRoundStep(s: seq<int>, v: seq<int>, active: nat, bound: int)
    requires active >= 1 && 2 * active <= |s| && bound >= 0 && |v| == Min(bound, |s|)
    requires TreeInv(s, v, 2 * active)
    ensures TreeInv(BarrierRound(s, active, bound), v, active)
  {
    var r := BarrierRound(s, active, bound);
    forall i | 0 <= i < |v| && i < active
      ensures r[i] == StrideSum(v, i, active)
    {
      StrideSplit(v, i, active);
      if i + active >= |v| {
        assert StrideSum(v, i + active, 2 * active) == 0;
      }
    }
  }

  lemma {:induction false} BarrierRoundsStep(s: seq<int>, v: seq<int>, active: nat, bound: int)
    requires active == 0 || IsPow2(active)
    requires 2 * active <= |s| && bound >= 0 && |v| == Min(bound, |s|)
    requires TreeInv(s, v, Stride(active))
    ensures TreeInv(BarrierRounds(s, active, bound), v, 1)
    decreases active
  {
    if active >= 1 {
      BarrierRoundStep(s, v, active, bound);
      if active >= 2 {
        Pow2Half(active);
      }
      BarrierRoundsStep(BarrierRound(s, active, bound), v, active / 2, bound);
    }
  }

  /**
   * On the slots below `active`, which are all that later rounds read, a
   * lock-step round agrees with a barrier round: the extra lanes only write
   * slots at or above `active`.
   */
  lemma SimdRoundAgrees(s: seq<int>, active: nat, bound: int, lanes: nat, overrun: nat -> int)
    requires 2 * active <= |s| && active <= lanes <= |s|
    ensures forall k :: 0 <= k < active ==>
              SimdRound(s, active, bound, lanes, overrun)[k] == BarrierRound(s, active, bound)[k]
  {
    forall k | 0 <= k < active
      ensures SimdRound(s, active, bound, lanes, overrun)[k] == BarrierRound(s, active, bound)[k]
    {
      assert ReadLocal(s, k + active, overrun) == s[k + active];
    }
  }

  /**
   * Without the `i < active` test the last lane of the first lock-step round
   * reads half a group past the end of the local region whenever its partner
   * index is below the bound, and its slot then depends on that read.
   */
  lemma SimdRoundReadsPastRegion(s: seq<int>, bound: int, overrun: nat -> int)
    requires |s| >= 2 && |s| - 1 + |s| / 2 < bound
    ensures |s| - 1 + |s| / 2 >= |s|
    ensures SimdRound(s, |s| / 2, bound, |s|, overrun)[|s| - 1] == s[|s| - 1] + overrun(|s| - 1 + |s| / 2)
  {
    var j := |s| - 1 + |s| / 2;
    assert ReadLocal(s, j, overrun) == overrun(j);
  }

  /** One lock-step round halves the stride just as a barrier round does. */
  lemma SimdRoundStep(s: seq<int>, v: seq<int>, active: nat, bound: int, lanes: nat, overrun: nat -> int)
    requires active >= 1 && 2 * active <= |s| && active <= lanes <= |s|
    requires bound >= 0 && |v| == Min(bound, |s|)
    requires TreeInv(s, v, 2 * active)
    ensures TreeInv(SimdRound(s, active, bound, lanes, overrun), v, active)
  {
    BarrierRoundStep(s, v, active, bound);
    SimdRoundAgrees(s, active, bound, lanes, overrun);
  }

  lemma {:induction false} SimdRoundsStep(s: seq<int>, v: seq<int>, active: nat, bound: int, lanes: nat, overrun: nat -> int)
    requires active == 0 || IsPow2(active)
    requires 2 * active <= |s| && active <= lanes <= |s| && bound >= 0 && |v| == Min(bound, |s|)
    requires TreeInv(s, v, Stride(active))
    ensures TreeInv(SimdRounds(s, active, bound, lanes, overrun), v, 1)
    decreases active
  {
    if active >= 1 {
      SimdRoundStep(s, v, active, bound, lanes, overrun);
      if active >= 2 {
        Pow2Half(active);
      }
      SimdRoundsStep(SimdRound(s, active, bound, lanes, overrun), v, active / 2, bound, lanes, overrun);
    }
  }

  lemma {:induction false} HybridRoundsStep(s: seq<int>, v: seq<int>, active: nat, bound: int, simdWidth: nat, overrun: nat -> int)
    requires active == 0 || IsPow2(active)
    requires 2 * active <= |s| && bound >= 0 && |v| == Min(bound, |s|)
    requires TreeInv(s, v, Stride(active))
    ensures TreeInv(HybridRounds(s, active, bound, simdWidth, overrun), v, 1)
    decreases active
  {
    if active > simdWidth {
      BarrierRoundStep(s, v, active, bound);
      if active >= 2 {
        Pow2Half(active);
      }
      HybridRoundsStep(BarrierRound(s, active, bound), v, active / 2, bound, simdWidth, overrun);
    } else {
      SimdRoundsStep(s, v, active, bound, Min(|s|, simdWidth), overrun);
    }
  }

  /** Before the first round a power-of-two group holds the tree invariant at stride |s|. */
  lemma InitialTree(s: seq<int>, bound: int)
    requires IsPow2(|s|) && bound >= 1
    ensures Stride(|s| / 2) == |s|
    ensures TreeInv(s, s[..Min(bound, |s|)], |s|)
  {
    if |s| >= 2 {
      Pow2Half(|s|);
    }
    var v := s[..Min(bound, |s|)];
    forall i | 0 <= i < |v| && i < |s|
      ensures s[i] == StrideSum(v, i, |s|)
    {
      assert StrideSum(v, i + |s|, |s|) == 0;
    }
  }

  /** At stride one, slot 0 holds the whole sum. */
  lemma FinalTree(s: seq<int>, v: seq<int>)
    requires TreeInv(s, v, 1) && |v| >= 1
    ensures s[0] == Sum(v)
  {
    StrideSumUnit(v, 0);
    assert v[0..] == v;
  }

  /**
   * reduceBarrier's loop: on a power-of-two group, slot 0 ends with the sum of
   * the slots below `bound`; slots from `bound` on (padding) do not matter.
   */
  lemma BarrierRoundsSum(s: seq<int>, v: seq<int>, bound: int)
    requires IsPow2(|s|) && bound >= 1 && v == s[..Min(bound, |s|)]
    ensures BarrierRounds(s, |s| / 2, bound)[0] == Sum(v)
  {
    InitialTree(s, bound);
    if |s| >= 2 {
      Pow2Half(|s|);
    }
    BarrierRoundsStep(s, v, |s| / 2, bound);
    FinalTree(BarrierRounds(s, |s| / 2, bound), v);
  }

  /**
   * reduceSimd's loop under lock-step semantics: the same sum, whatever the
   * lanes at or above `active` write and whatever out-of-range reads return.
   */
  lemma SimdRoundsSum(s: seq<int>, v: seq<int>, bound: int, overrun: nat -> int)
    requires IsPow2(|s|) && bound >= 1 && v == s[..Min(bound, |s|)]
    ensures SimdRounds(s, |s| / 2, bound, |s|, overrun)[0] == Sum(v)
  {
    InitialTree(s, bound);
    if |s| >= 2 {
      Pow2Half(|s|);
    }
    SimdRoundsStep(s, v, |s| / 2, bound, |s|, overrun);
    FinalTree(SimdRounds(s, |s| / 2, bound, |s|, overrun), v);
  }

  /** reduceHybrid's two loops together: the same sum as reduceBarrier, for any SIMD width. */
  lemma HybridRoundsSum(s: seq<int>, v: seq<int>, bound: int, simdWidth: nat, overrun: nat -> int)
    requires IsPow2(|s|) && bound >= 1 && v == s[..Min(bound, |s|)]
    ensures HybridRounds(s, |s| / 2, bound, simdWidth, overrun)[0] == Sum(v)
  {
    InitialTree(s, bound);
    if |s| >= 2 {
      Pow2Half(|s|);
    }
    HybridRoundsStep(s, v, |s| / 2, bound, simdWidth, overrun);
    FinalTree(HybridRounds(s, |s| / 2, bound, simdWidth, overrun), v);
  }

  /** After the copy phase the live slots of a group hold exactly its slice of the input. */
  lemma CopyPhaseLive(local: seq<int>, input: seq<int>, base: nat)
    requires base < |input|
    ensures |CopyPhase(local, input, base)| == |local|
    ensures GroupSlice(input, base, |local|) == CopyPhase(local, input, base)[..Min(|input| - base, |local|)]
  {
    var c := CopyPhase(local, input, base);
    var m := Min(|input| - base, |local|);
    assert base + m == Min(base + |local|, |input|);
    forall i | 0 <= i < m ensures c[..m][i] == GroupSlice(input, base, |local|)[i] {
      assert c[i] == input[base + i];
    }
  }

  /**
   * reduceBarrier on one group: slot 0 ends with the sum of the group's live
   * elements. Padding slots, which the copy phase leaves as they were, never
   * contribute.
   */
  lemma BarrierGroupSum(local: seq<int>, input: seq<int>, base: nat)
    requires IsPow2(|local|) && base < |input|
    ensures BarrierRounds(CopyPhase(local, input, base), |local| / 2, |input| - base)[0]
              == Sum(GroupSlice(input, base, |local|))
  {
    CopyPhaseLive(local, input, base);
    BarrierRoundsSum(CopyPhase(local, input, base), GroupSlice(input, base, |local|), |input| - base);
  }

  /** reduceSimd on one group (lock-step): the same group sum. */
  lemma SimdGroupSum(local: seq<int>, input: seq<int>, base: nat, overrun: nat -> int)
    requires IsPow2(|local|) && base < |input|
    ensures SimdRounds(CopyPhase(local, input, base), |local| / 2, |input| - base, |local|, overrun)[0]
              == Sum(GroupSlice(input, base, |local|))
  {
    CopyPhaseLive(local, input, base);
    SimdRoundsSum(CopyPhase(local, input, base), GroupSlice(input, base, |local|), |input| - base, overrun);
  }

  /** reduceHybrid on one group: the same group sum as reduceBarrier. */
  lemma HybridGroupSum(local: seq<int>, input: seq<int>, base: nat, simdWidth: nat, overrun: nat -> int)
    requires IsPow2(|local|) && base < |input|
    ensures HybridRounds(CopyPhase(local, input, base), |local| / 2, |input| - base, simdWidth, overrun)[0]
              == Sum(GroupSlice(input, base, |local|))
  {
    CopyPhaseLive(local, input, base);
    HybridRoundsSum(CopyPhase(local, input, base), GroupSlice(input, base, |local|), |input| - base, simdWidth, overrun);
  }

  /**
   * Padding is never read: whatever the local slots held before the copy
   * phase, reduceBarrier ends with the same value in slot 0.
   */
  lemma PaddingNeverRead(local1: seq<int>, local2: seq<int>, input: seq<int>, base: nat)
    requires |local1| == |local2| && IsPow2(|local1|) && base < |input|
    ensures BarrierRounds(CopyPhase(local1, input, base), |local1| / 2, |input| - base)[0]
            == BarrierRounds(CopyPhase(local2, input, base), |local2| / 2, |input| - base)[0]
  {
    BarrierGroupSum(local1, input, base);
    BarrierGroupSum(local2, input, base);
  }
}
