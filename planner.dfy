/**
 * The partition planner: how one pass of the reduction splits an input of a
 * given length into work-groups. The three orchestrators share the arithmetic;
 * the two halving variants then round a lone group up to a power of two, the
 * pointer-jumping variant does not.
 */
module Planner {
  import opened PowersOfTwo
  import opened Outcomes

  /** Which per-group reducer a jocl kernel runs. */
  datatype SyncMode = Barrier | Simd | Hybrid

  /** A work-group layout: every group has groupSize lanes; paddedSize lanes in all. */
  datatype Plan = Plan(groupSize: int, numberOfGroups: int, paddedSize: int)

  function Min(a: int, b: int): int
  {
    if a <= b then a else b
  }

  /** The width limit of a jocl pass: the SIMD width in SIMD mode, the maximum group size otherwise. */
  function PassWidth(mode: SyncMode, maxGroupSize: nat, simdWidth: nat): nat
  {
    if mode == Simd then simdWidth else maxGroupSize
  }

  /**
   * One pass's layout for `inputLength` elements and a device width limit.
   * A zero group size is the integer division by zero that Java reports as an
   * `ArithmeticException`.
   */
  function PlanPass(inputLength: nat, width: nat, roundSingleGroup: bool): Result<Plan>
    requires width <= 0x4000_0000
  {
    var groupSize := Min(inputLength, width);
    if groupSize == 0 then Failure(DivisionByZero)
    else
      var numberOfGroups := GroupCount(inputLength, groupSize);
      var size := if roundSingleGroup && numberOfGroups == 1 then Closest2Power(groupSize) else groupSize;
      Success(Plan(size, numberOfGroups, size * numberOfGroups))
  }

  /** `inputLength / groupSize`, plus one more group for an uneven tail. */
  function GroupCount(inputLength: nat, groupSize: nat): nat
    requires groupSize >= 1
  {
    var quotient := inputLength / groupSize;
    if groupSize * quotient < inputLength then quotient + 1 else quotient
  }

  lemma MulMonotone(a: int, b: int, c: nat)
    requires a <= b
    ensures a * c <= b * c
  {
  }

  /** When the last of n groups starts inside the input, so does every group before it. */
  lemma GroupStartsInside(groupId: nat, numberOfGroups: nat, groupSize: nat, inputLength: nat)
    requires groupId < numberOfGroups && groupSize * (numberOfGroups - 1) < inputLength
    ensures groupId * groupSize < inputLength
  {
    MulMonotone(groupId, numberOfGroups - 1, groupSize);
  }

  /** The group count is the ceiling of inputLength / groupSize. */
  lemma CeilingDivision(inputLength: nat, groupSize: nat)
    requires groupSize >= 1
    ensures var n := GroupCount(inputLength, groupSize);
            groupSize * (n - 1) < inputLength <= groupSize * n
  {
    var q := inputLength / groupSize;
    assert inputLength == groupSize * q + inputLength % groupSize;
    if groupSize * q < inputLength {
      assert groupSize * (q + 1) == groupSize * q + groupSize;
    } else {
      assert groupSize * (q - 1) == groupSize * q - groupSize;
    }
  }

  /** One group exactly when the input fits in one group. */
  lemma SingleGroupCount(inputLength: nat, groupSize: nat)
    requires inputLength >= 1 && groupSize >= 1
    ensures GroupCount(inputLength, groupSize) >= 1
    ensures GroupCount(inputLength, groupSize) == 1 <==> inputLength <= groupSize
  {
    var n := GroupCount(inputLength, groupSize);
    CeilingDivision(inputLength, groupSize);
    if n >= 2 {
      MulMonotone(1, n - 1, groupSize);
    }
  }

  /**
   * Coverage: a pass fails exactly on the empty input; otherwise its groups
   * cover the input (paddedSize >= inputLength) and the last group still
   * starts inside it, so every group has a live element.
   */
  lemma PlanCoverage(inputLength: nat, width: nat, roundSingleGroup: bool)
    requires 1 <= width <= 0x4000_0000
    ensures PlanPass(inputLength, width, roundSingleGroup).Failure? <==> inputLength == 0
    ensures PlanPass(inputLength, width, roundSingleGroup).Failure? ==>
              PlanPass(inputLength, width, roundSingleGroup).error == DivisionByZero
    ensures inputLength >= 1 ==>
              var p := PlanPass(inputLength, width, roundSingleGroup).value;
              && p.groupSize >= 1 && p.numberOfGroups >= 1
              && p.paddedSize == p.groupSize * p.numberOfGroups >= inputLength
              && p.groupSize * (p.numberOfGroups - 1) < inputLength
  {
    if inputLength >= 1 {
      var g := Min(inputLength, width);
      var n := GroupCount(inputLength, g);
      CeilingDivision(inputLength, g);
      SingleGroupCount(inputLength, g);
      if roundSingleGroup && n == 1 {
        Closest2PowerIsLeastPow2(g);
      }
    }
  }

  /**
   * A pass has a single group exactly when the input fits in one width; the
   * halving planners then round the group up to the least power of two that
   * holds the input, and the pointer-jumping planner keeps min(length, width).
   */
  lemma SingleGroupPlan(inputLength: nat, width: nat, roundSingleGroup: bool)
    requires inputLength >= 1 && 1 <= width <= 0x4000_0000
    ensures var p := PlanPass(inputLength, width, roundSingleGroup).value;
            && (p.numberOfGroups == 1 <==> inputLength <= width)
            && (roundSingleGroup && p.numberOfGroups == 1 ==>
                  IsPow2(p.groupSize) && inputLength <= p.groupSize < 2 * inputLength)
            && (!roundSingleGroup ==> p.groupSize == Min(inputLength, width))
  {
    var g := Min(inputLength, width);
    SingleGroupCount(inputLength, g);
    if roundSingleGroup && inputLength <= width {
      Closest2PowerIsLeastPow2(g);
    }
  }

  /**
   * Termination of the recursion: with a width of at least two, a pass over
   * more than one element leaves strictly fewer partial results than it read.
   */
  lemma PlanShrinks(inputLength: nat, width: nat, roundSingleGroup: bool)
    requires inputLength >= 2 && 2 <= width <= 0x4000_0000
    ensures PlanPass(inputLength, width, roundSingleGroup).value.numberOfGroups < inputLength
  {
    var g := Min(inputLength, width);
    var n := GroupCount(inputLength, g);
    CeilingDivision(inputLength, g);
    SingleGroupCount(inputLength, g);
    MulMonotone(2, g, n - 1);
  }

  /**
   * With a power-of-two width every pass of a halving planner has a
   * power-of-two group size no larger than the width; this is what the
   * halving loops need and what nothing in the source checks.
   */
  lemma PowerOfTwoGroups(inputLength: nat, width: nat)
    requires inputLength >= 1 && width <= 0x4000_0000 && IsPow2(width)
    ensures var p := PlanPass(inputLength, width, true).value;
            IsPow2(p.groupSize) && p.groupSize <= width
  {
    var g := Min(inputLength, width);
    SingleGroupCount(inputLength, g);
    if inputLength <= width {
      Closest2PowerIsLeastPow2(g);
    }
  }
}
