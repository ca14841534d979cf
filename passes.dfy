/**
 * What one pass of the reduction computes: one partial sum per work-group,
 * group g covering input[g * groupSize .. (g + 1) * groupSize] cut at the end
 * of the input. When the groups cover the input, the partial sums add up to the
 * total; this is what lets every orchestrator recurse on its results array.
 */
module Passes {
  import opened Sums
  import opened Planner
  import opened HalvingTree

  /** The live elements of group g. */
  function Chunk(input: seq<int>, groupSize: nat, g: nat): seq<int>
  {
    input[Min(g * groupSize, |input|)..Min(g * groupSize + groupSize, |input|)]
  }

  /** The results array of a pass: slot g holds the sum of group g's live elements. */
  function PassResult(input: seq<int>, groupSize: nat, numberOfGroups: nat): (r: seq<int>)
    ensures |r| == numberOfGroups
  {
    seq(numberOfGroups, g requires 0 <= g < numberOfGroups => Sum(Chunk(input, groupSize, g)))
  }

  /** The first n partial sums add up to the sum of the first n groups' elements. */
  lemma {:induction false} PassPrefixSum(input: seq<int>, groupSize: nat, n: nat)
    ensures Sum(PassResult(input, groupSize, n)) == Sum(input[..Min(n * groupSize, |input|)])
  {
    if n == 0 {
      assert PassResult(input, groupSize, n) == [];
    } else {
      PassPrefixSum(input, groupSize, n - 1);
      var previous := PassResult(input, groupSize, n - 1);
      var c := Sum(Chunk(input, groupSize, n - 1));
      AppendResult(input, groupSize, n);
      SumAppend(previous, [c]);
      assert Sum([c]) == c + Sum([]);
      var lo := (n - 1) * groupSize;
      NextMultiple(n, groupSize);
      SumPrefixes(input, Min(lo, |input|), Min(lo + groupSize, |input|));
    }
  }

  lemma NextMultiple(n: nat, groupSize: nat)
    requires n >= 1
    ensures (n - 1) * groupSize + groupSize == n * groupSize
  {
  }

  /** The results of n groups are those of n - 1 groups followed by group n - 1's sum. */
  lemma AppendResult(input: seq<int>, groupSize: nat, n: nat)
    requires n >= 1
    ensures PassResult(input, groupSize, n)
            == PassResult(input, groupSize, n - 1) + [Sum(Chunk(input, groupSize, n - 1))]
  {
  }

  /**
   * A pass whose groups cover the input loses nothing: its partial sums add
   * up to the sum of the input.
   */
  lemma PassPreservesSum(input: seq<int>, groupSize: nat, numberOfGroups: nat)
    requires numberOfGroups * groupSize >= |input|
    ensures Sum(PassResult(input, groupSize, numberOfGroups)) == Sum(input)
  {
    PassPrefixSum(input, groupSize, numberOfGroups);
    assert input[..|input|] == input;
  }

  /** A single partial sum is the value read back at the end of the recursion. */
  lemma SingleResult(input: seq<int>, groupSize: nat)
    requires groupSize >= |input|
    ensures PassResult(input, groupSize, 1)[0] == Sum(input)
  {
    PassPreservesSum(input, groupSize, 1);
    assert Sum(PassResult(input, groupSize, 1)) == PassResult(input, groupSize, 1)[0] + Sum([]);
  }

  /** For a group that starts inside the input, its live slice is its chunk. */
  lemma LiveChunk(input: seq<int>, groupSize: nat, groupId: nat)
    requires groupId * groupSize < |input|
    ensures GroupSlice(input, groupId * groupSize, groupSize) == Chunk(input, groupSize, groupId)
  {
  }
}
