/**
 * Integer sums: the value every reduction in this model must reproduce, and the
 * strided partial sums that describe the halving tree of a work-group.
 */
module Sums {

  /** Left-to-right sum of a sequence. */
  function Sum(s: seq<int>): int
  {
    if s == [] then 0 else s[0] + Sum(s[1..])
  }

  lemma {:induction false} SumAppend(a: seq<int>, b: seq<int>)
    ensures Sum(a + b) == Sum(a) + Sum(b)
  {
    if a == [] {
      assert a + b == b;
    } else {
      assert (a + b)[1..] == a[1..] + b;
      SumAppend(a[1..], b);
    }
  }

  /** Extending a prefix by the slice that follows it adds that slice's sum. */
  lemma SumPrefixes(s: seq<int>, a: nat, b: nat)
    requires a <= b <= |s|
    ensures Sum(s[..b]) == Sum(s[..a]) + Sum(s[a..b])
  {
    assert s[..b] == s[..a] + s[a..b];
    SumAppend(s[..a], s[a..b]);
  }

  /** Adjacent slices: the sum over [i, k) splits at any j between. */
  lemma SumAdjacent(s: seq<int>, i: nat, j: nat, k: nat)
    requires i <= j <= k <= |s|
    ensures Sum(s[i..k]) == Sum(s[i..j]) + Sum(s[j..k])
  {
    assert s[i..k] == s[i..j] + s[j..k];
    SumAppend(s[i..j], s[j..k]);
  }

  /** Sum of the elements of `v` at positions i, i+m, i+2m, ... */
  function StrideSum(v: seq<int>, i: nat, m: nat): int
    requires m >= 1
    decreases |v| - i
  {
    if i >= |v| then 0 else v[i] + StrideSum(v, i + m, m)
  }

  /**
   * The residue class of i modulo a is the union of the classes of i and i+a
   * modulo 2a: this is what one halving round of a tree reduction combines.
   */
  lemma {:induction false} StrideSplit(v: seq<int>, i: nat, a: nat)
    requires a >= 1
    ensures StrideSum(v, i, a) == StrideSum(v, i, 2 * a) + StrideSum(v, i + a, 2 * a)
    decreases |v| - i
  {
    if i < |v| && i + a < |v| {
      StrideSplit(v, i + 2 * a, a);
    }
  }

  /** With stride one the strided sum is the plain sum of the suffix. */
  lemma {:induction false} StrideSumUnit(v: seq<int>, i: nat)
    requires i <= |v|
    ensures StrideSum(v, i, 1) == Sum(v[i..])
    decreases |v| - i
  {
    if i < |v| {
      StrideSumUnit(v, i + 1);
      assert v[i..][1..] == v[i + 1..];
    }
  }
}
