/**
 * Powers of two and the bit trick `closest2Power`, with Java's 32-bit `int`
 * semantics for `Integer.numberOfLeadingZeros` and `1 << s` written out.
 */
module PowersOfTwo {

  function Pow2(k: nat): (p: nat)
    ensures p >= 1
  {
    if k == 0 then 1 else 2 * Pow2(k - 1)
  }

  /** n is 1, 2, 4, 8, ... */
  predicate IsPow2(n: int)
    decreases if n < 0 then 0 else n
  {
    n == 1 || (n >= 2 && n % 2 == 0 && IsPow2(n / 2))
  }

  /** True when x fits in a Java `int`. */
  predicate IsInt32(x: int)
  {
    -0x8000_0000 <= x < 0x8000_0000
  }

  /** Java's two's-complement wrap-around of an arithmetic result into an `int`. */
  function Wrap32(x: int): (r: int)
    ensures IsInt32(r)
  {
    (x + 0x8000_0000) % 0x1_0000_0000 - 0x8000_0000
  }

  /** Number of significant bits of a non-negative number. */
  function BitLength(x: nat): nat
  {
    if x == 0 then 0 else 1 + BitLength(x / 2)
  }

  /** Java's `Integer.numberOfLeadingZeros` on an `int`. */
  function NumberOfLeadingZeros(x: int): int
    requires IsInt32(x)
  {
    if x < 0 then 0 else 32 - BitLength(x)
  }

  /**
   * Java's `1 << s` on an `int`: the shift distance is taken modulo 32 and a
   * one shifted into bit 31 is the sign bit.
   */
  function ShiftOneLeft(s: int): int
  {
    var d := s % 32;
    if d == 31 then -0x8000_0000 else Pow2(d)
  }

  /** `closest2Power(x)`: `1 << (32 - Integer.numberOfLeadingZeros(x - 1))`. */
  function Closest2Power(x: int): int
    requires IsInt32(x)
  {
    ShiftOneLeft(32 - NumberOfLeadingZeros(Wrap32(x - 1)))
  }

  lemma {:induction false} Pow2IsPow2(k: nat)
    ensures IsPow2(Pow2(k))
  {
    if k > 0 {
      Pow2IsPow2(k - 1);
      assert Pow2(k) / 2 == Pow2(k - 1);
    }
  }

  lemma {:induction false} Pow2Monotone(j: nat, k: nat)
    requires j <= k
    ensures Pow2(j) <= Pow2(k)
    decreases k
  {
    if j < k {
      Pow2Monotone(j, k - 1);
    }
  }

  /** A power of two above Pow2(k) is at least Pow2(k + 1). */
  lemma {:induction false} Pow2Gap(p: int, k: nat)
    requires IsPow2(p) && p > Pow2(k)
    ensures p >= Pow2(k + 1)
    decreases k
  {
    if k > 0 {
      Pow2Gap(p / 2, k - 1);
    }
  }

  lemma {:induction false} BitLengthBounds(x: nat)
    requires x >= 1
    ensures BitLength(x) >= 1
    ensures Pow2(BitLength(x) - 1) <= x < Pow2(BitLength(x))
  {
    if x >= 2 {
      var h := x / 2;
      BitLengthBounds(h);
      var b := BitLength(h);
      assert BitLength(x) == b + 1;
      assert Pow2(b + 1) == 2 * Pow2(b);
      assert Pow2(b) == 2 * Pow2(b - 1);
      assert 2 * h <= x < 2 * h + 2;
    }
  }

  lemma Pow2Of30()
    ensures Pow2(30) == 0x4000_0000
  {
    assert Pow2(10) == 1024;
    assert Pow2(20) == 1024 * 1024;
  }

  lemma Wrap32Identity(x: int)
    requires IsInt32(x)
    ensures Wrap32(x) == x
  {
    assert 0 <= x + 0x8000_0000 < 0x1_0000_0000;
  }

  lemma ShiftOneLeftSmall(s: int)
    requires 0 <= s <= 30
    ensures ShiftOneLeft(s) == Pow2(s)
  {
    assert s % 32 == s;
  }

  lemma {:induction false} BitLengthBelow(y: nat, k: nat)
    requires y < Pow2(k)
    ensures BitLength(y) <= k
    decreases k
  {
    if y >= 1 {
      assert k >= 1;
      BitLengthBelow(y / 2, k - 1);
    }
  }

  /**
   * For 1 <= x <= 2^30 the bit trick yields 2^b, b the bit length of x - 1:
   * b is 0 for x = 1, and otherwise 2^(b-1) < x <= 2^b.
   */
  lemma Closest2PowerValue(x: int) returns (b: nat)
    requires 1 <= x <= 0x4000_0000
    ensures Closest2Power(x) == Pow2(b)
    ensures b == 0 ==> x == 1
    ensures b >= 1 ==> Pow2(b - 1) < x <= Pow2(b)
  {
    b := BitLength(x - 1);
    Pow2Of30();
    Wrap32Identity(x - 1);
    BitLengthBelow(x - 1, 30);
    if x >= 2 {
      BitLengthBounds(x - 1);
    }
    assert NumberOfLeadingZeros(Wrap32(x - 1)) == 32 - b;
    ShiftOneLeftSmall(b);
  }

  /**
   * For 1 <= x <= 2^30, `closest2Power(x)` is the least power of two that is at
   * least x; in particular it is below 2x.
   */
  lemma Closest2PowerIsLeastPow2(x: int)
    requires 1 <= x <= 0x4000_0000
    ensures IsPow2(Closest2Power(x))
    ensures x <= Closest2Power(x) < 2 * x
    ensures forall p :: IsPow2(p) && p >= x ==> p >= Closest2Power(x)
  {
    var b := Closest2PowerValue(x);
    LeastPow2Above(x, b);
  }

  /** 2^b is the least power of two at least x when x is 1 and b is 0, or when 2^(b-1) < x <= 2^b. */
  lemma LeastPow2Above(x: int, b: nat)
    requires x >= 1 && (b == 0 ==> x == 1) && (b >= 1 ==> Pow2(b - 1) < x <= Pow2(b))
    ensures IsPow2(Pow2(b)) && x <= Pow2(b) < 2 * x
    ensures forall p :: IsPow2(p) && p >= x ==> p >= Pow2(b)
  {
    Pow2IsPow2(b);
    if b >= 1 {
      forall p | IsPow2(p) && p >= x ensures p >= Pow2(b) {
        Pow2Gap(p, b - 1);
      }
    }
  }

  /** A power of two below another one divides it: halving one reaches the other. */
  lemma {:induction false} Pow2Half(p: int)
    requires IsPow2(p) && p >= 2
    ensures IsPow2(p / 2) && 2 * (p / 2) == p
  {
  }
}
