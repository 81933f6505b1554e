/** Products, one fact at a time, powers of two, and the range of `int`. */
module Arith {

  const INT_MAX := 0x7FFF_FFFF

  lemma MulMonotone(x: int, y: int, z: nat)
    requires x <= y
    ensures x * z <= y * z
  {
  }

  lemma MulDistributes(x: int, y: int, z: int)
    ensures (x + y) * z == x * z + y * z
  {
  }

  lemma MulAssociates(x: int, y: int, z: int)
    ensures x * (y * z) == (x * y) * z
  {
  }

  function Pow2(k: nat): (p: nat)
    ensures p >= 1
  {
    if k == 0 then 1 else 2 * Pow2(k - 1)
  }

  /** The integer part of the binary logarithm. */
  function Log2(n: nat): nat {
    if n < 2 then 0 else 1 + Log2(n / 2)
  }

  /** `Log2` is the largest exponent whose power does not exceed the argument. */
  lemma {:induction false} Log2IsLargest(n: nat, k: nat)
    requires n >= 1
    ensures k <= Log2(n) <==> Pow2(k) <= n
  {
    if n >= 2 && k > 0 {
      Log2IsLargest(n / 2, k - 1);
    }
  }

  lemma {:induction false} Pow2Sum(j: nat, k: nat)
    ensures Pow2(j + k) == Pow2(j) * Pow2(k)
  {
    if j > 0 {
      Pow2Sum(j - 1, k);
      MulAssociates(2, Pow2(j - 1), Pow2(k));
    }
  }
}
