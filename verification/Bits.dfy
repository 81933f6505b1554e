/** Bitwise operations on unsigned words, as arithmetic on natural numbers. */
module Bits {
  import opened Arith

  const WORD := 0x1_0000_0000

  /** a | b */
  function Or(a: nat, b: nat): nat {
    if a == 0 && b == 0 then 0
    else 2 * Or(a / 2, b / 2) + (if a % 2 == 1 || b % 2 == 1 then 1 else 0)
  }

  /** a & b */
  function And(a: nat, b: nat): nat {
    if a == 0 && b == 0 then 0
    else 2 * And(a / 2, b / 2) + (if a % 2 == 1 && b % 2 == 1 then 1 else 0)
  }

  /** a >> k */
  function ShiftRight(a: nat, k: nat): nat {
    if k == 0 then a else ShiftRight(a / 2, k - 1)
  }

  /** The low k bits of a. */
  function Low(a: nat, k: nat): nat {
    if k == 0 then 0 else 2 * Low(a / 2, k - 1) + a % 2
  }

  /** k ones: 2^k - 1. */
  function Ones(k: nat): nat {
    Pow2(k) - 1
  }

  function SmearBy(m: nat, k: nat): nat {
    Or(m, ShiftRight(m, k))
  }

  /** Every bit spreads to all lower places. */
  function Smear(i: nat): nat {
    SmearBy(SmearBy(SmearBy(SmearBy(SmearBy(i, 1), 2), 4), 8), 16)
  }

  // ---- shifts ----

  lemma {:induction false} ShiftTwice(a: nat, j: nat, k: nat)
    ensures ShiftRight(ShiftRight(a, j), k) == ShiftRight(a, j + k)
  {
    if j > 0 {
      ShiftTwice(a / 2, j - 1, k);
    }
  }

  lemma {:induction false} ShiftShrinks(a: nat, k: nat)
    ensures ShiftRight(a, k) <= a
  {
    if k > 0 {
      ShiftShrinks(a / 2, k - 1);
    }
  }

  /** A number is its high part and its low bits, and nothing else has both. */
  lemma {:induction false} HighAndLow(a: nat, k: nat)
    ensures a == ShiftRight(a, k) * Pow2(k) + Low(a, k) && Low(a, k) < Pow2(k)
  {
    if k > 0 {
      HighAndLow(a / 2, k - 1);
      DoubleProduct(ShiftRight(a, k), Pow2(k - 1), Low(a / 2, k - 1), a);
    } else {
      assert Pow2(0) == 1;
    }
  }

  lemma DoubleProduct(q: nat, p: nat, r: nat, a: nat)
    requires a / 2 == q * p + r
    ensures a == q * (2 * p) + (2 * r + a % 2)
  {
    MulAssociates(q, 2, p);
    MulAssociates(2, q, p);
  }

  lemma {:induction false} Compose(q: nat, j: nat, k: nat)
    requires j < Pow2(k)
    ensures q * Pow2(k) >= 0 && ShiftRight(q * Pow2(k) + j, k) == q && Low(q * Pow2(k) + j, k) == j
  {
    if k > 0 {
      var p := Pow2(k - 1);
      Compose(q, j / 2, k - 1);
      HalveProduct(q, p, j);
    } else {
      assert Pow2(0) == 1;
    }
  }

  lemma HalveProduct(q: nat, p: nat, j: nat)
    ensures q * (2 * p) >= 0 && (q * (2 * p) + j) / 2 == q * p + j / 2 && (q * (2 * p) + j) % 2 == j % 2
  {
    MulAssociates(q, 2, p);
    MulAssociates(2, q, p);
  }

  // ---- or, and ----

  lemma {:induction false} OrShift(a: nat, b: nat, k: nat)
    ensures ShiftRight(Or(a, b), k) == Or(ShiftRight(a, k), ShiftRight(b, k))
  {
    if k > 0 {
      OrShift(a / 2, b / 2, k - 1);
      assert Or(a, b) / 2 == Or(a / 2, b / 2);
    }
  }

  lemma {:induction false} OrBound(a: nat, b: nat, t: nat)
    requires a < Pow2(t) && b < Pow2(t)
    ensures Or(a, b) < Pow2(t)
  {
    if t > 0 {
      OrBound(a / 2, b / 2, t - 1);
    }
  }

  lemma {:induction false} OrZero(a: nat)
    ensures Or(a, 0) == a
  {
    if a > 0 {
      OrZero(a / 2);
    }
  }

  /** Or-ing the low s bits with ones, below u ones, gives u + s ones. */
  lemma {:induction false} OrOnes(x: nat, s: nat, u: nat)
    requires ShiftRight(x, s) == Ones(u)
    ensures Or(x, Ones(s)) == Ones(u + s)
  {
    if s == 0 {
      OrZero(x);
    } else {
      OrOnes(x / 2, s - 1, u);
      assert Ones(s) / 2 == Ones(s - 1) && Ones(u + s) == 2 * Ones(u + s - 1) + 1;
    }
  }

  /** And-ing with 2^k - 1 keeps the low k bits. */
  lemma {:induction false} AndOnes(w: nat, k: nat)
    ensures And(w, Ones(k)) == Low(w, k)
  {
    if k == 0 {
      AndZero(w);
    } else {
      AndOnes(w / 2, k - 1);
      assert Ones(k) / 2 == Ones(k - 1);
    }
  }

  lemma {:induction false} AndZero(a: nat)
    ensures And(a, 0) == 0
  {
    if a > 0 {
      AndZero(a / 2);
    }
  }

  lemma {:induction false} ShiftOnes(a: nat, b: nat)
    ensures ShiftRight(Ones(a + b), b) == Ones(a)
  {
    if b > 0 {
      ShiftOnes(a, b - 1);
      assert Ones(a + b) / 2 == Ones(a + b - 1);
    }
  }

  // ---- smearing ----

  /** `m` has `t` bits, the top `s` of them ones. */
  ghost predicate TopOnes(m: nat, t: nat, s: nat) {
    if s < t then m < Pow2(t) && ShiftRight(m, t - s) == Ones(s) else m == Ones(t)
  }

  /** Each smearing step doubles the run of leading ones. */
  lemma SmearByDoubles(m: nat, t: nat, s: nat)
    requires s > 0 && TopOnes(m, t, s)
    ensures TopOnes(SmearBy(m, s), t, 2 * s)
  {
    if s >= t {
      ShiftOut(m, t, s);
      OrZero(m);
    } else if 2 * s >= t {
      var d := t - s;
      ShiftTwice(m, d, s - d);
      ShiftOnes(d, s - d);
      OrOnes(m, d, s);
    } else {
      var d := t - 2 * s;
      ShiftShrinks(m, s);
      OrBound(m, ShiftRight(m, s), t);
      OrShift(m, ShiftRight(m, s), d);
      ShiftTwice(m, s, d);
      ShiftTwice(m, d, s);
      OrOnes(ShiftRight(m, d), s, s);
    }
  }

  lemma {:induction false} ShiftOut(m: nat, t: nat, s: nat)
    requires m < Pow2(t) && t <= s
    ensures ShiftRight(m, s) == 0
  {
    if t > 0 {
      ShiftOut(m / 2, t - 1, s - 1);
    } else if s > 0 {
      ShiftOut(m / 2, 0, s - 1);
    }
  }

  lemma {:induction false} Pow2Monotone(j: nat, k: nat)
    requires j <= k
    ensures Pow2(j) <= Pow2(k)
  {
    if j < k {
      Pow2Monotone(j, k - 1);
    }
  }

  /** The number of bits of a word. */
  function BitLength(i: nat): nat {
    if i == 0 then 0 else 1 + BitLength(i / 2)
  }

  lemma {:induction false} BitLengthBounds(i: nat)
    requires i > 0
    ensures BitLength(i) > 0 && Pow2(BitLength(i) - 1) <= i < Pow2(BitLength(i))
    ensures ShiftRight(i, BitLength(i) - 1) == 1
  {
    if i > 1 {
      BitLengthBounds(i / 2);
    } else {
      assert BitLength(1) == 1 && Pow2(0) == 1 && Pow2(1) == 2;
    }
  }

  lemma {:induction false} BitLengthIs(i: nat, k: nat)
    requires k > 0 && Pow2(k - 1) <= i < Pow2(k)
    ensures BitLength(i) == k
  {
    if k == 1 {
      assert Pow2(0) == 1 && i == 1 && BitLength(0) == 0;
    } else {
      BitLengthIs(i / 2, k - 1);
    }
  }

  lemma {:induction false} LowOnes(k: nat)
    ensures Low(Ones(k), k) == Ones(k)
  {
    if k > 0 {
      assert Ones(k) / 2 == Ones(k - 1) && Ones(k) % 2 == 1;
      LowOnes(k - 1);
    }
  }

  lemma BitLengthOfWord(i: nat)
    requires 0 < i < WORD
    ensures BitLength(i) <= 32
  {
    BitLengthBounds(i);
    WordIsPow2();
    if BitLength(i) > 32 {
      Pow2Monotone(32, BitLength(i) - 1);
    }
  }

  lemma SmearIsOnes(i: nat)
    requires 0 < i < WORD
    ensures Smear(i) == Ones(BitLength(i))
  {
    var t := BitLength(i);
    BitLengthOfWord(i);
    BitLengthBounds(i);
    assert Pow2(0) == 1 && Pow2(1) == 2;
    hide Pow2, Or, ShiftRight, SmearBy;
    var m1 := SmearBy(i, 1);
    var m2 := SmearBy(m1, 2);
    var m4 := SmearBy(m2, 4);
    var m8 := SmearBy(m4, 8);
    SmearByDoubles(i, t, 1);
    SmearByDoubles(m1, t, 2);
    SmearByDoubles(m2, t, 4);
    SmearByDoubles(m4, t, 8);
    SmearByDoubles(m8, t, 16);
  }

  /** The smeared mask is the least 2^k - 1 that is not below the argument. */
  lemma SmearIsLeastMask(i: nat)
    requires 0 < i < WORD
    ensures Smear(i) == Ones(BitLength(i)) >= i
    ensures forall k: nat :: Ones(k) >= i ==> Ones(k) >= Smear(i)
  {
    SmearIsOnes(i);
    BitLengthBounds(i);
    hide Smear;
    forall k: nat | Ones(k) >= i
      ensures Ones(k) >= Ones(BitLength(i))
    {
      if k < BitLength(i) {
        Pow2Monotone(k, BitLength(i) - 1);
      } else {
        Pow2Monotone(BitLength(i), k);
      }
    }
  }

  lemma WordIsPow2()
    ensures Pow2(32) == WORD
  {
    assert Pow2(8) == 0x100;
    hide Pow2;
    Pow2Sum(8, 8);
    Pow2Sum(16, 16);
  }

  // ---- counting ----

  ghost function WithLow(n: nat, k: nat, j: nat): set<nat> {
    set w: nat | w < n && Low(w, k) == j
  }

  /** Every value of the low k bits is taken by exactly q of the numbers below q * 2^k. */
  lemma {:induction false} LowCounts(q: nat, k: nat, j: nat)
    requires j < Pow2(k)
    ensures q * Pow2(k) >= 0 && |WithLow(q * Pow2(k), k, j)| == q
  {
    if q == 0 {
      assert WithLow(0, k, j) == {};
    } else {
      LowCounts(q - 1, k, j);
      OneMoreBlock(q - 1, k, j);
    }
  }

  lemma OneMoreBlock(q: nat, k: nat, j: nat)
    requires j < Pow2(k)
    ensures q * Pow2(k) >= 0 && (q + 1) * Pow2(k) >= 0
    ensures |WithLow((q + 1) * Pow2(k), k, j)| == |WithLow(q * Pow2(k), k, j)| + 1
  {
    MulDistributes(q, 1, Pow2(k));
    Compose(q, j, k);
    var n, p := q * Pow2(k), Pow2(k);
    hide Pow2;
    forall w: nat
      ensures w in WithLow(n + p, k, j) <==> w in WithLow(n, k, j) || w == n + j
    {
      LastBlock(q, k, j, w);
    }
    assert WithLow(n + p, k, j) == WithLow(n, k, j) + {n + j};
  }

  lemma LastBlock(q: nat, k: nat, j: nat, w: nat)
    requires j < Pow2(k)
    ensures q * Pow2(k) <= w < q * Pow2(k) + Pow2(k) && Low(w, k) == j ==> w == q * Pow2(k) + j
  {
    HighAndLow(w, k);
    var h, p := ShiftRight(w, k), Pow2(k);
    if q * p <= w < q * p + p {
      if h < q {
        MulMonotone(h + 1, q, p);
        MulDistributes(h, 1, p);
      } else if q < h {
        MulMonotone(q + 1, h, p);
        MulDistributes(q, 1, p);
      }
    }
  }
}
