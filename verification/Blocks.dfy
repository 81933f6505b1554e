/** Cutting [0, n) into blocks that worker threads process in any order. */
module Blocks {
  import opened Arith
  import opened Multisets

  function NumBlocks(n: nat, blockSize: nat): nat
    requires blockSize > 0
  {
    n / blockSize + if n % blockSize != 0 then 1 else 0
  }

  function BlockBegin(blockSize: nat, b: nat): nat {
    b * blockSize
  }

  /** The block an index lies in. */
  function BlockIndex(blockSize: nat, k: nat): nat
    requires blockSize > 0
  {
    k / blockSize
  }

  /** Every block but the last is full; the last one ends at `n`. */
  function BlockEnd(n: nat, blockSize: nat, b: nat): int
    requires blockSize > 0
  {
    if b + 1 == NumBlocks(n, blockSize) then n else b * blockSize + blockSize
  }

  /** The order in which a parallel loop runs its iterations: each one once. */
  ghost predicate Schedule(order: seq<nat>, count: nat) {
    && Distinct(order)
    && forall b: nat :: b in order <==> b < count
  }

  lemma DivisionFacts(n: nat, d: nat)
    requires d > 0
    ensures n == (n / d) * d + n % d && 0 <= n % d < d
  {
  }

  /** Division undoes a product, whatever rest is added. */
  lemma Quotient(p: nat, r: nat, d: nat)
    requires r < d
    ensures (p * d + r) / d == p
  {
    var q := (p * d + r) / d;
    DivisionFacts(p * d + r, d);
    if q < p {
      MulMonotone(q + 1, p, d);
      MulDistributes(q, 1, d);
    } else if p < q {
      MulMonotone(p + 1, q, d);
      MulDistributes(p, 1, d);
    }
  }

  /** A nonempty block: inside [0, n), in order. */
  lemma BlockBounds(n: nat, blockSize: nat, b: nat)
    requires blockSize > 0 && b < NumBlocks(n, blockSize)
    ensures BlockBegin(blockSize, b) < BlockEnd(n, blockSize, b) <= n
    ensures BlockEnd(n, blockSize, b) <= BlockBegin(blockSize, b) + blockSize
  {
    DivisionFacts(n, blockSize);
    var q := n / blockSize;
    if b < q {
      MulMonotone(b + 1, q, blockSize);
      MulDistributes(b, 1, blockSize);
    }
  }

  lemma QuotientBound(p: int, r: int, q: int, t: int, d: nat)
    requires q * d + t < p * d + r && 0 <= r < d && 0 <= t
    ensures q <= p && (q == p ==> r > 0)
  {
    MulDistributes(p, 1, d);
    if p + 1 <= q {
      MulMonotone(p + 1, q, d);
    }
  }

  /** Every index lies in exactly one block. */
  lemma BlockOf(n: nat, blockSize: nat, k: nat)
    requires blockSize > 0 && k < n
    ensures BlockIndex(blockSize, k) < NumBlocks(n, blockSize)
    ensures forall b: nat :: b < NumBlocks(n, blockSize) ==>
        (BlockBegin(blockSize, b) <= k < BlockEnd(n, blockSize, b) <==> b == BlockIndex(blockSize, k))
  {
    DivisionFacts(n, blockSize);
    DivisionFacts(k, blockSize);
    var q, nb := k / blockSize, NumBlocks(n, blockSize);
    QuotientBound(n / blockSize, n % blockSize, q, k % blockSize, blockSize);
    forall b: nat | b < nb
      ensures BlockBegin(blockSize, b) <= k < BlockEnd(n, blockSize, b) <==> b == q
    {
      MulDistributes(b, 1, blockSize);
      MulDistributes(q, 1, blockSize);
      if b < q {
        MulMonotone(b + 1, q, blockSize);
      } else if q < b {
        MulMonotone(q + 1, b, blockSize);
      }
    }
  }
}
