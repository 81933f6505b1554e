/** The general matrix product, and its blocked form over tables with row or column storage. */
module Blas {
  import opened Arith
  import opened Blocks
  import opened Layout

  /** The inner product of the first k entries. */
  function Dot(x: seq<real>, y: seq<real>, k: nat): real
    requires k <= |x| && k <= |y|
  {
    if k == 0 then 0.0 else Dot(x, y, k - 1) + x[k - 1] * y[k - 1]
  }

  ghost predicate IsMatrix(m: seq<seq<real>>, nCols: nat) {
    forall r :: 0 <= r < |m| ==> |m[r]| == nCols
  }

  /** A row-major buffer holds the rows of a matrix, one after the other. */
  ghost predicate Holds(buf: array<real>, m: seq<seq<real>>, nCols: nat)
    reads buf
  {
    && IsMatrix(m, nCols) && buf.Length == |m| * nCols
    && forall r: nat, c: nat :: r < |m| && c < nCols ==> buf[FlatIndex(r, c, |m|, nCols)] == m[r][c]
  }

  /** `ReadRows`: rows [start, start + n) as a row-major buffer. */
  method ReadRows(m: seq<seq<real>>, start: nat, n: nat, nCols: nat) returns (buf: array<real>)
    requires IsMatrix(m, nCols) && start + n <= |m|
    ensures fresh(buf) && Holds(buf, m[start..start + n], nCols)
  {
    buf := new real[n * nCols];
    for i := 0 to n
      invariant forall r: nat, c: nat :: r < i && c < nCols ==> buf[FlatIndex(r, c, n, nCols)] == m[start + r][c]
    {
      for j := 0 to nCols
        invariant forall r: nat, c: nat :: r < n && c < nCols && (r < i || (r == i && c < j)) ==>
            buf[FlatIndex(r, c, n, nCols)] == m[start + r][c]
      {
        FlatSeparates(i, j, n, nCols);
        buf[FlatIndex(i, j, n, nCols)] := m[start + i][j];
      }
    }
  }

  /** Cells [row0, row0 + n) x [col0, col0 + m) of a row-major buffer with leading dimension `ldc`. */
  predicate InWindow(r: nat, c: nat, row0: nat, n: nat, col0: nat, m: nat) {
    row0 <= r < row0 + n && col0 <= c < col0 + m
  }

  /** One entry of alpha * A * B' + beta * C. */
  function Entry(alpha: real, x: seq<real>, y: seq<real>, k: nat, beta: real, before: real): real
    requires k <= |x| && k <= |y|
  {
    alpha * Dot(x, y, k) + beta * before
  }

  /** The contract of `xxgemm` with the first operand transposed and the second not: entry (i, j) of the
      column-major result, alpha times the product of rows i and j plus beta times its old value, is
      cell (row0 + j, col0 + i) of the row-major buffer. */
  method Xxgemm(alpha: real, a: array<real>, b: array<real>, nCols: nat, beta: real,
      c: array<real>, rows: nat, ldc: nat, row0: nat, col0: nat,
      ghost rowsA: seq<seq<real>>, ghost rowsB: seq<seq<real>>, m: nat, n: nat)
    requires c != a && c != b && Holds(a, rowsA, nCols) && Holds(b, rowsB, nCols) && m == |rowsA| && n == |rowsB|
    requires c.Length == rows * ldc && row0 + n <= rows && col0 + m <= ldc
    modifies c
    ensures forall r: nat, s: nat :: r < rows && s < ldc ==>
        c[FlatIndex(r, s, rows, ldc)] ==
          if InWindow(r, s, row0, n, col0, m)
          then Entry(alpha, rowsA[s - col0], rowsB[r - row0], nCols, beta, old(c[FlatIndex(r, s, rows, ldc)]))
          else old(c[FlatIndex(r, s, rows, ldc)])
  {
    hide Entry;
    for j := 0 to n
      invariant forall r: nat, s: nat :: r < rows && s < ldc ==>
          c[FlatIndex(r, s, rows, ldc)] ==
            if InWindow(r, s, row0, j, col0, m)
            then Entry(alpha, rowsA[s - col0], rowsB[r - row0], nCols, beta, old(c[FlatIndex(r, s, rows, ldc)]))
            else old(c[FlatIndex(r, s, rows, ldc)])
    {
      GemmColumn(alpha, a, b, nCols, beta, c, rows, ldc, row0 + j, col0, j, rowsA, rowsB, m, n);
    }
  }

  method GemmColumn(alpha: real, a: array<real>, b: array<real>, nCols: nat, beta: real,
      c: array<real>, rows: nat, ldc: nat, row: nat, col0: nat, j: nat,
      ghost rowsA: seq<seq<real>>, ghost rowsB: seq<seq<real>>, m: nat, n: nat)
    requires c != a && c != b && Holds(a, rowsA, nCols) && Holds(b, rowsB, nCols) && m == |rowsA| && j < n == |rowsB|
    requires c.Length == rows * ldc && row < rows && col0 + m <= ldc
    modifies c
    ensures forall r: nat, s: nat :: r < rows && s < ldc ==>
        c[FlatIndex(r, s, rows, ldc)] ==
          if InWindow(r, s, row, 1, col0, m)
          then Entry(alpha, rowsA[s - col0], rowsB[j], nCols, beta, old(c[FlatIndex(r, s, rows, ldc)]))
          else old(c[FlatIndex(r, s, rows, ldc)])
  {
    for i := 0 to m
      invariant forall r: nat, s: nat :: r < rows && s < ldc ==>
          c[FlatIndex(r, s, rows, ldc)] ==
            if InWindow(r, s, row, 1, col0, i)
            then Entry(alpha, rowsA[s - col0], rowsB[j], nCols, beta, old(c[FlatIndex(r, s, rows, ldc)]))
            else old(c[FlatIndex(r, s, rows, ldc)])
    {
      hide Entry;
      var sum := InnerProduct(a, b, nCols, i, j, rowsA, rowsB, m, n);
      FlatSeparates(row, col0 + i, rows, ldc);
      var at := FlatIndex(row, col0 + i, rows, ldc);
      EntryIs(alpha, rowsA[i], rowsB[j], nCols, beta, c[at], sum);
      c[at] := alpha * sum + beta * c[at];
    }
  }

  lemma EntryIs(alpha: real, x: seq<real>, y: seq<real>, k: nat, beta: real, before: real, sum: real)
    requires k <= |x| && k <= |y| && sum == Dot(x, y, k)
    ensures Entry(alpha, x, y, k, beta, before) == alpha * sum + beta * before
  {
  }

  method InnerProduct(a: array<real>, b: array<real>, nCols: nat, i: nat, j: nat,
      ghost rowsA: seq<seq<real>>, ghost rowsB: seq<seq<real>>, m: nat, n: nat) returns (sum: real)
    requires Holds(a, rowsA, nCols) && Holds(b, rowsB, nCols) && i < m == |rowsA| && j < n == |rowsB|
    ensures sum == Dot(rowsA[i], rowsB[j], nCols)
  {
    sum := 0.0;
    for l := 0 to nCols
      invariant sum == Dot(rowsA[i], rowsB[j], l)
    {
      sum := sum + a[FlatIndex(i, l, m, nCols)] * b[FlatIndex(j, l, n, nCols)];
    }
  }

  // ---- blocks: lines 189-225 ----

  /** The requested size or 128, and never more than there are rows. */
  function ChosenBlockSize(requested: int, nRows: nat): (b: nat)
    requires nRows > 0
    ensures 0 < b <= nRows
  {
    var size := if requested > 0 then requested else 128;
    if size > nRows then nRows else size
  }

  /** The number of blocks and the size of the last one, as the kernel adjusts them. */
  function CountBlocks(nRows: nat, blockSize: nat): (r: (nat, nat))
    requires blockSize > 0
  {
    LastBlockFits(nRows, blockSize);
    var nBlocks := nRows / blockSize;
    var last := nRows - nBlocks * blockSize;
    if last != 0 then (nBlocks + 1, last) else (nBlocks, blockSize)
  }

  lemma LastBlockFits(nRows: nat, blockSize: nat)
    requires blockSize > 0
    ensures nRows - nRows / blockSize * blockSize == nRows % blockSize
  {
    DivisionFacts(nRows, blockSize);
  }

  /** The kernel's blocks are the cut of [0, nRows) into full blocks and a rest. */
  lemma BlockArithmetic(nRows: nat, blockSize: nat, iBlock: nat)
    requires blockSize > 0 && iBlock < CountBlocks(nRows, blockSize).0
    ensures CountBlocks(nRows, blockSize).0 == NumBlocks(nRows, blockSize)
    ensures var (nBlocks, last) := CountBlocks(nRows, blockSize);
            var size := if iBlock < nBlocks - 1 then blockSize else last;
            iBlock * blockSize + size == BlockEnd(nRows, blockSize, iBlock) && 0 < size <= blockSize
  {
    LastBlockFits(nRows, blockSize);
    DivisionFacts(nRows, blockSize);
    BlockBounds(nRows, blockSize, iBlock);
    var q := nRows / blockSize;
    if nRows % blockSize == 0 && iBlock == q - 1 {
      MulDistributes(q, 1, blockSize);
    }
  }

  /** Every cell of the result belongs to exactly one pair of blocks, so it is written exactly once. */
  lemma CellInOneBlockPair(nRowsB: nat, sizeB: nat, nRowsA: nat, sizeA: nat, j: nat, i: nat)
    requires sizeB > 0 && sizeA > 0 && j < nRowsB && i < nRowsA
    ensures exists p: nat, q: nat :: InBlockPair(nRowsB, sizeB, nRowsA, sizeA, p, q, j, i)
    ensures forall p: nat, q: nat, p': nat, q': nat ::
        InBlockPair(nRowsB, sizeB, nRowsA, sizeA, p, q, j, i) && InBlockPair(nRowsB, sizeB, nRowsA, sizeA, p', q', j, i)
        ==> p == p' && q == q'
  {
    BlockOf(nRowsB, sizeB, j);
    BlockOf(nRowsA, sizeA, i);
    assert InBlockPair(nRowsB, sizeB, nRowsA, sizeA, BlockIndex(sizeB, j), BlockIndex(sizeA, i), j, i);
  }

  ghost predicate InBlockPair(nRowsB: nat, sizeB: nat, nRowsA: nat, sizeA: nat, p: nat, q: nat, j: nat, i: nat)
    requires sizeB > 0 && sizeA > 0
  {
    && p < NumBlocks(nRowsB, sizeB) && BlockBegin(sizeB, p) <= j < BlockEnd(nRowsB, sizeB, p)
    && q < NumBlocks(nRowsA, sizeA) && BlockBegin(sizeA, q) <= i < BlockEnd(nRowsA, sizeA, q)
  }

  // ---- the blocked product: lines 231-281 ----

  /** What cell (j, i) of the result is to hold. */
  function Product(alpha: real, a: seq<seq<real>>, b: seq<seq<real>>, nCols: nat, j: nat, i: nat): real
    requires i < |a| && j < |b| && nCols <= |a[i]| && nCols <= |b[j]|
  {
    alpha * Dot(a[i], b[j], nCols)
  }

  lemma {:induction false} DotSymmetric(x: seq<real>, y: seq<real>, k: nat)
    requires k <= |x| && k <= |y|
    ensures Dot(x, y, k) == Dot(y, x, k)
  {
    if k > 0 {
      DotSymmetric(x, y, k - 1);
    }
  }

  // ---- what a product is, by its laws: they leave only one function ----

  /** The row with a single 1, at place c. */
  ghost predicate IsUnitRow(y: seq<real>, c: nat, k: nat)
    requires k <= |y|
    ensures IsUnitRow(y, c, k) ==> c < k
  {
    c < k && forall t :: 0 <= t < k ==> y[t] == if t == c then 1.0 else 0.0
  }

  /** The product with a unit row is the entry at its place. */
  lemma {:induction false} DotUnit(x: seq<real>, y: seq<real>, c: nat, k: nat)
    requires k <= |x| && k <= |y| && forall t :: 0 <= t < k ==> y[t] == if t == c then 1.0 else 0.0
    ensures Dot(x, y, k) == if c < k then x[c] else 0.0
  {
    if k > 0 {
      DotUnit(x, y, c, k - 1);
    }
  }

  /** It is linear in the second row. */
  lemma {:induction false} DotLinear(x: seq<real>, y: seq<real>, z: seq<real>, w: seq<real>, p: real, q: real, k: nat)
    requires k <= |x| && k <= |y| && k <= |z| && k <= |w|
    requires forall t :: 0 <= t < k ==> w[t] == p * y[t] + q * z[t]
    ensures Dot(x, w, k) == p * Dot(x, y, k) + q * Dot(x, z, k)
  {
    if k > 0 {
      DotLinear(x, y, z, w, p, q, k - 1);
      TermLinear(x[k - 1], y[k - 1], z[k - 1], p, q, Dot(x, y, k - 1), Dot(x, z, k - 1));
    }
  }

  lemma TermLinear(x: real, y: real, z: real, p: real, q: real, dy: real, dz: real)
    ensures p * dy + q * dz + x * (p * y + q * z) == p * (dy + x * y) + q * (dz + x * z)
  {
    assert x * (p * y) == p * (x * y) && x * (q * z) == q * (x * z);
  }

  /** A cell whose row of B is a unit row is alpha times an entry of A. */
  lemma ProductOfUnitRow(alpha: real, a: seq<seq<real>>, b: seq<seq<real>>, nCols: nat, j: nat, i: nat, c: nat)
    requires IsMatrix(a, nCols) && IsMatrix(b, nCols) && i < |a| && j < |b| && IsUnitRow(b[j], c, nCols)
    ensures Product(alpha, a, b, nCols, j, i) == alpha * a[i][c]
  {
    DotUnit(a[i], b[j], c, nCols);
  }

  /** Cells are linear in the row of B. */
  lemma ProductLinear(alpha: real, a: seq<seq<real>>, b: seq<seq<real>>, nCols: nat, i: nat,
      j: nat, j1: nat, p: real, j2: nat, q: real)
    requires IsMatrix(a, nCols) && IsMatrix(b, nCols) && i < |a| && j < |b| && j1 < |b| && j2 < |b|
    requires forall t :: 0 <= t < nCols ==> b[j][t] == p * b[j1][t] + q * b[j2][t]
    ensures Product(alpha, a, b, nCols, j, i)
         == p * Product(alpha, a, b, nCols, j1, i) + q * Product(alpha, a, b, nCols, j2, i)
  {
    DotLinear(a[i], b[j1], b[j2], b[j], p, q, nCols);
    var d1, d2 := Dot(a[i], b[j1], nCols), Dot(a[i], b[j2], nCols);
    assert alpha * (p * d1) == p * (alpha * d1) && alpha * (q * d2) == q * (alpha * d2);
  }

  lemma EntryIsProduct(alpha: real, a: seq<seq<real>>, b: seq<seq<real>>, nCols: nat, j: nat, i: nat, before: real)
    requires IsMatrix(a, nCols) && IsMatrix(b, nCols) && i < |a| && j < |b|
    ensures Entry(alpha, a[i], b[j], nCols, 0.0, before) == Product(alpha, a, b, nCols, j, i)
    ensures Entry(alpha, b[j], a[i], nCols, 0.0, before) == Product(alpha, a, b, nCols, j, i)
  {
    DotSymmetric(a[i], b[j], nCols);
    assert 0.0 * before == 0.0;
  }

  /** Row storage: the threads fill the columns of one block of rows, block by block in any order, with
      the product written in place behind `startRowA`. */
  method FillRowBlock(alpha: real, a: seq<seq<real>>, b: seq<seq<real>>, nCols: nat, sizeA: nat, order: seq<nat>,
      startRowB: nat, nRowsInBlockB: nat, bBuf: array<real>, mtcRows: array<real>)
    requires IsMatrix(a, nCols) && IsMatrix(b, nCols) && 0 < sizeA <= |a| && startRowB + nRowsInBlockB <= |b|
    requires Schedule(order, NumBlocks(|a|, sizeA))
    requires Holds(bBuf, b[startRowB..startRowB + nRowsInBlockB], nCols)
    requires mtcRows != bBuf && mtcRows.Length == nRowsInBlockB * |a|
    modifies mtcRows
    ensures forall j: nat, i: nat :: j < nRowsInBlockB && i < |a| ==>
        mtcRows[FlatIndex(j, i, nRowsInBlockB, |a|)] == Product(alpha, a, b, nCols, startRowB + j, i)
  {
    var nRowsA := |a|;
    for t := 0 to |order|
      invariant forall j: nat, i: nat :: j < nRowsInBlockB && i < nRowsA && BlockIndex(sizeA, i) in order[..t] ==>
          mtcRows[FlatIndex(j, i, nRowsInBlockB, nRowsA)] == Product(alpha, a, b, nCols, startRowB + j, i)
    {
      var iBlockA := order[t];
      assert iBlockA in order && order[..t + 1] == order[..t] + [iBlockA];
      FillCells(alpha, a, b, nCols, sizeA, iBlockA, startRowB, nRowsInBlockB, bBuf, mtcRows);
    }
    assert order[..|order|] == order;
    forall i: nat | i < nRowsA
      ensures BlockIndex(sizeA, i) in order
    {
      BlockOf(nRowsA, sizeA, i);
    }
  }

  /** One pair of blocks under row storage: lines 249-263. */
  method FillCells(alpha: real, a: seq<seq<real>>, b: seq<seq<real>>, nCols: nat, sizeA: nat, iBlockA: nat,
      startRowB: nat, nRowsInBlockB: nat, bBuf: array<real>, mtcRows: array<real>)
    requires IsMatrix(a, nCols) && IsMatrix(b, nCols) && 0 < sizeA <= |a| && startRowB + nRowsInBlockB <= |b|
    requires iBlockA < NumBlocks(|a|, sizeA)
    requires Holds(bBuf, b[startRowB..startRowB + nRowsInBlockB], nCols)
    requires mtcRows != bBuf && mtcRows.Length == nRowsInBlockB * |a|
    modifies mtcRows
    ensures forall j: nat, i: nat :: j < nRowsInBlockB && i < |a| ==>
        mtcRows[FlatIndex(j, i, nRowsInBlockB, |a|)] ==
          if BlockIndex(sizeA, i) == iBlockA then Product(alpha, a, b, nCols, startRowB + j, i)
          else old(mtcRows[FlatIndex(j, i, nRowsInBlockB, |a|)])
  {
    hide Entry, Product, BlockIndex;
    var startRowA, nRowsInBlockA := BlockRange(|a|, sizeA, iBlockA);
    var aBuf := ReadRows(a, startRowA, nRowsInBlockA, nCols);
    ghost var aRows, bRows := a[startRowA..startRowA + nRowsInBlockA], b[startRowB..startRowB + nRowsInBlockB];
    Xxgemm(alpha, aBuf, bBuf, nCols, 0.0, mtcRows, nRowsInBlockB, |a|, 0, startRowA, aRows, bRows, nRowsInBlockA,
        nRowsInBlockB);
    forall j: nat, i: nat | j < nRowsInBlockB && i < |a|
      ensures mtcRows[FlatIndex(j, i, nRowsInBlockB, |a|)] ==
          if BlockIndex(sizeA, i) == iBlockA then Product(alpha, a, b, nCols, startRowB + j, i)
          else old(mtcRows[FlatIndex(j, i, nRowsInBlockB, |a|)])
    {
      assert InWindow(j, i, 0, nRowsInBlockB, startRowA, nRowsInBlockA) <==> BlockIndex(sizeA, i) == iBlockA;
      if BlockIndex(sizeA, i) == iBlockA {
        assert aRows[i - startRowA] == a[i] && bRows[j] == b[startRowB + j];
        EntryIsProduct(alpha, a, b, nCols, startRowB + j, i, old(mtcRows[FlatIndex(j, i, nRowsInBlockB, |a|)]));
      }
    }
  }

  /** Start and size of a block, computed as the kernel does. */
  method BlockRange(nRows: nat, size: nat, iBlock: nat) returns (start: nat, count: nat)
    requires size > 0 && iBlock < NumBlocks(nRows, size)
    ensures start == iBlock * size && 0 < count <= size && start + count <= nRows
    ensures forall k: nat :: k < nRows ==> (start <= k < start + count <==> BlockIndex(size, k) == iBlock)
  {
    var (nBlocks, lastBlockSize) := CountBlocks(nRows, size);
    LastBlockFits(nRows, size);
    BlockArithmetic(nRows, size, iBlock);
    BlockBounds(nRows, size, iBlock);
    count := if iBlock < nBlocks - 1 then size else lastBlockSize;
    start := iBlock * size;
    forall k: nat | k < nRows
      ensures start <= k < start + count <==> BlockIndex(size, k) == iBlock
    {
      BlockOf(nRows, size, k);
    }
  }

  /** One pair of blocks under column storage: the product with swapped operands goes to the thread's
      buffer, and from there column by column to the table. */
  method FillColumns(alpha: real, a: seq<seq<real>>, b: seq<seq<real>>, nCols: nat, sizeA: nat, sizeB: nat,
      iBlockA: nat, startRowB: nat, nRowsInBlockB: nat, bBuf: array<real>, tlsBuff: array<real>, tc: array2<real>)
    requires IsMatrix(a, nCols) && IsMatrix(b, nCols) && 0 < sizeA <= |a| && startRowB + nRowsInBlockB <= |b|
    requires nRowsInBlockB <= sizeB && iBlockA < NumBlocks(|a|, sizeA)
    requires Holds(bBuf, b[startRowB..startRowB + nRowsInBlockB], nCols)
    requires tlsBuff != bBuf && tlsBuff.Length == sizeA * sizeB && tc.Length0 == |b| && tc.Length1 == |a|
    modifies tlsBuff, tc
    ensures forall j: nat, i: nat :: j < |b| && i < |a| ==>
        tc[j, i] == if startRowB <= j < startRowB + nRowsInBlockB && BlockIndex(sizeA, i) == iBlockA
                    then Product(alpha, a, b, nCols, j, i) else old(tc[j, i])
  {
    hide Entry, Product, BlockIndex;
    var startRowA, nRowsInBlockA := BlockRange(|a|, sizeA, iBlockA);
    var aBuf := ReadRows(a, startRowA, nRowsInBlockA, nCols);
    ghost var aRows, bRows := a[startRowA..startRowA + nRowsInBlockA], b[startRowB..startRowB + nRowsInBlockB];
    Xxgemm(alpha, bBuf, aBuf, nCols, 0.0, tlsBuff, sizeA, sizeB, 0, 0, bRows, aRows, nRowsInBlockB, nRowsInBlockA);
    forall i: nat, j: nat | i < nRowsInBlockA && j < nRowsInBlockB
      ensures tlsBuff[FlatIndex(i, j, sizeA, sizeB)] == Product(alpha, a, b, nCols, startRowB + j, startRowA + i)
    {
      assert InWindow(i, j, 0, nRowsInBlockA, 0, nRowsInBlockB);
      assert aRows[i] == a[startRowA + i] && bRows[j] == b[startRowB + j];
      EntryIsProduct(alpha, a, b, nCols, startRowB + j, startRowA + i, old(tlsBuff[FlatIndex(i, j, sizeA, sizeB)]));
    }
    CopyColumns(tlsBuff, sizeA, sizeB, tc, startRowA, nRowsInBlockA, startRowB, nRowsInBlockB);
    forall j: nat, i: nat | j < |b| && i < |a| && startRowB <= j < startRowB + nRowsInBlockB
        && BlockIndex(sizeA, i) == iBlockA
      ensures tc[j, i] == Product(alpha, a, b, nCols, j, i)
    {
      assert tlsBuff[FlatIndex(i - startRowA, j - startRowB, sizeA, sizeB)] == Product(alpha, a, b, nCols, j, i);
    }
  }

  /** Lines 271-276. */
  method CopyColumns(c: array<real>, sizeA: nat, sizeB: nat, tc: array2<real>, startRowA: nat, nRowsInBlockA: nat,
      startRowB: nat, nRowsInBlockB: nat)
    requires c.Length == sizeA * sizeB && nRowsInBlockA <= sizeA && nRowsInBlockB <= sizeB
    requires startRowA + nRowsInBlockA <= tc.Length1 && startRowB + nRowsInBlockB <= tc.Length0
    modifies tc
    ensures forall j: nat, i: nat :: j < tc.Length0 && i < tc.Length1 ==>
        tc[j, i] == if InWindow(j, i, startRowB, nRowsInBlockB, startRowA, nRowsInBlockA)
                    then c[FlatIndex(i - startRowA, j - startRowB, sizeA, sizeB)] else old(tc[j, i])
  {
    for i0 := 0 to nRowsInBlockA
      invariant forall j: nat, i: nat :: j < tc.Length0 && i < tc.Length1 ==>
          tc[j, i] == if InWindow(j, i, startRowB, nRowsInBlockB, startRowA, i0)
                      then c[FlatIndex(i - startRowA, j - startRowB, sizeA, sizeB)] else old(tc[j, i])
    {
      for t := 0 to nRowsInBlockB
        invariant forall j: nat, i: nat :: j < tc.Length0 && i < tc.Length1 ==>
            tc[j, i] == if InWindow(j, i, startRowB, nRowsInBlockB, startRowA, i0)
                || InWindow(j, i, startRowB, t, startRowA + i0, 1)
                        then c[FlatIndex(i - startRowA, j - startRowB, sizeA, sizeB)] else old(tc[j, i])
      {
        tc[startRowB + t, startRowA + i0] := c[FlatIndex(i0, t, sizeA, sizeB)];
      }
    }
  }

  /** One block of rows of the result: lines 231-278. */
  method RunRowBlock(isSOARes: bool, alpha: real, a: seq<seq<real>>, b: seq<seq<real>>, nCols: nat, sizeA: nat,
      sizeB: nat, iBlockB: nat, order: seq<nat>, tlsBuff: array<real>, tc: array2<real>)
    requires IsMatrix(a, nCols) && IsMatrix(b, nCols) && 0 < sizeA <= |a| && 0 < sizeB <= |b|
    requires iBlockB < NumBlocks(|b|, sizeB) && Schedule(order, NumBlocks(|a|, sizeA))
    requires tlsBuff.Length == sizeA * sizeB && tc.Length0 == |b| && tc.Length1 == |a|
    modifies tlsBuff, tc
    ensures forall j: nat, i: nat :: j < |b| && i < |a| ==>
        tc[j, i] == if BlockIndex(sizeB, j) == iBlockB then Product(alpha, a, b, nCols, j, i) else old(tc[j, i])
  {
    hide Product, Holds;
    var startRowB, nRowsInBlockB := BlockRange(|b|, sizeB, iBlockB);
    var bBuf := ReadRows(b, startRowB, nRowsInBlockB, nCols);
    if !isSOARes {
      var mtcRows := new real[nRowsInBlockB * |a|];
      FillRowBlock(alpha, a, b, nCols, sizeA, order, startRowB, nRowsInBlockB, bBuf, mtcRows);
      ReleaseRows(tc, mtcRows, startRowB, nRowsInBlockB);
    } else {
      FillColumnBlocks(alpha, a, b, nCols, sizeA, sizeB, order, startRowB, nRowsInBlockB, bBuf, tlsBuff, tc);
    }
  }

  /** Column storage: all blocks of columns of one block of rows, in any order. */
  method FillColumnBlocks(alpha: real, a: seq<seq<real>>, b: seq<seq<real>>, nCols: nat, sizeA: nat, sizeB: nat,
      order: seq<nat>, startRowB: nat, nRowsInBlockB: nat, bBuf: array<real>, tlsBuff: array<real>, tc: array2<real>)
    requires IsMatrix(a, nCols) && IsMatrix(b, nCols) && 0 < sizeA <= |a| && startRowB + nRowsInBlockB <= |b|
    requires nRowsInBlockB <= sizeB && Schedule(order, NumBlocks(|a|, sizeA))
    requires Holds(bBuf, b[startRowB..startRowB + nRowsInBlockB], nCols)
    requires tlsBuff != bBuf && tlsBuff.Length == sizeA * sizeB && tc.Length0 == |b| && tc.Length1 == |a|
    modifies tlsBuff, tc
    ensures forall j: nat, i: nat :: j < |b| && i < |a| ==>
        tc[j, i] == if startRowB <= j < startRowB + nRowsInBlockB then Product(alpha, a, b, nCols, j, i)
            else old(tc[j, i])
  {
    hide Product;
    for t := 0 to |order|
      invariant Holds(bBuf, b[startRowB..startRowB + nRowsInBlockB], nCols)
      invariant forall j: nat, i: nat :: j < |b| && i < |a| ==>
          tc[j, i] == if startRowB <= j < startRowB + nRowsInBlockB && BlockIndex(sizeA, i) in order[..t]
                      then Product(alpha, a, b, nCols, j, i) else old(tc[j, i])
    {
      var iBlockA := order[t];
      assert iBlockA in order && order[..t + 1] == order[..t] + [iBlockA];
      FillColumns(alpha, a, b, nCols, sizeA, sizeB, iBlockA, startRowB, nRowsInBlockB, bBuf, tlsBuff, tc);
    }
    assert order[..|order|] == order;
    forall i: nat | i < |a|
      ensures BlockIndex(sizeA, i) in order
    {
      BlockOf(|a|, sizeA, i);
    }
  }

  /** For every block size requested, every order of the blocks and both result layouts, with beta = 0
      every cell ends as alpha times the product of its two rows. */
  method XgemmBlocked(a: seq<seq<real>>, b: seq<seq<real>>, nCols: nat, alpha: real, tc: array2<real>, isSOARes: bool,
      reqBlockSizeA: int, reqBlockSizeB: int, orderB: seq<nat>, orderA: nat -> seq<nat>)
    requires IsMatrix(a, nCols) && IsMatrix(b, nCols) && |a| > 0 && |b| > 0
    requires tc.Length0 == |b| && tc.Length1 == |a|
    requires Schedule(orderB, NumBlocks(|b|, ChosenBlockSize(reqBlockSizeB, |b|)))
    requires forall p: nat :: Schedule(orderA(p), NumBlocks(|a|, ChosenBlockSize(reqBlockSizeA, |a|)))
    modifies tc
    ensures forall j: nat, i: nat :: j < |b| && i < |a| ==> tc[j, i] == Product(alpha, a, b, nCols, j, i)
    ensures forall j: nat, i: nat, c: nat :: j < |b| && i < |a| && IsUnitRow(b[j], c, nCols) ==>
        tc[j, i] == alpha * a[i][c]
  {
    hide Product, ChosenBlockSize, IsUnitRow;
    var blockSizeA := ChosenBlockSize(reqBlockSizeA, |a|);
    var blockSizeB := ChosenBlockSize(reqBlockSizeB, |b|);
    var tlsBuff := new real[blockSizeA * blockSizeB];
    for t := 0 to |orderB|
      invariant forall j: nat, i: nat :: j < |b| && i < |a| && BlockIndex(blockSizeB, j) in orderB[..t] ==>
          tc[j, i] == Product(alpha, a, b, nCols, j, i)
    {
      var iBlockB := orderB[t];
      assert iBlockB in orderB && orderB[..t + 1] == orderB[..t] + [iBlockB];
      RunRowBlock(isSOARes, alpha, a, b, nCols, blockSizeA, blockSizeB, iBlockB, orderA(iBlockB), tlsBuff, tc);
    }
    assert orderB[..|orderB|] == orderB;
    forall j: nat | j < |b|
      ensures BlockIndex(blockSizeB, j) in orderB
    {
      BlockOf(|b|, blockSizeB, j);
    }
    forall j: nat, i: nat, c: nat | j < |b| && i < |a| && IsUnitRow(b[j], c, nCols)
      ensures c < nCols && Product(alpha, a, b, nCols, j, i) == alpha * a[i][c]
    {
      ProductOfUnitRow(alpha, a, b, nCols, j, i, c);
    }
  }
}
