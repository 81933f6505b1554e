/** Squared Euclidean distances of all row pairs through |a|^2 + |b|^2 - 2 a b. */
module Distances {
  import opened Blas
  import opened Blocks
  import opened Layout

  const NORM_BLOCK := 512
  const FULL_BLOCK := 256

  /** `distancePow2`: the sum of squared differences. */
  function DistancePow2(x: seq<real>, y: seq<real>, dim: nat): real
    requires dim <= |x| && dim <= |y|
  {
    if dim == 0 then 0.0
    else DistancePow2(x, y, dim - 1) + Square(y[dim - 1] - x[dim - 1])
  }

  function Square(d: real): real {
    d * d
  }

  method ComputeDistancePow2(a: array<real>, b: array<real>, dim: nat) returns (sum: real)
    requires dim <= a.Length && dim <= b.Length
    ensures sum == DistancePow2(a[..], b[..], dim)
  {
    sum := 0.0;
    for i := 0 to dim
      invariant sum == DistancePow2(a[..], b[..], i)
    {
      sum := sum + Square(b[i] - a[i]);
    }
  }

  /** The expansion of the square, summed over the entries. */
  lemma {:induction false} DistanceExpands(x: seq<real>, y: seq<real>, dim: nat)
    requires dim <= |x| && dim <= |y|
    ensures DistancePow2(x, y, dim) == Dot(x, x, dim) + Dot(y, y, dim) - 2.0 * Dot(x, y, dim)
  {
    if dim > 0 {
      DistanceExpands(x, y, dim - 1);
      SquareExpands(x[dim - 1], y[dim - 1]);
    }
  }

  lemma SquareExpands(p: real, q: real)
    ensures Square(q - p) == p * p + q * q - 2.0 * (p * q)
  {
  }

  /** A squared distance is zero exactly between rows that agree. */
  lemma {:induction false} DistanceZero(x: seq<real>, y: seq<real>, dim: nat)
    requires dim <= |x| && dim <= |y|
    ensures DistancePow2(x, y, dim) >= 0.0
    ensures DistancePow2(x, y, dim) == 0.0 <==> forall k :: 0 <= k < dim ==> x[k] == y[k]
  {
    if dim > 0 {
      DistanceZero(x, y, dim - 1);
      SquareZero(y[dim - 1] - x[dim - 1]);
      hide Square;
    }
  }

  lemma SquareZero(d: real)
    ensures Square(d) >= 0.0 && (d == 0.0 <==> Square(d) == 0.0)
  {
    hide Square;
    if d > 0.0 {
      SquarePositive(d);
    } else if d < 0.0 {
      SquareEven(d);
      SquarePositive(-d);
    } else {
      assert Square(d) == 0.0 by {
        SquareOfZero(d);
      }
    }
  }

  lemma SquarePositive(d: real)
    requires d > 0.0
    ensures Square(d) > 0.0
  {
    PositiveProduct(d, d, Square(d));
  }

  lemma PositiveProduct(x: real, y: real, product: real)
    requires x > 0.0 && y > 0.0 && product == x * y
    ensures product > 0.0
  {
  }

  lemma SquareEven(d: real)
    ensures Square(-d) == Square(d)
  {
  }

  lemma SquareOfZero(d: real)
    requires d == 0.0
    ensures Square(d) == 0.0
  {
    assert d * d == 0.0 * d;
  }

  // ---- norms: lines 251-289 ----

  /** The first norms of a buffer are those of the rows. */
  method ComputeNorm(m: seq<seq<real>>, nCols: nat, res: array<real>, order: seq<nat>)
    requires IsMatrix(m, nCols) && res.Length == |m| && Schedule(order, NumBlocks(|m|, NORM_BLOCK))
    modifies res
    ensures forall r :: 0 <= r < |m| ==> res[r] == Dot(m[r], m[r], nCols)
  {
    var nRows := |m|;
    for t := 0 to |order|
      invariant forall r: nat :: r < nRows && BlockIndex(NORM_BLOCK, r) in order[..t] ==>
          res[r] == Dot(m[r], m[r], nCols)
    {
      var iBlock := order[t];
      assert iBlock in order && order[..t + 1] == order[..t] + [iBlock];
      NormBlock(m, nCols, res, iBlock);
    }
    assert order[..|order|] == order;
    forall r: nat | r < nRows
      ensures BlockIndex(NORM_BLOCK, r) in order
    {
      BlockOf(nRows, NORM_BLOCK, r);
    }
  }

  /** Lines 273-279. */
  method RowNorm(data: array<real>, i: nat, n: nat, nCols: nat, ghost rows: seq<seq<real>>) returns (sum: real)
    requires Holds(data, rows, nCols) && i < n == |rows|
    ensures sum == Dot(rows[i], rows[i], nCols)
  {
    sum := 0.0;
    for j := 0 to nCols
      invariant sum == Dot(rows[i], rows[i], j)
    {
      sum := sum + data[FlatIndex(i, j, n, nCols)] * data[FlatIndex(i, j, n, nCols)];
    }
  }

  method NormBlock(m: seq<seq<real>>, nCols: nat, res: array<real>, iBlock: nat)
    requires IsMatrix(m, nCols) && res.Length == |m| && iBlock < NumBlocks(|m|, NORM_BLOCK)
    modifies res
    ensures forall r: nat :: r < |m| ==>
        res[r] == if BlockIndex(NORM_BLOCK, r) == iBlock then Dot(m[r], m[r], nCols) else old(res[r])
  {
    hide Dot, Holds, BlockEnd;
    var nRows := |m|;
    BlockBounds(nRows, NORM_BLOCK, iBlock);
    var begin := iBlock * NORM_BLOCK;
    var end := if begin + NORM_BLOCK < nRows then begin + NORM_BLOCK else nRows;
    var data := ReadRows(m, begin, end - begin, nCols);
    ghost var rows := m[begin..end];
    for i := 0 to end - begin
      invariant Holds(data, rows, nCols)
      invariant forall r: nat :: r < nRows ==>
          res[r] == if begin <= r < begin + i then Dot(m[r], m[r], nCols) else old(res[r])
    {
      assert rows[i] == m[begin + i];
      var sum := RowNorm(data, i, end - begin, nCols, rows);
      res[begin + i] := sum;
    }
    forall r: nat | r < nRows
      ensures begin <= r < end <==> BlockIndex(NORM_BLOCK, r) == iBlock
    {
      BlockOf(nRows, NORM_BLOCK, r);
    }
  }

  // ---- distances: lines 133-188, 214-247, 292-306 ----

  /** The object's buffers: norms of the rows of A, and of B unless B is the same table. */
  class EuclideanDistances {
    const a: seq<seq<real>>
    const b: seq<seq<real>>
    const nCols: nat
    /** Whether both arguments are the same table object. */
    const sameTable: bool
    var normBufferA: array<real>
    var normBufferB: array<real>

    ghost predicate Shapes() {
      IsMatrix(a, nCols) && IsMatrix(b, nCols) && (sameTable ==> a == b)
    }

    /** The norm buffers are filled. */
    ghost predicate Initialized()
      reads this, normBufferA, normBufferB
    {
      && Shapes()
      && NormsOf(normBufferA[..], a, nCols)
      && (!sameTable ==> NormsOf(normBufferB[..], b, nCols))
    }

    constructor (a: seq<seq<real>>, b: seq<seq<real>>, nCols: nat, sameTable: bool)
      requires IsMatrix(a, nCols) && IsMatrix(b, nCols) && (sameTable ==> a == b)
      ensures this.a == a && this.b == b && this.nCols == nCols && this.sameTable == sameTable
      ensures Shapes() && fresh(normBufferA) && fresh(normBufferB)
    {
      this.a, this.b, this.nCols, this.sameTable := a, b, nCols, sameTable;
      normBufferA := new real[0];
      normBufferB := new real[0];
    }

    method Init(orderA: seq<nat>, orderB: seq<nat>)
      requires Shapes()
      requires Schedule(orderA, NumBlocks(|a|, NORM_BLOCK)) && Schedule(orderB, NumBlocks(|b|, NORM_BLOCK))
      modifies this
      ensures Initialized() && fresh(normBufferA) && (!sameTable ==> fresh(normBufferB))
    {
      normBufferA := new real[|a|];
      ComputeNorm(a, nCols, normBufferA, orderA);
      if !sameTable {
        normBufferB := new real[|b|];
        ComputeNorm(b, nCols, normBufferB, orderB);
      }
    }

    /** Rows [aOffset, aOffset + aSize) of A against rows [bOffset, bOffset + bSize) of B, into rows
        [row0, row0 + aSize) of a buffer with bSize columns. */
    method ComputeBatch(aOffset: nat, aSize: nat, bOffset: nat, bSize: nat, res: array<real>, rows: nat, row0: nat)
      requires Initialized() && aOffset + aSize <= |a| && bOffset + bSize <= |b|
      requires res.Length == rows * bSize && row0 + aSize <= rows && res != normBufferA && res != normBufferB
      modifies res
      ensures Initialized()
      ensures forall i: nat, j: nat :: i < rows && j < bSize ==>
          res[FlatIndex(i, j, rows, bSize)] ==
            if row0 <= i < row0 + aSize then DistancePow2(a[aOffset + i - row0], b[bOffset + j], nCols)
            else old(res[FlatIndex(i, j, rows, bSize)])
    {
      hide DistancePow2, Entry, Dot, FlatIndex;
      ComputeABt(aOffset, aSize, bOffset, bSize, res, rows, row0);
      ghost var products := res[..];
      var aa := normBufferA[aOffset..aOffset + aSize];
      var bb := if sameTable then normBufferA[bOffset..bOffset + bSize] else normBufferB[bOffset..bOffset + bSize];
      CombineNorms(aa, bb, row0, res, rows, bSize);
      forall i: nat, j: nat | row0 <= i < row0 + aSize && j < bSize
        ensures res[FlatIndex(i, j, rows, bSize)] == DistancePow2(a[aOffset + i - row0], b[bOffset + j], nCols)
      {
        DotSymmetric(a[aOffset + i - row0], b[bOffset + j], nCols);
        DistanceExpands(a[aOffset + i - row0], b[bOffset + j], nCols);
        assert products[FlatIndex(i, j, rows, bSize)] == Dot(b[bOffset + j], a[aOffset + i - row0], nCols);
      }
    }

    /** Lines 216-222 and 292-306: the rows are read and multiplied. */
    method ComputeABt(aOffset: nat, aSize: nat, bOffset: nat, bSize: nat, res: array<real>, rows: nat, row0: nat)
      requires Shapes() && aOffset + aSize <= |a| && bOffset + bSize <= |b|
      requires res.Length == rows * bSize && row0 + aSize <= rows
      modifies res
      ensures forall i: nat, j: nat :: i < rows && j < bSize ==>
          res[FlatIndex(i, j, rows, bSize)] ==
            if row0 <= i < row0 + aSize then Dot(b[bOffset + j], a[aOffset + i - row0], nCols)
            else old(res[FlatIndex(i, j, rows, bSize)])
    {
      hide FlatIndex, Dot;
      var aData := ReadRows(a, aOffset, aSize, nCols);
      var bData := ReadRows(b, bOffset, bSize, nCols);
      ghost var rowsA, rowsB := a[aOffset..aOffset + aSize], b[bOffset..bOffset + bSize];
      Xxgemm(1.0, bData, aData, nCols, 0.0, res, rows, bSize, row0, 0, rowsB, rowsA, bSize, aSize);
      forall i: nat, j: nat | i < rows && j < bSize
        ensures res[FlatIndex(i, j, rows, bSize)] ==
            if row0 <= i < row0 + aSize then Dot(b[bOffset + j], a[aOffset + i - row0], nCols)
            else old(res[FlatIndex(i, j, rows, bSize)])
      {
        assert InWindow(i, j, row0, aSize, 0, bSize) <==> row0 <= i < row0 + aSize;
        if row0 <= i < row0 + aSize {
          assert rowsA[i - row0] == a[aOffset + i - row0] && rowsB[j] == b[bOffset + j];
        }
      }
    }

    /** The whole distance matrix, its row blocks in any order. */
    method ComputeFull(res: array<real>, order: seq<nat>)
      requires Initialized() && res.Length == |a| * |b| && Schedule(order, NumBlocks(|a|, FULL_BLOCK))
      requires res != normBufferA && res != normBufferB
      modifies res
      ensures forall i: nat, j: nat :: i < |a| && j < |b| ==>
          res[FlatIndex(i, j, |a|, |b|)] == DistancePow2(a[i], b[j], nCols)
    {
      hide DistancePow2;
      var nRowsA := |a|;
      var nBlocks := NumBlocks(nRowsA, FULL_BLOCK);
      for t := 0 to |order|
        invariant Initialized()
        invariant forall i: nat, j: nat :: i < nRowsA && j < |b| && BlockIndex(FULL_BLOCK, i) in order[..t] ==>
            res[FlatIndex(i, j, nRowsA, |b|)] == DistancePow2(a[i], b[j], nCols)
      {
        var iBlock := order[t];
        assert iBlock in order && order[..t + 1] == order[..t] + [iBlock];
        BlockBounds(nRowsA, FULL_BLOCK, iBlock);
        var i1 := iBlock * FULL_BLOCK;
        var i2 := if iBlock + 1 == nBlocks then nRowsA else i1 + FULL_BLOCK;
        ComputeBatch(i1, i2 - i1, 0, |b|, res, nRowsA, i1);
        forall i: nat | i < nRowsA
          ensures i1 <= i < i2 <==> BlockIndex(FULL_BLOCK, i) == iBlock
        {
          BlockOf(nRowsA, FULL_BLOCK, i);
        }
      }
      assert order[..|order|] == order;
      forall i: nat | i < nRowsA
        ensures BlockIndex(FULL_BLOCK, i) in order
      {
        BlockOf(nRowsA, FULL_BLOCK, i);
      }
    }
  }

  ghost predicate NormsOf(norms: seq<real>, m: seq<seq<real>>, nCols: nat)
    requires IsMatrix(m, nCols)
  {
    |norms| == |m| && forall r :: 0 <= r < |m| ==> norms[r] == Dot(m[r], m[r], nCols)
  }

  /** Lines 169-175, on rows [row0, row0 + |aa|) of the result. */
  method CombineNorms(aa: seq<real>, bb: seq<real>, row0: nat, res: array<real>, rows: nat, nColsC: nat)
    requires |bb| == nColsC && row0 + |aa| <= rows && res.Length == rows * nColsC
    modifies res
    ensures forall i: nat, j: nat :: i < rows && j < nColsC ==>
        res[FlatIndex(i, j, rows, nColsC)] ==
          if row0 <= i < row0 + |aa| then aa[i - row0] + bb[j] - 2.0 * old(res[FlatIndex(i, j, rows, nColsC)])
          else old(res[FlatIndex(i, j, rows, nColsC)])
  {
    for i0 := 0 to |aa|
      invariant forall i: nat, j: nat :: i < rows && j < nColsC ==>
          res[FlatIndex(i, j, rows, nColsC)] ==
            if row0 <= i < row0 + i0 then aa[i - row0] + bb[j] - 2.0 * old(res[FlatIndex(i, j, rows, nColsC)])
            else old(res[FlatIndex(i, j, rows, nColsC)])
    {
      for j0 := 0 to nColsC
        invariant forall i: nat, j: nat :: i < rows && j < nColsC ==>
            res[FlatIndex(i, j, rows, nColsC)] ==
              if row0 <= i < row0 + i0 || (i == row0 + i0 && j < j0)
              then aa[i - row0] + bb[j] - 2.0 * old(res[FlatIndex(i, j, rows, nColsC)])
              else old(res[FlatIndex(i, j, rows, nColsC)])
      {
        FlatSeparates(row0 + i0, j0, rows, nColsC);
        var at := FlatIndex(row0 + i0, j0, rows, nColsC);
        res[at] := aa[i0] + bb[j0] - 2.0 * res[at];
      }
    }
  }
}
