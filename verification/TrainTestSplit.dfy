/** Splitting a table into train and test rows, row-wise or column-wise, in blocks run in any order. */
module TrainTestSplit {
  import opened Blocks
  import opened Layout
  import opened Multisets
  import opened Shuffle

  const BLOCK_CONST := 2048
  const THREADING_BORDER := 8388608
  const SIZE_MAX := 0xFFFF_FFFF_FFFF_FFFF

  datatype NumType = Float32 | Float64 | Int32
  datatype StorageLayout = Soa | RowStorage
  datatype Status = Ok | InconsistentNumberOfColumns | InconsistentNumberOfRows | BufferSizeIntegerOverflow

  // ---- gathering rows ----

  /** The rows that `idx` names, in its order. */
  function Gather<R>(rows: seq<R>, idx: seq<nat>): (g: seq<R>)
    requires forall k :: 0 <= k < |idx| ==> idx[k] < |rows|
  {
    seq(|idx|, k requires 0 <= k < |idx| => rows[idx[k]])
  }

  lemma {:induction false} GatherRearranged<R>(rows: seq<R>, idx: seq<nat>, idx': seq<nat>)
    requires multiset(idx) == multiset(idx')
    requires forall k :: 0 <= k < |idx| ==> idx[k] < |rows|
    requires forall k :: 0 <= k < |idx'| ==> idx'[k] < |rows|
    ensures multiset(Gather(rows, idx)) == multiset(Gather(rows, idx'))
    decreases |idx|
  {
    SameLength(idx, idx');
    if idx != [] {
      SameElements(idx, idx');
      assert idx[0] in idx';
      var k :| 0 <= k < |idx'| && idx'[k] == idx[0];
      WithoutSame(idx, idx', k);
      hide Gather;
      GatherWithout(rows, idx, 0);
      GatherWithout(rows, idx', k);
      GatherRearranged(rows, Without(idx, 0), Without(idx', k));
    }
  }

  lemma GatherWithout<R>(rows: seq<R>, idx: seq<nat>, k: nat)
    requires forall k :: 0 <= k < |idx| ==> idx[k] < |rows|
    requires k < |idx|
    ensures multiset(Gather(rows, idx)) == multiset{rows[idx[k]]} + multiset(Gather(rows, Without(idx, k)))
  {
    WithoutMultiset(Gather(rows, idx), k);
    assert Without(Gather(rows, idx), k) == Gather(rows, Without(idx, k));
  }

  /** If the two index lists together permute the rows, train and test rows together are the input rows. */
  lemma RowsConserved<R>(rows: seq<R>, trainIdx: seq<nat>, testIdx: seq<nat>)
    requires IsPermutation(trainIdx + testIdx, |rows|)
    ensures forall k :: 0 <= k < |trainIdx| ==> trainIdx[k] < |rows|
    ensures forall k :: 0 <= k < |testIdx| ==> testIdx[k] < |rows|
    ensures multiset(Gather(rows, trainIdx)) + multiset(Gather(rows, testIdx)) == multiset(rows)
  {
    var both := trainIdx + testIdx;
    SameElements(both, Identity(|rows|));
    assert forall k :: 0 <= k < |trainIdx| ==> trainIdx[k] == both[k];
    assert forall k :: 0 <= k < |testIdx| ==> testIdx[k] == both[|trainIdx| + k];
    forall k | 0 <= k < |both|
      ensures both[k] < |rows|
    {
      assert both[k] in Identity(|rows|);
    }
    GatherRearranged(rows, both, Identity(|rows|));
    assert Gather(rows, Identity(|rows|)) == rows;
    assert Gather(rows, both) == Gather(rows, trainIdx) + Gather(rows, testIdx);
  }

  // ---- tables ----

  /** Row r of a table. */
  ghost function Row(t: array2<real>, r: nat): seq<real>
    requires r < t.Length0
    reads t
  {
    seq(t.Length1, c requires 0 <= c < t.Length1 reads t => t[r, c])
  }

  ghost function TableRows(t: array2<real>): seq<seq<real>>
    reads t
  {
    seq(t.Length0, r requires 0 <= r < t.Length0 reads t => Row(t, r))
  }

  /** Destination cell (r, c) got source cell (idx[r], c), as it comes through column type `types(c)`. */
  ghost predicate GatheredCell(dst: array2<real>, src: array2<real>, idx: seq<nat>, types: nat -> NumType,
      through: (NumType, real) -> real, r: nat, c: nat)
    requires r < dst.Length0 == |idx| && c < dst.Length1 == src.Length1 && idx[r] < src.Length0
    reads dst, src
  {
    dst[r, c] == through(types(c), src[idx[r], c])
  }

  ghost predicate IndexesInto(idx: seq<nat>, dst: array2<real>, src: array2<real>) {
    && dst.Length0 == |idx| && dst.Length1 == src.Length1
    && forall k :: 0 <= k < |idx| ==> idx[k] < src.Length0
  }

  ghost predicate Gathered(dst: array2<real>, src: array2<real>, idx: seq<nat>, types: nat -> NumType,
      through: (NumType, real) -> real)
    requires IndexesInto(idx, dst, src)
    reads dst, src
  {
    forall r: nat, c: nat :: r < dst.Length0 && c < dst.Length1 ==> GatheredCell(dst, src, idx, types, through, r, c)
  }

  // ---- column-wise: lines 166-221 ----

  /** Rows [startRow, startRow + nRows) of one column; nothing else of the table changes. */
  method AssignColumnValues(src: array2<real>, dst: array2<real>, idx: seq<nat>, startRow: nat, nRows: nat, iCol: nat,
      types: nat -> NumType, through: (NumType, real) -> real)
    requires dst != src && IndexesInto(idx, dst, src) && startRow + nRows <= |idx| && iCol < dst.Length1
    modifies dst
    ensures forall r: nat, c: nat :: r < dst.Length0 && c < dst.Length1 ==>
        if startRow <= r < startRow + nRows && c == iCol then GatheredCell(dst, src, idx, types, through, r, c)
        else dst[r, c] == old(dst[r, c])
  {
    for i := 0 to nRows
      invariant forall r: nat, c: nat :: r < dst.Length0 && c < dst.Length1 ==>
          if startRow <= r < startRow + i && c == iCol then GatheredCell(dst, src, idx, types, through, r, c)
          else dst[r, c] == old(dst[r, c])
    {
      dst[startRow + i, iCol] := through(types(iCol), src[idx[startRow + i], iCol]);
    }
  }

  method AssignColumnSubset(src: array2<real>, dst: array2<real>, idx: seq<nat>, iCol: nat,
      types: nat -> NumType, through: (NumType, real) -> real, nThreads: nat, order: seq<nat>)
    requires dst != src && IndexesInto(idx, dst, src) && iCol < dst.Length1
    requires Schedule(order, NumBlocks(|idx|, BLOCK_CONST))
    modifies dst
    ensures forall r: nat, c: nat :: r < dst.Length0 && c < dst.Length1 ==>
        if c == iCol then GatheredCell(dst, src, idx, types, through, r, c) else dst[r, c] == old(dst[r, c])
  {
    var nRows := |idx|;
    if nRows > THREADING_BORDER && nThreads > 1 {
      for t := 0 to |order|
        invariant forall r: nat, c: nat :: r < dst.Length0 && c < dst.Length1 ==>
            if c == iCol && BlockIndex(BLOCK_CONST, r) in order[..t]
            then GatheredCell(dst, src, idx, types, through, r, c)
            else dst[r, c] == old(dst[r, c])
      {
        var iBlock := order[t];
        assert iBlock in order && order[..t + 1] == order[..t] + [iBlock];
        BlockBounds(nRows, BLOCK_CONST, iBlock);
        var start := iBlock * BLOCK_CONST;
        var end := if start + BLOCK_CONST < nRows then start + BLOCK_CONST else nRows;
        BlockRows(nRows, BLOCK_CONST, iBlock, start, end);
        AssignColumnValues(src, dst, idx, start, end - start, iCol, types, through);
      }
      AllBlocksDone(nRows, BLOCK_CONST, order);
    } else {
      AssignColumnValues(src, dst, idx, 0, nRows, iCol, types, through);
    }
  }

  /** The rows between `start` and the capped end of a block are the rows of that block. */
  lemma BlockRows(n: nat, blockSize: nat, b: nat, start: int, end: int)
    requires blockSize > 0 && b < NumBlocks(n, blockSize)
    requires start == b * blockSize && end == if start + blockSize < n then start + blockSize else n
    ensures 0 <= start < end <= n
    ensures forall r: nat :: r < n ==> (start <= r < end <==> BlockIndex(blockSize, r) == b)
  {
    BlockBounds(n, blockSize, b);
    forall r: nat | r < n
      ensures start <= r < end <==> BlockIndex(blockSize, r) == b
    {
      BlockOf(n, blockSize, r);
      CappedEnd(n, blockSize, b, start);
    }
  }

  lemma CappedEnd(n: nat, blockSize: nat, b: nat, start: int)
    requires blockSize > 0 && b < NumBlocks(n, blockSize) && start == b * blockSize
    ensures BlockEnd(n, blockSize, b) == if start + blockSize < n then start + blockSize else n
  {
    BlockBounds(n, blockSize, b);
    if b + 1 < NumBlocks(n, blockSize) {
      BlockBounds(n, blockSize, b + 1);
      assert (b + 1) * blockSize == start + blockSize;
    }
  }

  lemma AllBlocksDone(n: nat, blockSize: nat, order: seq<nat>)
    requires blockSize > 0 && Schedule(order, NumBlocks(n, blockSize))
    ensures forall r: nat :: r < n ==> BlockIndex(blockSize, r) in order[..|order|]
  {
    forall r: nat | r < n
      ensures BlockIndex(blockSize, r) in order[..|order|]
    {
      BlockOf(n, blockSize, r);
      assert order[..|order|] == order;
    }
  }

  method SplitColumn(src: array2<real>, train: array2<real>, test: array2<real>, trainIdx: seq<nat>, testIdx: seq<nat>,
      iCol: nat, types: nat -> NumType, through: (NumType, real) -> real, nThreads: nat,
      trainOrder: seq<nat>, testOrder: seq<nat>)
    requires train != src && test != src && train != test && iCol < src.Length1
    requires IndexesInto(trainIdx, train, src) && IndexesInto(testIdx, test, src)
    requires Schedule(trainOrder, NumBlocks(|trainIdx|, BLOCK_CONST))
    requires Schedule(testOrder, NumBlocks(|testIdx|, BLOCK_CONST))
    modifies train, test
    ensures forall r: nat, c: nat :: r < train.Length0 && c < train.Length1 ==>
        if c == iCol then GatheredCell(train, src, trainIdx, types, through, r, c) else train[r, c] == old(train[r, c])
    ensures forall r: nat, c: nat :: r < test.Length0 && c < test.Length1 ==>
        if c == iCol then GatheredCell(test, src, testIdx, types, through, r, c) else test[r, c] == old(test[r, c])
  {
    hide Schedule;
    AssignColumnSubset(src, train, trainIdx, iCol, types, through, nThreads, trainOrder);
    AssignColumnSubset(src, test, testIdx, iCol, types, through, nThreads, testOrder);
  }

  /** The columns named in `done` have been gathered. */
  ghost predicate ColumnsGathered(dst: array2<real>, src: array2<real>, idx: seq<nat>, types: nat -> NumType,
      through: (NumType, real) -> real, done: seq<nat>)
    requires IndexesInto(idx, dst, src)
    reads dst, src
  {
    forall r: nat, c: nat :: r < dst.Length0 && c < dst.Length1 && c in done ==>
        GatheredCell(dst, src, idx, types, through, r, c)
  }

  /** Lines 316-331: the columns in any order. */
  method SplitColumns(src: array2<real>, train: array2<real>, test: array2<real>, trainIdx: seq<nat>, testIdx: seq<nat>,
      types: nat -> NumType, through: (NumType, real) -> real, nThreads: nat,
      colOrder: seq<nat>, trainOrder: nat -> seq<nat>, testOrder: nat -> seq<nat>)
    requires train != src && test != src && train != test
    requires IndexesInto(trainIdx, train, src) && IndexesInto(testIdx, test, src)
    requires Schedule(colOrder, src.Length1)
    requires forall c: nat :: c < src.Length1 ==>
        && Schedule(trainOrder(c), NumBlocks(|trainIdx|, BLOCK_CONST))
        && Schedule(testOrder(c), NumBlocks(|testIdx|, BLOCK_CONST))
    modifies train, test
    ensures Gathered(train, src, trainIdx, types, through) && Gathered(test, src, testIdx, types, through)
  {
    for t := 0 to |colOrder|
      invariant ColumnsGathered(train, src, trainIdx, types, through, colOrder[..t])
      invariant ColumnsGathered(test, src, testIdx, types, through, colOrder[..t])
    {
      var iCol := colOrder[t];
      assert iCol in colOrder && colOrder[..t + 1] == colOrder[..t] + [iCol];
      label before:
      SplitColumn(src, train, test, trainIdx, testIdx, iCol, types, through, nThreads, trainOrder(iCol),
          testOrder(iCol));
      forall r: nat, c: nat | r < train.Length0 && c < train.Length1 && c in colOrder[..t + 1]
        ensures GatheredCell(train, src, trainIdx, types, through, r, c)
      {
        assert c != iCol ==> old@before(GatheredCell(train, src, trainIdx, types, through, r, c));
      }
      forall r: nat, c: nat | r < test.Length0 && c < test.Length1 && c in colOrder[..t + 1]
        ensures GatheredCell(test, src, testIdx, types, through, r, c)
      {
        assert c != iCol ==> old@before(GatheredCell(test, src, testIdx, types, through, r, c));
      }
    }
    assert colOrder[..|colOrder|] == colOrder;
  }

  // ---- row-wise: lines 223-285 ----

  /** A row-major buffer holds rows [start, start + n) of a table, as they come through type `t`. */
  ghost predicate Buffered(buf: array<real>, src: array2<real>, start: nat, n: nat, t: NumType,
      through: (NumType, real) -> real)
    reads buf, src
  {
    && start + n <= src.Length0 && buf.Length == n * src.Length1
    && forall r: nat, c: nat :: r < n && c < src.Length1 ==>
        buf[FlatIndex(r, c, n, src.Length1)] == through(t, src[start + r, c])
  }

  /** `ReadRows`: the whole table, every cell converted to one type. */
  method ReadAllRows(src: array2<real>, t: NumType, through: (NumType, real) -> real) returns (buf: array<real>)
    ensures fresh(buf) && Buffered(buf, src, 0, src.Length0, t, through)
  {
    var n, nc := src.Length0, src.Length1;
    buf := new real[n * nc];
    for i := 0 to n
      invariant forall r: nat, c: nat :: r < i && c < nc ==> buf[FlatIndex(r, c, n, nc)] == through(t, src[r, c])
    {
      for j := 0 to nc
        invariant forall r: nat, c: nat :: r < n && c < nc && (r < i || (r == i && c < j)) ==>
            buf[FlatIndex(r, c, n, nc)] == through(t, src[r, c])
      {
        FlatSeparates(i, j, n, nc);
        buf[FlatIndex(i, j, n, nc)] := through(t, src[i, j]);
      }
    }
  }

  /** The gather loop of `assignRows` into the block buffer. */
  method GatherBlock(orig: array<real>, origRows: nat, dataPtr: array<real>, idx: seq<nat>, nColumns: nat)
    requires dataPtr != orig && orig.Length == origRows * nColumns && dataPtr.Length == |idx| * nColumns
    requires forall k :: 0 <= k < |idx| ==> idx[k] < origRows
    modifies dataPtr
    ensures forall r: nat, c: nat :: r < |idx| && c < nColumns ==>
        dataPtr[FlatIndex(r, c, |idx|, nColumns)] == orig[FlatIndex(idx[r], c, origRows, nColumns)]
  {
    for i := 0 to |idx|
      invariant forall r: nat, c: nat :: r < i && c < nColumns ==>
          dataPtr[FlatIndex(r, c, |idx|, nColumns)] == orig[FlatIndex(idx[r], c, origRows, nColumns)]
    {
      for j := 0 to nColumns
        invariant forall r: nat, c: nat :: r < |idx| && c < nColumns && (r < i || (r == i && c < j)) ==>
            dataPtr[FlatIndex(r, c, |idx|, nColumns)] == orig[FlatIndex(idx[r], c, origRows, nColumns)]
      {
        FlatSeparates(i, j, |idx|, nColumns);
        dataPtr[FlatIndex(i, j, |idx|, nColumns)] := orig[FlatIndex(idx[i], j, origRows, nColumns)];
      }
    }
  }

  /** Every column read as one type. */
  function AllOf(t: NumType): nat -> NumType {
    c => t
  }

  method AssignRows(orig: array<real>, src: array2<real>, dst: array2<real>, idx: seq<nat>, startRow: nat, nRows: nat,
      t: NumType, through: (NumType, real) -> real)
    requires dst != src && IndexesInto(idx, dst, src) && startRow + nRows <= |idx|
    requires Buffered(orig, src, 0, src.Length0, t, through)
    modifies dst
    ensures forall r: nat, c: nat :: r < dst.Length0 && c < dst.Length1 ==>
        if startRow <= r < startRow + nRows then GatheredCell(dst, src, idx, AllOf(t), through, r, c)
        else dst[r, c] == old(dst[r, c])
  {
    var nColumns := src.Length1;
    var dataPtr := new real[nRows * nColumns];
    var block := idx[startRow..startRow + nRows];
    GatherBlock(orig, src.Length0, dataPtr, block, nColumns);
    ReleaseRows(dst, dataPtr, startRow, nRows);
    forall r: nat, c: nat | startRow <= r < startRow + nRows && c < dst.Length1
      ensures GatheredCell(dst, src, idx, AllOf(t), through, r, c)
    {
      assert block[r - startRow] == idx[r];
      assert dst[r, c] == dataPtr[FlatIndex(r - startRow, c, nRows, nColumns)];
    }
  }

  method AssignRowsSubset(orig: array<real>, src: array2<real>, dst: array2<real>, idx: seq<nat>,
      t: NumType, through: (NumType, real) -> real, nThreads: nat, blockSize: nat, order: seq<nat>)
    requires dst != src && IndexesInto(idx, dst, src) && Buffered(orig, src, 0, src.Length0, t, through)
    requires blockSize > 0 && Schedule(order, NumBlocks(|idx|, blockSize))
    modifies dst
    ensures Gathered(dst, src, idx, AllOf(t), through)
  {
    hide Buffered;
    var nRows, nColumns := |idx|, src.Length1;
    if nRows * nColumns > THREADING_BORDER && nThreads > 1 {
      for k := 0 to |order|
        invariant RowsGathered(dst, src, idx, AllOf(t), through, blockSize, order[..k])
      {
        var iBlock := order[k];
        assert iBlock in order;
        AssignRowBlock(orig, src, dst, idx, t, through, blockSize, iBlock, order[..k]);
        assert order[..k + 1] == order[..k] + [iBlock];
      }
      AllBlocksDone(nRows, blockSize, order);
    } else {
      AssignRows(orig, src, dst, idx, 0, nRows, t, through);
    }
  }

  /** The rows of the blocks in `done` have been gathered. */
  ghost predicate RowsGathered(dst: array2<real>, src: array2<real>, idx: seq<nat>, types: nat -> NumType,
      through: (NumType, real) -> real, blockSize: nat, done: seq<nat>)
    requires IndexesInto(idx, dst, src) && blockSize > 0
    reads dst, src
  {
    forall r: nat, c: nat :: r < dst.Length0 && c < dst.Length1 && BlockIndex(blockSize, r) in done ==>
        GatheredCell(dst, src, idx, types, through, r, c)
  }

  /** The body of the threaded loop of `assignRowsSubset`. */
  method AssignRowBlock(orig: array<real>, src: array2<real>, dst: array2<real>, idx: seq<nat>,
      t: NumType, through: (NumType, real) -> real, blockSize: nat, iBlock: nat, ghost done: seq<nat>)
    requires dst != src && IndexesInto(idx, dst, src) && Buffered(orig, src, 0, src.Length0, t, through)
    requires blockSize > 0 && iBlock < NumBlocks(|idx|, blockSize)
    requires RowsGathered(dst, src, idx, AllOf(t), through, blockSize, done)
    modifies dst
    ensures RowsGathered(dst, src, idx, AllOf(t), through, blockSize, done + [iBlock])
  {
    hide Buffered, AllOf, NumBlocks;
    var nRows := |idx|;
    var start := iBlock * blockSize;
    var end := if start + blockSize < nRows then start + blockSize else nRows;
    BlockRows(nRows, blockSize, iBlock, start, end);
    hide BlockIndex;
    AssignRows(orig, src, dst, idx, start, end - start, t, through);
    forall r: nat, c: nat | r < dst.Length0 && c < dst.Length1 && BlockIndex(blockSize, r) in done + [iBlock]
      ensures GatheredCell(dst, src, idx, AllOf(t), through, r, c)
    {
      assert !(start <= r < end) ==> old(GatheredCell(dst, src, idx, AllOf(t), through, r, c));
    }
  }

  /** The whole table is read as the type of column 0. */
  method SplitRows(src: array2<real>, train: array2<real>, test: array2<real>, trainIdx: seq<nat>, testIdx: seq<nat>,
      t: NumType, through: (NumType, real) -> real, nThreads: nat, trainOrder: seq<nat>, testOrder: seq<nat>)
    requires train != src && test != src && train != test && src.Length1 > 0
    requires IndexesInto(trainIdx, train, src) && IndexesInto(testIdx, test, src)
    requires Schedule(trainOrder, NumBlocks(|trainIdx|, RowBlockSize(src.Length1)))
    requires Schedule(testOrder, NumBlocks(|testIdx|, RowBlockSize(src.Length1)))
    modifies train, test
    ensures Gathered(train, src, trainIdx, AllOf(t), through) && Gathered(test, src, testIdx, AllOf(t), through)
  {
    var orig := ReadAllRows(src, t, through);
    AssignRowsSubset(orig, src, train, trainIdx, t, through, nThreads, RowBlockSize(src.Length1), trainOrder);
    AssignRowsSubset(orig, src, test, testIdx, t, through, nThreads, RowBlockSize(src.Length1), testOrder);
  }

  function RowBlockSize(nColumns: nat): (b: nat)
    requires nColumns > 0
    ensures b > 0
  {
    if BLOCK_CONST / nColumns > 1 then BLOCK_CONST / nColumns else 1
  }

  // ---- the split: lines 288-351 ----

  /** The multiplication check of `daal_defines.h`, lines 462-470: the product, wrapped to 64 bits and divided again. */
  predicate Overflows(op1: nat, op2: nat) {
    op1 != 0 && op2 != 0 && op1 * op2 % (SIZE_MAX + 1) / op1 != op2
  }

  /** It fails exactly when the product does not fit. */
  lemma OverflowsIff(op1: nat, op2: nat)
    ensures Overflows(op1, op2) <==> op1 * op2 > SIZE_MAX
  {
    if op1 != 0 && op2 != 0 {
      var p := op1 * op2;
      WrappedQuotient(p, op1, op2);
    } else {
      assert op1 * op2 == 0;
    }
  }

  lemma WrappedQuotient(p: nat, d: nat, q: nat)
    requires d > 0 && p == q * d
    ensures p % (SIZE_MAX + 1) / d == q <==> p <= SIZE_MAX
  {
    Wrapped(p);
    var r := p % (SIZE_MAX + 1);
    if p <= SIZE_MAX {
      Quotient(q, 0, d);
    } else {
      SmallerQuotient(r, d, q);
    }
  }

  lemma Wrapped(p: nat)
    ensures p % (SIZE_MAX + 1) <= SIZE_MAX && (p <= SIZE_MAX ==> p % (SIZE_MAX + 1) == p)
  {
  }

  lemma SmallerQuotient(r: nat, d: nat, q: nat)
    requires d > 0 && r < q * d
    ensures r / d != q
  {
    var t := r / d;
    DivisionFacts(r, d);
  }

  /** The dimension checks, in their order. */
  function CheckDimensions(nInputRows: nat, nColumns: nat, trainColumns: nat, testColumns: nat,
      nTrainRows: nat, nTestRows: nat, nTrainIdx: nat, nTestIdx: nat): Status
  {
    if nColumns != testColumns then InconsistentNumberOfColumns
    else if nColumns != trainColumns then InconsistentNumberOfColumns
    else if nTrainRows != nTrainIdx then InconsistentNumberOfRows
    else if nTestRows != nTestIdx then InconsistentNumberOfRows
    else if nTrainRows + nTestRows > nInputRows then InconsistentNumberOfRows
    else if Overflows(nTrainRows + nTestRows, nColumns) then BufferSizeIntegerOverflow
    else Ok
  }

  /** The column types a layout reads through: its own for each column, or that of column 0 for all. */
  function ReadTypes(layout: StorageLayout, types: nat -> NumType): nat -> NumType {
    if layout == Soa then types else AllOf(types(0))
  }

  /** Any order of the parallel loops the split may run. */
  ghost predicate AnySchedules(layout: StorageLayout, nColumns: nat, nTrain: nat, nTest: nat,
      colOrder: seq<nat>, trainOrder: nat -> seq<nat>, testOrder: nat -> seq<nat>)
    requires nColumns > 0
  {
    if layout == Soa then
      && Schedule(colOrder, nColumns)
      && forall c: nat :: c < nColumns ==>
          && Schedule(trainOrder(c), NumBlocks(nTrain, BLOCK_CONST))
          && Schedule(testOrder(c), NumBlocks(nTest, BLOCK_CONST))
    else
      && Schedule(trainOrder(0), NumBlocks(nTrain, RowBlockSize(nColumns)))
      && Schedule(testOrder(0), NumBlocks(nTest, RowBlockSize(nColumns)))
  }

  method TrainTestSplit(layout: StorageLayout, src: array2<real>, train: array2<real>, test: array2<real>,
      trainIdx: seq<nat>, testIdx: seq<nat>, types: nat -> NumType, through: (NumType, real) -> real, nThreads: nat,
      colOrder: seq<nat>, trainOrder: nat -> seq<nat>, testOrder: nat -> seq<nat>) returns (status: Status)
    requires train != src && test != src && train != test && src.Length1 > 0
    requires forall k :: 0 <= k < |trainIdx| ==> trainIdx[k] < src.Length0
    requires forall k :: 0 <= k < |testIdx| ==> testIdx[k] < src.Length0
    requires AnySchedules(layout, src.Length1, |trainIdx|, |testIdx|, colOrder, trainOrder, testOrder)
    modifies train, test
    ensures status == InconsistentNumberOfColumns <==> train.Length1 != src.Length1 || test.Length1 != src.Length1
    ensures status == InconsistentNumberOfRows
       <==> && train.Length1 == src.Length1 == test.Length1
            && (|| train.Length0 != |trainIdx| || test.Length0 != |testIdx|
                || train.Length0 + test.Length0 > src.Length0)
    ensures status == BufferSizeIntegerOverflow
       <==> && train.Length1 == src.Length1 == test.Length1
            && train.Length0 == |trainIdx| && test.Length0 == |testIdx|
            && train.Length0 + test.Length0 <= src.Length0
            && (train.Length0 + test.Length0) * src.Length1 > SIZE_MAX
    ensures status == Ok
       <==> && train.Length1 == src.Length1 == test.Length1
            && train.Length0 == |trainIdx| && test.Length0 == |testIdx|
            && train.Length0 + test.Length0 <= src.Length0
            && (train.Length0 + test.Length0) * src.Length1 <= SIZE_MAX
    ensures status == Ok ==> forall r, c :: 0 <= r < train.Length0 && 0 <= c < train.Length1 ==>
        train[r, c] == through(if layout == Soa then types(c) else types(0), src[trainIdx[r], c])
    ensures status == Ok ==> forall r, c :: 0 <= r < test.Length0 && 0 <= c < test.Length1 ==>
        test[r, c] == through(if layout == Soa then types(c) else types(0), src[testIdx[r], c])
    ensures status == Ok ==>
        && IndexesInto(trainIdx, train, src) && Gathered(train, src, trainIdx, ReadTypes(layout, types), through)
        && IndexesInto(testIdx, test, src) && Gathered(test, src, testIdx, ReadTypes(layout, types), through)
    ensures status != Ok ==> unchanged(train) && unchanged(test)
    ensures status == Ok && IsPermutation(trainIdx + testIdx, src.Length0) && Idempotent(through) ==>
        (RowsKept(src, train, test) <==> Lossless(src, ReadTypes(layout, types), through))
  {
    hide Schedule, Gathered, Overflows, RowsKept, Lossless, IsPermutation, Idempotent;
    OverflowsIff(train.Length0 + test.Length0, src.Length1);
    status := CheckDimensions(src.Length0, src.Length1, train.Length1, test.Length1,
      train.Length0, test.Length0, |trainIdx|, |testIdx|);
    if status != Ok {
      return;
    }
    if layout == Soa {
      SplitColumns(src, train, test, trainIdx, testIdx, types, through, nThreads, colOrder, trainOrder, testOrder);
    } else {
      SplitRows(src, train, test, trainIdx, testIdx, types(0), through, nThreads, trainOrder(0), testOrder(0));
    }
    GatheredCells(train, src, trainIdx, layout, types, through);
    GatheredCells(test, src, testIdx, layout, types, through);
    if IsPermutation(trainIdx + testIdx, src.Length0) && Idempotent(through) {
      SplitConservesRowsIff(src, train, test, trainIdx, testIdx, ReadTypes(layout, types), through);
    }
  }

  lemma GatheredCells(dst: array2<real>, src: array2<real>, idx: seq<nat>, layout: StorageLayout,
      types: nat -> NumType, through: (NumType, real) -> real)
    requires IndexesInto(idx, dst, src) && Gathered(dst, src, idx, ReadTypes(layout, types), through)
    ensures forall r, c :: 0 <= r < dst.Length0 && 0 <= c < dst.Length1 ==>
        dst[r, c] == through(if layout == Soa then types(c) else types(0), src[idx[r], c])
  {
    forall r: nat, c: nat | r < dst.Length0 && c < dst.Length1
      ensures dst[r, c] == through(if layout == Soa then types(c) else types(0), src[idx[r], c])
    {
      assert GatheredCell(dst, src, idx, ReadTypes(layout, types), through, r, c);
    }
  }

  /** A split by a permutation of all rows, into tables of matching shapes whose cells can be counted, passes. */
  lemma PermutationPasses(nInputRows: nat, nColumns: nat, trainIdx: seq<nat>, testIdx: seq<nat>)
    requires IsPermutation(trainIdx + testIdx, nInputRows) && nInputRows * nColumns <= SIZE_MAX
    ensures CheckDimensions(nInputRows, nColumns, nColumns, nColumns, |trainIdx|, |testIdx|, |trainIdx|, |testIdx|)
        == Ok
  {
    SameLength(trainIdx + testIdx, Identity(nInputRows));
    OverflowsIff(|trainIdx| + |testIdx|, nColumns);
  }

  /** Every cell of the table survives being read through its type. */
  ghost predicate Lossless(src: array2<real>, types: nat -> NumType, through: (NumType, real) -> real)
    reads src
  {
    forall r, c :: 0 <= r < src.Length0 && 0 <= c < src.Length1 ==> through(types(c), src[r, c]) == src[r, c]
  }

  lemma GatheredRows(dst: array2<real>, src: array2<real>, idx: seq<nat>, types: nat -> NumType,
      through: (NumType, real) -> real)
    requires IndexesInto(idx, dst, src) && Gathered(dst, src, idx, types, through) && Lossless(src, types, through)
    ensures TableRows(dst) == Gather(TableRows(src), idx)
  {
    forall r: nat | r < dst.Length0
      ensures Row(dst, r) == Row(src, idx[r])
    {
      forall c: nat | c < dst.Length1
        ensures dst[r, c] == src[idx[r], c]
      {
        assert GatheredCell(dst, src, idx, types, through, r, c);
      }
    }
  }

  /** Converting a cell twice is converting it once. */
  ghost predicate Idempotent(through: (NumType, real) -> real) {
    forall t, x :: through(t, through(t, x)) == through(t, x)
  }

  lemma TwiceIsOnce(through: (NumType, real) -> real, t: NumType, x: real)
    requires Idempotent(through)
    ensures through(t, through(t, x)) == through(t, x)
  {
  }

  ghost predicate RowsKept(src: array2<real>, train: array2<real>, test: array2<real>)
    reads src, train, test
  {
    multiset(TableRows(train)) + multiset(TableRows(test)) == multiset(TableRows(src))
  }

  /** A split by a permutation conserves the rows exactly when every cell survives the type it is read through. */
  lemma SplitConservesRowsIff(src: array2<real>, train: array2<real>, test: array2<real>, trainIdx: seq<nat>,
      testIdx: seq<nat>, types: nat -> NumType, through: (NumType, real) -> real)
    requires IndexesInto(trainIdx, train, src) && Gathered(train, src, trainIdx, types, through)
    requires IndexesInto(testIdx, test, src) && Gathered(test, src, testIdx, types, through)
    requires IsPermutation(trainIdx + testIdx, src.Length0) && Idempotent(through)
    ensures RowsKept(src, train, test) <==> Lossless(src, types, through)
  {
    if Lossless(src, types, through) {
      hide Gathered, Lossless, IsPermutation;
      GatheredRows(train, src, trainIdx, types, through);
      GatheredRows(test, src, testIdx, types, through);
      RowsConserved(TableRows(src), trainIdx, testIdx);
    } else {
      var r: nat, c: nat :| r < src.Length0 && c < src.Length1 && through(types(c), src[r, c]) != src[r, c];
      hide IsPermutation;
      LostRow(train, src, trainIdx, types, through, r, c);
      LostRow(test, src, testIdx, types, through, r, c);
      assert TableRows(src)[r] == Row(src, r);
      assert Row(src, r) in multiset(TableRows(src));
    }
  }

  /** A row with a cell that does not survive is nowhere in the result. */
  lemma LostRow(dst: array2<real>, src: array2<real>, idx: seq<nat>, types: nat -> NumType,
      through: (NumType, real) -> real, r: nat, c: nat)
    requires IndexesInto(idx, dst, src) && Gathered(dst, src, idx, types, through) && Idempotent(through)
    requires r < src.Length0 && c < src.Length1 && through(types(c), src[r, c]) != src[r, c]
    ensures Row(src, r) !in TableRows(dst)
  {
    forall k: nat | k < dst.Length0
      ensures TableRows(dst)[k] != Row(src, r)
    {
      assert GatheredCell(dst, src, idx, types, through, k, c);
      TwiceIsOnce(through, types(c), src[idx[k], c]);
      assert TableRows(dst)[k][c] == dst[k, c] && Row(src, r)[c] == src[r, c];
    }
  }

  /** Conversion to an integer drops the fraction. */
  function Truncating(t: NumType, x: real): real {
    if t != Int32 then x else if x >= 0.0 then x.Floor as real else -((-x).Floor as real)
  }

  lemma TruncatingIdempotent()
    ensures Idempotent(Truncating)
  {
    forall t: NumType, x: real
      ensures Truncating(t, Truncating(t, x)) == Truncating(t, x)
    {
      TruncateOnce(t, x);
    }
  }

  lemma TruncateOnce(t: NumType, x: real)
    ensures Truncating(t, Truncating(t, x)) == Truncating(t, x)
  {
    FloorOfInteger(x.Floor);
    FloorOfInteger((-x).Floor);
  }

  lemma FloorOfInteger(k: int)
    ensures (k as real).Floor == k
  {
  }

  /** An integer column followed by a floating one. */
  function IntegerFirst(): nat -> NumType {
    c => if c == 0 then Int32 else Float64
  }

  /** The one row (1, 0.5) of such a table comes out of the row-wise split as (1, 0): the row is lost, and the
      column-wise split, which keeps it, gives another table. */
  lemma RowStorageLosesCell(src: array2<real>, train: array2<real>, test: array2<real>, soa: array2<real>)
    requires src.Length0 == 1 && src.Length1 == 2 && src[0, 0] == 1.0 && src[0, 1] == 0.5
    requires IndexesInto([0], train, src)
        && Gathered(train, src, [0], ReadTypes(RowStorage, IntegerFirst()), Truncating)
    requires IndexesInto([], test, src) && Gathered(test, src, [], ReadTypes(RowStorage, IntegerFirst()), Truncating)
    requires IndexesInto([0], soa, src) && Gathered(soa, src, [0], ReadTypes(Soa, IntegerFirst()), Truncating)
    ensures train[0, 1] == 0.0 && !RowsKept(src, train, test) && TableRows(soa) != TableRows(train)
  {
    assert GatheredCell(train, src, [0], ReadTypes(RowStorage, IntegerFirst()), Truncating, 0, 1);
    assert GatheredCell(soa, src, [0], ReadTypes(Soa, IntegerFirst()), Truncating, 0, 1);
    assert Truncating(Int32, 0.5) == 0.0;
    TruncatingIdempotent();
    assert TableRows(soa)[0][1] == 0.5 && TableRows(train)[0][1] == 0.0;
    LostRow(train, src, [0], ReadTypes(RowStorage, IntegerFirst()), Truncating, 0, 1);
    assert TableRows(test) == [] && TableRows(src)[0] == Row(src, 0);
    assert Row(src, 0) in multiset(TableRows(src));
  }

  /** The column-wise and the row-wise split of the same table agree exactly when the moved cells read
      alike through their own column's type and through the type of column 0. */
  lemma PathsAgree(a: array2<real>, b: array2<real>, src: array2<real>, idx: seq<nat>, types: nat -> NumType,
      through: (NumType, real) -> real)
    requires IndexesInto(idx, a, src) && Gathered(a, src, idx, ReadTypes(Soa, types), through)
    requires IndexesInto(idx, b, src) && Gathered(b, src, idx, ReadTypes(RowStorage, types), through)
    ensures TableRows(a) == TableRows(b)
        <==> forall r, c {:trigger src[idx[r], c]} :: 0 <= r < |idx| && 0 <= c < src.Length1 ==>
                through(types(c), src[idx[r], c]) == through(types(0), src[idx[r], c])
  {
    forall r: nat, c: nat | r < |idx| && c < src.Length1
      ensures a[r, c] == through(types(c), src[idx[r], c]) && b[r, c] == through(types(0), src[idx[r], c])
    {
      assert GatheredCell(a, src, idx, ReadTypes(Soa, types), through, r, c);
      assert GatheredCell(b, src, idx, ReadTypes(RowStorage, types), through, r, c);
    }
    if TableRows(a) == TableRows(b) {
      forall r, c | 0 <= r < |idx| && 0 <= c < src.Length1
        ensures a[r, c] == b[r, c]
      {
        assert TableRows(a)[r][c] == TableRows(b)[r][c];
      }
    } else {
      var r :| 0 <= r < |idx| && Row(a, r) != Row(b, r);
      var c :| 0 <= c < src.Length1 && a[r, c] != b[r, c];
    }
  }
}
