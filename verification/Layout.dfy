/** Row-major buffers: cell (r, c) of `rows` rows with leading dimension `ld`. */
module Layout {
  import opened Arith

  function FlatIndex(r: nat, c: nat, rows: nat, ld: nat): (k: nat)
    requires r < rows && c < ld
    ensures k < rows * ld
  {
    RowFits(r, c, rows, ld);
    r * ld + c
  }

  lemma RowFits(r: nat, c: nat, rows: nat, ld: nat)
    requires r < rows && c < ld
    ensures 0 <= r * ld + c < rows * ld
  {
    MulMonotone(r + 1, rows, ld);
    MulDistributes(r, 1, ld);
  }

  /** Rows follow each other, and the cells of a row too: the order is row-major. */
  lemma RowMajor(r: nat, c: nat, rows: nat, ld: nat)
    requires r < rows && c < ld
    ensures FlatIndex(0, 0, rows, ld) == 0
    ensures c + 1 < ld ==> FlatIndex(r, c + 1, rows, ld) == FlatIndex(r, c, rows, ld) + 1
    ensures c + 1 == ld && r + 1 < rows ==> FlatIndex(r + 1, 0, rows, ld) == FlatIndex(r, c, rows, ld) + 1
  {
    MulDistributes(r, 1, ld);
  }

  /** Different cells have different places. */
  lemma FlatInjective(r: nat, c: nat, r': nat, c': nat, rows: nat, ld: nat)
    requires r < rows && c < ld && r' < rows && c' < ld
    ensures FlatIndex(r, c, rows, ld) == FlatIndex(r', c', rows, ld) ==> r == r' && c == c'
  {
    if r < r' {
      RowFits(r, c, r', ld);
    } else if r' < r {
      RowFits(r', c', r, ld);
    }
  }

  lemma FlatSeparates(r: nat, c: nat, rows: nat, ld: nat)
    requires r < rows && c < ld
    ensures forall r': nat, c': nat :: r' < rows && c' < ld && (r' != r || c' != c) ==>
        FlatIndex(r', c', rows, ld) != FlatIndex(r, c, rows, ld)
  {
    forall r': nat, c': nat | r' < rows && c' < ld && (r' != r || c' != c)
      ensures FlatIndex(r', c', rows, ld) != FlatIndex(r, c, rows, ld)
    {
      FlatInjective(r, c, r', c', rows, ld);
    }
  }

  /** Releasing a `WriteRows` block puts its buffer into the table. */
  method ReleaseRows(dst: array2<real>, dataPtr: array<real>, startRow: nat, nRows: nat)
    requires startRow + nRows <= dst.Length0 && dataPtr.Length == nRows * dst.Length1
    modifies dst
    ensures forall r: nat, c: nat :: r < dst.Length0 && c < dst.Length1 ==>
        dst[r, c] == if startRow <= r < startRow + nRows then dataPtr[FlatIndex(r - startRow, c, nRows, dst.Length1)]
                     else old(dst[r, c])
  {
    for i := 0 to nRows
      invariant forall r: nat, c: nat :: r < dst.Length0 && c < dst.Length1 ==>
          dst[r, c] == if startRow <= r < startRow + i then dataPtr[FlatIndex(r - startRow, c, nRows, dst.Length1)]
                       else old(dst[r, c])
    {
      for j := 0 to dst.Length1
        invariant forall r: nat, c: nat :: r < dst.Length0 && c < dst.Length1 ==>
            dst[r, c] == if startRow <= r < startRow + i || (r == startRow + i && c < j)
                         then dataPtr[FlatIndex(r - startRow, c, nRows, dst.Length1)]
                         else old(dst[r, c])
      {
        dst[startRow + i, j] := dataPtr[FlatIndex(i, j, nRows, dst.Length1)];
      }
    }
  }
}
