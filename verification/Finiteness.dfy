/** Finiteness of a table: a sum that absorbs every Inf and NaN first, an exact bit check second. */
module Finiteness {
  import opened Arith
  import opened Bits
  import opened Blocks
  import opened Multisets

  const PTR_BLOCK_SIZE := 8192
  const THREADING_BORDER := 262144

  // ---- formats and values ----

  datatype Format = Float | Double

  /** Lanes of a 512-bit register. */
  function Lanes(f: Format): nat {
    if f == Float then 16 else 8
  }

  /** The fields of a word as IEEE 754-2008, section 3.4, lays them out: a sign bit, 8 or 11 bits of exponent, 23 or
      52 bits of fraction. */
  predicate SignBit(f: Format, bits: bv64) {
    if f == Float then (bits >> 31) & 1 == 1 else (bits >> 63) & 1 == 1
  }

  predicate ExponentIsMaximal(f: Format, bits: bv64) {
    if f == Float then (bits >> 23) & 0xff == 0xff else (bits >> 52) & 0x7ff == 0x7ff
  }

  /** Shifting sign and exponent out of the word leaves the fraction. */
  predicate FractionIsZero(f: Format, bits: bv64) {
    if f == Float then bits << 41 == 0 else bits << 12 == 0
  }

  predicate IsInf(f: Format, bits: bv64) {
    ExponentIsMaximal(f, bits) && FractionIsZero(f, bits)
  }

  predicate IsNaN(f: Format, bits: bv64) {
    ExponentIsMaximal(f, bits) && !FractionIsZero(f, bits)
  }

  /** What the check is to report: an infinity, or a NaN that is not allowed. */
  predicate Offending(f: Format, bits: bv64, allowNaN: bool) {
    IsInf(f, bits) || (IsNaN(f, bits) && !allowNaN)
  }

  datatype Value = Finite(x: real) | Infinity(negative: bool) | NaN

  /** The value a word denotes; `finite` gives the finite ones. */
  function ValueOf(f: Format, bits: bv64, finite: (Format, bv64) -> real): Value {
    if IsNaN(f, bits) then NaN
    else if IsInf(f, bits) then Infinity(SignBit(f, bits))
    else Finite(finite(f, bits))
  }

  /** Words whose values are known: zeros, ones, the least and greatest finite magnitudes, infinities and NaNs. */
  lemma KnownWords()
    ensures forall bits: bv64 :: bits in {0, 0x3f80_0000, 0xbf80_0000, 1, 0x8000_0000, 0x7f7f_ffff, 0xff7f_ffff} ==>
        !IsInf(Float, bits) && !IsNaN(Float, bits)
    ensures forall bits: bv64 :: bits in {0x7f80_0000, 0xff80_0000} ==> IsInf(Float, bits) && !IsNaN(Float, bits)
    ensures forall bits: bv64 :: bits in {0x7f80_0001, 0x7fc0_0000, 0xffff_ffff} ==>
        !IsInf(Float, bits) && IsNaN(Float, bits)
    ensures forall bits: bv64 :: bits in {0, 0x3ff0_0000_0000_0000, 0xbff0_0000_0000_0000, 1, 0x8000_0000_0000_0000,
                                          0x7fef_ffff_ffff_ffff, 0xffef_ffff_ffff_ffff} ==>
        !IsInf(Double, bits) && !IsNaN(Double, bits)
    ensures forall bits: bv64 :: bits in {0x7ff0_0000_0000_0000, 0xfff0_0000_0000_0000} ==>
        IsInf(Double, bits) && !IsNaN(Double, bits)
    ensures forall bits: bv64 :: bits in {0x7ff0_0000_0000_0001, 0x7ff8_0000_0000_0000, 0xffff_ffff_ffff_ffff} ==>
        !IsInf(Double, bits) && IsNaN(Double, bits)
  {
  }

  /** Addition as IEEE 754-2008, sections 6.1 and 6.2 fix it: finite operands may overflow to an infinity. */
  ghost predicate IeeeAdd(add: (Value, Value) -> Value) {
    forall a: Value, b: Value {:trigger add(a, b)} ::
      if a.NaN? || b.NaN? then add(a, b).NaN?
      else if a.Infinity? && b.Infinity? then (if a == b then add(a, b) == a else add(a, b).NaN?)
      else if a.Infinity? then add(a, b) == a
      else if b.Infinity? then add(a, b) == b
      else !add(a, b).NaN?
  }

  /** Infinities and NaNs are absorbed: a finite sum has finite operands. */
  lemma FiniteSumFiniteOperands(add: (Value, Value) -> Value, a: Value, b: Value)
    requires IeeeAdd(add) && add(a, b).Finite?
    ensures a.Finite? && b.Finite?
  {
  }

  /** A bracketing of a sum over numbered terms. */
  datatype Tree = Leaf(term: nat) | Plus(left: Tree, right: Tree)

  /** Every term number is below n. */
  predicate TermsBelow(t: Tree, n: nat) {
    match t
    case Leaf(k) => k < n
    case Plus(l, r) => TermsBelow(l, n) && TermsBelow(r, n)
  }

  predicate HasTerm(t: Tree, term: nat) {
    match t
    case Leaf(k) => k == term
    case Plus(l, r) => HasTerm(l, term) || HasTerm(r, term)
  }

  /** A bracketing of all of n terms. */
  ghost predicate Brackets(t: Tree, n: nat) {
    TermsBelow(t, n) && forall k: nat :: k < n ==> HasTerm(t, k)
  }

  function Evaluate(add: (Value, Value) -> Value, t: Tree, terms: seq<Value>): Value
    requires TermsBelow(t, |terms|)
  {
    match t
    case Leaf(k) => terms[k]
    case Plus(l, r) => add(Evaluate(add, l, terms), Evaluate(add, r, terms))
  }

  /** Under every bracketing, a finite sum proves every term finite. */
  lemma {:induction false} FiniteSumFiniteTerms(add: (Value, Value) -> Value, t: Tree, terms: seq<Value>)
    requires IeeeAdd(add) && TermsBelow(t, |terms|) && Evaluate(add, t, terms).Finite?
    ensures forall k: nat :: k < |terms| && HasTerm(t, k) ==> terms[k].Finite?
  {
    match t
    case Leaf(_) =>
    case Plus(l, r) =>
      FiniteSumFiniteOperands(add, Evaluate(add, l, terms), Evaluate(add, r, terms));
      FiniteSumFiniteTerms(add, l, terms);
      FiniteSumFiniteTerms(add, r, terms);
  }

  // ---- the exact check, element by element: lines 37-74 ----

  function ExpMask(f: Format): bv64 {
    if f == Float then 0x7f80_0000 else 0x7ff0_0000_0000_0000
  }

  function FracMask(f: Format): bv64 {
    if f == Float then 0x007f_ffff else 0x000f_ffff_ffff_ffff
  }

  predicate ExponentAllOnes(f: Format, bits: bv64) {
    ExpMask(f) == bits & ExpMask(f)
  }

  predicate FractionZero(f: Format, bits: bv64) {
    0 == bits & FracMask(f)
  }

  /** The masks test the fields. */
  lemma MasksTestFields(f: Format, bits: bv64)
    ensures ExponentAllOnes(f, bits) <==> ExponentIsMaximal(f, bits)
    ensures FractionZero(f, bits) <==> FractionIsZero(f, bits)
  {
  }

  /** `getInf`: the exponent mask, read as a value, is infinity. */
  lemma ExpMaskIsInfinity(f: Format, finite: (Format, bv64) -> real)
    ensures ValueOf(f, ExpMask(f), finite) == Infinity(false)
  {
  }

  ghost predicate AnyOffending(f: Format, data: seq<bv64>, lo: int, hi: int, allowNaN: bool)
    requires 0 <= lo <= hi <= |data|
  {
    exists k :: lo <= k < hi && Offending(f, data[k], allowNaN)
  }

  /** The test of lines 62 and 72: exponent all ones, and not (fraction nonzero and NaN allowed). */
  predicate ElementIsNotFinite(f: Format, bits: bv64, allowNaN: bool) {
    ExponentAllOnes(f, bits) && !(!FractionZero(f, bits) && allowNaN)
  }

  lemma ElementTestIsExact(f: Format, bits: bv64, allowNaN: bool)
    ensures ElementIsNotFinite(f, bits, allowNaN) <==> Offending(f, bits, allowNaN)
    ensures ElementIsNotFinite(f, bits, allowNaN)
       <==> if f == Float then (bits >> 23) & 0xff == 0xff && (bits << 41 == 0 || !allowNaN)
            else (bits >> 52) & 0x7ff == 0x7ff && (bits << 12 == 0 || !allowNaN)
  {
    MasksTestFields(f, bits);
    hide ExponentAllOnes, FractionZero;
  }

  /** start, start + 1, ..., end - 1 */
  function Range(start: nat, end: nat): (s: seq<nat>)
    requires start <= end
    ensures |s| == end - start && forall k :: 0 <= k < |s| ==> s[k] == start + k
  {
    seq(end - start, k => start + k)
  }

  /** All that the exact check reads of an array goes through here: `seen` lists the positions read, in order. */
  method Load(data: seq<bv64>, at: nat, n: nat, ghost seen: seq<nat>) returns (v: seq<bv64>, ghost more: seq<nat>)
    requires at + n <= |data|
    ensures v == data[at..at + n] && more == seen + Range(at, at + n)
  {
    v, more := data[at..at + n], seen + Range(at, at + n);
  }

  /** The position after the first offending one of [lo, hi), or the end. */
  ghost function ScanStop(f: Format, data: seq<bv64>, lo: nat, hi: nat, allowNaN: bool): (stop: nat)
    requires lo <= hi <= |data|
    ensures lo <= stop <= hi
    decreases hi - lo
  {
    if lo == hi then hi
    else if Offending(f, data[lo], allowNaN) then lo + 1
    else ScanStop(f, data, lo + 1, hi, allowNaN)
  }

  /** An offending element before the last position makes the scan leave something unread. */
  ghost predicate OffendsBeforeLast(f: Format, data: seq<bv64>, lo: nat, hi: nat, allowNaN: bool)
    requires lo <= hi <= |data|
  {
    lo < hi && AnyOffending(f, data, lo, hi - 1, allowNaN)
  }

  lemma {:induction false} ScanStopsEarlyIff(f: Format, data: seq<bv64>, lo: nat, hi: nat, allowNaN: bool)
    requires lo <= hi <= |data|
    ensures ScanStop(f, data, lo, hi, allowNaN) < hi <==> OffendsBeforeLast(f, data, lo, hi, allowNaN)
    decreases hi - lo
  {
    hide Offending;
    if lo < hi && !Offending(f, data[lo], allowNaN) {
      ScanStopsEarlyIff(f, data, lo + 1, hi, allowNaN);
    }
  }

  /** The scan reads up to the first offending element, and stops there. */
  method ValuesAreNotFinite(f: Format, data: seq<bv64>, lo: nat, hi: nat, allowNaN: bool)
    returns (b: bool, ghost seen: seq<nat>)
    requires lo <= hi <= |data|
    ensures b <==> AnyOffending(f, data, lo, hi, allowNaN)
    ensures seen == Range(lo, ScanStop(f, data, lo, hi, allowNaN))
  {
    hide Offending, ElementIsNotFinite;
    seen := [];
    for i := lo to hi
      invariant !AnyOffending(f, data, lo, i, allowNaN)
      invariant seen == Range(lo, i)
      invariant ScanStop(f, data, lo, hi, allowNaN) == ScanStop(f, data, i, hi, allowNaN)
    {
      var v;
      v, seen := Load(data, i, 1, seen);
      ElementTestIsExact(f, v[0], allowNaN);
      if ElementIsNotFinite(f, v[0], allowNaN) {
        return true, seen;
      }
    }
    return false, seen;
  }

  // ---- one block, lane-wise: lines 318-352 ----

  /** `cvtu32_mask(x)`: the low bits of `x`, one per lane. */
  function CvtMask(x: nat, lanes: nat): (m: seq<bool>)
    ensures |m| == lanes
  {
    seq(lanes, lane => lane >= 0 && ShiftRight(x, lane) % 2 == 1)
  }

  predicate AllLanesAre(m: seq<bool>, b: bool) {
    forall t :: 0 <= t < |m| ==> m[t] == b
  }

  /** 2 * INT_MAX + 1 sets every lane, 0 none. */
  lemma LaneConstants(lanes: nat)
    requires lanes <= 32
    ensures AllLanesAre(CvtMask(2 * INT_MAX + 1, lanes), true) && AllLanesAre(CvtMask(0, lanes), false)
  {
    var ones, zeros := CvtMask(2 * INT_MAX + 1, lanes), CvtMask(0, lanes);
    WordIsPow2();
    forall t | 0 <= t < lanes
      ensures ones[t] && !zeros[t]
    {
      ShiftOnes(32 - t, t);
      ShiftShrinks(0, t);
      assert Pow2(32 - t) == 2 * Pow2(32 - t - 1);
    }
  }

  /** The lane-wise combination of compare masks: exponent all ones and (fraction zero or NaN forbidden). */
  function FinalMask(f: Format, v: seq<bv64>, allowNaN: bool): (m: seq<bool>)
    ensures |m| == |v|
  {
    var notAllowNaNMask := if allowNaN then CvtMask(0, |v|) else CvtMask(2 * INT_MAX + 1, |v|);
    var expAreOnes := seq(|v|, t requires 0 <= t < |v| => ExponentAllOnes(f, v[t]));
    var fracAreZeros := seq(|v|, t requires 0 <= t < |v| => FractionZero(f, v[t]));
    var orMask := seq(|v|, t requires 0 <= t < |v| => fracAreZeros[t] || notAllowNaNMask[t]);
    seq(|v|, t requires 0 <= t < |v| => expAreOnes[t] && orMask[t])
  }

  /** The mask flags exactly the offending lanes. */
  lemma FinalMaskFlags(f: Format, v: seq<bv64>, allowNaN: bool)
    requires |v| <= 32
    ensures forall t {:trigger FinalMask(f, v, allowNaN)[t]} :: 0 <= t < |v| ==>
        (FinalMask(f, v, allowNaN)[t] <==> Offending(f, v[t], allowNaN))
  {
    var m := FinalMask(f, v, allowNaN);
    LaneConstants(|v|);
    forall t | 0 <= t < |v|
      ensures m[t] <==> Offending(f, v[t], allowNaN)
    {
      MasksTestFields(f, v[t]);
      hide Pow2, ShiftRight, CvtMask, ExponentAllOnes, FractionZero, ExponentIsMaximal, FractionIsZero;
      assert CvtMask(0, |v|)[t] == false && CvtMask(2 * INT_MAX + 1, |v|)[t] == true;
    }
  }

  /** Where the full registers of [start, end) end. */
  function TailStart(f: Format, start: nat, end: nat): (at: nat)
    requires start <= end
    ensures start <= at <= end
  {
    DivisionFacts(end - start, Lanes(f));
    start + (end - start) / Lanes(f) * Lanes(f)
  }

  /** Checks [start, end) register by register and the rest one by one. */
  method CheckBlock(f: Format, data: seq<bv64>, start: nat, end: nat, allowNaN: bool)
    returns (notFinite: bool, ghost seen: seq<nat>)
    requires start <= end <= |data|
    ensures notFinite <==> AnyOffending(f, data, start, end, allowNaN)
    ensures seen == Range(start, ScanStop(f, data, TailStart(f, start, end), end, allowNaN))
  {
    hide Offending, FinalMask, ScanStop;
    notFinite, seen := CheckRegisters(f, data, start, end, allowNaN);
    var offset := start + (end - start) / Lanes(f) * Lanes(f);
    var tail;
    ghost var more;
    tail, more := ValuesAreNotFinite(f, data, offset, end, allowNaN);
    notFinite, seen := notFinite || tail, seen + more;
  }

  /** Lines 333-349: the full registers. */
  method CheckRegisters(f: Format, data: seq<bv64>, start: nat, end: nat, allowNaN: bool)
    returns (notFinite: bool, ghost seen: seq<nat>)
    requires start <= end <= |data|
    ensures notFinite <==> AnyOffending(f, data, start, TailStart(f, start, end), allowNaN)
    ensures seen == Range(start, TailStart(f, start, end))
  {
    hide Offending, FinalMask;
    var nPerInstr := Lanes(f);
    var lcSize := end - start;
    notFinite, seen := false, [];
    for i := 0 to lcSize / nPerInstr
      invariant start + i * nPerInstr <= end
      invariant notFinite <==> AnyOffending(f, data, start, start + i * nPerInstr, allowNaN)
      invariant seen == Range(start, start + i * nPerInstr)
    {
      assert (i + 1) * nPerInstr == i * nPerInstr + nPerInstr;
      var at := start + i * nPerInstr;
      var v;
      v, seen := Load(data, at, nPerInstr, seen);
      FinalMaskFlags(f, v, allowNaN);
      MaskFlagsRange(f, data, start, at, nPerInstr, allowNaN);
      if true in FinalMask(f, v, allowNaN) {
        notFinite := true;
      }
    }
  }

  lemma MaskFlagsRange(f: Format, data: seq<bv64>, start: nat, at: nat, n: nat, allowNaN: bool)
    requires start <= at && at + n <= |data| && n <= 32
    ensures AnyOffending(f, data, start, at + n, allowNaN)
       <==> AnyOffending(f, data, start, at, allowNaN) || true in FinalMask(f, data[at..at + n], allowNaN)
  {
    hide FinalMask, Offending;
    var m := FinalMask(f, data[at..at + n], allowNaN);
    FinalMaskFlags(f, data[at..at + n], allowNaN);
    assert forall t {:trigger data[at..at + n][t]} :: 0 <= t < n ==> data[at..at + n][t] == data[at + t];
    if AnyOffending(f, data, start, at + n, allowNaN) {
      var k :| start <= k < at + n && Offending(f, data[k], allowNaN);
      if k >= at {
        assert m[k - at];
      }
    }
    if true in m {
      var t :| 0 <= t < |m| && m[t];
      assert Offending(f, data[at + t], allowNaN);
    }
  }

  // ---- all blocks: lines 308-362, 420-433 ----

  /** The cut of one array: equal blocks, the last one with the surplus. */
  function BlocksPerPtr(n: nat): (b: nat)
    ensures b > 0
  {
    if n / PTR_BLOCK_SIZE == 0 then 1 else n / PTR_BLOCK_SIZE
  }

  function BlockStart(n: nat, b: nat): nat {
    b * (n / BlocksPerPtr(n))
  }

  function BlockStop(n: nat, b: nat): nat {
    if b == BlocksPerPtr(n) - 1 then BlockStart(n, b) + n / BlocksPerPtr(n) + n % BlocksPerPtr(n)
    else BlockStart(n, b) + n / BlocksPerPtr(n)
  }

  /** The blocks follow each other from 0 to n. */
  lemma BlocksTile(n: nat, b: nat)
    requires b < BlocksPerPtr(n)
    ensures BlockStart(n, 0) == 0 && BlockStart(n, b) <= BlockStop(n, b) <= n
    ensures BlockStop(n, b) == if b == BlocksPerPtr(n) - 1 then n else BlockStart(n, b + 1)
  {
    var nb := BlocksPerPtr(n);
    var q := n / nb;
    assert n == nb * q + n % nb;
    MulMonotone(b + 1, nb, q);
    MulDistributes(b, 1, q);
  }

  /** The block that examines position k. */
  lemma {:induction false} BlockOfPosition(n: nat, k: nat, from: nat) returns (b: nat)
    requires from < BlocksPerPtr(n) && BlockStart(n, from) <= k < n
    ensures b < BlocksPerPtr(n) && BlockStart(n, b) <= k < BlockStop(n, b)
    decreases BlocksPerPtr(n) - from
  {
    BlocksTile(n, from);
    if k < BlockStop(n, from) {
      b := from;
    } else {
      b := BlockOfPosition(n, k, from + 1);
    }
  }

  lemma {:induction false} BlocksDisjoint(n: nat, b: nat, b': nat)
    requires b < b' < BlocksPerPtr(n)
    ensures BlockStop(n, b) <= BlockStart(n, b')
    decreases b'
  {
    BlocksTile(n, b);
    if b + 1 < b' {
      BlocksDisjoint(n, b, b' - 1);
      BlocksTile(n, b' - 1);
    }
  }

  /** Block number iBlock of all arrays is block `iBlock - nb * ptr` of array `ptr`. */
  lemma BlockNumberBounds(iBlock: nat, nb: nat, nPtrs: nat)
    requires nb > 0 && iBlock < nb * nPtrs
    ensures iBlock / nb < nPtrs && 0 <= iBlock - nb * (iBlock / nb) < nb
  {
    var q := iBlock / nb;
    DivisionFacts(iBlock, nb);
    if nPtrs <= q {
      MulMonotone(nPtrs, q, nb);
    }
  }

  function ArrayOf(n: nat, iBlock: nat): nat {
    iBlock / BlocksPerPtr(n)
  }

  /** The number of block iBlock within its array. */
  function BlockInArray(n: nat, iBlock: nat): (b: nat)
    ensures b < BlocksPerPtr(n) && iBlock == ArrayOf(n, iBlock) * BlocksPerPtr(n) + b
  {
    DivisionFacts(iBlock, BlocksPerPtr(n));
    iBlock - BlocksPerPtr(n) * ArrayOf(n, iBlock)
  }

  /** The part of the arrays that block iBlock examines. */
  ghost predicate BlockOffends(f: Format, dataPtrs: seq<seq<bv64>>, n: nat, iBlock: nat, allowNaN: bool)
    requires forall p :: 0 <= p < |dataPtrs| ==> |dataPtrs[p]| == n
    requires iBlock < BlocksPerPtr(n) * |dataPtrs|
  {
    BlockNumberBounds(iBlock, BlocksPerPtr(n), |dataPtrs|);
    var b := BlockInArray(n, iBlock);
    BlocksTile(n, b);
    AnyOffending(f, dataPtrs[ArrayOf(n, iBlock)], BlockStart(n, b), BlockStop(n, b), allowNaN)
  }

  /** No element of any array offends. */
  ghost predicate Clean(f: Format, dataPtrs: seq<seq<bv64>>, allowNaN: bool) {
    forall p :: 0 <= p < |dataPtrs| ==> !AnyOffending(f, dataPtrs[p], 0, |dataPtrs[p]|, allowNaN)
  }

  /** The arrays are clean exactly when every block is. */
  lemma CleanByBlocks(f: Format, dataPtrs: seq<seq<bv64>>, n: nat, allowNaN: bool)
    requires forall p :: 0 <= p < |dataPtrs| ==> |dataPtrs[p]| == n
    ensures Clean(f, dataPtrs, allowNaN)
       <==> forall iBlock: nat :: iBlock < BlocksPerPtr(n) * |dataPtrs| ==>
           !BlockOffends(f, dataPtrs, n, iBlock, allowNaN)
  {
    hide BlockOffends, AnyOffending;
    forall iBlock: nat | iBlock < BlocksPerPtr(n) * |dataPtrs| && BlockOffends(f, dataPtrs, n, iBlock, allowNaN)
      ensures !Clean(f, dataPtrs, allowNaN)
    {
      BlockNotClean(f, dataPtrs, n, iBlock, allowNaN);
    }
    forall p | 0 <= p < |dataPtrs| && AnyOffending(f, dataPtrs[p], 0, n, allowNaN)
      ensures exists iBlock: nat ::
                iBlock < BlocksPerPtr(n) * |dataPtrs| && BlockOffends(f, dataPtrs, n, iBlock, allowNaN)
    {
      var iBlock := OffendingBlock(f, dataPtrs, n, p, allowNaN);
    }
  }

  lemma BlockNotClean(f: Format, dataPtrs: seq<seq<bv64>>, n: nat, iBlock: nat, allowNaN: bool)
    requires forall p :: 0 <= p < |dataPtrs| ==> |dataPtrs[p]| == n
    requires iBlock < BlocksPerPtr(n) * |dataPtrs| && BlockOffends(f, dataPtrs, n, iBlock, allowNaN)
    ensures !Clean(f, dataPtrs, allowNaN)
  {
    hide Offending, BlocksPerPtr, BlockStart, BlockStop;
    BlockNumberBounds(iBlock, BlocksPerPtr(n), |dataPtrs|);
    var p, b := ArrayOf(n, iBlock), BlockInArray(n, iBlock);
    BlocksTile(n, b);
    var k :| BlockStart(n, b) <= k < BlockStop(n, b) && Offending(f, dataPtrs[p][k], allowNaN);
    assert AnyOffending(f, dataPtrs[p], 0, |dataPtrs[p]|, allowNaN);
  }

  /** The number of the block that examines an offending element of array `p`. */
  lemma OffendingBlock(f: Format, dataPtrs: seq<seq<bv64>>, n: nat, p: nat, allowNaN: bool) returns (iBlock: nat)
    requires forall p :: 0 <= p < |dataPtrs| ==> |dataPtrs[p]| == n
    requires p < |dataPtrs| && AnyOffending(f, dataPtrs[p], 0, n, allowNaN)
    ensures iBlock < BlocksPerPtr(n) * |dataPtrs| && BlockOffends(f, dataPtrs, n, iBlock, allowNaN)
  {
    hide Offending, BlocksPerPtr, BlockStart, BlockStop;
    var nb := BlocksPerPtr(n);
    var k :| 0 <= k < n && Offending(f, dataPtrs[p][k], allowNaN);
    BlocksTile(n, 0);
    var b := BlockOfPosition(n, k, 0);
    BlocksTile(n, b);
    NumberInRange(p, b, nb, |dataPtrs|);
    iBlock := p * nb + b;
    assert ArrayOf(n, iBlock) == p && BlockInArray(n, iBlock) == b;
    assert AnyOffending(f, dataPtrs[p], BlockStart(n, b), BlockStop(n, b), allowNaN);
  }

  lemma NumberInRange(p: nat, b: nat, nb: nat, nPtrs: nat)
    requires b < nb && p < nPtrs
    ensures 0 <= p * nb + b < nb * nPtrs && (p * nb + b) / nb == p && p * nb + b - nb * p == b
  {
    Quotient(p, b, nb);
    MulMonotone(p + 1, nPtrs, nb);
    MulDistributes(p, 1, nb);
  }

  // ---- every element at most once ----

  /** What is read of a block when reading ends at `stop`: its array, and positions in it. */
  function ReadsOf(n: nat, iBlock: nat, stop: nat): seq<(nat, nat)> {
    var start := BlockStart(n, BlockInArray(n, iBlock));
    if start <= stop then Paired(ArrayOf(n, iBlock), Range(start, stop)) else []
  }

  function Paired(p: nat, positions: seq<nat>): (s: seq<(nat, nat)>)
    ensures |s| == |positions|
  {
    seq(|positions|, t requires 0 <= t < |positions| => (p, positions[t]))
  }

  /** What is read of all blocks, in the order in which they run. */
  function Examined(n: nat, stops: nat -> nat, order: seq<nat>): seq<(nat, nat)> {
    if order == [] then []
    else
      var last := order[|order| - 1];
      Examined(n, stops, order[..|order| - 1]) + ReadsOf(n, last, stops(last))
  }

  predicate InBlock(n: nat, iBlock: nat, p: nat, k: nat) {
    p == ArrayOf(n, iBlock) && BlockStart(n, BlockInArray(n, iBlock)) <= k < BlockStop(n, BlockInArray(n, iBlock))
  }

  predicate Reads(n: nat, stops: nat -> nat, iBlock: nat, p: nat, k: nat) {
    InBlock(n, iBlock, p, k) && k < stops(iBlock)
  }

  /** Reading of a block ends inside it. */
  predicate EndsInside(n: nat, stops: nat -> nat, iBlock: nat) {
    BlockStart(n, BlockInArray(n, iBlock)) <= stops(iBlock) <= BlockStop(n, BlockInArray(n, iBlock))
  }

  lemma ReadsOfAre(n: nat, stops: nat -> nat, iBlock: nat)
    requires EndsInside(n, stops, iBlock)
    ensures Distinct(ReadsOf(n, iBlock, stops(iBlock)))
    ensures forall p: nat, k: nat :: (p, k) in ReadsOf(n, iBlock, stops(iBlock)) <==> Reads(n, stops, iBlock, p, k)
  {
    var b := BlockInArray(n, iBlock);
    var s := ReadsOf(n, iBlock, stops(iBlock));
    hide BlockStart, BlockStop, BlocksPerPtr;
    forall p: nat, k: nat | Reads(n, stops, iBlock, p, k)
      ensures (p, k) in s
    {
      assert s[k - BlockStart(n, b)] == (p, k);
    }
  }

  /** No element is in two blocks. */
  lemma InOneBlock(n: nat, iBlock: nat, iBlock': nat, p: nat, k: nat)
    requires InBlock(n, iBlock, p, k) && InBlock(n, iBlock', p, k)
    ensures iBlock == iBlock'
  {
    var b, b' := BlockInArray(n, iBlock), BlockInArray(n, iBlock');
    hide BlockStart, BlockStop, BlocksPerPtr, ArrayOf;
    if b < b' {
      BlocksDisjoint(n, b, b');
    } else if b' < b {
      BlocksDisjoint(n, b', b);
    }
  }

  ghost predicate ReadsInSome(n: nat, stops: nat -> nat, order: seq<nat>, p: nat, k: nat) {
    exists t :: 0 <= t < |order| && Reads(n, stops, order[t], p, k)
  }

  lemma ReadsInSomeGrows(n: nat, stops: nat -> nat, order: seq<nat>, p: nat, k: nat)
    requires order != []
    ensures ReadsInSome(n, stops, order, p, k)
        <==> ReadsInSome(n, stops, order[..|order| - 1], p, k) || Reads(n, stops, order[|order| - 1], p, k)
  {
    hide Reads;
    var last := |order| - 1;
    var init := order[..last];
    if t :| 0 <= t < |order| && Reads(n, stops, order[t], p, k) {
      assert t < last ==> Reads(n, stops, init[t], p, k);
    }
    if t :| 0 <= t < |init| && Reads(n, stops, init[t], p, k) {
      assert Reads(n, stops, order[t], p, k);
    }
  }

  lemma {:induction false} ExaminedAre(n: nat, stops: nat -> nat, order: seq<nat>)
    requires Distinct(order) && forall t :: 0 <= t < |order| ==> EndsInside(n, stops, order[t])
    ensures Distinct(Examined(n, stops, order))
    ensures forall p: nat, k: nat :: (p, k) in Examined(n, stops, order) <==> ReadsInSome(n, stops, order, p, k)
  {
    hide EndsInside, Reads, ReadsOf;
    if order != [] {
      var last := |order| - 1;
      var init := order[..last];
      ExaminedAre(n, stops, init);
      ReadsOfAre(n, stops, order[last]);
      var x, y := Examined(n, stops, init), ReadsOf(n, order[last], stops(order[last]));
      forall p: nat, k: nat | (p, k) in x && (p, k) in y
        ensures false
      {
        var t :| 0 <= t < |init| && Reads(n, stops, init[t], p, k);
        ReadInOneBlock(n, stops, init[t], order[last], p, k);
      }
      DistinctJoin(x, y);
      forall p: nat, k: nat
        ensures (p, k) in Examined(n, stops, order) <==> ReadsInSome(n, stops, order, p, k)
      {
        ReadsInSomeGrows(n, stops, order, p, k);
      }
    }
  }

  lemma ReadInOneBlock(n: nat, stops: nat -> nat, iBlock: nat, iBlock': nat, p: nat, k: nat)
    requires Reads(n, stops, iBlock, p, k) && Reads(n, stops, iBlock', p, k)
    ensures iBlock == iBlock'
  {
    hide InBlock;
    InOneBlock(n, iBlock, iBlock', p, k);
  }

  lemma DistinctJoin(x: seq<(nat, nat)>, y: seq<(nat, nat)>)
    requires Distinct(x) && Distinct(y) && forall p: nat, k: nat :: !((p, k) in x && (p, k) in y)
    ensures Distinct(x + y)
  {
    var s := x + y;
    forall i, j | 0 <= i < j < |s|
      ensures s[i] != s[j]
    {
      if i < |x| <= j {
        assert s[i] == (s[i].0, s[i].1) && s[i] in x && s[j] in y;
      }
    }
  }

  ghost predicate AllOf(seen: seq<(nat, nat)>, nPtrs: nat, n: nat) {
    forall p: nat, k: nat :: p < nPtrs && k < n ==> (p, k) in seen
  }

  /** Whatever the order of the blocks, no element is read twice, and all are read exactly when every block is
      read to its end. */
  lemma EachElementOnce(n: nat, nPtrs: nat, stops: nat -> nat, order: seq<nat>)
    requires Schedule(order, BlocksPerPtr(n) * nPtrs)
    requires forall b: nat :: b < BlocksPerPtr(n) * nPtrs ==> EndsInside(n, stops, b)
    ensures Distinct(Examined(n, stops, order))
    ensures forall p: nat, k: nat :: (p, k) in Examined(n, stops, order) ==> p < nPtrs && k < n
    ensures AllOf(Examined(n, stops, order), nPtrs, n)
       <==> forall b: nat :: b < BlocksPerPtr(n) * nPtrs ==> stops(b) == BlockStop(n, BlockInArray(n, b))
  {
    hide Examined, BlocksPerPtr, BlockStart, BlockStop;
    forall t | 0 <= t < |order|
      ensures EndsInside(n, stops, order[t])
    {
      assert order[t] in order;
    }
    ExaminedAre(n, stops, order);
    forall p: nat, k: nat | ReadsInSome(n, stops, order, p, k)
      ensures p < nPtrs && k < n
    {
      var t :| 0 <= t < |order| && Reads(n, stops, order[t], p, k);
      assert order[t] in order;
      BlockNumberBounds(order[t], BlocksPerPtr(n), nPtrs);
      BlocksTile(n, BlockInArray(n, order[t]));
    }
    if AllOf(Examined(n, stops, order), nPtrs, n) {
      forall b: nat | b < BlocksPerPtr(n) * nPtrs
        ensures stops(b) == BlockStop(n, BlockInArray(n, b))
      {
        AllReadToEnd(n, nPtrs, stops, order, b);
      }
    }
    if forall b: nat :: b < BlocksPerPtr(n) * nPtrs ==> stops(b) == BlockStop(n, BlockInArray(n, b)) {
      forall p: nat, k: nat | p < nPtrs && k < n
        ensures ReadsInSome(n, stops, order, p, k)
      {
        var iBlock := BlockOfElement(n, nPtrs, p, k);
        assert iBlock in order;
        var t :| 0 <= t < |order| && order[t] == iBlock;
        assert Reads(n, stops, order[t], p, k);
      }
    }
  }

  /** The first element after the end of a block's reading is read by no other block. */
  lemma AllReadToEnd(n: nat, nPtrs: nat, stops: nat -> nat, order: seq<nat>, b: nat)
    requires b < BlocksPerPtr(n) * nPtrs && EndsInside(n, stops, b)
    requires forall p: nat, k: nat :: p < nPtrs && k < n ==> ReadsInSome(n, stops, order, p, k)
    ensures stops(b) == BlockStop(n, BlockInArray(n, b))
  {
    hide BlocksPerPtr, BlockStart, BlockStop;
    BlockNumberBounds(b, BlocksPerPtr(n), nPtrs);
    BlocksTile(n, BlockInArray(n, b));
    var p, k := ArrayOf(n, b), stops(b);
    if k < BlockStop(n, BlockInArray(n, b)) {
      assert ReadsInSome(n, stops, order, p, k);
      var t :| 0 <= t < |order| && Reads(n, stops, order[t], p, k);
      InOneBlock(n, order[t], b, p, k);
    }
  }

  lemma BlockOfElement(n: nat, nPtrs: nat, p: nat, k: nat) returns (iBlock: nat)
    requires p < nPtrs && k < n
    ensures iBlock < BlocksPerPtr(n) * nPtrs && InBlock(n, iBlock, p, k)
  {
    BlocksTile(n, 0);
    var b := BlockOfPosition(n, k, 0);
    NumberInRange(p, b, BlocksPerPtr(n), nPtrs);
    iBlock := p * BlocksPerPtr(n) + b;
  }

  /** Where the reading of a block ends. */
  ghost function ReadStop(f: Format, dataPtrs: seq<seq<bv64>>, n: nat, iBlock: nat, allowNaN: bool): nat
    requires forall p :: 0 <= p < |dataPtrs| ==> |dataPtrs[p]| == n
    requires iBlock < BlocksPerPtr(n) * |dataPtrs|
  {
    BlockNumberBounds(iBlock, BlocksPerPtr(n), |dataPtrs|);
    var b := BlockInArray(n, iBlock);
    BlocksTile(n, b);
    var tail := TailStart(f, BlockStart(n, b), BlockStop(n, b));
    ScanStop(f, dataPtrs[ArrayOf(n, iBlock)], tail, BlockStop(n, b), allowNaN)
  }

  /** The block's scalar tail holds an offending element before its last position. */
  ghost predicate TailOffends(f: Format, dataPtrs: seq<seq<bv64>>, n: nat, iBlock: nat, allowNaN: bool)
    requires forall p :: 0 <= p < |dataPtrs| ==> |dataPtrs[p]| == n
    requires iBlock < BlocksPerPtr(n) * |dataPtrs|
  {
    BlockNumberBounds(iBlock, BlocksPerPtr(n), |dataPtrs|);
    var b := BlockInArray(n, iBlock);
    BlocksTile(n, b);
    var tail := TailStart(f, BlockStart(n, b), BlockStop(n, b));
    OffendsBeforeLast(f, dataPtrs[ArrayOf(n, iBlock)], tail, BlockStop(n, b), allowNaN)
  }

  ghost function ReadStops(f: Format, dataPtrs: seq<seq<bv64>>, n: nat, allowNaN: bool): nat -> nat
    requires forall p :: 0 <= p < |dataPtrs| ==> |dataPtrs[p]| == n
  {
    (iBlock: nat) => if iBlock < BlocksPerPtr(n) * |dataPtrs| then ReadStop(f, dataPtrs, n, iBlock, allowNaN) else 0
  }

  lemma ReadStopIs(f: Format, dataPtrs: seq<seq<bv64>>, n: nat, iBlock: nat, allowNaN: bool)
    requires forall p :: 0 <= p < |dataPtrs| ==> |dataPtrs[p]| == n
    requires iBlock < BlocksPerPtr(n) * |dataPtrs|
    ensures EndsInside(n, ReadStops(f, dataPtrs, n, allowNaN), iBlock)
    ensures ReadStop(f, dataPtrs, n, iBlock, allowNaN) == BlockStop(n, BlockInArray(n, iBlock))
       <==> !TailOffends(f, dataPtrs, n, iBlock, allowNaN)
    ensures TailOffends(f, dataPtrs, n, iBlock, allowNaN) ==> BlockOffends(f, dataPtrs, n, iBlock, allowNaN)
  {
    hide BlocksPerPtr, BlockStart, BlockStop, Offending, TailStart, ScanStop;
    BlockNumberBounds(iBlock, BlocksPerPtr(n), |dataPtrs|);
    var b := BlockInArray(n, iBlock);
    BlocksTile(n, b);
    var tail := TailStart(f, BlockStart(n, b), BlockStop(n, b));
    ScanStopsEarlyIff(f, dataPtrs[ArrayOf(n, iBlock)], tail, BlockStop(n, b), allowNaN);
  }

  /** No element is read twice. All are read exactly when no block's tail holds an offending element before its
      last position, hence whenever the arrays are clean. */
  lemma ReadsAre(f: Format, dataPtrs: seq<seq<bv64>>, n: nat, allowNaN: bool, order: seq<nat>)
    requires forall p :: 0 <= p < |dataPtrs| ==> |dataPtrs[p]| == n
    requires Schedule(order, BlocksPerPtr(n) * |dataPtrs|)
    ensures var seen := Examined(n, ReadStops(f, dataPtrs, n, allowNaN), order);
            && Distinct(seen) && (forall p: nat, k: nat :: (p, k) in seen ==> p < |dataPtrs| && k < n)
            && (AllOf(seen, |dataPtrs|, n) <==> NoTailOffends(f, dataPtrs, n, allowNaN))
            && (Clean(f, dataPtrs, allowNaN) ==> AllOf(seen, |dataPtrs|, n))
  {
    hide BlockOffends, TailOffends, ReadStop, EndsInside, BlocksPerPtr, BlockStop, Examined, AllOf, Clean;
    var stops := ReadStops(f, dataPtrs, n, allowNaN);
    forall b: nat | b < BlocksPerPtr(n) * |dataPtrs|
      ensures EndsInside(n, stops, b)
      ensures stops(b) == BlockStop(n, BlockInArray(n, b)) <==> !TailOffends(f, dataPtrs, n, b, allowNaN)
      ensures TailOffends(f, dataPtrs, n, b, allowNaN) ==> BlockOffends(f, dataPtrs, n, b, allowNaN)
    {
      ReadStopIs(f, dataPtrs, n, b, allowNaN);
    }
    EachElementOnce(n, |dataPtrs|, stops, order);
    CleanByBlocks(f, dataPtrs, n, allowNaN);
  }

  ghost predicate NoTailOffends(f: Format, dataPtrs: seq<seq<bv64>>, n: nat, allowNaN: bool)
    requires forall p :: 0 <= p < |dataPtrs| ==> |dataPtrs[p]| == n
  {
    forall iBlock: nat :: iBlock < BlocksPerPtr(n) * |dataPtrs| ==> !TailOffends(f, dataPtrs, n, iBlock, allowNaN)
  }

  /** An array too short for a full register is one block, and is read one by one. */
  lemma ShortArrayReads(f: Format, data: seq<bv64>, allowNaN: bool)
    requires 0 < |data| < Lanes(f)
    ensures Schedule([0], BlocksPerPtr(|data|) * 1) && [0][..0] == []
    ensures Examined(|data|, ReadStops(f, [data], |data|, allowNaN), [0])
         == Paired(0, Range(0, ScanStop(f, data, 0, |data|, allowNaN)))
  {
    var n := |data|;
    assert BlocksPerPtr(n) == 1 && BlocksPerPtr(n) * |[data]| == 1 && BlockInArray(n, 0) == 0;
    BlocksTile(n, 0);
    hide BlocksPerPtr, BlockStart, BlockStop, ScanStop, Examined;
    assert TailStart(f, 0, n) == 0;
    var stops := ReadStops(f, [data], n, allowNaN);
    assert stops(0) == ScanStop(f, data, 0, n, allowNaN);
    assert [0][..0] == [] && Examined(n, stops, []) == [];
    assert Examined(n, stops, [0]) == [] + ReadsOf(n, 0, stops(0));
  }

  /** Three floats make no full register: an infinity in front leaves the other two unread. */
  lemma InfinityEndsReading(allowNaN: bool)
    ensures var data := [0x7f80_0000, 0x3f80_0000, 0x4000_0000];
            && Schedule([0], BlocksPerPtr(3) * 1) && Offending(Float, data[0], allowNaN)
            && Examined(3, ReadStops(Float, [data], 3, allowNaN), [0]) == [(0, 0)]
  {
    var data: seq<bv64> := [0x7f80_0000, 0x3f80_0000, 0x4000_0000];
    assert Offending(Float, data[0], allowNaN);
    hide Offending, Examined, BlocksPerPtr, ReadStops;
    ShortArrayReads(Float, data, allowNaN);
  }

  /** Lines 308-362: the blocks in any order, a flag for each, then the flags. */
  method CheckFinitenessInBlocks(f: Format, dataPtrs: seq<seq<bv64>>, n: nat, allowNaN: bool, order: seq<nat>)
    returns (finiteness: bool, ghost seen: seq<(nat, nat)>)
    requires forall p :: 0 <= p < |dataPtrs| ==> |dataPtrs[p]| == n
    requires Schedule(order, BlocksPerPtr(n) * |dataPtrs|)
    ensures finiteness <==> Clean(f, dataPtrs, allowNaN)
    ensures Distinct(seen) && forall p: nat, k: nat :: (p, k) in seen ==> p < |dataPtrs| && k < n
    ensures AllOf(seen, |dataPtrs|, n) <==> NoTailOffends(f, dataPtrs, n, allowNaN)
    ensures finiteness ==> AllOf(seen, |dataPtrs|, n)
  {
    hide BlockOffends, AnyOffending, Clean, ReadsOf, BlocksPerPtr, ReadStop, NoTailOffends, AllOf;
    seen := [];
    var nBlocksPerPtr := BlocksPerPtr(n);
    var nTotalBlocks := nBlocksPerPtr * |dataPtrs|;
    var notFinite := new bool[nTotalBlocks];
    for iBlock := 0 to nTotalBlocks
      invariant forall b :: 0 <= b < iBlock ==> !notFinite[b]
    {
      notFinite[iBlock] := false;
    }
    for t := 0 to |order|
      invariant forall b: nat :: b < nTotalBlocks && b in order[..t] ==>
          (notFinite[b] <==> BlockOffends(f, dataPtrs, n, b, allowNaN))
      invariant seen == Examined(n, ReadStops(f, dataPtrs, n, allowNaN), order[..t])
    {
      var iBlock := order[t];
      assert iBlock in order && order[..t + 1] == order[..t] + [iBlock];
      assert order[..t + 1][..t] == order[..t];
      notFinite[iBlock], seen := RunBlock(f, dataPtrs, n, iBlock, allowNaN, seen);
    }
    assert order[..|order|] == order;
    CleanByBlocks(f, dataPtrs, n, allowNaN);
    ReadsAre(f, dataPtrs, n, allowNaN, order);
    for iBlock := 0 to nTotalBlocks
      invariant forall b: nat :: b < iBlock ==> !BlockOffends(f, dataPtrs, n, b, allowNaN)
    {
      if notFinite[iBlock] {
        finiteness := false;
        return;
      }
    }
    finiteness := true;
  }

  /** The body of the threaded loop. */
  method RunBlock(f: Format, dataPtrs: seq<seq<bv64>>, n: nat, iBlock: nat, allowNaN: bool, ghost seen: seq<(nat, nat)>)
    returns (notFinite: bool, ghost more: seq<(nat, nat)>)
    requires forall p :: 0 <= p < |dataPtrs| ==> |dataPtrs[p]| == n
    requires iBlock < BlocksPerPtr(n) * |dataPtrs|
    ensures notFinite <==> BlockOffends(f, dataPtrs, n, iBlock, allowNaN)
    ensures more == seen + ReadsOf(n, iBlock, ReadStop(f, dataPtrs, n, iBlock, allowNaN))
  {
    var ptrIdx, blockIdxInPtr := PlaceOf(n, iBlock, |dataPtrs|);
    hide AnyOffending, BlockStart, BlockStop, BlocksPerPtr, ArrayOf, BlockInArray, TailStart, ScanStop;
    var start, end := BlockStart(n, blockIdxInPtr), BlockStop(n, blockIdxInPtr);
    ghost var positions;
    notFinite, positions := CheckBlock(f, dataPtrs[ptrIdx], start, end, allowNaN);
    more := seen + Paired(ptrIdx, positions);
  }

  /** Lines 212-215 and 319-322: the array and the place in it of a block. */
  method PlaceOf(n: nat, iBlock: nat, nPtrs: nat) returns (ptrIdx: nat, blockIdxInPtr: nat)
    requires iBlock < BlocksPerPtr(n) * nPtrs
    ensures ptrIdx == ArrayOf(n, iBlock) < nPtrs && blockIdxInPtr == BlockInArray(n, iBlock)
    ensures BlockStart(n, blockIdxInPtr) <= BlockStop(n, blockIdxInPtr) <= n
  {
    var nBlocksPerPtr := BlocksPerPtr(n);
    BlockNumberBounds(iBlock, nBlocksPerPtr, nPtrs);
    ptrIdx := iBlock / nBlocksPerPtr;
    blockIdxInPtr := iBlock - nBlocksPerPtr * ptrIdx;
    BlocksTile(n, blockIdxInPtr);
  }

  /** Lines 123-129: the plain scan. */
  method CheckFiniteness(f: Format, dataPtrs: seq<seq<bv64>>, allowNaN: bool) returns (finiteness: bool)
    ensures finiteness <==> Clean(f, dataPtrs, allowNaN)
  {
    hide AnyOffending;
    var notFinite := false;
    for p := 0 to |dataPtrs|
      invariant notFinite <==> exists q :: 0 <= q < p && AnyOffending(f, dataPtrs[q], 0, |dataPtrs[q]|, allowNaN)
    {
      if !notFinite {
        ghost var seen;
        notFinite, seen := ValuesAreNotFinite(f, dataPtrs[p], 0, |dataPtrs[p]|, allowNaN);
      }
    }
    finiteness := !notFinite;
  }

  // ---- the sum: lines 76-84, 171-221 ----

  /** What the processor provides: additions and decodings per format, the conversion of a float to a
      double, and the bracketing of the register reduction. Conversions keep infinities and NaNs. */
  datatype Fpu = Fpu(
    addFloat: (Value, Value) -> Value,
    addDouble: (Value, Value) -> Value,
    finite: (Format, bv64) -> real,
    widen: Value -> Value,
    floatTree: Tree,
    doubleTree: Tree)
  {
    function Add(f: Format): (Value, Value) -> Value {
      if f == Float then addFloat else addDouble
    }

    function ReduceTree(f: Format): Tree {
      if f == Float then floatTree else doubleTree
    }

    ghost predicate Conforms() {
      && IeeeAdd(addFloat) && IeeeAdd(addDouble)
      && (forall v {:trigger widen(v)} :: widen(v).Finite? <==> v.Finite?)
      && Brackets(floatTree, Lanes(Float)) && Brackets(doubleTree, Lanes(Double))
    }

    /** A result of format `f` as a double. */
    function ToDouble(f: Format, v: Value): Value {
      if f == Float then widen(v) else v
    }
  }

  ghost predicate AllFinite(vs: seq<Value>) {
    forall k :: 0 <= k < |vs| ==> vs[k].Finite?
  }

  /** The first n values are finite. */
  ghost predicate FiniteUpTo(vs: seq<Value>, n: int) {
    forall k :: 0 <= k < n && k < |vs| ==> vs[k].Finite?
  }

  function Values(u: Fpu, f: Format, data: seq<bv64>): (vs: seq<Value>)
    ensures |vs| == |data|
  {
    seq(|data|, k requires 0 <= k < |data| => ValueOf(f, data[k], u.finite))
  }

  /** Finite values have clean words, whatever is allowed. */
  lemma FiniteIsClean(u: Fpu, f: Format, data: seq<bv64>, allowNaN: bool)
    requires AllFinite(Values(u, f, data))
    ensures !AnyOffending(f, data, 0, |data|, allowNaN)
  {
    hide ExponentIsMaximal, FractionIsZero;
    forall k | 0 <= k < |data|
      ensures !Offending(f, data[k], allowNaN)
    {
      assert Values(u, f, data)[k].Finite?;
    }
  }

  /** Adds register by register, reduces the lanes, then adds the rest one by one. */
  method SumWithAVX512(u: Fpu, f: Format, terms: seq<Value>) returns (sum: Value)
    requires u.Conforms()
    ensures sum.Finite? ==> AllFinite(terms)
  {
    var nPerInstr, add := Lanes(f), u.Add(f);
    var sums := seq(nPerInstr, _ => Finite(0.0));
    for i := 0 to |terms| / nPerInstr
      invariant |sums| == nPerInstr && i * nPerInstr <= |terms|
      invariant AllFinite(sums) ==> FiniteUpTo(terms, i * nPerInstr)
    {
      assert (i + 1) * nPerInstr == i * nPerInstr + nPerInstr;
      var chunk := terms[i * nPerInstr..(i + 1) * nPerInstr];
      ghost var before := sums;
      sums := seq(nPerInstr, t requires 0 <= t < nPerInstr && t < |sums| && t < |chunk| => add(sums[t], chunk[t]));
      LanesAbsorb(add, before, chunk, sums, terms, i * nPerInstr);
    }
    sum := Evaluate(add, u.ReduceTree(f), sums);
    if sum.Finite? {
      FiniteSumFiniteTerms(add, u.ReduceTree(f), sums);
    }
    for i := |terms| / nPerInstr * nPerInstr to |terms|
      invariant sum.Finite? ==> FiniteUpTo(terms, i)
    {
      if add(sum, terms[i]).Finite? {
        FiniteSumFiniteOperands(add, sum, terms[i]);
      }
      sum := add(sum, terms[i]);
    }
  }

  lemma LanesAbsorb(add: (Value, Value) -> Value, before: seq<Value>, chunk: seq<Value>, after: seq<Value>,
      terms: seq<Value>, at: nat)
    requires IeeeAdd(add) && |before| == |chunk| == |after|
    requires forall t :: 0 <= t < |after| ==> after[t] == add(before[t], chunk[t])
    requires at + |chunk| <= |terms| && chunk == terms[at..at + |chunk|]
    requires AllFinite(before) ==> FiniteUpTo(terms, at)
    ensures AllFinite(after) ==> FiniteUpTo(terms, at + |chunk|)
  {
    if AllFinite(after) {
      forall t | 0 <= t < |after|
        ensures before[t].Finite? && chunk[t].Finite?
      {
        FiniteSumFiniteOperands(add, before[t], chunk[t]);
      }
      forall k | 0 <= k < at + |chunk|
        ensures terms[k].Finite?
      {
        assert k >= at ==> chunk[k - at] == terms[k];
      }
    }
  }

  ghost predicate ArraysFinite(u: Fpu, f: Format, dataPtrs: seq<seq<bv64>>) {
    forall p :: 0 <= p < |dataPtrs| ==> AllFinite(Values(u, f, dataPtrs[p]))
  }

  /** Lines 77-84: the plain sum of all arrays. */
  method ComputeSum(u: Fpu, f: Format, dataPtrs: seq<seq<bv64>>) returns (sum: Value)
    requires u.Conforms()
    ensures sum.Finite? ==> ArraysFinite(u, f, dataPtrs)
  {
    hide AllFinite, Values;
    sum := Finite(0.0);
    for ptrIdx := 0 to |dataPtrs|
      invariant sum.Finite? ==> forall p :: 0 <= p < ptrIdx ==> AllFinite(Values(u, f, dataPtrs[p]))
    {
      sum := AddArray(u, f, sum, dataPtrs[ptrIdx]);
    }
  }

  method AddArray(u: Fpu, f: Format, sum0: Value, data: seq<bv64>) returns (sum: Value)
    requires u.Conforms()
    ensures sum.Finite? ==> sum0.Finite? && AllFinite(Values(u, f, data))
  {
    hide ValueOf;
    var add := u.Add(f);
    sum := sum0;
    for i := 0 to |data|
      invariant sum.Finite? ==> sum0.Finite? && FiniteUpTo(Values(u, f, data), i)
    {
      var term := ValueOf(f, data[i], u.finite);
      if add(sum, term).Finite? {
        FiniteSumFiniteOperands(add, sum, term);
      }
      sum := add(sum, term);
    }
  }

  /** Lines 196-221: partial sums of the blocks of all arrays in any order, then their sum. An allocation
      failure answers with an infinity. */
  method ComputeSumAVX512(u: Fpu, f: Format, dataPtrs: seq<seq<bv64>>, n: nat, order: seq<nat>, allocationOk: bool)
    returns (sum: Value)
    requires forall p :: 0 <= p < |dataPtrs| ==> |dataPtrs[p]| == n
    requires u.Conforms() && Schedule(order, BlocksPerPtr(n) * |dataPtrs|)
    ensures sum.Finite? ==> ArraysFinite(u, f, dataPtrs)
  {
    hide ValueOf, BlockStart, BlockStop, BlocksPerPtr, NumberedFinite, ArraysFinite;
    var nTotalBlocks := BlocksPerPtr(n) * |dataPtrs|;
    if !allocationOk {
      return Infinity(false);
    }
    var pSums := new Value[nTotalBlocks];
    for iBlock := 0 to nTotalBlocks {
      pSums[iBlock] := Finite(0.0);
    }
    for t := 0 to |order|
      invariant forall b: nat :: b < nTotalBlocks && b in order[..t] && pSums[b].Finite? ==>
          NumberedFinite(u, f, dataPtrs, n, b)
    {
      var iBlock := order[t];
      assert iBlock in order && order[..t + 1] == order[..t] + [iBlock];
      pSums[iBlock] := SumBlock(u, f, dataPtrs, n, iBlock);
    }
    assert order[..|order|] == order;
    sum := SumWithAVX512(u, f, pSums[..]);
    if sum.Finite? {
      forall b: nat | b < nTotalBlocks
        ensures NumberedFinite(u, f, dataPtrs, n, b)
      {
        assert pSums[..][b].Finite?;
      }
      AllNumberedFinite(u, f, dataPtrs, n);
    }
  }

  /** The terms of block iBlock are finite. */
  ghost predicate NumberedFinite(u: Fpu, f: Format, dataPtrs: seq<seq<bv64>>, n: nat, iBlock: nat) {
    ArrayOf(n, iBlock) < |dataPtrs| ==>
      BlockFinite(Values(u, f, dataPtrs[ArrayOf(n, iBlock)]), n, BlockInArray(n, iBlock))
  }

  /** The body of the threaded loop. */
  method SumBlock(u: Fpu, f: Format, dataPtrs: seq<seq<bv64>>, n: nat, iBlock: nat) returns (sum: Value)
    requires forall p :: 0 <= p < |dataPtrs| ==> |dataPtrs[p]| == n
    requires u.Conforms() && iBlock < BlocksPerPtr(n) * |dataPtrs|
    ensures sum.Finite? ==> NumberedFinite(u, f, dataPtrs, n, iBlock)
  {
    hide ValueOf, BlockStart, BlockStop;
    var ptrIdx, blockIdxInPtr := PlaceOf(n, iBlock, |dataPtrs|);
    var data := dataPtrs[ptrIdx];
    var part := Values(u, f, data[BlockStart(n, blockIdxInPtr)..BlockStop(n, blockIdxInPtr)]);
    sum := SumWithAVX512(u, f, part);
    PartFinite(u, f, data, blockIdxInPtr);
  }

  lemma AllNumberedFinite(u: Fpu, f: Format, dataPtrs: seq<seq<bv64>>, n: nat)
    requires forall p :: 0 <= p < |dataPtrs| ==> |dataPtrs[p]| == n
    requires forall b: nat :: b < BlocksPerPtr(n) * |dataPtrs| ==> NumberedFinite(u, f, dataPtrs, n, b)
    ensures ArraysFinite(u, f, dataPtrs)
  {
    hide BlockFinite, Values, AllFinite;
    forall p | 0 <= p < |dataPtrs|
      ensures AllFinite(Values(u, f, dataPtrs[p]))
    {
      forall b: nat | b < BlocksPerPtr(n)
        ensures BlockFinite(Values(u, f, dataPtrs[p]), n, b)
      {
        NumberInRange(p, b, BlocksPerPtr(n), |dataPtrs|);
        var iBlock := p * BlocksPerPtr(n) + b;
        assert NumberedFinite(u, f, dataPtrs, n, iBlock) && BlockInArray(n, iBlock) == b;
      }
      BlocksFinite(Values(u, f, dataPtrs[p]), n);
    }
  }

  ghost predicate BlockFinite(terms: seq<Value>, n: nat, b: nat) {
    forall k :: BlockStart(n, b) <= k < BlockStop(n, b) && k < |terms| ==> terms[k].Finite?
  }

  lemma PartFinite(u: Fpu, f: Format, data: seq<bv64>, b: nat)
    requires b < BlocksPerPtr(|data|) && BlockStart(|data|, b) <= BlockStop(|data|, b) <= |data|
    ensures AllFinite(Values(u, f, data[BlockStart(|data|, b)..BlockStop(|data|, b)]))
        ==> BlockFinite(Values(u, f, data), |data|, b)
  {
    hide ValueOf;
    var lo, hi := BlockStart(|data|, b), BlockStop(|data|, b);
    hide BlockStart, BlockStop;
    var part := Values(u, f, data[lo..hi]);
    if AllFinite(part) {
      forall k | lo <= k < hi
        ensures Values(u, f, data)[k].Finite?
      {
        assert part[k - lo].Finite? && data[lo..hi][k - lo] == data[k];
      }
    }
  }

  lemma BlocksFinite(terms: seq<Value>, n: nat)
    requires |terms| == n && forall b: nat :: b < BlocksPerPtr(n) ==> BlockFinite(terms, n, b)
    ensures AllFinite(terms)
  {
    hide BlocksPerPtr, BlockStart, BlockStop;
    forall k: nat | k < n
      ensures terms[k].Finite?
    {
      BlocksTile(n, 0);
      var b := BlockOfPosition(n, k, 0);
      assert BlockFinite(terms, n, b);
    }
  }

  // ---- column tables: lines 87-120, 132-164, 235-306, 447-512 ----

  datatype Kind = FloatColumn | DoubleColumn | OtherColumn

  datatype Column = Column(kind: Kind, data: seq<bv64>) {
    /** The column's format, for the kinds that are examined. */
    function Fmt(): Format
      requires kind != OtherColumn
    {
      if kind == FloatColumn then Float else Double
    }
  }

  datatype Table = Homogeneous(f: Format, data: seq<bv64>) | Soa(columns: seq<Column>)

  /** How one run on one machine goes: the instruction set, the orders of the parallel loops, which
      iterations a stopped loop still skips, and which allocations succeed. */
  datatype Run = Run(
    avx512: bool,
    blockOrder: nat -> seq<nat>,
    columnOrder: seq<nat>,
    threadOf: nat -> nat,
    nThreads: nat,
    skip: nat -> bool,
    allocationOk: nat -> bool)

  ghost predicate ValidRun(run: Run, t: Table) {
    match t
    case Homogeneous(_, data) => Schedule(run.blockOrder(0), BlocksPerPtr(|data|))
    case Soa(columns) =>
      && (forall c: nat :: c < |columns| ==> Schedule(run.blockOrder(c), BlocksPerPtr(|columns[c].data|)))
      && Schedule(run.columnOrder, |columns|)
      && (forall c: nat :: run.threadOf(c) < run.nThreads)
  }

  /** The specification: no element of a floating-point column offends. */
  ghost predicate TableIsClean(t: Table, allowNaN: bool) {
    match t
    case Homogeneous(f, data) => !AnyOffending(f, data, 0, |data|, allowNaN)
    case Soa(columns) => forall c :: 0 <= c < |columns| ==> ColumnIsClean(columns[c], allowNaN)
  }

  ghost predicate ColumnIsClean(c: Column, allowNaN: bool) {
    match c.kind
    case FloatColumn => !AnyOffending(Float, c.data, 0, |c.data|, allowNaN)
    case DoubleColumn => !AnyOffending(Double, c.data, 0, |c.data|, allowNaN)
    case OtherColumn => true
  }

  /** `computeSum` of one array, on either instruction set. */
  method ArraySum(u: Fpu, f: Format, data: seq<bv64>, run: Run, c: nat, ghost allowNaN: bool) returns (sum: Value)
    requires u.Conforms() && Schedule(run.blockOrder(c), BlocksPerPtr(|data|))
    ensures sum.Finite? ==> !AnyOffending(f, data, 0, |data|, allowNaN)
  {
    hide AnyOffending, Values, Schedule;
    assert [data][0] == data && BlocksPerPtr(|data|) * |[data]| == BlocksPerPtr(|data|);
    if run.avx512 {
      sum := ComputeSumAVX512(u, f, [data], |data|, run.blockOrder(c), run.allocationOk(c));
    } else {
      sum := ComputeSum(u, f, [data]);
    }
    if sum.Finite? {
      FiniteIsClean(u, f, data, allowNaN);
    }
  }

  /** `checkFiniteness` of one array, on either instruction set. */
  method ArrayCheck(f: Format, data: seq<bv64>, run: Run, c: nat, allowNaN: bool) returns (finiteness: bool)
    requires Schedule(run.blockOrder(c), BlocksPerPtr(|data|))
    ensures finiteness <==> !AnyOffending(f, data, 0, |data|, allowNaN)
  {
    hide AnyOffending, Schedule;
    assert [data][0] == data && BlocksPerPtr(|data|) * |[data]| == BlocksPerPtr(|data|);
    if run.avx512 {
      ghost var seen;
      finiteness, seen := CheckFinitenessInBlocks(f, [data], |data|, allowNaN, run.blockOrder(c));
    } else {
      finiteness := CheckFiniteness(f, [data], allowNaN);
    }
  }

  /** Adds a column's sum to a running double. */
  method AddColumn(u: Fpu, col: Column, sum0: Value, run: Run, c: nat, ghost allowNaN: bool) returns (sum: Value)
    requires u.Conforms() && Schedule(run.blockOrder(c), BlocksPerPtr(|col.data|))
    ensures sum.Finite? ==> sum0.Finite? && ColumnIsClean(col, allowNaN)
  {
    hide AnyOffending, Schedule;
    if col.kind == OtherColumn {
      return sum0;
    }
    var colSum := ArraySum(u, col.Fmt(), col.data, run, c, allowNaN);
    sum := u.addDouble(sum0, u.ToDouble(col.Fmt(), colSum));
    if sum.Finite? {
      FiniteSumFiniteOperands(u.addDouble, sum0, u.ToDouble(col.Fmt(), colSum));
      assert u.widen(colSum).Finite? <==> colSum.Finite?;
    }
  }

  method ComputeSumSOA(u: Fpu, columns: seq<Column>, run: Run, ghost allowNaN: bool)
    returns (sum: Value, sumIsFinite: bool)
    requires u.Conforms() && ValidRun(run, Soa(columns))
    ensures sum.Finite? && sumIsFinite ==> TableIsClean(Soa(columns), allowNaN)
  {
    hide ColumnIsClean, Schedule;
    sum, sumIsFinite := Finite(0.0), true;
    var i := 0;
    while i < |columns| && sumIsFinite
      invariant 0 <= i <= |columns|
      invariant sumIsFinite ==> sum.Finite? && forall c :: 0 <= c < i ==> ColumnIsClean(columns[c], allowNaN)
    {
      sum := AddColumn(u, columns[i], sum, run, i, allowNaN);
      sumIsFinite := sumIsFinite && sum.Finite?;
      i := i + 1;
    }
  }

  /** Threads add columns to their own sums; a sum that stops being finite stops the loop. */
  method ComputeSumSOAThreaded(u: Fpu, columns: seq<Column>, run: Run, ghost allowNaN: bool)
    returns (sum: Value, sumIsFinite: bool)
    requires u.Conforms() && ValidRun(run, Soa(columns))
    ensures sum.Finite? && sumIsFinite ==> TableIsClean(Soa(columns), allowNaN)
  {
    hide ColumnIsClean;
    var tlsSum := new Value[run.nThreads](_ => Finite(0.0));
    var tlsNotFinite := new bool[run.nThreads](_ => false);
    var breakFlag := false;
    for k := 0 to |run.columnOrder|
      invariant !breakFlag ==> forall c: nat :: c < |columns| && c in run.columnOrder[..k] ==>
          ColumnIsClean(columns[c], allowNaN)
    {
      var i := run.columnOrder[k];
      assert i in run.columnOrder && run.columnOrder[..k + 1] == run.columnOrder[..k] + [i];
      if !(breakFlag && run.skip(k)) {
        var tid := run.threadOf(i);
        var localSum := AddColumn(u, columns[i], tlsSum[tid], run, i, allowNaN);
        tlsSum[tid] := localSum;
        tlsNotFinite[tid] := tlsNotFinite[tid] || !localSum.Finite?;
        if tlsNotFinite[tid] {
          breakFlag := true;
        }
      }
    }
    assert run.columnOrder[..|run.columnOrder|] == run.columnOrder;
    sumIsFinite := true;
    if breakFlag {
      sum, sumIsFinite := Infinity(false), false;
    } else {
      sum := Finite(0.0);
      for t := 0 to run.nThreads {
        sum := u.addDouble(sum, tlsSum[t]);
        sumIsFinite := sumIsFinite && !tlsNotFinite[t];
      }
    }
  }

  method CheckFinitenessSOA(columns: seq<Column>, run: Run, allowNaN: bool) returns (valuesAreFinite: bool)
    requires ValidRun(run, Soa(columns))
    ensures valuesAreFinite <==> TableIsClean(Soa(columns), allowNaN)
  {
    hide AnyOffending, Schedule;
    valuesAreFinite := true;
    var i := 0;
    while i < |columns| && valuesAreFinite
      invariant 0 <= i <= |columns|
      invariant valuesAreFinite <==> forall c :: 0 <= c < i ==> ColumnIsClean(columns[c], allowNaN)
    {
      if columns[i].kind != OtherColumn {
        var ok := ArrayCheck(columns[i].Fmt(), columns[i].data, run, i, allowNaN);
        valuesAreFinite := valuesAreFinite && ok;
      }
      assert ColumnIsClean(columns[i], allowNaN) <==> valuesAreFinite;
      i := i + 1;
    }
  }

  method CheckFinitenessSOAThreaded(columns: seq<Column>, run: Run, allowNaN: bool) returns (valuesAreFinite: bool)
    requires ValidRun(run, Soa(columns))
    ensures valuesAreFinite <==> TableIsClean(Soa(columns), allowNaN)
  {
    hide AnyOffending, ColumnIsClean;
    var tlsNotFinite := new bool[run.nThreads](_ => false);
    var breakFlag := false;
    for k := 0 to |run.columnOrder|
      invariant !breakFlag ==> forall c: nat :: c < |columns| && c in run.columnOrder[..k] ==>
          ColumnIsClean(columns[c], allowNaN)
      invariant !breakFlag ==> forall t :: 0 <= t < run.nThreads ==> !tlsNotFinite[t]
      invariant (exists t :: 0 <= t < run.nThreads && tlsNotFinite[t]) || breakFlag
            ==> exists c :: 0 <= c < |columns| && !ColumnIsClean(columns[c], allowNaN)
    {
      var i := run.columnOrder[k];
      assert i in run.columnOrder && run.columnOrder[..k + 1] == run.columnOrder[..k] + [i];
      if !(breakFlag && run.skip(k)) {
        var tid := run.threadOf(i);
        var ok := ColumnCheck(columns[i], run, i, allowNaN);
        tlsNotFinite[tid] := tlsNotFinite[tid] || !ok;
        if tlsNotFinite[tid] {
          breakFlag := true;
        }
      }
    }
    assert run.columnOrder[..|run.columnOrder|] == run.columnOrder;
    valuesAreFinite := true;
    if breakFlag {
      valuesAreFinite := false;
    } else {
      for t := 0 to run.nThreads
        invariant valuesAreFinite
      {
        valuesAreFinite := valuesAreFinite && !tlsNotFinite[t];
      }
    }
  }

  method ColumnCheck(col: Column, run: Run, c: nat, allowNaN: bool) returns (ok: bool)
    requires Schedule(run.blockOrder(c), BlocksPerPtr(|col.data|))
    ensures ok <==> ColumnIsClean(col, allowNaN)
  {
    hide AnyOffending, Schedule;
    if col.kind == OtherColumn {
      return true;
    }
    ok := ArrayCheck(col.Fmt(), col.data, run, c, allowNaN);
  }

  // ---- the check: lines 516-569 ----

  /** No word of an array denotes an infinity, and none a NaN unless NaN is allowed. */
  ghost predicate WordsAreClean(f: Format, data: seq<bv64>, allowNaN: bool) {
    forall k :: 0 <= k < |data| ==> !IsInf(f, data[k]) && (IsNaN(f, data[k]) ==> allowNaN)
  }

  lemma CleanWords(f: Format, data: seq<bv64>, allowNaN: bool)
    ensures !AnyOffending(f, data, 0, |data|, allowNaN) <==> WordsAreClean(f, data, allowNaN)
  {
    hide IsInf, IsNaN;
  }

  lemma CleanTable(t: Table, allowNaN: bool)
    ensures TableIsClean(t, allowNaN) <==> match t
      case Homogeneous(f, data) => WordsAreClean(f, data, allowNaN)
      case Soa(columns) => forall c :: 0 <= c < |columns| ==>
          && (columns[c].kind == FloatColumn ==> WordsAreClean(Float, columns[c].data, allowNaN))
          && (columns[c].kind == DoubleColumn ==> WordsAreClean(Double, columns[c].data, allowNaN))
  {
    hide AnyOffending, WordsAreClean;
    match t
    case Homogeneous(f, data) => CleanWords(f, data, allowNaN);
    case Soa(columns) =>
      forall c | 0 <= c < |columns|
        ensures !AnyOffending(Float, columns[c].data, 0, |columns[c].data|, allowNaN)
           <==> WordsAreClean(Float, columns[c].data, allowNaN)
        ensures !AnyOffending(Double, columns[c].data, 0, |columns[c].data|, allowNaN)
           <==> WordsAreClean(Double, columns[c].data, allowNaN)
      {
        CleanWords(Float, columns[c].data, allowNaN);
        CleanWords(Double, columns[c].data, allowNaN);
      }
  }

  method AllValuesAreFinite(u: Fpu, t: Table, run: Run, allowNaN: bool) returns (finiteness: bool)
    requires u.Conforms() && ValidRun(run, t)
    ensures finiteness <==> match t
      case Homogeneous(f, data) => WordsAreClean(f, data, allowNaN)
      case Soa(columns) => forall c :: 0 <= c < |columns| ==>
          && (columns[c].kind == FloatColumn ==> WordsAreClean(Float, columns[c].data, allowNaN))
          && (columns[c].kind == DoubleColumn ==> WordsAreClean(Double, columns[c].data, allowNaN))
  {
    hide AnyOffending, ColumnIsClean, Schedule, WordsAreClean;
    CleanTable(t, allowNaN);
    var sum, sumIsFinite := Finite(0.0), true;
    match t {
      case Soa(columns) =>
        if run.avx512 {
          sum, sumIsFinite := ComputeSumSOAThreaded(u, columns, run, allowNaN);
        } else {
          sum, sumIsFinite := ComputeSumSOA(u, columns, run, allowNaN);
        }
      case Homogeneous(f, data) =>
        var total := ArraySum(u, f, data, run, 0, allowNaN);
        sum := u.ToDouble(f, total);
        assert u.widen(total).Finite? <==> total.Finite?;
    }
    sumIsFinite := sumIsFinite && sum.Finite?;
    if sumIsFinite {
      return true;
    }
    match t {
      case Soa(columns) =>
        if run.avx512 {
          finiteness := CheckFinitenessSOAThreaded(columns, run, allowNaN);
        } else {
          finiteness := CheckFinitenessSOA(columns, run, allowNaN);
        }
      case Homogeneous(f, data) =>
        finiteness := ArrayCheck(f, data, run, 0, allowNaN);
    }
  }
}
