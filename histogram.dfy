/**
 * The histogram container `HistogramData`: bin edges plus either 32-bit
 * per-frame counts or 64-bit running-sum counts, with bounds- and
 * type-checked accessors, bin-edge calculation and the saturating merge.
 *
 * Bin edges are kept in integer clock ticks; the conversion to seconds
 * (a multiplication by the clock period in double precision) is not modelled.
 */
module Histogram {
  import opened Common

  datatype DataType = FrameData | RunningSum

  /** The two exception types the container throws: `std::out_of_range` and `std::invalid_argument`. */
  datatype HistError = OutOfRange | InvalidArgument

  /** The value held by a `HistogramData` object. */
  datatype Snapshot = Snapshot(
    binSize: nat,
    dataType: DataType,
    binEdges: seq<int>,
    values32: seq<u32>,
    values64: seq<u64>)
  {
    /** The shape the constructor establishes: N + 1 edges and N counts in the vector of the type. */
    ghost predicate Valid() {
      && |binEdges| == binSize + 1
      && (dataType == FrameData ==> |values32| == binSize && values64 == [])
      && (dataType == RunningSum ==> |values64| == binSize && values32 == [])
    }
  }

  /** A freshly constructed histogram: every edge and every count zero. */
  function Blank(binSize: nat, dataType: DataType): (h: Snapshot)
    ensures h.Valid() && h.binSize == binSize && h.dataType == dataType
    ensures forall i :: 0 <= i < |h.binEdges| ==> h.binEdges[i] == 0
    ensures dataType == FrameData ==> h.values64 == [] && forall i :: 0 <= i < binSize ==> h.values32[i] == 0
    ensures dataType == RunningSum ==> h.values32 == [] && forall i :: 0 <= i < binSize ==> h.values64[i] == 0
  {
    Snapshot(binSize, dataType, seq(binSize + 1, _ => 0),
      if dataType == FrameData then seq(binSize, _ => 0) else [],
      if dataType == RunningSum then seq(binSize, _ => 0) else [])
  }

  // ---------------------------------------------------------------------
  // Saturating addition
  // ---------------------------------------------------------------------

  /**
   * One step of the merge loop as the code computes it: a wrapping 64-bit
   * addition, then "the sum went down, so it wrapped" clamps to UINT64_MAX.
   * Its meaning is the saturating sum.
   */
  function AddWithOverflowCheck(acc: u64, v: u32): (r: u64)
    ensures r == Min(acc + v, UINT64_MAX)
  {
    var wrapped := (acc + v) % TWO_64;
    if wrapped < acc then UINT64_MAX else wrapped
  }

  /** The counts after merging one frame into a running sum, bin by bin. */
  function MergeCounts(acc: seq<u64>, frame: seq<u32>): (r: seq<u64>)
    requires |acc| == |frame|
    ensures |r| == |acc|
    ensures forall i :: 0 <= i < |r| ==> r[i] == Min(acc[i] + frame[i], UINT64_MAX)
  {
    seq(|acc|, i requires 0 <= i < |acc| => AddWithOverflowCheck(acc[i], frame[i]))
  }

  /** A bin that has reached UINT64_MAX stays there, and no bin ever decreases. */
  lemma SaturationSticky(acc: seq<u64>, frame: seq<u32>, i: nat)
    requires |acc| == |frame| && i < |acc|
    ensures acc[i] <= MergeCounts(acc, frame)[i] <= UINT64_MAX
    ensures acc[i] == UINT64_MAX ==> MergeCounts(acc, frame)[i] == UINT64_MAX
    ensures acc[i] + frame[i] > UINT64_MAX ==> MergeCounts(acc, frame)[i] == UINT64_MAX
  {
  }

  /** Merging two frames in either order gives the same counts. */
  lemma MergeCommutes(acc: seq<u64>, f1: seq<u32>, f2: seq<u32>)
    requires |acc| == |f1| == |f2|
    ensures MergeCounts(MergeCounts(acc, f1), f2) == MergeCounts(MergeCounts(acc, f2), f1)
  {
    var left := MergeCounts(MergeCounts(acc, f1), f2);
    var right := MergeCounts(MergeCounts(acc, f2), f1);
    forall i | 0 <= i < |acc|
      ensures left[i] == right[i]
    {
      assert left[i] == Min(acc[i] + f1[i] + f2[i], UINT64_MAX);
      assert right[i] == Min(acc[i] + f2[i] + f1[i], UINT64_MAX);
    }
  }

  /** The precondition checks and the merge of `add_histogram`, on values. */
  function Add(acc: Snapshot, other: Snapshot): (r: Result<Snapshot, HistError>)
    requires acc.Valid() && other.Valid()
    ensures r.Ok? <==> other.dataType == FrameData && acc.dataType == RunningSum && other.binSize == acc.binSize
    ensures r.Err? ==> r.error == InvalidArgument
    ensures r.Ok? ==> && r.value.Valid()
                      && r.value.binSize == acc.binSize
                      && r.value.dataType == acc.dataType
                      && r.value.binEdges == acc.binEdges
                      && r.value.values32 == acc.values32
                      && |r.value.values64| == acc.binSize
                      && forall i :: 0 <= i < acc.binSize ==>
                           r.value.values64[i] == Min(acc.values64[i] + other.values32[i], UINT64_MAX)
  {
    if other.dataType != FrameData || acc.dataType != RunningSum then Err(InvalidArgument)
    else if other.binSize != acc.binSize then Err(InvalidArgument)
    else Ok(acc.(values64 := MergeCounts(acc.values64, other.values32)))
  }

  // ---------------------------------------------------------------------
  // Bin edges
  // ---------------------------------------------------------------------

  /**
   * Edge i in clock ticks. The code evaluates `bin_offset + (i * bin_width)`
   * with `i` a `size_t`, so both `int` operands are converted to `size_t`
   * and the result is taken modulo 2^64.
   */
  function EdgeTick(width: int32, offset: int32, i: nat): (r: nat)
    ensures r < TWO_64
  {
    (offset + i * width) % TWO_64
  }

  /** The edges `calculate_bin_edges` writes into a histogram of `binSize` bins. */
  function BinEdges(binSize: nat, width: int32, offset: int32): (r: seq<int>)
    ensures |r| == binSize + 1
  {
    seq(binSize + 1, i requires 0 <= i <= binSize => EdgeTick(width, offset, i))
  }

  lemma MulMonotone(i: nat, j: nat, w: nat)
    requires i <= j
    ensures i * w <= j * w
  {
  }

  /**
   * For a non-negative geometry whose last edge fits in 64 bits, the edges
   * are exactly offset + i * width: the first is the offset, the last is
   * offset + N * width, and they never decrease.
   */
  lemma BinEdgesLinear(binSize: nat, width: int32, offset: int32)
    requires 0 <= width && 0 <= offset
    requires offset + binSize * width < TWO_64
    ensures forall i :: 0 <= i <= binSize ==> BinEdges(binSize, width, offset)[i] == offset + i * width
    ensures BinEdges(binSize, width, offset)[0] == offset
    ensures BinEdges(binSize, width, offset)[binSize] == offset + binSize * width
    ensures forall i, j :: 0 <= i <= j <= binSize ==>
              BinEdges(binSize, width, offset)[i] <= BinEdges(binSize, width, offset)[j]
  {
    var edges := BinEdges(binSize, width, offset);
    forall i | 0 <= i <= binSize
      ensures edges[i] == offset + i * width
    {
      MulMonotone(i, binSize, width);
    }
    forall i, j | 0 <= i <= j <= binSize
      ensures edges[i] <= edges[j]
    {
      MulMonotone(i, j, width);
    }
  }

  // ---------------------------------------------------------------------
  // The container
  // ---------------------------------------------------------------------

  class HistogramData {
    var binSize: nat
    var dataType: DataType
    var binEdges: seq<int>
    var values32: seq<u32>
    var values64: seq<u64>

    ghost function View(): Snapshot
      reads this
    {
      Snapshot(binSize, dataType, binEdges, values32, values64)
    }

    ghost predicate Valid()
      reads this
    {
      View().Valid()
    }

    /** Sizes the edge vector to N + 1 and the count vector of the chosen type to N, all zero. */
    constructor (binSize: nat, dataType: DataType)
      ensures View() == Blank(binSize, dataType)
    {
      this.binSize := binSize;
      this.dataType := dataType;
      binEdges := seq(binSize + 1, _ => 0);
      values32 := if dataType == FrameData then seq(binSize, _ => 0) else [];
      values64 := if dataType == RunningSum then seq(binSize, _ => 0) else [];
    }

    function GetBinValue32(index: nat): (r: Result<u32, HistError>)
      reads this
      ensures r.Ok? <==> dataType == FrameData && index < |values32|
      ensures r.Ok? ==> r.value == values32[index]
      ensures r.Err? ==> r.error == OutOfRange
    {
      if dataType != FrameData || index >= |values32| then Err(OutOfRange) else Ok(values32[index])
    }

    function GetBinValue64(index: nat): (r: Result<u64, HistError>)
      reads this
      ensures r.Ok? <==> dataType == RunningSum && index < |values64|
      ensures r.Ok? ==> r.value == values64[index]
      ensures r.Err? ==> r.error == OutOfRange
    {
      if dataType != RunningSum || index >= |values64| then Err(OutOfRange) else Ok(values64[index])
    }

    method SetBinEdge(index: nat, value: int) returns (r: Outcome<HistError>)
      modifies this
      ensures old(Valid()) ==> Valid()
      ensures r == if index < |old(binEdges)| then Pass else Fail(OutOfRange)
      ensures View() == if r.Pass? then old(View()).(binEdges := old(binEdges)[index := value]) else old(View())
    {
      if index >= |binEdges| {
        return Fail(OutOfRange);
      }
      binEdges := binEdges[index := value];
      r := Pass;
    }

    method SetBinValue32(index: nat, value: u32) returns (r: Outcome<HistError>)
      modifies this
      ensures old(Valid()) ==> Valid()
      ensures r == if old(dataType) == FrameData && index < |old(values32)| then Pass else Fail(OutOfRange)
      ensures View() == if r.Pass? then old(View()).(values32 := old(values32)[index := value]) else old(View())
    {
      if dataType != FrameData || index >= |values32| {
        return Fail(OutOfRange);
      }
      values32 := values32[index := value];
      r := Pass;
    }

    method SetBinValue64(index: nat, value: u64) returns (r: Outcome<HistError>)
      modifies this
      ensures old(Valid()) ==> Valid()
      ensures r == if old(dataType) == RunningSum && index < |old(values64)| then Pass else Fail(OutOfRange)
      ensures View() == if r.Pass? then old(View()).(values64 := old(values64)[index := value]) else old(View())
    {
      if dataType != RunningSum || index >= |values64| {
        return Fail(OutOfRange);
      }
      values64 := values64[index := value];
      r := Pass;
    }

    /** Overwrites every edge with the size_t value of offset + i * width. */
    method CalculateBinEdges(width: int32, offset: int32)
      requires Valid()
      modifies this
      ensures View() == old(View()).(binEdges := BinEdges(binSize, width, offset))
    {
      var i := 0;
      while i < |binEdges|
        invariant i <= |binEdges| == binSize + 1
        invariant View() == old(View()).(binEdges := binEdges)
        invariant forall k :: 0 <= k < i ==> binEdges[k] == EdgeTick(width, offset, k)
      {
        binEdges := binEdges[i := EdgeTick(width, offset, i)];
        i := i + 1;
      }
    }

    /**
     * Checks both preconditions before touching anything, then merges the
     * frame's 32-bit counts into this running sum one bin at a time.
     */
    method AddHistogram(other: HistogramData) returns (r: Outcome<HistError>)
      requires Valid() && other.Valid()
      modifies this
      ensures var expected := Add(old(View()), old(other.View()));
        && (r.Pass? <==> expected.Ok?)
        && (expected.Ok? ==> View() == expected.value)
        && (expected.Err? ==> r == Fail(expected.error) && View() == old(View()))
    {
      if other.dataType != FrameData || dataType != RunningSum {
        return Fail(InvalidArgument);
      }
      if other.binSize != binSize {
        return Fail(InvalidArgument);
      }
      var i := 0;
      while i < binSize
        invariant this != other
        invariant i <= binSize
        invariant View() == old(View()).(values64 := values64)
        invariant |values64| == binSize
        invariant forall k :: 0 <= k < i ==> values64[k] == AddWithOverflowCheck(old(values64)[k], other.values32[k])
        invariant forall k :: i <= k < binSize ==> values64[k] == old(values64)[k]
      {
        values64 := values64[i := AddWithOverflowCheck(values64[i], other.values32[i])];
        i := i + 1;
      }
      r := Pass;
    }
  }
}
