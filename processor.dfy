/**
 * `HistogramProcessor`: owns the running sum, creates it lazily from the
 * first frame (size and edges copied once) and merges every frame into it.
 * The mutex around `process_frame` is not modelled: the model is sequential.
 */
module Processor {
  import opened Common
  import opened Histogram

  /** The running sum, when present, is a well-formed RUNNING_SUM histogram. */
  ghost predicate SumValid(sum: Option<Snapshot>) {
    sum.Some? ==> sum.value.Valid() && sum.value.dataType == RunningSum
  }

  /** The running sum `process_frame` adds to: the existing one, or a new one with the frame's size and edges. */
  function Started(sum: Option<Snapshot>, frame: Snapshot): (base: Snapshot)
    requires SumValid(sum) && frame.Valid()
    ensures SumValid(Some(base))
    ensures sum.Some? ==> base == sum.value
    ensures sum.None? ==> && base.binSize == frame.binSize
                          && base.binEdges == frame.binEdges
                          && forall i :: 0 <= i < frame.binSize ==> base.values64[i] == 0
  {
    if sum.Some? then sum.value
    else Blank(frame.binSize, RunningSum).(binEdges := frame.binEdges)
  }

  /** The running sum after `process_frame`, and whether `add_histogram` threw. */
  function ProcessSpec(sum: Option<Snapshot>, frame: Snapshot): (r: (Option<Snapshot>, Outcome<HistError>))
    requires SumValid(sum) && frame.Valid()
    ensures r.0.Some? && SumValid(r.0)
  {
    var base := Started(sum, frame);
    match Add(base, frame)
    case Ok(merged) => (Some(merged), Pass)
    case Err(e) => (Some(base), Fail(e))
  }

  /**
   * What one `process_frame` call does to the running sum: the geometry is
   * taken from the first frame and never changes afterwards; a frame of the
   * wrong type or size is rejected and leaves the counts as they were;
   * otherwise every bin gains the frame's count, saturating at UINT64_MAX.
   */
  lemma ProcessFrameEffect(sum: Option<Snapshot>, frame: Snapshot)
    requires SumValid(sum) && frame.Valid()
    ensures var (after, outcome) := ProcessSpec(sum, frame);
      && (sum.Some? ==> after.value.binSize == sum.value.binSize && after.value.binEdges == sum.value.binEdges)
      && (sum.None? ==> after.value.binSize == frame.binSize && after.value.binEdges == frame.binEdges)
      && (outcome.Pass? <==> frame.dataType == FrameData && frame.binSize == Started(sum, frame).binSize)
      && (outcome.Fail? ==> after == Some(Started(sum, frame)))
      && (outcome.Pass? ==> forall i :: 0 <= i < frame.binSize ==>
            after.value.values64[i] == Min(Started(sum, frame).values64[i] + frame.values32[i], UINT64_MAX))
  {
  }

  /** A frame whose size differs from the established running sum leaves it unchanged. */
  lemma MismatchLeavesSum(sum: Snapshot, frame: Snapshot)
    requires SumValid(Some(sum)) && frame.Valid()
    requires frame.binSize != sum.binSize
    ensures ProcessSpec(Some(sum), frame) == (Some(sum), Fail(InvalidArgument))
  {
  }

  // ---------------------------------------------------------------------
  // A run of frames
  // ---------------------------------------------------------------------

  ghost predicate AllValid(frames: seq<Snapshot>) {
    forall j :: 0 <= j < |frames| ==> frames[j].Valid()
  }

  /** Frames that all carry 32-bit counts for the same number of bins. */
  ghost predicate Uniform(frames: seq<Snapshot>, binSize: nat) {
    forall j :: 0 <= j < |frames| ==>
      frames[j].Valid() && frames[j].dataType == FrameData && frames[j].binSize == binSize
  }

  /** The running sum after `process_frame` has been called on each frame in turn. */
  function Accumulate(frames: seq<Snapshot>): (r: Option<Snapshot>)
    requires AllValid(frames)
    ensures SumValid(r)
    ensures r.None? <==> frames == []
  {
    if frames == [] then None
    else ProcessSpec(Accumulate(frames[..|frames| - 1]), frames[|frames| - 1]).0
  }

  /** The count a frame contributes to bin i (zero outside its range). */
  function CountAt(frame: Snapshot, i: nat): nat {
    if i < |frame.values32| then frame.values32[i] else 0
  }

  /** The exact (unbounded) total of bin i over a run of frames. */
  function BinTotal(frames: seq<Snapshot>, i: nat): nat {
    if frames == [] then 0
    else BinTotal(frames[..|frames| - 1], i) + CountAt(frames[|frames| - 1], i)
  }

  /**
   * After frames of one geometry, the running sum has the first frame's
   * size and edges, and each bin holds its exact total clamped at UINT64_MAX.
   */
  lemma {:induction false} AccumulateClosedForm(frames: seq<Snapshot>, binSize: nat)
    requires frames != [] && Uniform(frames, binSize)
    ensures Accumulate(frames).value.binSize == binSize
    ensures Accumulate(frames).value.binEdges == frames[0].binEdges
    ensures forall i :: 0 <= i < binSize ==>
              Accumulate(frames).value.values64[i] == Min(BinTotal(frames, i), UINT64_MAX)
  {
    var n := |frames|;
    var prefix := frames[..n - 1];
    var last := frames[n - 1];
    if n == 1 {
      assert prefix == [];
      forall i | 0 <= i < binSize
        ensures Accumulate(frames).value.values64[i] == Min(BinTotal(frames, i), UINT64_MAX)
      {
        assert BinTotal(frames, i) == BinTotal(prefix, i) + CountAt(last, i);
      }
    } else {
      assert Uniform(prefix, binSize);
      AccumulateClosedForm(prefix, binSize);
      assert prefix[0] == frames[0];
      var before := Accumulate(prefix).value;
      ProcessFrameEffect(Some(before), last);
      forall i | 0 <= i < binSize
        ensures Accumulate(frames).value.values64[i] == Min(BinTotal(frames, i), UINT64_MAX)
      {
        assert BinTotal(frames, i) == BinTotal(prefix, i) + CountAt(last, i);
      }
    }
  }

  lemma {:induction false} BinTotalAppend(a: seq<Snapshot>, b: seq<Snapshot>, i: nat)
    ensures BinTotal(a + b, i) == BinTotal(a, i) + BinTotal(b, i)
    decreases |b|
  {
    if b == [] {
      assert a + b == a;
    } else {
      var m := |b|;
      assert (a + b)[..|a + b| - 1] == a + b[..m - 1];
      assert (a + b)[|a + b| - 1] == b[m - 1];
      BinTotalAppend(a, b[..m - 1], i);
    }
  }

  lemma MultisetCancel(a: multiset<Snapshot>, b: multiset<Snapshot>, x: Snapshot)
    requires a + multiset{x} == b + multiset{x}
    ensures a == b
  {
    forall y
      ensures a[y] == b[y]
    {
      assert (a + multiset{x})[y] == (b + multiset{x})[y];
    }
  }

  /** Taking frame k out of a run takes its count out of every bin total. */
  lemma BinTotalRemove(gs: seq<Snapshot>, k: nat, i: nat)
    requires k < |gs|
    ensures BinTotal(gs, i) == BinTotal(gs[..k] + gs[k + 1..], i) + CountAt(gs[k], i)
  {
    assert gs == gs[..k] + [gs[k]] + gs[k + 1..];
    BinTotalAppend(gs[..k] + [gs[k]], gs[k + 1..], i);
    BinTotalAppend(gs[..k], [gs[k]], i);
    BinTotalAppend(gs[..k], gs[k + 1..], i);
    assert BinTotal([gs[k]], i) == CountAt(gs[k], i) by {
      assert [gs[k]][..0] == [];
    }
  }

  /** The exact bin totals do not depend on the order the frames arrived in. */
  lemma {:induction false} BinTotalPermutation(fs: seq<Snapshot>, gs: seq<Snapshot>, i: nat)
    requires multiset(fs) == multiset(gs)
    ensures BinTotal(fs, i) == BinTotal(gs, i)
    decreases |fs|
  {
    if fs == [] {
      assert |gs| == |multiset(gs)| == 0;
    } else {
      var n := |fs|;
      var last := fs[n - 1];
      var init := fs[..n - 1];
      assert fs == init + [last];
      assert last in multiset(gs);
      var k :| 0 <= k < |gs| && gs[k] == last;
      var rest := gs[..k] + gs[k + 1..];
      assert multiset(init) == multiset(rest) by {
        assert multiset(fs) == multiset(init) + multiset{last};
        assert gs == gs[..k] + [last] + gs[k + 1..];
        assert multiset(gs) == multiset(rest) + multiset{last};
        MultisetCancel(multiset(init), multiset(rest), last);
      }
      BinTotalPermutation(init, rest, i);
      BinTotalRemove(gs, k, i);
    }
  }

  /**
   * Merging is order-insensitive: two runs made of the same frames in any
   * order end with the same counts in every bin.
   */
  lemma AccumulateOrderIndependent(fs: seq<Snapshot>, gs: seq<Snapshot>, binSize: nat)
    requires fs != [] && Uniform(fs, binSize)
    requires multiset(fs) == multiset(gs)
    ensures AllValid(gs) && gs != []
    ensures Accumulate(fs).value.values64 == Accumulate(gs).value.values64
  {
    assert Uniform(gs, binSize) by {
      forall j | 0 <= j < |gs|
        ensures gs[j].Valid() && gs[j].dataType == FrameData && gs[j].binSize == binSize
      {
        assert gs[j] in multiset(fs);
      }
    }
    assert gs != [] by {
      assert fs[0] in multiset(gs);
    }
    AccumulateClosedForm(fs, binSize);
    AccumulateClosedForm(gs, binSize);
    forall i | 0 <= i < binSize
      ensures Accumulate(fs).value.values64[i] == Accumulate(gs).value.values64[i]
    {
      BinTotalPermutation(fs, gs, i);
    }
  }

  // ---------------------------------------------------------------------
  // The processor object
  // ---------------------------------------------------------------------

  class HistogramProcessor {
    var runningSum: HistogramData?

    ghost predicate Valid()
      reads this, runningSum
    {
      runningSum != null ==> runningSum.Valid() && runningSum.dataType == RunningSum
    }

    /** The running sum as a value; None until the first frame. */
    ghost function SumView(): (s: Option<Snapshot>)
      reads this, runningSum
      ensures Valid() ==> SumValid(s)
    {
      if runningSum == null then None else Some(runningSum.View())
    }

    constructor ()
      ensures Valid() && SumView() == None
    {
      runningSum := null;
    }

    /**
     * Creates the running sum from the first frame (its size, then its
     * edges one by one), then merges the frame into it.
     */
    method ProcessFrame(frame: HistogramData) returns (r: Outcome<HistError>)
      requires Valid() && frame.Valid()
      modifies this, runningSum
      ensures Valid()
      ensures old(runningSum) != null ==> runningSum == old(runningSum)
      ensures old(runningSum) == null ==> fresh(runningSum)
      ensures (SumView(), r) == ProcessSpec(old(SumView()), old(frame.View()))
    {
      ghost var frameView := frame.View();
      if runningSum == null {
        runningSum := new HistogramData(frame.binSize, RunningSum);
        var i := 0;
        while i < |frame.binEdges|
          invariant fresh(runningSum)
          invariant frame.View() == frameView
          invariant i <= |frame.binEdges|
          invariant runningSum.View() == Blank(frame.binSize, RunningSum).(binEdges := runningSum.binEdges)
          invariant |runningSum.binEdges| == |frame.binEdges|
          invariant runningSum.binEdges[..i] == frame.binEdges[..i]
        {
          var written := runningSum.SetBinEdge(i, frame.binEdges[i]);
          assert written.Pass?;
          i := i + 1;
        }
        assert runningSum.binEdges == frame.binEdges by {
          assert runningSum.binEdges == runningSum.binEdges[..i];
          assert frame.binEdges == frame.binEdges[..i];
        }
      }
      r := runningSum.AddHistogram(frame);
    }
  }
}
