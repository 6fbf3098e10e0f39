/**
 * The receive loop as the protocol design describes it, next to the loop
 * the code implements (`Decoder.Scan`):
 *
 *  - a frame whose bin count differs from the established running sum
 *    aborts the run and leaves the running sum unmodified;
 *  - the payload bytes a header takes from the buffer are consumed, so
 *    scanning resumes after them;
 *  - every complete line already buffered is handled before the next
 *    `receive`.
 *
 * Only the loop changes; `receive`, `receive_exact`, the payload fetch and
 * the merge are the ones of the code.
 */
module Intended {
  import opened Common
  import opened Histogram
  import opened Processor
  import opened Net
  import opened Decoder

  /**
   * `process_data_line` with a fatal bin-count mismatch: as `HandleLine`,
   * except that a frame the running sum rejects stops the loop and leaves
   * the running sum as it was.
   */
  function HandleLineStrict(parse: Parser, line: seq<byte>, after: seq<byte>, link: Link, sum: Option<Snapshot>): (r: Step)
    requires SumValid(sum)
    ensures SumValid(r.sum)
    ensures |Prefix(r.link.incoming)| <= |Prefix(link.incoming)|
  {
    match parse(CString(line))
    case None => Step(true, link, sum)
    case Some(h) =>
      if h.binSize < 0 then Step(true, link, sum)
      else
        var payload := FetchPayload(after, 4 * h.binSize, link);
        if !payload.ok then Step(false, payload.link, sum)
        else
          var (merged, outcome) := ProcessSpec(sum, FrameOf(h, DecodeCounts(payload.data)));
          if outcome.Fail? then Step(false, payload.link, sum)
          else Step(true, payload.link, merged)
  }

  /** The number of buffered bytes after the newline that the line's payload takes. */
  function Consumed(parse: Parser, line: seq<byte>, after: seq<byte>): (n: nat)
    ensures n <= |after|
  {
    match parse(CString(line))
    case None => 0
    case Some(h) => if h.binSize < 0 then 0 else Min(|after|, 4 * h.binSize)
  }

  /** What is left of `data` once its first line, ending at `nl`, and the payload bytes that line consumed are dropped. */
  function AfterPayload(parse: Parser, data: seq<byte>, nl: nat): (r: seq<byte>)
    requires nl < |data|
    ensures |r| <= |data| - nl - 1 && r == data[|data| - |r|..]
  {
    data[nl + 1 + Consumed(parse, data[..nl], data[nl + 1..])..]
  }

  /** The loop as designed: `receive`, then every buffered line, then buffer-full handling. */
  function ScanFixed(parse: Parser, buffered: seq<byte>, link: Link, sum: Option<Snapshot>): (r: Final)
    requires |buffered| <= MAX_BUFFER_SIZE - 2 && SumValid(sum)
    ensures SumValid(r.sum)
    decreases |Prefix(link.incoming)|, 0, 0
  {
    if !link.connected then Final(link, sum)
    else
      var got := Recv(link, MAX_BUFFER_SIZE - |buffered| - 1);
      RecvConsumes(link, MAX_BUFFER_SIZE - |buffered| - 1);
      if got.count <= 0 then Final(got.link, sum)
      else ScanDataFixed(parse, buffered + got.data, got.link, sum)
  }

  /**
   * Handles the first line of `data`, drops it together with the payload
   * bytes it consumed, and goes on with the rest of the buffer before the
   * next `receive`.
   */
  function ScanDataFixed(parse: Parser, data: seq<byte>, link: Link, sum: Option<Snapshot>): (r: Final)
    requires |data| <= MAX_BUFFER_SIZE - 1 && SumValid(sum)
    ensures SumValid(r.sum)
    decreases |Prefix(link.incoming)|, 1, |data|
  {
    match FirstNewline(data)
    case None => ScanFixed(parse, Trim(data), link, sum)
    case Some(nl) =>
      var step := HandleLineStrict(parse, data[..nl], data[nl + 1..], link, sum);
      if !step.keepGoing then Final(step.link, step.sum)
      else ScanDataFixed(parse, AfterPayload(parse, data, nl), step.link, step.sum)
  }

  // One pass of the designed loop, each outcome on its own.

  lemma FixedEndsOnReceive(parse: Parser, buffered: seq<byte>, link: Link, sum: Option<Snapshot>)
    requires |buffered| <= MAX_BUFFER_SIZE - 2 && SumValid(sum)
    requires !link.connected || Recv(link, MAX_BUFFER_SIZE - |buffered| - 1).count <= 0
    ensures ScanFixed(parse, buffered, link, sum).sum == sum
  {
  }

  lemma FixedReceives(parse: Parser, buffered: seq<byte>, link: Link, sum: Option<Snapshot>)
    requires |buffered| <= MAX_BUFFER_SIZE - 2 && SumValid(sum) && link.connected
    requires Recv(link, MAX_BUFFER_SIZE - |buffered| - 1).count > 0
    ensures var got := Recv(link, MAX_BUFFER_SIZE - |buffered| - 1);
      ScanFixed(parse, buffered, link, sum) == ScanDataFixed(parse, buffered + got.data, got.link, sum)
  {
  }

  lemma FixedWithoutLine(parse: Parser, data: seq<byte>, link: Link, sum: Option<Snapshot>)
    requires |data| <= MAX_BUFFER_SIZE - 1 && SumValid(sum)
    requires FirstNewline(data).None?
    ensures ScanDataFixed(parse, data, link, sum) == ScanFixed(parse, Trim(data), link, sum)
  {
  }

  lemma FixedAfterLine(parse: Parser, data: seq<byte>, link: Link, sum: Option<Snapshot>, nl: nat)
    requires |data| <= MAX_BUFFER_SIZE - 1 && SumValid(sum)
    requires FirstNewline(data) == Some(nl)
    requires HandleLineStrict(parse, data[..nl], data[nl + 1..], link, sum).keepGoing
    ensures var step := HandleLineStrict(parse, data[..nl], data[nl + 1..], link, sum);
      ScanDataFixed(parse, data, link, sum)
        == ScanDataFixed(parse, AfterPayload(parse, data, nl), step.link, step.sum)
  {
  }

  lemma FixedEndsOnLine(parse: Parser, data: seq<byte>, link: Link, sum: Option<Snapshot>, nl: nat)
    requires |data| <= MAX_BUFFER_SIZE - 1 && SumValid(sum)
    requires FirstNewline(data) == Some(nl)
    requires !HandleLineStrict(parse, data[..nl], data[nl + 1..], link, sum).keepGoing
    ensures var step := HandleLineStrict(parse, data[..nl], data[nl + 1..], link, sum);
      ScanDataFixed(parse, data, link, sum) == Final(step.link, step.sum)
  {
  }

  // ---------------------------------------------------------------------
  // A bin-count mismatch
  // ---------------------------------------------------------------------

  /**
   * The code: a complete frame whose bin count differs from the running
   * sum's is dropped, and the loop goes on.
   */
  lemma MismatchGoesOn(parse: Parser, line: seq<byte>, after: seq<byte>, link: Link, sum: Snapshot, h: Header)
    requires SumValid(Some(sum)) && parse(CString(line)) == Some(h)
    requires 0 <= h.binSize != sum.binSize && FetchPayload(after, 4 * h.binSize, link).ok
    ensures HandleLine(parse, line, after, link, Some(sum)) == Step(true, FetchPayload(after, 4 * h.binSize, link).link, Some(sum))
  {
    var payload := FetchPayload(after, 4 * h.binSize, link);
    MismatchLeavesSum(sum, FrameOf(h, DecodeCounts(payload.data)));
  }

  /**
   * The design: the same frame ends the run, with the running sum left as
   * it was.
   */
  lemma MismatchAborts(parse: Parser, data: seq<byte>, nl: nat, link: Link, sum: Snapshot, h: Header)
    requires |data| <= MAX_BUFFER_SIZE - 1 && SumValid(Some(sum))
    requires FirstNewline(data) == Some(nl) && parse(CString(data[..nl])) == Some(h)
    requires 0 <= h.binSize != sum.binSize && FetchPayload(data[nl + 1..], 4 * h.binSize, link).ok
    ensures ScanDataFixed(parse, data, link, Some(sum)) == Final(FetchPayload(data[nl + 1..], 4 * h.binSize, link).link, Some(sum))
  {
    var payload := FetchPayload(data[nl + 1..], 4 * h.binSize, link);
    MismatchLeavesSum(sum, FrameOf(h, DecodeCounts(payload.data)));
    FixedEndsOnLine(parse, data, link, Some(sum), nl);
  }
}
