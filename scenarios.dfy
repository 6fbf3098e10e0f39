/**
 * Whole runs of the receive loop on small, fixed inputs: how the frames a
 * server sends end up in the running sum, depending on how the peer's
 * bytes are split into deliveries, for the loop as the code has it
 * (`Scan`) and as the design describes it (`ScanFixed`).
 *
 * Every run uses the header of a frame with two bins, binWidth 100 and
 * binOffset 0, whose counts are sent as eight bytes.
 */
module Scenarios {
  import opened Common
  import opened Histogram
  import opened Processor
  import opened Net
  import opened Decoder
  import opened Intended

  // The header text `{"frameNumber":1,"binSize":2,"binWidth":100,"binOffset":0}`, field by field.
  const FRAME_NUMBER_FIELD: seq<byte> := [123, 34, 102, 114, 97, 109, 101, 78, 117, 109, 98, 101, 114, 34, 58, 49, 44]
  const BIN_SIZE_FIELD: seq<byte> := [34, 98, 105, 110, 83, 105, 122, 101, 34, 58, 50, 44]
  const BIN_WIDTH_FIELD: seq<byte> := [34, 98, 105, 110, 87, 105, 100, 116, 104, 34, 58, 49, 48, 48, 44]
  const BIN_OFFSET_FIELD: seq<byte> := [34, 98, 105, 110, 79, 102, 102, 115, 101, 116, 34, 58, 48, 125]

  const HEADER_TEXT: seq<byte> := FRAME_NUMBER_FIELD + BIN_SIZE_FIELD + BIN_WIDTH_FIELD + BIN_OFFSET_FIELD

  /** The header the text stands for. */
  const HEADER: Header := Header(1, 2, 100, 0)

  /** What json-c and the four key lookups make of a line: only the header text is a header. */
  function HeaderParse(text: seq<byte>): Option<Header> {
    if text == HEADER_TEXT then Some(HEADER) else None
  }

  /** The header line as sent, newline included. */
  const HEADER_LINE: seq<byte> := HEADER_TEXT + [NEWLINE]

  /** The payloads of a frame with counts [6, 7] and of one with counts [1, 2]. */
  const PAYLOAD_A: seq<byte> := [0, 0, 0, 6, 0, 0, 0, 7]
  const PAYLOAD_B: seq<byte> := [0, 0, 0, 1, 0, 0, 0, 2]

  /** The running sum both frames should give: edges 0, 100, 200 and counts [7, 9]. */
  const BOTH: Snapshot := Snapshot(2, RunningSum, [0, 100, 200], [], [7, 9])

  /** The running sum of the first frame alone. */
  const FIRST_ONLY: Snapshot := Snapshot(2, RunningSum, [0, 100, 200], [], [6, 7])

  /** The header text is 58 bytes of printable JSON: no newline, no NUL. */
  lemma HeaderTextPlain()
    ensures |HEADER_TEXT| == 58 && NEWLINE !in HEADER_TEXT && NUL !in HEADER_TEXT
  {
  }

  /** Two counts below 256 are sent as three zero bytes and the count, each. */
  lemma SmallPair(a: byte, b: byte)
    ensures EncodeCounts([a as u32, b as u32]) == [0, 0, 0, a, 0, 0, 0, b]
    ensures DecodeCounts([0, 0, 0, a, 0, 0, 0, b]) == [a as u32, b as u32]
  {
    var counts: seq<u32> := [a as u32, b as u32];
    assert counts[1..][1..] == [];
    assert EncodeCounts(counts) == WordBytes(a as u32) + WordBytes(b as u32);
    DecodeEncode(counts);
  }

  lemma PayloadsDecode()
    ensures EncodeCounts([6, 7]) == PAYLOAD_A && DecodeCounts(PAYLOAD_A) == [6, 7]
    ensures EncodeCounts([1, 2]) == PAYLOAD_B && DecodeCounts(PAYLOAD_B) == [1, 2]
  {
    SmallPair(6, 7);
    SmallPair(1, 2);
  }

  /** The header's frames: the first one starts the running sum, the second one adds to it. */
  lemma FramesAdd()
    ensures ProcessSpec(None, FrameOf(HEADER, [6, 7])) == (Some(FIRST_ONLY), Pass)
    ensures ProcessSpec(Some(FIRST_ONLY), FrameOf(HEADER, [1, 2])) == (Some(BOTH), Pass)
  {
    var a := FrameOf(HEADER, [6, 7]);
    var b := FrameOf(HEADER, [1, 2]);
    assert a.binEdges == [0, 100, 200] == b.binEdges;
    ProcessFrameEffect(None, a);
    var first := ProcessSpec(None, a).0.value;
    assert first.values64 == [6, 7] by {
      assert Started(None, a).values64[0] == 0 && Started(None, a).values64[1] == 0;
    }
    ProcessFrameEffect(Some(FIRST_ONLY), b);
    var both := ProcessSpec(Some(FIRST_ONLY), b).0.value;
    assert both.values64 == [7, 9];
  }

  /** A line without a newline, then a newline: the first newline ends the line. */
  lemma LineThenRest(text: seq<byte>, rest: seq<byte>)
    requires NEWLINE !in text
    ensures var data := text + [NEWLINE] + rest;
      FirstNewline(data) == Some(|text|) && data[..|text|] == text && data[|text| + 1..] == rest
  {
    var data := text + [NEWLINE] + rest;
    assert data[..|text|] == text;
    FirstNewlineAt(data, |text|);
    assert data[|text| + 1..] == rest;
  }

  /** The header line is taken as the header, whatever follows it. */
  lemma HeaderRecognised()
    ensures CString(HEADER_TEXT) == HEADER_TEXT && HeaderParse(HEADER_TEXT) == Some(HEADER)
  {
    HeaderTextPlain();
    CStringWhole(HEADER_TEXT);
  }

  /** With nothing buffered, a delivery that fits the buffer is taken whole. */
  lemma DeliveryArrives(parse: Parser, bytes: Packet, rest: Stream, sum: Option<Snapshot>)
    requires |bytes| <= MAX_BUFFER_SIZE - 1 && SumValid(sum)
    ensures Scan(parse, [], Link(Chunk(bytes, rest), true), sum) == ScanData(parse, bytes, Link(rest, true), sum)
  {
    var link := Link(Chunk(bytes, rest), true);
    assert Recv(link, MAX_BUFFER_SIZE - 1) == Received(Link(rest, true), |bytes|, bytes);
    ScanReceives(parse, [], link, sum);
    assert [] + bytes == bytes;
  }

  /** A delivery that fits behind what is buffered is appended to it. */
  lemma DeliveryAppended(parse: Parser, buffered: seq<byte>, bytes: Packet, rest: Stream, sum: Option<Snapshot>)
    requires |buffered| + |bytes| <= MAX_BUFFER_SIZE - 1 && |buffered| <= MAX_BUFFER_SIZE - 2 && SumValid(sum)
    ensures Scan(parse, buffered, Link(Chunk(bytes, rest), true), sum)
         == ScanData(parse, buffered + bytes, Link(rest, true), sum)
  {
    var link := Link(Chunk(bytes, rest), true);
    assert Recv(link, MAX_BUFFER_SIZE - |buffered| - 1) == Received(Link(rest, true), |bytes|, bytes);
    ScanReceives(parse, buffered, link, sum);
  }

  /** A buffer holding just the header line: the line is handled with nothing buffered after it. */
  lemma HeaderLineHandled(link: Link, sum: Option<Snapshot>)
    requires SumValid(sum)
    ensures var step := HandleLine(HeaderParse, HEADER_TEXT, [], link, sum);
      step.keepGoing ==> ScanData(HeaderParse, HEADER_LINE, link, sum) == Scan(HeaderParse, [], step.link, step.sum)
  {
    HeaderTextPlain();
    LineThenRest(HEADER_TEXT, []);
    assert HEADER_LINE == HEADER_TEXT + [NEWLINE] + [];
    if HandleLine(HeaderParse, HEADER_TEXT, [], link, sum).keepGoing {
      ScanAfterLine(HeaderParse, HEADER_LINE, link, sum, 58);
    }
  }

  /** With nothing buffered, a payload delivered on its own is read whole by `receive_exact`. */
  lemma PayloadFetched(payload: Packet, rest: Stream)
    requires |payload| == 8
    ensures FetchPayload([], 8, Link(Chunk(payload, rest), true)) == Exact(Link(rest, true), true, payload)
  {
    var link := Link(Chunk(payload, rest), true);
    assert Recv(link, 8).link == Link(rest, true);
    assert RecvExact(link, 8) == Exact(Link(rest, true), true, payload + []);
    assert [] + (payload + []) == payload;
  }

  /** A payload already buffered behind its header, with more bytes after it, is taken from the buffer alone. */
  lemma PayloadBuffered(more: seq<byte>, link: Link)
    ensures FetchPayload(PAYLOAD_A + more, 8, link) == Exact(link, true, PAYLOAD_A)
  {
    assert (PAYLOAD_A + more)[..8] == PAYLOAD_A && PAYLOAD_A + [] == PAYLOAD_A;
  }

  // ---------------------------------------------------------------------
  // Header and payload in deliveries of their own
  // ---------------------------------------------------------------------

  /**
   * With nothing buffered, a header line delivered on its own followed by
   * its payload delivered on its own adds that frame to the running sum,
   * and the loop goes on with an empty buffer after the payload.
   */
  lemma FrameInOwnDeliveries(payload: Packet, rest: Stream, sum: Option<Snapshot>)
    requires |payload| == 8 && SumValid(sum)
    ensures Scan(HeaderParse, [], Link(Chunk(HEADER_LINE, Chunk(payload, rest)), true), sum)
         == Scan(HeaderParse, [], Link(rest, true), ProcessSpec(sum, FrameOf(HEADER, DecodeCounts(payload))).0)
  {
    var link := Link(Chunk(payload, rest), true);
    DeliveryArrives(HeaderParse, HEADER_LINE, Chunk(payload, rest), sum);
    PayloadFetched(payload, rest);
    HeaderRecognised();
    HeaderLineHandled(link, sum);
  }

  /** Header and payload of each frame in deliveries of their own. */
  function Apart(): Stream {
    Chunk(HEADER_LINE, Chunk(PAYLOAD_A, Chunk(HEADER_LINE, Chunk(PAYLOAD_B, Closed))))
  }

  /** Both frames are counted. */
  lemma ApartCountsBoth()
    ensures var r := Scan(HeaderParse, [], Link(Apart(), true), None);
      !r.link.connected && r.sum == Some(BOTH)
  {
    PayloadsDecode();
    FramesAdd();
    FrameInOwnDeliveries(PAYLOAD_A, Chunk(HEADER_LINE, Chunk(PAYLOAD_B, Closed)), None);
    FrameInOwnDeliveries(PAYLOAD_B, Closed, Some(FIRST_ONLY));
    ScanEndsOnReceive(HeaderParse, [], Link(Closed, true), Some(BOTH));
  }

  // ---------------------------------------------------------------------
  // Each header and its payload in one delivery
  // ---------------------------------------------------------------------

  /** The second header right behind the first payload, in the same delivery. */
  function Together(): Stream {
    Chunk(HEADER_LINE + PAYLOAD_A + HEADER_LINE, Chunk(PAYLOAD_B, Closed))
  }

  /** The first header, with its payload and the next header line buffered behind it. */
  lemma TogetherFirstLine(link: Link)
    ensures HandleLine(HeaderParse, HEADER_TEXT, PAYLOAD_A + HEADER_LINE, link, None) == Step(true, link, Some(FIRST_ONLY))
    ensures HandleLineStrict(HeaderParse, HEADER_TEXT, PAYLOAD_A + HEADER_LINE, link, None) == Step(true, link, Some(FIRST_ONLY))
    ensures Consumed(HeaderParse, HEADER_TEXT, PAYLOAD_A + HEADER_LINE) == 8
  {
    HeaderRecognised();
    PayloadBuffered(HEADER_LINE, link);
    PayloadsDecode();
    FramesAdd();
  }

  /** The first buffer: the header line, then the payload and the next header line behind it. */
  lemma TogetherSplit()
    ensures var data := HEADER_LINE + PAYLOAD_A + HEADER_LINE;
      && FirstNewline(data) == Some(58)
      && data[..58] == HEADER_TEXT && data[59..] == PAYLOAD_A + HEADER_LINE
      && data[59 + 8..] == HEADER_LINE
  {
    HeaderTextPlain();
    LineThenRest(HEADER_TEXT, PAYLOAD_A + HEADER_LINE);
    assert HEADER_LINE + PAYLOAD_A + HEADER_LINE == HEADER_TEXT + [NEWLINE] + (PAYLOAD_A + HEADER_LINE);
  }

  /**
   * The first pass: the payload is taken from the buffer, but the buffer
   * keeps it, so it is still there, in front of the second header line.
   */
  lemma TogetherFirstPass(link: Link)
    ensures ScanData(HeaderParse, HEADER_LINE + PAYLOAD_A + HEADER_LINE, link, None)
         == Scan(HeaderParse, PAYLOAD_A + HEADER_LINE, link, Some(FIRST_ONLY))
  {
    TogetherSplit();
    TogetherFirstLine(link);
    ScanAfterLine(HeaderParse, HEADER_LINE + PAYLOAD_A + HEADER_LINE, link, None, 58);
  }

  /**
   * The second pass: the first newline now ends a "line" that starts with
   * the old payload, whose first byte is 0, so the parser sees empty text
   * and the second header is skipped; its payload is left in the buffer.
   */
  lemma TogetherSecondPass(link: Link, sum: Option<Snapshot>)
    requires SumValid(sum)
    ensures ScanData(HeaderParse, PAYLOAD_A + HEADER_LINE + PAYLOAD_B, link, sum)
         == Scan(HeaderParse, PAYLOAD_B, link, sum)
  {
    HeaderTextPlain();
    var stale := PAYLOAD_A + HEADER_TEXT;
    assert stale[0] == NUL;
    assert NEWLINE !in stale;
    LineThenRest(stale, PAYLOAD_B);
    var data := PAYLOAD_A + HEADER_LINE + PAYLOAD_B;
    assert data == stale + [NEWLINE] + PAYLOAD_B;
    assert CString(stale) == [];
    ScanAfterLine(HeaderParse, data, link, sum, 66);
  }

  /** The code loses the second frame: the sum is [6, 7], not [7, 9]. */
  lemma TogetherLosesSecond()
    ensures var r := Scan(HeaderParse, [], Link(Together(), true), None);
      !r.link.connected && r.sum == Some(FIRST_ONLY) && r.sum != Some(BOTH)
  {
    TogetherFirstDelivery();
    TogetherSecondDelivery();
  }

  /** The first delivery: the first frame is counted, and its payload stays buffered. */
  lemma TogetherFirstDelivery()
    ensures Scan(HeaderParse, [], Link(Together(), true), None)
         == Scan(HeaderParse, PAYLOAD_A + HEADER_LINE, Link(Chunk(PAYLOAD_B, Closed), true), Some(FIRST_ONLY))
  {
    HeaderTextPlain();
    DeliveryArrives(HeaderParse, HEADER_LINE + PAYLOAD_A + HEADER_LINE, Chunk(PAYLOAD_B, Closed), None);
    TogetherFirstPass(Link(Chunk(PAYLOAD_B, Closed), true));
  }

  /** The second delivery: the second payload is appended, the second header skipped, and the peer closes. */
  lemma TogetherSecondDelivery()
    ensures var r := Scan(HeaderParse, PAYLOAD_A + HEADER_LINE, Link(Chunk(PAYLOAD_B, Closed), true), Some(FIRST_ONLY));
      !r.link.connected && r.sum == Some(FIRST_ONLY)
  {
    HeaderTextPlain();
    DeliveryAppended(HeaderParse, PAYLOAD_A + HEADER_LINE, PAYLOAD_B, Closed, Some(FIRST_ONLY));
    TogetherSecondPass(Link(Closed, true), Some(FIRST_ONLY));
    ScanEndsOnReceive(HeaderParse, PAYLOAD_B, Link(Closed, true), Some(FIRST_ONLY));
  }

  /** The designed loop, once the connection has nothing more: an empty buffer ends it with the sum as it is. */
  lemma FixedDrained(sum: Option<Snapshot>)
    requires SumValid(sum)
    ensures ScanDataFixed(HeaderParse, [], Link(Closed, true), sum).sum == sum
  {
    FixedWithoutLine(HeaderParse, [], Link(Closed, true), sum);
    FixedEndsOnReceive(HeaderParse, [], Link(Closed, true), sum);
  }

  /** The designed loop: a buffer holding just the second header line, its payload still to come. */
  lemma FixedSecondFrame()
    ensures ScanDataFixed(HeaderParse, HEADER_LINE, Link(Chunk(PAYLOAD_B, Closed), true), Some(FIRST_ONLY)).sum == Some(BOTH)
  {
    var link := Link(Chunk(PAYLOAD_B, Closed), true);
    HeaderTextPlain();
    LineThenRest(HEADER_TEXT, []);
    assert HEADER_LINE == HEADER_TEXT + [NEWLINE] + [];
    HeaderRecognised();
    PayloadFetched(PAYLOAD_B, Closed);
    PayloadsDecode();
    FramesAdd();
    assert HandleLineStrict(HeaderParse, HEADER_TEXT, [], link, Some(FIRST_ONLY)) == Step(true, Link(Closed, true), Some(BOTH));
    FixedAfterLine(HeaderParse, HEADER_LINE, link, Some(FIRST_ONLY), 58);
    assert HEADER_LINE[58 + 1 + 0..] == [];
    FixedDrained(Some(BOTH));
  }

  /** The designed loop, with nothing buffered: a delivery that fits the buffer is taken whole. */
  lemma FixedDeliveryArrives(parse: Parser, bytes: Packet, rest: Stream, sum: Option<Snapshot>)
    requires |bytes| <= MAX_BUFFER_SIZE - 1 && SumValid(sum)
    ensures ScanFixed(parse, [], Link(Chunk(bytes, rest), true), sum) == ScanDataFixed(parse, bytes, Link(rest, true), sum)
  {
    var link := Link(Chunk(bytes, rest), true);
    assert bytes[..|bytes|] == bytes;
    assert Recv(link, MAX_BUFFER_SIZE - 1) == Received(Link(rest, true), |bytes|, bytes);
    FixedReceives(parse, [], link, sum);
    assert [] + bytes == bytes;
  }

  /** The designed loop, on the first delivery: the first frame is counted and its payload dropped. */
  lemma FixedFirstFrame(link: Link)
    ensures ScanDataFixed(HeaderParse, HEADER_LINE + PAYLOAD_A + HEADER_LINE, link, None)
         == ScanDataFixed(HeaderParse, HEADER_LINE, link, Some(FIRST_ONLY))
  {
    TogetherSplit();
    TogetherFirstLine(link);
    FixedAfterLine(HeaderParse, HEADER_LINE + PAYLOAD_A + HEADER_LINE, link, None, 58);
  }

  /** The designed loop counts both frames: the sum is [7, 9]. */
  lemma FixedCountsBoth()
    ensures ScanFixed(HeaderParse, [], Link(Together(), true), None).sum == Some(BOTH)
  {
    var link := Link(Chunk(PAYLOAD_B, Closed), true);
    HeaderTextPlain();
    FixedDeliveryArrives(HeaderParse, HEADER_LINE + PAYLOAD_A + HEADER_LINE, Chunk(PAYLOAD_B, Closed), None);
    FixedFirstFrame(link);
    FixedSecondFrame();
  }

  // ---------------------------------------------------------------------
  // A whole frame behind another line, in one delivery
  // ---------------------------------------------------------------------

  /** A one-byte line ("x"), then a whole frame, in a single delivery before the peer closes. */
  function Crowded(): Stream {
    Chunk([120, NEWLINE] + (HEADER_LINE + PAYLOAD_A), Closed)
  }

  /** The line "x" is not a header. */
  lemma OtherLineIgnored()
    ensures HeaderParse(CString([120])) == None
  {
    assert CString([120]) == [120];
    HeaderTextPlain();
  }

  /** A one-byte line, then anything: the newline is the second byte. */
  lemma ShortLineThenRest(rest: seq<byte>)
    ensures var data := [120, NEWLINE] + rest;
      FirstNewline(data) == Some(1) && data[..1] == [120] && data[2..] == rest
  {
    LineThenRest([120], rest);
    assert [120, NEWLINE] + rest == [120] + [NEWLINE] + rest;
  }

  /** The code skips the line "x" and waits for the next delivery, keeping the rest of the buffer. */
  lemma OtherLineDropped(rest: seq<byte>, link: Link, sum: Option<Snapshot>)
    requires |rest| <= MAX_BUFFER_SIZE - 3 && SumValid(sum)
    ensures ScanData(HeaderParse, [120, NEWLINE] + rest, link, sum) == Scan(HeaderParse, Trim(rest), link, sum)
  {
    var data := [120, NEWLINE] + rest;
    ShortLineThenRest(rest);
    OtherLineIgnored();
    assert HandleLine(HeaderParse, data[..1], data[2..], link, sum) == Step(true, link, sum);
    ScanAfterLine(HeaderParse, data, link, sum, 1);
  }

  /**
   * The code handles one line per `receive`: the frame behind the line "x"
   * is buffered but never handled, because the next `receive` finds the
   * connection closed. No frame reaches the running sum.
   */
  lemma BufferedFrameIgnored()
    ensures var r := Scan(HeaderParse, [], Link(Crowded(), true), None);
      !r.link.connected && r.sum == None
  {
    var link := Link(Closed, true);
    HeaderTextPlain();
    DeliveryArrives(HeaderParse, [120, NEWLINE] + (HEADER_LINE + PAYLOAD_A), Closed, None);
    OtherLineDropped(HEADER_LINE + PAYLOAD_A, link, None);
    ScanEndsOnReceive(HeaderParse, Trim(HEADER_LINE + PAYLOAD_A), link, None);
  }

  /** The designed loop, on the frame behind the line: the header, with its payload buffered behind it. */
  lemma FixedBufferedFrame()
    ensures ScanDataFixed(HeaderParse, HEADER_LINE + PAYLOAD_A, Link(Closed, true), None).sum == Some(FIRST_ONLY)
  {
    var link := Link(Closed, true);
    HeaderTextPlain();
    LineThenRest(HEADER_TEXT, PAYLOAD_A);
    assert HEADER_LINE + PAYLOAD_A == HEADER_TEXT + [NEWLINE] + PAYLOAD_A;
    HeaderRecognised();
    PayloadBuffered([], link);
    assert PAYLOAD_A + [] == PAYLOAD_A;
    PayloadsDecode();
    FramesAdd();
    assert HandleLineStrict(HeaderParse, HEADER_TEXT, PAYLOAD_A, link, None) == Step(true, link, Some(FIRST_ONLY));
    FixedAfterLine(HeaderParse, HEADER_LINE + PAYLOAD_A, link, None, 58);
    assert (HEADER_LINE + PAYLOAD_A)[58 + 1 + 8..] == [];
    FixedDrained(Some(FIRST_ONLY));
  }

  /** The designed loop handles every buffered line, so the frame is counted: the sum is [6, 7]. */
  lemma FixedHandlesBufferedFrame()
    ensures ScanFixed(HeaderParse, [], Link(Crowded(), true), None).sum == Some(FIRST_ONLY)
  {
    HeaderTextPlain();
    FixedDeliveryArrives(HeaderParse, [120, NEWLINE] + (HEADER_LINE + PAYLOAD_A), Closed, None);
    FixedOtherLine(HEADER_LINE + PAYLOAD_A, Link(Closed, true), None);
    FixedBufferedFrame();
  }

  /** The designed loop skips the line "x" and goes on with the rest of the buffer. */
  lemma FixedOtherLine(rest: seq<byte>, link: Link, sum: Option<Snapshot>)
    requires |rest| <= MAX_BUFFER_SIZE - 3 && SumValid(sum)
    ensures ScanDataFixed(HeaderParse, [120, NEWLINE] + rest, link, sum) == ScanDataFixed(HeaderParse, rest, link, sum)
  {
    var data := [120, NEWLINE] + rest;
    ShortLineThenRest(rest);
    OtherLineIgnored();
    assert HandleLineStrict(HeaderParse, data[..1], data[2..], link, sum) == Step(true, link, sum);
    assert Consumed(HeaderParse, data[..1], data[2..]) == 0;
    FixedAfterLine(HeaderParse, data, link, sum, 1);
  }
}
