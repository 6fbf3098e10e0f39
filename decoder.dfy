/**
 * The wire format the application decodes and the behaviour of its receive
 * loop, as values.
 *
 * The server sends, for every frame, one line of JSON text ending in '\n'
 * and then the frame's counts as 4 * binSize bytes, each count a big-endian
 * 32-bit word. The client reads into a 32768-byte line buffer, handles the
 * first newline found after each `receive`, and reads whatever part of the
 * payload is not yet buffered straight from the socket.
 *
 * Parsing the JSON text (json-c) is outside this model: the application is
 * parameterised by a `Parser` that maps the text before the first NUL to
 * the four integers it looks up, or to None when the text does not parse
 * or one of the keys is missing.
 */
module Decoder {
  import opened Common
  import opened Histogram
  import opened Processor
  import opened Net

  /** The size of the line buffer, `MAX_BUFFER_SIZE`. */
  const MAX_BUFFER_SIZE: nat := 32768
  const NEWLINE: byte := 10
  const NUL: byte := 0

  /** The four header fields, each read with `json_object_get_int`. */
  datatype Header = Header(frameNumber: int32, binSize: int32, binWidth: int32, binOffset: int32)

  /** JSON parsing plus the lookup of "frameNumber", "binSize", "binWidth" and "binOffset". */
  type Parser = seq<byte> -> Option<Header>

  // ---------------------------------------------------------------------
  // Text
  // ---------------------------------------------------------------------

  /** The C string that starts the buffer: the bytes before the first NUL. */
  function CString(s: seq<byte>): (r: seq<byte>)
    ensures r <= s
    ensures NUL !in r
    ensures |r| < |s| ==> s[|r|] == NUL
  {
    if s == [] || s[0] == NUL then [] else [s[0]] + CString(s[1..])
  }

  /** The position `memchr` finds: the first newline, if any. */
  function FirstNewline(s: seq<byte>): (r: Option<nat>)
    ensures r.Some? ==> r.value < |s| && s[r.value] == NEWLINE && NEWLINE !in s[..r.value]
    ensures r.None? <==> NEWLINE !in s
  {
    if s == [] then None
    else if s[0] == NEWLINE then Some(0)
    else
      match FirstNewline(s[1..])
      case None => None
      case Some(i) =>
        assert s[..i + 1] == [s[0]] + s[1..][..i];
        Some(i + 1)
  }

  /** The first newline is the one with no newline before it. */
  lemma {:induction false} FirstNewlineAt(s: seq<byte>, k: nat)
    requires k < |s| && s[k] == NEWLINE && NEWLINE !in s[..k]
    ensures FirstNewline(s) == Some(k)
  {
    if k > 0 {
      assert s[0] == s[..k][0];
      assert s[1..][..k - 1] == s[1..k];
      FirstNewlineAt(s[1..], k - 1);
    }
  }

  // ---------------------------------------------------------------------
  // Counts on the wire
  // ---------------------------------------------------------------------

  /**
   * One count as the code reads it: four bytes copied into a `uint32_t` on
   * a little-endian host, then byte-swapped, i.e. the bytes read big-endian.
   */
  function Word(b: seq<byte>): u32
    requires |b| == 4
  {
    (b[0] as int) * 0x100_0000 + (b[1] as int) * 0x1_0000 + (b[2] as int) * 0x100 + b[3] as int
  }

  /** The four bytes the server sends for one count, most significant first. */
  function WordBytes(v: u32): (r: seq<byte>)
    ensures |r| == 4
  {
    var high := v % 0x100_0000;
    var low := high % 0x1_0000;
    [v / 0x100_0000, high / 0x1_0000, low / 0x100, low % 0x100]
  }

  lemma WordOfBytes(v: u32)
    ensures Word(WordBytes(v)) == v
  {
  }

  lemma BytesOfWord(b: seq<byte>)
    requires |b| == 4
    ensures WordBytes(Word(b)) == b
  {
    var v := Word(b);
    var low := (b[2] as int) * 0x100 + b[3];
    var high := (b[1] as int) * 0x1_0000 + low;
    assert v == (b[0] as int) * 0x100_0000 + high;
    assert v / 0x100_0000 == b[0] && v % 0x100_0000 == high;
    assert high / 0x1_0000 == b[1] && high % 0x1_0000 == low;
    assert low / 0x100 == b[2] && low % 0x100 == b[3];
  }

  /** The counts the conversion loop stores: count i from bytes 4i .. 4i + 3. */
  function DecodeCounts(payload: seq<byte>): (r: seq<u32>)
    ensures |r| == |payload| / 4
  {
    seq(|payload| / 4, i requires 0 <= i < |payload| / 4 => Word(payload[4 * i .. 4 * i + 4]))
  }

  /** The payload the server sends for a frame's counts. */
  function EncodeCounts(counts: seq<u32>): (r: seq<byte>)
    ensures |r| == 4 * |counts|
  {
    if counts == [] then [] else WordBytes(counts[0]) + EncodeCounts(counts[1..])
  }

  lemma {:induction false} EncodeCountsAt(counts: seq<u32>, i: nat)
    requires i < |counts|
    ensures EncodeCounts(counts)[4 * i .. 4 * i + 4] == WordBytes(counts[i])
  {
    if i > 0 {
      EncodeCountsAt(counts[1..], i - 1);
      assert EncodeCounts(counts) == WordBytes(counts[0]) + EncodeCounts(counts[1..]);
    }
  }

  /** Decoding recovers every count the server encoded. */
  lemma DecodeEncode(counts: seq<u32>)
    ensures DecodeCounts(EncodeCounts(counts)) == counts
  {
    var r := DecodeCounts(EncodeCounts(counts));
    forall i | 0 <= i < |counts|
      ensures r[i] == counts[i]
    {
      EncodeCountsAt(counts, i);
      WordOfBytes(counts[i]);
    }
  }

  /** Every whole-word payload is the encoding of the counts decoded from it. */
  lemma EncodeDecode(payload: seq<byte>)
    requires |payload| % 4 == 0
    ensures EncodeCounts(DecodeCounts(payload)) == payload
  {
    var counts := DecodeCounts(payload);
    var e := EncodeCounts(counts);
    forall t | 0 <= t < |payload|
      ensures e[t] == payload[t]
    {
      var i := t / 4;
      EncodeCountsAt(counts, i);
      BytesOfWord(payload[4 * i .. 4 * i + 4]);
      assert e[t] == e[4 * i .. 4 * i + 4][t - 4 * i];
    }
  }

  // ---------------------------------------------------------------------
  // One data line (`process_data_line`)
  // ---------------------------------------------------------------------

  /** The frame histogram built from a header and its decoded counts. */
  function FrameOf(h: Header, counts: seq<u32>): (f: Snapshot)
    requires 0 <= h.binSize && |counts| == h.binSize
    ensures f.Valid() && f.dataType == FrameData && f.binSize == h.binSize
  {
    Snapshot(h.binSize, FrameData, BinEdges(h.binSize, h.binWidth, h.binOffset), counts, [])
  }

  /** What handling one line leaves: whether to go on, the connection, and the running sum. */
  datatype Step = Step(keepGoing: bool, link: Link, sum: Option<Snapshot>)

  /**
   * `process_data_line` for the line `line` (the bytes before the newline)
   * when `after` (the bytes after it) are also in the buffer. A line that
   * is not a header, and a header whose negative binSize makes the frame's
   * construction throw, are skipped. Otherwise the payload is the buffered
   * bytes after the newline, as many as are needed, completed from the
   * socket with `receive_exact`; failing that ends the loop. The decoded
   * frame is handed to `process_frame`, whose rejection of a frame of the
   * wrong size is caught and skipped.
   */
  function HandleLine(parse: Parser, line: seq<byte>, after: seq<byte>, link: Link, sum: Option<Snapshot>): (r: Step)
    requires SumValid(sum)
    ensures SumValid(r.sum)
    ensures !r.keepGoing ==> !r.link.connected
    ensures |Prefix(r.link.incoming)| <= |Prefix(link.incoming)|
  {
    match parse(CString(line))
    case None => Step(true, link, sum)
    case Some(h) =>
      if h.binSize < 0 then Step(true, link, sum)
      else
        var payload := FetchPayload(after, 4 * h.binSize, link);
        if !payload.ok then Step(false, payload.link, sum)
        else Step(true, payload.link, ProcessSpec(sum, FrameOf(h, DecodeCounts(payload.data))).0)
  }

  /**
   * The payload of a frame: the first `needed` bytes of `after` (the bytes
   * already buffered behind the newline), completed, when they fall short,
   * by `receive_exact` on the connection.
   */
  function FetchPayload(after: seq<byte>, needed: nat, link: Link): (r: Exact)
    ensures r.ok ==> |r.data| == needed && r.data[..Min(|after|, needed)] == after[..Min(|after|, needed)]
    ensures !r.ok ==> !r.link.connected && |after| < needed
    ensures |Prefix(r.link.incoming)| <= |Prefix(link.incoming)|
  {
    var copied := after[..Min(|after|, needed)];
    RecvExactConsumes(link, needed - |copied|);
    Joined(copied, if |copied| < needed then RecvExact(link, needed - |copied|) else Exact(link, true, []))
  }

  /**
   * However the peer split its bytes into deliveries, the payload is
   * complete exactly when the buffered bytes and what the connection still
   * delivers add up to `needed`, and it is then the first `needed` of them.
   */
  lemma FetchPayloadTakesPrefix(after: seq<byte>, needed: nat, link: Link)
    ensures var r := FetchPayload(after, needed, link);
      && (r.ok <==> |after| + |Available(link)| >= needed)
      && (r.ok ==> r.data == (after + Available(link))[..needed])
      && (r.ok ==> Available(r.link) == Available(link)[needed - Min(|after|, needed)..])
  {
    var k := Min(|after|, needed);
    if k < needed {
      RecvExactTakesPrefix(link, needed - k);
      if RecvExact(link, needed - k).ok {
        assert (after + Available(link))[..needed] == after + Available(link)[..needed - k];
      }
    } else {
      assert Available(link)[needed - k..] == Available(link);
      assert (after + Available(link))[..needed] == after[..needed];
    }
  }

  /**
   * `process_data_line` in terms of the stream: a line that does not parse
   * or lacks a key, and a header with a negative binSize, change nothing;
   * otherwise the loop goes on exactly when the buffered bytes and the rest
   * of the stream hold the whole payload, the frame added to the running
   * sum is decoded from the first 4 * binSize of those bytes, and a failed
   * `receive_exact` leaves the running sum as it was.
   */
  lemma HandleLineEffect(parse: Parser, line: seq<byte>, after: seq<byte>, link: Link, sum: Option<Snapshot>)
    requires SumValid(sum)
    ensures var r := HandleLine(parse, line, after, link, sum);
      match parse(CString(line))
      case None => r == Step(true, link, sum)
      case Some(h) =>
        if h.binSize < 0 then r == Step(true, link, sum)
        else
          var needed := 4 * h.binSize;
          && (r.keepGoing <==> |after| + |Available(link)| >= needed)
          && (r.keepGoing ==>
                r.sum == ProcessSpec(sum, FrameOf(h, DecodeCounts((after + Available(link))[..needed]))).0)
          && (r.keepGoing ==> Available(r.link) == Available(link)[needed - Min(|after|, needed)..])
          && (!r.keepGoing ==> r.sum == sum)
  {
    match parse(CString(line))
    case None =>
    case Some(h) =>
      if h.binSize >= 0 {
        FetchPayloadTakesPrefix(after, 4 * h.binSize, link);
      }
  }

  /** Once the running sum exists, handling a line never changes its size or edges. */
  lemma HandleLineKeepsGeometry(parse: Parser, line: seq<byte>, after: seq<byte>, link: Link, sum: Option<Snapshot>)
    requires SumValid(sum) && sum.Some?
    ensures var r := HandleLine(parse, line, after, link, sum);
      r.sum.Some? && r.sum.value.binSize == sum.value.binSize && r.sum.value.binEdges == sum.value.binEdges
  {
    match parse(CString(line))
    case None =>
    case Some(h) =>
      if h.binSize >= 0 {
        var payload := FetchPayload(after, 4 * h.binSize, link);
        if payload.ok {
          ProcessFrameEffect(sum, FrameOf(h, DecodeCounts(payload.data)));
        }
      }
  }

  // ---------------------------------------------------------------------
  // The receive loop (`run`)
  // ---------------------------------------------------------------------

  /** The connection and the running sum when the loop ends. */
  datatype Final = Final(link: Link, sum: Option<Snapshot>)

  /** Buffer-full handling: a buffer holding MAX_BUFFER_SIZE - 1 bytes is dropped. */
  function Trim(buffered: seq<byte>): (r: seq<byte>)
    ensures |r| <= MAX_BUFFER_SIZE - 2
    ensures |buffered| < MAX_BUFFER_SIZE - 1 ==> r == buffered
    ensures |buffered| >= MAX_BUFFER_SIZE - 1 ==> r == []
  {
    if |buffered| >= MAX_BUFFER_SIZE - 1 then [] else buffered
  }

  /**
   * The loop of `run`, from a buffer holding `buffered`: while connected,
   * `receive` up to the space left (keeping one byte for the NUL) and stop
   * on a result <= 0; otherwise go on with the grown buffer.
   */
  function Scan(parse: Parser, buffered: seq<byte>, link: Link, sum: Option<Snapshot>): (r: Final)
    requires |buffered| <= MAX_BUFFER_SIZE - 2 && SumValid(sum)
    ensures SumValid(r.sum)
    ensures !r.link.connected
    decreases |Prefix(link.incoming)|, 0
  {
    if !link.connected then Final(link, sum)
    else
      var got := Recv(link, MAX_BUFFER_SIZE - |buffered| - 1);
      RecvConsumes(link, MAX_BUFFER_SIZE - |buffered| - 1);
      if got.count <= 0 then Final(got.link, sum)
      else ScanData(parse, buffered + got.data, got.link, sum)
  }

  /**
   * The rest of one pass of the loop once the buffer holds `data`: handle
   * the first newline, if any, and keep what follows it, then drop a full
   * buffer.
   */
  function ScanData(parse: Parser, data: seq<byte>, link: Link, sum: Option<Snapshot>): (r: Final)
    requires |data| <= MAX_BUFFER_SIZE - 1 && SumValid(sum)
    ensures SumValid(r.sum)
    ensures !r.link.connected
    decreases |Prefix(link.incoming)|, 1
  {
    match FirstNewline(data)
    case None => Scan(parse, Trim(data), link, sum)
    case Some(nl) =>
      var step := HandleLine(parse, data[..nl], data[nl + 1..], link, sum);
      if !step.keepGoing then Final(step.link, step.sum)
      else Scan(parse, Trim(data[nl + 1..]), step.link, step.sum)
  }

  // One pass of the loop, each outcome on its own.

  lemma ScanEndsOnReceive(parse: Parser, buffered: seq<byte>, link: Link, sum: Option<Snapshot>)
    requires |buffered| <= MAX_BUFFER_SIZE - 2 && SumValid(sum) && link.connected
    requires Recv(link, MAX_BUFFER_SIZE - |buffered| - 1).count <= 0
    ensures Scan(parse, buffered, link, sum) == Final(Recv(link, MAX_BUFFER_SIZE - |buffered| - 1).link, sum)
  {
  }

  lemma ScanReceives(parse: Parser, buffered: seq<byte>, link: Link, sum: Option<Snapshot>)
    requires |buffered| <= MAX_BUFFER_SIZE - 2 && SumValid(sum) && link.connected
    requires Recv(link, MAX_BUFFER_SIZE - |buffered| - 1).count > 0
    ensures var got := Recv(link, MAX_BUFFER_SIZE - |buffered| - 1);
      Scan(parse, buffered, link, sum) == ScanData(parse, buffered + got.data, got.link, sum)
  {
  }

  lemma ScanWithoutLine(parse: Parser, data: seq<byte>, link: Link, sum: Option<Snapshot>)
    requires |data| <= MAX_BUFFER_SIZE - 1 && SumValid(sum)
    requires FirstNewline(data).None?
    ensures ScanData(parse, data, link, sum) == Scan(parse, Trim(data), link, sum)
  {
  }

  lemma ScanEndsOnLine(parse: Parser, data: seq<byte>, link: Link, sum: Option<Snapshot>, nl: nat)
    requires |data| <= MAX_BUFFER_SIZE - 1 && SumValid(sum)
    requires FirstNewline(data) == Some(nl)
    requires !HandleLine(parse, data[..nl], data[nl + 1..], link, sum).keepGoing
    ensures var step := HandleLine(parse, data[..nl], data[nl + 1..], link, sum);
      ScanData(parse, data, link, sum) == Final(step.link, step.sum)
  {
  }

  lemma ScanAfterLine(parse: Parser, data: seq<byte>, link: Link, sum: Option<Snapshot>, nl: nat)
    requires |data| <= MAX_BUFFER_SIZE - 1 && SumValid(sum)
    requires FirstNewline(data) == Some(nl)
    requires HandleLine(parse, data[..nl], data[nl + 1..], link, sum).keepGoing
    ensures var step := HandleLine(parse, data[..nl], data[nl + 1..], link, sum);
      ScanData(parse, data, link, sum) == Scan(parse, Trim(data[nl + 1..]), step.link, step.sum)
  {
  }

  lemma ScanDisconnected(parse: Parser, buffered: seq<byte>, link: Link, sum: Option<Snapshot>)
    requires |buffered| <= MAX_BUFFER_SIZE - 2 && SumValid(sum) && !link.connected
    ensures Scan(parse, buffered, link, sum) == Final(link, sum)
  {
  }

  /** Once the running sum exists, the whole loop never changes its size or edges. */
  lemma {:induction false} ScanKeepsGeometry(parse: Parser, buffered: seq<byte>, link: Link, sum: Option<Snapshot>)
    requires |buffered| <= MAX_BUFFER_SIZE - 2 && SumValid(sum) && sum.Some?
    ensures var r := Scan(parse, buffered, link, sum);
      r.sum.Some? && r.sum.value.binSize == sum.value.binSize && r.sum.value.binEdges == sum.value.binEdges
    decreases |Prefix(link.incoming)|, 0
  {
    if link.connected {
      var got := Recv(link, MAX_BUFFER_SIZE - |buffered| - 1);
      RecvConsumes(link, MAX_BUFFER_SIZE - |buffered| - 1);
      if got.count > 0 {
        ScanDataKeepsGeometry(parse, buffered + got.data, got.link, sum);
      }
    }
  }

  lemma {:induction false} ScanDataKeepsGeometry(parse: Parser, data: seq<byte>, link: Link, sum: Option<Snapshot>)
    requires |data| <= MAX_BUFFER_SIZE - 1 && SumValid(sum) && sum.Some?
    ensures var r := ScanData(parse, data, link, sum);
      r.sum.Some? && r.sum.value.binSize == sum.value.binSize && r.sum.value.binEdges == sum.value.binEdges
    decreases |Prefix(link.incoming)|, 1
  {
    match FirstNewline(data)
    case None =>
      ScanWithoutLine(parse, data, link, sum);
      ScanKeepsGeometry(parse, Trim(data), link, sum);
    case Some(nl) =>
      HandleLineKeepsGeometry(parse, data[..nl], data[nl + 1..], link, sum);
      var step := HandleLine(parse, data[..nl], data[nl + 1..], link, sum);
      if step.keepGoing {
        ScanAfterLine(parse, data, link, sum, nl);
        ScanKeepsGeometry(parse, Trim(data[nl + 1..]), step.link, step.sum);
      } else {
        ScanEndsOnLine(parse, data, link, sum, nl);
      }
  }

  // ---------------------------------------------------------------------
  // One frame, however it is split into deliveries
  // ---------------------------------------------------------------------

  /** With nothing left to read, the loop ends with the running sum as it is. */
  lemma ScanDrained(parse: Parser, buffered: seq<byte>, link: Link, sum: Option<Snapshot>)
    requires |buffered| <= MAX_BUFFER_SIZE - 2 && SumValid(sum) && Available(link) == []
    ensures Scan(parse, buffered, link, sum).sum == sum
  {
    if link.connected {
      RecvTakesPrefix(link, MAX_BUFFER_SIZE - |buffered| - 1);
      ScanEndsOnReceive(parse, buffered, link, sum);
    } else {
      ScanDisconnected(parse, buffered, link, sum);
    }
  }

  /** Text without a NUL is read whole. */
  lemma CStringWhole(s: seq<byte>)
    requires NUL !in s
    ensures CString(s) == s
  {
  }

  /** The bytes of one frame as the server sends them: the header line, then the payload. */
  function FrameBytes(line: seq<byte>, counts: seq<u32>): (r: seq<byte>)
    ensures |r| == |line| + 1 + 4 * |counts|
    ensures r[..|line|] == line && r[|line|] == NEWLINE && r[|line| + 1..] == EncodeCounts(counts)
  {
    line + [NEWLINE] + EncodeCounts(counts)
  }

  /** The header conditions under which one frame is decoded. */
  ghost predicate GoodHeader(parse: Parser, line: seq<byte>, h: Header, counts: seq<u32>) {
    && NUL !in line && NEWLINE !in line && |line| + 1 <= MAX_BUFFER_SIZE - 2
    && parse(line) == Some(h) && 0 <= h.binSize == |counts|
  }

  /** A `receive` while bytes of `whole` are still to come hands over the next of them. */
  lemma ReceivePart(buffered: seq<byte>, link: Link, whole: seq<byte>)
    requires link.connected && |buffered| <= MAX_BUFFER_SIZE - 2
    requires |buffered| < |whole| && buffered + Available(link) == whole
    ensures var got := Recv(link, MAX_BUFFER_SIZE - |buffered| - 1);
      && got.count > 0 && got.link.connected
      && |buffered + got.data| <= MAX_BUFFER_SIZE - 1
      && (buffered + got.data) + Available(got.link) == whole
      && |Prefix(got.link.incoming)| < |Prefix(link.incoming)|
  {
    var max := MAX_BUFFER_SIZE - |buffered| - 1;
    var got := Recv(link, max);
    RecvTakesPrefix(link, max);
    RecvConsumes(link, max);
    assert |buffered| + |Available(link)| == |whole|;
    assert got.data + Available(got.link) == Available(link);
    assert (buffered + got.data) + Available(got.link) == buffered + (got.data + Available(got.link));
  }

  /**
   * While the header line is still arriving (`buffered` is part of it),
   * the loop adds exactly that frame, whatever the remaining deliveries.
   */
  lemma {:induction false} HeaderArrives(parse: Parser, line: seq<byte>, h: Header, counts: seq<u32>,
                                         buffered: seq<byte>, link: Link, sum: Option<Snapshot>)
    requires SumValid(sum) && link.connected && GoodHeader(parse, line, h, counts)
    requires |buffered| <= |line| && buffered + Available(link) == FrameBytes(line, counts)
    ensures Scan(parse, buffered, link, sum).sum == ProcessSpec(sum, FrameOf(h, counts)).0
    decreases |Prefix(link.incoming)|, 0
  {
    ReceivePart(buffered, link, FrameBytes(line, counts));
    var got := Recv(link, MAX_BUFFER_SIZE - |buffered| - 1);
    HeaderDataArrives(parse, line, h, counts, buffered + got.data, got.link, sum);
    ScanReceives(parse, buffered, link, sum);
  }

  /** The same once a delivery has been appended to the buffer. */
  lemma {:induction false} HeaderDataArrives(parse: Parser, line: seq<byte>, h: Header, counts: seq<u32>,
                                             data: seq<byte>, link: Link, sum: Option<Snapshot>)
    requires SumValid(sum) && link.connected && GoodHeader(parse, line, h, counts)
    requires |data| <= MAX_BUFFER_SIZE - 1 && data + Available(link) == FrameBytes(line, counts)
    ensures ScanData(parse, data, link, sum).sum == ProcessSpec(sum, FrameOf(h, counts)).0
    decreases |Prefix(link.incoming)|, 1
  {
    var whole := FrameBytes(line, counts);
    if |data| <= |line| {
      assert data == whole[..|data|] == line[..|data|];
      assert NEWLINE !in data;
      ScanWithoutLine(parse, data, link, sum);
      HeaderArrives(parse, line, h, counts, data, link, sum);
    } else {
      HeaderLineCompletes(parse, line, h, counts, data, link, sum);
    }
  }

  /** A good header whose payload is exactly what is buffered and still to come: the frame is added, and nothing is left. */
  lemma HeaderPayloadHandled(parse: Parser, line: seq<byte>, h: Header, counts: seq<u32>,
                             after: seq<byte>, link: Link, sum: Option<Snapshot>)
    requires SumValid(sum) && GoodHeader(parse, line, h, counts)
    requires after + Available(link) == EncodeCounts(counts)
    ensures var step := HandleLine(parse, line, after, link, sum);
      && step.keepGoing
      && step.sum == ProcessSpec(sum, FrameOf(h, counts)).0
      && Available(step.link) == []
  {
    CStringWhole(line);
    HandleLineEffect(parse, line, after, link, sum);
    DecodeEncode(counts);
    assert (after + Available(link))[..4 * h.binSize] == EncodeCounts(counts);
  }

  /** A buffer holding the whole header line: its first newline ends the line, and the payload follows. */
  lemma FrameBufferSplit(line: seq<byte>, counts: seq<u32>, data: seq<byte>, rest: seq<byte>)
    requires NEWLINE !in line && |line| < |data| && data + rest == FrameBytes(line, counts)
    ensures FirstNewline(data) == Some(|line|)
    ensures data[..|line|] == line && data[|line| + 1..] + rest == EncodeCounts(counts)
  {
    var whole := FrameBytes(line, counts);
    var n := |line|;
    assert data[..n] == whole[..n];
    assert data[n] == whole[n];
    FirstNewlineAt(data, n);
    assert whole[n + 1..] == (data + rest)[n + 1..] == data[n + 1..] + rest;
  }

  /** The buffer holds the whole header line: the frame is read, added, and nothing is left. */
  lemma HeaderLineCompletes(parse: Parser, line: seq<byte>, h: Header, counts: seq<u32>,
                            data: seq<byte>, link: Link, sum: Option<Snapshot>)
    requires SumValid(sum) && GoodHeader(parse, line, h, counts)
    requires |line| < |data| <= MAX_BUFFER_SIZE - 1 && data + Available(link) == FrameBytes(line, counts)
    ensures ScanData(parse, data, link, sum).sum == ProcessSpec(sum, FrameOf(h, counts)).0
  {
    var n := |line|;
    FrameBufferSplit(line, counts, data, Available(link));
    var after := data[n + 1..];
    HeaderPayloadHandled(parse, line, h, counts, after, link, sum);
    var step := HandleLine(parse, line, after, link, sum);
    assert step == HandleLine(parse, data[..n], data[n + 1..], link, sum);
    ScanAfterLine(parse, data, link, sum, n);
    ScanDrained(parse, Trim(after), step.link, step.sum);
  }

  /**
   * A single frame, a header line followed by its payload, is added to the
   * running sum however its bytes are split into deliveries.
   */
  lemma SingleFrameAnySplit(parse: Parser, line: seq<byte>, h: Header, counts: seq<u32>, s: Stream, sum: Option<Snapshot>)
    requires SumValid(sum) && GoodHeader(parse, line, h, counts)
    requires Prefix(s) == FrameBytes(line, counts)
    ensures Scan(parse, [], Link(s, true), sum).sum == ProcessSpec(sum, FrameOf(h, counts)).0
  {
    assert [] + Available(Link(s, true)) == Prefix(s);
    HeaderArrives(parse, line, h, counts, [], Link(s, true), sum);
  }
}
