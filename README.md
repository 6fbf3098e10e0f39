# TPX3 time-of-flight histogram client, modelled in Dafny

`tpx3_histogram.cpp` is a TCP client that receives time-of-flight (TOF)
histograms from a Timepix3 (TPX3) server. The server sends one frame at a
time. Each frame is a line of JSON text (`frameNumber`, `binSize`,
`binWidth`, `binOffset`) ending in `'\n'`, followed by `binSize` big-endian
32-bit bin counts. The client builds a `FRAME_DATA` histogram for each frame
and adds it to a `RUNNING_SUM` histogram with 64-bit counts that saturate at
`UINT64_MAX`.

The model has three layers, one per piece of the program:

- `histogram.dfy` models `HistogramData`. It is a class whose fields are the
  five members of the C++ object. Its constructor, bounds- and type-checked
  accessors, `calculate_bin_edges` and `add_histogram` are proved against
  value-level functions (`Blank`, `BinEdges`, `Add`) on the `Snapshot`
  datatype.
- `processor.dfy` models `HistogramProcessor`. The class holds the
  `running_sum_` pointer (null until the first frame), and `ProcessFrame` is
  proved against `ProcessSpec`. `Accumulate` folds `ProcessSpec` over a run
  of frames. Lemmas give its closed form and show that the frame order does
  not matter.
- `net.dfy`, `decoder.dfy` and `app.dfy` model the receive side.
  - `net.dfy`: `NetworkClient::receive` and `receive_exact` over an abstract
    `Stream`, the runs of bytes the peer still sends, ending in an orderly
    close or an I/O error.
  - `app.dfy`: `TPX3HistogramApp::run` and `process_data_line` as methods
    over the 32768-byte `line_buffer` array. They are proved against the
    value-level loop `Scan`/`ScanData` and the line handler `HandleLine` in
    `decoder.dfy`.
  - `decoder.dfy`: the pure functions and lemmas. They cover the wire format
    (big-endian words and their round trips) and what one line or one
    whole run does to the connection and to the running sum.
- `intended.dfy` holds the receive loop as the protocol design describes
  it, next to the loop the code implements: a bin-count mismatch ends the
  run with the running sum unmodified, the payload bytes a header takes
  from the buffer are dropped from it, and every complete line already
  buffered is handled before the next `receive`. It reuses the code's
  `receive`, `receive_exact`, payload fetch and merge.
- `scenarios.dfy` holds whole runs on small fixed inputs. They show how the
  way the peer splits its bytes into deliveries decides which frames reach
  the running sum, for the code's loop and for the designed one. The header
  they use is the text `{"frameNumber":1,"binSize":2,"binWidth":100,"binOffset":0}`.

The JSON parser (json-c) is a parameter `parse` of type `Parser`. It maps
the C string at the start of the buffer to the four header integers, or to
None when the text does not parse or a key is missing. Bin edges are kept
in integer clock ticks, exactly as the `size_t` expression
`bin_offset + i * bin_width` computes them, that is modulo 2^64.

## Model

| member | source | states |
|---|---|---|
| Histogram.Blank | tpx3_histogram.cpp:54-64 | a new histogram of N bins has N + 1 edges, all zero, and N zero counts in the vector of its type; the other vector is empty |
| Histogram.HistogramData.constructor | tpx3_histogram.cpp:54-64 | the object built for (N, type) holds exactly `Blank(N, type)` |
| Histogram.HistogramData.GetBinValue32 | tpx3_histogram.cpp:130-135 | succeeds if and only if the type is FRAME_DATA and the index is in range, then returns that count; otherwise `out_of_range` |
| Histogram.HistogramData.GetBinValue64 | tpx3_histogram.cpp:137-142 | succeeds if and only if the type is RUNNING_SUM and the index is in range, then returns that count; otherwise `out_of_range` |
| Histogram.HistogramData.SetBinEdge | tpx3_histogram.cpp:145-150 | `out_of_range` exactly when the index is past the last edge, and then nothing changes; otherwise only that edge changes |
| Histogram.HistogramData.SetBinValue32 | tpx3_histogram.cpp:152-157 | `out_of_range` exactly on a wrong type or index, and then nothing changes; otherwise only that 32-bit count changes |
| Histogram.HistogramData.SetBinValue64 | tpx3_histogram.cpp:159-164 | `out_of_range` exactly on a wrong type or index, and then nothing changes; otherwise only that 64-bit count changes |
| Histogram.BinEdges | tpx3_histogram.cpp:167-171 | a histogram of N bins gets N + 1 edges |
| Histogram.BinEdgesLinear | tpx3_histogram.cpp:167-171 | for non-negative width and offset whose last edge fits in 64 bits, edge i is offset + i * width, edge 0 is the offset, and the edges never decrease |
| Histogram.HistogramData.CalculateBinEdges | tpx3_histogram.cpp:167-171 | replaces the edges by `BinEdges(N, width, offset)` and changes nothing else |
| Histogram.AddWithOverflowCheck | tpx3_histogram.cpp:183-190 | the wrapping 64-bit addition followed by the "sum went down" test gives min(acc + v, UINT64_MAX) |
| Histogram.MergeCounts | tpx3_histogram.cpp:183-191 | after a merge, bin i holds min(old[i] + frame[i], UINT64_MAX) and the length is kept |
| Histogram.SaturationSticky | tpx3_histogram.cpp:183-191 | a merge never lowers a bin and never wraps; a bin at UINT64_MAX stays there; a sum past the maximum is clamped to it |
| Histogram.MergeCommutes | tpx3_histogram.cpp:183-191 | merging two frames in either order gives the same counts |
| Histogram.Add | tpx3_histogram.cpp:174-193 | succeeds if and only if the other histogram is FRAME_DATA, this one is RUNNING_SUM and the sizes match, and otherwise fails with `invalid_argument`; on success only the 64-bit counts change, to the clamped sums |
| Histogram.HistogramData.AddHistogram | tpx3_histogram.cpp:174-193 | does what `Add` says; on either error nothing has changed, because both checks come before the loop |
| Processor.Started | tpx3_histogram.cpp:380-391 | the sum `process_frame` adds into: the existing one, or a new RUNNING_SUM with the frame's size, the frame's edges and zero counts |
| Processor.ProcessSpec | tpx3_histogram.cpp:377-395 | after any frame a well-formed running sum exists |
| Processor.ProcessFrameEffect | tpx3_histogram.cpp:377-395 | size and edges come from the first frame and never change after it; the merge succeeds exactly for a FRAME_DATA frame of the sum's size; a rejected frame leaves the counts alone; otherwise each bin gains the frame's count, clamped |
| Processor.MismatchLeavesSum | tpx3_histogram.cpp:179-181 | a frame whose size differs from the established sum is rejected with `invalid_argument` and leaves the sum as it was |
| Processor.Accumulate | tpx3_histogram.cpp:377-395 | `process_frame` applied to each frame in turn; there is a sum exactly when at least one frame was processed |
| Processor.AccumulateClosedForm | tpx3_histogram.cpp:377-395 | after frames F1..Fk of one size, the sum has that size and F1's edges, and bin i is min(F1[i] + ... + Fk[i], UINT64_MAX) |
| Processor.BinTotalPermutation | tpx3_histogram.cpp:183-191 | the exact total of a bin is the same for any reordering of the frames |
| Processor.AccumulateOrderIndependent | tpx3_histogram.cpp:377-395 | processing the same frames of one size in any order gives the same counts |
| Processor.HistogramProcessor.constructor | tpx3_histogram.cpp:361 | a new processor has no running sum |
| Processor.HistogramProcessor.ProcessFrame | tpx3_histogram.cpp:377-395 | the new running sum and the outcome are `ProcessSpec` of the old sum and the frame; an existing sum object is updated in place, and the first frame allocates it |
| Net.Recv | tpx3_histogram.cpp:309-327 | returns a positive count exactly when connected, asked for at least one byte and the peer has bytes left; then it returns at most the requested number of bytes and stays connected; a result of 0 or -1 returns no bytes and clears `connected_`; when not connected it returns -1 and changes nothing |
| Net.RecvConsumes | tpx3_histogram.cpp:309-327 | a `receive` removes from the stream at least as many bytes as it returns |
| Net.RecvTakesPrefix | tpx3_histogram.cpp:309-327 | the bytes returned are the next bytes of the stream, in order, and what is left is the rest of it; the count is positive exactly when bytes are available |
| Net.RecvExact | tpx3_histogram.cpp:335-349 | on success exactly n bytes arrived; on failure the client is disconnected and nothing is returned |
| Net.RecvExactConsumes | tpx3_histogram.cpp:335-349 | `receive_exact` never adds bytes to the stream |
| Net.RecvExactStops | tpx3_histogram.cpp:340-343 | a round whose `receive` returns 0 or less ends the call unsuccessfully |
| Net.RecvExactContinues | tpx3_histogram.cpp:339-346 | a successful round adds its bytes to those received and leaves a smaller request |
| Net.RecvExactTakesPrefix | tpx3_histogram.cpp:335-349 | however the peer split its bytes into deliveries, `receive_exact(n)` succeeds exactly when n bytes are available, and then returns the next n bytes and leaves the rest |
| Net.CopyInto | tpx3_histogram.cpp:314 | the bytes `recv` hands over are written at the offset and nothing else in the buffer changes |
| Net.NetworkClient.constructor | tpx3_histogram.cpp:281-282 | a client just after a successful `connect`: connected, with the whole stream ahead of it |
| Net.NetworkClient.Receive | tpx3_histogram.cpp:309-327 | the count and the new state are those of `Recv`, and the buffer changes only by the returned bytes at the offset |
| Net.NetworkClient.ReceiveRound | tpx3_histogram.cpp:339-346 | one pass of the `receive_exact` loop keeps the loop's invariant: the bytes so far followed by the rest of the call give the whole call's result |
| Net.NetworkClient.ReceiveExact | tpx3_histogram.cpp:335-349 | the success flag and the new state are those of `RecvExact`; on success its bytes are written at the offset and nothing else changes |
| Decoder.CString | tpx3_histogram.cpp:554 | the text the parser reads is the longest prefix of the buffer without a NUL |
| Decoder.FirstNewline | tpx3_histogram.cpp:512 | the position `memchr` finds holds a newline with none before it; there is none exactly when the bytes hold no newline |
| Decoder.FirstNewlineAt | tpx3_histogram.cpp:512 | a newline with none before it is the one `memchr` finds |
| Decoder.WordOfBytes | tpx3_histogram.cpp:609-612 | a count sent as four big-endian bytes is read back as the same count |
| Decoder.BytesOfWord | tpx3_histogram.cpp:609-612 | every four bytes are the big-endian encoding of the count read from them |
| Decoder.DecodeCounts | tpx3_histogram.cpp:609-612 | a payload of 4N bytes gives N counts |
| Decoder.DecodeEncode | tpx3_histogram.cpp:609-612 | decoding the payload the server sends for counts c gives back c |
| Decoder.EncodeDecode | tpx3_histogram.cpp:609-612 | every whole-word payload is the encoding of the counts decoded from it |
| Decoder.FrameOf | tpx3_histogram.cpp:578-581 | the frame built from a header and its counts is a well-formed FRAME_DATA histogram of the header's size |
| Decoder.FetchPayload | tpx3_histogram.cpp:584-607 | on success the payload has 4N bytes and starts with the buffered bytes after the newline; on failure the client is disconnected and fewer than 4N bytes were buffered |
| Decoder.FetchPayloadTakesPrefix | tpx3_histogram.cpp:584-607 | the payload is complete exactly when the buffered bytes and the rest of the stream hold 4N bytes, and it is then the first 4N of them; what the stream still holds afterwards is exactly what the fetch did not need |
| Decoder.HandleLine | tpx3_histogram.cpp:552-639 | handling a line keeps the running sum well formed; it says stop only when the connection is gone |
| Decoder.HandleLineEffect | tpx3_histogram.cpp:552-639 | a line that does not parse or lacks a key, and a header whose negative binSize makes the frame constructor throw, change nothing and let the loop go on; otherwise the loop goes on exactly when the payload is complete, the frame added is decoded from its bytes, and a failed `receive_exact` leaves the sum unchanged; when the loop goes on, the stream has lost exactly the payload bytes that were not buffered |
| Decoder.HandleLineKeepsGeometry | tpx3_histogram.cpp:629 | once the running sum exists, no line changes its size or its edges |
| Decoder.Trim | tpx3_histogram.cpp:530-533 | after buffer-full handling at most MAX_BUFFER_SIZE - 2 bytes are kept: all of them when fewer than MAX_BUFFER_SIZE - 1 are buffered, none otherwise |
| Decoder.Scan | tpx3_histogram.cpp:497-534 | the loop ends only once the connection is gone, with a well-formed running sum |
| Decoder.ScanData | tpx3_histogram.cpp:510-533 | the rest of a pass ends only once the connection is gone, with a well-formed running sum |
| Decoder.ScanEndsOnReceive | tpx3_histogram.cpp:499-506 | a `receive` returning 0 or less ends the loop with the sum unchanged |
| Decoder.ScanReceives | tpx3_histogram.cpp:499-509 | a successful `receive` appends its bytes to the buffer |
| Decoder.ScanWithoutLine | tpx3_histogram.cpp:512-533 | without a newline the buffer is kept, or dropped once full |
| Decoder.ScanEndsOnLine | tpx3_histogram.cpp:512-519 | a line whose handler says stop ends the loop |
| Decoder.ScanAfterLine | tpx3_histogram.cpp:512-533 | after a handled line the buffer becomes exactly the bytes after the first newline, or nothing once full |
| Decoder.ScanDisconnected | tpx3_histogram.cpp:497 | the loop does not start on a disconnected client |
| Decoder.ScanKeepsGeometry | tpx3_histogram.cpp:497-534 | once the running sum exists, the whole loop never changes its size or its edges |
| Decoder.ScanDataKeepsGeometry | tpx3_histogram.cpp:510-533 | the same for the rest of a pass |
| Decoder.ScanDrained | tpx3_histogram.cpp:497-534 | once the peer has nothing more to send, the loop ends with the running sum as it is |
| Decoder.CStringWhole | tpx3_histogram.cpp:554 | text without a NUL byte is read by the parser whole |
| Decoder.FrameBytes | tpx3_histogram.cpp:510-612 | the bytes of one frame on the wire: the header text, the newline, then the 4N payload bytes |
| Decoder.ReceivePart | tpx3_histogram.cpp:499-509 | while part of a frame is still to come, a `receive` appends the next bytes of it to the buffer, stays connected, fits the buffer and shrinks the stream |
| Decoder.HeaderArrives | tpx3_histogram.cpp:497-534 | a loop that has buffered part of a frame's header line, with the rest of the frame still in the stream, adds exactly that frame to the running sum |
| Decoder.HeaderDataArrives | tpx3_histogram.cpp:510-533 | the same for a pass whose buffer holds any prefix of the frame |
| Decoder.HeaderPayloadHandled | tpx3_histogram.cpp:552-639 | a header line whose payload is split between the buffer and the stream in any way adds the frame and leaves nothing in the stream |
| Decoder.FrameBufferSplit | tpx3_histogram.cpp:512 | a buffer holding the whole header line of a frame finds its newline at the end of the header text, and the bytes after it start the payload |
| Decoder.HeaderLineCompletes | tpx3_histogram.cpp:510-533 | once the header line is complete in the buffer, the pass adds the frame and the loop ends with it when the peer closes |
| Decoder.SingleFrameAnySplit | tpx3_histogram.cpp:494-534 | a single frame decodes the same however the peer splits its bytes into deliveries: the running sum becomes `process_frame` of the frame |
| App.FindNewline | tpx3_histogram.cpp:512 | the `memchr` loop returns `FirstNewline` of the filled part of the buffer |
| App.ShiftDown | tpx3_histogram.cpp:522-526 | `memmove` puts the `remaining` bytes at the start and leaves the rest of the buffer alone |
| App.StoreCounts | tpx3_histogram.cpp:609-613 | the conversion loop leaves the frame's counts equal to `DecodeCounts` of the payload, and nothing else changes |
| App.CopyBuffered | tpx3_histogram.cpp:588-595 | copies min(remaining, 4N) buffered bytes to the start of the payload |
| App.HistogramApp.constructor | tpx3_histogram.cpp:469 | a new application over a connected client has no running sum yet |
| App.HistogramApp.ProcessDataLine | tpx3_histogram.cpp:552-639 | the result, the new connection state and the new running sum are those of `HandleLine` for the text before the newline and the bytes after it |
| App.HistogramApp.ReadPayload | tpx3_histogram.cpp:584-607 | the success flag, the new connection state and the payload bytes are those of `FetchPayload` |
| App.HistogramApp.Run | tpx3_histogram.cpp:494-534 | the final connection and running sum are those of `Scan` from an empty buffer |
| App.HistogramApp.Receive | tpx3_histogram.cpp:498-533 | one pass keeps the loop invariant: `Scan` of the new buffer and state gives the same result as before, the fill count stays at most MAX_BUFFER_SIZE - 2, and the stream shrinks; or the loop ends with `Scan`'s result |
| App.HistogramApp.Dispatch | tpx3_histogram.cpp:510-533 | the newline and buffer-full part of a pass, stated against `ScanData` |
| App.HistogramApp.TakeLine | tpx3_histogram.cpp:512-527 | hands the line to `process_data_line` and then moves exactly the bytes after the newline to the start of the buffer |
| Intended.HandleLineStrict | tpx3_histogram.cpp:552-639 | `process_data_line` with a fatal mismatch: it keeps the running sum well formed and never lengthens the stream |
| Intended.Consumed | tpx3_histogram.cpp:588-595 | the payload bytes a header line takes from the buffer, min(remaining, 4N), never more than is buffered |
| Intended.AfterPayload | tpx3_histogram.cpp:522-526 | what the designed loop keeps after a line: a suffix of the buffer behind the newline and the consumed payload bytes |
| Intended.ScanFixed | tpx3_histogram.cpp:497-534 | the designed loop ends with a well-formed running sum |
| Intended.ScanDataFixed | tpx3_histogram.cpp:510-533 | every buffered line is handled in turn, again with a well-formed running sum |
| Intended.FixedEndsOnReceive | tpx3_histogram.cpp:499-506 | in the designed loop, a `receive` returning 0 or less ends the run with the sum unchanged |
| Intended.FixedReceives | tpx3_histogram.cpp:499-509 | in the designed loop, a successful `receive` appends its bytes to the buffer |
| Intended.FixedWithoutLine | tpx3_histogram.cpp:512-533 | in the designed loop, a buffer without a newline is kept, or dropped once full, before the next `receive` |
| Intended.FixedAfterLine | tpx3_histogram.cpp:512-527 | in the designed loop, after a handled line the buffer resumes behind the consumed payload bytes, without a `receive` in between |
| Intended.FixedEndsOnLine | tpx3_histogram.cpp:512-519 | in the designed loop, a line whose handler says stop ends the run |
| Intended.MismatchGoesOn | tpx3_histogram.cpp:633-635 | as written: a complete frame of another size is dropped, the sum stays, and the loop goes on |
| Intended.MismatchAborts | tpx3_histogram.cpp:633-635 | as designed: the same frame ends the run with the sum unmodified |
| Scenarios.SmallPair | tpx3_histogram.cpp:609-612 | two counts below 256 are sent as three zero bytes before each count, and are decoded back |
| Scenarios.PayloadsDecode | tpx3_histogram.cpp:609-612 | the two payloads used in the runs encode the counts [6, 7] and [1, 2] |
| Scenarios.FramesAdd | tpx3_histogram.cpp:377-395 | the first frame starts a sum with edges 0, 100, 200; the second adds to it, giving [7, 9]; both are accepted |
| Scenarios.DeliveryArrives | tpx3_histogram.cpp:499-509 | with an empty buffer, a delivery that fits is taken whole |
| Scenarios.DeliveryAppended | tpx3_histogram.cpp:499-509 | a delivery that fits behind the buffered bytes is appended to them |
| Scenarios.HeaderLineHandled | tpx3_histogram.cpp:512-527 | a buffer holding just a header line is handled with nothing buffered after the newline |
| Scenarios.PayloadFetched | tpx3_histogram.cpp:597-607 | a payload delivered on its own is read whole by `receive_exact` |
| Scenarios.FrameInOwnDeliveries | tpx3_histogram.cpp:494-534 | a header line and its payload, each in its own delivery, add the frame and leave the buffer empty |
| Scenarios.ApartCountsBoth | tpx3_histogram.cpp:494-534 | two frames whose headers and payloads arrive in separate deliveries both reach the running sum: [7, 9] |
| Scenarios.TogetherFirstLine | tpx3_histogram.cpp:584-595 | a payload already buffered behind its header is taken from the buffer, without touching the connection |
| Scenarios.TogetherFirstPass | tpx3_histogram.cpp:522-526 | after that, the buffer still holds the copied payload, in front of the next header line |
| Scenarios.TogetherSecondPass | tpx3_histogram.cpp:512-527 | the next "line" starts with the old payload's NUL byte, so the parser sees empty text and the second header is skipped |
| Scenarios.TogetherLosesSecond | tpx3_histogram.cpp:494-534 | when each header and its payload share a delivery, the second frame is lost and the sum is [6, 7], not [7, 9] |
| Scenarios.TogetherFirstDelivery | tpx3_histogram.cpp:494-534 | the first delivery of that run adds the first frame and leaves its payload buffered in front of the second header |
| Scenarios.TogetherSecondDelivery | tpx3_histogram.cpp:494-534 | the second delivery adds nothing, and the run ends when the peer closes |
| Scenarios.HeaderTextPlain | tpx3_histogram.cpp:554 | the 58-byte header text holds no newline and no NUL |
| Scenarios.LineThenRest | tpx3_histogram.cpp:512 | in a line without a newline followed by a newline, the first newline ends that line |
| Scenarios.HeaderRecognised | tpx3_histogram.cpp:554-575 | the header text is read whole and parsed as frame 1 with two bins of width 100 at offset 0 |
| Scenarios.PayloadBuffered | tpx3_histogram.cpp:588-595 | a payload already buffered, with more bytes behind it, is taken from the buffer alone |
| Scenarios.TogetherSplit | tpx3_histogram.cpp:512 | the first delivery of that run has its newline at byte 58, with the first payload and the second header line behind it |
| Scenarios.FixedDrained | tpx3_histogram.cpp:497-534 | the designed loop, with nothing buffered and the peer closed, ends with the sum as it is |
| Scenarios.FixedDeliveryArrives | tpx3_histogram.cpp:499-509 | in the designed loop, with an empty buffer, a delivery that fits is taken whole |
| Scenarios.FixedFirstFrame | tpx3_histogram.cpp:510-533 | the designed loop adds the first frame and resumes at the second header line |
| Scenarios.FixedSecondFrame | tpx3_histogram.cpp:510-533 | the designed loop then fetches the second payload and adds it, giving [7, 9] |
| Scenarios.FixedCountsBoth | tpx3_histogram.cpp:494-534 | when each header and its payload share a delivery, the designed loop counts both frames: [7, 9] |
| Scenarios.OtherLineIgnored | tpx3_histogram.cpp:554-575 | the line "x" is not a header |
| Scenarios.ShortLineThenRest | tpx3_histogram.cpp:512 | in a one-byte line followed by anything, the newline is the second byte |
| Scenarios.OtherLineDropped | tpx3_histogram.cpp:510-533 | the code skips the line "x" and waits for the next `receive`, keeping what follows it |
| Scenarios.BufferedFrameIgnored | tpx3_histogram.cpp:494-534 | as written: a whole frame buffered behind another line in the last delivery is never handled, and no sum exists |
| Scenarios.FixedOtherLine | tpx3_histogram.cpp:510-533 | the designed loop skips the line "x" and goes straight on with the rest of the buffer |
| Scenarios.FixedBufferedFrame | tpx3_histogram.cpp:510-533 | the designed loop handles a buffered header with its payload behind it, giving [6, 7] |
| Scenarios.FixedHandlesBufferedFrame | tpx3_histogram.cpp:494-534 | as designed: the frame behind the other line is handled, giving [6, 7] |

## How the code behaves where the design says otherwise

`Decoder` and `App` follow the code. In three places the code does
something other than what the protocol design describes. `Intended`
models the designed loop, and for each place the table below names a
member that shows the code's behaviour and one that proves the designed
behaviour. A single frame is not affected by any of the three:
`SingleFrameAnySplit` shows that it is decoded the same however the peer
splits it into deliveries.

## Findings

| source | as written | input that shows it | evidently intended | confidence | as-written member | corrected member |
|---|---|---|---|---|---|---|
| tpx3_histogram.cpp:633-635 | the `invalid_argument` from a bin-count mismatch is caught and `process_data_line` still returns true, so the loop goes on | a running sum of 2 bins, then a complete frame whose header says 3 bins | a mismatch aborts the run and leaves the running sum unmodified | high (not executed) | Intended.MismatchGoesOn | Intended.MismatchAborts |
| tpx3_histogram.cpp:522-526 | the compaction keeps every byte after the newline, including the payload bytes already copied into the frame, which are then scanned again as text | `Together()`: one delivery holding header, payload [6, 7] and the next header line, then payload [1, 2], then close | the consumed payload bytes are dropped, and both frames are counted: [7, 9] | high (not executed) | Scenarios.TogetherLosesSecond | Scenarios.FixedCountsBoth |
| tpx3_histogram.cpp:512 | only the first newline is examined after each `receive`, so lines still buffered when the peer closes are never handled | `Crowded()`: one delivery holding the line "x", a header line and its payload, then close | every complete buffered line is handled before the next `receive`: the sum is [6, 7] | high (not executed) | Scenarios.BufferedFrameIgnored | Scenarios.FixedHandlesBufferedFrame |

## Left out

- Sockets: `socket`, `setsockopt`, `connect`, `disconnect` and the
  destructor (tpx3_histogram.cpp:208-296) are left out as operating-system
  I/O. The client starts connected (`NetworkClient.constructor`), and `recv`
  is replaced by the abstract `Stream`.
- Net.Recv: an `EAGAIN`/`EWOULDBLOCK` error (a receive timeout) leaves
  `connected_` set in the code, but the model treats every error as
  clearing it. Both `run` and `receive_exact` stop on any negative result,
  so only the flag after the loop differs.
- JSON parsing (json-c, tpx3_histogram.cpp:554-575) is a foreign library.
  It is the parameter `parse`, so `frameNumber` is read but otherwise
  unused, as in the code. The freeing of the JSON object is left out.
- Floating point: edges are integer ticks. The multiplication by
  `TPX3_TDC_CLOCK_PERIOD_SEC` and the rounding to `double`
  (tpx3_histogram.cpp:33, 169) are left out, and so is the conversion of
  the copied edges back through `double` in `process_frame`.
- Histogram.BinEdgesLinear: states the linear form only for non-negative
  width and offset whose last edge stays below 2^64. `BinEdges` itself
  models the `size_t` wrap-around for all inputs.
- File output is left out: `save_running_sum` and `save_histogram_to_file`
  (tpx3_histogram.cpp:397, 413-458) write files with `std::scientific`
  formatting.
- The mutex and `get_running_sum` (tpx3_histogram.cpp:378, 404-407, 460)
  exist only for concurrency. The model is sequential.
- Copy and move constructors and assignments (tpx3_histogram.cpp:67-119,
  366-371) are replaced by Dafny values.
- Console output (tpx3_histogram.cpp:616-631 and the messages elsewhere),
  `main` and its argument parsing (tpx3_histogram.cpp:648-675), directory
  creation (tpx3_histogram.cpp:485) and the unused `MAX_BINS` are left out.
- Allocation failure is left out: a huge `binSize` whose vectors cannot be
  allocated throws `bad_alloc`, and the handler at 633-635 would skip the
  frame. The model assumes every allocation succeeds. The one failure it
  does model is a negative `binSize`, whose conversion to `size_t` makes
  the constructor throw.
- The host is assumed little-endian, so that `__builtin_bswap32` of the
  copied bytes reads them big-endian, as on the platforms the code is
  built for.
- `run`'s exit codes and the `catch` at tpx3_histogram.cpp:535-538 are
  left out. No exception reaches that handler in the model.
