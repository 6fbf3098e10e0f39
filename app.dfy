/**
 * `TPX3HistogramApp`: the receive loop of `run` over a line buffer of
 * MAX_BUFFER_SIZE bytes, and `process_data_line`, which decodes one frame
 * and hands it to the processor. Both are proved against the value-level
 * `Scan` and `HandleLine`.
 */
module App {
  import opened Common
  import opened Histogram
  import opened Processor
  import opened Net
  import opened Decoder

  /** `memchr(buf, '\n', count)`: the first newline among the first `count` bytes. */
  method FindNewline(buf: array<byte>, count: nat) returns (pos: Option<nat>)
    requires count <= buf.Length
    ensures pos == FirstNewline(buf[..count])
  {
    var i := 0;
    while i < count
      invariant i <= count
      invariant NEWLINE !in buf[..count][..i]
    {
      if buf[i] == NEWLINE {
        return Some(i);
      }
      assert buf[..count][..i + 1] == buf[..count][..i] + [buf[i]];
      i := i + 1;
    }
    assert buf[..count][..i] == buf[..count];
    return None;
  }

  /** `memmove(buf, buf + from, count)`: moves `count` bytes down to the start of the buffer. */
  method ShiftDown(buf: array<byte>, from: nat, count: nat)
    requires from + count <= buf.Length
    modifies buf
    ensures buf[..count] == old(buf[from..from + count])
    ensures buf[count..] == old(buf[count..])
  {
    var j := 0;
    while j < count
      invariant j <= count
      invariant forall t :: 0 <= t < j ==> buf[t] == old(buf[from + t])
      invariant forall t :: j <= t < buf.Length ==> buf[t] == old(buf[t])
    {
      buf[j] := buf[from + j];
      j := j + 1;
    }
  }

  /** The conversion loop of `process_data_line`: count i is bytes 4i .. 4i + 3, byte-swapped. */
  method StoreCounts(frame: HistogramData, payload: array<byte>)
    requires frame.Valid() && frame.dataType == FrameData && payload.Length == 4 * frame.binSize
    modifies frame
    ensures frame.View() == old(frame.View()).(values32 := DecodeCounts(payload[..]))
  {
    ghost var counts := DecodeCounts(payload[..]);
    var i := 0;
    while i < frame.binSize
      invariant i <= frame.binSize
      invariant frame.View() == old(frame.View()).(values32 := frame.values32)
      invariant |frame.values32| == frame.binSize
      invariant forall k :: 0 <= k < i ==> frame.values32[k] == counts[k]
    {
      var written := frame.SetBinValue32(i, Word(payload[4 * i..4 * i + 4]));
      i := i + 1;
    }
  }

  /**
   * The first part of the payload: as many of the bytes buffered from
   * `start` on as the payload needs, copied to its start.
   */
  method CopyBuffered(buf: array<byte>, start: nat, totalRead: nat, payload: array<byte>) returns (binaryRead: nat)
    requires start <= totalRead <= buf.Length && payload != buf
    modifies payload
    ensures binaryRead == Min(totalRead - start, payload.Length)
    ensures payload[..] == Splice(old(payload[..]), 0, buf[start..totalRead][..binaryRead])
  {
    var remaining := totalRead - start;
    binaryRead := 0;
    if remaining > 0 {
      var toCopy := Min(remaining, payload.Length);
      CopyInto(payload, 0, buf[start..start + toCopy]);
      binaryRead := toCopy;
    }
    assert buf[start..totalRead][..binaryRead] == buf[start..start + binaryRead];
  }

  class HistogramApp {
    const client: NetworkClient
    const processor: HistogramProcessor
    /** The JSON header parser (json-c), which is not part of this model. */
    const parse: Parser

    ghost predicate Valid()
      reads this, processor, processor.runningSum
    {
      processor.Valid()
    }

    /** An application over an already connected client, before any frame. */
    constructor (client: NetworkClient, parse: Parser)
      ensures Valid() && this.client == client && this.parse == parse
      ensures fresh(processor) && processor.SumView() == None
    {
      this.client := client;
      this.parse := parse;
      processor := new HistogramProcessor();
    }

    /**
     * Handles the line that ends at `newlinePos` (the newline already
     * overwritten by a NUL), with `totalRead` bytes in the buffer.
     */
    method ProcessDataLine(buf: array<byte>, newlinePos: nat, totalRead: nat) returns (keepGoing: bool)
      requires Valid() && newlinePos < totalRead <= buf.Length
      modifies client, processor, processor.runningSum
      ensures Valid()
      ensures old(processor.runningSum) != null ==> processor.runningSum == old(processor.runningSum)
      ensures old(processor.runningSum) == null ==> processor.runningSum == null || fresh(processor.runningSum)
      ensures var step := HandleLine(parse, buf[..newlinePos], buf[newlinePos + 1..totalRead],
                                     old(client.State()), old(processor.SumView()));
        && keepGoing == step.keepGoing
        && client.State() == step.link
        && processor.SumView() == step.sum
    {
      var header := parse(CString(buf[..newlinePos]));
      if header.None? {
        return true;
      }
      var h := header.value;
      if h.binSize < 0 {
        // The frame's vectors cannot take a negative size converted to size_t:
        // the constructor throws, and the handler around the frame code swallows it.
        return true;
      }
      var frame := new HistogramData(h.binSize as nat, FrameData);
      frame.CalculateBinEdges(h.binWidth, h.binOffset);
      var ok, payload := ReadPayload(buf, newlinePos + 1, totalRead, 4 * h.binSize as nat);
      if !ok {
        return false;
      }
      StoreCounts(frame, payload);
      assert frame.View() == FrameOf(h, DecodeCounts(payload[..]));
      var outcome := processor.ProcessFrame(frame);
      // A frame whose size differs from the running sum's makes add_histogram
      // throw std::invalid_argument; the handler reports it and carries on.
      keepGoing := true;
    }

    /**
     * Fills the frame's payload vector: the bytes already buffered from
     * `start` on, as many as are needed, then `receive_exact` for the rest.
     */
    method ReadPayload(buf: array<byte>, start: nat, totalRead: nat, needed: nat) returns (ok: bool, payload: array<byte>)
      requires start <= totalRead <= buf.Length
      modifies client
      ensures fresh(payload) && payload.Length == needed
      ensures var r := FetchPayload(buf[start..totalRead], needed, old(client.State()));
        && ok == r.ok
        && client.State() == r.link
        && (ok ==> payload[..] == r.data)
    {
      ghost var after := buf[start..totalRead];
      ghost var link := client.State();
      payload := new byte[needed](_ => 0);
      ghost var zeros := payload[..];
      var binaryRead := CopyBuffered(buf, start, totalRead, payload);
      ghost var copied := after[..binaryRead];
      ghost var tail := if binaryRead < needed then RecvExact(link, needed - binaryRead) else Exact(link, true, []);
      assert FetchPayload(after, needed, link) == Joined(copied, tail);
      assert client.State() == link;
      if binaryRead < needed {
        ghost var before := payload[..];
        ok := client.ReceiveExact(payload, binaryRead, needed - binaryRead);
        assert client.State() == tail.link;
        if !ok {
          return;
        }
        SpliceAppend(zeros, before, payload[..], 0, copied, tail.data);
      } else {
        assert copied + tail.data == copied;
      }
      SpliceWhole(zeros, copied + tail.data);
      ok := true;
    }

    /**
     * The receive loop: runs until the connection closes or fails, or a
     * frame's payload cannot be completed.
     */
    method Run()
      requires Valid()
      modifies client, processor, processor.runningSum
      ensures Valid()
      ensures var final := Scan(parse, [], old(client.State()), old(processor.SumView()));
        client.State() == final.link && processor.SumView() == final.sum
    {
      ghost var final := Scan(parse, [], client.State(), processor.SumView());
      var lineBuffer := new byte[MAX_BUFFER_SIZE](_ => 0);
      var totalRead: nat := 0;
      while client.link.connected
        invariant Valid()
        invariant totalRead <= MAX_BUFFER_SIZE - 2
        invariant old(processor.runningSum) != null ==> processor.runningSum == old(processor.runningSum)
        invariant old(processor.runningSum) == null ==> processor.runningSum == null || fresh(processor.runningSum)
        invariant Scan(parse, lineBuffer[..totalRead], client.State(), processor.SumView()) == final
        decreases |Prefix(client.link.incoming)|
      {
        var goOn;
        goOn, totalRead := Receive(lineBuffer, totalRead);
        if !goOn {
          return;
        }
      }
      ScanDisconnected(parse, lineBuffer[..totalRead], client.State(), processor.SumView());
    }

    /**
     * One pass of the receive loop, from a buffer holding `totalRead`
     * bytes: `receive`, then the first line, if any, then buffer-full
     * handling. `goOn` is false where the loop breaks.
     */
    method Receive(lineBuffer: array<byte>, totalRead: nat) returns (goOn: bool, newTotal: nat)
      requires Valid() && client.link.connected
      requires lineBuffer.Length == MAX_BUFFER_SIZE && totalRead <= MAX_BUFFER_SIZE - 2
      modifies client, processor, processor.runningSum, lineBuffer
      ensures Valid()
      ensures old(processor.runningSum) != null ==> processor.runningSum == old(processor.runningSum)
      ensures old(processor.runningSum) == null ==> processor.runningSum == null || fresh(processor.runningSum)
      ensures goOn ==> newTotal <= MAX_BUFFER_SIZE - 2
      ensures goOn ==> |Prefix(client.link.incoming)| < old(|Prefix(client.link.incoming)|)
      ensures var expected := Scan(parse, old(lineBuffer[..totalRead]), old(client.State()), old(processor.SumView()));
        if goOn then Scan(parse, lineBuffer[..newTotal], client.State(), processor.SumView()) == expected
        else client.State() == expected.link && processor.SumView() == expected.sum
    {
      ghost var buffered := lineBuffer[..totalRead];
      ghost var link := client.State();
      ghost var sum := processor.SumView();
      ghost var got := Recv(link, MAX_BUFFER_SIZE - |buffered| - 1);
      RecvConsumes(link, MAX_BUFFER_SIZE - totalRead - 1);
      ghost var before := lineBuffer[..];
      var bytesRead := client.Receive(lineBuffer, totalRead, MAX_BUFFER_SIZE - totalRead - 1);
      if bytesRead <= 0 {
        ScanEndsOnReceive(parse, buffered, link, sum);
        return false, 0;
      }
      SplicePrefix(before, totalRead, got.data);
      ScanReceives(parse, buffered, link, sum);
      ghost var data := buffered + got.data;
      newTotal := totalRead + bytesRead;
      lineBuffer[newTotal] := NUL;
      assert lineBuffer[..newTotal] == data;
      assert client.State() == got.link && processor.SumView() == sum;
      goOn, newTotal := Dispatch(lineBuffer, newTotal, data);
    }

    /**
     * The rest of one pass, once `receive` has brought the buffer to `data`:
     * the first line, if any, then buffer-full handling.
     */
    method Dispatch(lineBuffer: array<byte>, totalRead: nat, ghost data: seq<byte>) returns (goOn: bool, newTotal: nat)
      requires Valid() && lineBuffer.Length == MAX_BUFFER_SIZE
      requires totalRead == |data| <= MAX_BUFFER_SIZE - 1 && lineBuffer[..totalRead] == data
      modifies client, processor, processor.runningSum, lineBuffer
      ensures Valid()
      ensures old(processor.runningSum) != null ==> processor.runningSum == old(processor.runningSum)
      ensures old(processor.runningSum) == null ==> processor.runningSum == null || fresh(processor.runningSum)
      ensures goOn ==> newTotal <= MAX_BUFFER_SIZE - 2
      ensures |Prefix(client.State().incoming)| <= old(|Prefix(client.State().incoming)|)
      ensures var expected := ScanData(parse, data, old(client.State()), old(processor.SumView()));
        if goOn then Scan(parse, lineBuffer[..newTotal], client.State(), processor.SumView()) == expected
        else client.State() == expected.link && processor.SumView() == expected.sum
    {
      ghost var link := client.State();
      ghost var sum := processor.SumView();
      var newlinePos := FindNewline(lineBuffer, totalRead);
      ghost var rest: seq<byte>;
      if newlinePos.Some? {
        var nl := newlinePos.value;
        ghost var step := HandleLine(parse, data[..nl], data[nl + 1..], link, sum);
        assert lineBuffer[..nl] == data[..nl] && lineBuffer[nl + 1..totalRead] == data[nl + 1..];
        assert step == HandleLine(parse, lineBuffer[..nl], lineBuffer[nl + 1..totalRead], client.State(), processor.SumView());
        goOn, newTotal := TakeLine(lineBuffer, nl, totalRead);
        assert goOn == step.keepGoing && client.State() == step.link && processor.SumView() == step.sum;
        if !goOn {
          ScanEndsOnLine(parse, data, link, sum, nl);
          return;
        }
        ScanAfterLine(parse, data, link, sum, nl);
        rest := data[nl + 1..];
        assert lineBuffer[..newTotal] == rest;
      } else {
        ScanWithoutLine(parse, data, link, sum);
        rest := data;
        newTotal := totalRead;
      }
      assert ScanData(parse, data, link, sum) == Scan(parse, Trim(rest), client.State(), processor.SumView());
      if newTotal >= MAX_BUFFER_SIZE - 1 {
        newTotal := 0;
      }
      assert lineBuffer[..newTotal] == Trim(rest);
      goOn := true;
    }

    /**
     * Handles the line ending at `nl` and moves what follows it to the start
     * of the buffer; `goOn` is false where `process_data_line` says stop.
     */
    method TakeLine(lineBuffer: array<byte>, nl: nat, totalRead: nat) returns (goOn: bool, remaining: nat)
      requires Valid() && nl < totalRead <= lineBuffer.Length
      modifies client, processor, processor.runningSum, lineBuffer
      ensures Valid()
      ensures old(processor.runningSum) != null ==> processor.runningSum == old(processor.runningSum)
      ensures old(processor.runningSum) == null ==> processor.runningSum == null || fresh(processor.runningSum)
      ensures var step := HandleLine(parse, old(lineBuffer[..nl]), old(lineBuffer[nl + 1..totalRead]),
                                     old(client.State()), old(processor.SumView()));
        && goOn == step.keepGoing
        && client.State() == step.link
        && processor.SumView() == step.sum
      ensures goOn ==> remaining == totalRead - (nl + 1) && lineBuffer[..remaining] == old(lineBuffer[nl + 1..totalRead])
    {
      ghost var line := lineBuffer[..nl];
      ghost var after := lineBuffer[nl + 1..totalRead];
      lineBuffer[nl] := NUL;
      assert lineBuffer[..nl] == line && lineBuffer[nl + 1..totalRead] == after;
      goOn := ProcessDataLine(lineBuffer, nl, totalRead);
      if !goOn {
        return goOn, 0;
      }
      remaining := totalRead - (nl + 1);
      if remaining > 0 {
        ShiftDown(lineBuffer, nl + 1, remaining);
      }
    }
  }
}
