/**
 * The connection as seen by the decoder: `NetworkClient::receive` and
 * `NetworkClient::receive_exact` over an abstract, finite byte stream.
 *
 * The peer's side is a stream of non-empty runs of bytes ending in an
 * orderly close or an I/O error. Sockets, `connect` and the operating
 * system are not part of this model.
 */
module Net {
  import opened Common

  /** A run of bytes one `recv` may hand over, in full or in part. */
  type Packet = s: seq<byte> | |s| > 0 witness [0]

  /**
   * What the peer has yet to deliver: runs of bytes, then an orderly close
   * or an I/O error.
   */
  datatype Stream = Closed | Failed | Chunk(bytes: Packet, rest: Stream)

  /** The state of the client: the socket's pending input, and the `connected_` flag. */
  datatype Link = Link(incoming: Stream, connected: bool)

  /** The result of one `receive`: the new state, the returned count and the bytes written. */
  datatype Received = Received(link: Link, count: int, data: seq<byte>)

  /** The result of one `receive_exact`: the new state, the success flag and the bytes written. */
  datatype Exact = Exact(link: Link, ok: bool, data: seq<byte>)

  /** The bytes the peer still sends before it closes or fails. */
  function Prefix(s: Stream): seq<byte> {
    if s.Chunk? then s.bytes + Prefix(s.rest) else []
  }

  /** The bytes this client can still read: none once it is disconnected. */
  function Available(link: Link): seq<byte> {
    if link.connected then Prefix(link.incoming) else []
  }

  /**
   * One `receive(buffer, max)`: -1 when not connected; otherwise what `recv`
   * returns — up to `max` bytes of the next run, or 0 on an orderly close
   * (and for a zero-length request), or -1 on an I/O error, both of which
   * clear `connected_`.
   */
  function Recv(link: Link, max: nat): (r: Received)
    ensures r.count > 0 <==> link.connected && 0 < max && link.incoming.Chunk?
    ensures r.count > 0 ==> r.link.connected && |r.data| == r.count <= max
    ensures r.count <= 0 ==> r.data == [] && !r.link.connected
    ensures !link.connected ==> r.link == link && r.count == -1
  {
    if !link.connected then Received(link, -1, [])
    else if max == 0 then Received(Link(link.incoming, false), 0, [])
    else
      match link.incoming
      case Closed => Received(Link(Closed, false), 0, [])
      case Failed => Received(Link(Failed, false), -1, [])
      case Chunk(b, rest) =>
        var k := Min(max, |b|);
        var next := if k == |b| then rest else Chunk(b[k..], rest);
        Received(Link(next, true), k, b[..k])
  }

  /** A `receive` consumes as many bytes of the stream as it returns. */
  lemma RecvConsumes(link: Link, max: nat)
    ensures |Prefix(Recv(link, max).link.incoming)| + |Recv(link, max).data| <= |Prefix(link.incoming)|
  {
  }

  /** A successful `receive` hands over the next bytes of the stream, in order. */
  lemma RecvTakesPrefix(link: Link, max: nat)
    requires 0 < max
    ensures var got := Recv(link, max);
      && got.data == Available(link)[..|got.data|]
      && (got.count > 0 ==> Available(got.link) == Available(link)[got.count..])
      && (got.count > 0 <==> Available(link) != [])
  {
    var got := Recv(link, max);
    if got.count > 0 {
      var b := link.incoming.bytes;
      var k := got.count;
      assert Available(link) == b + Prefix(link.incoming.rest);
      if k < |b| {
        assert Available(got.link) == b[k..] + Prefix(link.incoming.rest);
      }
    }
  }

  /** `rest` after `prefix` bytes already received. */
  function Joined(prefix: seq<byte>, rest: Exact): Exact {
    Exact(rest.link, rest.ok, if rest.ok then prefix + rest.data else [])
  }

  /**
   * `receive_exact(buffer, n)`: repeats `receive` for the bytes still
   * missing until n have arrived, failing on the first result <= 0.
   */
  function RecvExact(link: Link, n: nat): (r: Exact)
    ensures r.ok ==> |r.data| == n && (n > 0 ==> r.link.connected)
    ensures !r.ok ==> !r.link.connected && r.data == []
    decreases n
  {
    if n == 0 then Exact(link, true, [])
    else
      var got := Recv(link, n);
      if got.count <= 0 then Exact(got.link, false, [])
      else
        Joined(got.data, RecvExact(got.link, n - got.count))
  }

  lemma JoinedAssoc(a: seq<byte>, b: seq<byte>, rest: Exact)
    ensures Joined(a, Joined(b, rest)) == Joined(a + b, rest)
  {
    assert a + (b + rest.data) == (a + b) + rest.data;
  }

  /** `receive_exact` never adds bytes to the stream. */
  lemma {:induction false} RecvExactConsumes(link: Link, n: nat)
    ensures |Prefix(RecvExact(link, n).link.incoming)| <= |Prefix(link.incoming)|
    decreases n
  {
    if n > 0 {
      var got := Recv(link, n);
      RecvConsumes(link, n);
      if got.count > 0 {
        RecvExactConsumes(got.link, n - got.count);
      }
    }
  }

  /** A round of the `receive_exact` loop whose `receive` fails ends the whole call, unsuccessfully. */
  lemma RecvExactStops(whole: Exact, received: seq<byte>, link: Link, n: nat)
    requires n > 0 && Recv(link, n).count <= 0
    requires whole == Joined(received, RecvExact(link, n))
    ensures !whole.ok && whole.link == Recv(link, n).link
  {
  }

  /** A round of the `receive_exact` loop that receives bytes leaves `m` of the `n` to go. */
  lemma RecvExactContinues(whole: Exact, received: seq<byte>, link: Link, n: nat, m: nat)
    requires n > 0 && Recv(link, n).count > 0 && m == n - Recv(link, n).count
    requires whole == Joined(received, RecvExact(link, n))
    ensures whole == Joined(received + Recv(link, n).data, RecvExact(Recv(link, n).link, m))
  {
    var got := Recv(link, n);
    JoinedAssoc(received, got.data, RecvExact(got.link, m));
  }

  /**
   * However the peer's bytes were split into deliveries, `receive_exact`
   * succeeds exactly when n bytes are available, and then returns the next
   * n bytes of the stream and leaves the rest.
   */
  lemma {:induction false} RecvExactTakesPrefix(link: Link, n: nat)
    ensures var ex := RecvExact(link, n);
      && (n > 0 ==> (ex.ok <==> |Available(link)| >= n))
      && (ex.ok ==> ex.data == Available(link)[..n] && Available(ex.link) == Available(link)[n..])
    decreases n
  {
    if n > 0 {
      var got := Recv(link, n);
      RecvTakesPrefix(link, n);
      if got.count > 0 {
        var k := got.count;
        RecvExactTakesPrefix(got.link, n - k);
        var more := RecvExact(got.link, n - k);
        var avail := Available(link);
        assert Available(got.link) == avail[k..];
        if more.ok {
          assert avail[..n] == avail[..k] + avail[k..][..n - k];
          assert avail[n..] == avail[k..][n - k..];
        }
      }
    }
  }

  /** Writes `data` over `s` starting at `offset`, leaving everything else. */
  function Splice(s: seq<byte>, offset: nat, data: seq<byte>): (r: seq<byte>)
    requires offset + |data| <= |s|
    ensures |r| == |s|
    decreases |data|
  {
    if data == [] then s else Splice(s[offset := data[0]], offset + 1, data[1..])
  }

  /** Byte t of a splice: from `data` inside the written range, from `s` outside it. */
  lemma {:induction false} SpliceAt(s: seq<byte>, offset: nat, data: seq<byte>, t: nat)
    requires offset + |data| <= |s| && t < |s|
    ensures Splice(s, offset, data)[t] == if offset <= t < offset + |data| then data[t - offset] else s[t]
    decreases |data|
  {
    if data != [] {
      SpliceAt(s[offset := data[0]], offset + 1, data[1..], t);
    }
  }

  /** Writing `a` and then `b` just after it is writing `a + b`. */
  lemma SpliceAppend(s: seq<byte>, mid: seq<byte>, last: seq<byte>, offset: nat, a: seq<byte>, b: seq<byte>)
    requires offset + |a| + |b| <= |s|
    requires mid == Splice(s, offset, a)
    requires last == Splice(mid, offset + |a|, b)
    ensures last == Splice(s, offset, a + b)
  {
    var whole := Splice(s, offset, a + b);
    forall t | 0 <= t < |s|
      ensures last[t] == whole[t]
    {
      SpliceAt(mid, offset + |a|, b, t);
      SpliceAt(s, offset, a, t);
      SpliceAt(s, offset, a + b, t);
    }
  }

  /** Overwriting every byte leaves just the new bytes. */
  lemma SpliceWhole(s: seq<byte>, data: seq<byte>)
    requires |data| == |s|
    ensures Splice(s, 0, data) == data
  {
    forall t | 0 <= t < |s|
      ensures Splice(s, 0, data)[t] == data[t]
    {
      SpliceAt(s, 0, data, t);
    }
  }

  /** Up to the end of the written range, a splice is the old prefix followed by the new bytes. */
  lemma SplicePrefix(s: seq<byte>, offset: nat, data: seq<byte>)
    requires offset + |data| <= |s|
    ensures Splice(s, offset, data)[..offset + |data|] == s[..offset] + data
  {
    forall t | 0 <= t < offset + |data|
      ensures Splice(s, offset, data)[t] == (s[..offset] + data)[t]
    {
      SpliceAt(s, offset, data, t);
    }
  }

  /** Copies `data` into `buf` at `offset`, one byte at a time (the `memcpy` of `recv`). */
  method CopyInto(buf: array<byte>, offset: nat, data: seq<byte>)
    requires offset + |data| <= buf.Length
    modifies buf
    ensures buf[..] == Splice(old(buf[..]), offset, data)
  {
    var j := 0;
    while j < |data|
      invariant j <= |data|
      invariant forall t :: 0 <= t < buf.Length && !(offset <= t < offset + j) ==> buf[t] == old(buf[t])
      invariant forall t :: 0 <= t < j ==> buf[offset + t] == data[t]
    {
      buf[offset + j] := data[j];
      j := j + 1;
    }
    assert buf[..] == Splice(old(buf[..]), offset, data) by {
      var expected := Splice(old(buf[..]), offset, data);
      forall t | 0 <= t < buf.Length
        ensures buf[t] == expected[t]
      {
        SpliceAt(old(buf[..]), offset, data, t);
      }
    }
  }

  class NetworkClient {
    var link: Link

    function State(): Link
      reads this
    {
      link
    }

    constructor (input: Stream)
      ensures State() == Link(input, true)
    {
      link := Link(input, true);
    }

    /** `receive(buffer + offset, max)`: the count is returned and the bytes written at `offset`. */
    method Receive(buf: array<byte>, offset: nat, max: nat) returns (count: int)
      requires offset + max <= buf.Length
      modifies this, buf
      ensures var got := Recv(old(State()), max);
        && count == got.count
        && State() == got.link
        && buf[..] == Splice(old(buf[..]), offset, got.data)
    {
      var got := Recv(State(), max);
      link := got.link;
      CopyInto(buf, offset, got.data);
      count := got.count;
    }

    /**
     * One pass of the `receive_exact` loop: a `receive` for the bytes still
     * missing, stated against the loop's invariant.
     */
    method ReceiveRound(buf: array<byte>, offset: nat, total: nat, size: nat,
                        ghost whole: Exact, ghost received: seq<byte>, ghost original: seq<byte>)
      returns (bytes: int, ghost got: seq<byte>)
      requires offset + size <= buf.Length == |original| && total == |received| < size
      requires whole == Joined(received, RecvExact(State(), size - total))
      requires buf[..] == Splice(original, offset, received)
      modifies this, buf
      ensures bytes <= 0 ==> !whole.ok && State() == whole.link
      ensures bytes > 0 ==> && total + bytes <= size && |got| == bytes
                            && whole == Joined(received + got, RecvExact(State(), size - (total + bytes)))
                            && buf[..] == Splice(original, offset, received + got)
    {
      ghost var at := State();
      ghost var n := size - total;
      ghost var step := Recv(at, n);
      ghost var before := buf[..];
      bytes := Receive(buf, offset + total, size - total);
      got := step.data;
      if bytes <= 0 {
        RecvExactStops(whole, received, at, n);
      } else {
        SpliceAppend(original, before, buf[..], offset, received, got);
        RecvExactContinues(whole, received, at, n, size - (total + bytes));
      }
    }

    /** `receive_exact(buffer + offset, size)`: loops `receive` until `size` bytes have arrived. */
    method ReceiveExact(buf: array<byte>, offset: nat, size: nat) returns (ok: bool)
      requires offset + size <= buf.Length
      modifies this, buf
      ensures var ex := RecvExact(old(State()), size);
        && ok == ex.ok
        && State() == ex.link
        && (ok ==> buf[..] == Splice(old(buf[..]), offset, ex.data))
    {
      ghost var whole := RecvExact(State(), size);
      ghost var original := buf[..];
      ghost var received: seq<byte> := [];
      assert whole == Joined(received, whole);
      var total := 0;
      while total < size
        invariant total == |received| <= size
        invariant whole == Joined(received, RecvExact(State(), size - total))
        invariant buf[..] == Splice(original, offset, received)
        decreases size - total
      {
        var bytes;
        ghost var got;
        bytes, got := ReceiveRound(buf, offset, total, size, whole, received, original);
        if bytes <= 0 {
          return false;
        }
        received := received + got;
        total := total + bytes;
      }
      assert RecvExact(State(), 0).data == [];
      assert whole.data == received + [] == received;
      ok := true;
    }
  }
}
