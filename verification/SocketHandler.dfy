/** The client's packet loops over the byte stream (Client/SocketHandler.cpp). */
module Sockets {
  import opened ByteStrings
  import opened Protocol
  import opened Framing

  /** One connection as the environment provides it: whether the server can be reached, which
      packet writes raise, and the bytes the server sends before it closes. */
  datatype Link = Link(reachable: bool, faults: set<nat>, reply: Bytes)

  /** Whether the whole request leaves the client. */
  predicate Delivered(request: Bytes, link: Link) {
    && link.reachable && request != []
    && GoThrough(link.faults, 0, Packets(|request|)) == Packets(|request|)
  }

  /** The bytes that leave the client on one connection. */
  function OnWire(request: Bytes, link: Link): (wire: Bytes)
    ensures Delivered(request, link) ==> wire == PadToPackets(request)
  {
    if !link.reachable then []
    else PadToPackets(request)[..GoThrough(link.faults, 0, Packets(|request|)) * PACKET_SIZE]
  }

  /** `written` lists, for every connection that was tried, the bytes that left the client on it. */
  class SocketHandler {
    var isConnected: bool
    var incoming: Bytes
    var outgoing: Bytes
    var faults: set<nat>
    ghost var written: seq<Bytes>

    constructor ()
      ensures !isConnected && written == []
    {
      isConnected, incoming, outgoing, faults, written := false, [], [], {}, [];
    }

    method Connect(link: Link) returns (ok: bool)
      modifies this
      ensures ok == isConnected == link.reachable && written == old(written)
      ensures ok ==> incoming == link.reply && outgoing == [] && faults == link.faults
      ensures !ok ==> outgoing == []
    {
      isConnected, outgoing := link.reachable, [];
      if isConnected {
        incoming, faults := link.reply, link.faults;
      }
      ok := isConnected;
    }

    method CloseSocket()
      modifies this`isConnected
      ensures !isConnected
    {
      isConnected := false;
    }

    /** Writes the request padded to whole packets; a raising packet ends the loop with failure
        and everything before it on the wire. */
    method Write(request: Bytes) returns (ok: bool)
      requires isConnected && outgoing == []
      modifies this`outgoing
      ensures var k := Packets(|request|);
              var j := GoThrough(faults, 0, k);
              && ok == (request != [] && j == k)
              && outgoing == PadToPackets(request)[..j * PACKET_SIZE]
    {
      ghost var k := Packets(|request|);
      if |request| == 0 {
        return false;
      }
      var bytesLeft, offset := |request|, 0;
      ghost var done := 0;
      while bytesLeft > 0
        invariant 0 <= done <= k && offset == done * PACKET_SIZE
        invariant bytesLeft == if done < k then |request| - offset else 0
        invariant done < k ==> offset < |request|
        invariant outgoing == PadToPackets(request)[..offset]
        invariant forall i :: 0 <= i < done ==> i !in faults
        decreases bytesLeft
      {
        var toWrite := Min(bytesLeft, PACKET_SIZE);
        var temp := request[offset..offset + toWrite] + Zeros(PACKET_SIZE - toWrite);
        if offset / PACKET_SIZE in faults {
          GoThroughIs(faults, 0, k, done);
          return false;
        }
        assert temp == PadToPackets(request)[offset..offset + PACKET_SIZE];
        outgoing := outgoing + temp;
        offset := offset + PACKET_SIZE;
        bytesLeft := bytesLeft - toWrite;
        done := done + 1;
      }
      GoThroughIs(faults, 0, k, k);
      return true;
    }

    /** `boost::asio::read` of one packet: whole unless the stream ends in it. */
    method ReadPacket() returns (data: Bytes)
      modifies this`incoming
      ensures |data| == Min(PACKET_SIZE, |old(incoming)|)
      ensures old(incoming) == data + incoming
    {
      data := incoming[..Min(PACKET_SIZE, |incoming|)];
      incoming := incoming[|data|..];
    }

    /** Stream reader exactness: `Read` succeeds exactly when `size` bytes remain, fills the buffer
        with the first of them, and consumes whole packets or what is left. */
    method Read(buffer: array<byte>, size: nat) returns (ok: bool)
      requires isConnected && size <= buffer.Length
      modifies this`incoming, buffer
      ensures ok == (size > 0 && |old(incoming)| >= size)
      ensures incoming == old(incoming)[Min(|old(incoming)|, RoundUp(size))..]
      ensures var c := Min(size, |old(incoming)|);
              buffer[..c] == old(incoming)[..c] && buffer[c..] == old(buffer[..])[c..]
    {
      if size == 0 {
        return false;
      }
      var bytesLeft := size;
      var ptr := 0;
      ghost var stream, before, taken := incoming, buffer[..], 0;
      while bytesLeft > 0
        invariant 0 <= taken <= |stream| && incoming == stream[taken..]
        invariant ptr == Min(size, taken) && bytesLeft == size - ptr
        invariant taken < |stream| ==> taken % PACKET_SIZE == 0
        invariant taken <= RoundUp(size)
        invariant buffer[..ptr] == stream[..ptr]
        invariant buffer[ptr..] == before[ptr..]
        decreases bytesLeft
      {
        assert ptr == taken;
        var temp := ReadPacket();
        var bytesRead := |temp|;
        if bytesRead == 0 {
          return false;
        }
        var bytesToCopy := if bytesLeft > bytesRead then bytesRead else bytesLeft;
        RoundOfRead(stream, taken, size, temp, incoming);
        CopyInto(buffer, ptr, temp[..bytesToCopy], stream, before);
        ptr := ptr + bytesToCopy;
        bytesLeft := bytesLeft - bytesToCopy;  // never wraps, so the source's unsigned guard is dead
        taken := taken + bytesRead;
      }
      if taken < |stream| {
        RoundUpIs(taken, size);
      }
      return true;
    }

    /** Connect, write, read; the connection is closed on failure and, if asked, on success. */
    method SocketWrapper(request: Bytes, response: array<byte>, size: nat, close: bool, link: Link)
      returns (ok: bool)
      requires 0 < size <= response.Length
      modifies this, response
      ensures ok == (Delivered(request, link) && |link.reply| >= size)
      ensures ok ==> response[..size] == link.reply[..size]
      ensures isConnected == (ok && !close)
      ensures ok && !close ==> incoming == link.reply[Min(|link.reply|, RoundUp(size))..]
      ensures outgoing == OnWire(request, link) && written == old(written) + [OnWire(request, link)]
    {
      ok := Connect(link);
      if !ok {
        written := written + [outgoing];
        return;
      }
      ok := Write(request);
      written := written + [outgoing];
      if !ok {
        CloseSocket();
        return;
      }
      ok := Read(response, size);
      if !ok || close {
        CloseSocket();
      }
    }
  }

  /** One round of `Read`: `temp` is the next packet of the stream, of which `taken` bytes are gone. */
  lemma RoundOfRead(stream: Bytes, taken: nat, size: nat, temp: Bytes, rest: Bytes)
    requires taken < size && taken < |stream| && taken % PACKET_SIZE == 0
    requires stream[taken..] == temp + rest && |temp| == Min(PACKET_SIZE, |stream| - taken)
    ensures var n, next := Min(|temp|, size - taken), taken + |temp|;
            && next <= |stream| && next <= RoundUp(size) && rest == stream[next..]
            && temp[..n] == stream[taken..taken + n] && taken + n == Min(size, next)
            && (next < |stream| ==> next % PACKET_SIZE == 0)
  {
    SliceOfSplit(stream, taken, temp, rest, Min(|temp|, size - taken));
    SliceBehind(stream, taken, temp, rest);
    RoundUpStep(taken, size);
  }

  /** `memcpy(&buffer[at], data, |data|)`, when the buffer holds `at` bytes of `stream`, followed by
      what it held before, and `data` continues the stream. */
  method CopyInto(buffer: array<byte>, at: nat, data: Bytes, ghost stream: Bytes, ghost before: Bytes)
    requires at + |data| <= buffer.Length == |before| && at + |data| <= |stream|
    requires data == stream[at..at + |data|]
    requires buffer[..at] == stream[..at] && buffer[at..] == before[at..]
    modifies buffer
    ensures buffer[..at + |data|] == stream[..at + |data|]
    ensures buffer[at + |data|..] == before[at + |data|..]
  {
    assert forall i :: at <= i < buffer.Length ==> buffer[i] == buffer[at..][i - at] == before[at..][i - at];
    forall i | 0 <= i < |data| {
      buffer[at + i] := data[i];
    }
    assert forall i :: at <= i < at + |data| ==> stream[i] == data[i - at] == buffer[i];
    assert forall i :: 0 <= i < at ==> buffer[i] == stream[..at][i];
  }
}
