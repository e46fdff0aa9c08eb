/** How byte strings cross the stream in packets of PACKET_SIZE: the two writers pad differently,
    and the reader always pulls whole packets. */
module Framing {
  import opened ByteStrings
  import opened Protocol

  /** Number of packets, the last possibly partial, that `len` bytes occupy. */
  function Packets(len: nat): nat { (len + PACKET_SIZE - 1) / PACKET_SIZE }

  function RoundUp(len: nat): (r: nat)
    ensures len <= r < len + PACKET_SIZE && r % PACKET_SIZE == 0
  {
    Packets(len) * PACKET_SIZE
  }

  lemma RoundUpStep(taken: nat, size: nat)
    requires taken < size && taken % PACKET_SIZE == 0
    ensures taken + PACKET_SIZE <= RoundUp(size)
  {
  }

  lemma RoundUpIs(taken: nat, size: nat)
    requires size <= taken <= RoundUp(size) && taken % PACKET_SIZE == 0
    ensures taken == RoundUp(size)
  {
  }

  /** How many of the next `k` transmissions go through before the first one that raises;
      transmission number `n` of a connection raises when `n in faults`. */
  function GoThrough(faults: set<nat>, n: nat, k: nat): (j: nat)
    ensures j <= k
    decreases k
  {
    if k == 0 || n in faults then 0 else 1 + GoThrough(faults, n + 1, k - 1)
  }

  lemma {:induction false} GoThroughSpec(faults: set<nat>, n: nat, k: nat)
    ensures var j := GoThrough(faults, n, k);
            && (forall i :: n <= i < n + j ==> i !in faults)
            && (j < k ==> n + j in faults)
    decreases k
  {
    if k != 0 && n !in faults {
      GoThroughSpec(faults, n + 1, k - 1);
    }
  }

  /** Reading `GoThrough` off a loop that has passed `j` transmissions. */
  lemma {:induction false} GoThroughIs(faults: set<nat>, n: nat, k: nat, j: nat)
    requires j <= k
    requires forall i :: n <= i < n + j ==> i !in faults
    requires j < k ==> n + j in faults
    ensures GoThrough(faults, n, k) == j
    decreases k
  {
    if j > 0 {
      GoThroughIs(faults, n + 1, k - 1, j - 1);
    }
  }

  // ----- the server's writer

  /** The bytes of a complete reply: a short reply is padded to one packet, a long one is not. */
  function Frame(reply: Bytes): (f: Bytes)
    ensures reply <= f && |f| >= PACKET_SIZE
  {
    if |reply| < PACKET_SIZE then reply + Zeros(PACKET_SIZE - |reply|) else reply
  }

  /** Outcome of `Server.write`: it returns True, returns False, or lets the exception of a later
      send escape. */
  datatype WriteResult = Sent | Refused | Raised

  datatype Transmission = Transmission(result: WriteResult, bytes: Bytes, attempts: nat)

  /** What writing `reply` does on a connection that has seen `n` transmissions. */
  function Transmit(reply: Bytes, faults: set<nat>, n: nat): (t: Transmission)
    ensures t.bytes <= Frame(reply)
    ensures t.result == Sent ==> t.bytes == Frame(reply)
    ensures t.result == Refused ==> t.bytes == []
    ensures t.result == Raised ==> |t.bytes| < |reply|
  {
    var k := Packets(|Frame(reply)|);
    var j := GoThrough(faults, n, k);
    if j == k then Transmission(Sent, Frame(reply), n + k)
    else if j == 0 then Transmission(Refused, [], n + 1)
    else Transmission(Raised, reply[..j * PACKET_SIZE], n + j + 1)
  }

  lemma TransmitWithoutFaults(reply: Bytes, faults: set<nat>, n: nat)
    requires forall i :: i in faults ==> i < n
    ensures Transmit(reply, faults, n).result == Sent
  {
    GoThroughSpec(faults, n, Packets(|Frame(reply)|));
  }

  // ----- the client's writer

  /** The client pads every request, short or long, to whole packets. */
  function PadToPackets(request: Bytes): (p: Bytes)
    ensures request <= p && |p| == RoundUp(|request|)
  {
    request + Zeros(RoundUp(|request|) - |request|)
  }
}
