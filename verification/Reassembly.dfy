/** A send request crosses the stream: the client pads it to whole packets, the server takes the
    first packet and whatever pieces its later `recv` calls return. */
module Reassembly {
  import opened ByteStrings
  import opened Database
  import opened Protocol
  import opened Framing
  import opened ServerSpec

  predicate NonEmptyPieces(pieces: seq<Bytes>) {
    forall i :: 0 <= i < |pieces| ==> pieces[i] != []
  }

  /** The receive loop takes a prefix of what arrived, however it was split. */
  lemma {:induction false} GatherIsPrefix(pieces: seq<Bytes>, need: nat)
    requires NonEmptyPieces(pieces)
    ensures Gather(pieces, need) == if |Flatten(pieces)| >= need then Some(Flatten(pieces)[..need]) else None
  {
    if need > 0 && pieces != [] {
      var p, all := pieces[0], Flatten(pieces);
      var take := Min(|p|, need);
      GatherIsPrefix(pieces[1..], need - take);
      assert all == p + Flatten(pieces[1..]);
      if |all| >= need {
        assert all[..need] == p[..take] + Flatten(pieces[1..])[..need - take];
      }
    }
  }

  /** The first packet of a send request, and the packets behind it. */
  function FirstOf(r: SendRequest): (data: Bytes)
    requires FitsSendRequest(r)
    ensures |data| == PACKET_SIZE
  {
    PadToPackets(SendRequestBytes(r))[..PACKET_SIZE]
  }

  function LaterOf(r: SendRequest): Bytes
    requires FitsSendRequest(r)
  {
    PadToPackets(SendRequestBytes(r))[PACKET_SIZE..]
  }

  /** Send-message reassembly. For every request and every splitting of what follows the first
      packet into non-empty pieces, the server recovers the request, recipient, type and content,
      exactly when the bytes that arrived cover the content; padding is never taken for content. */
  lemma SendReassembled(r: SendRequest, pieces: seq<Bytes>)
    requires FitsSendRequest(r) && NonEmptyPieces(pieces)
    requires Flatten(pieces) <= LaterOf(r)
    ensures UnpackSend(FirstOf(r), pieces) ==
              if |r.content| <= FIRST_ROOM + |Flatten(pieces)| then Some(r) else None
  {
    var data, n := FirstOf(r), |r.content|;
    var first := Min(n, FIRST_ROOM);
    FirstPart(r);
    SendPrefixRoundTrip(r, data[SEND_HEAD_SIZE..]);
    GatherIsPrefix(pieces, n - first);
    if n > FIRST_ROOM && |Flatten(pieces)| >= n - first {
      LatePart(r, Flatten(pieces));
    }
    assert r.content[..first] + r.content[first..] == r.content;
  }

  /** The first packet holds the prefix and as much content as fits. */
  lemma FirstPart(r: SendRequest)
    requires FitsSendRequest(r)
    ensures var data, first := FirstOf(r), Min(|r.content|, FIRST_ROOM);
            && data == SendPrefixBytes(r) + data[SEND_HEAD_SIZE..]
            && data[SEND_HEAD_SIZE..SEND_HEAD_SIZE + first] == r.content[..first]
  {
    var stream := PadToPackets(SendRequestBytes(r));
    var first := Min(|r.content|, FIRST_ROOM);
    Middle(SendPrefixBytes(r), r.content, stream[SEND_HEAD_SIZE + |r.content|..]);
    assert stream == SendPrefixBytes(r) + r.content + stream[SEND_HEAD_SIZE + |r.content|..];
    assert stream[..PACKET_SIZE][SEND_HEAD_SIZE..SEND_HEAD_SIZE + first]
           == stream[SEND_HEAD_SIZE..SEND_HEAD_SIZE + |r.content|][..first];
  }

  /** The following packets begin with the rest of the content. */
  lemma LatePart(r: SendRequest, late: Bytes)
    requires FitsSendRequest(r) && |r.content| > FIRST_ROOM
    requires late <= LaterOf(r) && |late| >= |r.content| - FIRST_ROOM
    ensures late[..|r.content| - FIRST_ROOM] == r.content[FIRST_ROOM..]
  {
  }

  /** The connection on which a client sends `r`. */
  function SendEvent(r: SendRequest, pieces: seq<Bytes>, env: Env): Event
    requires FitsSendRequest(r)
  {
    Event([FirstOf(r)] + pieces, env)
  }

  /** A well-formed send by a registered client to a registered client is stored under the next
      key exactly when its content has arrived and the storage takes it. */
  lemma SendAccepted(db: Db, r: SendRequest, pieces: seq<Bytes>, env: Env)
    requires FitsSendRequest(r) && NonEmptyPieces(pieces)
    requires Flatten(pieces) <= LaterOf(r)
    requires r.header.code == SEND_MESSAGE && ValidMessageType(r.typ)
    requires HasId(db.clients, r.header.clientId) && HasId(db.clients, r.to)
    ensures Serve(db, SendEvent(r, pieces, env)).effect ==
              if |r.content| <= FIRST_ROOM + |Flatten(pieces)| && env.storeOk
              then Stored(NextId(db.messages), MessageRow(r.to, r.header.clientId, r.typ, r.content))
              else Quiet
  {
    var ev := SendEvent(r, pieces, env);
    SendReassembled(r, pieces);
    assert ev.recvs[0] == FirstOf(r) && ev.recvs[1..] == pieces;
    SendHeaderArrives(r);
  }

  lemma SendHeaderArrives(r: SendRequest)
    requires FitsSendRequest(r)
    ensures UnpackRequestHeader(FirstOf(r)) == Some(r.header)
  {
    FirstPart(r);
    SendPrefixRoundTrip(r, FirstOf(r)[SEND_HEAD_SIZE..]);
  }
}
