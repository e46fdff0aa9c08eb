/** What the client makes of the bytes a server sent on one connection (Client/Client.cpp).  The
    methods of module `Clients` are proved to compute these functions. */
module ClientSpec {
  import opened ByteStrings
  import opened Database
  import opened Protocol
  import opened Framing

  /** `handelUnkownPayloadRequest`: one packet first, then the rest of the announced payload. */
  function ReceivePayload(reply: Bytes, expected: nat): (p: Option<Bytes>)
    ensures p.Some? ==> |p.value| < U32
  {
    if |reply| < PACKET_SIZE then None
    else
      var h := ReadResponseHeader(reply);
      if !IsValidResponse(h, expected) then None
      else if h.payloadSize == 0 then Some([])
      else if |reply| < RESPONSE_HEADER_SIZE + h.payloadSize then None
      else Some(reply[RESPONSE_HEADER_SIZE..RESPONSE_HEADER_SIZE + h.payloadSize])
  }

  /** A reply read into a struct with `size` payload bytes: the payload, if the header is accepted. */
  function ReceiveFixed(reply: Bytes, expected: nat, size: nat): Option<Bytes> {
    if |reply| < RESPONSE_HEADER_SIZE + size || !IsValidResponse(ReadResponseHeader(reply), expected) then None
    else Some(reply[RESPONSE_HEADER_SIZE..RESPONSE_HEADER_SIZE + size])
  }

  /** `handleRegistrationRequest`: the assigned identifier. */
  function ReceiveRegistration(reply: Bytes): Option<Bytes> {
    ReceiveFixed(reply, REGISTER_SUCCESS, CLIENT_ID_SIZE)
  }

  /** `handleGetPublicKeyRequest`: identifier and key. */
  function ReceivePublicKey(reply: Bytes): Option<(Bytes, Bytes)> {
    var p := ReceiveFixed(reply, GET_PUBLIC_KEY_SUCCESS, CLIENT_ID_SIZE + PUBLIC_KEY_SIZE);
    if p.None? then None else Some((p.value[..CLIENT_ID_SIZE], p.value[CLIENT_ID_SIZE..]))
  }

  /** `handleSendMsgRequest`: recipient and message id. */
  function ReceiveMessageSent(reply: Bytes): Option<(Bytes, nat)> {
    var p := ReceiveFixed(reply, MESSAGE_SENT_SUCCESS, CLIENT_ID_SIZE + MESSAGE_ID_SIZE);
    if p.None? then None else Some((p.value[..CLIENT_ID_SIZE], Value(p.value[CLIENT_ID_SIZE..])))
  }

  /** `handleClientsListRequest`: the new directory. `None` also covers reading behind the payload. */
  function ReceiveClientsList(reply: Bytes): Option<seq<Entry>> {
    var p := ReceivePayload(reply, GET_CLIENTS_LIST_SUCCESS);
    if p.None? then None else ParseEntries(p.value)
  }

  /** `handleGetUnreadMessages`: the records that are shown. */
  function ReceiveUnread(reply: Bytes): Option<seq<Record>> {
    var p := ReceivePayload(reply, GET_UNREAD_MESSAGES_SUCCESS);
    if p.None? then None
    else if p.value == [] then Some([])
    else
      var r := ParseRecords(p.value, 0);
      if |p.value| < RECORD_HEADER_SIZE || !r.Parsed? then None else Some(r.records)
  }

  lemma HeaderOfPrefix(reply: Bytes, n: nat)
    requires RESPONSE_HEADER_SIZE <= n <= |reply|
    ensures ReadResponseHeader(reply[..n]) == ReadResponseHeader(reply)
  {
    var first := reply[..n];
    assert first[..RESPONSE_VERSION_END] == reply[..RESPONSE_VERSION_END];
    assert first[RESPONSE_VERSION_END..RESPONSE_CODE_END] == reply[RESPONSE_VERSION_END..RESPONSE_CODE_END];
    assert first[RESPONSE_CODE_END..RESPONSE_HEADER_SIZE] == reply[RESPONSE_CODE_END..RESPONSE_HEADER_SIZE];
  }

  function Reply(code: nat, payload: Bytes): Bytes {
    PackResponseHeader(SERVER_VERSION, code, |payload|) + payload
  }

  /** Framing round trip, for every payload length: from any part of a framed reply that reaches the
      client, it takes either nothing or exactly the payload, and from the whole it takes the payload. */
  lemma FramingRoundTrip(code: nat, payload: Bytes, seen: Bytes)
    requires code < U16 && |payload| < U32
    requires IsValidResponse(ResponseHeader(SERVER_VERSION, code, |payload|), code)
    requires seen <= Frame(Reply(code, payload))
    ensures ReceivePayload(seen, code) == if |seen| >= PACKET_SIZE && |seen| >= RESPONSE_HEADER_SIZE + |payload|
                                          then Some(payload) else None
  {
    var f := Frame(Reply(code, payload));
    if |seen| >= PACKET_SIZE {
      var h := PackResponseHeader(SERVER_VERSION, code, |payload|);
      ResponseHeaderRoundTrip(code, |payload|, seen[RESPONSE_HEADER_SIZE..]);
      assert f[..RESPONSE_HEADER_SIZE] == h;
      assert seen == h + seen[RESPONSE_HEADER_SIZE..];
      if |seen| >= RESPONSE_HEADER_SIZE + |payload| {
        var end := RESPONSE_HEADER_SIZE + |payload|;
        assert seen[RESPONSE_HEADER_SIZE..end] == f[RESPONSE_HEADER_SIZE..end] == payload;
      }
    }
  }

  /** A reply is refused under every code but its own. */
  lemma WrongCodeRefused(code: nat, payload: Bytes, seen: Bytes, expected: nat)
    requires code < U16 && |payload| < U32 && expected != code
    requires seen <= Frame(Reply(code, payload))
    ensures ReceivePayload(seen, expected).None?
    ensures forall size: nat :: ReceiveFixed(seen, expected, size).None?
  {
    if |seen| >= RESPONSE_HEADER_SIZE {
      var f := Frame(Reply(code, payload));
      var h := PackResponseHeader(SERVER_VERSION, code, |payload|);
      ResponseHeaderRoundTrip(code, |payload|, seen[RESPONSE_HEADER_SIZE..]);
      assert f[..RESPONSE_HEADER_SIZE] == h;
      assert seen == h + seen[RESPONSE_HEADER_SIZE..];
    }
  }

  /** A fixed-size reply is accepted under its own code, with its payload intact, exactly when its
      meaningful part arrives. */
  lemma FixedReplyRoundTrip(code: nat, payload: Bytes, seen: Bytes)
    requires code < U16 && |payload| < U32
    requires IsValidResponse(ResponseHeader(SERVER_VERSION, code, |payload|), code)
    requires seen <= Frame(Reply(code, payload))
    ensures ReceiveFixed(seen, code, |payload|) ==
              if |seen| >= RESPONSE_HEADER_SIZE + |payload| then Some(payload) else None
  {
    if |seen| >= RESPONSE_HEADER_SIZE + |payload| {
      var f := Frame(Reply(code, payload));
      var h := PackResponseHeader(SERVER_VERSION, code, |payload|);
      ResponseHeaderRoundTrip(code, |payload|, seen[RESPONSE_HEADER_SIZE..]);
      assert f[..RESPONSE_HEADER_SIZE] == h;
      assert seen == h + seen[RESPONSE_HEADER_SIZE..];
      var end := RESPONSE_HEADER_SIZE + |payload|;
      assert seen[RESPONSE_HEADER_SIZE..end] == f[RESPONSE_HEADER_SIZE..end] == payload;
    }
  }

  /** Reply compatibility: the three fixed-size replies come back with identical fields under
      their own code, and with nothing under any other; an error reply never passes. */
  lemma RepliesCompatible(id: Bytes, key: Bytes, msgId: nat, expected: nat, size: nat)
    requires |id| == CLIENT_ID_SIZE && |key| == PUBLIC_KEY_SIZE && msgId < U32
    ensures ReceiveRegistration(Frame(PackRegistered(id))) == Some(id)
    ensures ReceivePublicKey(Frame(PackPublicKey(id, key))) == Some((id, key))
    ensures ReceiveMessageSent(Frame(PackMessageSent(id, msgId))) == Some((id, msgId))
    ensures expected != REGISTER_SUCCESS ==> ReceiveFixed(Frame(PackRegistered(id)), expected, size).None?
    ensures expected != GET_PUBLIC_KEY_SUCCESS ==> ReceiveFixed(Frame(PackPublicKey(id, key)), expected, size).None?
    ensures expected != MESSAGE_SENT_SUCCESS ==> ReceiveFixed(Frame(PackMessageSent(id, msgId)), expected, size).None?
    ensures expected != GENERIC_ERROR ==> ReceiveFixed(Frame(PackError()), expected, size).None?
  {
    Widths();
    ValueOfLittleEndian(4, msgId);
    var pk, ms := id + key, id + LittleEndian(4, msgId);
    assert pk[..CLIENT_ID_SIZE] == id && pk[CLIENT_ID_SIZE..] == key;
    assert ms[..CLIENT_ID_SIZE] == id && ms[CLIENT_ID_SIZE..] == LittleEndian(4, msgId);
    FixedReplyRoundTrip(REGISTER_SUCCESS, id, Frame(Reply(REGISTER_SUCCESS, id)));
    FixedReplyRoundTrip(GET_PUBLIC_KEY_SUCCESS, pk, Frame(Reply(GET_PUBLIC_KEY_SUCCESS, pk)));
    FixedReplyRoundTrip(MESSAGE_SENT_SUCCESS, ms, Frame(Reply(MESSAGE_SENT_SUCCESS, ms)));
    assert PackRegistered(id) == Reply(REGISTER_SUCCESS, id);
    assert PackPublicKey(id, key) == Reply(GET_PUBLIC_KEY_SUCCESS, pk);
    assert PackMessageSent(id, msgId) == Reply(MESSAGE_SENT_SUCCESS, ms);
    if expected != REGISTER_SUCCESS {
      WrongCodeRefused(REGISTER_SUCCESS, id, Frame(Reply(REGISTER_SUCCESS, id)), expected);
    }
    if expected != GET_PUBLIC_KEY_SUCCESS {
      WrongCodeRefused(GET_PUBLIC_KEY_SUCCESS, pk, Frame(Reply(GET_PUBLIC_KEY_SUCCESS, pk)), expected);
    }
    if expected != MESSAGE_SENT_SUCCESS {
      WrongCodeRefused(MESSAGE_SENT_SUCCESS, ms, Frame(Reply(MESSAGE_SENT_SUCCESS, ms)), expected);
    }
    if expected != GENERIC_ERROR {
      assert PackError() == Reply(GENERIC_ERROR, []);
      WrongCodeRefused(GENERIC_ERROR, [], Frame(Reply(GENERIC_ERROR, [])), expected);
    }
  }
}
