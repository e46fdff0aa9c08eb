/** Where the code, read literally, falls short of what the other modules prove of its intended
    meaning, and exactly when the two agree. */
module Slips {
  import opened ByteStrings
  import opened Database
  import opened MessageTable
  import opened Protocol
  import opened Framing
  import opened ServerSpec
  import opened Integrity
  import opened Reassembly
  import opened ClientSpec
  import opened ClientStates
  import opened Joint

  // ----- the receiver of a send request

  /** `SendMessageRequest.unpack` to the letter. The room in the first packet is computed from the
      announced payload size instead of the header size; a negative room makes the unpacking raise,
      and so does the loop, where the length of an integer is taken. */
  function UnpackSendAsWritten(data: Bytes): Option<SendRequest> {
    var p := UnpackSendPrefix(data);
    if p.None? then None
    else
      var (header, to, typ, size) := p.value;
      var room: int := PACKET_SIZE - header.payloadSize - SEND_PREFIX_SIZE;
      var bytesToRead: int := if size < room then size else room;
      if bytesToRead < 0 || |data| < SEND_HEAD_SIZE + bytesToRead || bytesToRead < size then None
      else Some(SendRequest(header, to, typ, data[SEND_HEAD_SIZE..SEND_HEAD_SIZE + bytesToRead]))
  }

  /** As written, a request is recovered if and only if its content fits the first packet and,
      together with the announced payload size, 1003 bytes; otherwise it is refused. */
  lemma AsWrittenReceives(r: SendRequest)
    requires FitsSendRequest(r)
    ensures UnpackSendAsWritten(FirstOf(r)) ==
              if |r.content| <= FIRST_ROOM && |r.content| + r.header.payloadSize <= PACKET_SIZE - SEND_PREFIX_SIZE
              then Some(r) else None
  {
    FirstPart(r);
    SendPrefixRoundTrip(r, FirstOf(r)[SEND_HEAD_SIZE..]);
    assert r.content[..|r.content|] == r.content;
  }

  /** For the payload size that the client announces with a text message this means at most 491
      bytes of content; the intended meaning has no limit. */
  lemma AsWrittenLimit(r: SendRequest)
    requires FitsSendRequest(r) && r.header.payloadSize == SEND_PREFIX_SIZE + |r.content|
    ensures UnpackSendAsWritten(FirstOf(r)) == Some(r) <==> |r.content| <= 491
  {
    AsWrittenReceives(r);
  }

  // ----- the sender of a send request

  /** The client compiles only where `size_t` has 32 bits (Client/SocketHandler.cpp:49), and pointers
      with it. */
  const ADDRESS_SIZE: nat := 4

  /** `handleSendMsgRequest` writes the bytes of the struct: the prefix and the content's address. */
  function SendBytesAsWritten(r: SendRequest, address: Bytes): Bytes
    requires FitsSendRequest(r) && |address| == ADDRESS_SIZE
  {
    SendPrefixBytes(r) + address
  }

  /** What arrives is the address and padding, cut to the announced size, or nothing. */
  lemma AsWrittenSends(r: SendRequest, address: Bytes)
    requires FitsSendRequest(r) && |address| == ADDRESS_SIZE
    ensures UnpackSend(PadToPackets(SendBytesAsWritten(r, address)), []) ==
              if |r.content| <= FIRST_ROOM then Some(r.(content := Fixed(FIRST_ROOM, address)[..|r.content|])) else None
  {
    var data, n := PadToPackets(SendBytesAsWritten(r, address)), |r.content|;
    assert data == SendPrefixBytes(r) + (address + Zeros(FIRST_ROOM - ADDRESS_SIZE));
    assert data[SEND_HEAD_SIZE..] == Fixed(FIRST_ROOM, address);
    SendPrefixRoundTrip(r, data[SEND_HEAD_SIZE..]);
    if n <= FIRST_ROOM {
      assert data[SEND_HEAD_SIZE..SEND_HEAD_SIZE + n] == data[SEND_HEAD_SIZE..][..n];
      assert data[SEND_HEAD_SIZE..SEND_HEAD_SIZE + n] + [] == data[SEND_HEAD_SIZE..SEND_HEAD_SIZE + n];
    }
  }

  /** The server recovers what the client meant to send. */
  predicate ArrivesAsWritten(r: SendRequest, address: Bytes)
    requires FitsSendRequest(r) && |address| == ADDRESS_SIZE
  {
    UnpackSend(PadToPackets(SendBytesAsWritten(r, address)), []) == Some(r)
  }

  lemma ArrivesIff(r: SendRequest, address: Bytes)
    requires FitsSendRequest(r) && |address| == ADDRESS_SIZE
    ensures ArrivesAsWritten(r, address) <==>
            |r.content| <= FIRST_ROOM && r.content == Fixed(FIRST_ROOM, address)[..|r.content|]
  {
    AsWrittenSends(r, address);
  }

  lemma OtherAddressBreaks(r: SendRequest, address: Bytes)
    requires FitsSendRequest(r) && |address| == ADDRESS_SIZE
    requires r.content != [] && address[0] != r.content[0]
    ensures !ArrivesAsWritten(r, address)
  {
    ArrivesIff(r, address);
    var sent := Fixed(FIRST_ROOM, address);
    assert sent[0] == address[0];
    if |r.content| <= FIRST_ROOM {
      assert sent[..|r.content|][0] == sent[0];
    }
  }

  lemma EmptyArrives(r: SendRequest, address: Bytes)
    requires FitsSendRequest(r) && |address| == ADDRESS_SIZE && r.content == []
    ensures ArrivesAsWritten(r, address)
  {
    ArrivesIff(r, address);
  }

  lemma AddressOtherThan(first: byte) returns (address: Bytes)
    ensures |address| == ADDRESS_SIZE && address[0] != first
  {
    var other: byte := if first == 0 then 1 else 0;
    address := [other] + Zeros(ADDRESS_SIZE - 1);
  }

  /** As written, the content reaches the server wherever it lies in memory if and only if it is
      empty. */
  lemma AsWrittenSendsIff(r: SendRequest)
    requires FitsSendRequest(r)
    ensures (forall address: Bytes :: |address| == ADDRESS_SIZE ==> ArrivesAsWritten(r, address)) <==> r.content == []
  {
    if r.content == [] {
      forall address: Bytes | |address| == ADDRESS_SIZE
        ensures ArrivesAsWritten(r, address)
      {
        EmptyArrives(r, address);
      }
    } else {
      var address := AddressOtherThan(r.content[0]);
      OtherAddressBreaks(r, address);
    }
  }

  // ----- the mailbox handler

  /** The content column as a SELECT returns it: a `str` when a `str` was inserted, and `bytes` when
      `bytes` were, which is what the server inserts. */
  datatype Cell = Text(utf8: Bytes) | Blob(data: Bytes)

  datatype Row = Row(from: Bytes, id: nat, typ: nat, content: Cell)

  /** How the loop over the rows ends: with a payload, by returning False, or with an exception. */
  datatype LoopEnd = Payload(bytes: Bytes) | ReturnsFalse | Raises

  /** The loop from `rows[0]` on. `bytes` have no `encode`. */
  function RowLoop(rows: seq<Row>, payload: Bytes): LoopEnd {
    if rows == [] then Payload(payload)
    else
      match rows[0].content
      case Blob(_) => Raises
      case Text(encoded) =>
        var msgBuffer := PackRecord(Record(rows[0].from, rows[0].id, rows[0].typ, encoded));
        if msgBuffer == [] then ReturnsFalse else RowLoop(rows[1..], payload + msgBuffer)
  }

  /** The loop of `handle_get_unread_messages_request` to the letter. */
  method PackRowsAsWritten(rows: seq<Row>) returns (end: LoopEnd)
    ensures end == RowLoop(rows, [])
  {
    var payload := [];
    var i := 0;
    while i < |rows|
      invariant 0 <= i <= |rows|
      invariant RowLoop(rows[i..], payload) == RowLoop(rows, [])
    {
      assert rows[i..][0] == rows[i] && rows[i..][1..] == rows[i + 1..];
      if rows[i].content.Blob? {
        return Raises;
      }
      var msgBuffer := PackRecord(Record(rows[i].from, rows[i].id, rows[i].typ, rows[i].content.utf8));
      if msgBuffer == [] {
        return ReturnsFalse;
      }
      payload := payload + msgBuffer;
      i := i + 1;
    }
    return Payload(payload);
  }

  predicate PacksAsText(row: Row) {
    row.content.Text? && Packable(Record(row.from, row.id, row.typ, row.content.utf8))
  }

  /** The loop raises if and only if it comes to a row with `bytes`. */
  lemma {:induction false} ThrowsIff(rows: seq<Row>, payload: Bytes)
    ensures RowLoop(rows, payload) == Raises <==>
            exists k :: 0 <= k < |rows| && rows[k].content.Blob? && forall j :: 0 <= j < k ==> PacksAsText(rows[j])
  {
    if rows != [] {
      if rows[0].content.Blob? {
        assert RowLoop(rows, payload) == Raises;
      } else if PacksAsText(rows[0]) {
        var rest := rows[1..];
        ThrowsIff(rest, payload + PackRecord(Record(rows[0].from, rows[0].id, rows[0].typ, rows[0].content.utf8)));
        if k :| 0 <= k < |rest| && rest[k].content.Blob? && forall j :: 0 <= j < k ==> PacksAsText(rest[j]) {
          assert rows[k + 1].content.Blob? && forall j :: 0 <= j < k + 1 ==> PacksAsText(rows[j]) by {
            assert forall j :: 1 <= j < k + 1 ==> rows[j] == rest[j - 1];
          }
        }
        if k :| 0 <= k < |rows| && rows[k].content.Blob? && forall j :: 0 <= j < k ==> PacksAsText(rows[j]) {
          assert rest[k - 1] == rows[k] && forall j :: 0 <= j < k - 1 ==> rest[j] == rows[j + 1];
        }
      } else {
        assert RowLoop(rows, payload) == ReturnsFalse;
      }
    }
  }

  /** The selected rows, with their contents as `str` or as `bytes`. */
  function RowsRead(rs: seq<Record>, asText: bool): (rows: seq<Row>)
    ensures |rows| == |rs|
    ensures asText ==> forall k :: 0 <= k < |rows| ==> rows[k].content.Text?
    ensures !asText ==> forall k :: 0 <= k < |rows| ==> rows[k].content.Blob?
  {
    if rs == [] then []
    else
      var r := rs[0];
      [Row(r.from, r.id, r.typ, if asText then Text(r.content) else Blob(r.content))] + RowsRead(rs[1..], asText)
  }

  /** On `str` contents the loop packs the mailbox or fails, as intended. */
  lemma {:induction false} TextRowsPack(rs: seq<Record>, payload: Bytes)
    ensures RowLoop(RowsRead(rs, true), payload) ==
              if AllPackable(rs) then Payload(payload + PackRecords(rs)) else ReturnsFalse
  {
    if rs == [] {
      assert payload + [] == payload;
    } else {
      var rows := RowsRead(rs, true);
      assert rows[1..] == RowsRead(rs[1..], true);
      assert AllPackable(rs) <==> Packable(rs[0]) && AllPackable(rs[1..]) by {
        assert forall i :: 1 <= i < |rs| ==> rs[i] == rs[1..][i - 1];
      }
      if Packable(rs[0]) {
        TextRowsPack(rs[1..], payload + PackRecord(rs[0]));
        assert payload + (PackRecord(rs[0]) + PackRecords(rs[1..]))
               == (payload + PackRecord(rs[0])) + PackRecords(rs[1..]);
      }
    }
  }

  /** `handle_get_unread_messages_request` to the letter, on a table that returns contents as `str`
      or, as the server's does, as `bytes`. */
  function HandleGetUnreadAsWritten(db: Db, data: Bytes, env: Env, asText: bool): Handled {
    var req := UnpackRequestHeader(data);
    if req.None? then Reject(db)
    else
      var to := req.value.clientId;
      match RowLoop(RowsRead(Mailbox(db.messages, to), asText), [])
      case Raises => Handled(db, Escaped, [], 0, Quiet)
      case ReturnsFalse => Reject(db)
      case Payload(payload) =>
        var header := PackResponseHeader(SERVER_VERSION, GET_UNREAD_MESSAGES_SUCCESS, |payload|);
        var h := Answer(db, if header == [] then [] else header + payload, env.faults, Quiet);
        if h.verdict != Done then h
        else
          h.(db := db.(messages := db.messages - Dropped(Unread(db.messages, to), env.lost, 0)),
             effect := HandedOver(to, Unread(db.messages, to)))
  }

  lemma AsWrittenOnText(db: Db, data: Bytes, env: Env)
    ensures HandleGetUnreadAsWritten(db, data, env, true) == HandleGetUnread(db, data, env)
  {
    if UnpackRequestHeader(data).Some? {
      var rs := Mailbox(db.messages, UnpackRequestHeader(data).value.clientId);
      TextRowsPack(rs, []);
      assert [] + PackRecords(rs) == PackRecords(rs);
    }
  }

  lemma AsWrittenOnBytes(db: Db, data: Bytes, env: Env)
    requires UnpackRequestHeader(data).Some?
    ensures var ids := Unread(db.messages, UnpackRequestHeader(data).value.clientId);
            HandleGetUnreadAsWritten(db, data, env, false) ==
              if ids == [] then HandleGetUnread(db, data, env) else Handled(db, Escaped, [], 0, Quiet)
  {
    var rs := Mailbox(db.messages, UnpackRequestHeader(data).value.clientId);
    ThrowsIff(RowsRead(rs, false), []);
    if rs == [] {
      AsWrittenOnText(db, data, env);
      assert RowsRead(rs, false) == RowsRead(rs, true);
    } else {
      assert RowsRead(rs, false)[0].content.Blob?;
    }
  }

  /** As written, a fetch does what is intended on a table that returns contents as `str`; on the
      server's table, if and only if the mailbox is empty. */
  lemma AsWrittenFetchIff(db: Db, data: Bytes, env: Env)
    requires UnpackRequestHeader(data).Some?
    ensures HandleGetUnreadAsWritten(db, data, env, true) == HandleGetUnread(db, data, env)
    ensures HandleGetUnreadAsWritten(db, data, env, false) == HandleGetUnread(db, data, env)
            <==> Unread(db.messages, UnpackRequestHeader(data).value.clientId) == []
  {
    AsWrittenOnText(db, data, env);
    AsWrittenOnBytes(db, data, env);
  }

  // ----- the list of a lone client

  /** Without failures of the connection, a registered client's list request succeeds if and only if
      there is another client, and not so many that their records outgrow the size field. */
  lemma ListSucceedsIff(db: Db, c: ClientState, env: Env)
    requires ClientsIntact(db.clients) && HasId(db.clients, c.id) && env.faults == {}
    requires |c.id| == CLIENT_ID_SIZE
    ensures var ev := Event([FirstPacket(BareRequest(c, GET_CLIENTS_LIST))], env);
            var others := Others(db.clients, c.id);
            ReceiveClientsList(Serve(db, ev).sent).Some? <==> others != [] && CLIENT_BLOCK_SIZE * |others| < U32
  {
    var reply := PackClientsList(PackEntries(Others(db.clients, c.id)));
    HeaderArrives(c, GET_CLIENTS_LIST);
    TransmitWithoutFaults(reply, {}, 0);
    TransmitWithoutFaults(PackError(), {}, 0);
    var ev := Event([FirstPacket(BareRequest(c, GET_CLIENTS_LIST))], env);
    ListAnswered(db, c, env);
    ListDelivered(db.clients, c.id, Serve(db, ev).sent);
    if reply == [] {
      assert Serve(db, ev).sent == [] + Frame(PackError()) == Frame(PackError());
      ErrorRefused(Serve(db, ev).sent, GET_CLIENTS_LIST_SUCCESS, 0);
    } else {
      assert Serve(db, ev).sent == Frame(reply) + [] == Frame(reply);
    }
  }
}

/** A mailbox that cannot be packed any more is never delivered again. */
module Blockage {
  import opened ByteStrings
  import opened Database
  import opened MessageTable
  import opened Protocol
  import opened ServerSpec
  import opened Integrity
  import opened PostOffice
  import opened Refinement
  import opened Runs
  import opened Delivery

  /** Bytes that messages take in a reply. */
  function ReplySize(items: seq<Item>): nat {
    if items == [] then 0 else RECORD_HEADER_SIZE + |items[0].content| + ReplySize(items[1..])
  }

  predicate IdsFit(ids: seq<nat>) {
    forall i :: 0 <= i < |ids| ==> ids[i] < U32
  }

  /** Some stored id does not fit four bytes, or the messages outgrow the size field of a reply. */
  predicate Blocked(db: Db, c: Bytes) {
    !IdsFit(Unread(db.messages, c)) || ReplySize(Pending(db, c)) >= U32
  }

  lemma {:induction false} PackedLength(m: map<nat, MessageRow>, ids: seq<nat>)
    requires AllStored(m, ids)
    requires forall i :: 0 <= i < |ids| ==> Packable(RecordOf(m, ids[i]))
    ensures |PackRecords(RecordsOf(m, ids))| == ReplySize(ItemsAt(m, ids))
  {
    if ids != [] {
      PackedLength(m, ids[1..]);
      assert RecordsOf(m, ids)[1..] == RecordsOf(m, ids[1..]);
      assert ItemsAt(m, ids)[1..] == ItemsAt(m, ids[1..]);
    }
  }

  lemma PackableIff(db: Db, ids: seq<nat>)
    requires Intact(db) && AllStored(db.messages, ids)
    ensures forall i :: 0 <= i < |ids| ==> (Packable(RecordOf(db.messages, ids[i])) <==> ids[i] < U32)
    ensures AllPackable(RecordsOf(db.messages, ids)) <==> IdsFit(ids)
  {
    forall i | 0 <= i < |ids|
      ensures Packable(RecordOf(db.messages, ids[i])) <==> ids[i] < U32
    {
      assert IntactMessage(db.clients, db.messages[ids[i]]);
    }
    var rs := RecordsOf(db.messages, ids);
    assert forall i :: 0 <= i < |ids| ==> rs[i] == RecordOf(db.messages, ids[i]);
  }

  lemma PackMailboxIff(rs: seq<Record>)
    ensures PackMailbox(rs) != [] <==> AllPackable(rs) && |PackRecords(rs)| < U32
  {
  }

  /** In every state with integrity, so in every reachable one, a mailbox is packed if and only if
      all its ids fit four bytes and its messages fit the size field. */
  lemma PackedIff(db: Db, c: Bytes)
    requires Intact(db)
    ensures PackMailbox(Mailbox(db.messages, c)) != [] <==> !Blocked(db, c)
  {
    var ids := Unread(db.messages, c);
    UnreadAreStored(db.messages, c);
    PackableIff(db, ids);
    PackMailboxIff(RecordsOf(db.messages, ids));
    if IdsFit(ids) {
      PackedLength(db.messages, ids);
    }
  }

  lemma {:induction false} ReplySizeAppend(items: seq<Item>, item: Item)
    ensures ReplySize(items + [item]) == ReplySize(items) + RECORD_HEADER_SIZE + |item.content|
  {
    if items == [] {
      assert items + [item] == [item];
      assert ReplySize([item][1..]) == 0;
    } else {
      assert (items + [item])[1..] == items[1..] + [item];
      ReplySizeAppend(items[1..], item);
    }
  }

  lemma BlockedIsNotHandedOver(db: Db, ev: Event, c: Bytes)
    requires Intact(db) && Blocked(db, c)
    ensures !HandsOverTo(Serve(db, ev).effect, c)
  {
    OnlyFetchesHandOver(db, ev);
    if IsFetchBy(ev, c) {
      FetchSends(db, ev, c);
      PackedIff(db, c);
    }
  }

  /** A client whose mailbox is not handed over keeps its ids and may get one more. */
  lemma IdsAfter(db: Db, effect: Effect, lost: set<nat>, db': Db, c: Bytes)
    requires PositiveKeys(db.messages) && Transition(db, effect, lost, db') && !HandsOverTo(effect, c)
    ensures Unread(db.messages, c) <= Unread(db'.messages, c)
  {
    match effect
    case Stored(_, row) => UnreadAfterInsert(db.messages, row, c);
    case HandedOver(to, _) => UnreadAfterDelete(db.messages, to, lost, c);
    case _ =>
  }

  lemma TransitionKeepsBlocked(db: Db, effect: Effect, lost: set<nat>, db': Db, c: Bytes)
    requires PositiveKeys(db.messages) && Transition(db, effect, lost, db')
    requires Blocked(db, c) && !HandsOverTo(effect, c)
    ensures Blocked(db', c) && Pending(db, c) <= Pending(db', c)
  {
    TransitionPending(db, effect, lost, db', c);
    IdsAfter(db, effect, lost, db', c);
    if effect.Stored? {
      ReplySizeAppend(Pending(db, c), ItemOf(effect.row));
    }
  }

  /** The connection hands nothing over to `c`, and no answer on it shows `c` anything. */
  predicate HoldsBack(db: Db, ev: Event, c: Bytes) {
    !HandsOverTo(Serve(db, ev).effect, c) && ShownBy(db, ev, c) == []
  }

  lemma ServeKeepsBlocked(db: Db, ev: Event, c: Bytes)
    requires Intact(db) && Blocked(db, c)
    ensures HoldsBack(db, ev, c)
    ensures Blocked(Serve(db, ev).db, c) && Pending(db, c) <= Pending(Serve(db, ev).db, c)
  {
    BlockedIsNotHandedOver(db, ev, c);
    ShownByEffect(db, ev, c);
    ServeIsTransition(db, ev);
    TransitionKeepsBlocked(db, Serve(db, ev).effect, ev.env.lost, Serve(db, ev).db, c);
  }

  lemma BlockedAfterLast(evs: seq<Event>, c: Bytes)
    requires evs != [] && Blocked(Before(evs).db, c)
    ensures Blocked(Run(evs).db, c) && Pending(Before(evs).db, c) <= Pending(Run(evs).db, c)
  {
    Reachable(evs[..|evs| - 1]);
    ServeKeepsBlocked(Before(evs).db, evs[|evs| - 1], c);
  }

  lemma {:induction false} StaysBlocked(evs: seq<Event>, k: nat, c: Bytes)
    requires k <= |evs| && Blocked(Run(evs[..k]).db, c)
    ensures Blocked(Run(evs).db, c) && Pending(Run(evs[..k]).db, c) <= Pending(Run(evs).db, c)
  {
    if k == |evs| {
      assert evs[..k] == evs;
    } else {
      var prefix := evs[..|evs| - 1];
      assert prefix[..k] == evs[..k];
      StaysBlocked(prefix, k, c);
      BlockedAfterLast(evs, c);
    }
  }

  /** Once a mailbox is blocked, after `k` connections of a run, it is so for ever, whatever arrives
      in any environment: no connection `ev` after any continuation of the run hands it over or shows
      any of it, and it only grows. */
  lemma BlockedForever(evs: seq<Event>, k: nat, ev: Event, c: Bytes)
    requires k <= |evs| && Blocked(Run(evs[..k]).db, c)
    ensures Blocked(Run(evs).db, c) && Pending(Run(evs[..k]).db, c) <= Pending(Run(evs).db, c)
    ensures HoldsBack(Run(evs).db, ev, c)
  {
    StaysBlocked(evs, k, c);
    Reachable(evs);
    ServeKeepsBlocked(Run(evs).db, ev, c);
  }
}
