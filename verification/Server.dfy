/** The server object and its connections (Server/server.py, and the receiving loop of
    Server/protocol.py), proved to compute `ServerSpec`. */
module Servers {
  import opened ByteStrings
  import opened Database
  import opened MessageTable
  import opened Protocol
  import opened Framing
  import opened ServerSpec

  /** An accepted connection. `incoming` lists the results of the coming `recv` calls; after them
      `recv` would block, which raises on a non-blocking socket. Send number `n` raises when
      `n in faults`. */
  class Connection {
    var incoming: seq<Bytes>
    var sent: Bytes
    var attempts: nat
    const faults: set<nat>

    constructor (recvs: seq<Bytes>, faults: set<nat>)
      ensures incoming == recvs && sent == [] && attempts == 0 && this.faults == faults
    {
      incoming, sent, attempts := recvs, [], 0;
      this.faults := faults;
    }

    method Recv() returns (data: Option<Bytes>)
      modifies this`incoming
      ensures data == if old(incoming) == [] then None else Some(old(incoming)[0])
      ensures incoming == if old(incoming) == [] then [] else old(incoming)[1..]
    {
      if incoming == [] {
        return None;
      }
      data := Some(incoming[0]);
      incoming := incoming[1..];
    }

    method Send(data: Bytes) returns (ok: bool)
      modifies this`sent, this`attempts
      ensures ok == (old(attempts) !in faults)
      ensures attempts == old(attempts) + 1
      ensures sent == old(sent) + if ok then data else []
    {
      ok := attempts !in faults;
      attempts := attempts + 1;
      if ok {
        sent := sent + data;
      }
    }
  }

  /** `SendMessageRequest.unpack`. The loop ends without a request when `recv` would block and,
      where the source spins without progress, when the peer has closed. */
  method UnpackSendRequest(conn: Connection, data: Bytes) returns (req: Option<SendRequest>)
    modifies conn`incoming
    ensures req == UnpackSend(data, old(conn.incoming))
  {
    var prefix := UnpackSendPrefix(data);
    if prefix.None? {
      return None;
    }
    var (header, to, typ, contentSize) := prefix.value;
    var bytesToRead := Min(contentSize, FIRST_ROOM);
    if |data| < SEND_HEAD_SIZE + bytesToRead {
      return None;
    }
    var content := data[SEND_HEAD_SIZE..SEND_HEAD_SIZE + bytesToRead];
    ghost var pieces := conn.incoming;
    while bytesToRead < contentSize
      invariant bytesToRead <= contentSize
      invariant var all, now := Gather(pieces, contentSize - Min(contentSize, FIRST_ROOM)),
                                Gather(conn.incoming, contentSize - bytesToRead);
                && (all.None? <==> now.None?)
                && (all.Some? ==>
                      data[SEND_HEAD_SIZE..SEND_HEAD_SIZE + Min(contentSize, FIRST_ROOM)] + all.value
                      == content + now.value)
      decreases contentSize - bytesToRead
    {
      var extra := conn.Recv();
      if extra.None? || extra.value == [] {
        return None;
      }
      var extraLen := Min(|extra.value|, contentSize - bytesToRead);
      ghost var rest := Gather(conn.incoming, contentSize - bytesToRead - extraLen);
      assert rest.Some? ==>
          content + (extra.value[..extraLen] + rest.value) == (content + extra.value[..extraLen]) + rest.value;
      content := content + extra.value[..extraLen];
      bytesToRead := bytesToRead + extraLen;
    }
    assert content + [] == content;
    return Some(SendRequest(header, to, typ, content));
  }

  class Server {
    const db: DbHandler

    constructor ()
      ensures fresh(db) && db.View() == Db([], map[])
    {
      db := new DbHandler();
    }

    /** Chunked writer: one padded packet for a short reply, unpadded packets for a long one. */
    method Write(conn: Connection, reply: Bytes) returns (r: WriteResult)
      modifies conn`sent, conn`attempts
      ensures var t := Transmit(reply, conn.faults, old(conn.attempts));
              && r == t.result && conn.attempts == t.attempts
              && conn.sent == old(conn.sent) + t.bytes
    {
      var buffer := reply;
      var n := conn.attempts;
      ghost var k := Packets(|Frame(reply)|);
      if |reply| < PACKET_SIZE {
        buffer := reply + Zeros(PACKET_SIZE - |reply|);
      } else if |reply| > PACKET_SIZE {
        var first := conn.Send(reply[..PACKET_SIZE]);
        if !first {
          GoThroughIs(conn.faults, n, k, 0);
          return Refused;
        }
        var bytesSent := PACKET_SIZE;
        ghost var done := 1;
        while bytesSent < |reply|
          invariant 1 <= done <= k && conn.attempts == n + done
          invariant bytesSent == if done < k then done * PACKET_SIZE else |reply|
          invariant bytesSent <= |reply|
          invariant conn.sent == old(conn.sent) + reply[..bytesSent]
          invariant forall i :: n <= i < n + done ==> i !in conn.faults
        {
          var toSend := Min(|reply| - bytesSent, PACKET_SIZE);
          assert reply[..bytesSent + toSend] == reply[..bytesSent] + reply[bytesSent..bytesSent + toSend];
          var ok := conn.Send(reply[bytesSent..bytesSent + toSend]);
          if !ok {
            GoThroughIs(conn.faults, n, k, done);
            return Raised;
          }
          bytesSent := bytesSent + toSend;
          done := done + 1;
        }
        GoThroughIs(conn.faults, n, k, k);
        return Sent;
      }
      var ok := conn.Send(buffer);
      GoThroughIs(conn.faults, n, 1, if ok then 1 else 0);
      return if ok then Sent else Refused;
    }

    method WriteAnswer(conn: Connection, reply: Bytes, ghost effect: Effect) returns (v: Verdict)
      requires conn.sent == [] && conn.attempts == 0
      modifies conn`sent, conn`attempts
      ensures var h := Answer(db.View(), reply, conn.faults, effect);
              v == h.verdict && conn.sent == h.sent && conn.attempts == h.attempts
    {
      if reply == [] {
        return Failed;
      }
      var r := Write(conn, reply);
      v := VerdictOf(r);
    }

    method HandleRegisterRequest(conn: Connection, data: Bytes, env: Env) returns (v: Verdict)
      requires conn.sent == [] && conn.attempts == 0 && conn.faults == env.faults
      modifies db, conn`sent, conn`attempts
      ensures var h := HandleRegister(old(db.View()), data, env);
              (db.View(), v, conn.sent, conn.attempts) == (h.db, h.verdict, h.sent, h.attempts)
    {
      var req := UnpackRegistration(data);
      if req.None? {
        return Failed;
      }
      var taken := db.CheckClientExists([], req.value.name);
      if taken {
        return Failed;
      }
      var stored := db.InsertClient(env.uuid, req.value.name, req.value.publicKey, env.storeOk);
      if !stored {
        return Failed;
      }
      var row := ClientRow(env.uuid, req.value.name, req.value.publicKey);
      v := WriteAnswer(conn, PackRegistered(env.uuid), Joined(row));
    }

    lemma OthersStep(clients: seq<ClientRow>, i: nat, id: Bytes)
      requires i < |clients|
      ensures var packed := if clients[i].id == id then [] else PackEntry(Entry(clients[i].id, clients[i].name));
              PackEntries(Others(clients[i..], id)) == packed + PackEntries(Others(clients[i + 1..], id))
    {
      var rest := Others(clients[i + 1..], id);
      assert clients[i..][1..] == clients[i + 1..];
      if clients[i].id == id {
        assert Others(clients[i..], id) == [] + rest == rest;
      } else {
        var e := Entry(clients[i].id, clients[i].name);
        assert ([e] + rest)[1..] == rest;
      }
    }

    /** The payload loop of `handle_get_clients_request`. */
    method PackOthers(id: Bytes) returns (payload: Bytes)
      ensures payload == PackEntries(Others(db.clients, id))
    {
      payload := [];
      var i := 0;
      while i < |db.clients|
        invariant 0 <= i <= |db.clients|
        invariant payload + PackEntries(Others(db.clients[i..], id)) == PackEntries(Others(db.clients, id))
      {
        var row := db.clients[i];
        OthersStep(db.clients, i, id);
        if row.id != id {
          payload := payload + PackEntry(Entry(row.id, row.name));
        }
        i := i + 1;
      }
    }

    method HandleGetClientsRequest(conn: Connection, data: Bytes, env: Env) returns (v: Verdict)
      requires conn.sent == [] && conn.attempts == 0 && conn.faults == env.faults
      modifies conn`sent, conn`attempts
      ensures var h := HandleGetClients(db.View(), data, env);
              (v, conn.sent, conn.attempts) == (h.verdict, h.sent, h.attempts)
    {
      var req := UnpackRequestHeader(data);
      if req.None? {
        return Failed;
      }
      var payload := PackOthers(req.value.clientId);
      v := WriteAnswer(conn, PackClientsList(payload), Quiet);
    }

    method HandleGetPublicKeyRequest(conn: Connection, data: Bytes, env: Env) returns (v: Verdict)
      requires conn.sent == [] && conn.attempts == 0 && conn.faults == env.faults
      modifies conn`sent, conn`attempts
      ensures var h := HandleGetPublicKey(db.View(), data, env);
              (v, conn.sent, conn.attempts) == (h.verdict, h.sent, h.attempts)
    {
      var req := UnpackPublicKeyRequest(data);
      if req.None? {
        return Failed;
      }
      var row := db.SelectClient(req.value.name);
      if row.None? || row.value.publicKey == [] {
        return Failed;
      }
      v := WriteAnswer(conn, PackPublicKey(row.value.id, row.value.publicKey), Quiet);
    }

    method HandleSendMessageRequest(conn: Connection, data: Bytes, env: Env) returns (v: Verdict)
      requires conn.sent == [] && conn.attempts == 0 && conn.faults == env.faults
      modifies db, conn
      ensures var h := HandleSend(old(db.View()), data, old(conn.incoming), env);
              (db.View(), v, conn.sent, conn.attempts) == (h.db, h.verdict, h.sent, h.attempts)
    {
      var req := UnpackSendRequest(conn, data);
      if req.None? {
        return Failed;
      }
      var r := req.value;
      var known := db.CheckClientExists(r.to, []);
      if !known || !ValidMessageType(r.typ) {
        return Failed;
      }
      var id := db.InsertMessage(r.to, r.header.clientId, r.typ, r.content, env.storeOk);
      if id == 0 {
        return Failed;
      }
      v := WriteAnswer(conn, PackMessageSent(r.to, id), Quiet);
    }

    /** The packing loop of `handle_get_unread_messages_request`. */
    method PackMessages(messages: seq<nat>) returns (payload: Bytes, packed: bool)
      requires AllStored(db.messages, messages)
      ensures packed == AllPackable(RecordsOf(db.messages, messages))
      ensures packed ==> payload == PackRecords(RecordsOf(db.messages, messages))
    {
      ghost var rs := RecordsOf(db.messages, messages);
      payload := [];
      var i := 0;
      while i < |messages|
        invariant 0 <= i <= |messages|
        invariant forall j :: 0 <= j < i ==> Packable(rs[j])
        invariant payload + PackRecords(rs[i..]) == PackRecords(rs)
      {
        var msgBuffer := PackRecord(RecordOf(db.messages, messages[i]));
        if msgBuffer == [] {
          assert !Packable(rs[i]);
          return [], false;
        }
        assert rs[i..][0] == rs[i] && rs[i..][1..] == rs[i + 1..];
        Associative(payload, msgBuffer, PackRecords(rs[i + 1..]));
        payload := payload + msgBuffer;
        i := i + 1;
      }
      return payload, true;
    }

    /** The delete loop: one commit per collected key. */
    method DeleteMessages(msgIds: seq<nat>, lost: set<nat>)
      modifies db`messages
      ensures db.messages == old(db.messages) - Dropped(msgIds, lost, 0)
    {
      ghost var m := db.messages;
      var i := 0;
      while i < |msgIds|
        invariant 0 <= i <= |msgIds|
        invariant db.messages - Dropped(msgIds[i..], lost, i) == m - Dropped(msgIds, lost, 0)
      {
        ghost var rest := Dropped(msgIds[i + 1..], lost, i + 1);
        assert msgIds[i..][1..] == msgIds[i + 1..];
        assert (db.messages - {msgIds[i]}) - rest == db.messages - ({msgIds[i]} + rest);
        assert {} + rest == rest;
        db.DeleteMsg(msgIds[i], i !in lost);
        i := i + 1;
      }
      assert Dropped(msgIds[i..], lost, i) == {};
      assert db.messages - {} == db.messages;
    }

    method HandleGetUnreadMessagesRequest(conn: Connection, data: Bytes, env: Env) returns (v: Verdict)
      requires conn.sent == [] && conn.attempts == 0 && conn.faults == env.faults
      modifies db, conn`sent, conn`attempts
      ensures var h := HandleGetUnread(old(db.View()), data, env);
              (db.View(), v, conn.sent, conn.attempts) == (h.db, h.verdict, h.sent, h.attempts)
    {
      var req := UnpackRequestHeader(data);
      if req.None? {
        return Failed;
      }
      var to := req.value.clientId;
      var messages := db.SelectUnreadMessages(to);
      UnreadAreStored(db.messages, to);
      var payload, packed := PackMessages(messages);
      if !packed {
        return Failed;
      }
      var header := PackResponseHeader(SERVER_VERSION, GET_UNREAD_MESSAGES_SUCCESS, |payload|);
      if header == [] {
        return Failed;
      }
      v := WriteAnswer(conn, header + payload, Quiet);
      if v != Done {
        return;
      }
      DeleteMessages(messages, env.lost);
    }

    method Dispatch(conn: Connection, code: nat, data: Bytes, env: Env) returns (v: Verdict)
      requires conn.sent == [] && conn.attempts == 0 && conn.faults == env.faults
      modifies db, conn
      ensures var h := Handle(old(db.View()), code, Event([data] + old(conn.incoming), env));
              (db.View(), v, conn.sent, conn.attempts) == (h.db, h.verdict, h.sent, h.attempts)
    {
      ghost var ev := Event([data] + conn.incoming, env);
      assert ev.recvs[0] == data && ev.recvs[1..] == conn.incoming;
      if code == REGISTER_CLIENT {
        v := HandleRegisterRequest(conn, data, env);
      } else if code == GET_CLIENTS_LIST {
        v := HandleGetClientsRequest(conn, data, env);
      } else if code == GET_PUBLIC_KEY {
        v := HandleGetPublicKeyRequest(conn, data, env);
      } else if code == SEND_MESSAGE {
        v := HandleSendMessageRequest(conn, data, env);
      } else {
        v := HandleGetUnreadMessagesRequest(conn, data, env);
      }
    }

    /** One connection. Without a first packet, or with an empty one, nothing happens. */
    method Read(conn: Connection, env: Env)
      requires conn.sent == [] && conn.attempts == 0 && conn.faults == env.faults
      modifies db, conn
      ensures var s := Serve(old(db.View()), Event(old(conn.incoming), env));
              db.View() == s.db && conn.sent == s.sent
    {
      ghost var ev := Event(conn.incoming, env);
      var first := conn.Recv();
      if first.None? || first.value == [] {
        return;
      }
      var data := first.value;
      assert ev.recvs == [data] + conn.incoming;
      var header := UnpackRequestHeader(data);
      if header.None? || !ValidRequestCode(header.value.code) {
        return;
      }
      var known := db.CheckClientExists(header.value.clientId, []);
      if !known && header.value.code != REGISTER_CLIENT {
        return;
      }
      var v := Dispatch(conn, header.value.code, data, env);
      if v == Failed {
        var r := Write(conn, PackError());
      }
    }
  }
}
