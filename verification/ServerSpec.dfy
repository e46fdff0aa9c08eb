/** What one connection does to the tables and what it sends back, as a function of the tables, the
    bytes received and the environment (Server/server.py). The class in module `Servers` is proved
    to compute it; the theorems about all runs are proved about it. */
module ServerSpec {
  import opened ByteStrings
  import opened Database
  import opened MessageTable
  import opened Protocol
  import opened Framing

  /** Everything the environment decides during one connection: the identifier drawn by `uuid4`,
      whether an insertion is stored, which sends raise, and which positions of the delete loop
      are not committed (failed, or after the process stopped). */
  datatype Env = Env(uuid: Bytes, storeOk: bool, faults: set<nat>, lost: set<nat>)

  /** One connection: the results of its `recv` calls, until one would block, and its environment. */
  datatype Event = Event(recvs: seq<Bytes>, env: Env)

  /** What a request did besides answering. `HandedOver` means that a complete mailbox reply went
      out, whose collected keys are `ids`. */
  datatype Effect =
    | Quiet
    | Joined(client: ClientRow)
    | Stored(id: nat, row: MessageRow)
    | HandedOver(to: Bytes, ids: seq<nat>)

  /** A handler returns True, returns False, or lets an exception escape. */
  datatype Verdict = Done | Failed | Escaped

  datatype Handled = Handled(db: Db, verdict: Verdict, sent: Bytes, attempts: nat, effect: Effect)

  function VerdictOf(r: WriteResult): Verdict {
    match r case Sent => Done case Refused => Failed case Raised => Escaped
  }

  function Reject(db: Db): Handled { Handled(db, Failed, [], 0, Quiet) }

  /** Writing a packed reply; an empty one is a packing failure and nothing is sent. */
  function Answer(db: Db, reply: Bytes, faults: set<nat>, effect: Effect): Handled {
    if reply == [] then Handled(db, Failed, [], 0, effect)
    else
      var t := Transmit(reply, faults, 0);
      Handled(db, VerdictOf(t.result), t.bytes, t.attempts, effect)
  }

  function HandleRegister(db: Db, data: Bytes, env: Env): Handled {
    var req := UnpackRegistration(data);
    if req.None? || ClientExists(db, [], req.value.name) then Reject(db)
    else
      var row := ClientRow(env.uuid, req.value.name, req.value.publicKey);
      var (db', stored) := StoreClient(db, row, env.storeOk);
      if !stored then Reject(db)
      else Answer(db', PackRegistered(env.uuid), env.faults, Joined(row))
  }

  /** All clients but the requester, in table order. */
  function Others(clients: seq<ClientRow>, id: Bytes): seq<Entry> {
    if clients == [] then []
    else (if clients[0].id == id then [] else [Entry(clients[0].id, clients[0].name)]) + Others(clients[1..], id)
  }

  function HandleGetClients(db: Db, data: Bytes, env: Env): Handled {
    var req := UnpackRequestHeader(data);
    if req.None? then Reject(db)
    else Answer(db, PackClientsList(PackEntries(Others(db.clients, req.value.clientId))), env.faults, Quiet)
  }

  function HandleGetPublicKey(db: Db, data: Bytes, env: Env): Handled {
    var req := UnpackPublicKeyRequest(data);
    if req.None? then Reject(db)
    else
      var row := FirstNamed(db.clients, req.value.name);
      if row.None? || row.value.publicKey == [] then Reject(db)
      else Answer(db, PackPublicKey(row.value.id, row.value.publicKey), env.faults, Quiet)
  }

  /** The content still missing after the first packet, taken from the following `recv` results;
      `None` when they run out or the peer has closed. */
  function Gather(pieces: seq<Bytes>, need: nat): (c: Option<Bytes>)
    ensures c.Some? ==> |c.value| == need
  {
    if need == 0 then Some([])
    else if pieces == [] || pieces[0] == [] then None
    else
      var take := Min(|pieces[0]|, need);
      var more := Gather(pieces[1..], need - take);
      if more.None? then None else Some(pieces[0][..take] + more.value)
  }

  /** Room for content in the first packet: 980 bytes. */
  const FIRST_ROOM: nat := PACKET_SIZE - REQUEST_HEADER_SIZE - SEND_PREFIX_SIZE

  function UnpackSend(data: Bytes, pieces: seq<Bytes>): (r: Option<SendRequest>)
    ensures r.Some? ==> |r.value.to| == CLIENT_ID_SIZE && |r.value.content| < U32
  {
    var p := UnpackSendPrefix(data);
    if p.None? then None
    else
      var (header, to, typ, size) := p.value;
      var first := Min(size, FIRST_ROOM);
      if |data| < SEND_HEAD_SIZE + first then None
      else
        var more := Gather(pieces, size - first);
        if more.None? then None
        else Some(SendRequest(header, to, typ, data[SEND_HEAD_SIZE..SEND_HEAD_SIZE + first] + more.value))
  }

  function HandleSend(db: Db, data: Bytes, pieces: seq<Bytes>, env: Env): Handled {
    var req := UnpackSend(data, pieces);
    if req.None? || !ClientExists(db, req.value.to, []) || !ValidMessageType(req.value.typ) || !env.storeOk
    then Reject(db)
    else
      var r := req.value;
      var id := NextId(db.messages);
      var row := MessageRow(r.to, r.header.clientId, r.typ, r.content);
      Answer(db.(messages := db.messages[id := row]), PackMessageSent(r.to, id), env.faults, Stored(id, row))
  }

  function RecordOf(m: map<nat, MessageRow>, id: nat): Record
    requires id in m
  {
    Record(m[id].from, id, m[id].typ, m[id].content)
  }

  function RecordsOf(m: map<nat, MessageRow>, ids: seq<nat>): (rs: seq<Record>)
    requires AllStored(m, ids)
    ensures |rs| == |ids|
    ensures forall i :: 0 <= i < |ids| ==> rs[i] == RecordOf(m, ids[i])
  {
    if ids == [] then [] else [RecordOf(m, ids[0])] + RecordsOf(m, ids[1..])
  }

  /** The mailbox of a client as the records that a fetch packs. */
  function Mailbox(m: map<nat, MessageRow>, to: Bytes): seq<Record> {
    UnreadAreStored(m, to);
    RecordsOf(m, Unread(m, to))
  }

  function PackMailbox(rs: seq<Record>): Bytes {
    var payload := PackRecords(rs);
    var h := PackResponseHeader(SERVER_VERSION, GET_UNREAD_MESSAGES_SUCCESS, |payload|);
    if !AllPackable(rs) || h == [] then [] else h + payload
  }

  function HandleGetUnread(db: Db, data: Bytes, env: Env): Handled {
    var req := UnpackRequestHeader(data);
    if req.None? then Reject(db)
    else
      var to := req.value.clientId;
      var ids := Unread(db.messages, to);
      var h := Answer(db, PackMailbox(Mailbox(db.messages, to)), env.faults, Quiet);
      if h.verdict != Done then h
      else h.(db := db.(messages := db.messages - Dropped(ids, env.lost, 0)), effect := HandedOver(to, ids))
  }

  function Handle(db: Db, code: nat, ev: Event): Handled
    requires ev.recvs != []
  {
    var data, env := ev.recvs[0], ev.env;
    if code == REGISTER_CLIENT then HandleRegister(db, data, env)
    else if code == GET_CLIENTS_LIST then HandleGetClients(db, data, env)
    else if code == GET_PUBLIC_KEY then HandleGetPublicKey(db, data, env)
    else if code == SEND_MESSAGE then HandleSend(db, data, ev.recvs[1..], env)
    else HandleGetUnread(db, data, env)
  }

  /** The dispatch gate of `Server.read`: a known code, and a registered sender unless the request
      is a registration. */
  predicate Admitted(db: Db, ev: Event) {
    && ev.recvs != [] && ev.recvs[0] != []
    && var h := UnpackRequestHeader(ev.recvs[0]);
    && h.Some? && ValidRequestCode(h.value.code)
    && (ClientExists(db, h.value.clientId, []) || h.value.code == REGISTER_CLIENT)
  }

  datatype Served = Served(db: Db, sent: Bytes, effect: Effect)

  /** One connection from the first `recv` to its end. */
  function Serve(db: Db, ev: Event): Served {
    if !Admitted(db, ev) then Served(db, [], Quiet)
    else
      var h := Handle(db, UnpackRequestHeader(ev.recvs[0]).value.code, ev);
      var error := if h.verdict == Failed then Transmit(PackError(), ev.env.faults, h.attempts).bytes else [];
      Served(h.db, h.sent + error, h.effect)
  }
}
