/** The server together with any number of clients, and with connections from elsewhere. */
module Joint {
  import opened ByteStrings
  import opened Database
  import opened Protocol
  import opened Framing
  import opened ServerSpec
  import opened ClientSpec
  import opened Encodings
  import opened Profiles
  import opened Integrity
  import opened PostOffice
  import opened Refinement
  import opened Runs
  import opened Delivery
  import opened Reassembly
  import opened ClientStates

  datatype World = World(sys: Sys, clients: seq<ClientState>)

  /** One action. A client sees only the first `seen` bytes of the reply to a registration, a list
      request or a fetch, so that these may be lost or cut after the server has acted; the other
      replies change nothing in the client. `Foreign` is a connection from any other program,
      carrying any bytes, and under any client's identifier. */
  datatype Action =
    | Foreign(ev: Event)
    | Register(i: nat, name: Bytes, junk: Bytes, key: Bytes, privateKey: Bytes, env: Env, seen: nat,
               saving: Saving)
    | ListClients(i: nat, env: Env, seen: nat)
    | AskKey(i: nat, name: Bytes, env: Env)
    | SendTo(i: nat, name: Bytes, typ: nat, payloadSize: nat, content: Bytes, pieces: seq<Bytes>, env: Env)
    | FetchUnread(i: nat, env: Env, seen: nat)
    | Restart(i: nat, accepted: bool)

  /** The first packet of a request. */
  function FirstPacket(request: Bytes): Bytes {
    PadToPackets(request)[..Min(PACKET_SIZE, RoundUp(|request|))]
  }

  /** User input that the client's own checks let through, and what fits its integer fields. */
  predicate ProperRegistration(a: Action)
    requires a.Register?
  {
    && ValidUsername(a.name) && NEWLINE !in a.name && |a.key| == PUBLIC_KEY_SIZE && a.privateKey != []
    && |a.name| + 1 + |a.junk| == NAME_SIZE
  }

  function SendRequestOfAction(c: ClientState, a: Action): (r: Option<SendRequest>)
    requires a.SendTo? && |c.id| == CLIENT_ID_SIZE
    ensures r.Some? ==> FitsSendRequest(r.value)
  {
    SendRequestOf(c, a.name, a.typ, a.payloadSize, a.content)
  }

  /** The connection that an action makes, if the client lets it. Everything but registration is
      refused to an unregistered client, and registration to a registered one. */
  function Connects(w: World, a: Action): Option<Event> {
    if a.Foreign? then Some(a.ev)
    else if a.Restart? || a.i >= |w.clients| || |w.clients[a.i].id| != CLIENT_ID_SIZE then None
    else
      var c := w.clients[a.i];
      match a
      case Register(_, name, junk, key, _, env, _, _) =>
        if c.registered || c.file.Some? || !ProperRegistration(a) then None
        else Some(Event([FirstPacket(RegistrationBytes(name, junk, key))], env))
      case ListClients(_, env, _) =>
        if !c.registered then None
        else Some(Event([FirstPacket(BareRequest(c, GET_CLIENTS_LIST))], env))
      case AskKey(_, name, env) =>
        if !c.registered then None else Some(Event([FirstPacket(PublicKeyRequestBytes(c.id, name))], env))
      case SendTo(_, _, _, _, _, pieces, env) =>
        if !c.registered || SendRequestOfAction(c, a).None? then None
        else Some(SendEvent(SendRequestOfAction(c, a).value, pieces, env))
      case FetchUnread(_, env, _) =>
        if !c.registered then None
        else Some(Event([FirstPacket(BareRequest(c, GET_UNREAD_MESSAGES))], env))
  }

  /** What the acting client becomes when the server sent `sent`. */
  function Reacts(c: ClientState, a: Action, sent: Bytes): ClientState {
    match a
    case Register(_, name, _, key, privateKey, _, seen, saving) =>
      AfterRegistration(c, name, key, privateKey, Cut(sent, seen), saving)
    case ListClients(_, _, seen) => AfterList(c, Cut(sent, seen))
    case _ => c
  }

  function Act(w: World, a: Action): World {
    var ev := Connects(w, a);
    if ev.Some? then
      var sent := Serve(w.sys.db, ev.value).sent;
      World(Step(w.sys, ev.value),
            if a.Foreign? || a.i >= |w.clients| then w.clients
            else w.clients[a.i := Reacts(w.clients[a.i], a, sent)])
    else if a.Restart? && a.i < |w.clients| then
      w.(clients := w.clients[a.i := AfterRestart(w.clients[a.i], a.accepted)])
    else w
  }

  function Newcomers(n: nat): (cs: seq<ClientState>)
    ensures |cs| == n && forall i :: 0 <= i < n ==> cs[i] == NEWCOMER
  {
    seq(n, _ => NEWCOMER)
  }

  function Play(n: nat, actions: seq<Action>): World {
    if actions == [] then World(INITIAL, Newcomers(n))
    else Act(Play(n, actions[..|actions| - 1]), actions[|actions| - 1])
  }

  // ----- the joint invariant

  predicate HasRow(rows: seq<ClientRow>, id: Bytes, name: Bytes) {
    exists k :: 0 <= k < |rows| && rows[k].id == id && rows[k].name == name
  }

  /** The name and identifier that a program has, or will have when it is started again. */
  function Claimed(c: ClientState): Option<(Bytes, Bytes)> {
    if c.registered then Some((c.name, c.id))
    else if OnDisk(c).Some? then Some((OnDisk(c).value.name, OnDisk(c).value.id))
    else None
  }

  /** A registered client is one row of the server, holds the row's public key unless it was
      restarted, since the profile does not keep it, and its profile loads to what it holds if and only
      if enough of it reached the disk. What loads otherwise is the same identity with a part of the
      key. */
  predicate Backed(rows: seq<ClientRow>, c: ClientState) {
    c.registered ==>
      && HasRow(rows, c.id, c.name)
      && (if c.reloaded then c.publicKey == Zeros(PUBLIC_KEY_SIZE)
          else ClientRow(c.id, c.name, c.publicKey) in rows)
      && c.file.Some?
      && (OnDisk(c) == Some(Profile(c.name, c.id, c.privateKey)) <==> c.intact)
      && (OnDisk(c).Some? ==> OnDisk(c).value.name == c.name && OnDisk(c).value.id == c.id
                              && OnDisk(c).value.privateKey <= c.privateKey)
  }

  /** Whatever loads is one row of the server. */
  predicate Consistent(rows: seq<ClientRow>, c: ClientState) {
    |c.id| == CLIENT_ID_SIZE && (OnDisk(c).Some? ==> HasRow(rows, OnDisk(c).value.id, OnDisk(c).value.name))
  }

  /** Every cached entry names one row of the server. */
  predicate SoundDirectory(rows: seq<ClientRow>, dir: seq<Entry>) {
    forall k :: 0 <= k < |dir| ==> HasRow(rows, dir[k].id, dir[k].name)
  }

  /** Not the same name and not the same identifier. */
  predicate Apart(c: ClientState, d: ClientState) {
    Claimed(c).Some? && Claimed(d).Some? ==>
      Claimed(c).value.0 != Claimed(d).value.0 && Claimed(c).value.1 != Claimed(d).value.1
  }

  ghost predicate NoSharedIdentity(cs: seq<ClientState>) {
    forall i, j :: 0 <= i < |cs| && 0 <= j < |cs| && i != j ==> Apart(cs[i], cs[j])
  }

  predicate Settled(rows: seq<ClientRow>, c: ClientState) {
    Consistent(rows, c) && Backed(rows, c) && SoundDirectory(rows, c.directory)
  }

  predicate AllSettled(rows: seq<ClientRow>, cs: seq<ClientState>) {
    forall i :: 0 <= i < |cs| ==> Settled(rows, cs[i])
  }

  ghost predicate WorldGood(w: World) {
    Good(w.sys) && NoSharedIdentity(w.clients) && AllSettled(w.sys.db.clients, w.clients)
  }

  // ----- replies

  /** What reaches the client of a request that was answered or refused is part of one framed
      reply: the handler's own, or the error. */
  predicate PartOfReply(sent: Bytes, reply: Bytes) {
    sent <= Frame(reply) || sent <= Frame(PackError())
  }

  lemma AnswerIsPart(db: Db, reply: Bytes, faults: set<nat>, effect: Effect)
    ensures var h := Answer(db, reply, faults, effect);
            var error := if h.verdict == Failed then Transmit(PackError(), faults, h.attempts).bytes else [];
            PartOfReply(h.sent + error, reply)
  {
    var h := Answer(db, reply, faults, effect);
    assert h.sent + [] == h.sent && (h.verdict == Failed ==> h.sent == []);
    var e := Transmit(PackError(), faults, h.attempts).bytes;
    assert [] + e == e;
  }

  lemma CutIsPart(sent: Bytes, reply: Bytes, seen: nat)
    requires PartOfReply(sent, reply)
    ensures PartOfReply(Cut(sent, seen), reply)
  {
  }

  lemma RegistrationAdmitted(db: Db, name: Bytes, junk: Bytes, key: Bytes, env: Env)
    requires 0 !in name && |name| + 1 + |junk| == NAME_SIZE && |key| == PUBLIC_KEY_SIZE
    ensures var data := FirstPacket(RegistrationBytes(name, junk, key));
            var r := UnpackRegistration(data);
            && r.Some? && r.value.name == name && r.value.publicKey == key
            && Admitted(db, Event([data], env)) && UnpackRequestHeader(data).value.code == REGISTER_CLIENT
  {
    var b := RegistrationBytes(name, junk, key);
    var data := FirstPacket(b);
    assert data == b + data[|b|..];
    RegistrationRoundTrip(name, junk, key, data[|b|..]);
  }

  /** A registration that a client believes was stored by that very connection, under a name and an
      identifier that no row had. */
  lemma RegistrationReply(db: Db, name: Bytes, junk: Bytes, key: Bytes, env: Env, seen: nat)
    requires 0 !in name && |name| + 1 + |junk| == NAME_SIZE && |key| == PUBLIC_KEY_SIZE
    ensures var ev := Event([FirstPacket(RegistrationBytes(name, junk, key))], env);
            var id := ReceiveRegistration(Cut(Serve(db, ev).sent, seen));
            id.Some? ==>
              && |id.value| == CLIENT_ID_SIZE && !HasName(db.clients, name) && !HasId(db.clients, id.value)
              && Serve(db, ev).effect == Joined(ClientRow(id.value, name, key))
  {
    var data := FirstPacket(RegistrationBytes(name, junk, key));
    RegistrationAdmitted(db, name, junk, key, env);
    var h := HandleRegister(db, data, env);
    var sent := Serve(db, Event([data], env)).sent;
    if h.effect == Quiet {
      assert sent == [] + Transmit(PackError(), env.faults, 0).bytes;
      ErrorRefused(Cut(sent, seen), REGISTER_SUCCESS, CLIENT_ID_SIZE);
    } else {
      var reply := PackRegistered(env.uuid);
      assert reply == Reply(REGISTER_SUCCESS, env.uuid);
      AnswerIsPart(h.db, reply, env.faults, h.effect);
      CutIsPart(sent, reply, seen);
      if Cut(sent, seen) <= Frame(reply) {
        FixedReplyRoundTrip(REGISTER_SUCCESS, env.uuid, Cut(sent, seen));
      } else {
        ErrorRefused(Cut(sent, seen), REGISTER_SUCCESS, CLIENT_ID_SIZE);
      }
    }
  }

  lemma ErrorRefused(seen: Bytes, expected: nat, size: nat)
    requires seen <= Frame(PackError()) && expected != GENERIC_ERROR
    ensures ReceiveFixed(seen, expected, size).None? && ReceivePayload(seen, expected).None?
  {
    assert PackError() == Reply(GENERIC_ERROR, []);
    WrongCodeRefused(GENERIC_ERROR, [], seen, expected);
  }

  lemma {:induction false} OthersWellFormed(rows: seq<ClientRow>, id: Bytes)
    requires forall i :: 0 <= i < |rows| ==> WellFormedClient(rows[i])
    ensures forall i :: 0 <= i < |Others(rows, id)| ==> WellFormedEntry(Others(rows, id)[i])
  {
    if rows != [] {
      OthersWellFormed(rows[1..], id);
    }
  }

  /** Client-list delivery: from any part of the reply that reaches it the requester takes nothing
      or exactly the other registered clients, each once and in table order; from the whole reply
      it takes them, unless there are none or too many to announce. */
  lemma ListDelivered(rows: seq<ClientRow>, id: Bytes, seen: Bytes)
    requires ClientsIntact(rows)
    requires PartOfReply(seen, PackClientsList(PackEntries(Others(rows, id))))
    ensures var others := Others(rows, id);
            var got := ReceiveClientsList(seen);
            && (got.Some? ==> got.value == others)
            && (seen == Frame(PackClientsList(PackEntries(others))) ==>
                  (got.Some? <==> others != [] && CLIENT_BLOCK_SIZE * |others| < U32))
  {
    var others := Others(rows, id);
    var payload := PackEntries(others);
    OthersWellFormed(rows, id);
    EntriesRoundTrip(others);
    if seen <= Frame(PackError()) {
      ErrorRefused(seen, GET_CLIENTS_LIST_SUCCESS, 0);
    }
    if others != [] && |payload| < U32 {
      assert PackClientsList(payload) == Reply(GET_CLIENTS_LIST_SUCCESS, payload);
      if seen <= Frame(PackClientsList(payload)) {
        FramingRoundTrip(GET_CLIENTS_LIST_SUCCESS, payload, seen);
      }
    } else if seen <= Frame([]) {
      EmptyFrameRefused(seen, GET_CLIENTS_LIST_SUCCESS);
    }
  }

  lemma EmptyFrameRefused(seen: Bytes, expected: nat)
    requires seen <= Frame([]) && expected != 0
    ensures ReceivePayload(seen, expected).None?
  {
    if |seen| >= PACKET_SIZE {
      assert seen[RESPONSE_VERSION_END..RESPONSE_CODE_END] == LittleEndian(2, 0);
      Widths();
      ValueOfLittleEndian(2, 0);
    }
  }

  // ----- one action keeps the invariant

  lemma HasRowIn(rows: seq<ClientRow>, row: ClientRow)
    requires row in rows
    ensures HasRow(rows, row.id, row.name)
  {
  }

  lemma HasRowHasBoth(rows: seq<ClientRow>, id: Bytes, name: Bytes)
    requires HasRow(rows, id, name)
    ensures HasId(rows, id) && HasName(rows, name)
  {
  }

  /** Client rows are never removed or renamed, so what clients hold stays true. */
  lemma RowsGrow(rows: seq<ClientRow>, rows': seq<ClientRow>, c: ClientState)
    requires rows <= rows'
    requires Settled(rows, c)
    ensures Settled(rows', c)
  {
  }

  lemma {:induction false} OthersAreRows(rows: seq<ClientRow>, id: Bytes)
    ensures SoundDirectory(rows, Others(rows, id))
  {
    if rows != [] {
      OthersAreRows(rows[1..], id);
      forall x, name | HasRow(rows[1..], x, name)
        ensures HasRow(rows, x, name)
      {
        var k :| 0 <= k < |rows[1..]| && rows[1..][k].id == x && rows[1..][k].name == name;
        assert rows[k + 1] == rows[1..][k];
      }
      assert HasRow(rows, rows[0].id, rows[0].name);
    }
  }

  /** The profile file after a registration: nothing loads unless the file was opened three times,
      and what loads is the saved profile if and only if enough of it reached the disk. */
  lemma SavedFileLoads(p: Profile, s: Saving)
    requires SavableProfile(p)
    ensures var file := FileAfter(None, p, s);
            var loaded := if file.None? then None else Load(file.value);
            && (s.opens < 3 ==> loaded.None?)
            && (loaded == Some(p) <==> Covers(p, s))
            && (loaded.Some? ==> loaded.value.name == p.name && loaded.value.id == p.id
                                 && loaded.value.privateKey <= p.privateKey)
  {
    assert [] + SavedBytes(p, s) == SavedBytes(p, s);
    SavedLoadsIff(p, s);
    if s.opens < 3 {
      PartialNeverLoads(p, s);
    }
  }

  lemma RegistrationKeepsBacked(rows: seq<ClientRow>, c: ClientState, a: Action, reply: Bytes)
    requires a.Register? && ProperRegistration(a) && c.file.None? && !c.registered
    requires |c.id| == CLIENT_ID_SIZE && SoundDirectory(rows, c.directory)
    requires var id := ReceiveRegistration(reply);
             id.Some? ==> |id.value| == CLIENT_ID_SIZE && ClientRow(id.value, a.name, a.key) in rows
    ensures var c' := AfterRegistration(c, a.name, a.key, a.privateKey, reply, a.saving);
            && Settled(rows, c') && c'.directory == c.directory
            && (Claimed(c').Some? ==> Claimed(c').value == (a.name, c'.id) && ReceiveRegistration(reply) == Some(c'.id))
  {
    var id := ReceiveRegistration(reply);
    if id.Some? {
      HasRowIn(rows, ClientRow(id.value, a.name, a.key));
      SavedFileLoads(Profile(a.name, id.value, a.privateKey), a.saving);
    }
  }

  lemma RestartKeepsBacked(rows: seq<ClientRow>, c: ClientState, accepted: bool)
    requires Settled(rows, c)
    ensures var c' := AfterRestart(c, accepted);
            Settled(rows, c') && (Claimed(c').Some? ==> Claimed(c') == Claimed(c))
  {
  }

  /** A list answer leaves the tables and is part of the reply that lists the other clients. */
  lemma ListAnswered(db: Db, c: ClientState, env: Env)
    requires |c.id| == CLIENT_ID_SIZE
    ensures var s := Serve(db, Event([FirstPacket(BareRequest(c, GET_CLIENTS_LIST))], env));
            s.db == db && s.effect == Quiet
            && PartOfReply(s.sent, PackClientsList(PackEntries(Others(db.clients, c.id))))
  {
    HeaderArrives(c, GET_CLIENTS_LIST);
    AnswerIsPart(db, PackClientsList(PackEntries(Others(db.clients, c.id))), env.faults, Quiet);
  }

  lemma HeaderArrives(c: ClientState, code: nat)
    requires |c.id| == CLIENT_ID_SIZE && code < U16
    ensures UnpackRequestHeader(FirstPacket(BareRequest(c, code))) == Some(HeaderOf(c, code, 0))
  {
    var h := HeaderOf(c, code, 0);
    var b := RequestHeaderBytes(h);
    assert FirstPacket(b) == b + FirstPacket(b)[|b|..];
    RequestHeaderRoundTrip(h, FirstPacket(b)[|b|..]);
  }

  lemma RowsAfter(s: Sys, ev: Event)
    requires Good(s)
    ensures Good(Step(s, ev))
    ensures var rows, rows', effect := s.db.clients, Step(s, ev).db.clients, Serve(s.db, ev).effect;
            rows' == (if effect.Joined? then rows + [effect.client] else rows) && rows <= rows'
  {
    StepAdvances(s, ev);
    AdvanceKeepsGood(s, Serve(s.db, ev).effect, ev.env.lost, Step(s, ev));
  }

  /** What the acting client may become: well backed, and registered only as before or under an
      identity that no row had. */
  predicate GoodReaction(rows: seq<ClientRow>, rows': seq<ClientRow>, c: ClientState, c': ClientState) {
    && Settled(rows', c')
    && (Claimed(c').Some? ==>
          Claimed(c') == Claimed(c) || (!HasName(rows, Claimed(c').value.0) && !HasId(rows, Claimed(c').value.1)))
  }

  lemma RegisterReaction(rows: seq<ClientRow>, rows': seq<ClientRow>, c: ClientState, a: Action, reply: Bytes)
    requires a.Register? && ProperRegistration(a) && c.file.None? && !c.registered && Settled(rows, c)
    requires rows <= rows'
    requires var id := ReceiveRegistration(reply);
             id.Some? ==>
               && |id.value| == CLIENT_ID_SIZE && !HasName(rows, a.name) && !HasId(rows, id.value)
               && ClientRow(id.value, a.name, a.key) in rows'
    ensures GoodReaction(rows, rows', c, AfterRegistration(c, a.name, a.key, a.privateKey, reply, a.saving))
  {
    RowsGrow(rows, rows', c);
    RegistrationKeepsBacked(rows', c, a, reply);
  }

  lemma ListReaction(rows: seq<ClientRow>, c: ClientState, reply: Bytes)
    requires c.registered && Settled(rows, c) && ClientsIntact(rows)
    requires PartOfReply(reply, PackClientsList(PackEntries(Others(rows, c.id))))
    ensures GoodReaction(rows, rows, c, AfterList(c, reply))
  {
    ListDelivered(rows, c.id, reply);
    OthersAreRows(rows, c.id);
  }

  lemma RegisterExchange(w: World, a: Action, ev: Event)
    requires WorldGood(w) && a.Register? && Connects(w, a) == Some(ev)
    ensures var c := w.clients[a.i];
            GoodReaction(w.sys.db.clients, Step(w.sys, ev).db.clients, c, Reacts(c, a, Serve(w.sys.db, ev).sent))
  {
    RowsAfter(w.sys, ev);
    RegistrationReply(w.sys.db, a.name, a.junk, a.key, a.env, a.seen);
    RegisterReaction(w.sys.db.clients, Step(w.sys, ev).db.clients, w.clients[a.i], a,
                     Cut(Serve(w.sys.db, ev).sent, a.seen));
  }

  lemma ListExchange(w: World, a: Action, ev: Event)
    requires WorldGood(w) && a.ListClients? && Connects(w, a) == Some(ev)
    ensures var c := w.clients[a.i];
            GoodReaction(w.sys.db.clients, Step(w.sys, ev).db.clients, c, Reacts(c, a, Serve(w.sys.db, ev).sent))
  {
    var c, sent := w.clients[a.i], Serve(w.sys.db, ev).sent;
    RowsAfter(w.sys, ev);
    ListAnswered(w.sys.db, c, a.env);
    CutIsPart(sent, PackClientsList(PackEntries(Others(w.sys.db.clients, c.id))), a.seen);
    ListReaction(w.sys.db.clients, c, Cut(sent, a.seen));
  }

  lemma OtherExchange(rows: seq<ClientRow>, rows': seq<ClientRow>, c: ClientState, a: Action, sent: Bytes)
    requires Settled(rows, c) && rows <= rows' && !a.Register? && !a.ListClients?
    ensures GoodReaction(rows, rows', c, Reacts(c, a, sent))
  {
    RowsGrow(rows, rows', c);
  }

  /** The acting client after its exchange. */
  lemma ReactionIsBacked(w: World, a: Action)
    requires WorldGood(w) && !a.Foreign? && Connects(w, a).Some?
    ensures var c, ev := w.clients[a.i], Connects(w, a).value;
            GoodReaction(w.sys.db.clients, Step(w.sys, ev).db.clients, c, Reacts(c, a, Serve(w.sys.db, ev).sent))
  {
    var c, ev := w.clients[a.i], Connects(w, a).value;
    if a.Register? {
      RegisterExchange(w, a, ev);
    } else if a.ListClients? {
      ListExchange(w, a, ev);
    } else {
      RowsAfter(w.sys, ev);
      OtherExchange(w.sys.db.clients, Step(w.sys, ev).db.clients, c, a, Serve(w.sys.db, ev).sent);
    }
  }

  lemma ReplacedStaysApart(rows: seq<ClientRow>, c: ClientState, c': ClientState, d: ClientState)
    requires Settled(rows, d) && Apart(c, d)
    requires Claimed(c').Some? ==>
               Claimed(c') == Claimed(c) || (!HasName(rows, Claimed(c').value.0) && !HasId(rows, Claimed(c').value.1))
    ensures Apart(c', d) && Apart(d, c')
  {
    if Claimed(d).Some? {
      HasRowHasBoth(rows, Claimed(d).value.1, Claimed(d).value.0);
    }
  }

  lemma ReplaceKeepsDistinct(rows: seq<ClientRow>, cs: seq<ClientState>, i: nat, c: ClientState)
    requires i < |cs| && NoSharedIdentity(cs)
    requires AllSettled(rows, cs)
    requires Claimed(c).Some? ==>
               Claimed(c) == Claimed(cs[i]) || (!HasName(rows, Claimed(c).value.0) && !HasId(rows, Claimed(c).value.1))
    ensures NoSharedIdentity(cs[i := c])
  {
    forall j | 0 <= j < |cs| && j != i
      ensures Apart(c, cs[j]) && Apart(cs[j], c)
    {
      ReplacedStaysApart(rows, cs[i], c, cs[j]);
    }
  }

  lemma AllStaySettled(rows: seq<ClientRow>, rows': seq<ClientRow>, cs: seq<ClientState>)
    requires rows <= rows' && AllSettled(rows, cs)
    ensures AllSettled(rows', cs)
  {
  }

  lemma Assemble(w: World, s': Sys, i: nat, c': ClientState)
    requires WorldGood(w) && Good(s') && w.sys.db.clients <= s'.db.clients
    requires i < |w.clients| ==> GoodReaction(w.sys.db.clients, s'.db.clients, w.clients[i], c')
    ensures WorldGood(World(s', if i < |w.clients| then w.clients[i := c'] else w.clients))
  {
    AllStaySettled(w.sys.db.clients, s'.db.clients, w.clients);
    if i < |w.clients| {
      ReplaceKeepsDistinct(w.sys.db.clients, w.clients, i, c');
    }
  }

  lemma ConnectionKeepsGood(w: World, a: Action)
    requires WorldGood(w) && Connects(w, a).Some?
    ensures WorldGood(Act(w, a))
  {
    var ev := Connects(w, a).value;
    var i := if a.Foreign? then |w.clients| else a.i;
    var c' := if a.Foreign? then NEWCOMER else Reacts(w.clients[a.i], a, Serve(w.sys.db, ev).sent);
    RowsAfter(w.sys, ev);
    if !a.Foreign? {
      ReactionIsBacked(w, a);
    }
    Assemble(w, Step(w.sys, ev), i, c');
  }

  lemma RestartKeepsGood(w: World, i: nat, accepted: bool)
    requires WorldGood(w) && i < |w.clients|
    ensures WorldGood(w.(clients := w.clients[i := AfterRestart(w.clients[i], accepted)]))
  {
    RestartKeepsBacked(w.sys.db.clients, w.clients[i], accepted);
    ReplaceKeepsDistinct(w.sys.db.clients, w.clients, i, AfterRestart(w.clients[i], accepted));
  }

  lemma ActKeepsGood(w: World, a: Action)
    requires WorldGood(w)
    ensures WorldGood(Act(w, a))
  {
    if Connects(w, a).Some? {
      ConnectionKeepsGood(w, a);
    } else if a.Restart? && a.i < |w.clients| {
      RestartKeepsGood(w, a.i, a.accepted);
    }
  }

  // ----- all interleavings

  /** Joint registration invariant, over all interleavings of any number of clients with each other
      and with foreign connections, with replies lost or cut, profiles saved in part and programs
      restarted. */
  lemma {:induction false} JointInvariant(n: nat, actions: seq<Action>)
    ensures WorldGood(Play(n, actions))
  {
    if actions == [] {
      StartIsGood(n);
    } else {
      JointInvariant(n, actions[..|actions| - 1]);
      ActKeepsGood(Play(n, actions[..|actions| - 1]), actions[|actions| - 1]);
    }
  }

  lemma StartIsGood(n: nat)
    ensures WorldGood(World(INITIAL, Newcomers(n)))
  {
  }

  /** The connections that a sequence of actions makes. */
  function Connections(n: nat, actions: seq<Action>): seq<Event> {
    if actions == [] then []
    else
      var prefix, last := actions[..|actions| - 1], actions[|actions| - 1];
      var ev := Connects(Play(n, prefix), last);
      if ev.None? then Connections(n, prefix) else Connections(n, prefix) + [ev.value]
  }

  /** The server's side of the joint system is one of the runs that the mailbox theorems are about. */
  lemma {:induction false} PlayIsRun(n: nat, actions: seq<Action>)
    ensures Play(n, actions).sys == Run(Connections(n, actions))
  {
    if actions != [] {
      var prefix, last := actions[..|actions| - 1], actions[|actions| - 1];
      PlayIsRun(n, prefix);
      var ev := Connects(Play(n, prefix), last);
      if ev.Some? {
        var evs := Connections(n, prefix) + [ev.value];
        assert evs[..|evs| - 1] == Connections(n, prefix);
      }
    }
  }

  /** The header that the server reads from the first packet of an action. */
  lemma HeaderOfAction(w: World, a: Action)
    requires !a.Foreign? && Connects(w, a).Some?
    ensures var ev, c := Connects(w, a).value, w.clients[a.i];
            && ev.recvs != [] && UnpackRequestHeader(ev.recvs[0]).Some?
            && var h := UnpackRequestHeader(ev.recvs[0]).value;
               if c.registered then h.clientId == c.id && REGISTER_CLIENT < h.code <= GET_UNREAD_MESSAGES
               else h.code == REGISTER_CLIENT
  {
    var c := w.clients[a.i];
    match a
    case Register(_, name, junk, key, _, env, _, _) => RegistrationAdmitted(w.sys.db, name, junk, key, env);
    case ListClients(_, _, _) => HeaderArrives(c, GET_CLIENTS_LIST);
    case FetchUnread(_, _, _) => HeaderArrives(c, GET_UNREAD_MESSAGES);
    case AskKey(_, name, _) => KeyRequestArrives(c, name);
    case SendTo(_, _, _, _, _, pieces, env) => SendArrives(SendRequestOfAction(c, a).value, pieces, env);
  }

  lemma KeyRequestArrives(c: ClientState, name: Bytes)
    requires |c.id| == CLIENT_ID_SIZE
    ensures UnpackRequestHeader(FirstPacket(PublicKeyRequestBytes(c.id, name)))
            == Some(HeaderOf(c, GET_PUBLIC_KEY, NAME_SIZE))
  {
    var h := HeaderOf(c, GET_PUBLIC_KEY, NAME_SIZE);
    var data := FirstPacket(PublicKeyRequestBytes(c.id, name));
    assert data == RequestHeaderBytes(h) + data[REQUEST_HEADER_SIZE..];
    RequestHeaderRoundTrip(h, data[REQUEST_HEADER_SIZE..]);
  }

  lemma SendArrives(r: SendRequest, pieces: seq<Bytes>, env: Env)
    requires FitsSendRequest(r)
    ensures UnpackRequestHeader(SendEvent(r, pieces, env).recvs[0]) == Some(r.header)
  {
    SendHeaderArrives(r);
  }

  /** The gate: a client sends anything but a registration only when it is registered, and then the
      server lets it in. */
  lemma GateHolds(n: nat, actions: seq<Action>, a: Action)
    requires !a.Foreign? && Connects(Play(n, actions), a).Some?
    ensures var w := Play(n, actions);
            var ev := Connects(w, a).value;
            && Admitted(w.sys.db, ev)
            && (w.clients[a.i].registered <==> UnpackRequestHeader(ev.recvs[0]).value.code != REGISTER_CLIENT)
  {
    JointInvariant(n, actions);
    HeaderOfAction(Play(n, actions), a);
    RegisteredIsAdmitted(Play(n, actions).sys.db, Play(n, actions).clients[a.i], Connects(Play(n, actions), a).value);
  }

  lemma RegisteredIsAdmitted(db: Db, c: ClientState, ev: Event)
    requires Settled(db.clients, c) && ev.recvs != [] && UnpackRequestHeader(ev.recvs[0]).Some?
    requires var h := UnpackRequestHeader(ev.recvs[0]).value;
             if c.registered then h.clientId == c.id && REGISTER_CLIENT < h.code <= GET_UNREAD_MESSAGES
             else h.code == REGISTER_CLIENT
    ensures Admitted(db, ev)
  {
  }

  /** The message of `a` is stored, from client `c` and for the row named in `a`, exactly when its
      content arrived and the storage took it. */
  predicate StoredForNamedRow(rows: seq<ClientRow>, c: ClientState, a: Action, effect: Effect)
    requires a.SendTo?
  {
    && (effect.Stored? <==> |a.content| <= FIRST_ROOM + |Flatten(a.pieces)| && a.env.storeOk)
    && (effect.Stored? ==>
          && HasRow(rows, effect.row.to, a.name)
          && effect.row.from == c.id && effect.row.typ == a.typ && effect.row.content == a.content)
  }

  lemma SendFromSettled(db: Db, c: ClientState, a: Action, r: SendRequest)
    requires Settled(db.clients, c) && c.registered
    requires a.SendTo? && SendRequestOfAction(c, a) == Some(r)
    requires NonEmptyPieces(a.pieces) && ValidMessageType(a.typ)
    requires Flatten(a.pieces) <= LaterOf(r)
    ensures StoredForNamedRow(db.clients, c, a, Serve(db, SendEvent(r, a.pieces, a.env)).effect)
  {
    var e := FindByName(c.directory, a.name).value;
    HasRowHasBoth(db.clients, c.id, c.name);
    assert HasRow(db.clients, e.id, e.name);
    HasRowHasBoth(db.clients, e.id, e.name);
    SendAccepted(db, r, a.pieces, a.env);
  }

  lemma SendConnects(w: World, a: Action, r: SendRequest, ev: Event)
    requires a.SendTo? && Connects(w, a) == Some(ev)
    requires SendRequestOfAction(w.clients[a.i], a) == Some(r)
    ensures w.clients[a.i].registered && ev == SendEvent(r, a.pieces, a.env)
  {
  }

  lemma SendInWorld(w: World, a: Action, r: SendRequest, ev: Event)
    requires AllSettled(w.sys.db.clients, w.clients)
    requires a.SendTo? && Connects(w, a) == Some(ev)
    requires SendRequestOfAction(w.clients[a.i], a) == Some(r)
    requires NonEmptyPieces(a.pieces) && ValidMessageType(a.typ)
    requires Flatten(a.pieces) <= LaterOf(r)
    ensures StoredForNamedRow(w.sys.db.clients, w.clients[a.i], a, Serve(w.sys.db, ev).effect)
  {
    SendConnects(w, a, r, ev);
    SendFromSettled(w.sys.db, w.clients[a.i], a, r);
  }

  /** A send by a client to a name that it finds in its directory, fresh or stale, reaches the row
      that bears this name, provided its content arrives and the storage takes it. */
  lemma SendReachesNamedRow(n: nat, actions: seq<Action>, a: Action, r: SendRequest, ev: Event)
    requires a.SendTo? && Connects(Play(n, actions), a) == Some(ev)
    requires SendRequestOfAction(Play(n, actions).clients[a.i], a) == Some(r)
    requires NonEmptyPieces(a.pieces) && ValidMessageType(a.typ)
    requires Flatten(a.pieces) <= LaterOf(r)
    ensures var w := Play(n, actions);
            StoredForNamedRow(w.sys.db.clients, w.clients[a.i], a, Serve(w.sys.db, ev).effect)
  {
    JointInvariant(n, actions);
    SendInWorld(Play(n, actions), a, r, ev);
  }

  // ----- the directory

  /** Cache soundness in every later state: the row with a cached name is the row with the cached
      identifier. */
  lemma CachedEntryIsOneRow(n: nat, actions: seq<Action>, i: nat, k: nat)
    requires i < |Play(n, actions).clients| && k < |Play(n, actions).clients[i].directory|
    ensures var w := Play(n, actions);
            var rows, e := w.sys.db.clients, w.clients[i].directory[k];
            && HasRow(rows, e.id, e.name)
            && forall j :: 0 <= j < |rows| ==> (rows[j].id == e.id <==> rows[j].name == e.name)
  {
    JointInvariant(n, actions);
    var w := Play(n, actions);
    assert Settled(w.sys.db.clients, w.clients[i]);
    EntryIsOneRow(w.sys.db.clients, w.clients[i].directory[k]);
  }

  lemma EntryIsOneRow(rows: seq<ClientRow>, e: Entry)
    requires ClientsIntact(rows) && HasRow(rows, e.id, e.name)
    ensures forall j :: 0 <= j < |rows| ==> (rows[j].id == e.id <==> rows[j].name == e.name)
  {
  }

  lemma {:induction false} OthersComplete(rows: seq<ClientRow>, id: Bytes, j: nat)
    requires j < |rows| && rows[j].id != id
    ensures Entry(rows[j].id, rows[j].name) in Others(rows, id)
  {
    if j > 0 {
      OthersComplete(rows[1..], id, j - 1);
    }
  }

  /** After a list request that succeeds, looking up the name or the identifier of any other
      registered client finds its row, and looking up anything else finds nothing. */
  lemma LookupsAfterList(n: nat, actions: seq<Action>, a: Action)
    requires a.ListClients? && Connects(Play(n, actions), a).Some?
    requires var w := Play(n, actions);
             ReceiveClientsList(Cut(Serve(w.sys.db, Connects(w, a).value).sent, a.seen)).Some?
    ensures var w := Play(n, actions);
            var rows, me := w.sys.db.clients, w.clients[a.i].id;
            var dir := Reacts(w.clients[a.i], a, Serve(w.sys.db, Connects(w, a).value).sent).directory;
            && dir == Others(rows, me)
            && (forall j :: 0 <= j < |rows| && rows[j].id != me ==>
                  && FindByName(dir, rows[j].name) == Some(Entry(rows[j].id, rows[j].name))
                  && FindById(dir, rows[j].id) == Some(Entry(rows[j].id, rows[j].name)))
            && (forall x :: FindByName(dir, x).Some? ==> HasName(rows, x))
            && (forall x :: FindById(dir, x).Some? ==> HasId(rows, x) && x != me)
  {
    JointInvariant(n, actions);
    var w := Play(n, actions);
    var db, c := w.sys.db, w.clients[a.i];
    var ev := Connects(w, a).value;
    ListAnswered(db, c, a.env);
    CutIsPart(Serve(db, ev).sent, PackClientsList(PackEntries(Others(db.clients, c.id))), a.seen);
    ListDelivered(db.clients, c.id, Cut(Serve(db, ev).sent, a.seen));
    LookupsInOthers(db.clients, c.id);
  }

  lemma LookupsInOthers(rows: seq<ClientRow>, me: Bytes)
    requires ClientsIntact(rows)
    ensures var dir := Others(rows, me);
            && (forall j :: 0 <= j < |rows| && rows[j].id != me ==>
                  && FindByName(dir, rows[j].name) == Some(Entry(rows[j].id, rows[j].name))
                  && FindById(dir, rows[j].id) == Some(Entry(rows[j].id, rows[j].name)))
            && (forall x :: FindByName(dir, x).Some? ==> HasName(rows, x))
            && (forall x :: FindById(dir, x).Some? ==> HasId(rows, x) && x != me)
  {
    var dir := Others(rows, me);
    OthersAreRows(rows, me);
    OthersExclude(rows, me);
    forall j | 0 <= j < |rows| && rows[j].id != me
      ensures FindByName(dir, rows[j].name) == Some(Entry(rows[j].id, rows[j].name))
      ensures FindById(dir, rows[j].id) == Some(Entry(rows[j].id, rows[j].name))
    {
      OthersComplete(rows, me, j);
      FoundIsRow(rows, dir, FindByName(dir, rows[j].name), j);
      FoundIsRow(rows, dir, FindById(dir, rows[j].id), j);
    }
    forall x | FindByName(dir, x).Some?
      ensures HasName(rows, x)
    {
      HasRowHasBoth(rows, FindByName(dir, x).value.id, x);
    }
    forall x | FindById(dir, x).Some?
      ensures HasId(rows, x) && x != me
    {
      HasRowHasBoth(rows, x, FindById(dir, x).value.name);
    }
  }

  lemma {:induction false} OthersExclude(rows: seq<ClientRow>, me: Bytes)
    ensures forall i :: 0 <= i < |Others(rows, me)| ==> Others(rows, me)[i].id != me
  {
    if rows != [] {
      OthersExclude(rows[1..], me);
    }
  }

  /** Names and identifiers each determine the row. */
  lemma FoundIsRow(rows: seq<ClientRow>, dir: seq<Entry>, e: Option<Entry>, j: nat)
    requires ClientsIntact(rows) && SoundDirectory(rows, dir) && j < |rows|
    requires e.Some? && e.value in dir && (e.value.name == rows[j].name || e.value.id == rows[j].id)
    ensures e.value == Entry(rows[j].id, rows[j].name)
  {
  }

  // ----- restart

  lemma RestartOf(rows: seq<ClientRow>, c: ClientState, accepted: bool)
    requires Settled(rows, c) && c.registered
    ensures var c' := AfterRestart(c, accepted);
            && (c'.registered <==> accepted && OnDisk(c).Some?)
            && (c'.registered ==> c'.id == c.id && c'.name == c.name && c'.privateKey <= c.privateKey
                                  && c'.publicKey == Zeros(PUBLIC_KEY_SIZE) && c'.directory == [])
            && (c'.registered && c'.privateKey == c.privateKey <==> accepted && c.intact)
  {
  }

  /** A program becomes registered if and only if it accepts the reply and its file can be opened three
      times; it then has its profile on the disk if and only if enough of the three lines got there,
      which it does not notice. */
  lemma RegisteredLoadsIff(n: nat, actions: seq<Action>, a: Action)
    requires a.Register? && Connects(Play(n, actions), a).Some?
    ensures var w, c := Play(n, actions), Act(Play(n, actions), a).clients[a.i];
            var reply := Cut(Serve(w.sys.db, Connects(w, a).value).sent, a.seen);
            var p := Profile(a.name, c.id, a.privateKey);
            && (c.registered <==> ReceiveRegistration(reply).Some? && a.saving.opens >= 3)
            && (c.registered ==> (OnDisk(c) == Some(p) <==> Covers(p, a.saving)))
  {
    var w := Play(n, actions);
    JointInvariant(n, actions);
    ActKeepsGood(w, a);
    OnlyNewcomersRegister(w, a);
    assert Settled(Act(w, a).sys.db.clients, Act(w, a).clients[a.i]);
  }

  /** A restart gives a registered client its identity and private key back if and only if enough of
      its profile reached the disk and the file is accepted. When it is registered afterwards at all, it
      has the same name and identifier, at most the beginning of its key, an empty directory, and a
      public key of zeros. */
  lemma RestartRestores(n: nat, actions: seq<Action>, i: nat, accepted: bool)
    requires i < |Play(n, actions).clients| && Play(n, actions).clients[i].registered
    ensures var c := Play(n, actions).clients[i];
            var c' := AfterRestart(c, accepted);
            && (c'.registered <==> accepted && OnDisk(c).Some?)
            && (c'.registered ==> c'.id == c.id && c'.name == c.name && c'.privateKey <= c.privateKey
                                  && c'.publicKey == Zeros(PUBLIC_KEY_SIZE) && c'.directory == [])
            && (c'.registered && c'.privateKey == c.privateKey <==> accepted && c.intact)
  {
    JointInvariant(n, actions);
    RestartOf(Play(n, actions).sys.db.clients, Play(n, actions).clients[i], accepted);
  }

  /** After a restart a client is registered and a full row of the server, public key included, if and
      only if its profile loads, is accepted, and the row's key is all zeros. */
  lemma RestartKeepsFullRowIff(n: nat, actions: seq<Action>, i: nat, accepted: bool, key: Bytes)
    requires i < |Play(n, actions).clients| && Play(n, actions).clients[i].registered
    requires var c := Play(n, actions).clients[i]; ClientRow(c.id, c.name, key) in Play(n, actions).sys.db.clients
    ensures var c := Play(n, actions).clients[i];
            var c' := AfterRestart(c, accepted);
            c'.registered && ClientRow(c'.id, c'.name, c'.publicKey) in Play(n, actions).sys.db.clients
            <==> accepted && OnDisk(c).Some? && key == Zeros(PUBLIC_KEY_SIZE)
  {
    JointInvariant(n, actions);
    var w := Play(n, actions);
    RestartOf(w.sys.db.clients, w.clients[i], accepted);
    OneRowPerId(w.sys.db.clients, w.clients[i].id, w.clients[i].name, key, Zeros(PUBLIC_KEY_SIZE));
  }

  lemma OneRowPerId(rows: seq<ClientRow>, id: Bytes, name: Bytes, key: Bytes, key': Bytes)
    requires ClientsIntact(rows) && ClientRow(id, name, key) in rows
    ensures ClientRow(id, name, key') in rows <==> key == key'
  {
  }

  // ----- delivery in the joint system

  /** What the program of client `i` shows in one action. Only its own fetches show messages. */
  function ShownTo(w: World, a: Action, i: nat): seq<Item> {
    if a.FetchUnread? && a.i == i && Connects(w, a).Some?
    then Shows(Cut(Serve(w.sys.db, Connects(w, a).value).sent, a.seen))
    else []
  }

  /** Everything the program of client `i` has shown. */
  function ProgramShown(n: nat, actions: seq<Action>, i: nat): seq<Item> {
    if actions == [] then []
    else
      var prefix, last := actions[..|actions| - 1], actions[|actions| - 1];
      ProgramShown(n, prefix, i) + ShownTo(Play(n, prefix), last, i)
  }

  /** A mailbox with content is handed over under the identifier `c`, but not to client `i`, or to a
      fetch of client `i` whose answer does not arrive whole. */
  predicate Strays(w: World, a: Action, i: nat, c: Bytes) {
    && Connects(w, a).Some?
    && WithContent(Pending(w.sys.db, c)) != []
    && var s := Serve(w.sys.db, Connects(w, a).value);
    && HandsOverTo(s.effect, c)
    && !(a.FetchUnread? && a.i == i && a.seen >= |s.sent|)
  }

  predicate Strayed(n: nat, actions: seq<Action>, i: nat, c: Bytes) {
    actions != [] &&
    var prefix, last := actions[..|actions| - 1], actions[|actions| - 1];
    Strayed(n, prefix, i, c) || Strays(Play(n, prefix), last, i, c)
  }

  /** A fetch by client `c` is a connection on which its mailbox is asked for. */
  lemma OwnFetchArrives(w: World, a: Action)
    requires a.FetchUnread? && Connects(w, a).Some?
    ensures w.clients[a.i].registered && IsFetchBy(Connects(w, a).value, w.clients[a.i].id)
  {
    HeaderArrives(w.clients[a.i], GET_UNREAD_MESSAGES);
  }

  /** One action: the program shows what the answer contains, unless it strays; then the answer
      contains something and the program shows nothing. */
  lemma ActionShows(w: World, a: Action, i: nat, c: Bytes)
    requires Intact(w.sys.db) && Connects(w, a).Some?
    requires i < |w.clients| && (w.clients[i].registered ==> w.clients[i].id == c)
    ensures var inAnswer := ShownBy(w.sys.db, Connects(w, a).value, c);
            if Strays(w, a, i, c) then ShownTo(w, a, i) == [] && inAnswer != [] else ShownTo(w, a, i) == inAnswer
  {
    var ev := Connects(w, a).value;
    ShownByEffect(w.sys.db, ev, c);
    if a.FetchUnread? && a.i == i {
      OwnFetchArrives(w, a);
      FetchShows(w.sys.db, ev, c, a.seen);
    }
  }

  /** The program was never registered, or it has the identifier `id`, or will have it when it is
      started again. */
  predicate MayBe(c: ClientState, id: Bytes) {
    c.registered || c.file.Some? ==> Claimed(c).Some? && Claimed(c).value.1 == id
  }

  lemma ReactionKeepsIdentity(c: ClientState, a: Action, sent: Bytes, id: Bytes)
    requires !a.Register?
    ensures MayBe(Reacts(c, a, sent), id) == MayBe(c, id)
  {
  }

  lemma RestartKeepsIdentity(rows: seq<ClientRow>, c: ClientState, accepted: bool, id: Bytes)
    requires Settled(rows, c) && MayBe(AfterRestart(c, accepted), id)
    ensures MayBe(c, id)
  {
    RestartKeepsBacked(rows, c, accepted);
  }

  lemma OnlyNewcomersRegister(w: World, a: Action)
    requires a.Register? && Connects(w, a).Some?
    ensures a.i < |w.clients| && !w.clients[a.i].registered && w.clients[a.i].file.None?
  {
  }

  /** The clients after an action: one of them is replaced, by its reaction or by its restart, or
      none is. */
  ghost predicate Replaces(cs: seq<ClientState>, cs': seq<ClientState>, a: Action) {
    || cs' == cs
    || (!a.Foreign? && a.i < |cs|
        && ((a.Restart? && cs' == cs[a.i := AfterRestart(cs[a.i], a.accepted)])
            || ((a.Register? ==> !cs[a.i].registered && cs[a.i].file.None?)
                && exists sent :: cs' == cs[a.i := Reacts(cs[a.i], a, sent)])))
  }

  lemma ActReplaces(w: World, a: Action)
    ensures Replaces(w.clients, Act(w, a).clients, a)
  {
    if Connects(w, a).Some? && a.Register? {
      OnlyNewcomersRegister(w, a);
    }
  }

  lemma ReplacedWasThat(rows: seq<ClientRow>, cs: seq<ClientState>, cs': seq<ClientState>, a: Action, i: nat, id: Bytes)
    requires AllSettled(rows, cs) && Replaces(cs, cs', a) && i < |cs| == |cs'| && MayBe(cs'[i], id)
    ensures MayBe(cs[i], id)
  {
    if cs' != cs && a.i == i {
      if a.Restart? && cs' == cs[i := AfterRestart(cs[i], a.accepted)] {
        RestartKeepsIdentity(rows, cs[i], a.accepted, id);
      } else {
        var sent :| cs' == cs[i := Reacts(cs[i], a, sent)];
        if !a.Register? {
          ReactionKeepsIdentity(cs[i], a, sent, id);
        }
      }
    }
  }

  /** Who a client is after an action it may have been before. */
  lemma WasThat(w: World, a: Action, i: nat, id: Bytes)
    requires AllSettled(w.sys.db.clients, w.clients) && i < |Act(w, a).clients| && MayBe(Act(w, a).clients[i], id)
    ensures |w.clients| == |Act(w, a).clients| && MayBe(w.clients[i], id)
  {
    ActReplaces(w, a);
    ReplacedWasThat(w.sys.db.clients, w.clients, Act(w, a).clients, a, i, id);
  }

  /** What the program has shown, against everything that went out under its identifier. */
  predicate ShownAgainst(own: seq<Item>, all: seq<Item>, strayed: bool) {
    if strayed then |own| < |all| else own == all
  }

  lemma ShownAgainstStep(own: seq<Item>, all: seq<Item>, strayed: bool,
                         more: seq<Item>, moreAll: seq<Item>, strays: bool)
    requires ShownAgainst(own, all, strayed)
    requires if strays then more == [] && moreAll != [] else more == moreAll
    ensures ShownAgainst(own + more, all + moreAll, strayed || strays)
  {
  }

  lemma ConnectionsStep(n: nat, actions: seq<Action>, c: Bytes)
    requires actions != []
    ensures var w := Play(n, actions[..|actions| - 1]);
            var ev := Connects(w, actions[|actions| - 1]);
            Shown(Connections(n, actions), c) == Shown(Connections(n, actions[..|actions| - 1]), c)
                                                 + if ev.Some? then ShownBy(w.sys.db, ev.value, c) else []
  {
    var prefix, last := actions[..|actions| - 1], actions[|actions| - 1];
    PlayIsRun(n, prefix);
    var evs, ev := Connections(n, prefix), Connects(Play(n, prefix), last);
    if ev.Some? {
      var all := evs + [ev.value];
      assert all[..|all| - 1] == evs;
    } else {
      assert Shown(evs, c) + [] == Shown(evs, c);
    }
  }

  lemma {:induction false} ProgramShows(n: nat, actions: seq<Action>, i: nat, c: Bytes)
    requires i < |Play(n, actions).clients|
    requires MayBe(Play(n, actions).clients[i], c)
    ensures ShownAgainst(ProgramShown(n, actions, i), Shown(Connections(n, actions), c), Strayed(n, actions, i, c))
  {
    if actions != [] {
      var prefix, last := actions[..|actions| - 1], actions[|actions| - 1];
      var w := Play(n, prefix);
      JointInvariant(n, prefix);
      WasThat(w, last, i, c);
      ProgramShows(n, prefix, i, c);
      ConnectionsStep(n, actions, c);
      if Connects(w, last).Some? {
        ActionShows(w, last, i, c);
      }
      ShownAgainstStep(ProgramShown(n, prefix, i), Shown(Connections(n, prefix), c), Strayed(n, prefix, i, c),
                       ShownTo(w, last, i),
                       if Connects(w, last).Some? then ShownBy(w.sys.db, Connects(w, last).value, c) else [],
                       Strays(w, last, i, c));
    }
  }

  /** What the program of client `i` has shown, followed by what the server stores for it, is what
      the server accepted for it, in order and up to messages without content. */
  ghost predicate DeliveredOnce(n: nat, actions: seq<Action>, i: nat)
    requires i < |Play(n, actions).clients| && Play(n, actions).clients[i].registered
  {
    var w := Play(n, actions);
    var c := w.clients[i].id;
    c in w.sys.office.boxes
    && Balanced(ProgramShown(n, actions, i), Pending(w.sys.db, c), w.sys.office.boxes[c].accepted)
  }

  lemma BalancedAgainst(own: seq<Item>, all: seq<Item>, strayed: bool, pending: seq<Item>, accepted: seq<Item>)
    requires ShownAgainst(own, all, strayed)
    ensures Balanced(all, pending, accepted) ==> (Balanced(own, pending, accepted) <==> !strayed)
  {
  }

  /** In every interleaving of any number of clients with each other and with foreign connections,
      with any failures of sending, any cut replies and any restarts: provided that no deletion of a
      message with content is lost in the fetches under a client's identifier, what its program has
      shown and what is stored make up what was accepted, exactly once and in order, if and only if
      nothing strayed. And provided that nothing strayed, they do so if and only if no such deletion
      was lost. */
  lemma JointDelivery(n: nat, actions: seq<Action>, i: nat)
    requires i < |Play(n, actions).clients| && Play(n, actions).clients[i].registered
    ensures var c := Play(n, actions).clients[i].id;
            && (RepeatsNothing(Connections(n, actions), c) ==>
                  (DeliveredOnce(n, actions, i) <==> !Strayed(n, actions, i, c)))
            && (!Strayed(n, actions, i, c) ==>
                  (DeliveredOnce(n, actions, i) <==> RepeatsNothing(Connections(n, actions), c)))
  {
    var w, evs := Play(n, actions), Connections(n, actions);
    var c := w.clients[i].id;
    RegisteredHasBox(n, actions, i);
    PlayIsRun(n, actions);
    ShownThenPending(evs, c);
    ProgramShows(n, actions, i, c);
    BalancedAgainst(ProgramShown(n, actions, i), Shown(evs, c), Strayed(n, actions, i, c),
                    Pending(w.sys.db, c), w.sys.office.boxes[c].accepted);
  }

  /** In every play in which nothing strayed under a client's identifier, with any failures, its program
      has shown every message with content that was accepted for it and is no longer stored. */
  lemma GoneWasShownToProgram(n: nat, actions: seq<Action>, i: nat, k: nat)
    requires i < |Play(n, actions).clients| && Play(n, actions).clients[i].registered
    requires !Strayed(n, actions, i, Play(n, actions).clients[i].id)
    requires var c, boxes := Play(n, actions).clients[i].id, Play(n, actions).sys.office.boxes;
             && c in boxes && k < |boxes[c].accepted|
             && k !in boxes[c].queue && boxes[c].accepted[k].content != []
    ensures Play(n, actions).sys.office.boxes[Play(n, actions).clients[i].id].accepted[k] in ProgramShown(n, actions, i)
  {
    var c := Play(n, actions).clients[i].id;
    PlayIsRun(n, actions);
    ProgramShows(n, actions, i, c);
    GoneWasShown(Connections(n, actions), c, k);
  }

  lemma RegisteredHasBox(n: nat, actions: seq<Action>, i: nat)
    requires i < |Play(n, actions).clients| && Play(n, actions).clients[i].registered
    ensures Play(n, actions).clients[i].id in Play(n, actions).sys.office.boxes
  {
    JointInvariant(n, actions);
    var w := Play(n, actions);
    HasRowHasBoth(w.sys.db.clients, w.clients[i].id, w.clients[i].name);
  }
}
