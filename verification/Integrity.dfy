/** What every connection keeps of the tables. SQLite enforces neither the foreign keys nor the
    uniqueness of names; both rest on the handlers. */
module Integrity {
  import opened ByteStrings
  import opened Database
  import opened MessageTable
  import opened Protocol
  import opened ServerSpec

  predicate WellFormedClient(r: ClientRow) {
    AcceptableClient(r.id, r.name, r.publicKey) && 0 !in r.name
  }

  ghost predicate ClientsIntact(clients: seq<ClientRow>) {
    && (forall i :: 0 <= i < |clients| ==> WellFormedClient(clients[i]))
    && (forall i, j :: 0 <= i < j < |clients| ==> clients[i].id != clients[j].id && clients[i].name != clients[j].name)
  }

  predicate IntactMessage(clients: seq<ClientRow>, r: MessageRow) {
    HasId(clients, r.to) && HasId(clients, r.from) && ValidMessageType(r.typ) && |r.content| < U32
  }

  ghost predicate Intact(db: Db) {
    && ClientsIntact(db.clients)
    && PositiveKeys(db.messages)
    && (forall id :: id in db.messages ==> IntactMessage(db.clients, db.messages[id]))
  }

  /** The four ways in which a connection can change the tables. `lost` is the environment's choice
      of deletions that are not committed. */
  ghost predicate Transition(db: Db, effect: Effect, lost: set<nat>, db': Db) {
    match effect
    case Quiet => db' == db
    case Joined(row) =>
      && WellFormedClient(row) && !HasId(db.clients, row.id) && !HasName(db.clients, row.name)
      && db' == db.(clients := db.clients + [row])
    case Stored(id, row) =>
      && id == NextId(db.messages) && IntactMessage(db.clients, row)
      && db' == db.(messages := db.messages[id := row])
    case HandedOver(to, ids) =>
      && HasId(db.clients, to) && ids == Unread(db.messages, to)
      && db' == db.(messages := db.messages - Dropped(ids, lost, 0))
  }

  lemma RegisterIsTransition(db: Db, data: Bytes, env: Env)
    ensures var h := HandleRegister(db, data, env); Transition(db, h.effect, env.lost, h.db)
  {
  }

  lemma SendIsTransition(db: Db, data: Bytes, pieces: seq<Bytes>, env: Env)
    requires UnpackRequestHeader(data).Some? && HasId(db.clients, UnpackRequestHeader(data).value.clientId)
    ensures var h := HandleSend(db, data, pieces, env); Transition(db, h.effect, env.lost, h.db)
  {
  }

  lemma GetUnreadIsTransition(db: Db, data: Bytes, env: Env)
    requires UnpackRequestHeader(data).Some? && HasId(db.clients, UnpackRequestHeader(data).value.clientId)
    ensures var h := HandleGetUnread(db, data, env); Transition(db, h.effect, env.lost, h.db)
  {
  }

  lemma QueriesAreTransitions(db: Db, data: Bytes, env: Env)
    ensures var h := HandleGetClients(db, data, env); h.db == db && h.effect == Quiet
    ensures var h := HandleGetPublicKey(db, data, env); h.db == db && h.effect == Quiet
  {
  }

  lemma HandleIsTransition(db: Db, code: nat, ev: Event)
    requires ev.recvs != [] && UnpackRequestHeader(ev.recvs[0]).Some?
    requires code != REGISTER_CLIENT ==> HasId(db.clients, UnpackRequestHeader(ev.recvs[0]).value.clientId)
    ensures var h := Handle(db, code, ev); Transition(db, h.effect, ev.env.lost, h.db)
  {
    var data, env := ev.recvs[0], ev.env;
    if code == REGISTER_CLIENT {
      RegisterIsTransition(db, data, env);
    } else if code == SEND_MESSAGE {
      SendIsTransition(db, data, ev.recvs[1..], env);
    } else if code == GET_CLIENTS_LIST || code == GET_PUBLIC_KEY {
      QueriesAreTransitions(db, data, env);
    } else {
      GetUnreadIsTransition(db, data, env);
    }
  }

  /** Whatever arrives on a connection, the tables change in one of these ways only. */
  lemma ServeIsTransition(db: Db, ev: Event)
    ensures var s := Serve(db, ev); Transition(db, s.effect, ev.env.lost, s.db)
  {
    if Admitted(db, ev) {
      HandleIsTransition(db, UnpackRequestHeader(ev.recvs[0]).value.code, ev);
    }
  }

  lemma HasIdMonotone(clients: seq<ClientRow>, row: ClientRow, id: Bytes)
    ensures HasId(clients + [row], id) <==> HasId(clients, id) || id == row.id
    ensures HasName(clients + [row], id) <==> HasName(clients, id) || id == row.name
  {
    var all := clients + [row];
    assert all[|clients|] == row;
    if HasId(clients, id) {
      var i :| 0 <= i < |clients| && clients[i].id == id;
      assert all[i].id == id;
    }
    if HasName(clients, id) {
      var i :| 0 <= i < |clients| && clients[i].name == id;
      assert all[i].name == id;
    }
  }

  /** Integrity without database enforcement: one step. */
  lemma TransitionKeepsIntact(db: Db, effect: Effect, lost: set<nat>, db': Db)
    requires Intact(db) && Transition(db, effect, lost, db')
    ensures Intact(db')
  {
    match effect
    case Joined(row) =>
      forall id | id in db.messages
        ensures IntactMessage(db'.clients, db'.messages[id])
      {
        HasIdMonotone(db.clients, row, db.messages[id].to);
        HasIdMonotone(db.clients, row, db.messages[id].from);
      }
    case _ =>
  }
}
