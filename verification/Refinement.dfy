/** The tables with their reissued keys refine the abstract post office, connection by connection. */
module Refinement {
  import opened ByteStrings
  import opened Database
  import opened MessageTable
  import opened Protocol
  import opened Framing
  import opened ServerSpec
  import opened Integrity
  import opened PostOffice

  /** Whether a mailbox reply is packed and completely sent. */
  predicate Writes(db: Db, id: Bytes, faults: set<nat>) {
    var reply := PackMailbox(Mailbox(db.messages, id));
    reply != [] && Transmit(reply, faults, 0).result == Sent
  }

  /** The request that the received bytes carry. The tables are consulted only for whether a
      mailbox reply can be written. */
  function AskOf(db: Db, ev: Event): Ask {
    if ev.recvs == [] || UnpackRequestHeader(ev.recvs[0]).None? then Nothing
    else
      var data, env := ev.recvs[0], ev.env;
      var header := UnpackRequestHeader(data).value;
      if header.code == REGISTER_CLIENT then
        var r := UnpackRegistration(data);
        if r.None? then Nothing
        else Register(env.uuid, r.value.name,
                      env.storeOk && AcceptableClient(env.uuid, r.value.name, r.value.publicKey))
      else if header.code == SEND_MESSAGE then
        var r := UnpackSend(data, ev.recvs[1..]);
        if r.None? then Nothing
        else Send(r.value.to, Item(header.clientId, r.value.typ, r.value.content), env.storeOk)
      else if header.code == GET_UNREAD_MESSAGES then
        Fetch(header.clientId, Writes(db, header.clientId, env.faults), env.lost)
      else Nothing
  }

  function ItemOf(r: MessageRow): Item { Item(r.from, r.typ, r.content) }

  /** The rows selected for a recipient are the queued items of its box, in order. */
  predicate Lists(m: map<nat, MessageRow>, ids: seq<nat>, accepted: seq<Item>, queue: seq<nat>) {
    && |ids| == |queue|
    && forall i :: 0 <= i < |ids| ==> ids[i] in m && queue[i] < |accepted| && accepted[queue[i]] == ItemOf(m[ids[i]])
  }

  ghost predicate Simulates(db: Db, o: Office) {
    && (forall n :: n in o.names <==> HasName(db.clients, n))
    && (forall c :: c in o.boxes <==> HasId(db.clients, c))
    && (forall c :: c in o.boxes ==> Lists(db.messages, Unread(db.messages, c), o.boxes[c].accepted, o.boxes[c].queue))
  }

  /** What the office does for each of the ways in which the tables can change. */
  function After(o: Office, effect: Effect, lost: set<nat>): Office {
    match effect
    case Quiet => o
    case Joined(row) => Office(o.names + {row.name}, o.boxes[row.id := EmptyBox()])
    case Stored(_, row) =>
      if row.to in o.boxes then o.(boxes := o.boxes[row.to := Post(o.boxes[row.to], ItemOf(row))]) else o
    case HandedOver(to, _) =>
      if to in o.boxes then o.(boxes := o.boxes[to := HandOver(o.boxes[to], lost)]) else o
  }

  /** An effect is the one that the request asks for, and happens exactly when the office accepts. */
  predicate Matches(o: Office, ask: Ask, effect: Effect, lost: set<nat>) {
    && (Accepts(o, ask) <==> effect != Quiet)
    && match effect
       case Quiet => true
       case Joined(row) => ask == Register(row.id, row.name, true)
       case Stored(_, row) => ask == Send(row.to, ItemOf(row), true)
       case HandedOver(to, _) => ask == Fetch(to, true, lost)
  }

  lemma RegisterDecidedAlike(db: Db, o: Office, ev: Event)
    requires Simulates(db, o) && Admitted(db, ev) && AskOf(db, ev).Register?
    ensures Matches(o, AskOf(db, ev), HandleRegister(db, ev.recvs[0], ev.env).effect, ev.env.lost)
  {
  }

  lemma SendDecidedAlike(db: Db, o: Office, ev: Event)
    requires Simulates(db, o) && Admitted(db, ev) && AskOf(db, ev).Send?
    ensures Matches(o, AskOf(db, ev), HandleSend(db, ev.recvs[0], ev.recvs[1..], ev.env).effect, ev.env.lost)
  {
  }

  /** A fetch is answered completely exactly when its reply is packed and sent. */
  lemma FetchEffect(db: Db, data: Bytes, env: Env, c: Bytes)
    requires UnpackRequestHeader(data).Some? && UnpackRequestHeader(data).value.clientId == c
    ensures HandleGetUnread(db, data, env).effect ==
              if Writes(db, c, env.faults) then HandedOver(c, Unread(db.messages, c)) else Quiet
  {
  }

  lemma FetchDecidedAlike(db: Db, o: Office, ev: Event)
    requires Simulates(db, o) && Admitted(db, ev) && AskOf(db, ev).Fetch?
    ensures Matches(o, AskOf(db, ev), HandleGetUnread(db, ev.recvs[0], ev.env).effect, ev.env.lost)
  {
    var c := UnpackRequestHeader(ev.recvs[0]).value.clientId;
    FetchEffect(db, ev.recvs[0], ev.env, c);
    assert AskOf(db, ev) == Fetch(c, Writes(db, c, ev.env.faults), ev.env.lost);
    assert HasId(db.clients, c) <==> c in o.boxes;
  }

  lemma NothingDecidedAlike(db: Db, ev: Event)
    requires Admitted(db, ev) && AskOf(db, ev).Nothing?
    ensures Handle(db, UnpackRequestHeader(ev.recvs[0]).value.code, ev).effect == Quiet
  {
  }

  /** The office, deciding by itself, accepts a request exactly when the server acts on it. */
  lemma OfficeDecidesAlike(db: Db, o: Office, ev: Event)
    requires Simulates(db, o)
    ensures Matches(o, AskOf(db, ev), Serve(db, ev).effect, ev.env.lost)
  {
    if Admitted(db, ev) {
      match AskOf(db, ev)
      case Register(_, _, _) => RegisterDecidedAlike(db, o, ev);
      case Send(_, _, _) => SendDecidedAlike(db, o, ev);
      case Fetch(_, _, _) => FetchDecidedAlike(db, o, ev);
      case Nothing => NothingDecidedAlike(db, ev);
    }
  }

  lemma NextIsAfter(o: Office, ask: Ask, effect: Effect, lost: set<nat>)
    requires Matches(o, ask, effect, lost)
    ensures Next(o, ask) == After(o, effect, lost)
  {
  }

  lemma {:induction false} KeptLists(m: map<nat, MessageRow>, ids: seq<nat>, accepted: seq<Item>, queue: seq<nat>,
                                     lost: set<nat>, from: nat)
    requires Lists(m, ids, accepted, queue)
    ensures Lists(m, Kept(ids, lost, from), accepted, Kept(queue, lost, from))
  {
    if ids != [] {
      assert Lists(m, ids[1..], accepted, queue[1..]);
      KeptLists(m, ids[1..], accepted, queue[1..], lost, from + 1);
      var head, head' := if from in lost then [ids[0]] else [], if from in lost then [queue[0]] else [];
      assert Lists(m, head, accepted, head');
    }
  }

  lemma ListsAfterStore(m: map<nat, MessageRow>, row: MessageRow, c: Bytes, b: Box)
    requires Lists(m, Unread(m, c), b.accepted, b.queue)
    ensures var m' := m[NextId(m) := row];
            var b' := if row.to == c then Post(b, ItemOf(row)) else b;
            Lists(m', Unread(m', c), b'.accepted, b'.queue)
  {
    UnreadAfterInsert(m, row, c);
  }

  lemma ListsAfterHandOver(m: map<nat, MessageRow>, to: Bytes, lost: set<nat>, c: Bytes, b: Box)
    requires PositiveKeys(m) && Lists(m, Unread(m, c), b.accepted, b.queue)
    ensures var m' := m - Dropped(Unread(m, to), lost, 0);
            var b' := if c == to then HandOver(b, lost) else b;
            Lists(m', Unread(m', c), b'.accepted, b'.queue)
  {
    var m' := m - Dropped(Unread(m, to), lost, 0);
    UnreadAfterDelete(m, to, lost, c);
    KeptLists(m, Unread(m, c), b.accepted, b.queue, lost, 0);
    assert forall i :: 0 <= i < |Unread(m', c)| ==> Unread(m', c)[i] in Unread(m', c);
  }

  lemma SimulationAfterJoin(db: Db, o: Office, row: ClientRow)
    requires Intact(db) && Simulates(db, o)
    requires !HasId(db.clients, row.id)
    ensures Simulates(db.(clients := db.clients + [row]), Office(o.names + {row.name}, o.boxes[row.id := EmptyBox()]))
  {
    forall x
      ensures HasId(db.clients + [row], x) <==> HasId(db.clients, x) || x == row.id
      ensures HasName(db.clients + [row], x) <==> HasName(db.clients, x) || x == row.name
    {
      HasIdMonotone(db.clients, row, x);
    }
    NoMailForStrangers(db, row.id);
  }

  lemma NoMailForStrangers(db: Db, c: Bytes)
    requires Intact(db) && !HasId(db.clients, c)
    ensures Unread(db.messages, c) == []
  {
    if Unread(db.messages, c) != [] {
      MailIsForClients(db, c);
    }
  }

  lemma MailIsForClients(db: Db, c: Bytes)
    requires Intact(db) && Unread(db.messages, c) != []
    ensures HasId(db.clients, c)
  {
    var id := Unread(db.messages, c)[0];
    assert id in Unread(db.messages, c);
    assert IntactMessage(db.clients, db.messages[id]);
  }

  lemma SimulationAfterStore(db: Db, o: Office, row: MessageRow)
    requires Simulates(db, o) && HasId(db.clients, row.to)
    ensures var id := NextId(db.messages);
            Simulates(db.(messages := db.messages[id := row]), After(o, Stored(id, row), {}))
  {
    forall c | c in o.boxes {
      ListsAfterStore(db.messages, row, c, o.boxes[c]);
    }
  }

  lemma SimulationAfterHandOver(db: Db, o: Office, to: Bytes, lost: set<nat>)
    requires PositiveKeys(db.messages) && Simulates(db, o) && HasId(db.clients, to)
    ensures var ids := Unread(db.messages, to);
            Simulates(db.(messages := db.messages - Dropped(ids, lost, 0)), After(o, HandedOver(to, ids), lost))
  {
    forall c | c in o.boxes {
      ListsAfterHandOver(db.messages, to, lost, c, o.boxes[c]);
    }
  }

  /** The simulation is kept by every change of the tables. */
  lemma TransitionSimulates(db: Db, o: Office, effect: Effect, lost: set<nat>, db': Db)
    requires Intact(db) && Simulates(db, o) && Transition(db, effect, lost, db')
    ensures Simulates(db', After(o, effect, lost))
  {
    match effect
    case Quiet =>
    case Joined(row) => SimulationAfterJoin(db, o, row);
    case Stored(id, row) => SimulationAfterStore(db, o, row);
    case HandedOver(to, ids) => SimulationAfterHandOver(db, o, to, lost);
  }

  // ----- one client's box

  predicate HandsOverTo(effect: Effect, c: Bytes) { effect.HandedOver? && effect.to == c }

  function BoxAfter(b: Box, c: Bytes, effect: Effect, lost: set<nat>): Box {
    if effect.Stored? && effect.row.to == c then Post(b, ItemOf(effect.row))
    else if HandsOverTo(effect, c) then HandOver(b, lost)
    else b
  }

  /** What one connection does to the box of `c`. Before `c` is registered nothing is handed over. */
  predicate BoxMoves(boxes: map<Bytes, Box>, boxes': map<Bytes, Box>, c: Bytes, effect: Effect, lost: set<nat>) {
    if c in boxes then c in boxes' && boxes'[c] == BoxAfter(boxes[c], c, effect, lost)
    else !HandsOverTo(effect, c) && (c in boxes' ==> boxes'[c] == EmptyBox())
  }

  lemma TransitionMovesBox(db: Db, o: Office, effect: Effect, lost: set<nat>, db': Db, c: Bytes)
    requires Simulates(db, o) && Transition(db, effect, lost, db')
    ensures BoxMoves(o.boxes, After(o, effect, lost).boxes, c, effect, lost)
    ensures HandsOverTo(effect, c) ==> c in o.boxes && |effect.ids| == |o.boxes[c].queue|
  {
  }
}
