/** The ids under which messages are fetched: those of the stored rows, and of the acknowledgements. */
module Fetched {
  import opened ByteStrings
  import opened Database
  import opened MessageTable
  import opened Protocol
  import opened Framing
  import opened ServerSpec
  import opened ClientSpec
  import opened Integrity
  import opened Refinement
  import opened Runs
  import opened Delivery
  import opened Answers
  import opened Reissue
  import opened Service

  /** A connection on which the mailbox of `c` is asked for. */
  predicate Fetches(ev: Event, c: Bytes) {
    ev.recvs != [] && |ev.recvs[0]| >= 23 && CodeOf(ev.recvs[0]) == 1004 && ev.recvs[0][..16] == c
  }

  lemma FetchesIs(ev: Event, c: Bytes)
    requires Fetches(ev, c)
    ensures IsFetchBy(ev, c)
  {
    HeaderFields(ev.recvs[0]);
  }

  // ----- what is received are rows

  lemma PartOfMailboxRefused(db: Db, c: Bytes, seen: Bytes)
    requires Intact(db) && PackMailbox(Mailbox(db.messages, c)) != []
    requires seen <= Frame(PackMailbox(Mailbox(db.messages, c)))
    ensures ReceiveUnread(seen) == if seen == Frame(PackMailbox(Mailbox(db.messages, c)))
                                   then Some(NonEmpty(Mailbox(db.messages, c))) else None
  {
    SendersAreIds(db, c);
    MailboxDelivered(Mailbox(db.messages, c), seen);
  }

  lemma ErrorIsNoMailbox(seen: Bytes)
    requires seen <= Frame(PackError())
    ensures ReceiveUnread(seen).None?
  {
    assert PackError() == Reply(GENERIC_ERROR, []);
    WrongCodeRefused(GENERIC_ERROR, [], seen, GET_UNREAD_MESSAGES_SUCCESS);
  }

  lemma ReceivedOf(db: Db, effect: Effect, c: Bytes, sent: Bytes, seen: nat)
    requires Intact(db)
    requires FetchSent(effect, c, Unread(db.messages, c), PackMailbox(Mailbox(db.messages, c)), sent)
    ensures ReceiveUnread(Cut(sent, seen)) ==
              if effect != Quiet && seen >= |sent| then Some(NonEmpty(Mailbox(db.messages, c))) else None
  {
    if effect == Quiet && sent <= Frame(PackError()) {
      CutOfPart(sent, Frame(PackError()), seen);
      ErrorIsNoMailbox(Cut(sent, seen));
    } else {
      CutOfPart(sent, Frame(PackMailbox(Mailbox(db.messages, c))), seen);
      PartOfMailboxRefused(db, c, Cut(sent, seen));
    }
  }

  /** The record carries the row that is stored under its id for `c`. */
  predicate IsRowFor(m: map<nat, MessageRow>, c: Bytes, x: Record) {
    x.id in m && m[x.id] == MessageRow(c, x.from, x.typ, x.content) && x.content != []
  }

  predicate AreRows(m: map<nat, MessageRow>, c: Bytes, got: seq<Record>) {
    && (forall i :: 0 <= i < |got| ==> IsRowFor(m, c, got[i]))
    && (forall i, j :: 0 <= i < j < |got| ==> got[i].id < got[j].id)
  }

  predicate HasRecord(got: seq<Record>, id: nat) {
    exists i :: 0 <= i < |got| && got[i].id == id
  }

  lemma RowInFront(m: map<nat, MessageRow>, c: Bytes, x: Record, rest: seq<Record>)
    requires IsRowFor(m, c, x) && AreRows(m, c, rest) && forall i :: 0 <= i < |rest| ==> x.id < rest[i].id
    ensures AreRows(m, c, [x] + rest)
    ensures forall id :: HasRecord([x] + rest, id) <==> id == x.id || HasRecord(rest, id)
  {
    var all := [x] + rest;
    assert all[0] == x;
    forall id
      ensures HasRecord(all, id) <==> id == x.id || HasRecord(rest, id)
    {
      if HasRecord(rest, id) {
        var i :| 0 <= i < |rest| && rest[i].id == id;
        assert all[i + 1].id == id;
      }
    }
  }

  /** The ids of `got` are those in `ids` whose rows have content. */
  ghost predicate AreContentOf(m: map<nat, MessageRow>, ids: seq<nat>, got: seq<Record>)
    requires AllStored(m, ids)
  {
    forall id :: HasRecord(got, id) <==> id in ids && m[id].content != []
  }

  lemma RestIsBehind(m: map<nat, MessageRow>, first: nat, ids: seq<nat>, got: seq<Record>)
    requires AllStored(m, ids) && AreContentOf(m, ids, got) && forall i :: 0 <= i < |ids| ==> first < ids[i]
    ensures forall i :: 0 <= i < |got| ==> first < got[i].id
  {
    forall i | 0 <= i < |got|
      ensures first < got[i].id
    {
      assert HasRecord(got, got[i].id);
    }
  }

  lemma RowsStep(m: map<nat, MessageRow>, c: Bytes, x: Record, ids: seq<nat>, rest: seq<Record>)
    requires AllStored(m, ids) && AreRows(m, c, rest) && AreContentOf(m, ids, rest)
    requires x.id in m && m[x.id] == MessageRow(c, x.from, x.typ, x.content)
    requires forall i :: 0 <= i < |ids| ==> x.id < ids[i]
    ensures var got := (if x.content == [] then [] else [x]) + rest;
            AreRows(m, c, got) && AreContentOf(m, [x.id] + ids, got)
  {
    RestIsBehind(m, x.id, ids, rest);
    if x.content == [] {
      assert [] + rest == rest;
    } else {
      RowInFront(m, c, x, rest);
    }
  }

  lemma FirstRecord(m: map<nat, MessageRow>, ids: seq<nat>, x: Record)
    requires AllStored(m, ids) && ids != []
    requires x == Record(m[ids[0]].from, ids[0], m[ids[0]].typ, m[ids[0]].content)
    ensures NonEmpty(RecordsOf(m, ids)) ==
              (if x.content == [] then [] else [x]) + NonEmpty(RecordsOf(m, ids[1..]))
  {
    assert RecordsOf(m, ids)[1..] == RecordsOf(m, ids[1..]) && RecordsOf(m, ids)[0] == x;
  }

  lemma {:induction false} RecordsAreRows(m: map<nat, MessageRow>, c: Bytes, ids: seq<nat>)
    requires AllStored(m, ids) && Ascending(ids) && forall i :: 0 <= i < |ids| ==> m[ids[i]].to == c
    ensures AreRows(m, c, NonEmpty(RecordsOf(m, ids))) && AreContentOf(m, ids, NonEmpty(RecordsOf(m, ids)))
  {
    if ids != [] {
      var rest, row := NonEmpty(RecordsOf(m, ids[1..])), m[ids[0]];
      var x := Record(row.from, ids[0], row.typ, row.content);
      RecordsAreRows(m, c, ids[1..]);
      FirstRecord(m, ids, x);
      RowsStep(m, c, x, ids[1..], rest);
      assert [ids[0]] + ids[1..] == ids;
    }
  }

  lemma MailboxIsRows(db: Db, c: Bytes)
    requires Intact(db)
    ensures AreRows(db.messages, c, NonEmpty(Mailbox(db.messages, c)))
    ensures forall id :: HasRecord(NonEmpty(Mailbox(db.messages, c)), id) <==>
                         id in db.messages && db.messages[id].to == c && db.messages[id].content != []
  {
    UnreadSpec(db.messages, c);
    UnreadAreStored(db.messages, c);
    assert forall i :: 0 <= i < |Unread(db.messages, c)| ==> Unread(db.messages, c)[i] in Unread(db.messages, c);
    RecordsAreRows(db.messages, c, Unread(db.messages, c));
  }

  /** Whatever sends fail and however much of the answer arrives: what a fetch receives is nothing, or
      exactly the rows for its sender that have content, each with sender, type and content of the row that
      is stored under its id, in ascending order of the ids; and it receives them if and only if the mailbox
      was handed over and all of the answer arrives. */
  lemma FetchedAreRows(db: Db, ev: Event, c: Bytes, seen: nat)
    requires Intact(db) && Fetches(ev, c)
    ensures var s := Serve(db, ev);
            var got := ReceiveUnread(Cut(s.sent, seen));
            && (got.Some? <==> s.effect != Quiet && seen >= |s.sent|)
            && (got.Some? ==>
                  && AreRows(db.messages, c, got.value)
                  && forall id :: HasRecord(got.value, id) <==>
                                  id in db.messages && db.messages[id].to == c && db.messages[id].content != [])
  {
    FetchesIs(ev, c);
    FetchSends(db, ev, c);
    ReceivedOf(db, Serve(db, ev).effect, c, Serve(db, ev).sent, seen);
    MailboxIsRows(db, c);
  }

  // ----- the ids of acknowledgements

  lemma StoredBySend(db: Db, ev: Event)
    requires Serve(db, ev).effect.Stored?
    ensures Admitted(db, ev) && UnpackRequestHeader(ev.recvs[0]).value.code == SEND_MESSAGE
  {
    if Admitted(db, ev) && UnpackRequestHeader(ev.recvs[0]).value.code != SEND_MESSAGE {
      var h := Handle(db, UnpackRequestHeader(ev.recvs[0]).value.code, ev);
      OthersStoreNothing(db, UnpackRequestHeader(ev.recvs[0]).value.code, ev);
    }
  }

  lemma OthersStoreNothing(db: Db, code: nat, ev: Event)
    requires ev.recvs != [] && code != SEND_MESSAGE
    ensures !Handle(db, code, ev).effect.Stored?
  {
  }

  /** The acknowledgement of a connection that stored a message names its recipient and its id. */
  lemma AckNamesRow(db: Db, ev: Event, id: nat, row: MessageRow, seen: nat)
    requires Serve(db, ev).effect == Stored(id, row)
    ensures var ack := ReceiveMessageSent(Cut(Serve(db, ev).sent, seen)); ack.Some? ==> ack.value == (row.to, id)
  {
    StoredBySend(db, ev);
    AcknowledgedIsStored(db, ev, seen);
  }

  /** Over every run: what a fetch shows under an id is what the last connection that stored something under
      this id has stored, and its sender was given this id, if it was given any. */
  lemma ShownUnderAcknowledgedId(evs: seq<Event>, ev: Event, c: Bytes, seen: nat, i: nat, seenAck: nat)
    requires Fetches(ev, c) && ReceiveUnread(Cut(Serve(Run(evs).db, ev).sent, seen)).Some?
    requires i < |ReceiveUnread(Cut(Serve(Run(evs).db, ev).sent, seen)).value|
    ensures var x := ReceiveUnread(Cut(Serve(Run(evs).db, ev).sent, seen)).value[i];
            var k := StoredAt(evs, x.id);
            && StoredBy(evs, k, x.id, MessageRow(c, x.from, x.typ, x.content))
            && var ack := ReceiveMessageSent(Cut(Serve(Run(evs[..k - 1]).db, evs[k - 1]).sent, seenAck));
               ack.Some? ==> ack.value == (c, x.id)
  {
    Reachable(evs);
    FetchedAreRows(Run(evs).db, ev, c, seen);
    var x := ReceiveUnread(Cut(Serve(Run(evs).db, ev).sent, seen)).value[i];
    assert IsRowFor(Run(evs).db.messages, c, x);
    var k := StoredAt(evs, x.id);
    StoredRowIsLatest(evs, x.id);
    AckNamesRow(Run(evs[..k - 1]).db, evs[k - 1], x.id, MessageRow(c, x.from, x.typ, x.content), seenAck);
  }

  /** No connection behind the first `k` hands the mailbox of `c` over. */
  predicate NotHandedOverSince(evs: seq<Event>, k: nat, c: Bytes) {
    |evs| <= k || (NotHandedOverSince(evs[..|evs| - 1], k, c) && !HandsOverTo(LastEffect(evs), c))
  }

  lemma StaysInTable(db: Db, effect: Effect, lost: set<nat>, db': Db, id: nat)
    requires PositiveKeys(db.messages) && Transition(db, effect, lost, db') && id in db.messages
    requires !HandsOverTo(effect, db.messages[id].to)
    ensures id in db'.messages && db'.messages[id] == db.messages[id]
  {
    if effect.HandedOver? {
      DroppedAreListed(effect.ids, lost, 0);
    }
  }

  lemma {:induction false} StaysUnderId(evs: seq<Event>, k: nat, id: nat, row: MessageRow)
    requires k <= |evs| && id in Run(evs[..k]).db.messages && Run(evs[..k]).db.messages[id] == row
    requires NotHandedOverSince(evs, k, row.to)
    ensures id in Run(evs).db.messages && Run(evs).db.messages[id] == row
  {
    if k == |evs| {
      assert evs[..k] == evs;
    } else {
      assert evs[..|evs| - 1][..k] == evs[..k];
      StaysUnderId(evs[..|evs| - 1], k, id, row);
      LastStep(evs, []);
      StaysInTable(Before(evs).db, LastEffect(evs), LastEnv(evs).lost, Run(evs).db, id);
    }
  }

  lemma StoredAfter(db: Db, effect: Effect, lost: set<nat>, db': Db, id: nat, row: MessageRow)
    requires Transition(db, effect, lost, db') && effect == Stored(id, row)
    ensures id in db'.messages && db'.messages[id] == row
  {
  }

  lemma LastOfPrefix(evs: seq<Event>, k: nat)
    requires 1 <= k <= |evs|
    ensures evs[..k][..k - 1] == evs[..k - 1] && evs[..k][k - 1] == evs[k - 1]
  {
  }

  lemma StoredIsInTable(evs: seq<Event>, k: nat, id: nat, row: MessageRow)
    requires StoredBy(evs, k, id, row)
    ensures id in Run(evs[..k]).db.messages && Run(evs[..k]).db.messages[id] == row
  {
    var upTo := evs[..k];
    LastOfPrefix(evs, k);
    LastStep(upTo, []);
    StoredAfter(Before(upTo).db, LastEffect(upTo), LastEnv(upTo).lost, Run(upTo).db, id, row);
  }

  lemma RowIsReceived(db: Db, ev: Event, seen: nat, id: nat)
    requires Intact(db) && id in db.messages && db.messages[id].content != []
    requires Fetches(ev, db.messages[id].to) && ReceiveUnread(Cut(Serve(db, ev).sent, seen)).Some?
    ensures var row := db.messages[id];
            Record(row.from, id, row.typ, row.content) in ReceiveUnread(Cut(Serve(db, ev).sent, seen)).value
  {
    FetchedAreRows(db, ev, db.messages[id].to, seen);
    var got := ReceiveUnread(Cut(Serve(db, ev).sent, seen)).value;
    assert HasRecord(got, id);
    var i :| 0 <= i < |got| && got[i].id == id;
    assert IsRowFor(db.messages, db.messages[id].to, got[i]);
  }

  /** Over every run: a message with content that connection `k` stored, and possibly acknowledged, is
      received under the id of that acknowledgement by the next fetch of its recipient that receives
      anything, however many other messages came and went. */
  lemma AcknowledgedIsFetchedUnderItsId(evs: seq<Event>, k: nat, id: nat, row: MessageRow, ev: Event, seen: nat,
                                        seenAck: nat)
    requires StoredBy(evs, k, id, row) && row.content != [] && NotHandedOverSince(evs, k, row.to)
    requires Fetches(ev, row.to) && ReceiveUnread(Cut(Serve(Run(evs).db, ev).sent, seen)).Some?
    ensures Record(row.from, id, row.typ, row.content) in ReceiveUnread(Cut(Serve(Run(evs).db, ev).sent, seen)).value
    ensures var ack := ReceiveMessageSent(Cut(Serve(Run(evs[..k - 1]).db, evs[k - 1]).sent, seenAck));
            ack.Some? ==> ack.value == (row.to, id)
  {
    StoredIsInTable(evs, k, id, row);
    StaysUnderId(evs, k, id, row);
    Reachable(evs);
    RowIsReceived(Run(evs).db, ev, seen, id);
    AckNamesRow(Run(evs[..k - 1]).db, evs[k - 1], id, row, seenAck);
  }
}
