/** From the bytes of the replies to what the clients' programs show. */
module Delivery {
  import opened ByteStrings
  import opened Database
  import opened MessageTable
  import opened Protocol
  import opened Framing
  import opened ServerSpec
  import opened ClientSpec
  import opened Integrity
  import opened PostOffice
  import opened Refinement
  import opened Runs

  function ShownItems(rs: seq<Record>): seq<Item> {
    if rs == [] then [] else [Item(rs[0].from, rs[0].typ, rs[0].content)] + ShownItems(rs[1..])
  }

  predicate IsFetchBy(ev: Event, c: Bytes) {
    && ev.recvs != []
    && var h := UnpackRequestHeader(ev.recvs[0]);
    && h.Some? && h.value.code == GET_UNREAD_MESSAGES && h.value.clientId == c
  }

  /** What a client shows when it receives `sent` in answer to its fetch. */
  function Shows(sent: Bytes): seq<Item> {
    var r := ReceiveUnread(sent);
    if r.None? then [] else ShownItems(r.value)
  }

  /** What a client that receives everything sent shows for a fetch under the identifier `c`. */
  function ShownBy(db: Db, ev: Event, c: Bytes): seq<Item> {
    if IsFetchBy(ev, c) then Shows(Serve(db, ev).sent) else []
  }

  /** The same for all fetches of a run under the identifier `c`. */
  function Shown(evs: seq<Event>, c: Bytes): seq<Item> {
    if evs == [] then []
    else
      var prefix, last := evs[..|evs| - 1], evs[|evs| - 1];
      Shown(prefix, c) + ShownBy(Run(prefix).db, last, c)
  }

  function WithContent(items: seq<Item>): seq<Item> {
    if items == [] then [] else (if items[0].content == [] then [] else [items[0]]) + WithContent(items[1..])
  }

  lemma {:induction false} WithContentAppend(a: seq<Item>, b: seq<Item>)
    ensures WithContent(a + b) == WithContent(a) + WithContent(b)
  {
    if a == [] {
      assert a + b == b;
    } else {
      assert (a + b)[1..] == a[1..] + b;
      WithContentAppend(a[1..], b);
    }
  }

  lemma {:induction false} ShownIsWithContent(rs: seq<Record>)
    ensures ShownItems(NonEmpty(rs)) == WithContent(ShownItems(rs))
  {
    if rs != [] {
      ShownIsWithContent(rs[1..]);
      assert ([rs[0]] + NonEmpty(rs[1..]))[1..] == NonEmpty(rs[1..]) && [] + NonEmpty(rs[1..]) == NonEmpty(rs[1..]);
      assert ShownItems(rs)[1..] == ShownItems(rs[1..]);
    }
  }

  predicate WellFormedMailbox(rs: seq<Record>) {
    forall i :: 0 <= i < |rs| ==> |rs[i].from| == CLIENT_ID_SIZE
  }

  /** End-to-end delivery of one mailbox. Packing, header, chunked writing, reassembly and parsing
      give the client the same (sender, id, type, content) list in the same order, minus the
      messages without content; any part of the reply gives it nothing or the same list. */
  lemma MailboxDelivered(rs: seq<Record>, seen: Bytes)
    requires WellFormedMailbox(rs) && PackMailbox(rs) != []
    requires seen <= Frame(PackMailbox(rs))
    ensures ReceiveUnread(seen) == if |seen| >= PACKET_SIZE && |seen| >= |PackMailbox(rs)|
                                   then Some(NonEmpty(rs)) else None
  {
    var payload := PackRecords(rs);
    assert PackMailbox(rs) == Reply(GET_UNREAD_MESSAGES_SUCCESS, payload);
    FramingRoundTrip(GET_UNREAD_MESSAGES_SUCCESS, payload, seen);
    RecordsRoundTrip(payload, 0, rs);
    if rs != [] {
      assert payload == PackRecord(rs[0]) + PackRecords(rs[1..]);
    }
  }

  lemma SendersAreIds(db: Db, c: Bytes)
    requires Intact(db)
    ensures WellFormedMailbox(Mailbox(db.messages, c))
  {
  }

  /** A fetch in an environment without faults: the whole mailbox goes out and is handed over, or,
      if it cannot be packed, an error goes out and the mailbox stays. */
  lemma FetchOutcome(db: Db, ev: Event, c: Bytes)
    requires ev.env.faults == {} && IsFetchBy(ev, c)
    ensures var s, reply := Serve(db, ev), PackMailbox(Mailbox(db.messages, c));
            if !Admitted(db, ev) then s.sent == [] && s.effect == Quiet
            else if reply == [] then s.sent == Frame(PackError()) && s.effect == Quiet
            else s.sent == Frame(reply) && s.effect == HandedOver(c, Unread(db.messages, c))
  {
    TransmitWithoutFaults(PackMailbox(Mailbox(db.messages, c)), {}, 0);
    TransmitWithoutFaults(PackError(), {}, 0);
  }

  lemma {:induction false} RecordsShow(m: map<nat, MessageRow>, ids: seq<nat>)
    requires AllStored(m, ids)
    ensures ShownItems(RecordsOf(m, ids)) == ItemsAt(m, ids)
  {
    if ids != [] {
      RecordsShow(m, ids[1..]);
      assert RecordsOf(m, ids)[1..] == RecordsOf(m, ids[1..]);
    }
  }

  // ----- one fetch, whatever fails

  /** What a fetch of `reply` puts on the wire: all of it when the mailbox is handed over, otherwise
      an error, part of the reply or nothing. */
  predicate FetchSent(effect: Effect, c: Bytes, ids: seq<nat>, reply: Bytes, sent: Bytes) {
    if effect == Quiet then sent <= Frame(PackError()) || (reply != [] && sent <= Frame(reply) && |sent| < |reply|)
    else effect == HandedOver(c, ids) && reply != [] && sent == Frame(reply)
  }

  lemma GetUnreadSends(db: Db, data: Bytes, env: Env, c: Bytes)
    requires UnpackRequestHeader(data).Some? && UnpackRequestHeader(data).value.clientId == c
    ensures var h := HandleGetUnread(db, data, env);
            var error := if h.verdict == Failed then Transmit(PackError(), env.faults, h.attempts).bytes else [];
            FetchSent(h.effect, c, Unread(db.messages, c), PackMailbox(Mailbox(db.messages, c)), h.sent + error)
  {
    var h := HandleGetUnread(db, data, env);
    var error := if h.verdict == Failed then Transmit(PackError(), env.faults, h.attempts).bytes else [];
    assert if h.verdict == Failed then h.sent + error == error else h.sent + error == h.sent;
  }

  lemma FetchSends(db: Db, ev: Event, c: Bytes)
    requires IsFetchBy(ev, c)
    ensures var s := Serve(db, ev);
            FetchSent(s.effect, c, Unread(db.messages, c), PackMailbox(Mailbox(db.messages, c)), s.sent)
  {
    if Admitted(db, ev) {
      GetUnreadSends(db, ev.recvs[0], ev.env, c);
    }
  }

  lemma ErrorShowsNothing(sent: Bytes)
    requires sent <= Frame(PackError())
    ensures Shows(sent) == []
  {
    assert PackError() == Reply(GENERIC_ERROR, []);
    WrongCodeRefused(GENERIC_ERROR, [], sent, GET_UNREAD_MESSAGES_SUCCESS);
  }

  lemma MailboxShown(db: Db, c: Bytes, sent: Bytes)
    requires Intact(db) && PackMailbox(Mailbox(db.messages, c)) != []
    requires sent <= Frame(PackMailbox(Mailbox(db.messages, c)))
    ensures Shows(sent) ==
              if sent == Frame(PackMailbox(Mailbox(db.messages, c))) then WithContent(Pending(db, c)) else []
  {
    var rs := Mailbox(db.messages, c);
    SendersAreIds(db, c);
    MailboxDelivered(rs, sent);
    ShownIsWithContent(rs);
    RecordsShow(db.messages, Unread(db.messages, c));
  }

  lemma CutOfPart(sent: Bytes, whole: Bytes, seen: nat)
    requires sent <= whole
    ensures Cut(sent, seen) <= whole
  {
  }

  lemma SentShows(db: Db, effect: Effect, c: Bytes, sent: Bytes, seen: nat)
    requires Intact(db)
    requires FetchSent(effect, c, Unread(db.messages, c), PackMailbox(Mailbox(db.messages, c)), sent)
    ensures Shows(Cut(sent, seen)) == if effect != Quiet && seen >= |sent| then WithContent(Pending(db, c)) else []
  {
    var reply := PackMailbox(Mailbox(db.messages, c));
    if effect == Quiet && sent <= Frame(PackError()) {
      CutOfPart(sent, Frame(PackError()), seen);
      ErrorShowsNothing(Cut(sent, seen));
    } else {
      CutOfPart(sent, Frame(reply), seen);
      MailboxShown(db, c, Cut(sent, seen));
    }
  }

  /** What one fetch shows, whatever sends fail and however much of the answer arrives: the whole
      mailbox, if it was handed over and everything arrives, and nothing otherwise. */
  lemma FetchShows(db: Db, ev: Event, c: Bytes, seen: nat)
    requires Intact(db) && IsFetchBy(ev, c)
    ensures var s := Serve(db, ev);
            && (s.effect == Quiet || s.effect == HandedOver(c, Unread(db.messages, c)))
            && Shows(Cut(s.sent, seen)) ==
                 if s.effect != Quiet && seen >= |s.sent| then WithContent(Pending(db, c)) else []
  {
    FetchSends(db, ev, c);
    SentShows(db, Serve(db, ev).effect, c, Serve(db, ev).sent, seen);
  }

  lemma GetUnreadEffect(db: Db, data: Bytes, env: Env)
    ensures var effect, h := HandleGetUnread(db, data, env).effect, UnpackRequestHeader(data);
            effect == Quiet
            || (h.Some? && effect == HandedOver(h.value.clientId, Unread(db.messages, h.value.clientId)))
  {
  }

  lemma RegisterHandsOverNothing(db: Db, data: Bytes, env: Env)
    ensures !HandleRegister(db, data, env).effect.HandedOver?
  {
  }

  lemma SendHandsOverNothing(db: Db, data: Bytes, pieces: seq<Bytes>, env: Env)
    ensures !HandleSend(db, data, pieces, env).effect.HandedOver?
  {
  }

  lemma OnlyFetchesHandOver(db: Db, ev: Event)
    ensures var effect := Serve(db, ev).effect; effect.HandedOver? ==> IsFetchBy(ev, effect.to)
  {
    if Admitted(db, ev) {
      var data, code := ev.recvs[0], UnpackRequestHeader(ev.recvs[0]).value.code;
      if code == REGISTER_CLIENT {
        RegisterHandsOverNothing(db, data, ev.env);
      } else if code == SEND_MESSAGE {
        SendHandsOverNothing(db, data, ev.recvs[1..], ev.env);
      } else if code == GET_UNREAD_MESSAGES {
        GetUnreadEffect(db, data, ev.env);
      } else {
        QueriesAreTransitions(db, data, ev.env);
      }
    }
  }

  lemma FetchShown(db: Db, ev: Event, c: Bytes)
    requires Intact(db) && IsFetchBy(ev, c)
    ensures Shows(Serve(db, ev).sent) ==
              if HandsOverTo(Serve(db, ev).effect, c) then WithContent(Pending(db, c)) else []
  {
    var sent := Serve(db, ev).sent;
    assert Cut(sent, |sent|) == sent;
    FetchShows(db, ev, c, |sent|);
  }

  lemma ShownByEffect(db: Db, ev: Event, c: Bytes)
    requires Intact(db)
    ensures ShownBy(db, ev, c) == if HandsOverTo(Serve(db, ev).effect, c) then WithContent(Pending(db, c)) else []
  {
    if IsFetchBy(ev, c) {
      FetchShown(db, ev, c);
    } else {
      OnlyFetchesHandOver(db, ev);
    }
  }

  /** What one connection adds to what is shown, and makes of what is stored, for `c`. */
  lemma LastShown(evs: seq<Event>, c: Bytes)
    requires evs != []
    ensures var pending, effect := Pending(Before(evs).db, c), LastEffect(evs);
            && Shown(evs, c) ==
                 Shown(evs[..|evs| - 1], c) + (if HandsOverTo(effect, c) then WithContent(pending) else [])
            && Pending(Run(evs).db, c) == PendingAfter(pending, c, effect, LastEnv(evs).lost)
  {
    LastStep(evs, c);
    ShownByEffect(Before(evs).db, evs[|evs| - 1], c);
    TransitionPending(Before(evs).db, LastEffect(evs), LastEnv(evs).lost, Run(evs).db, c);
  }

  // ----- nothing is lost, over any run

  lemma BelowAppend(a: seq<nat>, b: seq<nat>, n: nat)
    requires Below(a, n) && Below(b, n)
    ensures Below(a + b, n)
  {
  }

  lemma PickCons(accepted: seq<Item>, x: nat, rest: seq<nat>, all: seq<nat>)
    requires all == [x] + rest && Below(all, |accepted|) && Below(rest, |accepted|)
    ensures x < |accepted| && Pick(accepted, all) == [accepted[x]] + Pick(accepted, rest)
  {
    assert all[0] == x && all[1..] == rest;
  }

  lemma {:induction false} PickAppend(accepted: seq<Item>, a: seq<nat>, b: seq<nat>, all: seq<nat>)
    requires all == a + b && Below(a, |accepted|) && Below(b, |accepted|) && Below(all, |accepted|)
    ensures Pick(accepted, all) == Pick(accepted, a) + Pick(accepted, b)
  {
    if a == [] {
      assert all == b;
    } else {
      var rest := a[1..] + b;
      BelowAppend(a[1..], b, |accepted|);
      PickAppend(accepted, a[1..], b, rest);
      PickCons(accepted, a[0], rest, all);
      Associative([accepted[a[0]]], Pick(accepted, a[1..]), Pick(accepted, b));
    }
  }

  lemma {:induction false} PickMore(accepted: seq<Item>, more: seq<Item>, places: seq<nat>)
    requires Below(places, |accepted|)
    ensures Pick(accepted + more, places) == Pick(accepted, places)
  {
    if places != [] {
      PickMore(accepted, more, places[1..]);
    }
  }

  /** What was shown under an identifier is what its box says was carried. */
  predicate ShowsReplies(b: Box, shown: seq<Item>) {
    Below(Flatten(b.replies), |b.accepted|) && shown == WithContent(Pick(b.accepted, Flatten(b.replies)))
  }

  lemma ShowsRepliesAfterPost(b: Box, item: Item, shown: seq<Item>)
    requires ShowsReplies(b, shown)
    ensures ShowsReplies(Post(b, item), shown)
  {
    PickMore(b.accepted, [item], Flatten(b.replies));
  }

  lemma ShowsRepliesAfterHandOver(b: Box, lost: set<nat>, shown: seq<Item>)
    requires ShowsReplies(b, shown) && Below(b.queue, |b.accepted|)
    ensures ShowsReplies(HandOver(b, lost), shown + WithContent(Pick(b.accepted, b.queue)))
  {
    FlattenAppend(b.replies, b.queue);
    BelowAppend(Flatten(b.replies), b.queue, |b.accepted|);
    PickAppend(b.accepted, Flatten(b.replies), b.queue, Flatten(b.replies) + b.queue);
    WithContentAppend(Pick(b.accepted, Flatten(b.replies)), Pick(b.accepted, b.queue));
  }

  predicate BoxShowsReplies(boxes: map<Bytes, Box>, c: Bytes, shown: seq<Item>) {
    if c in boxes then ShowsReplies(boxes[c], shown) else shown == []
  }

  lemma ShowsRepliesStep(boxes: map<Bytes, Box>, boxes': map<Bytes, Box>, c: Bytes, effect: Effect, lost: set<nat>,
                         shown: seq<Item>, pending: seq<Item>)
    requires BoxMoves(boxes, boxes', c, effect, lost) && BoxShowsReplies(boxes, c, shown)
    requires c in boxes ==>
               Below(boxes[c].queue, |boxes[c].accepted|) && pending == Pick(boxes[c].accepted, boxes[c].queue)
    ensures BoxShowsReplies(boxes', c, shown + (if HandsOverTo(effect, c) then WithContent(pending) else []))
  {
    assert shown + [] == shown;
    if c in boxes && effect.Stored? && effect.row.to == c {
      ShowsRepliesAfterPost(boxes[c], ItemOf(effect.row), shown);
    } else if c in boxes && HandsOverTo(effect, c) {
      ShowsRepliesAfterHandOver(boxes[c], lost, shown);
    }
  }

  /** In every run with any failures, the bytes sent in answer to the fetches under an identifier
      show exactly the messages with content that its box says were carried, in that order, with
      repetitions. */
  lemma {:induction false} ShownIsReplies(evs: seq<Event>, c: Bytes)
    ensures BoxShowsReplies(Run(evs).office.boxes, c, Shown(evs, c))
  {
    if evs != [] {
      ShownIsReplies(evs[..|evs| - 1], c);
      LastStep(evs, c);
      LastShown(evs, c);
      if c in Before(evs).office.boxes {
        PendingIsQueue(Before(evs), c);
      }
      ShowsRepliesStep(Before(evs).office.boxes, Run(evs).office.boxes, c, LastEffect(evs), LastEnv(evs).lost,
                       Shown(evs[..|evs| - 1], c), Pending(Before(evs).db, c));
    }
  }

  lemma {:induction false} PickHas(accepted: seq<Item>, places: seq<nat>, i: nat)
    requires Below(places, |accepted|) && i in places && accepted[i].content != []
    ensures accepted[i] in WithContent(Pick(accepted, places))
  {
    if places[0] != i {
      PickHas(accepted, places[1..], i);
    }
  }

  lemma {:induction false} CarriedIsFlat(replies: seq<seq<nat>>, i: nat)
    requires Carried(replies, i)
    ensures i in Flatten(replies)
  {
    var r :| 0 <= r < |replies| && i in replies[r];
    if r > 0 {
      assert replies[1..][r - 1] == replies[r];
      CarriedIsFlat(replies[1..], i);
    }
  }

  /** In every run with any failures, an accepted message with content that is no longer stored was
      in the bytes that went out in answer to a fetch under its recipient's identifier. */
  lemma GoneWasShown(evs: seq<Event>, c: Bytes, i: nat)
    requires c in Run(evs).office.boxes
    requires var b := Run(evs).office.boxes[c];
             i < |b.accepted| && i !in b.queue && b.accepted[i].content != []
    ensures Run(evs).office.boxes[c].accepted[i] in Shown(evs, c)
  {
    NoLoss(evs, c);
    ShownIsReplies(evs, c);
    var b := Run(evs).office.boxes[c];
    CarriedIsFlat(b.replies, i);
    PickHas(b.accepted, Flatten(b.replies), i);
  }

  // ----- exactly once, end to end

  /** Among the messages whose deletion is lost none has content. */
  predicate OnlyEmptyKept(pending: seq<Item>, lost: set<nat>, from: nat) {
    forall i :: 0 <= i < |pending| && from + i in lost ==> pending[i].content == []
  }

  /** No delete loop for `c` loses the deletion of a message with content. */
  predicate RepeatsNothing(evs: seq<Event>, c: Bytes) {
    evs == [] ||
    (&& RepeatsNothing(evs[..|evs| - 1], c)
     && (HandsOverTo(LastEffect(evs), c) ==> OnlyEmptyKept(Pending(Before(evs).db, c), LastEnv(evs).lost, 0)))
  }

  lemma {:induction false} KeptWithContent(pending: seq<Item>, lost: set<nat>, from: nat)
    ensures WithContent(Kept(pending, lost, from)) == [] <==> OnlyEmptyKept(pending, lost, from)
  {
    if pending != [] {
      var rest := pending[1..];
      KeptWithContent(rest, lost, from + 1);
      assert OnlyEmptyKept(pending, lost, from) <==>
             (from in lost ==> pending[0].content == []) && OnlyEmptyKept(rest, lost, from + 1) by {
        assert forall i :: 1 <= i < |pending| ==> pending[i] == rest[i - 1];
        if OnlyEmptyKept(pending, lost, from) {
          assert forall i :: 0 <= i < |rest| && from + 1 + i in lost ==>
                               rest[i] == pending[i + 1] && from + (i + 1) in lost;
        }
      }
      WithContentAppend(if from in lost then [pending[0]] else [], Kept(rest, lost, from + 1));
    }
  }

  /** What was shown and what is stored make up what was accepted, up to messages without content. */
  predicate Balanced(shown: seq<Item>, pending: seq<Item>, accepted: seq<Item>) {
    shown + WithContent(pending) == WithContent(accepted)
  }

  predicate NotShort(shown: seq<Item>, pending: seq<Item>, accepted: seq<Item>) {
    |shown| + |WithContent(pending)| >= |WithContent(accepted)|
  }

  lemma BalancedAfterPost(shown: seq<Item>, pending: seq<Item>, accepted: seq<Item>, item: Item)
    ensures Balanced(shown, pending + [item], accepted + [item]) <==> Balanced(shown, pending, accepted)
    ensures NotShort(shown, pending + [item], accepted + [item]) <==> NotShort(shown, pending, accepted)
  {
    WithContentAppend(pending, [item]);
    WithContentAppend(accepted, [item]);
    SameTail(shown, WithContent(pending), WithContent([item]), WithContent(accepted));
  }

  lemma SameTail(a: seq<Item>, b: seq<Item>, tail: seq<Item>, c: seq<Item>)
    ensures a + (b + tail) == c + tail <==> a + b == c
  {
    assert a + (b + tail) == (a + b) + tail;
    if (a + b) + tail == c + tail {
      assert |a + b| == |c|;
      assert ((a + b) + tail)[..|c|] == a + b && (c + tail)[..|c|] == c;
    }
  }

  lemma BalancedAfterHandOver(shown: seq<Item>, pending: seq<Item>, accepted: seq<Item>, lost: set<nat>)
    requires NotShort(shown, pending, accepted)
    ensures NotShort(shown + WithContent(pending), Kept(pending, lost, 0), accepted)
    ensures Balanced(shown + WithContent(pending), Kept(pending, lost, 0), accepted)
            <==> Balanced(shown, pending, accepted) && OnlyEmptyKept(pending, lost, 0)
  {
    KeptWithContent(pending, lost, 0);
    var all, kept := shown + WithContent(pending), WithContent(Kept(pending, lost, 0));
    if kept == [] {
      assert all + kept == all;
    } else {
      assert |all + kept| > |WithContent(accepted)|;
    }
  }

  predicate BoxBalanced(boxes: map<Bytes, Box>, c: Bytes, shown: seq<Item>, pending: seq<Item>) {
    if c in boxes then Balanced(shown, pending, boxes[c].accepted) else true
  }

  predicate BoxNotShort(boxes: map<Bytes, Box>, c: Bytes, shown: seq<Item>, pending: seq<Item>) {
    if c in boxes then NotShort(shown, pending, boxes[c].accepted) else shown == [] && pending == []
  }

  lemma BalancedStep(boxes: map<Bytes, Box>, boxes': map<Bytes, Box>, c: Bytes, effect: Effect, lost: set<nat>,
                     shown: seq<Item>, pending: seq<Item>)
    requires BoxMoves(boxes, boxes', c, effect, lost) && BoxNotShort(boxes, c, shown, pending)
    requires effect.Stored? && effect.row.to == c ==> c in boxes
    ensures var shown' := shown + (if HandsOverTo(effect, c) then WithContent(pending) else []);
            var pending' := PendingAfter(pending, c, effect, lost);
            && BoxNotShort(boxes', c, shown', pending')
            && (BoxBalanced(boxes', c, shown', pending') <==>
                  BoxBalanced(boxes, c, shown, pending)
                  && (HandsOverTo(effect, c) ==> OnlyEmptyKept(pending, lost, 0)))
  {
    assert shown + [] == shown;
    if c in boxes {
      if effect.Stored? && effect.row.to == c {
        BalancedAfterPost(shown, pending, boxes[c].accepted, ItemOf(effect.row));
      } else if HandsOverTo(effect, c) {
        BalancedAfterHandOver(shown, pending, boxes[c].accepted, lost);
      }
    }
  }

  lemma StoredIsForClient(evs: seq<Event>, c: Bytes)
    requires evs != [] && LastEffect(evs).Stored? && LastEffect(evs).row.to == c
    ensures c in Before(evs).office.boxes
  {
    LastStep(evs, c);
  }

  lemma NothingPendingAtFirst(c: Bytes)
    ensures Pending(INITIAL.db, c) == []
  {
  }

  /** Exactly once, end to end, in every run with any failures of sending and any failures of other
      clients' deletions: all that the answers to the fetches under an identifier show, followed by
      what is stored for it, is what was accepted for it, in order and up to messages without
      content, if and only if no deletion of a message with content was lost in its delete loops. */
  lemma {:induction false} ShownThenPending(evs: seq<Event>, c: Bytes)
    ensures BoxBalanced(Run(evs).office.boxes, c, Shown(evs, c), Pending(Run(evs).db, c)) <==> RepeatsNothing(evs, c)
    ensures BoxNotShort(Run(evs).office.boxes, c, Shown(evs, c), Pending(Run(evs).db, c))
  {
    if evs == [] {
      NothingPendingAtFirst(c);
    } else {
      ShownThenPending(evs[..|evs| - 1], c);
      LastStep(evs, c);
      LastShown(evs, c);
      if LastEffect(evs).Stored? && LastEffect(evs).row.to == c {
        StoredIsForClient(evs, c);
      }
      BalancedStep(Before(evs).office.boxes, Run(evs).office.boxes, c, LastEffect(evs), LastEnv(evs).lost,
                   Shown(evs[..|evs| - 1], c), Pending(Before(evs).db, c));
    }
  }
}
