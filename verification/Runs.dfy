/** The theorems about all runs: any number of connections with any received bytes, in any
    environment, starting from empty tables. */
module Runs {
  import opened ByteStrings
  import opened Database
  import opened MessageTable
  import opened ServerSpec
  import opened Integrity
  import opened PostOffice
  import opened Refinement

  /** The tables, and beside them the abstract office fed with the same requests. */
  datatype Sys = Sys(db: Db, office: Office)

  const INITIAL: Sys := Sys(Db([], map[]), Office({}, map[]))

  function Step(s: Sys, ev: Event): Sys {
    Sys(Serve(s.db, ev).db, Next(s.office, AskOf(s.db, ev)))
  }

  function Run(evs: seq<Event>): Sys {
    if evs == [] then INITIAL else Step(Run(evs[..|evs| - 1]), evs[|evs| - 1])
  }

  ghost predicate Good(s: Sys) {
    Intact(s.db) && Simulates(s.db, s.office) && AllSound(s.office)
  }

  /** One connection, seen from both sides. */
  ghost predicate Advance(s: Sys, effect: Effect, lost: set<nat>, s': Sys) {
    && Transition(s.db, effect, lost, s'.db)
    && s'.office == After(s.office, effect, lost)
  }

  lemma StepAdvances(s: Sys, ev: Event)
    requires Simulates(s.db, s.office)
    ensures Advance(s, Serve(s.db, ev).effect, ev.env.lost, Step(s, ev))
  {
    OfficeDecidesAlike(s.db, s.office, ev);
    NextIsAfter(s.office, AskOf(s.db, ev), Serve(s.db, ev).effect, ev.env.lost);
    ServeIsTransition(s.db, ev);
  }

  lemma AfterKeepsSound(o: Office, effect: Effect, lost: set<nat>)
    requires AllSound(o)
    ensures AllSound(After(o, effect, lost))
  {
    match effect
    case Stored(_, row) => if row.to in o.boxes { PostKeepsSound(o.boxes[row.to], ItemOf(row)); }
    case HandedOver(to, _) => if to in o.boxes { HandOverKeepsSound(o.boxes[to], lost); }
    case _ =>
  }

  lemma AdvanceKeepsGood(s: Sys, effect: Effect, lost: set<nat>, s': Sys)
    requires Good(s) && Advance(s, effect, lost, s')
    ensures Good(s')
  {
    TransitionKeepsIntact(s.db, effect, lost, s'.db);
    TransitionSimulates(s.db, s.office, effect, lost, s'.db);
    AfterKeepsSound(s.office, effect, lost);
  }

  lemma EmptyIsGood()
    ensures Good(INITIAL)
  {
  }

  /** Integrity, refinement and no loss in every reachable state. */
  lemma {:induction false} Reachable(evs: seq<Event>)
    ensures Good(Run(evs))
  {
    if evs != [] {
      var s, last := Run(evs[..|evs| - 1]), evs[|evs| - 1];
      Reachable(evs[..|evs| - 1]);
      StepAdvances(s, last);
      AdvanceKeepsGood(s, Serve(s.db, last).effect, last.env.lost, Run(evs));
    } else {
      EmptyIsGood();
    }
  }

  function ItemsAt(m: map<nat, MessageRow>, ids: seq<nat>): (items: seq<Item>)
    requires AllStored(m, ids)
  {
    if ids == [] then [] else [ItemOf(m[ids[0]])] + ItemsAt(m, ids[1..])
  }

  /** The messages stored for `c`, in the order in which a fetch selects them. */
  function Pending(db: Db, c: Bytes): seq<Item> {
    UnreadAreStored(db.messages, c);
    ItemsAt(db.messages, Unread(db.messages, c))
  }

  /** The items of `accepted` named by `places`. */
  function Pick(accepted: seq<Item>, places: seq<nat>): (items: seq<Item>)
    requires Below(places, |accepted|)
  {
    if places == [] then [] else [accepted[places[0]]] + Pick(accepted, places[1..])
  }

  lemma {:induction false} ListedItems(m: map<nat, MessageRow>, ids: seq<nat>, accepted: seq<Item>, queue: seq<nat>)
    requires Lists(m, ids, accepted, queue)
    ensures AllStored(m, ids) && Below(queue, |accepted|) && ItemsAt(m, ids) == Pick(accepted, queue)
  {
    if ids != [] {
      ListedItems(m, ids[1..], accepted, queue[1..]);
    }
  }

  lemma PendingIsQueue(s: Sys, c: Bytes)
    requires Good(s) && c in s.office.boxes
    ensures Below(s.office.boxes[c].queue, |s.office.boxes[c].accepted|)
    ensures Pending(s.db, c) == Pick(s.office.boxes[c].accepted, s.office.boxes[c].queue)
  {
    ListedItems(s.db.messages, Unread(s.db.messages, c), s.office.boxes[c].accepted, s.office.boxes[c].queue);
  }

  /** No loss, in every run with any failures: what is stored for a client is the queue of its box,
      in acceptance order and without duplicates, and every accepted message that is no longer
      stored was carried in a complete reply to that client. */
  lemma NoLoss(evs: seq<Event>, c: Bytes)
    requires c in Run(evs).office.boxes
    ensures var s := Run(evs);
            var b := s.office.boxes[c];
            && Ascending(b.queue) && Below(b.queue, |b.accepted|)
            && Pending(s.db, c) == Pick(b.accepted, b.queue)
            && (forall i :: 0 <= i < |b.accepted| && i !in b.queue ==> Carried(b.replies, i))
  {
    Reachable(evs);
    PendingIsQueue(Run(evs), c);
  }

  // ----- the last connection of a run

  function Before(evs: seq<Event>): Sys
    requires evs != []
  {
    Run(evs[..|evs| - 1])
  }

  function LastEnv(evs: seq<Event>): Env
    requires evs != []
  {
    evs[|evs| - 1].env
  }

  function LastEffect(evs: seq<Event>): Effect
    requires evs != []
  {
    Serve(Before(evs).db, evs[|evs| - 1]).effect
  }

  lemma LastStep(evs: seq<Event>, c: Bytes)
    requires evs != []
    ensures Good(Before(evs)) && Good(Run(evs)) && Advance(Before(evs), LastEffect(evs), LastEnv(evs).lost, Run(evs))
    ensures BoxMoves(Before(evs).office.boxes, Run(evs).office.boxes, c, LastEffect(evs), LastEnv(evs).lost)
    ensures HandsOverTo(LastEffect(evs), c) ==>
              && c in Before(evs).office.boxes
              && |LastEffect(evs).ids| == |Before(evs).office.boxes[c].queue|
  {
    var s, effect, lost := Before(evs), LastEffect(evs), LastEnv(evs).lost;
    Reachable(evs[..|evs| - 1]);
    Reachable(evs);
    StepAdvances(s, evs[|evs| - 1]);
    TransitionMovesBox(s.db, s.office, effect, lost, Run(evs).db, c);
  }

  // ----- deletions that fail for one client

  /** Every delete loop for `c` that loses a deletion loses all the following ones. */
  predicate Orderly(evs: seq<Event>, c: Bytes) {
    evs == [] ||
    (&& Orderly(evs[..|evs| - 1], c)
     && (HandsOverTo(LastEffect(evs), c) ==> StopsOnly(LastEnv(evs).lost, |LastEffect(evs).ids|)))
  }

  /** No delete loop for `c` loses a deletion. */
  predicate Committed(evs: seq<Event>, c: Bytes) {
    evs == [] ||
    (&& Committed(evs[..|evs| - 1], c)
     && (HandsOverTo(LastEffect(evs), c) ==> forall i :: 0 <= i < |LastEffect(evs).ids| ==> i !in LastEnv(evs).lost))
  }

  predicate QueueIsSuffix(boxes: map<Bytes, Box>, c: Bytes) {
    c in boxes ==> IsSuffix(boxes[c].queue, |boxes[c].accepted|)
  }

  /** The queue of `c` is a suffix of what was accepted for it, now and at every earlier moment. */
  predicate AlwaysSuffix(evs: seq<Event>, c: Bytes) {
    QueueIsSuffix(Run(evs).office.boxes, c) && (evs != [] ==> AlwaysSuffix(evs[..|evs| - 1], c))
  }

  lemma SuffixStep(boxes: map<Bytes, Box>, boxes': map<Bytes, Box>, c: Bytes, effect: Effect, lost: set<nat>)
    requires BoxMoves(boxes, boxes', c, effect, lost) && QueueIsSuffix(boxes, c)
    ensures QueueIsSuffix(boxes', c)
            <==> (HandsOverTo(effect, c) ==> StopsOnly(lost, |boxes[c].queue|))
  {
    if HandsOverTo(effect, c) {
      SuffixIff(boxes[c].queue, |boxes[c].accepted|, lost);
    }
  }

  /** Whatever fails for other clients, and whatever sends fail, the queue of a client always is a
      suffix of what was accepted for it if and only if its own delete loops only ever stop. */
  lemma {:induction false} SuffixesIff(evs: seq<Event>, c: Bytes)
    ensures AlwaysSuffix(evs, c) <==> Orderly(evs, c)
  {
    if evs != [] {
      SuffixesIff(evs[..|evs| - 1], c);
      LastStep(evs, c);
      if AlwaysSuffix(evs[..|evs| - 1], c) {
        assert QueueIsSuffix(Before(evs).office.boxes, c);
        SuffixStep(Before(evs).office.boxes, Run(evs).office.boxes, c, LastEffect(evs), LastEnv(evs).lost);
      }
    }
  }

  lemma {:induction false} PickSuffix(accepted: seq<Item>, q: seq<nat>)
    requires IsSuffix(q, |accepted|)
    ensures Below(q, |accepted|) && Pick(accepted, q) == accepted[|accepted| - |q|..]
  {
    if q != [] {
      PickSuffix(accepted, q[1..]);
    }
  }

  /** With packing or sending failing at any point and the process stopping anywhere in a delete
      loop, the stored messages of a client are a suffix of those accepted for it. */
  lemma PendingIsSuffix(evs: seq<Event>, c: Bytes)
    requires Orderly(evs, c) && c in Run(evs).office.boxes
    ensures var b := Run(evs).office.boxes[c];
            |b.queue| <= |b.accepted| && Pending(Run(evs).db, c) == b.accepted[|b.accepted| - |b.queue|..]
  {
    NoLoss(evs, c);
    SuffixesIff(evs, c);
    PickSuffix(Run(evs).office.boxes[c].accepted, Run(evs).office.boxes[c].queue);
  }

  ghost predicate BoxExactlyOnce(boxes: map<Bytes, Box>, c: Bytes) {
    c in boxes ==> ExactlyOnce(boxes[c])
  }

  predicate BoxNoneMissing(boxes: map<Bytes, Box>, c: Bytes) {
    c in boxes ==> NoneMissing(boxes[c])
  }

  lemma ExactlyOnceStep(boxes: map<Bytes, Box>, boxes': map<Bytes, Box>, c: Bytes, effect: Effect, lost: set<nat>)
    requires BoxMoves(boxes, boxes', c, effect, lost) && BoxNoneMissing(boxes, c)
    ensures BoxNoneMissing(boxes', c)
    ensures BoxExactlyOnce(boxes', c) <==>
            BoxExactlyOnce(boxes, c)
            && (HandsOverTo(effect, c) ==> forall i :: 0 <= i < |boxes[c].queue| ==> i !in lost)
  {
    if c in boxes && effect.Stored? && effect.row.to == c {
      ExactlyOncePost(boxes[c], ItemOf(effect.row));
    } else if HandsOverTo(effect, c) {
      ExactlyOnceIff(boxes[c], lost);
    }
  }

  /** Exactly once, in order: whatever sends fail and whatever fails for others, the complete
      replies to a client followed by its queue are the acceptance order, without gap, duplicate or
      exchange, if and only if no deletion of the client's own delete loops was lost. */
  lemma {:induction false} DeliversExactlyOnce(evs: seq<Event>, c: Bytes)
    ensures BoxExactlyOnce(Run(evs).office.boxes, c) <==> Committed(evs, c)
    ensures BoxNoneMissing(Run(evs).office.boxes, c)
  {
    if evs != [] {
      DeliversExactlyOnce(evs[..|evs| - 1], c);
      LastStep(evs, c);
      ExactlyOnceStep(Before(evs).office.boxes, Run(evs).office.boxes, c, LastEffect(evs), LastEnv(evs).lost);
    }
  }

  // ----- isolation

  lemma {:induction false} ItemsKept(m: map<nat, MessageRow>, ids: seq<nat>, lost: set<nat>, from: nat)
    requires AllStored(m, ids)
    ensures AllStored(m, Kept(ids, lost, from))
    ensures ItemsAt(m, Kept(ids, lost, from)) == Kept(ItemsAt(m, ids), lost, from)
  {
    if ids != [] {
      ItemsKept(m, ids[1..], lost, from + 1);
      var rest := Kept(ids[1..], lost, from + 1);
      assert ([ids[0]] + rest)[1..] == rest && [] + rest == rest;
      assert ItemsAt(m, ids)[1..] == ItemsAt(m, ids[1..]);
    }
  }

  lemma {:induction false} ItemsSame(m: map<nat, MessageRow>, m': map<nat, MessageRow>, ids: seq<nat>)
    requires AllStored(m, ids) && AllStored(m', ids)
    requires forall i :: 0 <= i < |ids| ==> m[ids[i]] == m'[ids[i]]
    ensures ItemsAt(m, ids) == ItemsAt(m', ids)
  {
    if ids != [] {
      ItemsSame(m, m', ids[1..]);
    }
  }

  lemma {:induction false} ItemsAppend(m: map<nat, MessageRow>, ids: seq<nat>, id: nat)
    requires AllStored(m, ids) && id in m
    ensures ItemsAt(m, ids + [id]) == ItemsAt(m, ids) + [ItemOf(m[id])]
  {
    if ids == [] {
      assert ids + [id] == [id];
    } else {
      assert (ids + [id])[1..] == ids[1..] + [id];
      ItemsAppend(m, ids[1..], id);
    }
  }

  /** What one connection does to the messages stored for a client. */
  function PendingAfter(pending: seq<Item>, c: Bytes, effect: Effect, lost: set<nat>): seq<Item> {
    if effect.Stored? && effect.row.to == c then pending + [ItemOf(effect.row)]
    else if effect.HandedOver? && effect.to == c then Kept(pending, lost, 0)
    else pending
  }

  lemma PendingAfterStore(m: map<nat, MessageRow>, row: MessageRow, c: Bytes)
    ensures var m' := m[NextId(m) := row];
            && AllStored(m, Unread(m, c)) && AllStored(m', Unread(m', c))
            && ItemsAt(m', Unread(m', c))
               == if row.to == c then ItemsAt(m, Unread(m, c)) + [ItemOf(row)] else ItemsAt(m, Unread(m, c))
  {
    var m', ids := m[NextId(m) := row], Unread(m, c);
    UnreadAreStored(m, c);
    UnreadAfterInsert(m, row, c);
    ItemsSame(m, m', ids);
    if row.to == c {
      ItemsAppend(m', ids, NextId(m));
    }
  }

  lemma PendingAfterHandOver(m: map<nat, MessageRow>, to: Bytes, lost: set<nat>, c: Bytes)
    requires PositiveKeys(m)
    ensures var m' := m - Dropped(Unread(m, to), lost, 0);
            && AllStored(m, Unread(m, c)) && AllStored(m', Unread(m', c))
            && ItemsAt(m', Unread(m', c))
               == if to == c then Kept(ItemsAt(m, Unread(m, c)), lost, 0) else ItemsAt(m, Unread(m, c))
  {
    var m' := m - Dropped(Unread(m, to), lost, 0);
    UnreadAreStored(m, c);
    UnreadAreStored(m', c);
    UnreadAfterDelete(m, to, lost, c);
    ItemsSame(m, m', Unread(m', c));
    if to == c {
      ItemsKept(m, Unread(m, c), lost, 0);
    }
  }

  lemma TransitionPending(db: Db, effect: Effect, lost: set<nat>, db': Db, c: Bytes)
    requires PositiveKeys(db.messages) && Transition(db, effect, lost, db')
    ensures Pending(db', c) == PendingAfter(Pending(db, c), c, effect, lost)
  {
    match effect
    case Stored(_, row) => PendingAfterStore(db.messages, row, c);
    case HandedOver(to, _) => PendingAfterHandOver(db.messages, to, lost, c);
    case _ =>
  }

  /** Mailbox isolation: what is stored for a client changes only by appending a send accepted for
      it or by its own completely answered fetch. Everything else, in any environment, leaves it. */
  lemma MailboxIsolation(evs: seq<Event>, ev: Event, c: Bytes)
    ensures var before, effect := Run(evs).db, Serve(Run(evs).db, ev).effect;
            Pending(Run(evs + [ev]).db, c) == PendingAfter(Pending(before, c), c, effect, ev.env.lost)
  {
    var s, all := Run(evs), evs + [ev];
    assert all[..|all| - 1] == evs;
    Reachable(evs);
    ServeIsTransition(s.db, ev);
    TransitionPending(s.db, Serve(s.db, ev).effect, ev.env.lost, Serve(s.db, ev).db, c);
  }
}
