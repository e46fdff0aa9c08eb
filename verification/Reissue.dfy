/** Message ids over whole runs. The key of the next row is one more than the greatest key stored, so
    that an id may come back after its message was deleted. */
module Reissue {
  import opened Database
  import opened ServerSpec
  import opened Integrity
  import opened Runs

  /** The id that a connection gives to a message. */
  function NewIds(effect: Effect): set<nat> {
    if effect.Stored? then {effect.id} else {}
  }

  /** All ids given so far. */
  function Issued(evs: seq<Event>): set<nat> {
    if evs == [] then {} else Issued(evs[..|evs| - 1]) + NewIds(LastEffect(evs))
  }

  /** The greatest id given so far. */
  function HighWater(evs: seq<Event>): nat {
    if evs == [] then 0
    else
      var top, effect := HighWater(evs[..|evs| - 1]), LastEffect(evs);
      if effect.Stored? && effect.id > top then effect.id else top
  }

  ghost predicate UpToMark(ids: set<nat>, mark: nat) {
    forall x :: x in ids <==> 1 <= x <= mark
  }

  predicate StoredUpTo(m: map<nat, MessageRow>, mark: nat) {
    forall id :: id in m ==> id <= mark
  }

  lemma MarkAfter(db: Db, effect: Effect, lost: set<nat>, db': Db, ids: set<nat>, mark: nat)
    requires Transition(db, effect, lost, db') && UpToMark(ids, mark) && StoredUpTo(db.messages, mark)
    ensures var mark' := if effect.Stored? && effect.id > mark then effect.id else mark;
            UpToMark(ids + NewIds(effect), mark') && StoredUpTo(db'.messages, mark')
  {
    if effect.Stored? {
      assert 1 <= effect.id <= mark + 1;
    }
  }

  /** The ids given in a run are exactly those up to the greatest, without gaps, and every stored
      message has one of them. */
  lemma {:induction false} IssuedIsInterval(evs: seq<Event>)
    ensures forall x :: x in Issued(evs) <==> 1 <= x <= HighWater(evs)
    ensures forall id :: id in Run(evs).db.messages ==> id in Issued(evs)
  {
    Reachable(evs);
    if evs != [] {
      IssuedIsInterval(evs[..|evs| - 1]);
      LastStep(evs, []);
      MarkAfter(Before(evs).db, LastEffect(evs), LastEnv(evs).lost, Run(evs).db,
                Issued(evs[..|evs| - 1]), HighWater(evs[..|evs| - 1]));
    }
  }

  lemma NextIsOld(m: map<nat, MessageRow>, ids: set<nat>, mark: nat)
    requires UpToMark(ids, mark) && forall id :: id in m ==> id in ids
    ensures NextId(m) in ids <==> ids != {} && mark !in m
  {
    if ids != {} {
      var x :| x in ids;
      assert mark in ids;
    }
    if m != map[] {
      assert MaxId(m) in ids;
    }
  }

  /** In every run the next id is one that was given before, whenever its message went, if and only
      if some id was given and the greatest of them is no longer stored. */
  lemma ReissuesIff(evs: seq<Event>)
    ensures NextId(Run(evs).db.messages) in Issued(evs)
            <==> Issued(evs) != {} && HighWater(evs) !in Run(evs).db.messages
  {
    IssuedIsInterval(evs);
    NextIsOld(Run(evs).db.messages, Issued(evs), HighWater(evs));
  }

  // ----- the order of the whole table

  /** The number of the last connection that stored a message under `id`, counted from one; zero if
      there is none. */
  function StoredAt(evs: seq<Event>, id: nat): (k: nat)
    ensures k <= |evs|
  {
    if evs == [] then 0
    else if LastEffect(evs).Stored? && LastEffect(evs).id == id then |evs|
    else StoredAt(evs[..|evs| - 1], id)
  }

  /** The row that a connection stored. */
  ghost predicate StoredBy(evs: seq<Event>, k: nat, id: nat, row: MessageRow) {
    1 <= k <= |evs| && Serve(Run(evs[..k - 1]).db, evs[k - 1]).effect == Stored(id, row)
  }

  lemma StoredByEarlier(evs: seq<Event>, k: nat, id: nat, row: MessageRow)
    requires evs != [] && StoredBy(evs[..|evs| - 1], k, id, row)
    ensures StoredBy(evs, k, id, row)
  {
    assert evs[..|evs| - 1][..k - 1] == evs[..k - 1];
  }

  lemma MessagesAfter(db: Db, effect: Effect, lost: set<nat>, db': Db, id: nat)
    requires Transition(db, effect, lost, db') && id in db'.messages
    ensures if effect.Stored? && effect.id == id then db'.messages[id] == effect.row
            else id in db.messages && db'.messages[id] == db.messages[id]
    ensures effect.Stored? ==> forall x :: x in db.messages ==> x < effect.id
  {
  }

  /** Every stored row is the one that the last connection with its id stored. */
  lemma {:induction false} StoredRowIsLatest(evs: seq<Event>, id: nat)
    requires id in Run(evs).db.messages
    ensures StoredBy(evs, StoredAt(evs, id), id, Run(evs).db.messages[id])
  {
    if evs != [] {
      LastStep(evs, []);
      MessagesAfter(Before(evs).db, LastEffect(evs), LastEnv(evs).lost, Run(evs).db, id);
      if LastEffect(evs).Stored? && LastEffect(evs).id == id {
        assert evs[..|evs| - 1] == evs[..StoredAt(evs, id) - 1];
      } else {
        StoredRowIsLatest(evs[..|evs| - 1], id);
        StoredByEarlier(evs, StoredAt(evs, id), id, Run(evs).db.messages[id]);
      }
    }
  }

  lemma {:induction false} SmallerIsOlder(evs: seq<Event>, id: nat, id': nat)
    requires id in Run(evs).db.messages && id' in Run(evs).db.messages && id < id'
    ensures StoredAt(evs, id) < StoredAt(evs, id')
  {
    if evs != [] {
      LastStep(evs, []);
      MessagesAfter(Before(evs).db, LastEffect(evs), LastEnv(evs).lost, Run(evs).db, id);
      MessagesAfter(Before(evs).db, LastEffect(evs), LastEnv(evs).lost, Run(evs).db, id');
      if !(LastEffect(evs).Stored? && LastEffect(evs).id == id') {
        SmallerIsOlder(evs[..|evs| - 1], id, id');
      }
    }
  }

  /** Table-wide, although ids are reissued: of two stored messages, whoever they are for, the one with
      the smaller id was accepted earlier. */
  lemma IdOrderIsAcceptanceOrder(evs: seq<Event>, id: nat, id': nat)
    requires id in Run(evs).db.messages && id' in Run(evs).db.messages
    ensures id < id' <==> StoredAt(evs, id) < StoredAt(evs, id')
  {
    if id < id' {
      SmallerIsOlder(evs, id, id');
    } else if id' < id {
      SmallerIsOlder(evs, id', id);
    }
  }
}
