/** From a send that was acknowledged to the program of the named client. */
module EndToEnd {
  import opened ByteStrings
  import opened Database
  import opened Protocol
  import opened ServerSpec
  import opened ClientSpec
  import opened Integrity
  import opened PostOffice
  import opened Refinement
  import opened Runs
  import opened Reassembly
  import opened Joint
  import opened Answers

  /** Clients stay registered, and what was accepted for one stays accepted, at its place. */
  predicate Grows(s: Sys, s': Sys, c: Bytes) {
    && s.db.clients <= s'.db.clients
    && (c in s.office.boxes ==>
          c in s'.office.boxes && s.office.boxes[c].accepted <= s'.office.boxes[c].accepted)
  }

  lemma GrowsOn(s: Sys, s': Sys, s'': Sys, c: Bytes)
    requires Grows(s, s', c) && Grows(s', s'', c)
    ensures Grows(s, s'', c)
  {
  }

  lemma BoxGrows(boxes: map<Bytes, Box>, boxes': map<Bytes, Box>, c: Bytes, effect: Effect, lost: set<nat>)
    requires BoxMoves(boxes, boxes', c, effect, lost) && c in boxes
    ensures c in boxes' && boxes[c].accepted <= boxes'[c].accepted
  {
  }

  lemma StepGrows(s: Sys, ev: Event, c: Bytes)
    requires Good(s)
    ensures Grows(s, Step(s, ev), c)
  {
    var s', effect := Step(s, ev), Serve(s.db, ev).effect;
    StepAdvances(s, ev);
    TransitionMovesBox(s.db, s.office, effect, ev.env.lost, s'.db, c);
    RowsAfter(s, ev);
    if c in s.office.boxes {
      BoxGrows(s.office.boxes, s'.office.boxes, c, effect, ev.env.lost);
    }
  }

  lemma ActGrows(w: World, a: Action, c: Bytes)
    requires Good(w.sys)
    ensures Grows(w.sys, Act(w, a).sys, c)
  {
    if Connects(w, a).Some? {
      StepGrows(w.sys, Connects(w, a).value, c);
    }
  }

  lemma {:induction false} PlayGrows(n: nat, actions: seq<Action>, k: nat, c: Bytes)
    requires k <= |actions|
    ensures Grows(Play(n, actions[..k]).sys, Play(n, actions).sys, c)
  {
    if k == |actions| {
      assert actions[..k] == actions;
    } else {
      var prefix, last := actions[..|actions| - 1], actions[|actions| - 1];
      assert prefix[..k] == actions[..k];
      PlayGrows(n, prefix, k, c);
      JointInvariant(n, prefix);
      ActGrows(Play(n, prefix), last, c);
      GrowsOn(Play(n, actions[..k]).sys, Play(n, prefix).sys, Play(n, actions).sys, c);
    }
  }

  /** The item was accepted for `c`, as number `at`. */
  predicate AcceptedAt(s: Sys, c: Bytes, at: nat, item: Item) {
    c in s.office.boxes && at < |s.office.boxes[c].accepted| && s.office.boxes[c].accepted[at] == item
  }

  lemma StoredIsAccepted(s: Sys, ev: Event, row: MessageRow)
    requires Good(s) && Serve(s.db, ev).effect.Stored? && Serve(s.db, ev).effect.row == row
    ensures exists at :: AcceptedAt(Step(s, ev), row.to, at, ItemOf(row))
  {
    var s', effect := Step(s, ev), Serve(s.db, ev).effect;
    StepAdvances(s, ev);
    TransitionMovesBox(s.db, s.office, effect, ev.env.lost, s'.db, row.to);
    assert HasId(s.db.clients, row.to);
    assert AcceptedAt(s', row.to, |s.office.boxes[row.to].accepted|, ItemOf(row));
  }

  lemma AcceptedStays(s: Sys, s': Sys, c: Bytes, at: nat, item: Item)
    requires AcceptedAt(s, c, at, item) && Grows(s, s', c)
    ensures AcceptedAt(s', c, at, item)
  {
  }

  lemma {:induction false} QueuedIsPicked(accepted: seq<Item>, queue: seq<nat>, at: nat)
    requires Below(queue, |accepted|) && at in queue
    ensures accepted[at] in Pick(accepted, queue)
  {
    if queue[0] != at {
      QueuedIsPicked(accepted, queue[1..], at);
    }
  }

  /** What was accepted for a registered client under whose identifier nothing strayed is stored, or
      its program has shown it. */
  lemma AcceptedIsStoredOrShown(n: nat, actions: seq<Action>, j: nat, at: nat, item: Item)
    requires j < |Play(n, actions).clients| && Play(n, actions).clients[j].registered && item.content != []
    requires !Strayed(n, actions, j, Play(n, actions).clients[j].id)
    requires AcceptedAt(Play(n, actions).sys, Play(n, actions).clients[j].id, at, item)
    ensures item in Pending(Play(n, actions).sys.db, Play(n, actions).clients[j].id)
            || item in ProgramShown(n, actions, j)
  {
    var s, c := Play(n, actions).sys, Play(n, actions).clients[j].id;
    JointInvariant(n, actions);
    PendingIsQueue(s, c);
    if at in s.office.boxes[c].queue {
      QueuedIsPicked(s.office.boxes[c].accepted, s.office.boxes[c].queue, at);
    } else {
      GoneWasShownToProgram(n, actions, j, at);
    }
  }

  lemma OneRowPerName(rows: seq<ClientRow>, id: Bytes, id': Bytes, name: Bytes)
    requires ClientsIntact(rows) && HasRow(rows, id, name) && HasRow(rows, id', name)
    ensures id == id'
  {
  }

  lemma RowStays(rows: seq<ClientRow>, rows': seq<ClientRow>, id: Bytes, name: Bytes)
    requires rows <= rows' && HasRow(rows, id, name)
    ensures HasRow(rows', id, name)
  {
  }

  /** An acknowledged send is stored for the row of the name to which it was sent. */
  lemma AcknowledgedForName(w: World, a: Action, r: SendRequest, seen: nat)
    requires WorldGood(w) && a.SendTo? && Connects(w, a).Some?
    requires SendRequestOfAction(w.clients[a.i], a) == Some(r)
    requires NonEmptyPieces(a.pieces) && ValidMessageType(a.typ) && Flatten(a.pieces) <= LaterOf(r)
    requires ReceiveMessageSent(Cut(Serve(w.sys.db, Connects(w, a).value).sent, seen)).Some?
    ensures var effect := Serve(w.sys.db, Connects(w, a).value).effect;
            && effect.Stored? && HasRow(w.sys.db.clients, effect.row.to, a.name)
            && ItemOf(effect.row) == Item(w.clients[a.i].id, a.typ, a.content)
  {
    var ev := Connects(w, a).value;
    SendConnects(w, a, r, ev);
    SendInWorld(w, a, r, ev);
    SendHeaderArrives(r);
    HeaderOfAction(w, a);
    RegisteredIsAdmitted(w.sys.db, w.clients[a.i], ev);
    AcknowledgedIsStored(w.sys.db, ev, seen);
  }

  lemma SendIsAccepted(w: World, a: Action, r: SendRequest, seen: nat) returns (to: Bytes, at: nat)
    requires WorldGood(w) && a.SendTo? && Connects(w, a).Some?
    requires SendRequestOfAction(w.clients[a.i], a) == Some(r)
    requires NonEmptyPieces(a.pieces) && ValidMessageType(a.typ) && Flatten(a.pieces) <= LaterOf(r)
    requires ReceiveMessageSent(Cut(Serve(w.sys.db, Connects(w, a).value).sent, seen)).Some?
    ensures HasRow(w.sys.db.clients, to, a.name)
    ensures AcceptedAt(Act(w, a).sys, to, at, Item(w.clients[a.i].id, a.typ, a.content))
  {
    var ev := Connects(w, a).value;
    AcknowledgedForName(w, a, r, seen);
    var row := Serve(w.sys.db, ev).effect.row;
    StoredIsAccepted(w.sys, ev, row);
    to := row.to;
    at :| AcceptedAt(Step(w.sys, ev), row.to, at, ItemOf(row));
  }

  lemma StillAccepted(n: nat, actions: seq<Action>, k: nat, to: Bytes, at: nat, item: Item)
    requires k < |actions| && AcceptedAt(Act(Play(n, actions[..k]), actions[k]).sys, to, at, item)
    ensures AcceptedAt(Play(n, actions).sys, to, at, item)
  {
    var next := actions[..k + 1];
    assert next[..|next| - 1] == actions[..k];
    PlayGrows(n, actions, k + 1, to);
    AcceptedStays(Play(n, next).sys, Play(n, actions).sys, to, at, item);
  }

  lemma StillOneRow(n: nat, actions: seq<Action>, k: nat, to: Bytes, c: Bytes, name: Bytes)
    requires k <= |actions| && HasRow(Play(n, actions[..k]).sys.db.clients, to, name)
    requires HasRow(Play(n, actions).sys.db.clients, c, name)
    ensures to == c
  {
    PlayGrows(n, actions, k, c);
    JointInvariant(n, actions);
    RowStays(Play(n, actions[..k]).sys.db.clients, Play(n, actions).sys.db.clients, to, name);
    OneRowPerName(Play(n, actions).sys.db.clients, to, c, name);
  }

  /** End to end, over every play with any failures: a message with content whose send was acknowledged,
      however much of the acknowledgement's packet arrived, is stored for the client that is
      registered under the recipient's name at the end, or that client's program has shown it, provided
      that nothing strayed under this client's identifier. */
  lemma AcknowledgedReaches(n: nat, actions: seq<Action>, k: nat, a: Action, r: SendRequest, seen: nat, j: nat)
    requires k < |actions| && actions[k] == a && a.SendTo? && Connects(Play(n, actions[..k]), a).Some?
    requires SendRequestOfAction(Play(n, actions[..k]).clients[a.i], a) == Some(r)
    requires NonEmptyPieces(a.pieces) && ValidMessageType(a.typ) && Flatten(a.pieces) <= LaterOf(r)
    requires var w := Play(n, actions[..k]);
             ReceiveMessageSent(Cut(Serve(w.sys.db, Connects(w, a).value).sent, seen)).Some?
    requires j < |Play(n, actions).clients| && Play(n, actions).clients[j].registered
    requires Play(n, actions).clients[j].name == a.name && a.content != []
    requires !Strayed(n, actions, j, Play(n, actions).clients[j].id)
    ensures var item := Item(Play(n, actions[..k]).clients[a.i].id, a.typ, a.content);
            item in Pending(Play(n, actions).sys.db, Play(n, actions).clients[j].id)
            || item in ProgramShown(n, actions, j)
  {
    var c, item := Play(n, actions).clients[j].id, Item(Play(n, actions[..k]).clients[a.i].id, a.typ, a.content);
    JointInvariant(n, actions);
    assert Settled(Play(n, actions).sys.db.clients, Play(n, actions).clients[j]);
    JointInvariant(n, actions[..k]);
    var to, at := SendIsAccepted(Play(n, actions[..k]), a, r, seen);
    StillOneRow(n, actions, k, to, c, a.name);
    StillAccepted(n, actions, k, to, at, item);
    AcceptedIsStoredOrShown(n, actions, j, at, item);
  }
}
