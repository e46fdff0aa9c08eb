/** Runs and plays on which the guarantees with conditions fail. Each starts from empty tables, and for
    contents of at most `LARGEST_CONTENT` bytes, which SQLite stores by default, it takes only steps
    that the server and programs connecting to it can take; a `recv` returns at most one packet. */
module Witnesses {
  import opened ByteStrings
  import opened Database
  import opened MessageTable
  import opened Protocol
  import opened ServerSpec
  import opened ClientSpec
  import opened Integrity
  import opened PostOffice
  import opened Refinement
  import opened Runs
  import opened Delivery
  import opened Reassembly
  import opened Reissue
  import opened Encodings
  import opened Profiles
  import opened ClientStates
  import opened Joint
  import opened Answers
  import opened EndToEnd
  import opened Blockage

  // ----- building runs

  datatype Identity = Identity(id: Bytes, name: Bytes, junk: Bytes, key: Bytes)

  predicate ProperIdentity(u: Identity) {
    && |u.id| == CLIENT_ID_SIZE && 0 !in u.name && |u.name| + 1 + |u.junk| == NAME_SIZE
    && |u.key| == PUBLIC_KEY_SIZE
  }

  /** Nothing fails but the deletions in `lost`. */
  function Smooth(id: Bytes, lost: set<nat>): Env { Env(id, true, {}, lost) }

  function RegistrationEvent(u: Identity): Event
    requires ProperIdentity(u)
  {
    Event([FirstPacket(RegistrationBytes(u.name, u.junk, u.key))], Smooth(u.id, {}))
  }

  /** A client's message to itself. The client's menu refuses it, the server does not. */
  function NoteTo(id: Bytes, content: Bytes): SendRequest
    requires |id| == CLIENT_ID_SIZE
  {
    SendRequest(RequestHeader(id, CLIENT_VERSION, SEND_MESSAGE, 0), id, TEXT_MESSAGE, content)
  }

  /** What a `recv` returns at a time, when nothing is slower than the server. */
  function Packetized(stream: Bytes): (pieces: seq<Bytes>)
    ensures NonEmptyPieces(pieces) && forall i :: 0 <= i < |pieces| ==> |pieces[i]| <= PACKET_SIZE
  {
    if stream == [] then []
    else
      var first := Min(PACKET_SIZE, |stream|);
      [stream[..first]] + Packetized(stream[first..])
  }

  lemma {:induction false} PacketsAreAll(stream: Bytes)
    ensures Flatten(Packetized(stream)) == stream
  {
    if stream != [] {
      var first := Min(PACKET_SIZE, |stream|);
      PacketsAreAll(stream[first..]);
      var pieces := Packetized(stream);
      assert pieces[0] == stream[..first] && pieces[1..] == Packetized(stream[first..]);
      assert stream[..first] + stream[first..] == stream;
    }
  }

  predicate Sendable(content: Bytes) { SEND_HEAD_SIZE + |content| < U32 }

  function NoteEvent(id: Bytes, content: Bytes): Event
    requires |id| == CLIENT_ID_SIZE && Sendable(content)
  {
    SendEvent(NoteTo(id, content), Packetized(LaterOf(NoteTo(id, content))), Smooth(id, {}))
  }

  function FetchEvent(id: Bytes, lost: set<nat>): Event
    requires |id| == CLIENT_ID_SIZE
  {
    Event([FirstPacket(BareRequest(NEWCOMER.(id := id), GET_UNREAD_MESSAGES))], Smooth(id, lost))
  }

  lemma Extended(evs: seq<Event>, ev: Event)
    ensures var all := evs + [ev];
            && all[..|all| - 1] == evs && Before(all) == Run(evs) && LastEnv(all) == ev.env
            && LastEffect(all) == Serve(Run(evs).db, ev).effect
  {
    var all := evs + [ev];
    assert all[..|all| - 1] == evs;
  }

  /** What the theorems speak of, for one client: its box, what is stored and what was shown. */
  predicate At(evs: seq<Event>, c: Bytes, box: Box, pending: seq<Item>, shown: seq<Item>) {
    && c in Run(evs).office.boxes && Run(evs).office.boxes[c] == box
    && Pending(Run(evs).db, c) == pending && Shown(evs, c) == shown
  }

  lemma RegistrationJoins(u: Identity)
    requires ProperIdentity(u)
    ensures Serve(INITIAL.db, RegistrationEvent(u)).effect == Joined(ClientRow(u.id, u.name, u.key))
  {
    var env, sent := Smooth(u.id, {}), Serve(INITIAL.db, RegistrationEvent(u)).sent;
    RegistrationAnswered(INITIAL.db, u.name, u.junk, u.key, env);
    RegistrationReply(INITIAL.db, u.name, u.junk, u.key, env, |sent|);
    assert Cut(sent, |sent|) == sent;
  }

  /** One more connection, by its effect. */
  lemma AfterConnection(evs: seq<Event>, ev: Event, c: Bytes, effect: Effect,
                        box: Box, pending: seq<Item>, shown: seq<Item>)
    requires At(evs, c, box, pending, shown) && Serve(Run(evs).db, ev).effect == effect
    ensures At(evs + [ev], c, BoxAfter(box, c, effect, ev.env.lost), PendingAfter(pending, c, effect, ev.env.lost),
               shown + (if HandsOverTo(effect, c) then WithContent(pending) else []))
  {
    Extended(evs, ev);
    LastStep(evs + [ev], c);
    LastShown(evs + [ev], c);
  }

  predicate NothingLost(evs: seq<Event>) {
    forall k :: 0 <= k < |evs| ==> evs[k].env.lost == {}
  }

  lemma {:induction false} NoLossRepeatsNothing(evs: seq<Event>, c: Bytes)
    requires NothingLost(evs)
    ensures RepeatsNothing(evs, c)
  {
    if evs != [] {
      NoLossRepeatsNothing(evs[..|evs| - 1], c);
    }
  }

  lemma AfterRegistering(u: Identity)
    requires ProperIdentity(u)
    ensures At([RegistrationEvent(u)], u.id, EmptyBox(), [], [])
  {
    var evs := [RegistrationEvent(u)];
    assert [] + evs == evs;
    Extended([], RegistrationEvent(u));
    RegistrationJoins(u);
    LastStep(evs, u.id);
    LastShown(evs, u.id);
    NothingPendingAtFirst(u.id);
    assert evs[..0] == [];
  }

  lemma NoteArrives(r: SendRequest)
    requires FitsSendRequest(r)
    ensures |r.content| <= FIRST_ROOM + |LaterOf(r)|
  {
  }

  lemma NoteStored(db: Db, id: Bytes, content: Bytes)
    requires |id| == CLIENT_ID_SIZE && Sendable(content) && HasId(db.clients, id)
    ensures Serve(db, NoteEvent(id, content)).effect ==
              Stored(NextId(db.messages), MessageRow(id, id, TEXT_MESSAGE, content))
  {
    var r := NoteTo(id, content);
    NoteArrives(r);
    PacketsAreAll(LaterOf(r));
    SendAccepted(db, r, Packetized(LaterOf(r)), Smooth(id, {}));
  }

  lemma AfterNote(evs: seq<Event>, c: Bytes, content: Bytes, item: Item, box: Box, pending: seq<Item>, shown: seq<Item>)
    requires At(evs, c, box, pending, shown)
    requires |c| == CLIENT_ID_SIZE && Sendable(content) && item == Item(c, TEXT_MESSAGE, content)
    ensures At(evs + [NoteEvent(c, content)], c, Post(box, item), pending + [item], shown)
  {
    Reachable(evs);
    NoteStored(Run(evs).db, c, content);
    var ev := NoteEvent(c, content);
    AfterConnection(evs, ev, c, Serve(Run(evs).db, ev).effect, box, pending, shown);
    assert shown + [] == shown;
  }

  lemma FetchHandsOver(db: Db, c: Bytes, lost: set<nat>)
    requires Intact(db) && HasId(db.clients, c) && |c| == CLIENT_ID_SIZE && !Blocked(db, c)
    ensures Serve(db, FetchEvent(c, lost)).effect == HandedOver(c, Unread(db.messages, c))
  {
    HeaderArrives(NEWCOMER.(id := c), GET_UNREAD_MESSAGES);
    FetchOutcome(db, FetchEvent(c, lost), c);
    PackedIff(db, c);
  }

  lemma AfterFetch(evs: seq<Event>, c: Bytes, lost: set<nat>, box: Box, pending: seq<Item>, shown: seq<Item>)
    requires At(evs, c, box, pending, shown) && |c| == CLIENT_ID_SIZE && !Blocked(Run(evs).db, c)
    ensures At(evs + [FetchEvent(c, lost)], c, HandOver(box, lost), Kept(pending, lost, 0),
               shown + WithContent(pending))
  {
    Reachable(evs);
    FetchHandsOver(Run(evs).db, c, lost);
    AfterConnection(evs, FetchEvent(c, lost), c, HandedOver(c, Unread(Run(evs).db.messages, c)), box, pending, shown);
  }

  /** In fewer than 2^32 connections no id outgrows its four bytes. */
  lemma {:induction false} IdsBelowLength(evs: seq<Event>)
    ensures HighWater(evs) <= |evs|
  {
    if evs != [] {
      IdsBelowLength(evs[..|evs| - 1]);
      IssuedIsInterval(evs);
      IssuedIsInterval(evs[..|evs| - 1]);
      LastStep(evs, []);
    }
  }

  lemma SmallIsNotBlocked(evs: seq<Event>, c: Bytes)
    requires |evs| < U32 && ReplySize(Pending(Run(evs).db, c)) < U32
    ensures !Blocked(Run(evs).db, c)
  {
    IssuedIsInterval(evs);
    IdsBelowLength(evs);
    UnreadAreStored(Run(evs).db.messages, c);
  }

  // ----- any number of messages

  predicate AllSendable(xs: seq<Bytes>) {
    forall i :: 0 <= i < |xs| ==> Sendable(xs[i])
  }

  /** A program registers, and then messages with the given contents are sent to it. */
  function NotesRun(u: Identity, xs: seq<Bytes>): (evs: seq<Event>)
    requires ProperIdentity(u) && AllSendable(xs)
    ensures |evs| == |xs| + 1
  {
    if xs == [] then [RegistrationEvent(u)]
    else NotesRun(u, xs[..|xs| - 1]) + [NoteEvent(u.id, xs[|xs| - 1])]
  }

  function Notes(id: Bytes, xs: seq<Bytes>): (items: seq<Item>)
    ensures |items| == |xs|
  {
    if xs == [] then [] else Notes(id, xs[..|xs| - 1]) + [Item(id, TEXT_MESSAGE, xs[|xs| - 1])]
  }

  function NotesBox(items: seq<Item>): Box { Box(items, UpTo(|items|), []) }

  lemma NotesBoxPosted(items: seq<Item>, item: Item)
    ensures Post(NotesBox(items), item) == NotesBox(items + [item])
  {
    assert UpTo(|items| + 1) == UpTo(|items|) + [|items|];
  }

  /** All of them are accepted and stored. */
  lemma {:induction false} NotesAt(u: Identity, xs: seq<Bytes>)
    requires ProperIdentity(u) && AllSendable(xs)
    ensures At(NotesRun(u, xs), u.id, NotesBox(Notes(u.id, xs)), Notes(u.id, xs), [])
    decreases |xs|
  {
    if xs == [] {
      AfterRegistering(u);
      assert NotesBox([]) == EmptyBox();
    } else {
      var before, x := xs[..|xs| - 1], xs[|xs| - 1];
      var items, item := Notes(u.id, before), Item(u.id, TEXT_MESSAGE, x);
      NotesAt(u, before);
      NotesBoxPosted(items, item);
      AfterNote(NotesRun(u, before), u.id, x, item, NotesBox(items), items, []);
    }
  }

  /** What the server can have received: at most a packet at a time. */
  predicate Receivable(evs: seq<Event>) {
    forall k, i :: 0 <= k < |evs| && 0 <= i < |evs[k].recvs| ==> |evs[k].recvs[i]| <= PACKET_SIZE
  }

  lemma {:induction false} NotesAreReceivable(u: Identity, xs: seq<Bytes>)
    requires ProperIdentity(u) && AllSendable(xs)
    ensures Receivable(NotesRun(u, xs))
    decreases |xs|
  {
    if xs != [] {
      NotesAreReceivable(u, xs[..|xs| - 1]);
    }
  }

  // ----- one lost deletion

  lemma TwoNotes(u: Identity, x: Bytes, y: Bytes)
    requires ProperIdentity(u) && Sendable(x) && Sendable(y)
    ensures var a, b := Item(u.id, TEXT_MESSAGE, x), Item(u.id, TEXT_MESSAGE, y);
            At(NotesRun(u, [x, y]), u.id, Box([a, b], [0, 1], []), [a, b], [])
  {
    var a, b := Item(u.id, TEXT_MESSAGE, x), Item(u.id, TEXT_MESSAGE, y);
    NotesAt(u, [x, y]);
    NotesOfTwo(u.id, x, y);
    assert UpTo(2) == [0, 1];
  }

  lemma NotesOfTwo(id: Bytes, x: Bytes, y: Bytes)
    ensures Notes(id, [x, y]) == [Item(id, TEXT_MESSAGE, x), Item(id, TEXT_MESSAGE, y)]
  {
    assert [x, y][..1] == [x] && [x][..0] == [];
    assert Notes(id, [x]) == Notes(id, []) + [Item(id, TEXT_MESSAGE, x)];
  }

  lemma SizeOfTwo(a: Item, b: Item)
    ensures ReplySize([a, b]) == 2 * RECORD_HEADER_SIZE + |a.content| + |b.content|
    ensures ReplySize([a]) == RECORD_HEADER_SIZE + |a.content|
  {
    ReplySizeAppend([], a);
    ReplySizeAppend([a], b);
    assert [] + [a] == [a] && [a] + [b] == [a, b];
  }

  lemma KeptFirst<T>(a: T, b: T)
    ensures Kept([a, b], {0}, 0) == [a]
  {
    assert Kept([b], {0}, 1) == [] + Kept<T>([], {0}, 2);
    assert [a, b][1..] == [b];
  }

  lemma TwoWithContent(a: Item, b: Item)
    requires a.content != [] && b.content != []
    ensures WithContent([a]) == [a] && WithContent([a, b]) == [a, b]
  {
    WithContentAppend([a], [b]);
    assert [a] + [b] == [a, b];
  }

  lemma FirstFetchLeaves(a: Item, b: Item)
    requires a.content != [] && b.content != []
    ensures HandOver(Box([a, b], [0, 1], []), {0}) == Box([a, b], [0], [[0, 1]])
    ensures Kept([a, b], {0}, 0) == [a] && [] + WithContent([a, b]) == [a, b]
  {
    KeptFirst(a, b);
    KeptFirst(0, 1);
    TwoWithContent(a, b);
  }

  lemma FirstFetch(evs: seq<Event>, c: Bytes, a: Item, b: Item)
    requires At(evs, c, Box([a, b], [0, 1], []), [a, b], []) && |c| == CLIENT_ID_SIZE && !Blocked(Run(evs).db, c)
    requires a.content != [] && b.content != []
    ensures At(evs + [FetchEvent(c, {0})], c, Box([a, b], [0], [[0, 1]]), [a], [a, b])
  {
    FirstFetchLeaves(a, b);
    AfterFetch(evs, c, {0}, Box([a, b], [0, 1], []), [a, b], []);
  }

  lemma LeftByFirstFetch(a: Item, b: Item)
    ensures var box := Box([a, b], [0], [[0, 1]]); !IsSuffix(box.queue, 2) && !ExactlyOnce(box)
  {
    var box := Box([a, b], [0], [[0, 1]]);
    assert Flatten(box.replies) == [0, 1] + Flatten<nat>([]);
    assert |Flatten(box.replies) + box.queue| == 3 && |UpTo(2)| == 2;
    assert box.queue[0] == 0;
  }

  lemma SecondFetch(evs: seq<Event>, c: Bytes, box: Box, a: Item, b: Item)
    requires At(evs, c, box, [a], [a, b]) && |c| == CLIENT_ID_SIZE && !Blocked(Run(evs).db, c)
    requires a.content != [] && b.content != []
    ensures Shown(evs + [FetchEvent(c, {})], c) == [a, b, a]
  {
    TwoWithContent(a, b);
    AfterFetch(evs, c, {}, box, [a], [a, b]);
  }

  /** A program registers and gets two messages; its first fetch loses the first of the two deletions,
      as when one commit fails; its second fetch shows the first message again. After the first
      fetch what is stored is no suffix of what was accepted, and delivery is no longer
      exactly-once. */
  lemma OneLostDeletionRepeats(u: Identity, x: Bytes, y: Bytes)
    requires ProperIdentity(u) && Sendable(x) && Sendable(y)
    requires x != [] && y != [] && 2 * RECORD_HEADER_SIZE + |x| + |y| < U32
    ensures var evs := NotesRun(u, [x, y]) + [FetchEvent(u.id, {0})];
            var a, b := Item(u.id, TEXT_MESSAGE, x), Item(u.id, TEXT_MESSAGE, y);
            var boxes := Run(evs).office.boxes;
            && u.id in boxes && boxes[u.id].accepted == [a, b]
            && !QueueIsSuffix(boxes, u.id) && !BoxExactlyOnce(boxes, u.id)
            && Shown(evs + [FetchEvent(u.id, {})], u.id) == [a, b, a]
  {
    var a, b := Item(u.id, TEXT_MESSAGE, x), Item(u.id, TEXT_MESSAGE, y);
    var evs := NotesRun(u, [x, y]);
    TwoNotes(u, x, y);
    SizeOfTwo(a, b);
    SmallIsNotBlocked(evs, u.id);
    FirstFetch(evs, u.id, a, b);
    LeftByFirstFetch(a, b);
    SmallIsNotBlocked(evs + [FetchEvent(u.id, {0})], u.id);
    SecondFetch(evs + [FetchEvent(u.id, {0})], u.id, Box([a, b], [0], [[0, 1]]), a, b);
  }

  // ----- a blocked mailbox

  /** SQLite takes rows of up to 10^9 bytes by default; this leaves room for the other columns. */
  const LARGEST_CONTENT: nat := 999_000_000

  predicate AllStorable(xs: seq<Bytes>) {
    forall i :: 0 <= i < |xs| ==> |xs[i]| <= LARGEST_CONTENT
  }

  /** A program registers and gets messages, each small enough to be stored, that together outgrow the
      size field of a reply. Its mailbox is blocked, so that no connection `ev` after any continuation
      hands it over or shows any of it. */
  lemma LargeNotesBlock(u: Identity, xs: seq<Bytes>, more: seq<Event>, ev: Event)
    requires ProperIdentity(u) && AllStorable(xs) && ReplySize(Notes(u.id, xs)) >= U32
    ensures var evs := NotesRun(u, xs);
            && Receivable(evs)
            && Pending(Run(evs).db, u.id) == Notes(u.id, xs)
            && Blocked(Run(evs).db, u.id)
            && HoldsBack(Run(evs + more).db, ev, u.id)
  {
    var evs := NotesRun(u, xs);
    NotesAt(u, xs);
    NotesAreReceivable(u, xs);
    assert (evs + more)[..|evs|] == evs;
    BlockedForever(evs + more, |evs|, ev, u.id);
  }

  lemma {:induction false} SizeOfLargest(id: Bytes, xs: seq<Bytes>)
    requires forall i :: 0 <= i < |xs| ==> |xs[i]| == LARGEST_CONTENT
    ensures ReplySize(Notes(id, xs)) >= |xs| * 999_000_000
    decreases |xs|
  {
    if xs != [] {
      SizeOfLargest(id, xs[..|xs| - 1]);
      ReplySizeAppend(Notes(id, xs[..|xs| - 1]), Item(id, TEXT_MESSAGE, xs[|xs| - 1]));
    }
  }

  /** Five messages of the largest size are enough. */
  lemma BlockedIsReachable(u: Identity)
    requires ProperIdentity(u)
    ensures exists xs :: |xs| == 5 && AllStorable(xs) && AllSendable(xs) && Receivable(NotesRun(u, xs))
                         && Blocked(Run(NotesRun(u, xs)).db, u.id)
  {
    var xs := seq(5, _ => Zeros(LARGEST_CONTENT));
    SizeOfLargest(u.id, xs);
    LargeNotesBlock(u, xs, [], RegistrationEvent(u));
  }

  // ----- plays with one client

  /** A registration that succeeds and is saved as far as `saving`. */
  function RegisterAction(u: Identity, privateKey: Bytes, saving: Saving): Action
    requires ProperIdentity(u)
  {
    Action.Register(0, u.name, u.junk, u.key, privateKey, Smooth(u.id, {}),
                    |Serve(INITIAL.db, RegistrationEvent(u)).sent|, saving)
  }

  predicate Presentable(u: Identity, privateKey: Bytes) {
    ProperIdentity(u) && ValidUsername(u.name) && NEWLINE !in u.name && privateKey != []
  }

  lemma Played(n: nat, actions: seq<Action>, a: Action)
    ensures var w, all := Play(n, actions), actions + [a];
            && Play(n, all) == Act(w, a)
            && Connections(n, all) ==
                 Connections(n, actions) + (if Connects(w, a).Some? then [Connects(w, a).value] else [])
            && ProgramShown(n, all, 0) == ProgramShown(n, actions, 0) + ShownTo(w, a, 0)
  {
    var all := actions + [a];
    assert all[..|all| - 1] == actions;
    assert Connections(n, actions) + [] == Connections(n, actions);
  }

  /** Client 0 is registered under `u`, has shown nothing, and the server has followed `evs`. */
  predicate Waiting(actions: seq<Action>, u: Identity, evs: seq<Event>) {
    var w := Play(1, actions);
    && |w.clients| == 1 && w.clients[0].registered && w.clients[0].id == u.id
    && Connections(1, actions) == evs && ProgramShown(1, actions, 0) == []
  }

  lemma RegisterConnects(u: Identity, privateKey: Bytes, saving: Saving)
    requires Presentable(u, privateKey)
    ensures var w, a := World(INITIAL, Newcomers(1)), RegisterAction(u, privateKey, saving);
            Connects(w, a) == Some(RegistrationEvent(u))
  {
  }

  lemma RegistrationReceived(u: Identity)
    requires ProperIdentity(u)
    ensures var sent := Serve(INITIAL.db, RegistrationEvent(u)).sent;
            ReceiveRegistration(Cut(sent, |sent|)) == Some(u.id)
  {
    var sent := Serve(INITIAL.db, RegistrationEvent(u)).sent;
    RegistrationAnswered(INITIAL.db, u.name, u.junk, u.key, Smooth(u.id, {}));
    assert Cut(sent, |sent|) == sent;
  }

  /** The program is registered as soon as its file could be opened three times. */
  lemma AfterRegisterAction(u: Identity, privateKey: Bytes, saving: Saving)
    requires Presentable(u, privateKey) && saving.opens >= 3
    ensures var actions, p := [RegisterAction(u, privateKey, saving)], Profile(u.name, u.id, privateKey);
            && Waiting(actions, u, [RegistrationEvent(u)])
            && Play(1, actions).clients[0] ==
                 ClientState(true, false, Covers(p, saving), u.name, u.id, u.key, privateKey, [],
                             FileAfter(None, p, saving))
  {
    var a := RegisterAction(u, privateKey, saving);
    RegisterConnects(u, privateKey, saving);
    RegistrationReceived(u);
    Played(1, [], a);
    assert [] + [a] == [a];
  }

  // ----- a restarted client

  lemma RestartActs(w: World)
    requires |w.clients| > 0
    ensures Act(w, Restart(0, true)) == w.(clients := w.clients[0 := AfterRestart(w.clients[0], true)])
  {
  }

  lemma RegisteredHasFullRow(n: nat, actions: seq<Action>)
    requires |Play(n, actions).clients| > 0
    ensures var w := Play(n, actions);
            var c := w.clients[0];
            c.registered && !c.reloaded ==> ClientRow(c.id, c.name, c.publicKey) in w.sys.db.clients
  {
    JointInvariant(n, actions);
    assert Settled(Play(n, actions).sys.db.clients, Play(n, actions).clients[0]);
  }

  /** Any client that holds a key other than zeros, has its profile on the disk and is restarted no
      longer holds its row's key. */
  lemma RestartLosesKey(n: nat, actions: seq<Action>, c: ClientState)
    requires |Play(n, actions).clients| > 0 && Play(n, actions).clients[0] == c
    requires c.registered && !c.reloaded && c.intact && c.publicKey != Zeros(PUBLIC_KEY_SIZE)
    ensures var rows, c' := Play(n, actions).sys.db.clients, AfterRestart(c, true);
            && c'.registered && c'.id == c.id && c'.name == c.name
            && ClientRow(c.id, c.name, c.publicKey) in rows && ClientRow(c.id, c.name, c'.publicKey) !in rows
  {
    RegisteredHasFullRow(n, actions);
    RestartRestores(n, actions, 0, true);
    RestartKeepsFullRowIff(n, actions, 0, true, c.publicKey);
  }

  /** A program registers with any key but zeros, saves its profile without any failure and is restarted:
      it still is registered, the server still has its row, and its public key is not the row's. */
  lemma RestartForgetsKey(u: Identity, privateKey: Bytes)
    requires Presentable(u, privateKey) && u.key != Zeros(PUBLIC_KEY_SIZE)
    ensures var w := Play(1, [RegisterAction(u, privateKey, UNDISTURBED)] + [Restart(0, true)]);
            && |w.clients| == 1 && w.clients[0].registered && w.clients[0].id == u.id
            && ClientRow(u.id, u.name, u.key) in w.sys.db.clients
            && ClientRow(u.id, u.name, w.clients[0].publicKey) !in w.sys.db.clients
  {
    var actions := [RegisterAction(u, privateKey, UNDISTURBED)];
    AfterRegisterAction(u, privateKey, UNDISTURBED);
    RestartLosesKey(1, actions, Play(1, actions).clients[0]);
    Played(1, actions, Restart(0, true));
    RestartActs(Play(1, actions));
  }

  // ----- a profile that did not reach the disk

  /** The program does not run any more, and its profile file keeps it from starting. */
  predicate Ended(c: ClientState) { !c.registered && c.file.Some? && OnDisk(c).None? }

  lemma EndedStays(w: World, a: Action, i: nat)
    requires HasEnded(w.clients, i)
    ensures HasEnded(Act(w, a).clients, i)
  {
    ActReplaces(w, a);
  }

  lemma LastOfMore<T>(a: seq<T>, more: seq<T>)
    requires more != []
    ensures a + more == (a + more[..|more| - 1]) + [more[|more| - 1]]
  {
  }

  predicate HasEnded(cs: seq<ClientState>, i: nat) { i < |cs| && Ended(cs[i]) }

  /** Nothing that it or anyone else does brings the program back. */
  lemma {:induction false} EndedForever(n: nat, actions: seq<Action>, more: seq<Action>, i: nat)
    requires HasEnded(Play(n, actions).clients, i)
    ensures HasEnded(Play(n, actions + more).clients, i)
    decreases |more|
  {
    if more == [] {
      assert actions + more == actions;
    } else {
      EndedForever(n, actions, more[..|more| - 1], i);
      EndedStays(Play(n, actions + more[..|more| - 1]), more[|more| - 1], i);
      LastOfMore(actions, more);
      Played(n, actions + more[..|more| - 1], more[|more| - 1]);
    }
  }

  lemma LostIdEnds(p: Profile, saving: Saving)
    requires SavableProfile(p) && saving.opens >= 3 && IdReach(p, saving) <= 2 * |p.id|
    ensures FileAfter(None, p, saving).Some? && Load(FileAfter(None, p, saving).value).None?
  {
    assert [] + SavedBytes(p, saving) == SavedBytes(p, saving);
    PartsLoad(p, NameReach(p, saving), IdReach(p, saving), KeyReach(p, saving));
  }

  lemma RestartEnds(c: ClientState)
    requires c.file.Some? && OnDisk(c).None?
    ensures Ended(AfterRestart(c, true))
  {
  }

  /** A program registers while the disk takes at most the identifier without its newline, which the
      stream does not report: it is registered, but after a restart it never runs again, whatever
      happens, although the server keeps its row. */
  lemma UnnoticedLossEndsProgram(u: Identity, privateKey: Bytes, saving: Saving, more: seq<Action>)
    requires Presentable(u, privateKey) && saving.opens >= 3
    requires IdReach(Profile(u.name, u.id, privateKey), saving) <= 2 * CLIENT_ID_SIZE
    ensures var actions := [RegisterAction(u, privateKey, saving)];
            var w, w' := Play(1, actions), Play(1, actions + [Restart(0, true)] + more);
            && |w.clients| == 1 && w.clients[0].registered
            && HasEnded(w'.clients, 0) && HasRow(w'.sys.db.clients, u.id, u.name)
  {
    var actions := [RegisterAction(u, privateKey, saving)];
    var next := actions + [Restart(0, true)];
    AfterRegisterAction(u, privateKey, saving);
    LostIdEnds(Profile(u.name, u.id, privateKey), saving);
    RestartEnds(Play(1, actions).clients[0]);
    Played(1, actions, Restart(0, true));
    RestartActs(Play(1, actions));
    EndedForever(1, next, more, 0);
    RegisteredHasRow(actions, next + more);
  }

  lemma RegisteredHasRow(actions: seq<Action>, all: seq<Action>)
    requires |Play(1, actions).clients| == 1 && Play(1, actions).clients[0].registered && actions <= all
    ensures var c := Play(1, actions).clients[0]; HasRow(Play(1, all).sys.db.clients, c.id, c.name)
  {
    var c := Play(1, actions).clients[0];
    JointInvariant(1, actions);
    assert Settled(Play(1, actions).sys.db.clients, c);
    assert all[..|actions|] == actions;
    PlayGrows(1, all, |actions|, c.id);
    RowStays(Play(1, actions).sys.db.clients, Play(1, all).sys.db.clients, c.id, c.name);
  }

  // ----- a mailbox that strays

  lemma ForeignKeepsWaiting(actions: seq<Action>, u: Identity, evs: seq<Event>, ev: Event)
    requires Waiting(actions, u, evs)
    ensures Waiting(actions + [Foreign(ev)], u, evs + [ev])
  {
    Played(1, actions, Foreign(ev));
  }

  lemma LostFetch(w: World, u: Identity)
    requires |w.clients| > 0 && w.clients[0].registered && w.clients[0].id == u.id && |u.id| == CLIENT_ID_SIZE
    ensures var a := FetchUnread(0, Smooth(u.id, {}), 0);
            Connects(w, a) == Some(FetchEvent(u.id, {})) && Reacts(w.clients[0], a, []) == w.clients[0]
  {
  }

  lemma NothingShown(sent: Bytes)
    ensures Shows(Cut(sent, 0)) == []
  {
  }

  lemma LostFetchKeepsWaiting(actions: seq<Action>, u: Identity, evs: seq<Event>)
    requires Waiting(actions, u, evs) && |u.id| == CLIENT_ID_SIZE
    ensures Waiting(actions + [FetchUnread(0, Smooth(u.id, {}), 0)], u, evs + [FetchEvent(u.id, {})])
  {
    var w, a := Play(1, actions), FetchUnread(0, Smooth(u.id, {}), 0);
    LostFetch(w, u);
    Played(1, actions, a);
    NothingShown(Serve(w.sys.db, FetchEvent(u.id, {})).sent);
  }

  /** Either kind of stray: a foreign program fetches under the client's identifier, or the client's
      own fetch is answered and nothing of the answer arrives. */
  function Stray(id: Bytes, foreign: bool): Action
    requires |id| == CLIENT_ID_SIZE
  {
    if foreign then Foreign(FetchEvent(id, {})) else FetchUnread(0, Smooth(id, {}), 0)
  }

  lemma OneNote(one: seq<Event>, c: Bytes, x: Bytes, a: Item)
    requires At(one, c, EmptyBox(), [], []) && |c| == CLIENT_ID_SIZE && Sendable(x) && a == Item(c, TEXT_MESSAGE, x)
    ensures At(one + [NoteEvent(c, x)], c, Box([a], [0], []), [a], [])
  {
    assert Post(EmptyBox(), a) == Box([a], [0], []);
    AfterNote(one, c, x, a, EmptyBox(), [], []);
  }

  lemma Emptied(two: seq<Event>, c: Bytes, a: Item)
    requires At(two, c, Box([a], [0], []), [a], []) && |c| == CLIENT_ID_SIZE
    requires |two| < U32 && RECORD_HEADER_SIZE + |a.content| < U32
    ensures At(two + [FetchEvent(c, {})], c, HandOver(Box([a], [0], []), {}), [], [] + WithContent([a]))
  {
    SizeOfTwo(a, a);
    SmallIsNotBlocked(two, c);
    KeptOfNone([a], {}, 0);
    AfterFetch(two, c, {}, Box([a], [0], []), [a], []);
  }

  function StrayedActions(u: Identity, privateKey: Bytes, x: Bytes, foreign: bool): seq<Action>
    requires ProperIdentity(u) && Sendable(x)
  {
    [RegisterAction(u, privateKey, UNDISTURBED)] + [Foreign(NoteEvent(u.id, x))] + [Stray(u.id, foreign)]
  }

  function StrayedEvents(u: Identity, x: Bytes): (evs: seq<Event>)
    requires ProperIdentity(u) && Sendable(x)
    ensures NothingLost(evs)
  {
    [RegistrationEvent(u)] + [NoteEvent(u.id, x)] + [FetchEvent(u.id, {})]
  }

  lemma StrayedPlay(u: Identity, privateKey: Bytes, x: Bytes, foreign: bool)
    requires Presentable(u, privateKey) && Sendable(x)
    ensures Waiting(StrayedActions(u, privateKey, x, foreign), u, StrayedEvents(u, x))
  {
    var one := [RegisterAction(u, privateKey, UNDISTURBED)];
    var two := one + [Foreign(NoteEvent(u.id, x))];
    var evs := [RegistrationEvent(u)];
    AfterRegisterAction(u, privateKey, UNDISTURBED);
    ForeignKeepsWaiting(one, u, evs, NoteEvent(u.id, x));
    if foreign {
      ForeignKeepsWaiting(two, u, evs + [NoteEvent(u.id, x)], FetchEvent(u.id, {}));
    } else {
      LostFetchKeepsWaiting(two, u, evs + [NoteEvent(u.id, x)]);
    }
  }

  lemma StrayedRun(u: Identity, x: Bytes, a: Item)
    requires ProperIdentity(u) && RECORD_HEADER_SIZE + SEND_HEAD_SIZE + |x| < U32 && a == Item(u.id, TEXT_MESSAGE, x)
    ensures At(StrayedEvents(u, x), u.id, HandOver(Box([a], [0], []), {}), [], [] + WithContent([a]))
  {
    var evs := [RegistrationEvent(u)];
    AfterRegistering(u);
    OneNote(evs, u.id, x, a);
    Emptied(evs + [NoteEvent(u.id, x)], u.id, a);
  }

  lemma WaitingInVain(actions: seq<Action>, u: Identity, evs: seq<Event>, box: Box, shown: seq<Item>, a: Item)
    requires Waiting(actions, u, evs) && At(evs, u.id, box, [], shown) && NothingLost(evs)
    requires box.accepted == [a] && a.content != []
    ensures var w := Play(1, actions);
            && |w.clients| == 1 && w.clients[0].registered && w.clients[0].id == u.id
            && u.id in w.sys.office.boxes && w.sys.office.boxes[u.id].accepted == [a]
            && Pending(w.sys.db, u.id) == [] && ProgramShown(1, actions, 0) == []
            && RepeatsNothing(Connections(1, actions), u.id) && !DeliveredOnce(1, actions, 0)
  {
    PlayIsRun(1, actions);
    TwoWithContent(a, a);
    NoLossRepeatsNothing(evs, u.id);
  }

  /** A client registers, one message is accepted for it, and its mailbox strays. No send and no
      deletion fails, the server stores nothing for the client any more, and its program has shown
      nothing. */
  lemma StrayedIsNotDelivered(u: Identity, privateKey: Bytes, x: Bytes, foreign: bool)
    requires Presentable(u, privateKey) && x != [] && RECORD_HEADER_SIZE + SEND_HEAD_SIZE + |x| < U32
    ensures var actions := StrayedActions(u, privateKey, x, foreign);
            var w := Play(1, actions);
            && |w.clients| == 1 && w.clients[0].registered && w.clients[0].id == u.id
            && u.id in w.sys.office.boxes && w.sys.office.boxes[u.id].accepted == [Item(u.id, TEXT_MESSAGE, x)]
            && Pending(w.sys.db, u.id) == [] && ProgramShown(1, actions, 0) == []
            && RepeatsNothing(Connections(1, actions), u.id) && !DeliveredOnce(1, actions, 0)
  {
    var a := Item(u.id, TEXT_MESSAGE, x);
    StrayedPlay(u, privateKey, x, foreign);
    StrayedRun(u, x, a);
    WaitingInVain(StrayedActions(u, privateKey, x, foreign), u, StrayedEvents(u, x),
                  HandOver(Box([a], [0], []), {}), [] + WithContent([a]), a);
  }
}
