/** The two tables of the server and the operations on them (Server/db_handler.py).
    `Db` is the content of both tables; `DbHandler` is the object that changes it. */
module Database {
  import opened ByteStrings

  const CLIENT_ID_SIZE: nat := 16
  const NAME_SIZE: nat := 255
  const PUBLIC_KEY_SIZE: nat := 160

  datatype ClientRow = ClientRow(id: Bytes, name: Bytes, publicKey: Bytes)
  datatype MessageRow = MessageRow(to: Bytes, from: Bytes, typ: nat, content: Bytes)

  /** Clients are kept in insertion order; messages are addressed by their integer primary key. */
  datatype Db = Db(clients: seq<ClientRow>, messages: map<nat, MessageRow>)

  // ----- the Clients table

  predicate HasId(clients: seq<ClientRow>, id: Bytes) {
    exists i :: 0 <= i < |clients| && clients[i].id == id
  }

  predicate HasName(clients: seq<ClientRow>, name: Bytes) {
    exists i :: 0 <= i < |clients| && clients[i].name == name
  }

  /** `check_client_exists`: an empty id means that the name column is searched. */
  predicate ClientExists(db: Db, id: Bytes, name: Bytes) {
    if id != [] then HasId(db.clients, id) else HasName(db.clients, name)
  }

  /** First row found by `WHERE Name = ?`. */
  function FirstNamed(clients: seq<ClientRow>, name: Bytes): (r: Option<ClientRow>)
    ensures r.Some? <==> HasName(clients, name)
    ensures r.Some? ==> r.value in clients && r.value.name == name
  {
    if clients == [] then None
    else if clients[0].name == name then Some(clients[0])
    else
      var r := FirstNamed(clients[1..], name);
      assert HasName(clients, name) ==> HasName(clients[1..], name);
      r
  }

  predicate AcceptableClient(id: Bytes, name: Bytes, key: Bytes) {
    |id| == CLIENT_ID_SIZE && |name| < NAME_SIZE && |key| == PUBLIC_KEY_SIZE
  }

  /** `insert_client`: sizes are checked in Python, the primary key by SQLite. `storeOk` is false
      when the storage engine fails. The flag tells whether the row was stored. */
  function StoreClient(db: Db, row: ClientRow, storeOk: bool): (r: (Db, bool)) {
    if AcceptableClient(row.id, row.name, row.publicKey) && !HasId(db.clients, row.id) && storeOk
    then (db.(clients := db.clients + [row]), true)
    else (db, false)
  }

  // ----- the Messages table

  predicate IsMaximum(s: set<nat>, x: nat) { x in s && forall y :: y in s ==> y <= x }

  lemma {:induction false} HasMaximum(s: set<nat>)
    requires s != {}
    ensures exists x :: IsMaximum(s, x)
  {
    var a :| a in s;
    var rest := s - {a};
    assert forall y :: y in s <==> y == a || y in rest;
    if rest == {} {
      assert IsMaximum(s, a);
    } else {
      HasMaximum(rest);
      var x :| IsMaximum(rest, x);
      assert IsMaximum(s, if x < a then a else x);
    }
  }

  /** Greatest stored key, 0 for the empty table. */
  function MaxId(m: map<nat, MessageRow>): (x: nat)
    ensures forall y :: y in m ==> y <= x
    ensures m != map[] ==> x in m
  {
    if m == map[] then 0 else
      HasMaximum(m.Keys);
      var x: nat :| IsMaximum(m.Keys, x);
      x
  }

  /** The key SQLite gives the next row of an INTEGER PRIMARY KEY without AUTOINCREMENT. */
  function NextId(m: map<nat, MessageRow>): nat { MaxId(m) + 1 }

  /** Keys up to `top` of the rows addressed to `to`, in ascending order. */
  function Scan(m: map<nat, MessageRow>, to: Bytes, top: nat): (ids: seq<nat>)
    ensures forall i :: i in ids ==> 1 <= i <= top && i in m && m[i].to == to
  {
    if top == 0 then []
    else Scan(m, to, top - 1) + (if top in m && m[top].to == to then [top] else [])
  }

  /** Keys selected by `WHERE ToClient = ?`, in the order of the rows. */
  function Unread(m: map<nat, MessageRow>, to: Bytes): (ids: seq<nat>)
    ensures forall i :: i in ids ==> i in m && m[i].to == to
  {
    Scan(m, to, MaxId(m))
  }

  /** `delete_msg`: its result is ignored by the caller, so a commit that does not happen is
      silent. */
  function DeleteRow(m: map<nat, MessageRow>, id: nat, committed: bool): map<nat, MessageRow> {
    if committed then m - {id} else m
  }

  // ----- the handler object

  class DbHandler {
    var clients: seq<ClientRow>
    var messages: map<nat, MessageRow>

    constructor ()
      ensures View() == Db([], map[])
    {
      clients, messages := [], map[];
    }

    function View(): Db
      reads this
    {
      Db(clients, messages)
    }

    method InsertClient(id: Bytes, name: Bytes, key: Bytes, storeOk: bool) returns (ok: bool)
      modifies this
      ensures (View(), ok) == StoreClient(old(View()), ClientRow(id, name, key), storeOk)
    {
      if |id| != CLIENT_ID_SIZE || |name| >= NAME_SIZE || |key| != PUBLIC_KEY_SIZE {
        return false;
      }
      if HasId(clients, id) || !storeOk {
        return false;
      }
      clients := clients + [ClientRow(id, name, key)];
      return true;
    }

    /** Result 0 stands for the `False` of a failed insertion. */
    method InsertMessage(to: Bytes, from: Bytes, typ: nat, content: Bytes, storeOk: bool) returns (id: nat)
      modifies this`messages
      ensures storeOk ==> id == NextId(old(messages))
      ensures storeOk ==> messages == old(messages)[id := MessageRow(to, from, typ, content)]
      ensures !storeOk ==> id == 0 && messages == old(messages)
    {
      if !storeOk {
        return 0;
      }
      id := NextId(messages);
      messages := messages[id := MessageRow(to, from, typ, content)];
    }

    method CheckClientExists(id: Bytes, name: Bytes) returns (found: bool)
      ensures found == ClientExists(View(), id, name)
    {
      found := if id != [] then HasId(clients, id) else HasName(clients, name);
    }

    method SelectClient(name: Bytes) returns (row: Option<ClientRow>)
      ensures row == FirstNamed(clients, name)
    {
      var i := 0;
      while i < |clients|
        invariant 0 <= i <= |clients|
        invariant FirstNamed(clients[i..], name) == FirstNamed(clients, name)
      {
        if clients[i].name == name {
          return Some(clients[i]);
        }
        i := i + 1;
      }
      return None;
    }

    method SelectUnreadMessages(to: Bytes) returns (ids: seq<nat>)
      ensures ids == Unread(messages, to)
    {
      ids := [];
      var id := 0;
      while id < MaxId(messages)
        invariant 0 <= id <= MaxId(messages)
        invariant ids == Scan(messages, to, id)
      {
        id := id + 1;
        if id in messages && messages[id].to == to {
          ids := ids + [id];
        }
      }
    }

    method DeleteMsg(id: nat, committed: bool)
      modifies this`messages
      ensures messages == DeleteRow(old(messages), id, committed)
    {
      if committed {
        messages := messages - {id};
      }
    }
  }
}

/** Facts about the Messages table that make id order equal acceptance order. */
module MessageTable {
  import opened ByteStrings
  import opened Database

  predicate Ascending(ids: seq<nat>) {
    forall i, j :: 0 <= i < j < |ids| ==> ids[i] < ids[j]
  }

  predicate PositiveKeys(m: map<nat, MessageRow>) { 0 !in m }

  predicate AllStored(m: map<nat, MessageRow>, ids: seq<nat>) {
    forall i :: 0 <= i < |ids| ==> ids[i] in m
  }

  lemma UnreadAreStored(m: map<nat, MessageRow>, c: Bytes)
    ensures AllStored(m, Unread(m, c))
  {
  }

  /** A SELECT returns exactly the rows of the recipient, each once, ascending. */
  lemma {:induction false} ScanSpec(m: map<nat, MessageRow>, to: Bytes, top: nat)
    ensures Ascending(Scan(m, to, top))
    ensures forall id :: id in Scan(m, to, top) <==> 1 <= id <= top && id in m && m[id].to == to
  {
    if top > 0 {
      ScanSpec(m, to, top - 1);
      var before := Scan(m, to, top - 1);
      assert forall i :: 0 <= i < |before| ==> before[i] in before;
    }
  }

  lemma UnreadSpec(m: map<nat, MessageRow>, to: Bytes)
    requires PositiveKeys(m)
    ensures Ascending(Unread(m, to))
    ensures forall id :: id in Unread(m, to) <==> id in m && m[id].to == to
  {
    ScanSpec(m, to, MaxId(m));
  }

  /** Scanning past the greatest key adds nothing. */
  lemma {:induction false} ScanPastEnd(m: map<nat, MessageRow>, to: Bytes, top: nat)
    requires top >= MaxId(m)
    ensures Scan(m, to, top) == Unread(m, to)
    decreases top
  {
    if top > MaxId(m) {
      ScanPastEnd(m, to, top - 1);
    }
  }

  lemma {:induction false} ScanSame(m: map<nat, MessageRow>, m': map<nat, MessageRow>, to: Bytes, top: nat)
    requires forall id :: 1 <= id <= top ==> (id in m <==> id in m') && (id in m ==> m[id] == m'[id])
    ensures Scan(m, to, top) == Scan(m', to, top)
  {
    if top > 0 {
      ScanSame(m, m', to, top - 1);
    }
  }

  /** Insertion at max + 1 appends the new key to its recipient's list and touches no other list. */
  lemma UnreadAfterInsert(m: map<nat, MessageRow>, row: MessageRow, to: Bytes)
    ensures NextId(m) !in m
    ensures Unread(m[NextId(m) := row], to) == if row.to == to then Unread(m, to) + [NextId(m)] else Unread(m, to)
  {
    var id := NextId(m);
    var m' := m[id := row];
    assert MaxId(m') == id;
    ScanSame(m, m', to, id - 1);
  }

  // ----- the delete loop

  /** The keys of the collected rows whose deletion is committed; `lost` holds the positions in
      the loop whose deletion is not, because it failed or because the process stopped before it. */
  function Dropped(ids: seq<nat>, lost: set<nat>, from: nat): set<nat> {
    if ids == [] then {}
    else (if from in lost then {} else {ids[0]}) + Dropped(ids[1..], lost, from + 1)
  }

  /** What is left of a list after the loop. */
  function Kept<T>(s: seq<T>, lost: set<nat>, from: nat): seq<T> {
    if s == [] then []
    else (if from in lost then [s[0]] else []) + Kept(s[1..], lost, from + 1)
  }

  function Without(ids: seq<nat>, gone: set<nat>): seq<nat> {
    if ids == [] then []
    else (if ids[0] in gone then [] else [ids[0]]) + Without(ids[1..], gone)
  }

  lemma {:induction false} WithoutAppend(a: seq<nat>, b: seq<nat>, gone: set<nat>)
    ensures Without(a + b, gone) == Without(a, gone) + Without(b, gone)
  {
    if a == [] {
      assert a + b == b;
    } else {
      assert (a + b)[1..] == a[1..] + b;
      WithoutAppend(a[1..], b, gone);
    }
  }

  lemma {:induction false} ScanAfterRemoval(m: map<nat, MessageRow>, gone: set<nat>, to: Bytes, top: nat)
    ensures Scan(m - gone, to, top) == Without(Scan(m, to, top), gone)
  {
    if top > 0 {
      ScanAfterRemoval(m, gone, to, top - 1);
      var last := if top in m && m[top].to == to then [top] else [];
      WithoutAppend(Scan(m, to, top - 1), last, gone);
    }
  }

  lemma {:induction false} DroppedAreListed(ids: seq<nat>, lost: set<nat>, from: nat)
    ensures forall id :: id in Dropped(ids, lost, from) ==> id in ids
  {
    if ids != [] {
      DroppedAreListed(ids[1..], lost, from + 1);
    }
  }

  lemma {:induction false} WithoutOthers(ids: seq<nat>, gone: set<nat>, extra: nat)
    requires extra !in ids
    ensures Without(ids, gone + {extra}) == Without(ids, gone)
  {
    if ids != [] {
      WithoutOthers(ids[1..], gone, extra);
    }
  }

  lemma {:induction false} WithoutUnlisted(ids: seq<nat>, gone: set<nat>)
    requires forall id :: id in gone ==> id !in ids
    ensures Without(ids, gone) == ids
  {
    if ids != [] {
      WithoutUnlisted(ids[1..], gone);
    }
  }

  /** Dropping by key and keeping by position are the same thing, because keys are distinct. */
  lemma {:induction false} WithoutDropped(ids: seq<nat>, lost: set<nat>, from: nat)
    requires Ascending(ids)
    ensures Without(ids, Dropped(ids, lost, from)) == Kept(ids, lost, from)
  {
    if ids != [] {
      var rest := ids[1..];
      assert forall i :: 0 <= i < |rest| ==> rest[i] > ids[0];
      WithoutDropped(rest, lost, from + 1);
      DroppedAreListed(rest, lost, from + 1);
      WithoutOthers(rest, Dropped(rest, lost, from + 1), ids[0]);
      assert {ids[0]} + Dropped(rest, lost, from + 1) == Dropped(rest, lost, from + 1) + {ids[0]};
      if from in lost {
        assert {} + Dropped(rest, lost, from + 1) == Dropped(rest, lost, from + 1);
      }
    }
  }

  /** The delete loop over the keys selected for `owner`: the owner keeps the rows whose deletion
      was lost, and every other recipient keeps everything, although keys are reissued. */
  lemma UnreadAfterDelete(m: map<nat, MessageRow>, owner: Bytes, lost: set<nat>, to: Bytes)
    requires PositiveKeys(m)
    ensures var ids := Unread(m, owner);
            Unread(m - Dropped(ids, lost, 0), to) == if to == owner then Kept(ids, lost, 0) else Unread(m, to)
  {
    var ids := Unread(m, owner);
    var gone := Dropped(ids, lost, 0);
    UnreadSpec(m, owner);
    UnreadSpec(m, to);
    DroppedAreListed(ids, lost, 0);
    ScanPastEnd(m - gone, to, MaxId(m));
    ScanAfterRemoval(m, gone, to, MaxId(m));
    if to == owner {
      WithoutDropped(ids, lost, 0);
    } else {
      WithoutUnlisted(Unread(m, to), gone);
    }
  }

  lemma {:induction false} KeptOfNone<T>(s: seq<T>, lost: set<nat>, from: nat)
    requires forall i :: from <= i < from + |s| ==> i !in lost
    ensures Kept(s, lost, from) == []
  {
    if s != [] {
      KeptOfNone(s[1..], lost, from + 1);
    }
  }

  /** With no deletion lost, the loop removes exactly the rows that were selected. */
  lemma DeletesExactlySelected(m: map<nat, MessageRow>, owner: Bytes)
    requires PositiveKeys(m)
    ensures var m' := m - Dropped(Unread(m, owner), {}, 0);
            forall id :: id in m' <==> id in m && m[id].to != owner
  {
    var gone := Dropped(Unread(m, owner), {}, 0);
    var m' := m - gone;
    UnreadAfterDelete(m, owner, {}, owner);
    KeptOfNone(Unread(m, owner), {}, 0);
    UnreadSpec(m, owner);
    UnreadSpec(m', owner);
    DroppedAreListed(Unread(m, owner), {}, 0);
    assert Unread(m', owner) == [];
  }

  /** A key that has been used is issued again exactly when the row holding the greatest key goes. */
  lemma ReissueIff(m: map<nat, MessageRow>, gone: set<nat>)
    requires PositiveKeys(m)
    ensures NextId(m - gone) <= MaxId(m) <==> MaxId(m) in gone && m != map[]
  {
    var m' := m - gone;
    if m != map[] && MaxId(m) !in gone {
      assert MaxId(m) in m';
    } else if m != map[] {
      assert MaxId(m) !in m';
      if m' != map[] {
        assert MaxId(m') in m;
      }
    }
  }
}
