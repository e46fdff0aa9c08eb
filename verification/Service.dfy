/** Exactly what one connection does and sends, read off the received bytes. */
module Service {
  import opened ByteStrings
  import opened Database
  import opened MessageTable
  import opened Protocol
  import opened Framing
  import opened ServerSpec
  import opened Integrity
  import opened Answers
  import opened Blockage
  import opened Layouts

  // ----- what is sent for a reply

  /** The error: version 2, code 9000, no payload, filled up to a packet. */
  function ErrorFrame(): (b: Bytes)
    ensures |b| == 1024
  {
    Filled([2, 40, 35, 0, 0, 0, 0], 1024)
  }

  /** A reply as a whole: filled up to a packet if it is shorter. */
  function Whole(reply: Bytes): (b: Bytes)
    ensures reply <= b && |b| == if |reply| < 1024 then 1024 else |reply|
  {
    Filled(reply, if |reply| < 1024 then 1024 else |reply|)
  }

  /** What goes out when a handler answers with `reply`, or refuses, which is the empty reply: the whole
      reply; or the error, if the handler refuses or its first send raises; or the packets before a
      later send that raises. */
  predicate SendsAs(reply: Bytes, faults: set<nat>, sent: Bytes) {
    var packets := (|Whole(reply)| + 1023) / 1024;
    if reply == [] then sent == if 0 in faults then [] else ErrorFrame()
    else
      && ((forall i :: 0 <= i < packets ==> i !in faults) ==> sent == Whole(reply))
      && (0 in faults ==> sent == if 1 in faults then [] else ErrorFrame())
      && (forall k: nat | 0 < k < packets && FirstFault(faults, k) :: sent == Whole(reply)[..1024 * k])
  }

  lemma ErrorIs()
    ensures Frame(PackError()) == ErrorFrame()
  {
    IntegerLayout(2);
    IntegerLayout(9000);
    IntegerLayout(0);
    assert PackError() == [2, 40, 35, 0, 0, 0, 0];
  }

  lemma WholeIs(reply: Bytes)
    ensures Frame(reply) == Whole(reply) && Packets(|Frame(reply)|) == (|Whole(reply)| + 1023) / 1024
  {
  }

  lemma ErrorSent(faults: set<nat>, n: nat)
    ensures Transmit(PackError(), faults, n).bytes == if n in faults then [] else ErrorFrame()
  {
    ErrorIs();
    assert Packets(1024) == 1;
  }

  /** The first fault, if there is one among the sends of a reply. */
  lemma GoneThrough(faults: set<nat>, packets: nat, k: nat)
    ensures (forall i :: 0 <= i < packets ==> i !in faults) ==> GoThrough(faults, 0, packets) == packets
    ensures k < packets && FirstFault(faults, k) ==> GoThrough(faults, 0, packets) == k
  {
    if k < packets && FirstFault(faults, k) {
      GoThroughIs(faults, 0, packets, k);
    }
    if forall i :: 0 <= i < packets ==> i !in faults {
      GoThroughIs(faults, 0, packets, packets);
    }
  }

  lemma ReplySent(reply: Bytes, faults: set<nat>, k: nat)
    requires reply != []
    ensures var packets := (|Whole(reply)| + 1023) / 1024;
            var t := Transmit(reply, faults, 0);
            && ((forall i :: 0 <= i < packets ==> i !in faults) ==> t.result == Sent && t.bytes == Whole(reply))
            && (0 in faults ==> t.result == Refused && t.bytes == [] && t.attempts == 1)
            && (0 < k < packets && FirstFault(faults, k) ==>
                  t.result == WriteResult.Raised && t.bytes == Whole(reply)[..1024 * k])
  {
    WholeIs(reply);
    var packets := Packets(|Frame(reply)|);
    GoneThrough(faults, packets, k);
    GoneThrough(faults, packets, 0);
  }

  lemma AnswerSends(db: Db, reply: Bytes, faults: set<nat>, effect: Effect)
    ensures var h := Answer(db, reply, faults, effect); SendsAs(reply, faults, h.sent + ErrorAfter(h, faults))
  {
    var h := Answer(db, reply, faults, effect);
    var sent := h.sent + ErrorAfter(h, faults);
    if reply == [] {
      ErrorSent(faults, 0);
      assert sent == ErrorAfter(h, faults);
    } else {
      ErrorSent(faults, 1);
      ReplySent(reply, faults, 0);
      assert h.verdict == Failed ==> sent == ErrorAfter(h, faults);
      assert h.verdict != Failed ==> sent == h.sent;
      forall k: nat | 0 < k < (|Whole(reply)| + 1023) / 1024 && FirstFault(faults, k)
        ensures sent == Whole(reply)[..1024 * k]
      {
        ReplySent(reply, faults, k);
      }
    }
  }

  // ----- who is let in

  function CodeOf(data: Bytes): int
    requires |data| >= 19
  {
    OfTwo(data[17], data[18])
  }

  /** A whole header, a code from 1000 to 1004, and a registered sender, unless it registers. */
  predicate LetIn(db: Db, ev: Event) {
    && ev.recvs != [] && |ev.recvs[0]| >= 23
    && var data := ev.recvs[0];
    && 1000 <= CodeOf(data) <= 1004
    && (CodeOf(data) == 1000 || exists k :: 0 <= k < |db.clients| && db.clients[k].id == data[..16])
  }

  lemma HeaderFields(data: Bytes)
    requires |data| >= 23
    ensures var h := UnpackRequestHeader(data);
            h.Some? && h.value.clientId == data[..16] && h.value.code == CodeOf(data)
  {
    IntegerRead(data[17..19]);
  }

  lemma LetInIff(db: Db, ev: Event)
    ensures Admitted(db, ev) <==> LetIn(db, ev)
  {
    if ev.recvs != [] && |ev.recvs[0]| >= 23 {
      HeaderFields(ev.recvs[0]);
    }
  }

  /** A connection that is not let in changes nothing and gets no byte. */
  lemma StrangersGetNothing(db: Db, ev: Event)
    requires !LetIn(db, ev)
    ensures Serve(db, ev) == Served(db, [], Quiet)
  {
    LetInIff(db, ev);
  }

  /** What a connection that is let in does and sends is what its handler does and sends, then the error
      if the handler failed. */
  lemma ServedByHandler(db: Db, ev: Event)
    requires LetIn(db, ev)
    ensures var h, s := Handle(db, CodeOf(ev.recvs[0]), ev), Serve(db, ev);
            s.db == h.db && s.effect == h.effect && s.sent == h.sent + ErrorAfter(h, ev.env.faults)
  {
    LetInIff(db, ev);
    HeaderFields(ev.recvs[0]);
  }

  /** The name that a field holds: what stands before its first zero. */
  lemma NameOfField(field: Bytes, name: Bytes)
    requires NameIn(field, name)
    ensures UntilNul(field) == name
  {
    var other := UntilNul(field);
    assert forall i :: 0 <= i < |other| ==> other[i] in other;
    assert forall i :: 0 <= i < |name| ==> name[i] in name;
  }

  // ----- registration

  predicate NoSuchRow(rows: seq<ClientRow>, id: Bytes, name: Bytes) {
    forall k :: 0 <= k < |rows| ==> rows[k].id != id && rows[k].name != name
  }

  lemma RegistrationHandled(db: Db, data: Bytes, env: Env, name: Bytes)
    requires |data| >= 438 ==> NameIn(data[23..278], name)
    ensures var stored := |data| >= 438 && |name| < 255 && |env.uuid| == 16 && NoSuchRow(db.clients, env.uuid, name)
                          && env.storeOk;
            HandleRegister(db, data, env) ==
              if stored then
                var row := ClientRow(env.uuid, name, data[278..438]);
                Answer(db.(clients := db.clients + [row]), [2, 208, 7, 16, 0, 0, 0] + env.uuid, env.faults, Joined(row))
              else Answer(db, [], env.faults, Quiet)
  {
    if |data| >= 438 {
      NameOfField(data[23..278], name);
    }
    RegisteredLayout(env.uuid);
  }

  lemma RegisteredLayout(id: Bytes)
    ensures |id| == 16 ==> PackRegistered(id) == [2, 208, 7, 16, 0, 0, 0] + id
  {
    IntegerLayout(2);
    IntegerLayout(2000);
    IntegerLayout(16);
    if |id| == 16 {
      FixedLayout(id, 16);
      assert Filled(id, 16) == id;
    }
  }

  /** Registration, whatever sends fail: stored if and only if the request is whole, its name has fewer
      than 255 bytes and no row, the drawn identifier is proper and no row's, and the storage takes it;
      then the identifier is the answer, and otherwise the error. */
  lemma RegistrationServed(db: Db, ev: Event, name: Bytes)
    requires LetIn(db, ev) && CodeOf(ev.recvs[0]) == 1000
    requires |ev.recvs[0]| >= 438 ==> NameIn(ev.recvs[0][23..278], name)
    ensures var data, env, s := ev.recvs[0], ev.env, Serve(db, ev);
            if |data| >= 438 && |name| < 255 && |env.uuid| == 16 && NoSuchRow(db.clients, env.uuid, name)
               && env.storeOk then
              var row := ClientRow(env.uuid, name, data[278..438]);
              && s.effect == Joined(row) && s.db == Db(db.clients + [row], db.messages)
              && SendsAs([2, 208, 7, 16, 0, 0, 0] + env.uuid, env.faults, s.sent)
            else s.effect == Quiet && s.db == db && SendsAs([], env.faults, s.sent)
  {
    var data, env := ev.recvs[0], ev.env;
    var h := HandleRegister(db, data, env);
    ServedByHandler(db, ev);
    RegistrationHandled(db, data, env, name);
    AnswerSends(h.db, [2, 208, 7, 16, 0, 0, 0] + env.uuid, env.faults, h.effect);
    AnswerSends(db, [], env.faults, Quiet);
  }

  // ----- the list of clients

  function EntriesOf(rows: seq<ClientRow>): (es: seq<Entry>)
    ensures |es| == |rows| && forall k :: 0 <= k < |rows| ==> es[k] == Entry(rows[k].id, rows[k].name)
  {
    seq(|rows|, k requires 0 <= k < |rows| => Entry(rows[k].id, rows[k].name))
  }

  lemma {:induction false} OthersWithout(rows: seq<ClientRow>, id: Bytes)
    requires forall k :: 0 <= k < |rows| ==> rows[k].id != id
    ensures Others(rows, id) == EntriesOf(rows)
  {
    if rows != [] {
      OthersWithout(rows[1..], id);
      assert EntriesOf(rows) == [Entry(rows[0].id, rows[0].name)] + EntriesOf(rows[1..]);
    }
  }

  /** The other clients are all rows but the requester's own, in the order of the table. */
  lemma {:induction false} OthersAreTheRest(rows: seq<ClientRow>, m: nat)
    requires m < |rows| && forall k :: 0 <= k < |rows| && k != m ==> rows[k].id != rows[m].id
    ensures Others(rows, rows[m].id) == EntriesOf(rows[..m] + rows[m + 1..])
  {
    if m == 0 {
      OthersWithout(rows[1..], rows[0].id);
      assert rows[..0] + rows[1..] == rows[1..];
    } else {
      OthersAreTheRest(rows[1..], m - 1);
      var rest := rows[1..][..m - 1] + rows[1..][m..];
      assert rows[..m] + rows[m + 1..] == [rows[0]] + rest;
      assert EntriesOf([rows[0]] + rest) == [Entry(rows[0].id, rows[0].name)] + EntriesOf(rest);
    }
  }

  /** The header of a reply. */
  lemma ReplyHeaderLayout(code: nat, size: nat)
    requires code < U16 && size < U32
    ensures PackResponseHeader(SERVER_VERSION, code, size) == [2] + Two(code) + Four(size)
  {
    IntegerLayout(2);
    IntegerLayout(code);
    IntegerLayout(size);
  }

  lemma ListPayloadPacked(payload: Bytes)
    ensures PackClientsList(payload) ==
              if payload == [] || |payload| >= U32 then [] else [2, 209, 7] + Four(|payload|) + payload
  {
    if |payload| < U32 {
      ReplyHeaderLayout(2001, |payload|);
    }
  }

  lemma ListReplyLayout(es: seq<Entry>)
    requires forall i :: 0 <= i < |es| ==> WellFormedEntry(es[i])
    ensures PackClientsList(PackEntries(es)) ==
              if es == [] || 271 * |es| >= U32 then [] else [2, 209, 7] + Four(271 * |es|) + ListBytes(es)
  {
    ListLayout(es);
    ListPayloadPacked(ListBytes(es));
  }

  lemma RestWellFormed(rows: seq<ClientRow>, m: nat)
    requires ClientsIntact(rows) && m < |rows|
    ensures var es := EntriesOf(rows[..m] + rows[m + 1..]); forall i :: 0 <= i < |es| ==> WellFormedEntry(es[i])
    ensures forall k :: 0 <= k < |rows| && k != m ==> rows[k].id != rows[m].id
  {
    var rest := rows[..m] + rows[m + 1..];
    forall i | 0 <= i < |rest|
      ensures WellFormedEntry(EntriesOf(rest)[i])
    {
      assert rest[i] == if i < m then rows[i] else rows[i + 1];
      assert WellFormedClient(rest[i]);
    }
  }

  /** The list, for the client of row `m`: blocks of 271 bytes for all other rows in table order, or the
      error if there are none or too many. */
  lemma ListServed(db: Db, ev: Event, m: nat)
    requires ClientsIntact(db.clients) && LetIn(db, ev) && CodeOf(ev.recvs[0]) == 1001
    requires m < |db.clients| && db.clients[m].id == ev.recvs[0][..16]
    ensures var es, s := EntriesOf(db.clients[..m] + db.clients[m + 1..]), Serve(db, ev);
            && (forall i :: 0 <= i < |es| ==> WellFormedEntry(es[i]))
            && s.effect == Quiet && s.db == db
            && SendsAs(if es == [] || 271 * |es| >= U32 then [] else [2, 209, 7] + Four(271 * |es|) + ListBytes(es),
                       ev.env.faults, s.sent)
  {
    var es := EntriesOf(db.clients[..m] + db.clients[m + 1..]);
    RestWellFormed(db.clients, m);
    OthersAreTheRest(db.clients, m);
    ListReplyLayout(es);
    ServedByHandler(db, ev);
    HeaderFields(ev.recvs[0]);
    AnswerSends(db, PackClientsList(PackEntries(es)), ev.env.faults, Quiet);
  }

  // ----- public keys

  lemma KeyReplyLayout(id: Bytes, key: Bytes)
    requires |id| == 16 && |key| == 160
    ensures PackPublicKey(id, key) == [2, 210, 7, 176, 0, 0, 0] + id + key
  {
    IntegerLayout(2);
    IntegerLayout(2002);
    IntegerLayout(176);
    FixedLayout(id, 16);
    FixedLayout(key, 160);
    assert Filled(id, 16) == id && Filled(key, 160) == key;
  }

  /** The row with a name, given its place. */
  lemma RowNamed(rows: seq<ClientRow>, name: Bytes, k: nat)
    requires ClientsIntact(rows)
    requires if k < |rows| then rows[k].name == name else forall i :: 0 <= i < |rows| ==> rows[i].name != name
    ensures FirstNamed(rows, name) == if k < |rows| then Some(rows[k]) else None
    ensures k < |rows| ==> |rows[k].id| == 16 && |rows[k].publicKey| == 160
  {
    if k < |rows| {
      assert WellFormedClient(rows[k]);
    }
  }

  lemma KeyHandled(db: Db, data: Bytes, env: Env, name: Bytes, k: nat)
    requires ClientsIntact(db.clients)
    requires |data| >= 278 ==> NameIn(data[23..278], name)
    requires if k < |db.clients| then db.clients[k].name == name
             else forall i :: 0 <= i < |db.clients| ==> db.clients[i].name != name
    ensures HandleGetPublicKey(db, data, env) ==
              Answer(db, if |data| < 278 || k >= |db.clients| then []
                         else [2, 210, 7, 176, 0, 0, 0] + db.clients[k].id + db.clients[k].publicKey, env.faults, Quiet)
  {
    RowNamed(db.clients, name, k);
    if |data| >= 278 {
      NameOfField(data[23..278], name);
      if k < |db.clients| {
        KeyReplyLayout(db.clients[k].id, db.clients[k].publicKey);
      }
    }
  }

  /** A key request is answered with identifier and key of the row with the name, or with the error when
      there is none or the request is short. */
  lemma KeyServed(db: Db, ev: Event, name: Bytes, k: nat)
    requires ClientsIntact(db.clients) && LetIn(db, ev) && CodeOf(ev.recvs[0]) == 1002
    requires |ev.recvs[0]| >= 278 ==> NameIn(ev.recvs[0][23..278], name)
    requires if k < |db.clients| then db.clients[k].name == name
             else forall i :: 0 <= i < |db.clients| ==> db.clients[i].name != name
    ensures var s := Serve(db, ev);
            && s.effect == Quiet && s.db == db
            && SendsAs(if |ev.recvs[0]| < 278 || k >= |db.clients| then []
                       else [2, 210, 7, 176, 0, 0, 0] + db.clients[k].id + db.clients[k].publicKey,
                       ev.env.faults, s.sent)
  {
    KeyHandled(db, ev.recvs[0], ev.env, name, k);
    ServedByHandler(db, ev);
    AnswerSends(db, [], ev.env.faults, Quiet);
    if k < |db.clients| {
      AnswerSends(db, [2, 210, 7, 176, 0, 0, 0] + db.clients[k].id + db.clients[k].publicKey, ev.env.faults, Quiet);
    }
  }

  // ----- sends

  /** What the peer sends behind the first packet before it closes. */
  function BeforeClose(pieces: seq<Bytes>): Bytes {
    if pieces == [] || pieces[0] == [] then [] else pieces[0] + BeforeClose(pieces[1..])
  }

  lemma GatherStep(piece: Bytes, rest: Bytes, need: nat)
    requires need <= |piece| + |rest|
    ensures var take := Min(|piece|, need); (piece + rest)[..need] == piece[..take] + rest[..need - take]
  {
  }

  lemma {:induction false} GatheredIs(pieces: seq<Bytes>, need: nat)
    ensures var all := BeforeClose(pieces);
            Gather(pieces, need) == if |all| >= need then Some(all[..need]) else None
  {
    if need > 0 && pieces != [] && pieces[0] != [] {
      var take := Min(|pieces[0]|, need);
      GatheredIs(pieces[1..], need - take);
      if |BeforeClose(pieces)| >= need {
        GatherStep(pieces[0], BeforeClose(pieces[1..]), need);
      }
    }
  }

  /** How much content the first packet has room for, and the content as it arrived. */
  function InFirst(size: nat): nat { if size < 980 then size else 980 }

  predicate Arrived(data: Bytes, pieces: seq<Bytes>) {
    && |data| >= 44
    && var size := OfFour(data[40..44]);
    && |data| >= 44 + InFirst(size) && |BeforeClose(pieces)| >= size - InFirst(size)
  }

  function ArrivedContent(data: Bytes, pieces: seq<Bytes>): Bytes
    requires Arrived(data, pieces)
  {
    var size := OfFour(data[40..44]);
    data[44..44 + InFirst(size)] + BeforeClose(pieces)[..size - InFirst(size)]
  }

  lemma SendRead(data: Bytes, pieces: seq<Bytes>)
    ensures UnpackSend(data, pieces).Some? <==> Arrived(data, pieces)
    ensures Arrived(data, pieces) ==>
              var r := UnpackSend(data, pieces).value;
              r.header.clientId == data[..16] && r.to == data[23..39] && r.typ == data[39]
              && r.content == ArrivedContent(data, pieces)
  {
    if |data| >= 44 {
      var size := OfFour(data[40..44]);
      IntegerRead(data[39..40]);
      IntegerRead(data[40..44]);
      GatheredIs(pieces, size - InFirst(size));
    }
  }

  /** One more than the greatest key, one for the empty table. */
  predicate NextKey(m: map<nat, MessageRow>, id: nat) {
    (forall x :: x in m ==> x < id) && (id == 1 || (id > 1 && id - 1 in m))
  }

  lemma NextKeyIs(m: map<nat, MessageRow>, id: nat)
    requires PositiveKeys(m) && NextKey(m, id)
    ensures id == NextId(m)
  {
    if m != map[] {
      assert MaxId(m) in m;
    }
  }

  lemma AckLayout(to: Bytes, id: nat)
    requires |to| == 16
    ensures PackMessageSent(to, id) == if id < U32 then [2, 211, 7, 20, 0, 0, 0] + to + Four(id) else []
  {
    if id < U32 {
      ReplyHeaderLayout(2003, 20);
      IntegerLayout(id);
      FixedLayout(to, 16);
      assert Filled(to, 16) == to;
    }
  }

  predicate Takes(db: Db, ev: Event)
    requires ev.recvs != []
  {
    && Arrived(ev.recvs[0], ev.recvs[1..])
    && ev.recvs[0][39] in {1, 2, 3, 4}
    && (exists k :: 0 <= k < |db.clients| && db.clients[k].id == ev.recvs[0][23..39])
    && ev.env.storeOk
  }

  lemma SendHandled(db: Db, ev: Event, id: nat)
    requires PositiveKeys(db.messages) && NextKey(db.messages, id) && ev.recvs != [] && |ev.recvs[0]| >= 23
    ensures var data, pieces := ev.recvs[0], ev.recvs[1..];
            HandleSend(db, data, pieces, ev.env) ==
              if Takes(db, ev) then
                var row := MessageRow(data[23..39], data[..16], data[39], ArrivedContent(data, pieces));
                Answer(Db(db.clients, db.messages[id := row]), PackMessageSent(row.to, id), ev.env.faults,
                       Stored(id, row))
              else Answer(db, [], ev.env.faults, Quiet)
  {
    SendRead(ev.recvs[0], ev.recvs[1..]);
    NextKeyIs(db.messages, id);
    assert Takes(db, ev) ==> HasId(db.clients, ev.recvs[0][23..39]);
  }

  /** A send, whatever sends of the server fail: stored, under the next key, from the sender in the header
      and to the recipient behind it, if and only if its content arrived before the peer closed, its type
      is 1, 2, 3 or 4, its recipient is registered and the storage takes it; then recipient and key are
      the answer, if the key fits four bytes, and otherwise the error. */
  lemma SendServed(db: Db, ev: Event, id: nat)
    requires PositiveKeys(db.messages) && NextKey(db.messages, id)
    requires LetIn(db, ev) && CodeOf(ev.recvs[0]) == 1003
    ensures var data, pieces, s := ev.recvs[0], ev.recvs[1..], Serve(db, ev);
            if Takes(db, ev) then
              var row := MessageRow(data[23..39], data[..16], data[39], ArrivedContent(data, pieces));
              && s.effect == Stored(id, row) && s.db == Db(db.clients, db.messages[id := row])
              && SendsAs(if id < U32 then [2, 211, 7, 20, 0, 0, 0] + row.to + Four(id) else [], ev.env.faults, s.sent)
            else s.effect == Quiet && s.db == db && SendsAs([], ev.env.faults, s.sent)
  {
    SendHandled(db, ev, id);
    ServedByHandler(db, ev);
    AnswerSends(db, [], ev.env.faults, Quiet);
    if Takes(db, ev) {
      var h := HandleSend(db, ev.recvs[0], ev.recvs[1..], ev.env);
      AckLayout(ev.recvs[0][23..39], id);
      AnswerSends(h.db, PackMessageSent(ev.recvs[0][23..39], id), ev.env.faults, h.effect);
    }
  }

  // ----- fetches

  /** The keys of all rows for `c`, ascending. */
  ghost predicate MailboxKeys(m: map<nat, MessageRow>, c: Bytes, ids: seq<nat>) {
    && (forall i, j :: 0 <= i < j < |ids| ==> ids[i] < ids[j])
    && (forall id :: id in ids <==> id in m && m[id].to == c)
  }

  lemma {:induction false} OneAscendingOrder(a: seq<nat>, b: seq<nat>)
    requires Ascending(a) && Ascending(b) && forall x :: x in a <==> x in b
    ensures a == b
  {
    assert a != [] ==> a[0] in b;
    assert b != [] ==> b[0] in a;
    if a != [] && b != [] {
      assert a[0] == b[0];
      forall x
        ensures x in a[1..] <==> x in b[1..]
      {
        assert x in a[1..] <==> x in a && x != a[0];
        assert x in b[1..] <==> x in b && x != b[0];
      }
      OneAscendingOrder(a[1..], b[1..]);
    }
  }

  lemma MailboxKeysAre(m: map<nat, MessageRow>, c: Bytes, ids: seq<nat>)
    requires PositiveKeys(m) && MailboxKeys(m, c, ids)
    ensures ids == Unread(m, c)
  {
    UnreadSpec(m, c);
    OneAscendingOrder(ids, Unread(m, c));
  }

  /** Sender, key, type, size and content of every row, one after the other. */
  function FetchBytes(m: map<nat, MessageRow>, ids: seq<nat>): Bytes
    requires forall i :: 0 <= i < |ids| ==> ids[i] in m
  {
    if ids == [] then []
    else
      var row := m[ids[0]];
      RecordBytes(row.from, ids[0], row.typ, row.content) + FetchBytes(m, ids[1..])
  }

  lemma {:induction false} FetchLayout(m: map<nat, MessageRow>, ids: seq<nat>)
    requires AllStored(m, ids)
    requires forall i :: 0 <= i < |ids| ==> Packable(RecordOf(m, ids[i])) && |m[ids[i]].from| == 16
    ensures PackRecords(RecordsOf(m, ids)) == FetchBytes(m, ids)
  {
    if ids != [] {
      assert Packable(RecordOf(m, ids[0])) && |m[ids[0]].from| == 16;
      RecordLayout(Record(m[ids[0]].from, ids[0], m[ids[0]].typ, m[ids[0]].content));
      FetchLayout(m, ids[1..]);
      assert RecordsOf(m, ids)[1..] == RecordsOf(m, ids[1..]);
      assert RecordOf(m, ids[0]) == Record(m[ids[0]].from, ids[0], m[ids[0]].typ, m[ids[0]].content);
    }
  }

  predicate FitsReply(m: map<nat, MessageRow>, ids: seq<nat>)
    requires forall i :: 0 <= i < |ids| ==> ids[i] in m
  {
    (forall i :: 0 <= i < |ids| ==> ids[i] < U32) && |FetchBytes(m, ids)| < U32
  }

  function FetchReply(m: map<nat, MessageRow>, ids: seq<nat>): Bytes
    requires forall i :: 0 <= i < |ids| ==> ids[i] in m
  {
    if FitsReply(m, ids) then [2, 212, 7] + Four(|FetchBytes(m, ids)|) + FetchBytes(m, ids) else []
  }

  lemma SendersAreWhole(db: Db, ids: seq<nat>)
    requires Intact(db) && AllStored(db.messages, ids)
    ensures forall i :: 0 <= i < |ids| ==> |db.messages[ids[i]].from| == 16
  {
    forall i | 0 <= i < |ids|
      ensures |db.messages[ids[i]].from| == 16
    {
      assert IntactMessage(db.clients, db.messages[ids[i]]);
      var k :| 0 <= k < |db.clients| && db.clients[k].id == db.messages[ids[i]].from;
      assert WellFormedClient(db.clients[k]);
    }
  }

  lemma PackMailboxIs(rs: seq<Record>)
    ensures PackMailbox(rs) ==
              if AllPackable(rs) && |PackRecords(rs)| < U32
              then [2, 212, 7] + Four(|PackRecords(rs)|) + PackRecords(rs) else []
  {
    if |PackRecords(rs)| < U32 {
      ReplyHeaderLayout(2004, |PackRecords(rs)|);
    }
  }

  lemma RecordsPacked(db: Db, ids: seq<nat>)
    requires Intact(db) && AllStored(db.messages, ids)
    ensures AllPackable(RecordsOf(db.messages, ids)) <==> IdsFit(ids)
    ensures IdsFit(ids) ==> PackRecords(RecordsOf(db.messages, ids)) == FetchBytes(db.messages, ids)
  {
    PackableIff(db, ids);
    SendersAreWhole(db, ids);
    if IdsFit(ids) {
      FetchLayout(db.messages, ids);
    }
  }

  lemma MailboxPacked(db: Db, ids: seq<nat>)
    requires Intact(db) && AllStored(db.messages, ids)
    ensures PackMailbox(RecordsOf(db.messages, ids)) == FetchReply(db.messages, ids)
  {
    RecordsPacked(db, ids);
    PackMailboxIs(RecordsOf(db.messages, ids));
  }

  lemma {:induction false} DroppedAre(ids: seq<nat>, lost: set<nat>, from: nat, x: nat)
    ensures x in Dropped(ids, lost, from) <==> exists i :: 0 <= i < |ids| && ids[i] == x && from + i !in lost
  {
    if ids != [] {
      DroppedAre(ids[1..], lost, from + 1, x);
      if i :| 0 <= i < |ids[1..]| && ids[1..][i] == x && from + 1 + i !in lost {
        assert ids[i + 1] == x && from + (i + 1) !in lost;
      }
      if i :| 0 < i < |ids| && ids[i] == x && from + i !in lost {
        assert ids[1..][i - 1] == x && from + 1 + (i - 1) !in lost;
      }
    }
  }

  /** The rows that are left when those listed in `ids` are deleted, except at the places in `lost`. */
  ghost predicate LeftAfter(m: map<nat, MessageRow>, m': map<nat, MessageRow>, ids: seq<nat>, lost: set<nat>) {
    && (forall id :: id in m' <==> id in m && !(exists i :: 0 <= i < |ids| && ids[i] == id && i !in lost))
    && (forall id :: id in m' ==> m'[id] == m[id])
  }

  lemma DroppedLeaves(m: map<nat, MessageRow>, ids: seq<nat>, lost: set<nat>)
    ensures LeftAfter(m, m - Dropped(ids, lost, 0), ids, lost)
  {
    forall id
      ensures id in Dropped(ids, lost, 0) <==> exists i :: 0 <= i < |ids| && ids[i] == id && i !in lost
    {
      DroppedAre(ids, lost, 0, id);
    }
  }

  lemma SentWholeIff(reply: Bytes, faults: set<nat>)
    requires reply != []
    ensures Transmit(reply, faults, 0).result == Sent <==>
            forall i :: 0 <= i < (|Whole(reply)| + 1023) / 1024 ==> i !in faults
  {
    WholeIs(reply);
    ReplySent(reply, faults, 0);
    GoThroughSpec(faults, 0, Packets(|Frame(reply)|));
  }

  predicate NoFault(reply: Bytes, faults: set<nat>) {
    forall i :: 0 <= i < (|Whole(reply)| + 1023) / 1024 ==> i !in faults
  }

  lemma FetchAnswers(db: Db, data: Bytes, env: Env, c: Bytes, reply: Bytes)
    requires UnpackRequestHeader(data).Some? && UnpackRequestHeader(data).value.clientId == c
    requires reply == PackMailbox(Mailbox(db.messages, c))
    ensures var a, h := Answer(db, reply, env.faults, Quiet), HandleGetUnread(db, data, env);
            && h.verdict == a.verdict && h.sent == a.sent && h.attempts == a.attempts
            && (if reply != [] && Transmit(reply, env.faults, 0).result == Sent
                then h.effect == HandedOver(c, Unread(db.messages, c)) && h.db.clients == db.clients
                     && h.db.messages == db.messages - Dropped(Unread(db.messages, c), env.lost, 0)
                else h.effect == Quiet && h.db == db)
  {
  }

  lemma FetchHandled(db: Db, data: Bytes, env: Env, ids: seq<nat>)
    requires Intact(db) && |data| >= 23 && MailboxKeys(db.messages, data[..16], ids)
    ensures var reply, h := FetchReply(db.messages, ids), HandleGetUnread(db, data, env);
            && SendsAs(reply, env.faults, h.sent + ErrorAfter(h, env.faults))
            && (if reply != [] && NoFault(reply, env.faults)
                then h.effect == HandedOver(data[..16], ids) && h.db.clients == db.clients
                     && LeftAfter(db.messages, h.db.messages, ids, env.lost)
                else h.effect == Quiet && h.db == db)
  {
    var c, reply := data[..16], FetchReply(db.messages, ids);
    HeaderFields(data);
    MailboxKeysAre(db.messages, c, ids);
    MailboxPacked(db, ids);
    FetchAnswers(db, data, env, c, reply);
    AnswerSends(db, reply, env.faults, Quiet);
    DroppedLeaves(db.messages, ids, env.lost);
    if reply != [] {
      SentWholeIff(reply, env.faults);
    }
  }

  lemma FetchIsHandled(db: Db, code: int, ev: Event)
    requires ev.recvs != [] && code == 1004
    ensures Handle(db, code, ev) == HandleGetUnread(db, ev.recvs[0], ev.env)
  {
  }

  /** The same for a handler that is given. */
  lemma ServedBy(db: Db, ev: Event, h: Handled)
    requires LetIn(db, ev) && h == Handle(db, CodeOf(ev.recvs[0]), ev)
    ensures var s := Serve(db, ev);
            s.db == h.db && s.effect == h.effect && s.sent == h.sent + ErrorAfter(h, ev.env.faults)
  {
    ServedByHandler(db, ev);
  }

  /** A fetch, whatever sends fail: the reply holds, for the rows addressed to the sender in ascending order
      of their keys, sender, key, type, size and content, or it is refused when a key or the whole does not
      fit four bytes. If all of it was sent, exactly those rows go whose deletion is not lost; otherwise
      nothing changes. */
  lemma FetchServed(db: Db, ev: Event, ids: seq<nat>)
    requires Intact(db) && LetIn(db, ev) && CodeOf(ev.recvs[0]) == 1004
    requires MailboxKeys(db.messages, ev.recvs[0][..16], ids)
    ensures var reply, s := FetchReply(db.messages, ids), Serve(db, ev);
            && SendsAs(reply, ev.env.faults, s.sent)
            && (if reply != [] && NoFault(reply, ev.env.faults)
                then s.effect == HandedOver(ev.recvs[0][..16], ids) && s.db.clients == db.clients
                     && LeftAfter(db.messages, s.db.messages, ids, ev.env.lost)
                else s.effect == Quiet && s.db == db)
  {
    FetchHandled(db, ev.recvs[0], ev.env, ids);
    FetchIsHandled(db, CodeOf(ev.recvs[0]), ev);
    ServedBy(db, ev, HandleGetUnread(db, ev.recvs[0], ev.env));
  }

  // ----- every request

  /** What the handler sends is what it would send for `reply`. */
  predicate AnswersAs(h: Handled, faults: set<nat>, reply: Bytes) {
    var a := Answer(h.db, reply, faults, Quiet);
    h.verdict == a.verdict && h.sent == a.sent && h.attempts == a.attempts
  }

  lemma RegisterAnswers(db: Db, data: Bytes, env: Env)
    ensures exists reply :: AnswersAs(HandleRegister(db, data, env), env.faults, reply)
  {
    var h := HandleRegister(db, data, env);
    assert AnswersAs(h, env.faults, if h.effect == Quiet then [] else PackRegistered(env.uuid));
  }

  lemma QueriesAnswer(db: Db, data: Bytes, env: Env)
    ensures exists reply :: AnswersAs(HandleGetClients(db, data, env), env.faults, reply)
    ensures exists reply :: AnswersAs(HandleGetPublicKey(db, data, env), env.faults, reply)
  {
    var h := UnpackRequestHeader(data);
    assert AnswersAs(HandleGetClients(db, data, env), env.faults,
                     if h.None? then [] else PackClientsList(PackEntries(Others(db.clients, h.value.clientId))));
    var r := UnpackPublicKeyRequest(data);
    var row := if r.None? then None else FirstNamed(db.clients, r.value.name);
    assert AnswersAs(HandleGetPublicKey(db, data, env), env.faults,
                     if row.None? || row.value.publicKey == [] then []
                     else PackPublicKey(row.value.id, row.value.publicKey));
  }

  lemma SendAnswers(db: Db, data: Bytes, pieces: seq<Bytes>, env: Env)
    ensures exists reply :: AnswersAs(HandleSend(db, data, pieces, env), env.faults, reply)
  {
    var h := HandleSend(db, data, pieces, env);
    assert AnswersAs(h, env.faults, if h.effect.Stored? then PackMessageSent(h.effect.row.to, h.effect.id) else []);
  }

  lemma MailboxAnswers(db: Db, data: Bytes, env: Env)
    requires UnpackRequestHeader(data).Some?
    ensures exists reply :: AnswersAs(HandleGetUnread(db, data, env), env.faults, reply)
  {
    var c := UnpackRequestHeader(data).value.clientId;
    FetchAnswers(db, data, env, c, PackMailbox(Mailbox(db.messages, c)));
    assert AnswersAs(HandleGetUnread(db, data, env), env.faults, PackMailbox(Mailbox(db.messages, c)));
  }

  lemma HandledAsAnswer(db: Db, code: int, ev: Event) returns (reply: Bytes)
    requires ev.recvs != [] && UnpackRequestHeader(ev.recvs[0]).Some? && 1000 <= code <= 1004
    ensures var h := Handle(db, code, ev); SendsAs(reply, ev.env.faults, h.sent + ErrorAfter(h, ev.env.faults))
  {
    var data, env, h := ev.recvs[0], ev.env, Handle(db, code, ev);
    if code == 1000 {
      RegisterAnswers(db, data, env);
    } else if code == 1003 {
      SendAnswers(db, data, ev.recvs[1..], env);
    } else if code == 1004 {
      MailboxAnswers(db, data, env);
    } else {
      QueriesAnswer(db, data, env);
    }
    reply :| AnswersAs(h, env.faults, reply);
    AnswerSends(h.db, reply, env.faults, Quiet);
  }

  /** Among the first `n` sends one is the first that raises, or none does. */
  lemma {:induction false} FaultOrNone(faults: set<nat>, n: nat)
    ensures (forall i :: 0 <= i < n ==> i !in faults) || exists k: nat :: k < n && FirstFault(faults, k)
  {
    if n > 0 {
      FaultOrNone(faults, n - 1);
      if forall i :: 0 <= i < n - 1 ==> i !in faults {
        assert n - 1 in faults ==> FirstFault(faults, n - 1);
      }
    }
  }

  lemma LongEnough(reply: Bytes, faults: set<nat>, sent: Bytes)
    requires SendsAs(reply, faults, sent) && 0 !in faults
    ensures |sent| >= 1024
  {
    var packets := (|Whole(reply)| + 1023) / 1024;
    FaultOrNone(faults, packets);
    if k: nat :| k < packets && FirstFault(faults, k) {
      assert |Whole(reply)[..1024 * k]| == 1024 * k;
    }
  }

  /** Every request that is let in is answered with at least one packet, unless the first send raises. */
  lemma LetInIsAnswered(db: Db, ev: Event)
    requires LetIn(db, ev) && 0 !in ev.env.faults
    ensures |Serve(db, ev).sent| >= 1024
  {
    HeaderFields(ev.recvs[0]);
    ServedByHandler(db, ev);
    var reply := HandledAsAnswer(db, CodeOf(ev.recvs[0]), ev);
    LongEnough(reply, ev.env.faults, Serve(db, ev).sent);
  }
}
