/** Every message byte by byte, with its numbers written out: what the formats of both programs come to,
    and which bytes the client accepts. */
module Layouts {
  import opened ByteStrings
  import opened Protocol
  import opened Framing
  import opened Sockets
  import opened ClientSpec
  import opened ClientStates

  function Two(v: nat): (b: Bytes) { [v % 256, v / 256 % 256] }

  function Four(v: nat): (b: Bytes)
    ensures |b| == 4
  {
    [v % 256, v / 256 % 256, v / 65536 % 256, v / 16777216 % 256]
  }

  function OfTwo(low: int, high: int): int { low + 256 * high }

  function OfFour(b: Bytes): nat
    requires |b| == 4
  {
    OfTwo(b[0], b[1]) + 65536 * OfTwo(b[2], b[3])
  }

  /** `s` followed by zeros up to `n` bytes. */
  function Filled(s: Bytes, n: nat): (b: Bytes)
    requires |s| <= n
    ensures |b| == n && s <= b && forall i :: |s| <= i < n ==> b[i] == 0
  {
    s + seq(n - |s|, _ => 0)
  }

  /** `s` followed by zeros up to whole packets. */
  function InPackets(s: Bytes): (b: Bytes)
    ensures |b| == (|s| + 1023) / 1024 * 1024 && s <= b && forall i :: |s| <= i < |b| ==> b[i] == 0
  {
    Filled(s, (|s| + 1023) / 1024 * 1024)
  }

  // ----- numbers and strings

  lemma IntegerLayout(v: nat)
    ensures LittleEndian(1, v) == [v % 256] && LittleEndian(2, v) == Two(v) && LittleEndian(4, v) == Four(v)
  {
    assert LittleEndian(0, v / 256) == [] && LittleEndian(1, v) == [v % 256] + [];
    assert LittleEndian(1, v / 256) == [v / 256 % 256] + LittleEndian(0, v / 256 / 256);
    var a, b, c := v / 256, v / 256 / 256, v / 256 / 256 / 256;
    assert b == v / 65536 && c == v / 16777216;
    assert LittleEndian(4, v) == [v % 256] + LittleEndian(3, a);
    assert LittleEndian(3, a) == [a % 256] + LittleEndian(2, b);
    assert LittleEndian(2, b) == [b % 256] + LittleEndian(1, c);
    assert LittleEndian(1, c) == [c % 256] + LittleEndian(0, c / 256);
  }

  lemma IntegerRead(b: Bytes)
    ensures |b| == 1 ==> Value(b) == b[0]
    ensures |b| == 2 ==> Value(b) == OfTwo(b[0], b[1])
    ensures |b| == 4 ==> Value(b) == OfFour(b)
  {
    if |b| == 1 {
      assert b[1..] == [];
    } else if |b| == 2 {
      assert b[1..] == [b[1]] && b[1..][1..] == [];
    } else if |b| == 4 {
      assert Value(b) == b[0] + 256 * Value(b[1..]);
      assert Value(b[1..]) == b[1] + 256 * Value(b[1..][1..]);
      assert b[1..][1..] == [b[2], b[3]];
      assert Value([b[2], b[3]]) == b[2] + 256 * Value([b[2], b[3]][1..]);
      assert [b[2], b[3]][1..] == [b[3]] && [b[3]][1..] == [];
    }
  }

  lemma FixedLayout(s: Bytes, n: nat)
    requires |s| <= n
    ensures Fixed(n, s) == Filled(s, n)
  {
  }

  // ----- requests

  /** The name field holds the name, a zero, and whatever lay behind it in memory. */
  lemma RegistrationLayout(name: Bytes, junk: Bytes, key: Bytes)
    requires |name| + 1 + |junk| == 255 && |key| == 160
    ensures RegistrationBytes(name, junk, key) ==
              Filled([], 16) + [1, 232, 3, 159, 1, 0, 0] + (name + [0] + junk) + key
  {
    IntegerLayout(1);
    IntegerLayout(1000);
    IntegerLayout(415);
  }

  lemma BareLayout(c: ClientState)
    requires |c.id| == 16
    ensures BareRequest(c, GET_CLIENTS_LIST) == c.id + [1, 233, 3, 0, 0, 0, 0]
    ensures BareRequest(c, GET_UNREAD_MESSAGES) == c.id + [1, 236, 3, 0, 0, 0, 0]
  {
    IntegerLayout(1);
    IntegerLayout(1001);
    IntegerLayout(1004);
    IntegerLayout(0);
  }

  lemma KeyRequestLayout(id: Bytes, name: Bytes)
    requires |id| == 16 && |name| <= 255
    ensures PublicKeyRequestBytes(id, name) == id + [1, 234, 3, 255, 0, 0, 0] + Filled(name, 255)
  {
    IntegerLayout(1);
    IntegerLayout(1002);
    IntegerLayout(255);
    FixedLayout(name, 255);
  }

  function SendLayout(id: Bytes, payloadSize: nat, to: Bytes, typ: byte, content: Bytes): Bytes {
    id + [1, 235, 3] + Four(payloadSize) + to + [typ] + Four(|content|) + content
  }

  lemma SendRequestLayout(r: SendRequest)
    requires FitsSendRequest(r) && r.header.version == 1 && r.header.code == 1003
    ensures SendRequestBytes(r) == SendLayout(r.header.clientId, r.header.payloadSize, r.to, r.typ, r.content)
  {
    IntegerLayout(1);
    IntegerLayout(1003);
    IntegerLayout(r.header.payloadSize);
    IntegerLayout(r.typ);
    IntegerLayout(|r.content|);
  }

  /** Transmission `k` raises, and none before it does. */
  predicate FirstFault(faults: set<nat>, k: nat) {
    k in faults && forall i :: 0 <= i < k ==> i !in faults
  }

  /** What leaves the client: the request and zeros up to whole packets, or the packets before the first
      one that raises. */
  lemma RequestOnWire(request: Bytes, link: Link)
    requires request != []
    ensures var packets := |InPackets(request)| / 1024;
            && (!link.reachable ==> OnWire(request, link) == [])
            && (link.reachable && (forall i :: 0 <= i < packets ==> i !in link.faults) ==>
                  OnWire(request, link) == InPackets(request))
            && (forall k: nat | link.reachable && k < packets && FirstFault(link.faults, k) ::
                  OnWire(request, link) == InPackets(request)[..1024 * k])
            && (Delivered(request, link) <==> link.reachable && forall i :: 0 <= i < packets ==> i !in link.faults)
  {
    var n := Packets(|request|);
    GoThroughSpec(link.faults, 0, n);
    assert PadToPackets(request) == InPackets(request);
    assert InPackets(request)[..n * 1024] == InPackets(request);
  }

  // ----- replies as the client reads them

  /** A reply of a fixed size is accepted exactly when it is long enough and has the right code and the
      right size; the version and what follows do not matter. */
  predicate AcceptsFixed(reply: Bytes, low: byte, high: byte, size: byte) {
    |reply| >= 7 + size && reply[1] == low && reply[2] == high
    && reply[3] == size && reply[4] == 0 && reply[5] == 0 && reply[6] == 0
  }

  lemma HeaderRead(reply: Bytes)
    requires |reply| >= 7
    ensures var h := ReadResponseHeader(reply);
            h.version == reply[0] && h.code == OfTwo(reply[1], reply[2]) && h.payloadSize == OfFour(reply[3..7])
  {
    IntegerRead(reply[..1]);
    IntegerRead(reply[1..3]);
    IntegerRead(reply[3..7]);
  }

  lemma CodeIs(low: int, high: int, l: int, h: int)
    requires 0 <= low < 256 && 0 <= high < 256 && 0 <= l < 256 && 0 <= h < 256
    ensures OfTwo(low, high) == OfTwo(l, h) <==> low == l && high == h
  {
  }

  lemma SizeIs(b: Bytes, size: byte)
    requires |b| == 4
    ensures OfFour(b) == size <==> b[0] == size && b[1] == 0 && b[2] == 0 && b[3] == 0
  {
  }

  lemma FixedAccepted(reply: Bytes, low: byte, high: byte, size: byte)
    requires |reply| >= 7 + size
    requires var h := ReadResponseHeader(reply);
             IsValidResponse(h, OfTwo(low, high)) <==> h.code == OfTwo(low, high) && h.payloadSize == size
    ensures ReceiveFixed(reply, OfTwo(low, high), size) ==
              if AcceptsFixed(reply, low, high, size) then Some(reply[7..7 + size]) else None
  {
    HeaderRead(reply);
    CodeIs(reply[1], reply[2], low, high);
    SizeIs(reply[3..7], size);
  }

  lemma RegistrationAcceptedIff(reply: Bytes)
    ensures ReceiveRegistration(reply) == if AcceptsFixed(reply, 208, 7, 16) then Some(reply[7..23]) else None
  {
    if |reply| >= 23 {
      FixedAccepted(reply, 208, 7, 16);
    }
  }

  lemma KeyAcceptedIff(reply: Bytes)
    ensures ReceivePublicKey(reply) ==
              if AcceptsFixed(reply, 210, 7, 176) then Some((reply[7..23], reply[23..183])) else None
  {
    if |reply| >= 183 {
      FixedAccepted(reply, 210, 7, 176);
      assert reply[7..183][..16] == reply[7..23] && reply[7..183][16..] == reply[23..183];
    }
  }

  lemma AckAcceptedIff(reply: Bytes)
    ensures ReceiveMessageSent(reply) ==
              if AcceptsFixed(reply, 211, 7, 20) then Some((reply[7..23], OfFour(reply[23..27]))) else None
  {
    if |reply| >= 27 {
      FixedAccepted(reply, 211, 7, 20);
      assert reply[7..27][..16] == reply[7..23] && reply[7..27][16..] == reply[23..27];
      IntegerRead(reply[23..27]);
    }
  }

  lemma PayloadAccepted(reply: Bytes, low: byte, high: byte)
    requires OfTwo(low, high) == GET_CLIENTS_LIST_SUCCESS || OfTwo(low, high) == GET_UNREAD_MESSAGES_SUCCESS
    ensures var size := if |reply| >= 7 then OfFour(reply[3..7]) else 0;
            ReceivePayload(reply, OfTwo(low, high)) ==
              if |reply| >= 1024 && |reply| >= 7 + size && reply[1] == low && reply[2] == high
              then Some(reply[7..7 + size]) else None
  {
    if |reply| >= 1024 {
      HeaderRead(reply);
      CodeIs(reply[1], reply[2], low, high);
      assert reply[7..7] == [];
    }
  }

  /** A payload of any size is accepted exactly when a whole packet and the announced bytes arrive under
      the right code: 2001 for a list, 2004 for a mailbox. */
  lemma PayloadAcceptedIff(reply: Bytes)
    ensures var size := if |reply| >= 7 then OfFour(reply[3..7]) else 0;
            && (ReceivePayload(reply, GET_CLIENTS_LIST_SUCCESS) ==
                  if |reply| >= 1024 && |reply| >= 7 + size && reply[1] == 209 && reply[2] == 7
                  then Some(reply[7..7 + size]) else None)
            && (ReceivePayload(reply, GET_UNREAD_MESSAGES_SUCCESS) ==
                  if |reply| >= 1024 && |reply| >= 7 + size && reply[1] == 212 && reply[2] == 7
                  then Some(reply[7..7 + size]) else None)
  {
    PayloadAccepted(reply, 209, 7);
    PayloadAccepted(reply, 212, 7);
  }

  // ----- the records of a client list

  lemma EntryLayout(e: Entry)
    requires WellFormedEntry(e)
    ensures PackEntry(e) == e.id + Filled(e.name, 255)
  {
    FixedLayout(e.id, 16);
    FixedLayout(e.name, 255);
    assert Filled(e.id, 16) == e.id;
  }

  function ListBytes(es: seq<Entry>): Bytes
    requires forall i :: 0 <= i < |es| ==> WellFormedEntry(es[i])
  {
    if es == [] then []
    else
      assert WellFormedEntry(es[0]);
      (es[0].id + Filled(es[0].name, 255)) + ListBytes(es[1..])
  }

  lemma {:induction false} ListLayout(es: seq<Entry>)
    requires forall i :: 0 <= i < |es| ==> WellFormedEntry(es[i])
    ensures PackEntries(es) == ListBytes(es) && |ListBytes(es)| == 271 * |es|
  {
    if es != [] {
      EntryLayout(es[0]);
      ListLayout(es[1..]);
    }
  }

  /** A name field of 254 bytes that can hold a zero. */
  predicate NameIn(field: Bytes, name: Bytes) {
    name <= field && 0 !in name && (|name| < |field| ==> field[|name|] == 0)
  }

  predicate EntryIn(block: Bytes, e: Entry)
    requires |block| == 271
  {
    e.id == block[..16] && NameIn(block[16..270], e.name)
  }

  lemma EntryRead(block: Bytes)
    requires |block| == 271
    ensures EntryIn(block, ReadEntry(block))
  {
    var field := block[16..270];
    var name := ReadEntry(block).name;
    assert block[16..270] + [0] == field + [0];
    assert (field + [0])[..|name|] == field[..|name|];
  }

  predicate EntriesIn(payload: Bytes, es: seq<Entry>) {
    |payload| == 271 * |es| && forall k :: 0 <= k < |es| ==> EntryIn(payload[271 * k..271 * k + 271], es[k])
  }

  lemma EntriesInStep(payload: Bytes, e: Entry, es: seq<Entry>)
    requires |payload| >= 271 && EntryIn(payload[..271], e) && EntriesIn(payload[271..], es)
    ensures EntriesIn(payload, [e] + es)
  {
    var all := [e] + es;
    forall k | 0 <= k < |all|
      ensures EntryIn(payload[271 * k..271 * k + 271], all[k])
    {
      if k > 0 {
        assert payload[271..][271 * (k - 1)..271 * (k - 1) + 271] == payload[271 * k..271 * k + 271];
        assert all[k] == es[k - 1];
      }
    }
  }

  /** A client-list payload is taken over exactly when it is a whole number of blocks of 271 bytes: 16 for
      the identifier, and a name that ends at the first zero of the following 254. */
  lemma {:induction false} ListReadIff(payload: Bytes)
    ensures ParseEntries(payload).Some? <==> |payload| % 271 == 0
    ensures ParseEntries(payload).Some? ==> EntriesIn(payload, ParseEntries(payload).value)
    decreases |payload|
  {
    if |payload| >= 271 {
      EntryRead(payload[..271]);
      ListReadIff(payload[271..]);
      if ParseEntries(payload[271..]).Some? {
        EntriesInStep(payload, ReadEntry(payload[..271]), ParseEntries(payload[271..]).value);
      }
    }
  }

  lemma OneName(field: Bytes, name: Bytes, name': Bytes)
    requires NameIn(field, name) && NameIn(field, name')
    ensures name == name'
  {
    assert forall i :: 0 <= i < |name| ==> name[i] in name;
    assert forall i :: 0 <= i < |name'| ==> name'[i] in name';
  }

  lemma OneReading(payload: Bytes, es: seq<Entry>, es': seq<Entry>)
    requires EntriesIn(payload, es) && EntriesIn(payload, es')
    ensures es == es'
  {
    forall k | 0 <= k < |es|
      ensures es[k] == es'[k]
    {
      OneName(payload[271 * k..271 * k + 271][16..270], es[k].name, es'[k].name);
    }
  }

  lemma ListPayloadIff(payload: Bytes, es: seq<Entry>)
    ensures ParseEntries(payload) == Some(es) <==> EntriesIn(payload, es)
  {
    ListReadIff(payload);
    if EntriesIn(payload, es) {
      OneReading(payload, es, ParseEntries(payload).value);
    }
  }

  /** Of any bytes whatever, a client takes over a list exactly when a whole packet, the announced bytes and the
      right code arrive, and the announced bytes are whole blocks; it then has what the blocks say. */
  lemma ListReceivedIff(reply: Bytes, es: seq<Entry>)
    ensures ReceiveClientsList(reply) == Some(es) <==>
            && |reply| >= 1024 && reply[1] == 209 && reply[2] == 7
            && var size := OfFour(reply[3..7]);
            && |reply| >= 7 + size && EntriesIn(reply[7..7 + size], es)
  {
    PayloadAcceptedIff(reply);
    if |reply| >= 1024 && |reply| >= 7 + OfFour(reply[3..7]) {
      ListPayloadIff(reply[7..7 + OfFour(reply[3..7])], es);
    }
  }

  // ----- the records of a mailbox

  function RecordBytes(from: Bytes, id: nat, typ: nat, content: Bytes): Bytes {
    from + Four(id) + [typ % 256] + Four(|content|) + content
  }

  lemma RecordLayout(r: Record)
    requires WellFormedRecord(r)
    ensures PackRecord(r) == RecordBytes(r.from, r.id, r.typ, r.content)
  {
    FixedLayout(r.from, 16);
    assert Filled(r.from, 16) == r.from;
    IntegerLayout(r.id);
    IntegerLayout(r.typ);
    IntegerLayout(|r.content|);
  }

  predicate AllWellFormed(rs: seq<Record>) {
    forall i :: 0 <= i < |rs| ==> |rs[i].from| == 16 && rs[i].id < U32 && rs[i].typ < U8 && |rs[i].content| < U32
  }

  function MailboxBytes(rs: seq<Record>): Bytes {
    if rs == [] then [] else RecordBytes(rs[0].from, rs[0].id, rs[0].typ, rs[0].content) + MailboxBytes(rs[1..])
  }

  lemma {:induction false} MailboxLayout(rs: seq<Record>)
    requires AllWellFormed(rs)
    ensures PackRecords(rs) == MailboxBytes(rs)
  {
    if rs != [] {
      RecordLayout(rs[0]);
      MailboxLayout(rs[1..]);
    }
  }

  /** What the parse loop shows: the records that have content. */
  function WithContents(rs: seq<Record>): seq<Record> {
    if rs == [] then [] else if |rs[0].content| == 0 then WithContents(rs[1..]) else [rs[0]] + WithContents(rs[1..])
  }

  lemma {:induction false} NonEmptyAre(rs: seq<Record>)
    ensures NonEmpty(rs) == WithContents(rs)
  {
    if rs != [] {
      NonEmptyAre(rs[1..]);
    }
  }

  lemma RecordFields(b: Bytes)
    requires |b| == 25
    ensures (b[..16] + b[16..20]) + (b[20..21] + b[21..25]) == b
  {
  }

  lemma FieldRebuilt(field: Bytes, value: nat)
    requires |field| == 1 || |field| == 4
    requires Value(field) == value
    ensures value < (if |field| == 1 then U8 else U32) && LittleEndian(|field|, value) == field
  {
    Widths();
    LittleEndianOfValue(field);
  }

  lemma HeaderRebuilt(b: Bytes, r: Record)
    requires |b| == 25 && ReadRecordHeader(b) == (r.from, r.id, r.typ, |r.content|)
    ensures |r.from| == 16 && r.id < U32 && r.typ < U8 && |r.content| < U32 && RecordHeaderBytes(r) == b
  {
    FieldRebuilt(b[16..20], r.id);
    FieldRebuilt(b[20..21], r.typ);
    FieldRebuilt(b[21..25], |r.content|);
    RecordFields(b);
    assert Fixed(16, r.from) == r.from;
  }

  lemma RecordRebuilt(payload: Bytes, p: nat, r: Record, end: nat)
    requires p + 25 <= end <= |payload| && end == p + 25 + |r.content| && r.content == payload[p + 25..end]
    requires ReadRecordHeader(payload[p..p + 25]) == (r.from, r.id, r.typ, |r.content|)
    ensures WellFormedRecord(r) && payload[p..] == PackRecord(r) + payload[end..]
  {
    HeaderRebuilt(payload[p..p + 25], r);
    assert payload[p..] == payload[p..p + 25] + payload[p + 25..end] + payload[end..];
  }

  /** One round of the loop that does not end it. */
  lemma ParsedOne(payload: Bytes, p: nat) returns (r: Record, end: nat)
    requires p < |payload| < U32 && ParseRecords(payload, p).Parsed?
    ensures p < end <= |payload| && WellFormedRecord(r) && payload[p..] == PackRecord(r) + payload[end..]
    ensures ParseRecords(payload, p) == Following(if r.content == [] then [] else [r], ParseRecords(payload, end))
  {
    var (from, id, typ, size) := ReadRecordHeader(payload[p..p + 25]);
    end := p + 25 + size;
    r := Record(from, id, typ, payload[p + 25..end]);
    RecordRebuilt(payload, p, r, end);
    FollowingNothing(ParseRecords(payload, end));
  }

  lemma {:induction false} ParsedIsJoined(payload: Bytes, p: nat) returns (rs: seq<Record>)
    requires p <= |payload| < U32 && ParseRecords(payload, p).Parsed?
    ensures AllWellFormed(rs) && payload[p..] == PackRecords(rs)
    ensures ParseRecords(payload, p).records == NonEmpty(rs)
    decreases |payload| - p
  {
    if p == |payload| {
      rs := [];
    } else {
      var r, end := ParsedOne(payload, p);
      var rest := ParsedIsJoined(payload, end);
      rs := [r] + rest;
      assert rs[1..] == rest;
    }
  }

  /** The parse loop accepts a payload exactly when it is a string of whole records, sender, id, type, size
      and content, and then shows those that have content, in order. */
  lemma MailboxReadIff(payload: Bytes, shown: seq<Record>)
    requires |payload| < U32
    ensures ParseRecords(payload, 0) == Parsed(shown) <==>
            exists rs :: AllWellFormed(rs) && payload == MailboxBytes(rs) && shown == WithContents(rs)
  {
    assert payload[0..] == payload;
    if ParseRecords(payload, 0) == Parsed(shown) {
      var rs := ParsedIsJoined(payload, 0);
      MailboxLayout(rs);
      NonEmptyAre(rs);
    }
    if rs :| AllWellFormed(rs) && payload == MailboxBytes(rs) && shown == WithContents(rs) {
      MailboxLayout(rs);
      NonEmptyAre(rs);
      RecordsRoundTrip(payload, 0, rs);
    }
  }

  predicate AreRecordsIn(payload: Bytes, rs: seq<Record>) {
    AllWellFormed(rs) && payload == MailboxBytes(rs)
  }

  lemma {:induction false} MailboxIsLong(rs: seq<Record>)
    ensures |MailboxBytes(rs)| >= if rs == [] then 0 else 9 + |rs[0].from|
  {
  }

  /** Of any bytes whatever, a client shows messages exactly when a whole packet, the announced bytes and the
      right code arrive, and the announced bytes are whole records; it shows those that have content. */
  lemma UnreadReceivedIff(reply: Bytes, shown: seq<Record>)
    ensures ReceiveUnread(reply) == Some(shown) <==>
            && |reply| >= 1024 && reply[1] == 212 && reply[2] == 7
            && var size := OfFour(reply[3..7]);
            && |reply| >= 7 + size
            && exists rs :: AreRecordsIn(reply[7..7 + size], rs) && shown == WithContents(rs)
  {
    PayloadAcceptedIff(reply);
    if |reply| >= 1024 && |reply| >= 7 + OfFour(reply[3..7]) {
      UnreadPayloadIff(reply[7..7 + OfFour(reply[3..7])], shown);
    }
  }

  lemma UnreadPayloadIff(payload: Bytes, shown: seq<Record>)
    requires |payload| < U32
    ensures (if payload == [] then shown == []
             else |payload| >= RECORD_HEADER_SIZE && ParseRecords(payload, 0) == Parsed(shown)) <==>
            exists rs :: AreRecordsIn(payload, rs) && shown == WithContents(rs)
  {
    MailboxReadIff(payload, shown);
    if rs :| AllWellFormed(rs) && payload == MailboxBytes(rs) && shown == WithContents(rs) {
      MailboxIsLong(rs);
      assert AreRecordsIn(payload, rs);
    }
    if payload == [] && shown == [] {
      assert AreRecordsIn([], []) && WithContents([]) == [];
    }
  }
}
