/** Wire formats: the server's `pack`/`unpack` (Server/protocol.py) and the client's packed
    structs (Client/Protocol.h). A `pack` that fails yields the empty byte string, as in Python. */
module Protocol {
  import opened ByteStrings
  import opened Database

  const PACKET_SIZE: nat := 1024
  const SERVER_VERSION: nat := 2
  const CLIENT_VERSION: nat := 1
  const MESSAGE_ID_SIZE: nat := 4

  const REQUEST_HEADER_SIZE: nat := CLIENT_ID_SIZE + 7
  const RESPONSE_HEADER_SIZE: nat := 7
  const RECORD_HEADER_SIZE: nat := CLIENT_ID_SIZE + 9
  const CLIENT_BLOCK_SIZE: nat := CLIENT_ID_SIZE + NAME_SIZE
  /** Bytes of a send request after the header and before the content. */
  const SEND_PREFIX_SIZE: nat := CLIENT_ID_SIZE + 5

  /** Ends of the fields of a request header, of a response header and of a record header. */
  const VERSION_END: nat := CLIENT_ID_SIZE + 1
  const CODE_END: nat := VERSION_END + 2
  const RESPONSE_VERSION_END: nat := 1
  const RESPONSE_CODE_END: nat := RESPONSE_VERSION_END + 2
  const RECORD_ID_END: nat := CLIENT_ID_SIZE + MESSAGE_ID_SIZE
  const RECORD_TYPE_END: nat := RECORD_ID_END + 1

  /** Ends of the fields behind the header of a request. */
  const NAME_END: nat := REQUEST_HEADER_SIZE + NAME_SIZE
  const RECIPIENT_END: nat := REQUEST_HEADER_SIZE + CLIENT_ID_SIZE
  const TYPE_END: nat := RECIPIENT_END + 1
  const SEND_HEAD_SIZE: nat := REQUEST_HEADER_SIZE + SEND_PREFIX_SIZE

  /** Sizes of the client's structs for the fixed-size replies. */
  const REGISTRATION_REPLY_SIZE: nat := RESPONSE_HEADER_SIZE + CLIENT_ID_SIZE
  const PUBLIC_KEY_REPLY_SIZE: nat := REGISTRATION_REPLY_SIZE + PUBLIC_KEY_SIZE
  const MESSAGE_SENT_REPLY_SIZE: nat := REGISTRATION_REPLY_SIZE + MESSAGE_ID_SIZE

  const REGISTER_CLIENT: nat := 1000
  const GET_CLIENTS_LIST: nat := 1001
  const GET_PUBLIC_KEY: nat := 1002
  const SEND_MESSAGE: nat := 1003
  const GET_UNREAD_MESSAGES: nat := 1004

  const REGISTER_SUCCESS: nat := 2000
  const GET_CLIENTS_LIST_SUCCESS: nat := 2001
  const GET_PUBLIC_KEY_SUCCESS: nat := 2002
  const MESSAGE_SENT_SUCCESS: nat := 2003
  const GET_UNREAD_MESSAGES_SUCCESS: nat := 2004
  const GENERIC_ERROR: nat := 9000

  predicate ValidRequestCode(code: nat) { REGISTER_CLIENT <= code <= GET_UNREAD_MESSAGES }

  const REQUEST_SYM_KEY: nat := 1
  const SEND_SYM_KEY: nat := 2
  const TEXT_MESSAGE: nat := 3
  const FILE_MSG: nat := 4

  predicate ValidMessageType(typ: nat) { REQUEST_SYM_KEY <= typ <= FILE_MSG }

  // ----- requests

  datatype RequestHeader = RequestHeader(clientId: Bytes, version: nat, code: nat, payloadSize: nat)

  predicate FitsRequestHeader(h: RequestHeader) {
    |h.clientId| == CLIENT_ID_SIZE && h.version < U8 && h.code < U16 && h.payloadSize < U32
  }

  /** The client's packed struct as bytes. */
  function RequestHeaderBytes(h: RequestHeader): (b: Bytes)
    requires FitsRequestHeader(h)
    ensures |b| == REQUEST_HEADER_SIZE
  {
    h.clientId + LittleEndian(1, h.version) + LittleEndian(2, h.code) + LittleEndian(4, h.payloadSize)
  }

  function UnpackRequestHeader(data: Bytes): (h: Option<RequestHeader>)
    ensures h.Some? <==> |data| >= REQUEST_HEADER_SIZE
    ensures h.Some? ==> |h.value.clientId| == CLIENT_ID_SIZE
  {
    if |data| < REQUEST_HEADER_SIZE then None
    else Some(RequestHeader(data[..CLIENT_ID_SIZE], Value(data[CLIENT_ID_SIZE..VERSION_END]),
                            Value(data[VERSION_END..CODE_END]), Value(data[CODE_END..REQUEST_HEADER_SIZE])))
  }

  lemma RequestHeaderRoundTrip(h: RequestHeader, rest: Bytes)
    requires FitsRequestHeader(h)
    ensures UnpackRequestHeader(RequestHeaderBytes(h) + rest) == Some(h)
  {
    Widths();
    ValueOfLittleEndian(1, h.version);
    ValueOfLittleEndian(2, h.code);
    ValueOfLittleEndian(4, h.payloadSize);
    var data := RequestHeaderBytes(h) + rest;
    assert data[..CLIENT_ID_SIZE] == h.clientId;
    assert data[CLIENT_ID_SIZE..VERSION_END] == LittleEndian(1, h.version);
    assert data[VERSION_END..CODE_END] == LittleEndian(2, h.code);
    assert data[CODE_END..REQUEST_HEADER_SIZE] == LittleEndian(4, h.payloadSize);
  }

  datatype Registration = Registration(header: RequestHeader, name: Bytes, publicKey: Bytes)

  const REGISTRATION_SIZE: nat := NAME_END + PUBLIC_KEY_SIZE

  /** `handleRegistrationRequest` copies NAME_SIZE bytes from a shorter C string, so that whatever
      lies behind the terminator (`junk`) is sent too. The id field is still zero. */
  function RegistrationBytes(name: Bytes, junk: Bytes, key: Bytes): (b: Bytes)
    requires |name| + 1 + |junk| == NAME_SIZE && |key| == PUBLIC_KEY_SIZE
    ensures |b| == REGISTRATION_SIZE
  {
    RequestHeaderBytes(RequestHeader(Zeros(CLIENT_ID_SIZE), CLIENT_VERSION, REGISTER_CLIENT,
                                     NAME_SIZE + PUBLIC_KEY_SIZE))
    + (name + [0] + junk) + key
  }

  function UnpackRegistration(data: Bytes): (r: Option<Registration>)
    ensures r.Some? ==> 0 !in r.value.name && |r.value.publicKey| == PUBLIC_KEY_SIZE
  {
    if |data| < REGISTRATION_SIZE then None
    else Some(Registration(UnpackRequestHeader(data).value, UntilNul(data[REQUEST_HEADER_SIZE..NAME_END]),
                           data[NAME_END..REGISTRATION_SIZE]))
  }

  lemma RegistrationRoundTrip(name: Bytes, junk: Bytes, key: Bytes, rest: Bytes)
    requires 0 !in name
    requires |name| + 1 + |junk| == NAME_SIZE && |key| == PUBLIC_KEY_SIZE
    ensures var r := UnpackRegistration(RegistrationBytes(name, junk, key) + rest);
            r.Some? && r.value.name == name && r.value.publicKey == key && r.value.header.code == REGISTER_CLIENT
  {
    var h := RequestHeader(Zeros(CLIENT_ID_SIZE), CLIENT_VERSION, REGISTER_CLIENT, NAME_SIZE + PUBLIC_KEY_SIZE);
    var data := RegistrationBytes(name, junk, key) + rest;
    RequestHeaderRoundTrip(h, (name + [0] + junk) + key + rest);
    assert data == RequestHeaderBytes(h) + ((name + [0] + junk) + key + rest);
    assert data[REQUEST_HEADER_SIZE..NAME_END] == name + [0] + junk;
    UntilNulOfTerminated(name, junk);
    assert data[NAME_END..REGISTRATION_SIZE] == key;
  }

  datatype NameRequest = NameRequest(header: RequestHeader, name: Bytes)

  function PublicKeyRequestBytes(id: Bytes, name: Bytes): (b: Bytes)
    requires |id| == CLIENT_ID_SIZE
    ensures |b| == NAME_END
  {
    RequestHeaderBytes(RequestHeader(id, CLIENT_VERSION, GET_PUBLIC_KEY, NAME_SIZE)) + Fixed(NAME_SIZE, name)
  }

  function UnpackPublicKeyRequest(data: Bytes): Option<NameRequest> {
    if |data| < NAME_END then None
    else Some(NameRequest(UnpackRequestHeader(data).value, UntilNul(data[REQUEST_HEADER_SIZE..NAME_END])))
  }

  datatype SendRequest = SendRequest(header: RequestHeader, to: Bytes, typ: nat, content: Bytes)

  predicate FitsSendRequest(r: SendRequest) {
    && FitsRequestHeader(r.header)
    && |r.to| == CLIENT_ID_SIZE && r.typ < U8
    && SEND_HEAD_SIZE + |r.content| < U32
  }

  function SendPrefixBytes(r: SendRequest): (b: Bytes)
    requires FitsSendRequest(r)
    ensures |b| == SEND_HEAD_SIZE
  {
    RequestHeaderBytes(r.header) + r.to + LittleEndian(1, r.typ) + LittleEndian(4, |r.content|)
  }

  /** The intended serialisation of a send request: header, recipient, type, size, content. */
  function SendRequestBytes(r: SendRequest): Bytes
    requires FitsSendRequest(r)
  {
    SendPrefixBytes(r) + r.content
  }

  /** The fixed part of a send request as the server reads it from the first packet: header,
      recipient, type and declared content size. */
  function UnpackSendPrefix(data: Bytes): (p: Option<(RequestHeader, Bytes, nat, nat)>)
    ensures p.Some? ==> |p.value.1| == CLIENT_ID_SIZE && p.value.3 < U32
  {
    Widths();
    if |data| < SEND_HEAD_SIZE then None
    else
      LittleEndianOfValue(data[TYPE_END..SEND_HEAD_SIZE]);
      Some((UnpackRequestHeader(data).value, data[REQUEST_HEADER_SIZE..RECIPIENT_END],
            Value(data[RECIPIENT_END..TYPE_END]), Value(data[TYPE_END..SEND_HEAD_SIZE])))
  }

  lemma SendPrefixRoundTrip(r: SendRequest, rest: Bytes)
    requires FitsSendRequest(r)
    ensures UnpackSendPrefix(SendPrefixBytes(r) + rest) == Some((r.header, r.to, r.typ, |r.content|))
  {
    var tail := r.to + LittleEndian(1, r.typ) + LittleEndian(4, |r.content|) + rest;
    var data := SendPrefixBytes(r) + rest;
    assert data == RequestHeaderBytes(r.header) + tail;
    RequestHeaderRoundTrip(r.header, tail);
    Widths();
    ValueOfLittleEndian(1, r.typ);
    ValueOfLittleEndian(4, |r.content|);
    assert data[REQUEST_HEADER_SIZE..RECIPIENT_END] == r.to;
    assert data[RECIPIENT_END..TYPE_END] == LittleEndian(1, r.typ);
    assert data[TYPE_END..SEND_HEAD_SIZE] == LittleEndian(4, |r.content|);
  }

  // ----- replies

  datatype ResponseHeader = ResponseHeader(version: nat, code: nat, payloadSize: nat)

  function PackResponseHeader(version: nat, code: nat, size: nat): (b: Bytes)
    ensures b == [] || |b| == RESPONSE_HEADER_SIZE
  {
    if version < U8 && code < U16 && size < U32
    then LittleEndian(1, version) + LittleEndian(2, code) + LittleEndian(4, size)
    else []
  }

  /** The client's view of the first seven bytes of a reply. */
  function ReadResponseHeader(b: Bytes): (h: ResponseHeader)
    requires |b| >= RESPONSE_HEADER_SIZE
    ensures h.payloadSize < U32
  {
    Widths();
    LittleEndianOfValue(b[RESPONSE_CODE_END..RESPONSE_HEADER_SIZE]);
    ResponseHeader(Value(b[..RESPONSE_VERSION_END]), Value(b[RESPONSE_VERSION_END..RESPONSE_CODE_END]),
                   Value(b[RESPONSE_CODE_END..RESPONSE_HEADER_SIZE]))
  }

  lemma ResponseHeaderRoundTrip(code: nat, size: nat, rest: Bytes)
    requires code < U16 && size < U32
    ensures var b := PackResponseHeader(SERVER_VERSION, code, size);
            |b| == RESPONSE_HEADER_SIZE && ReadResponseHeader(b + rest) == ResponseHeader(SERVER_VERSION, code, size)
  {
    Widths();
    ValueOfLittleEndian(1, SERVER_VERSION);
    ValueOfLittleEndian(2, code);
    ValueOfLittleEndian(4, size);
    var b := PackResponseHeader(SERVER_VERSION, code, size) + rest;
    assert b[..RESPONSE_VERSION_END] == LittleEndian(1, SERVER_VERSION);
    assert b[RESPONSE_VERSION_END..RESPONSE_CODE_END] == LittleEndian(2, code);
    assert b[RESPONSE_CODE_END..RESPONSE_HEADER_SIZE] == LittleEndian(4, size);
  }

  function PackRegistered(id: Bytes): Bytes {
    PackResponseHeader(SERVER_VERSION, REGISTER_SUCCESS, CLIENT_ID_SIZE) + Fixed(CLIENT_ID_SIZE, id)
  }

  function PackPublicKey(id: Bytes, key: Bytes): Bytes {
    PackResponseHeader(SERVER_VERSION, GET_PUBLIC_KEY_SUCCESS, CLIENT_ID_SIZE + PUBLIC_KEY_SIZE)
    + (Fixed(CLIENT_ID_SIZE, id) + Fixed(PUBLIC_KEY_SIZE, key))
  }

  function PackMessageSent(to: Bytes, msgId: nat): Bytes {
    if msgId < U32
    then PackResponseHeader(SERVER_VERSION, MESSAGE_SENT_SUCCESS, CLIENT_ID_SIZE + MESSAGE_ID_SIZE)
         + (Fixed(CLIENT_ID_SIZE, to) + LittleEndian(4, msgId))
    else []
  }

  /** Refuses an empty payload, besides one that does not fit the size field. */
  function PackClientsList(payload: Bytes): Bytes {
    var h := PackResponseHeader(SERVER_VERSION, GET_CLIENTS_LIST_SUCCESS, |payload|);
    if h == [] || payload == [] then [] else h + payload
  }

  function PackError(): (b: Bytes)
    ensures |b| == RESPONSE_HEADER_SIZE
  {
    PackResponseHeader(SERVER_VERSION, GENERIC_ERROR, 0)
  }

  /** `isValidResponse`: fixed-size replies must announce their exact payload size. */
  predicate IsValidResponse(h: ResponseHeader, expected: nat) {
    && h.code == expected
    && (h.code == REGISTER_SUCCESS ==> h.payloadSize == CLIENT_ID_SIZE)
    && (h.code == GET_PUBLIC_KEY_SUCCESS ==> h.payloadSize == CLIENT_ID_SIZE + PUBLIC_KEY_SIZE)
    && (h.code == MESSAGE_SENT_SUCCESS ==> h.payloadSize == CLIENT_ID_SIZE + MESSAGE_ID_SIZE)
  }

  // ----- the records of a client list

  datatype Entry = Entry(id: Bytes, name: Bytes)

  /** `Client.pack`. */
  function PackEntry(e: Entry): (b: Bytes)
    ensures |b| == CLIENT_BLOCK_SIZE
  {
    Fixed(CLIENT_ID_SIZE, e.id) + Fixed(NAME_SIZE, e.name)
  }

  function PackEntries(es: seq<Entry>): (b: Bytes)
    ensures |b| == CLIENT_BLOCK_SIZE * |es|
  {
    if es == [] then [] else PackEntry(es[0]) + PackEntries(es[1..])
  }

  /** One 271-byte block as the client copies it: the last name byte is overwritten by NUL. */
  function ReadEntry(b: Bytes): (e: Entry)
    requires |b| == CLIENT_BLOCK_SIZE
    ensures WellFormedEntry(e)
  {
    var name := b[CLIENT_ID_SIZE..CLIENT_BLOCK_SIZE - 1] + [0];
    assert name[NAME_SIZE - 1] == 0;
    Entry(b[..CLIENT_ID_SIZE], UntilNul(name))
  }

  /** `None` stands for reading behind the end of the payload. */
  function ParseEntries(payload: Bytes): (es: Option<seq<Entry>>)
    ensures es.Some? ==> forall i :: 0 <= i < |es.value| ==> WellFormedEntry(es.value[i])
  {
    if payload == [] then Some([])
    else if |payload| < CLIENT_BLOCK_SIZE then None
    else
      FollowingEntries([ReadEntry(payload[..CLIENT_BLOCK_SIZE])], ParseEntries(payload[CLIENT_BLOCK_SIZE..]))
  }

  /** The outcome after the entries `done` have been read. */
  function FollowingEntries(done: seq<Entry>, rest: Option<seq<Entry>>): Option<seq<Entry>> {
    if rest.None? then None else Some(done + rest.value)
  }

  lemma FollowingNoEntries(rest: Option<seq<Entry>>)
    ensures FollowingEntries([], rest) == rest
  {
    if rest.Some? {
      assert [] + rest.value == rest.value;
    }
  }

  lemma FollowingEntriesBoth(a: seq<Entry>, b: seq<Entry>, rest: Option<seq<Entry>>)
    ensures FollowingEntries(a, FollowingEntries(b, rest)) == FollowingEntries(a + b, rest)
  {
    if rest.Some? {
      assert a + (b + rest.value) == (a + b) + rest.value;
    }
  }

  lemma EntriesAt(payload: Bytes, p: nat)
    requires p + CLIENT_BLOCK_SIZE <= |payload|
    ensures ParseEntries(payload[p..]) ==
              FollowingEntries([ReadEntry(payload[p..p + CLIENT_BLOCK_SIZE])],
                               ParseEntries(payload[p + CLIENT_BLOCK_SIZE..]))
  {
    assert payload[p..][..CLIENT_BLOCK_SIZE] == payload[p..p + CLIENT_BLOCK_SIZE];
    assert payload[p..][CLIENT_BLOCK_SIZE..] == payload[p + CLIENT_BLOCK_SIZE..];
  }

  predicate WellFormedEntry(e: Entry) {
    |e.id| == CLIENT_ID_SIZE && |e.name| < NAME_SIZE && 0 !in e.name
  }

  lemma EntryRoundTrip(e: Entry)
    requires WellFormedEntry(e)
    ensures ReadEntry(PackEntry(e)) == e
  {
    var b := PackEntry(e);
    assert b[..CLIENT_ID_SIZE] == e.id;
    assert b[CLIENT_ID_SIZE..CLIENT_BLOCK_SIZE - 1] + [0] == e.name + [0] + Zeros(NAME_SIZE - 1 - |e.name|);
    UntilNulOfTerminated(e.name, Zeros(NAME_SIZE - 1 - |e.name|));
  }

  /** Client-list codec: every list of well-formed entries is read back, each once and in order. */
  lemma {:induction false} EntriesRoundTrip(es: seq<Entry>)
    requires forall i :: 0 <= i < |es| ==> WellFormedEntry(es[i])
    ensures ParseEntries(PackEntries(es)) == Some(es)
  {
    if es != [] {
      EntryRoundTrip(es[0]);
      EntriesRoundTrip(es[1..]);
      var b := PackEntries(es);
      assert b[..CLIENT_BLOCK_SIZE] == PackEntry(es[0]);
      assert b[CLIENT_BLOCK_SIZE..] == PackEntries(es[1..]);
      assert [es[0]] + es[1..] == es;
    }
  }

  // ----- the records of a mailbox

  datatype Record = Record(from: Bytes, id: nat, typ: nat, content: Bytes)

  predicate Packable(r: Record) { r.id < U32 && r.typ < U8 && |r.content| < U32 }

  function RecordHeaderBytes(r: Record): (b: Bytes)
    ensures |b| == RECORD_HEADER_SIZE
  {
    (Fixed(CLIENT_ID_SIZE, r.from) + LittleEndian(4, r.id)) + (LittleEndian(1, r.typ) + LittleEndian(4, |r.content|))
  }

  /** `Message.pack`. */
  function PackRecord(r: Record): (b: Bytes)
    ensures b == [] <==> !Packable(r)
    ensures Packable(r) ==> |b| == RECORD_HEADER_SIZE + |r.content|
  {
    if Packable(r) then RecordHeaderBytes(r) + r.content else []
  }

  predicate AllPackable(rs: seq<Record>) { forall i :: 0 <= i < |rs| ==> Packable(rs[i]) }

  function PackRecords(rs: seq<Record>): Bytes {
    if rs == [] then [] else PackRecord(rs[0]) + PackRecords(rs[1..])
  }

  /** The client's struct copy of a 25-byte record header: sender, id, type, size. */
  function ReadRecordHeader(b: Bytes): (Bytes, nat, nat, nat)
    requires |b| == RECORD_HEADER_SIZE
  {
    (b[..CLIENT_ID_SIZE], Value(b[CLIENT_ID_SIZE..RECORD_ID_END]), Value(b[RECORD_ID_END..RECORD_TYPE_END]),
     Value(b[RECORD_TYPE_END..RECORD_HEADER_SIZE]))
  }

  /** What the client's parse loop comes to: the records it shows, a refusal, or an access behind
      the end of the payload. */
  datatype Parse = Parsed(records: seq<Record>) | Rejected | OutOfBounds

  /** Addition on `uint32_t`, which `size_t` is too where the client compiles. */
  function WrapAdd(a: nat, b: nat): (r: nat)
    ensures a + b < U32 ==> r == a + b
  {
    (a + b) % U32
  }

  /** The parse loop from position `p` of the payload on. Records with empty content are skipped. The
      bound check wraps and leaves the record header out. */
  function ParseRecords(payload: Bytes, p: nat): Parse
    requires p <= |payload|
    decreases |payload| - p
  {
    if p == |payload| then Parsed([])
    else if p + RECORD_HEADER_SIZE > |payload| then OutOfBounds
    else
      var body := p + RECORD_HEADER_SIZE;
      var (from, id, typ, size) := ReadRecordHeader(payload[p..body]);
      if size == 0 then ParseRecords(payload, body)
      else if WrapAdd(p, size) > |payload| then Rejected
      else if body + size > |payload| then OutOfBounds
      else Following([Record(from, id, typ, payload[body..body + size])], ParseRecords(payload, body + size))
  }

  /** The outcome after the records `shown` have been read. */
  function Following(shown: seq<Record>, r: Parse): Parse {
    if r.Parsed? then Parsed(shown + r.records) else r
  }

  lemma FollowingNothing(r: Parse)
    ensures Following([], r) == r
  {
    if r.Parsed? {
      assert [] + r.records == r.records;
    }
  }

  lemma FollowingBoth(a: seq<Record>, b: seq<Record>, r: Parse)
    ensures Following(a, Following(b, r)) == Following(a + b, r)
  {
    if r.Parsed? {
      assert a + (b + r.records) == (a + b) + r.records;
    }
  }

  function NonEmpty(rs: seq<Record>): seq<Record> {
    if rs == [] then [] else (if rs[0].content == [] then [] else [rs[0]]) + NonEmpty(rs[1..])
  }

  predicate WellFormedRecord(r: Record) { Packable(r) && |r.from| == CLIENT_ID_SIZE }

  lemma RecordHeaderFields(from: Bytes, id: Bytes, typ: Bytes, size: Bytes)
    requires |from| == CLIENT_ID_SIZE && |id| == MESSAGE_ID_SIZE && |typ| == 1 && |size| == 4
    ensures var h := (from + id) + (typ + size);
            ReadRecordHeader(h) == (from, Value(id), Value(typ), Value(size))
  {
    var h := (from + id) + (typ + size);
    FourParts(from, id, typ, size);
    assert h[RECORD_TYPE_END..RECORD_HEADER_SIZE] == h[RECORD_TYPE_END..];
  }

  lemma RecordHeaderRoundTrip(r: Record)
    requires WellFormedRecord(r)
    ensures ReadRecordHeader(RecordHeaderBytes(r)) == (r.from, r.id, r.typ, |r.content|)
  {
    Widths();
    ValueOfLittleEndian(4, r.id);
    ValueOfLittleEndian(1, r.typ);
    ValueOfLittleEndian(4, |r.content|);
    assert Fixed(CLIENT_ID_SIZE, r.from) == r.from;
    RecordHeaderFields(r.from, LittleEndian(4, r.id), LittleEndian(1, r.typ), LittleEndian(4, |r.content|));
  }

  lemma SliceBehind(s: Bytes, p: nat, first: Bytes, rest: Bytes)
    requires p <= |s| && s[p..] == first + rest
    ensures p + |first| <= |s| && s[p..p + |first|] == first && s[p + |first|..] == rest
  {
    assert s[p..p + |first|] == s[p..][..|first|];
    assert s[p + |first|..] == s[p..][|first|..];
  }

  lemma RecordSlices(payload: Bytes, p: nat, r: Record, rest: Bytes)
    requires p <= |payload| && payload[p..] == PackRecord(r) + rest && Packable(r)
    ensures var body := p + RECORD_HEADER_SIZE;
            var end := body + |r.content|;
            && end <= |payload| && payload[end..] == rest
            && payload[p..body] == RecordHeaderBytes(r) && payload[body..end] == r.content
  {
    var h := RecordHeaderBytes(r);
    assert PackRecord(r) + rest == h + (r.content + rest);
    SliceBehind(payload, p, h, r.content + rest);
    SliceBehind(payload, p + RECORD_HEADER_SIZE, r.content, rest);
  }

  /** One round of the parse loop on a packed record. */
  lemma RecordParsed(payload: Bytes, p: nat, r: Record, rest: Bytes) returns (end: nat)
    requires p <= |payload| < U32 && payload[p..] == PackRecord(r) + rest && WellFormedRecord(r)
    ensures p < end <= |payload| && payload[end..] == rest
    ensures ParseRecords(payload, p) == Following(if r.content == [] then [] else [r], ParseRecords(payload, end))
  {
    end := p + RECORD_HEADER_SIZE + |r.content|;
    RecordSlices(payload, p, r, rest);
    RecordHeaderRoundTrip(r);
    FollowingNothing(ParseRecords(payload, end));
  }

  /** The parse loop inverts the packer on every mailbox, up to messages without content; in
      particular it neither refuses nor leaves the payload. */
  lemma {:induction false} RecordsRoundTrip(payload: Bytes, p: nat, rs: seq<Record>)
    requires p <= |payload| < U32 && payload[p..] == PackRecords(rs)
    requires forall i :: 0 <= i < |rs| ==> WellFormedRecord(rs[i])
    ensures ParseRecords(payload, p) == Parsed(NonEmpty(rs))
    decreases |rs|
  {
    if rs != [] {
      var end := RecordParsed(payload, p, rs[0], PackRecords(rs[1..]));
      RecordsRoundTrip(payload, end, rs[1..]);
    }
  }
}
