/** A client's own state and what each exchange does to it (Client/Client.cpp). */
module ClientStates {
  import opened ByteStrings
  import opened Database
  import opened Protocol
  import opened ClientSpec
  import opened Profiles

  /** `file` is the profile file, if there is one; `reloaded` records that the identity was read from it
      rather than received, and `intact` that enough of it is on the disk. */
  datatype ClientState = ClientState(registered: bool, reloaded: bool, intact: bool, name: Bytes, id: Bytes,
                                     publicKey: Bytes, privateKey: Bytes, directory: seq<Entry>, file: Option<Bytes>)

  /** A program started without a profile file. */
  const NEWCOMER: ClientState :=
    ClientState(false, false, false, [], Zeros(CLIENT_ID_SIZE), Zeros(PUBLIC_KEY_SIZE), [], [], None)

  /** `handleRegistrationRequest` after the reply, with the profile saved as far as `saving`. */
  function AfterRegistration(c: ClientState, name: Bytes, key: Bytes, privateKey: Bytes, reply: Bytes, saving: Saving)
    : ClientState
  {
    var id := ReceiveRegistration(reply);
    if id.None? then c
    else
      var p := Profile(name, id.value, privateKey);
      ClientState(saving.opens >= 3, false, Covers(p, saving), name, id.value, key, privateKey, c.directory,
                  FileAfter(c.file, p, saving))
  }

  /** `handleClientsListRequest` after the reply: a failure leaves the old directory. */
  function AfterList(c: ClientState, reply: Bytes): ClientState {
    var es := ReceiveClientsList(reply);
    if es.None? then c else c.(directory := es.value)
  }

  /** What a program finds on its disk. */
  function OnDisk(c: ClientState): Option<Profile> {
    if c.file.None? then None else Load(c.file.value)
  }

  /** The constructor. A profile file that does not load, that cannot be read, or whose key the RSA
      library refuses (both `!accepted`), ends the program, and only the file is left. The public key
      is not part of the profile. */
  function AfterRestart(c: ClientState, accepted: bool): ClientState {
    var p := OnDisk(c);
    if p.None? || !accepted then NEWCOMER.(file := c.file)
    else ClientState(true, true, true, p.value.name, p.value.id, Zeros(PUBLIC_KEY_SIZE), p.value.privateKey, [], c.file)
  }

  function HeaderOf(c: ClientState, code: nat, size: nat): RequestHeader {
    RequestHeader(c.id, CLIENT_VERSION, code, size)
  }

  /** A request that is only a header. */
  function BareRequest(c: ClientState, code: nat): Bytes
    requires |c.id| == CLIENT_ID_SIZE && code < U16
  {
    RequestHeaderBytes(HeaderOf(c, code, 0))
  }

  /** What `handleSendMsgRequest` sends: nothing when the name is not in the directory or is the
      client's own, or when a number does not fit its field. */
  function SendRequestOf(c: ClientState, name: Bytes, typ: nat, payloadSize: nat, content: Bytes)
    : (r: Option<SendRequest>)
    requires |c.id| == CLIENT_ID_SIZE
    ensures r.Some? ==> FitsSendRequest(r.value)
  {
    var e := FindByName(c.directory, name);
    if e.None? || e.value.id == c.id then None
    else
      var r := SendRequest(HeaderOf(c, SEND_MESSAGE, payloadSize), e.value.id, typ, content);
      if FitsSendRequest(r) then Some(r) else None
  }

  /** What `handleSendMsgRequest` does once the directory is refreshed: nothing, a send, or a key
      request and then a send. */
  datatype SendPlan = Nothing | Plain(r: SendRequest) | AfterKey(r: SendRequest)

  /** `text` is what the user types for a text message or a file. The keys of directory entries are
      never filled in, so that a symmetric key is never sent without asking for the recipient's public
      key first. */
  function PlanFor(r: SendRequest, text: Bytes): (p: SendPlan)
    ensures p != Nothing ==> p.r == r
  {
    if !ValidMessageType(r.typ) || (r.typ >= TEXT_MESSAGE && text == []) then Nothing
    else if r.typ == SEND_SYM_KEY then AfterKey(r) else Plain(r)
  }

  /** "Request for symmetric key". */
  const KEY_REQUEST_TEXT: Bytes :=
    [82, 101, 113, 117, 101, 115, 116, 32, 102, 111, 114, 32, 115, 121, 109, 109, 101, 116, 114, 105, 99, 32,
     107, 101, 121]

  /** The content of a message: a fixed text, nothing for a symmetric key, which is generated and not put
      into the message, and otherwise what encryption makes of the text. */
  function ContentFor(typ: nat, encrypted: Bytes): Bytes {
    if typ == REQUEST_SYM_KEY then KEY_REQUEST_TEXT else if typ == SEND_SYM_KEY then [] else encrypted
  }

  /** The payload size is announced with texts and files only. */
  function AnnouncedSize(typ: nat, content: Bytes): nat {
    if typ == TEXT_MESSAGE || typ == FILE_MSG then SEND_PREFIX_SIZE + |content| else 0
  }

  function PlanSend(c: ClientState, name: Bytes, typ: nat, text: Bytes, encrypted: Bytes): (p: SendPlan)
    requires |c.id| == CLIENT_ID_SIZE
    ensures p != Nothing ==> FitsSendRequest(p.r)
  {
    var content := ContentFor(typ, encrypted);
    var r := SendRequestOf(c, name, typ, AnnouncedSize(typ, content), content);
    if r.None? then Nothing else PlanFor(r.value, text)
  }

  /** `getClient` by name, selector 1. */
  function FindByName(dir: seq<Entry>, name: Bytes): (e: Option<Entry>)
    ensures e.Some? ==> e.value in dir && e.value.name == name
    ensures e.None? ==> forall i :: 0 <= i < |dir| ==> dir[i].name != name
  {
    if dir == [] then None else if dir[0].name == name then Some(dir[0]) else FindByName(dir[1..], name)
  }

  /** `getClient` by identifier, selector 2. */
  function FindById(dir: seq<Entry>, id: Bytes): (e: Option<Entry>)
    ensures e.Some? ==> e.value in dir && e.value.id == id
    ensures e.None? ==> forall i :: 0 <= i < |dir| ==> dir[i].id != id
  {
    if dir == [] then None else if dir[0].id == id then Some(dir[0]) else FindById(dir[1..], id)
  }
}
