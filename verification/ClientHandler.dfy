/** The client object (Client/Client.cpp), proved to compute `ClientSpec` and `ClientStates`. */
module Clients {
  import opened ByteStrings
  import opened Database
  import opened Protocol
  import opened Sockets
  import opened ClientSpec
  import opened Profiles
  import opened ClientStates
  import opened Sending

  class ClientHandler {
    var registered: bool
    ghost var reloaded: bool
    ghost var intact: bool
    var name: Bytes
    var clientId: Bytes
    var publicKey: Bytes
    var privateKey: Bytes
    var directory: seq<Entry>
    const socket: SocketHandler
    const files: FileHandler

    ghost function View(): ClientState
      reads this, files
    {
      ClientState(registered, reloaded, intact, name, clientId, publicKey, privateKey, directory, files.File())
    }

    ghost predicate Valid()
      reads this, files
    {
      && files.Valid() && !files.isOpen && |clientId| == CLIENT_ID_SIZE
      && forall i :: 0 <= i < |directory| ==> |directory[i].id| == CLIENT_ID_SIZE
    }

    constructor (socket: SocketHandler, files: FileHandler)
      requires files.Valid() && !files.isOpen
      ensures this.socket == socket && this.files == files
      ensures Valid() && View() == NEWCOMER.(file := files.File())
    {
      this.socket, this.files := socket, files;
      registered, reloaded, intact, name, clientId := false, false, false, [], Zeros(CLIENT_ID_SIZE);
      publicKey, privateKey, directory := Zeros(PUBLIC_KEY_SIZE), [], [];
    }

    method Adopt(p: Profile)
      modifies this
      ensures View() == ClientState(true, true, true, p.name, p.id, old(publicKey), p.privateKey, old(directory),
                                    files.File())
      ensures (publicKey, directory) == (old(publicKey), old(directory))
    {
      name, clientId, privateKey, registered, reloaded, intact := p.name, p.id, p.privateKey, true, true, true;
    }

    /** The constructor's second half: a profile file that exists, even an empty one, must load, and the
        RSA library must accept its key; the source ends the program where the result is false. */
    method Start(accepted: bool) returns (ok: bool)
      requires Valid() && View() == NEWCOMER.(file := files.File())
      modifies this, files`isOpen, files`pos
      ensures ok ==> Valid()
      ensures ok == (files.File() == None || (OnDisk(View()).Some? && accepted))
      ensures View() == AfterRestart(old(View()), accepted)
    {
      if !files.present {
        return true;
      }
      var p := files.GetClientInfo();
      if p.None? || !accepted {
        return false;
      }
      Adopt(p.value);
      return true;
    }

    method RequestRegistration(request: Bytes, link: Link) returns (id: Option<Bytes>)
      modifies socket
      ensures socket.written == old(socket.written) + [OnWire(request, link)]
      ensures id == if Delivered(request, link) then ReceiveRegistration(link.reply) else None
    {
      var response := new byte[RESPONSE_HEADER_SIZE + CLIENT_ID_SIZE];
      var got := socket.SocketWrapper(request, response, response.Length, true, link);
      if !got {
        return None;
      }
      assert response[..] == response[..response.Length] == link.reply[..REGISTRATION_REPLY_SIZE];
      HeaderOfPrefix(link.reply, REGISTRATION_REPLY_SIZE);
      if !IsValidResponse(ReadResponseHeader(response[..]), REGISTER_SUCCESS) {
        return None;
      }
      assert link.reply[RESPONSE_HEADER_SIZE..REGISTRATION_REPLY_SIZE] == response[RESPONSE_HEADER_SIZE..];
      return Some(response[RESPONSE_HEADER_SIZE..]);
    }

    /** The end of `handleRegistrationRequest`: the new identity is taken over and saved. */
    method Take(name: Bytes, id: Bytes, key: Bytes, privateKey: Bytes) returns (ok: bool)
      requires Valid() && !registered && |id| == CLIENT_ID_SIZE
      modifies this, files
      ensures Valid()
      ensures var p := Profile(name, id, privateKey);
              var saving := files.SavingOf(p, old(files.attempts));
              && ok == (saving.opens == 3)
              && View() == ClientState(ok, false, Covers(p, saving), name, id, key, privateKey, old(directory),
                                       FileAfter(old(files.File()), p, saving))
    {
      this.name, clientId, publicKey, this.privateKey := name, id, key, privateKey;
      var p := Profile(name, clientId, privateKey);
      reloaded, intact := false, Covers(p, files.SavingOf(p, files.attempts));
      ok := files.SetClientInfo(p);
      registered := ok;
    }

    /** `name` comes from an input loop that ends with a valid name; `junk` is what lies in memory
        behind it; the key pair is freshly drawn. */
    method HandleRegistrationRequest(name: Bytes, junk: Bytes, key: Bytes, privateKey: Bytes, link: Link)
      returns (ok: bool)
      requires Valid() && ValidUsername(name) && |name| + 1 + |junk| == NAME_SIZE
      modifies this, socket, files
      ensures Valid()
      ensures old(registered) ==> ok && View() == old(View())
      ensures !old(registered) && |key| != PUBLIC_KEY_SIZE ==> !ok && View() == old(View())
      ensures socket.written == old(socket.written) +
                if old(registered) || |key| != PUBLIC_KEY_SIZE then []
                else [OnWire(RegistrationBytes(name, junk, key), link)]
      ensures !old(registered) && |key| == PUBLIC_KEY_SIZE ==>
                var delivered := Delivered(RegistrationBytes(name, junk, key), link);
                var id := if delivered then ReceiveRegistration(link.reply) else None;
                if id.None? then !ok && View() == old(View())
                else
                  var saving := files.SavingOf(Profile(name, id.value, privateKey), old(files.attempts));
                  && View() == AfterRegistration(old(View()), name, key, privateKey, link.reply, saving)
                  && ok == (saving.opens == 3)
    {
      if registered {
        return true;
      }
      if |key| != PUBLIC_KEY_SIZE {
        return false;
      }
      var id := RequestRegistration(RegistrationBytes(name, junk, key), link);
      if id.None? {
        return false;
      }
      ok := Take(name, id.value, key, privateKey);
    }

    /** The loop that reads what the first packet did not hold: `have` bytes of `stream` are in place,
        and each read takes the next packet. */
    method ReadRest(payload: array<byte>, buffer: array<byte>, have: nat, ghost stream: Bytes) returns (ok: bool)
      requires buffer != payload && buffer.Length == PACKET_SIZE
      requires have <= payload.Length && have <= |stream| && payload[..have] == stream[..have]
      requires socket.isConnected && socket.incoming == stream[have..]
      modifies socket, payload, buffer
      ensures socket.written == old(socket.written)
      ensures ok == (|stream| >= payload.Length)
      ensures ok ==> payload[..] == stream[..payload.Length]
    {
      ghost var before := payload[..];
      var totalRead := have;
      while totalRead < payload.Length
        invariant have <= totalRead <= payload.Length && totalRead <= |stream|
        invariant socket.written == old(socket.written)
        invariant payload[..totalRead] == stream[..totalRead]
        invariant payload[totalRead..] == before[totalRead..]
        invariant totalRead < payload.Length ==> socket.isConnected && socket.incoming == stream[totalRead..]
      {
        var toRead := Min(PACKET_SIZE, payload.Length - totalRead);
        ok := socket.Read(buffer, toRead);
        if !ok {
          socket.CloseSocket();
          return;
        }
        assert buffer[..toRead] == stream[totalRead..][..toRead] == stream[totalRead..totalRead + toRead];
        CopyInto(payload, totalRead, buffer[..toRead], stream, before);
        totalRead := totalRead + toRead;
      }
      socket.CloseSocket();
      ok := true;
    }

    /** Sends a bare request and rebuilds a payload of unknown size: the first packet holds its
        beginning, further packets the rest. */
    method HandelUnkownPayloadRequest(request: Bytes, expected: nat, link: Link)
      returns (ok: bool, payload: array<byte>)
      modifies socket
      ensures fresh(payload) && socket.written == old(socket.written) + [OnWire(request, link)]
      ensures ok == (Delivered(request, link) && ReceivePayload(link.reply, expected).Some?)
      ensures ok ==> payload[..] == ReceivePayload(link.reply, expected).value
    {
      ghost var reply := link.reply;
      payload := new byte[0];
      var buffer := new byte[PACKET_SIZE];
      ok := socket.SocketWrapper(request, buffer, PACKET_SIZE, false, link);
      if !ok {
        return;
      }
      assert buffer[..] == buffer[..PACKET_SIZE] == reply[..PACKET_SIZE];
      HeaderOfPrefix(reply, PACKET_SIZE);
      var header := ReadResponseHeader(buffer[..]);
      if !IsValidResponse(header, expected) {
        return false, payload;
      }
      var payloadSize := header.payloadSize;
      if payloadSize == 0 {
        return true, payload;
      }
      payload := new byte[payloadSize];
      ghost var stream := reply[RESPONSE_HEADER_SIZE..];
      var toRead := Min(PACKET_SIZE - RESPONSE_HEADER_SIZE, payloadSize);
      ghost var end := RESPONSE_HEADER_SIZE + toRead;
      assert buffer[RESPONSE_HEADER_SIZE..end] == buffer[..][RESPONSE_HEADER_SIZE..end]
             == reply[RESPONSE_HEADER_SIZE..end] == stream[0..toRead];
      CopyInto(payload, 0, buffer[RESPONSE_HEADER_SIZE..RESPONSE_HEADER_SIZE + toRead], stream, payload[..]);
      if toRead < payloadSize {
        ok := ReadRest(payload, buffer, toRead, stream);
      } else {
        socket.CloseSocket();
      }
      assert |reply| >= RESPONSE_HEADER_SIZE + payloadSize ==>
               stream[..payloadSize] == reply[RESPONSE_HEADER_SIZE..RESPONSE_HEADER_SIZE + payloadSize];
      assert payload[..payloadSize] == payload[..];
    }

    /** A payload that is not a whole number of blocks, which no server reply has, makes the source
        read behind it; here the directory is kept. */
    method HandleClientsListRequest(link: Link) returns (ok: bool)
      requires Valid()
      modifies this`directory, socket
      ensures Valid()
      ensures var request := BareRequest(old(View()), GET_CLIENTS_LIST);
              && socket.written == old(socket.written) + [OnWire(request, link)]
              && ok == (Delivered(request, link) && ReceiveClientsList(link.reply).Some?)
              && View() == if Delivered(request, link) then AfterList(old(View()), link.reply) else old(View())
      ensures !ok ==> directory == old(directory)
    {
      var payload;
      var request := RequestHeaderBytes(RequestHeader(clientId, CLIENT_VERSION, GET_CLIENTS_LIST, 0));
      ok, payload := HandelUnkownPayloadRequest(request, GET_CLIENTS_LIST_SUCCESS, link);
      if !ok {
        return;
      }
      var entries := ParseEntriesOf(payload[..]);
      if entries.None? {
        return false;
      }
      directory := entries.value;
    }

    method ParseEntriesOf(payload: Bytes) returns (entries: Option<seq<Entry>>)
      ensures entries == ParseEntries(payload)
    {
      var bytesRead: nat, clients: seq<Entry> := 0, [];
      assert payload[0..] == payload;
      FollowingNoEntries(ParseEntries(payload));
      while bytesRead < |payload|
        invariant bytesRead <= |payload|
        invariant FollowingEntries(clients, ParseEntries(payload[bytesRead..])) == ParseEntries(payload)
      {
        if |payload| - bytesRead < CLIENT_BLOCK_SIZE {
          return None;
        }
        EntriesAt(payload, bytesRead);
        var temp := ReadEntry(payload[bytesRead..bytesRead + CLIENT_BLOCK_SIZE]);
        FollowingEntriesBoth(clients, [temp], ParseEntries(payload[bytesRead + CLIENT_BLOCK_SIZE..]));
        clients := clients + [temp];
        bytesRead := bytesRead + CLIENT_BLOCK_SIZE;
      }
      assert clients + [] == clients;
      return Some(clients);
    }

    /** The parse loop, with the pointer `p` and the 32-bit counter `bytesRead` moving in step. The
        result tells what is shown; where the source would read behind the payload, it is false. */
    method HandleGetUnreadMessages(link: Link) returns (ok: bool, shown: seq<Record>)
      requires Valid()
      modifies socket
      ensures var request := BareRequest(View(), GET_UNREAD_MESSAGES);
              && socket.written == old(socket.written) + [OnWire(request, link)]
              && ok == (Delivered(request, link) && ReceiveUnread(link.reply).Some?)
              && (ok ==> shown == ReceiveUnread(link.reply).value)
    {
      var payload;
      shown := [];
      var request := RequestHeaderBytes(RequestHeader(clientId, CLIENT_VERSION, GET_UNREAD_MESSAGES, 0));
      ok, payload := HandelUnkownPayloadRequest(request, GET_UNREAD_MESSAGES_SUCCESS, link);
      if !ok {
        return;
      }
      if payload.Length == 0 {
        return true, [];
      }
      if payload.Length < RECORD_HEADER_SIZE {
        return false, [];
      }
      ok, shown := ParsePayload(payload[..]);
    }

    method ParsePayload(payload: Bytes) returns (ok: bool, shown: seq<Record>)
      requires |payload| < U32
      ensures ok == ParseRecords(payload, 0).Parsed?
      ensures ok ==> shown == ParseRecords(payload, 0).records
    {
      shown := [];
      var p, bytesRead := 0, 0;
      ghost var whole := ParseRecords(payload, 0);
      ghost var rest := whole;
      FollowingNothing(rest);
      while bytesRead < |payload|
        invariant p == bytesRead <= |payload|
        invariant rest == ParseRecords(payload, p) && Following(shown, rest) == whole
      {
        if p + RECORD_HEADER_SIZE > |payload| {
          return false, [];
        }
        var (from, id, typ, msgSize) := ReadRecordHeader(payload[p..p + RECORD_HEADER_SIZE]);
        p := p + RECORD_HEADER_SIZE;
        if msgSize == 0 {
          bytesRead := WrapAdd(bytesRead, RECORD_HEADER_SIZE);
          continue;
        } else if WrapAdd(bytesRead, msgSize) > |payload| {
          return false, [];
        }
        if p + msgSize > |payload| {
          return false, [];
        }
        var record := Record(from, id, typ, payload[p..p + msgSize]);
        rest := ParseRecords(payload, p + msgSize);
        FollowingBoth(shown, [record], rest);
        shown := shown + [record];
        p := p + msgSize;
        bytesRead := WrapAdd(bytesRead, RECORD_HEADER_SIZE + msgSize);
      }
      ok := true;
    }

    /** The identifier and key of a name. */
    method HandleGetPublicKeyRequest(name: Bytes, link: Link) returns (r: Option<(Bytes, Bytes)>)
      requires Valid()
      modifies socket
      ensures var request := PublicKeyRequestBytes(clientId, name);
              && socket.written == old(socket.written) + [OnWire(request, link)]
              && r == if Delivered(request, link) then ReceivePublicKey(link.reply) else None
    {
      var response := new byte[RESPONSE_HEADER_SIZE + CLIENT_ID_SIZE + PUBLIC_KEY_SIZE];
      var got := socket.SocketWrapper(PublicKeyRequestBytes(clientId, name), response, response.Length, true, link);
      if !got {
        return None;
      }
      assert response[..] == response[..response.Length] == link.reply[..PUBLIC_KEY_REPLY_SIZE];
      HeaderOfPrefix(link.reply, PUBLIC_KEY_REPLY_SIZE);
      if !IsValidResponse(ReadResponseHeader(response[..]), GET_PUBLIC_KEY_SUCCESS) {
        return None;
      }
      ghost var both := link.reply[RESPONSE_HEADER_SIZE..PUBLIC_KEY_REPLY_SIZE];
      assert both == response[RESPONSE_HEADER_SIZE..PUBLIC_KEY_REPLY_SIZE];
      var id := response[RESPONSE_HEADER_SIZE..REGISTRATION_REPLY_SIZE];
      var key := response[REGISTRATION_REPLY_SIZE..PUBLIC_KEY_REPLY_SIZE];
      assert both[..CLIENT_ID_SIZE] == id && both[CLIENT_ID_SIZE..] == key;
      return Some((id, key));
    }

    /** Sends the intended bytes; acknowledged or not. */
    method Deliver(r: SendRequest, link: Link) returns (ok: bool)
      requires FitsSendRequest(r)
      modifies socket
      ensures ok == (Delivered(SendRequestBytes(r), link) && ReceiveMessageSent(link.reply).Some?)
      ensures socket.written == old(socket.written) + [OnWire(SendRequestBytes(r), link)]
    {
      var response := new byte[RESPONSE_HEADER_SIZE + CLIENT_ID_SIZE + MESSAGE_ID_SIZE];
      var got := socket.SocketWrapper(SendRequestBytes(r), response, response.Length, true, link);
      if !got {
        return false;
      }
      assert response[..] == response[..response.Length] == link.reply[..MESSAGE_SENT_REPLY_SIZE];
      HeaderOfPrefix(link.reply, MESSAGE_SENT_REPLY_SIZE);
      ok := IsValidResponse(ReadResponseHeader(response[..]), MESSAGE_SENT_SUCCESS);
    }

    /** The second half of `handleSendMsgRequest`: asks for the recipient's key if need be, and sends.
        An empty text and an unknown type are no failures; nothing is sent then. */
    method EncodeAndSend(r: SendRequest, name: Bytes, text: Bytes, keyLink: Link, link: Link)
      returns (ok: bool, ghost sent: seq<Bytes>)
      requires Valid() && FitsSendRequest(r)
      modifies socket
      ensures socket.written == old(socket.written) + sent
      ensures Follows(clientId, PlanFor(r, text), name, keyLink, link, ok, sent)
    {
      sent := [];
      assert socket.written + sent == socket.written;
      if r.typ == SEND_SYM_KEY {
        var key := HandleGetPublicKeyRequest(name, keyLink);
        sent := [OnWire(PublicKeyRequestBytes(clientId, name), keyLink)];
        if key.None? {
          return false, sent;
        }
      } else if r.typ == TEXT_MESSAGE || r.typ == FILE_MSG {
        if text == [] {
          return true, [];
        }
      } else if r.typ != REQUEST_SYM_KEY {
        return true, [];
      }
      ok := Deliver(r, link);
      sent := sent + [OnWire(SendRequestBytes(r), link)];
    }

    /** `handleSendMsgRequest` once the directory is refreshed. */
    method LookUpAndSend(name: Bytes, typ: nat, text: Bytes, encrypted: Bytes, keyLink: Link, link: Link)
      returns (ok: bool, ghost sent: seq<Bytes>)
      requires Valid() && typ < U8 && SEND_HEAD_SIZE + |ContentFor(typ, encrypted)| < U32
      modifies socket
      ensures socket.written == old(socket.written) + sent
      ensures Follows(clientId, PlanSend(View(), name, typ, text, encrypted), name, keyLink, link, ok, sent)
      ensures DirectoryDecides(directory, clientId, name, typ, text, encrypted, keyLink, link, ok, sent)
    {
      var e := GetClient(name, None, 1);
      if e.None? || e.value.id == clientId {
        ok, sent := true, [];
        assert socket.written + [] == socket.written;
      } else {
        var content := ContentFor(typ, encrypted);
        var header := RequestHeader(clientId, CLIENT_VERSION, SEND_MESSAGE, AnnouncedSize(typ, content));
        ok, sent := EncodeAndSend(SendRequest(header, e.value.id, typ, content), e.value.name, text, keyLink, link);
      }
      PlanIsRight(View(), name, typ, text, encrypted, keyLink, link, ok, sent);
    }

    /** Refreshes the directory, ignoring a failure, looks the recipient up, and goes on with the
        intended bytes. A name that is unknown or the client's own is no failure; nothing is sent
        then. `encrypted` is what encryption makes of the text. */
    method HandleSendMsgRequest(name: Bytes, typ: nat, text: Bytes, encrypted: Bytes,
                                listLink: Link, keyLink: Link, link: Link)
      returns (ok: bool, ghost sent: seq<Bytes>)
      requires Valid()
      requires typ < U8 && SEND_HEAD_SIZE + |ContentFor(typ, encrypted)| < U32
      modifies this`directory, socket
      ensures Valid()
      ensures var list := BareRequest(old(View()), GET_CLIENTS_LIST);
              && View() == (if Delivered(list, listLink) then AfterList(old(View()), listLink.reply) else old(View()))
              && socket.written == old(socket.written) + [OnWire(list, listLink)] + sent
      ensures Follows(clientId, PlanSend(View(), name, typ, text, encrypted), name, keyLink, link, ok, sent)
      ensures DirectoryDecides(directory, clientId, name, typ, text, encrypted, keyLink, link, ok, sent)
    {
      var listed := HandleClientsListRequest(listLink);
      ok, sent := LookUpAndSend(name, typ, text, encrypted, keyLink, link);
    }

    /** `getClient`: by name with selector 1, by identifier with selector 2, nothing otherwise. */
    method GetClient(name: Bytes, id: Option<Bytes>, selector: nat) returns (e: Option<Entry>)
      ensures e == if selector == 1 then FindByName(directory, name)
                   else if selector == 2 && id.Some? then FindById(directory, id.value)
                   else None
    {
      var i := 0;
      while i < |directory|
        invariant 0 <= i <= |directory|
        invariant selector == 1 ==> FindByName(directory[i..], name) == FindByName(directory, name)
        invariant selector == 2 && id.Some? ==> FindById(directory[i..], id.value) == FindById(directory, id.value)
      {
        if selector == 1 {
          if name == directory[i].name {
            return Some(directory[i]);
          }
        } else if selector == 2 {
          if id.None? {
            return None;
          }
          if id.value == directory[i].id {
            return Some(directory[i]);
          }
        } else {
          return None;
        }
        i := i + 1;
      }
      return None;
    }
  }
}
