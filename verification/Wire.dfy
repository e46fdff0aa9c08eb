/** The connections of the joint system carry what the methods of module `Clients` put on the wire. */
module Wire {
  import opened ByteStrings
  import opened Database
  import opened Protocol
  import opened Framing
  import opened Sockets
  import opened ServerSpec
  import opened Reassembly
  import opened Profiles
  import opened Encodings
  import opened ClientStates
  import opened Layouts
  import opened Sending
  import opened Joint

  /** The request that the client writes for an action, as in the contracts of module `Clients`. */
  function RequestOfAction(c: ClientState, a: Action): Bytes
    requires |c.id| == CLIENT_ID_SIZE && !a.Foreign? && !a.Restart?
    requires a.Register? ==> ProperRegistration(a)
    requires a.SendTo? ==> SendRequestOfAction(c, a).Some?
  {
    match a
    case Register(_, name, junk, key, _, _, _, _) => RegistrationBytes(name, junk, key)
    case ListClients(_, _, _) => BareRequest(c, GET_CLIENTS_LIST)
    case AskKey(_, name, _) => PublicKeyRequestBytes(c.id, name)
    case SendTo(_, _, _, _, _, _, _) => SendRequestBytes(SendRequestOfAction(c, a).value)
    case FetchUnread(_, _, _) => BareRequest(c, GET_UNREAD_MESSAGES)
  }

  /** At least the first packet leaves the client. */
  predicate FirstLeaves(link: Link) { link.reachable && 0 !in link.faults }

  lemma FirstPacketOnWire(request: Bytes, link: Link)
    requires request != [] && FirstLeaves(link)
    ensures |FirstPacket(request)| == PACKET_SIZE && FirstPacket(request) <= OnWire(request, link)
    ensures OnWire(request, link) <= PadToPackets(request)
  {
    RoundUpStep(0, |request|);
    assert GoThrough(link.faults, 0, Packets(|request|)) >= 1;
  }

  lemma BehindFirst(stream: Bytes, wire: Bytes, later: Bytes)
    requires wire <= stream && |wire| >= PACKET_SIZE && later <= wire[PACKET_SIZE..]
    ensures later <= stream[PACKET_SIZE..] && stream[..PACKET_SIZE] + later <= wire
  {
  }

  lemma SendOnWire(r: SendRequest, link: Link, later: Bytes)
    requires FitsSendRequest(r) && FirstLeaves(link)
    requires var wire := OnWire(SendRequestBytes(r), link);
             |wire| >= PACKET_SIZE ==> later <= wire[PACKET_SIZE..]
    ensures later <= LaterOf(r) && FirstOf(r) + later <= OnWire(SendRequestBytes(r), link)
  {
    FirstPacketOnWire(SendRequestBytes(r), link);
    BehindFirst(PadToPackets(SendRequestBytes(r)), OnWire(SendRequestBytes(r), link), later);
  }

  /** The connection of any action carries the beginning of what leaves the client, first packet whole,
      as soon as that packet leaves, even when the rest of the request does not: given that the later
      pieces of a send are the beginning of what left behind the first packet, which makes them the
      beginning of what the client meant to send. */
  lemma ActionOnWire(w: World, a: Action, link: Link)
    requires !a.Foreign? && Connects(w, a).Some? && FirstLeaves(link)
    requires var wire := OnWire(RequestOfAction(w.clients[a.i], a), link);
             a.SendTo? && |wire| >= PACKET_SIZE ==> Flatten(a.pieces) <= wire[PACKET_SIZE..]
    ensures var recvs := Connects(w, a).value.recvs;
            && |recvs| >= 1 && |recvs[0]| == PACKET_SIZE
            && recvs[0] + Flatten(recvs[1..]) <= OnWire(RequestOfAction(w.clients[a.i], a), link)
    ensures a.SendTo? ==> Flatten(a.pieces) <= LaterOf(SendRequestOfAction(w.clients[a.i], a).value)
  {
    var c, ev := w.clients[a.i], Connects(w, a).value;
    var request := RequestOfAction(c, a);
    if a.SendTo? {
      var r := SendRequestOfAction(c, a).value;
      SendOnWire(r, link, Flatten(a.pieces));
      assert ev.recvs[1..] == a.pieces;
    } else {
      FirstPacketOnWire(request, link);
      assert ev.recvs == [FirstPacket(request)];
      assert ev.recvs[0] + [] == ev.recvs[0];
    }
  }

  // ----- when a client connects

  /** What a program must be, and the user choose, for the program to connect: a program without a profile
      registers under a proper name; a registered one does everything else, and sends to the first entry of
      a name that is not its own, if the numbers fit their fields. */
  ghost predicate MayConnect(c: ClientState, a: Action) {
    match a
    case Foreign(_) => true
    case Restart(_, _) => false
    case Register(_, name, junk, key, privateKey, _, _, _) =>
      && !c.registered && c.file.None?
      && 1 <= |name| <= 254 && (forall i :: 0 <= i < |name| ==> NameByte(name[i]))
      && |name| + 1 + |junk| == 255 && |key| == 160 && privateKey != []
    case SendTo(_, name, typ, payloadSize, content, _, _) =>
      && c.registered && typ < 256 && payloadSize < U32 && 44 + |content| < U32
      && exists k: nat :: FirstAt(c.directory, k, name) && c.directory[k].id != c.id && |c.directory[k].id| == 16
    case _ => c.registered
  }

  lemma SendRequestIff(c: ClientState, name: Bytes, typ: nat, payloadSize: nat, content: Bytes)
    requires |c.id| == 16
    ensures SendRequestOf(c, name, typ, payloadSize, content).Some? <==>
            && typ < 256 && payloadSize < U32 && 44 + |content| < U32
            && exists k: nat :: FirstAt(c.directory, k, name) && c.directory[k].id != c.id && |c.directory[k].id| == 16
  {
    if FindByName(c.directory, name).Some? {
      var k := PlaceOf(c.directory, name);
      FirstIsFound(c.directory, k, name);
    }
    if k: nat :| FirstAt(c.directory, k, name) {
      FirstIsFound(c.directory, k, name);
      assert forall k': nat :: FirstAt(c.directory, k', name) ==> k' == k;
    }
  }

  lemma {:induction false} PlaceOf(dir: seq<Entry>, name: Bytes) returns (k: nat)
    requires FindByName(dir, name).Some?
    ensures FirstAt(dir, k, name)
  {
    if dir[0].name == name {
      k := 0;
    } else {
      var rest := PlaceOf(dir[1..], name);
      k := rest + 1;
      forall j | 0 <= j < k
        ensures dir[j].name != name
      {
        if j > 0 {
          assert dir[1..][j - 1] == dir[j];
        }
      }
    }
  }

  lemma RegistersIff(w: World, a: Action)
    requires a.Register? && a.i < |w.clients| && |w.clients[a.i].id| == 16
    ensures Connects(w, a).Some? <==> MayConnect(w.clients[a.i], a)
  {
    NameAcceptedIff(a.name);
    assert NEWLINE in a.name <==> exists i :: 0 <= i < |a.name| && a.name[i] == 10;
  }

  /** A program connects if and only if it may. */
  lemma ConnectsIff(w: World, a: Action)
    requires a.Foreign? || (a.i < |w.clients| && |w.clients[a.i].id| == 16)
    ensures a.Foreign? ==> Connects(w, a) == Some(a.ev)
    ensures !a.Foreign? ==> (Connects(w, a).Some? <==> MayConnect(w.clients[a.i], a))
  {
    if a.Register? {
      RegistersIff(w, a);
    } else if a.SendTo? {
      SendRequestIff(w.clients[a.i], a.name, a.typ, a.payloadSize, a.content);
    }
  }

  /** The bytes of the request of an action. */
  function RequestBytes(c: ClientState, a: Action, to: Bytes): Bytes
    requires !a.Foreign? && !a.Restart?
  {
    match a
    case Register(_, name, junk, key, _, _, _, _) =>
      Filled([], 16) + [1, 232, 3, 159, 1, 0, 0] + (name + [0] + junk) + key
    case ListClients(_, _, _) => c.id + [1, 233, 3, 0, 0, 0, 0]
    case AskKey(_, name, _) => c.id + [1, 234, 3, 255, 0, 0, 0] + NameField(name)
    case SendTo(_, _, typ, payloadSize, content, _, _) => SendLayout(c.id, payloadSize, to, typ % 256, content)
    case FetchUnread(_, _, _) => c.id + [1, 236, 3, 0, 0, 0, 0]
  }

  lemma FirstPacketIs(request: Bytes)
    requires request != []
    ensures FirstPacket(request) == Cut(InPackets(request), 1024)
  {
    RoundUpStep(0, |request|);
    assert PadToPackets(request) == InPackets(request);
  }

  lemma RequestIs(c: ClientState, a: Action, k: nat)
    requires |c.id| == 16 && !a.Foreign? && !a.Restart?
    requires a.Register? ==> ProperRegistration(a)
    requires a.SendTo? ==> SendRequestOfAction(c, a).Some? && FirstAt(c.directory, k, a.name)
    ensures RequestOfAction(c, a) == RequestBytes(c, a, if k < |c.directory| then c.directory[k].id else [])
  {
    match a
    case Register(_, name, junk, key, _, _, _, _) => RegistrationLayout(name, junk, key);
    case AskKey(_, name, _) => KeyRequestIs(c.id, name);
    case SendTo(_, name, _, _, _, _, _) =>
      FirstIsFound(c.directory, k, name);
      SendRequestLayout(SendRequestOfAction(c, a).value);
    case _ => BareLayout(c);
  }

  lemma ConnectionCarries(w: World, a: Action)
    requires !a.Foreign? && Connects(w, a).Some?
    ensures Connects(w, a) ==
              Some(Event([FirstPacket(RequestOfAction(w.clients[a.i], a))] + (if a.SendTo? then a.pieces else []),
                         a.env))
  {
    var first := FirstPacket(RequestOfAction(w.clients[a.i], a));
    if a.SendTo? {
      RoundUpStep(0, |RequestOfAction(w.clients[a.i], a)|);
    } else {
      assert [first] + [] == [first];
    }
  }

  /** The connection of an action: the first packet of its request, byte by byte, and for a send the later
      pieces; for a send `k` is the place of the recipient. */
  lemma ConnectionIs(w: World, a: Action, k: nat)
    requires !a.Foreign? && Connects(w, a).Some?
    requires a.SendTo? ==> FirstAt(w.clients[a.i].directory, k, a.name)
    ensures var c := w.clients[a.i];
            var request := RequestBytes(c, a, if k < |c.directory| then c.directory[k].id else []);
            Connects(w, a) ==
              Some(Event([Cut(InPackets(request), 1024)] + (if a.SendTo? then a.pieces else []), a.env))
  {
    RequestIs(w.clients[a.i], a, k);
    ConnectionCarries(w, a);
    FirstPacketIs(RequestOfAction(w.clients[a.i], a));
  }

  /** An action changes the tables by its connection only, and no program but the acting one; and this one only
      when it registers, lists clients or is started again. */
  lemma ActIs(w: World, a: Action, j: nat)
    requires j < |w.clients|
    ensures var w', ev := Act(w, a), Connects(w, a);
            && w'.sys.db == (if ev.Some? then Serve(w.sys.db, ev.value).db else w.sys.db)
            && |w'.clients| == |w.clients|
            && (a.Foreign? || a.i != j ==> w'.clients[j] == w.clients[j])
            && (!a.Foreign? && a.i == j && ev.None? ==>
                  w'.clients[j] == if a.Restart? then AfterRestart(w.clients[j], a.accepted) else w.clients[j])
            && (!a.Foreign? && a.i == j && ev.Some? ==>
                  w'.clients[j] == ReactionTo(w.clients[j], a, Serve(w.sys.db, ev.value).sent))
  {
  }

  function ReactionTo(c: ClientState, a: Action, sent: Bytes): ClientState {
    if a.Register? then AfterRegistration(c, a.name, a.key, a.privateKey, Cut(sent, a.seen), a.saving)
    else if a.ListClients? then AfterList(c, Cut(sent, a.seen))
    else c
  }
}
