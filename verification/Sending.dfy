/** When a client sends, and what, read off its directory and the user's choice. */
module Sending {
  import opened ByteStrings
  import opened Database
  import opened Protocol
  import opened Sockets
  import opened ClientSpec
  import opened Profiles
  import opened ClientStates
  import opened Layouts

  /** What leaves the client, and whether it succeeds, for a plan. */
  predicate Follows(id: Bytes, plan: SendPlan, name: Bytes, keyLink: Link, link: Link, ok: bool, sent: seq<Bytes>)
    requires |id| == CLIENT_ID_SIZE && (plan != Nothing ==> FitsSendRequest(plan.r))
  {
    var request := PublicKeyRequestBytes(id, name);
    var hasKey := Delivered(request, keyLink) && ReceivePublicKey(keyLink.reply).Some?;
    match plan
    case Nothing => ok && sent == []
    case Plain(r) =>
      && ok == (Delivered(SendRequestBytes(r), link) && ReceiveMessageSent(link.reply).Some?)
      && sent == [OnWire(SendRequestBytes(r), link)]
    case AfterKey(r) =>
      && ok == (hasKey && Delivered(SendRequestBytes(r), link) && ReceiveMessageSent(link.reply).Some?)
      && sent == [OnWire(request, keyLink)] + if hasKey then [OnWire(SendRequestBytes(r), link)] else []
  }

  /** The entry at place `k` is the first of the name. */
  predicate FirstAt(dir: seq<Entry>, k: nat, name: Bytes) {
    k < |dir| && dir[k].name == name && forall j :: 0 <= j < k ==> dir[j].name != name
  }

  lemma {:induction false} FirstIsFound(dir: seq<Entry>, k: nat, name: Bytes)
    requires FirstAt(dir, k, name)
    ensures FindByName(dir, name) == Some(dir[k])
  {
    if k > 0 {
      assert dir[0].name != name;
      forall j | 0 <= j < k - 1
        ensures dir[1..][j].name != name
      {
        assert dir[1..][j] == dir[j + 1];
      }
      FirstIsFound(dir[1..], k - 1, name);
    }
  }

  /** Looking an identifier up finds the first entry that has it. */
  lemma {:induction false} FirstIdIsFound(dir: seq<Entry>, k: nat)
    requires k < |dir| && forall j :: 0 <= j < k ==> dir[j].id != dir[k].id
    ensures FindById(dir, dir[k].id) == Some(dir[k])
  {
    if k > 0 {
      assert dir[0].id != dir[k].id;
      forall j | 0 <= j < k - 1
        ensures dir[1..][j].id != dir[1..][k - 1].id
      {
        assert dir[1..][j] == dir[j + 1];
      }
      FirstIdIsFound(dir[1..], k - 1);
    }
  }

  function NameField(name: Bytes): (f: Bytes)
    ensures |f| == 255
  {
    if |name| <= 255 then Filled(name, 255) else name[..255]
  }

  /** One message, acknowledged or not. */
  predicate SendsMessage(message: Bytes, link: Link, ok: bool, sent: seq<Bytes>) {
    sent == [OnWire(message, link)] && ok == (Delivered(message, link) && AcceptsFixed(link.reply, 211, 7, 20))
  }

  /** A key request, and the message if the key arrives. */
  predicate AsksAndSends(request: Bytes, message: Bytes, keyLink: Link, link: Link, ok: bool, sent: seq<Bytes>) {
    if Delivered(request, keyLink) && AcceptsFixed(keyLink.reply, 210, 7, 176)
    then |sent| == 2 && sent[0] == OnWire(request, keyLink) && SendsMessage(message, link, ok, sent[1..])
    else sent == [OnWire(request, keyLink)] && !ok
  }

  /** What goes to the recipient `to`: for a symmetric-key request (1) its text; for a symmetric key (2) a key
      request for the recipient's name first, and then nothing in the message; for a text (3) or a file (4)
      that is not empty what encryption made of it; nothing else. */
  predicate SendsTo(id: Bytes, to: Bytes, name: Bytes, typ: nat, text: Bytes, encrypted: Bytes, keyLink: Link,
                    link: Link, ok: bool, sent: seq<Bytes>)
  {
    if typ == 1 then
      var fixedText: Bytes := [82, 101, 113, 117, 101, 115, 116, 32, 102, 111, 114, 32, 115, 121, 109, 109, 101, 116,
                               114, 105, 99, 32, 107, 101, 121];
      SendsMessage(SendLayout(id, 0, to, 1, fixedText), link, ok, sent)
    else if typ == 2 then
      AsksAndSends(id + [1, 234, 3, 255, 0, 0, 0] + NameField(name), SendLayout(id, 0, to, 2, []), keyLink, link,
                   ok, sent)
    else if (typ == 3 || typ == 4) && text != [] then
      SendsMessage(SendLayout(id, 21 + |encrypted|, to, typ, encrypted), link, ok, sent)
    else ok && sent == []
  }

  /** The directory decides: an entry of the name that is not the client's own is sent to, if it is the first
      of its name; for an unknown name, and for the client's own, nothing is sent, which is no failure. */
  ghost predicate DirectoryDecides(dir: seq<Entry>, id: Bytes, name: Bytes, typ: nat, text: Bytes, encrypted: Bytes,
                             keyLink: Link, link: Link, ok: bool, sent: seq<Bytes>)
  {
    && (forall k: nat | FirstAt(dir, k, name) ::
          if dir[k].id == id then ok && sent == []
          else SendsTo(id, dir[k].id, name, typ, text, encrypted, keyLink, link, ok, sent))
    && ((forall i :: 0 <= i < |dir| ==> dir[i].name != name) ==> ok && sent == [])
  }

  lemma KeyRequestIs(id: Bytes, name: Bytes)
    requires |id| == 16
    ensures PublicKeyRequestBytes(id, name) == id + [1, 234, 3, 255, 0, 0, 0] + NameField(name)
  {
    KeyRequestLayout(id, NameField(name));
    assert Fixed(255, NameField(name)) == NameField(name) == Fixed(255, name);
    assert Filled(NameField(name), 255) == NameField(name);
  }

  lemma PlannedMessage(c: ClientState, name: Bytes, k: nat, typ: nat, text: Bytes, encrypted: Bytes)
    requires |c.id| == 16 && FirstAt(c.directory, k, name) && c.directory[k].id != c.id && |c.directory[k].id| == 16
    requires typ < U8 && SEND_HEAD_SIZE + |ContentFor(typ, encrypted)| < U32
    ensures var to, plan := c.directory[k].id, PlanSend(c, name, typ, text, encrypted);
            if typ == 1 then
              plan.Plain? && SendRequestBytes(plan.r) == SendLayout(c.id, 0, to, 1, KEY_REQUEST_TEXT)
            else if typ == 2 then plan.AfterKey? && SendRequestBytes(plan.r) == SendLayout(c.id, 0, to, 2, [])
            else if (typ == 3 || typ == 4) && text != [] then
              plan.Plain? && SendRequestBytes(plan.r) == SendLayout(c.id, 21 + |encrypted|, to, typ, encrypted)
            else plan == Nothing
  {
    FirstIsFound(c.directory, k, name);
    var plan := PlanSend(c, name, typ, text, encrypted);
    if plan != Nothing {
      SendRequestLayout(plan.r);
    }
  }

  lemma FollowsIsRight(id: Bytes, plan: SendPlan, name: Bytes, keyLink: Link, link: Link, ok: bool, sent: seq<Bytes>)
    requires |id| == 16 && (plan != Nothing ==> FitsSendRequest(plan.r))
    requires Follows(id, plan, name, keyLink, link, ok, sent)
    ensures match plan
            case Nothing => ok && sent == []
            case Plain(r) => SendsMessage(SendRequestBytes(r), link, ok, sent)
            case AfterKey(r) =>
              AsksAndSends(id + [1, 234, 3, 255, 0, 0, 0] + NameField(name), SendRequestBytes(r), keyLink, link,
                           ok, sent)
  {
    AckAcceptedIff(link.reply);
    KeyAcceptedIff(keyLink.reply);
    KeyRequestIs(id, name);
  }

  /** Following its plan, a client sends when and what its directory decides. */
  lemma PlanIsRight(c: ClientState, name: Bytes, typ: nat, text: Bytes, encrypted: Bytes,
                    keyLink: Link, link: Link, ok: bool, sent: seq<Bytes>)
    requires |c.id| == 16 && forall i :: 0 <= i < |c.directory| ==> |c.directory[i].id| == 16
    requires typ < U8 && SEND_HEAD_SIZE + |ContentFor(typ, encrypted)| < U32
    requires Follows(c.id, PlanSend(c, name, typ, text, encrypted), name, keyLink, link, ok, sent)
    ensures DirectoryDecides(c.directory, c.id, name, typ, text, encrypted, keyLink, link, ok, sent)
  {
    FollowsIsRight(c.id, PlanSend(c, name, typ, text, encrypted), name, keyLink, link, ok, sent);
    forall k: nat | FirstAt(c.directory, k, name)
      ensures if c.directory[k].id == c.id then ok && sent == []
              else SendsTo(c.id, c.directory[k].id, name, typ, text, encrypted, keyLink, link, ok, sent)
    {
      FirstIsFound(c.directory, k, name);
      if c.directory[k].id != c.id {
        PlannedMessage(c, name, k, typ, text, encrypted);
      }
    }
  }

  /** A list reply that is not accepted, for instance one that is cut, leaves everything as it was; one that
      is accepted replaces the directory and nothing else. */
  lemma ListReplacesOrKeeps(c: ClientState, reply: Bytes)
    ensures ReceiveClientsList(reply).None? ==> AfterList(c, reply) == c
    ensures ReceiveClientsList(reply).Some? ==>
              AfterList(c, reply) == ClientState(c.registered, c.reloaded, c.intact, c.name, c.id, c.publicKey,
                                                 c.privateKey, ReceiveClientsList(reply).value, c.file)
  {
  }

  /** An accepted registration gives the client the name, the keys and the identifier of the reply, keeps its
      directory, and makes it registered if its file could be opened three times; another one changes
      nothing. */
  lemma RegistrationTakesOrKeeps(c: ClientState, name: Bytes, key: Bytes, privateKey: Bytes, reply: Bytes,
                                 saving: Saving)
    ensures var c' := AfterRegistration(c, name, key, privateKey, reply, saving);
            if AcceptsFixed(reply, 208, 7, 16) then
              && c'.registered == (saving.opens >= 3) && c'.name == name && c'.id == reply[7..23]
              && c'.publicKey == key && c'.privateKey == privateKey && c'.directory == c.directory
              && c'.file == FileAfter(c.file, Profile(name, reply[7..23], privateKey), saving)
            else c' == c
  {
    RegistrationAcceptedIff(reply);
  }
}
