/** What a client may conclude from the answers to its key requests and sends. */
module Answers {
  import opened ByteStrings
  import opened Database
  import opened Protocol
  import opened Framing
  import opened ServerSpec
  import opened ClientSpec
  import opened Integrity
  import opened ClientStates
  import opened Joint

  lemma KeyRequestRead(c: ClientState, name: Bytes)
    requires |c.id| == CLIENT_ID_SIZE && 0 !in name && |name| < NAME_SIZE
    ensures UnpackPublicKeyRequest(FirstPacket(PublicKeyRequestBytes(c.id, name)))
            == Some(NameRequest(HeaderOf(c, GET_PUBLIC_KEY, NAME_SIZE), name))
  {
    var data := FirstPacket(PublicKeyRequestBytes(c.id, name));
    KeyRequestArrives(c, name);
    var header := RequestHeaderBytes(HeaderOf(c, GET_PUBLIC_KEY, NAME_SIZE));
    assert data == (header + Fixed(NAME_SIZE, name)) + data[NAME_END..];
    Middle(header, Fixed(NAME_SIZE, name), data[NAME_END..]);
    UntilNulOfFixed(NAME_SIZE, name);
  }

  lemma KeyReplyRead(id: Bytes, key: Bytes, seen: Bytes)
    requires |id| == CLIENT_ID_SIZE && |key| == PUBLIC_KEY_SIZE
    requires PartOfReply(seen, PackPublicKey(id, key))
    ensures ReceivePublicKey(seen).Some? ==> ReceivePublicKey(seen).value == (id, key)
    ensures seen == Frame(PackPublicKey(id, key)) ==> ReceivePublicKey(seen).Some?
  {
    var payload := id + key;
    assert payload[..CLIENT_ID_SIZE] == id && payload[CLIENT_ID_SIZE..] == key;
    assert PackPublicKey(id, key) == Reply(GET_PUBLIC_KEY_SUCCESS, payload);
    if seen <= Frame(PackPublicKey(id, key)) {
      FixedReplyRoundTrip(GET_PUBLIC_KEY_SUCCESS, payload, seen);
    } else {
      ErrorRefused(seen, GET_PUBLIC_KEY_SUCCESS, CLIENT_ID_SIZE + PUBLIC_KEY_SIZE);
    }
  }

  /** Sent without failures, a handler's reply arrives framed, and the error likewise. */
  lemma CleanAnswer(db: Db, reply: Bytes, effect: Effect)
    ensures var h := Answer(db, reply, {}, effect);
            if reply == [] then h.verdict == Failed && h.sent == [] && h.attempts == 0
            else h.verdict == Done && h.sent == Frame(reply)
    ensures Transmit(PackError(), {}, 0).bytes == Frame(PackError())
  {
    TransmitWithoutFaults(reply, {}, 0);
    TransmitWithoutFaults(PackError(), {}, 0);
  }

  /** The key that a registered client receives for a name, whole or from a cut reply, is the key of
      the row with this name, together with the row's identifier; without failures it receives one
      exactly when the name is registered. */
  lemma KeyAnswered(db: Db, c: ClientState, name: Bytes, env: Env, seen: nat)
    requires ClientsIntact(db.clients) && HasId(db.clients, c.id)
    requires |c.id| == CLIENT_ID_SIZE && 0 !in name && |name| < NAME_SIZE
    ensures var sent := Serve(db, Event([FirstPacket(PublicKeyRequestBytes(c.id, name))], env)).sent;
            var got := ReceivePublicKey(Cut(sent, seen));
            && (got.Some? ==> ClientRow(got.value.0, name, got.value.1) in db.clients)
            && (env.faults == {} && seen >= |sent| ==> (got.Some? <==> HasName(db.clients, name)))
  {
    var data := FirstPacket(PublicKeyRequestBytes(c.id, name));
    var sent := Serve(db, Event([data], env)).sent;
    KeyRequestRead(c, name);
    var row := FirstNamed(db.clients, name);
    if row.None? {
      assert sent == [] + Transmit(PackError(), env.faults, 0).bytes;
      ErrorRefused(Cut(sent, seen), GET_PUBLIC_KEY_SUCCESS, CLIENT_ID_SIZE + PUBLIC_KEY_SIZE);
    } else {
      var reply := PackPublicKey(row.value.id, row.value.publicKey);
      AnswerIsPart(db, reply, env.faults, Quiet);
      CutIsPart(sent, reply, seen);
      assert row.value == ClientRow(row.value.id, name, row.value.publicKey);
      KeyReplyRead(row.value.id, row.value.publicKey, Cut(sent, seen));
      if env.faults == {} {
        CleanAnswer(db, reply, Quiet);
        assert sent == Frame(reply) + [];
      }
    }
  }

  lemma AckPayload(to: Bytes, four: Bytes)
    requires |to| == CLIENT_ID_SIZE && |four| == MESSAGE_ID_SIZE
    ensures (to + four)[..CLIENT_ID_SIZE] == to && (to + four)[CLIENT_ID_SIZE..] == four
    ensures Fixed(CLIENT_ID_SIZE, to) == to
  {
  }

  lemma AckRead(to: Bytes, id: nat, seen: Bytes)
    requires |to| == CLIENT_ID_SIZE && id < U32
    requires PartOfReply(seen, PackMessageSent(to, id))
    ensures ReceiveMessageSent(seen).Some? ==> ReceiveMessageSent(seen).value == (to, id)
    ensures seen == Frame(PackMessageSent(to, id)) ==> ReceiveMessageSent(seen).Some?
  {
    var four := LittleEndian(4, id);
    assert Value(four) == id by { Widths(); ValueOfLittleEndian(4, id); }
    AckPayload(to, four);
    assert PackMessageSent(to, id) == Reply(MESSAGE_SENT_SUCCESS, to + four);
    if seen <= Frame(PackMessageSent(to, id)) {
      FixedReplyRoundTrip(MESSAGE_SENT_SUCCESS, to + four, seen);
    } else {
      ErrorRefused(seen, MESSAGE_SENT_SUCCESS, CLIENT_ID_SIZE + MESSAGE_ID_SIZE);
    }
  }

  lemma NoAckInError(sent: Bytes, seen: nat)
    requires sent <= Frame(PackError())
    ensures ReceiveMessageSent(Cut(sent, seen)).None?
  {
  }

  /** The error that follows a handler that failed. */
  function ErrorAfter(h: Handled, faults: set<nat>): Bytes {
    if h.verdict == Failed then Transmit(PackError(), faults, h.attempts).bytes else []
  }

  lemma AckSent(db: Db, to: Bytes, id: nat, faults: set<nat>, effect: Effect, seen: nat)
    requires |to| == CLIENT_ID_SIZE && id < U32
    ensures var h := Answer(db, PackMessageSent(to, id), faults, effect);
            var sent := h.sent + ErrorAfter(h, faults);
            var ack := ReceiveMessageSent(Cut(sent, seen));
            && (ack.Some? ==> ack.value == (to, id))
            && (faults == {} && seen >= |sent| ==> ack.Some?)
  {
    var reply := PackMessageSent(to, id);
    var h := Answer(db, reply, faults, effect);
    var sent := h.sent + ErrorAfter(h, faults);
    AnswerIsPart(db, reply, faults, effect);
    CutIsPart(sent, reply, seen);
    AckRead(to, id, Cut(sent, seen));
    if faults == {} {
      CleanAnswer(db, reply, effect);
      assert sent == Frame(reply);
    }
  }

  lemma SendAnswered(db: Db, data: Bytes, pieces: seq<Bytes>, env: Env, seen: nat)
    ensures var h := HandleSend(db, data, pieces, env);
            var sent := h.sent + ErrorAfter(h, env.faults);
            var ack := ReceiveMessageSent(Cut(sent, seen));
            && (ack.Some? ==> h.effect.Stored? && (h.effect.row.to, h.effect.id) == ack.value)
            && (env.faults == {} && seen >= |sent| ==> (ack.Some? <==> h.effect.Stored? && h.effect.id < U32))
  {
    var h := HandleSend(db, data, pieces, env);
    var sent := h.sent + ErrorAfter(h, env.faults);
    if h.effect.Stored? && h.effect.id < U32 {
      AckSent(h.db, h.effect.row.to, h.effect.id, env.faults, h.effect, seen);
    } else {
      assert sent == ErrorAfter(h, env.faults);
      NoAckInError(sent, seen);
    }
  }

  lemma SendServed(db: Db, ev: Event)
    requires Admitted(db, ev) && UnpackRequestHeader(ev.recvs[0]).value.code == SEND_MESSAGE
    ensures var h := HandleSend(db, ev.recvs[0], ev.recvs[1..], ev.env);
            Serve(db, ev).effect == h.effect && Serve(db, ev).sent == h.sent + ErrorAfter(h, ev.env.faults)
  {
  }

  /** An acknowledged message is stored, for the acknowledged recipient and under the acknowledged
      id, whatever the reply went through. Without failures, what is stored is acknowledged unless
      its id no longer fits four bytes. */
  lemma AcknowledgedIsStored(db: Db, ev: Event, seen: nat)
    requires Admitted(db, ev) && UnpackRequestHeader(ev.recvs[0]).value.code == SEND_MESSAGE
    ensures var s := Serve(db, ev);
            var ack := ReceiveMessageSent(Cut(s.sent, seen));
            && (ack.Some? ==> s.effect.Stored? && (s.effect.row.to, s.effect.id) == ack.value)
            && (ev.env.faults == {} && seen >= |s.sent| ==> (ack.Some? <==> s.effect.Stored? && s.effect.id < U32))
  {
    SendServed(db, ev);
    SendAnswered(db, ev.recvs[0], ev.recvs[1..], ev.env, seen);
  }

  /** Without failures of the connection, a registration is confirmed exactly when its name is free,
      the drawn identifier is proper and new, and the storage takes the row; the confirmed
      identifier is the drawn one. */
  lemma RegistrationAnswered(db: Db, name: Bytes, junk: Bytes, key: Bytes, env: Env)
    requires 0 !in name && |name| + 1 + |junk| == NAME_SIZE && |key| == PUBLIC_KEY_SIZE
    requires env.faults == {}
    ensures ReceiveRegistration(Serve(db, Event([FirstPacket(RegistrationBytes(name, junk, key))], env)).sent) ==
              if !HasName(db.clients, name) && |env.uuid| == CLIENT_ID_SIZE && !HasId(db.clients, env.uuid)
                 && env.storeOk
              then Some(env.uuid) else None
  {
    var data := FirstPacket(RegistrationBytes(name, junk, key));
    RegistrationAdmitted(db, name, junk, key, env);
    var h, sent := HandleRegister(db, data, env), Serve(db, Event([data], env)).sent;
    CleanAnswer(h.db, PackRegistered(env.uuid), h.effect);
    if h.effect == Quiet {
      assert sent == [] + Frame(PackError()) == Frame(PackError());
      ErrorRefused(sent, REGISTER_SUCCESS, CLIENT_ID_SIZE);
    } else {
      assert PackRegistered(env.uuid) == Reply(REGISTER_SUCCESS, env.uuid);
      assert sent == Frame(PackRegistered(env.uuid)) + [] == Frame(PackRegistered(env.uuid));
      FixedReplyRoundTrip(REGISTER_SUCCESS, env.uuid, sent);
    }
  }
}
