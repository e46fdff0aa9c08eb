/** The saved profile (Client/FileHandler.cpp, and `setClientInfo`/`getClientInfo`). */
module Profiles {
  import opened ByteStrings
  import opened Database
  import opened Encodings

  /** Line width of the client's base64 encoder. */
  const LINE_WIDTH: nat := 72

  datatype Profile = Profile(name: Bytes, id: Bytes, privateKey: Bytes)

  predicate IsAlnum(c: byte) { 48 <= c <= 57 || 65 <= c <= 90 || 97 <= c <= 122 }

  predicate IsSpace(c: byte) { c == 32 || 9 <= c <= 13 }

  /** `isValidUsername`; a newline counts as a space. */
  predicate ValidUsername(name: Bytes) {
    && 0 < |name| < NAME_SIZE
    && forall i :: 0 <= i < |name| ==> IsAlnum(name[i]) || IsSpace(name[i])
  }

  /** `FileHandler::write` ends what it appends with a newline. */
  function AsLine(data: Bytes): Bytes { data + [NEWLINE] }

  /** The file after `setClientInfo` on an empty file. */
  function SavedText(p: Profile): Bytes {
    (AsLine(p.name) + AsLine(BytesToHex(p.id))) + KeyText(p.privateKey, LINE_WIDTH)
  }

  /** Name, identifier and key, each with its newline. */
  lemma SavedLayout(p: Profile)
    ensures SavedText(p) == p.name + [10] + BytesToHex(p.id) + [10] + KeyText(p.privateKey, 72)
  {
    Associative(AsLine(p.name), BytesToHex(p.id), [NEWLINE]);
  }

  /** How far saving gets: for how many of the three lines the file is opened, and how many bytes of
      each such line reach the disk, `None` for all. A stream that loses bytes after it was opened
      reports nothing. */
  datatype Saving = Saving(opens: nat, name: Option<nat>, id: Option<nat>, key: Option<nat>)

  const UNDISTURBED: Saving := Saving(3, None, None, None)

  /** The part of a line that reaches the disk. */
  function Reaching(line: Bytes, reach: Option<nat>): Bytes {
    if reach.None? then line else Cut(line, reach.value)
  }

  /** How many of its bytes these are at most. */
  function Reach(tried: bool, line: Bytes, reach: Option<nat>): nat {
    if !tried then 0 else if reach.None? then |line| else reach.value
  }

  /** The first bytes of the three lines, one after the other. */
  function Parts(p: Profile, name: nat, id: nat, key: nat): Bytes {
    (Cut(AsLine(p.name), name) + Cut(AsLine(BytesToHex(p.id)), id)) + Cut(KeyText(p.privateKey, LINE_WIDTH), key)
  }

  function NameReach(p: Profile, s: Saving): nat { Reach(s.opens >= 1, AsLine(p.name), s.name) }

  function IdReach(p: Profile, s: Saving): nat { Reach(s.opens >= 2, AsLine(BytesToHex(p.id)), s.id) }

  function KeyReach(p: Profile, s: Saving): nat { Reach(s.opens >= 3, KeyText(p.privateKey, LINE_WIDTH), s.key) }

  /** What saving leaves on the disk. */
  function SavedBytes(p: Profile, s: Saving): Bytes {
    Parts(p, NameReach(p, s), IdReach(p, s), KeyReach(p, s))
  }

  /** Name and identifier are on the disk with their newlines, and the key up to its padding. */
  predicate Covers(p: Profile, s: Saving) {
    && NameReach(p, s) > |p.name| && IdReach(p, s) > 2 * |p.id|
    && LettersArrived(p.privateKey, LINE_WIDTH, KeyReach(p, s))
  }

  /** The file after saving has got as far as `s`. */
  function FileAfter(file: Option<Bytes>, p: Profile, s: Saving): Option<Bytes> {
    if s.opens == 0 then file else Some((if file.None? then [] else file.value) + SavedBytes(p, s))
  }

  /** What `getClientInfo` makes of a file. */
  function Load(text: Bytes): (p: Option<Profile>)
    ensures p.Some? ==> ValidUsername(p.value.name) && NEWLINE !in p.value.name
    ensures p.Some? ==> |p.value.id| == CLIENT_ID_SIZE && p.value.privateKey != []
  {
    var name, rest := Line(text), AfterLine(text);
    var id, key := HexToBytes(Line(rest)), DecodeLines(AfterLine(rest));
    if text == [] || !ValidUsername(name) || rest == [] || |id| != CLIENT_ID_SIZE || key == [] then None
    else Some(Profile(name, id, key))
  }

  /** Profile round trip. A profile with a valid name and a 16-byte id is restored if and only if
      the name has no newline and the key is not empty. */
  lemma ProfileRoundTrip(p: Profile)
    requires ValidUsername(p.name) && |p.id| == CLIENT_ID_SIZE
    ensures Load(SavedText(p)) == Some(p) <==> NEWLINE !in p.name && p.privateKey != []
  {
    var text := SavedText(p);
    var keyText := KeyText(p.privateKey, LINE_WIDTH);
    var rest := BytesToHex(p.id) + [NEWLINE] + keyText;
    Associative(AsLine(p.name), AsLine(BytesToHex(p.id)), keyText);
    assert text == p.name + [NEWLINE] + rest;
    if NEWLINE !in p.name {
      LineOf(p.name, rest);
      LineOf(BytesToHex(p.id), keyText);
      HexRoundTrip(p.id);
      WrappedRoundTrip(p.privateKey, LINE_WIDTH);
    } else {
      assert NEWLINE !in Line(text);
    }
  }

  /** A digit, a letter, a tab, a vertical tab, a form feed, a carriage return or a space. */
  predicate NameByte(b: byte) {
    48 <= b <= 57 || 65 <= b <= 90 || 97 <= b <= 122 || b == 9 || 11 <= b <= 13 || b == 32
  }

  /** The names that the client's check lets through: 1 to 254 such bytes, or newlines. */
  lemma NameAcceptedIff(name: Bytes)
    ensures ValidUsername(name) <==>
            1 <= |name| <= 254 && forall i :: 0 <= i < |name| ==> NameByte(name[i]) || name[i] == 10
  {
  }

  /** A profile with an identifier of 16 bytes and a key is restored if and only if its name has 1 to 254
      bytes that are digits, letters, or white space other than newlines. */
  lemma SavedNameLoadsIff(p: Profile)
    requires |p.id| == 16 && p.privateKey != []
    ensures Load(SavedText(p)) == Some(p) <==>
            1 <= |p.name| <= 254 && forall i :: 0 <= i < |p.name| ==> NameByte(p.name[i])
  {
    if ValidUsername(p.name) {
      ProfileRoundTrip(p);
      assert NEWLINE in p.name <==> exists i :: 0 <= i < |p.name| && p.name[i] == 10;
    }
  }

  predicate SavableProfile(p: Profile) {
    ValidUsername(p.name) && NEWLINE !in p.name && |p.id| == CLIENT_ID_SIZE && p.privateKey != []
  }

  /** No line of 72 characters is an identifier. */
  lemma FullLineIsNoId(t: Bytes)
    requires |t| >= LINE_WIDTH
    ensures |HexToBytes(t)| != CLIENT_ID_SIZE
  {
    UnhexLength(t);
  }

  lemma CutLine(line: Bytes, n: nat)
    requires NEWLINE !in line
    ensures if n > |line| then Cut(AsLine(line), n) == line + [NEWLINE]
            else Cut(AsLine(line), n) == line[..n] && NEWLINE !in line[..n]
  {
  }

  /** A file whose second line is not a line of its own loads nothing: what stands there ends with a
      full line of the key, or no key follows. */
  lemma NoIdLoadsNothing(text: Bytes, name: Bytes, before: Bytes, keyPart: Bytes)
    requires text == name + [NEWLINE] + (before + keyPart) && NEWLINE !in name && NEWLINE !in before
    requires FullLineOrLast(keyPart, LINE_WIDTH)
    ensures Load(text).None?
  {
    LineOf(name, before + keyPart);
    LineOfJoined(before, keyPart);
    if |Line(keyPart)| == LINE_WIDTH {
      FullLineIsNoId(before + Line(keyPart));
    }
  }

  lemma CutNameLoadsNothing(text: Bytes, before: Bytes, keyPart: Bytes)
    requires text == before + keyPart && NEWLINE !in before
    requires FullLineOrLast(AfterLine(keyPart), LINE_WIDTH)
    ensures Load(text).None?
  {
    LineOfJoined(before, keyPart);
    if |Line(AfterLine(keyPart))| == LINE_WIDTH {
      FullLineIsNoId(Line(AfterLine(keyPart)));
    }
  }

  lemma JoinedNameLoadsNothing(text: Bytes, before: Bytes, keyPart: Bytes)
    requires text == before + [NEWLINE] + keyPart && NEWLINE !in before
    requires FullLineOrLast(keyPart, LINE_WIDTH)
    ensures Load(text).None?
  {
    LineOf(before, keyPart);
    if |Line(keyPart)| == LINE_WIDTH {
      FullLineIsNoId(Line(keyPart));
    }
  }

  lemma WholeLinesLoad(text: Bytes, p: Profile, keyPart: Bytes)
    requires NEWLINE !in p.name
    requires text == p.name + [NEWLINE] + (BytesToHex(p.id) + [NEWLINE] + keyPart)
    ensures Load(text) ==
              if DecodeLines(keyPart) == [] || !ValidUsername(p.name) || |p.id| != CLIENT_ID_SIZE then None
              else Some(Profile(p.name, p.id, DecodeLines(keyPart)))
  {
    LineOf(p.name, BytesToHex(p.id) + [NEWLINE] + keyPart);
    LineOf(BytesToHex(p.id), keyPart);
    HexRoundTrip(p.id);
  }

  lemma Regroup(a: Bytes, b: Bytes, c: Bytes)
    ensures (AsLine(a) + AsLine(b)) + c == a + [NEWLINE] + (b + [NEWLINE] + c)
    ensures (AsLine(a) + b) + c == a + [NEWLINE] + (b + c)
    ensures (a + AsLine(b)) + c == (a + b) + [NEWLINE] + c
  {
  }

  /** What a file loads to when any number of bytes of each line are missing at its end: nothing,
      unless name and identifier are whole; then the identity with what the key part decodes to. */
  lemma PartsLoad(p: Profile, name: nat, id: nat, key: nat)
    requires NEWLINE !in p.name
    ensures var decoded := DecodeLines(Cut(KeyText(p.privateKey, LINE_WIDTH), key));
            Load(Parts(p, name, id, key)) ==
              if name > |p.name| && id > 2 * |p.id| && decoded != []
                 && ValidUsername(p.name) && |p.id| == CLIENT_ID_SIZE
              then Some(Profile(p.name, p.id, decoded)) else None
  {
    var hex, keyPart := BytesToHex(p.id), Cut(KeyText(p.privateKey, LINE_WIDTH), key);
    var text := Parts(p, name, id, key);
    KeyTextLines(p.privateKey, LINE_WIDTH, key);
    CutLine(p.name, name);
    CutLine(hex, id);
    if name > |p.name| && id > |hex| {
      Regroup(p.name, hex, keyPart);
      WholeLinesLoad(text, p, keyPart);
    } else if name > |p.name| {
      Regroup(p.name, hex[..id], keyPart);
      NoIdLoadsNothing(text, p.name, hex[..id], keyPart);
    } else if id > |hex| {
      Regroup(p.name[..name], hex, keyPart);
      JoinedNameLoadsNothing(text, p.name[..name] + hex, keyPart);
    } else {
      CutNameLoadsNothing(text, p.name[..name] + hex[..id], keyPart);
    }
  }

  /** Saving that is stopped or loses bytes anywhere: what is on the disk loads to the saved profile
      if and only if name and identifier are whole and of the key at most the two last newlines and
      the padding are missing. If it loads to anything else, then to the same identity with only the
      beginning of the key. */
  lemma SavedLoadsIff(p: Profile, s: Saving)
    requires SavableProfile(p)
    ensures var loaded := Load(SavedBytes(p, s));
            && (loaded == Some(p) <==> Covers(p, s))
            && (loaded.Some? ==> loaded.value.name == p.name && loaded.value.id == p.id
                                 && loaded.value.privateKey <= p.privateKey)
  {
    PartsLoad(p, NameReach(p, s), IdReach(p, s), KeyReach(p, s));
    KeyTextCut(p.privateKey, LINE_WIDTH, KeyReach(p, s));
  }

  /** A profile for which the file was not opened three times never loads. */
  lemma PartialNeverLoads(p: Profile, s: Saving)
    requires NEWLINE !in p.name && s.opens < 3
    ensures Load(SavedBytes(p, s)).None?
  {
    PartsLoad(p, NameReach(p, s), IdReach(p, s), KeyReach(p, s));
    assert Cut(KeyText(p.privateKey, LINE_WIDTH), 0) == [];
  }

  lemma DecodeNext(key: Bytes, text: Bytes)
    ensures key + DecodeLines(text) ==
              if text == [] then key else key + (DecodeBase64(Line(text)) + DecodeLines(AfterLine(text)))
    ensures |AfterLine(text)| <= |text| && (text != [] ==> |AfterLine(text)| < |text|)
  {
  }

  /** What is saved, line by line. */
  lemma LinesReached(p: Profile, s: Saving)
    ensures var first, second := Reaching(AsLine(p.name), s.name), Reaching(AsLine(BytesToHex(p.id)), s.id);
            SavedBytes(p, s) ==
              if s.opens == 0 then []
              else if s.opens == 1 then first
              else if s.opens == 2 then first + second
              else (first + second) + Reaching(KeyText(p.privateKey, LINE_WIDTH), s.key)
  {
  }

  /** The profile file, if there is one, and the stream opened on it. Attempt number `n` to open the
      file for appending fails when `n in faults`; of what attempt `n` appends, only the first
      `losses[n]` bytes reach the disk when `n in losses`, which the stream does not report. */
  class FileHandler {
    var present: bool
    var content: Bytes
    var isOpen: bool
    var pos: nat
    var attempts: nat
    const faults: set<nat>
    const losses: map<nat, nat>

    ghost predicate Valid()
      reads this
    {
      pos <= |content| && (isOpen ==> present) && (!present ==> content == [])
    }

    function File(): Option<Bytes>
      reads this
    {
      if present then Some(content) else None
    }

    function ReachOf(attempt: nat): Option<nat> {
      if attempt in losses then Some(losses[attempt]) else None
    }

    /** How far saving `p` gets when it begins with the given attempt. */
    function SavingOf(p: Profile, attempt: nat): Saving {
      var opens :=
        if p.name == [] || attempt in faults then 0
        else if p.id == [] || attempt + 1 in faults then 1
        else if attempt + 2 in faults then 2
        else 3;
      Saving(opens, ReachOf(attempt), ReachOf(attempt + 1), ReachOf(attempt + 2))
    }

    constructor (faults: set<nat>, losses: map<nat, nat>)
      ensures Valid() && File() == None && !isOpen && attempts == 0
      ensures this.faults == faults && this.losses == losses
    {
      present, content, isOpen, pos, attempts := false, [], false, 0, 0;
      this.faults, this.losses := faults, losses;
    }

    /** Appends one line to the file, which is created if need be. An open stream is closed first, and
        closed again afterwards. Success means only that the file was opened. */
    method Write(data: Bytes) returns (ok: bool)
      requires Valid()
      modifies this
      ensures Valid() && isOpen == (data == [] && old(isOpen))
      ensures ok == (data != [] && old(attempts) !in faults)
      ensures present == (ok || old(present))
      ensures content == if ok then old(content) + Reaching(AsLine(data), ReachOf(old(attempts))) else old(content)
      ensures attempts == if data == [] then old(attempts) else old(attempts) + 1
    {
      if data == [] {
        return false;
      }
      isOpen, pos := false, 0;
      ok := attempts !in faults;
      if ok {
        present := true;
        content := content + Reaching(AsLine(data), ReachOf(attempts));
      }
      attempts := attempts + 1;
    }

    /** `std::getline` from the cursor; the file is opened at its start when it is not open. */
    method ReadLine() returns (ok: bool, line: Bytes)
      requires Valid()
      modifies this`isOpen, this`pos
      ensures Valid() && isOpen == present
      ensures var rest := if old(isOpen) then content[old(pos)..] else content;
              && ok == (rest != []) && line == Line(rest)
              && content[pos..] == AfterLine(rest)
    {
      if !isOpen {
        isOpen, pos := present, 0;
      }
      line := Line(content[pos..]);
      ok := pos < |content|;
      pos := Min(pos + |line| + 1, |content|);
    }

    method CloseFS()
      requires Valid()
      modifies this`isOpen, this`pos
      ensures Valid() && !isOpen
    {
      isOpen, pos := false, 0;
    }

    /** `setClientInfo`: the file is opened for up to three lines, and each time takes some bytes. */
    method SetClientInfo(p: Profile) returns (ok: bool)
      requires Valid()
      modifies this
      ensures Valid() && (isOpen ==> old(isOpen))
      ensures var s := SavingOf(p, old(attempts));
              ok == (s.opens == 3) && File() == FileAfter(old(File()), p, s)
    {
      ghost var before := content;
      ghost var s := SavingOf(p, attempts);
      ghost var first, second := Reaching(AsLine(p.name), s.name), Reaching(AsLine(BytesToHex(p.id)), s.id);
      LinesReached(p, s);
      ok := Write(p.name);
      if !ok {
        return;
      }
      assert content == before + first;
      var hexID := BytesToHex(p.id);
      ok := Write(hexID);
      Associative(before, first, second);
      if !ok {
        return;
      }
      assert content == before + (first + second);
      var encodedKey := EncodeBase64(p.privateKey, LINE_WIDTH);
      ok := Write(encodedKey);
      Associative(before, first + second, Reaching(AsLine(encodedKey), s.key));
    }

    /** The loop of `getClientInfo` that decodes the remaining lines. */
    method ReadKey() returns (key: Bytes)
      requires Valid() && isOpen
      modifies this`isOpen, this`pos
      ensures Valid() && key == DecodeLines(content[old(pos)..])
    {
      key := [];
      ghost var rest := content[pos..];
      ghost var whole := DecodeLines(rest);
      var ok, line := ReadLine();
      DecodeNext(key, rest);
      rest := AfterLine(rest);
      while ok
        invariant Valid() && isOpen && content[pos..] == rest
        invariant if ok then key + (DecodeBase64(line) + DecodeLines(rest)) == whole else key == whole
        decreases |rest|, ok
      {
        Associative(key, DecodeBase64(line), DecodeLines(rest));
        key := key + DecodeBase64(line);
        ok, line := ReadLine();
        DecodeNext(key, rest);
        rest := AfterLine(rest);
      }
    }

    /** `getClientInfo` on a handler without an open stream. */
    method GetClientInfo() returns (p: Option<Profile>)
      requires Valid() && !isOpen
      modifies this`isOpen, this`pos
      ensures Valid()
      ensures p == Load(content) && (p.Some? ==> !isOpen)
    {
      var ok, line := ReadLine();
      if !ok || !ValidUsername(line) {
        return None;
      }
      var name := line;
      ok, line := ReadLine();
      if !ok {
        return None;
      }
      var id := HexToBytes(line);
      if |id| != CLIENT_ID_SIZE {
        return None;
      }
      var key := ReadKey();
      CloseFS();
      if key == [] {
        return None;
      }
      return Some(Profile(name, id, key));
    }
  }
}
