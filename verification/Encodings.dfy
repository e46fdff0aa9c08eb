/** Text encodings of the profile file (Client/Utils.cpp), as sections 4 and 8 of RFC 4648 define
    them, with the line breaks that the client's encoder inserts. Text is a byte string in ASCII. */
module Encodings {
  import opened ByteStrings

  const NEWLINE: byte := 10
  const PAD: byte := 61

  // ----- base 16

  function HexDigit(v: nat): byte
    requires v < 16
  {
    if v < 10 then 48 + v else 55 + v
  }

  /** Value of a digit in either case. */
  function HexValue(c: byte): Option<nat> {
    if 48 <= c <= 57 then Some(c - 48)
    else if 65 <= c <= 70 then Some(c - 55)
    else if 97 <= c <= 102 then Some(c - 87)
    else None
  }

  function BytesToHex(b: Bytes): (t: Bytes)
    ensures |t| == 2 * |b| && NEWLINE !in t
  {
    if b == [] then [] else [HexDigit(b[0] / 16), HexDigit(b[0] % 16)] + BytesToHex(b[1..])
  }

  /** `None` where the source catches the decoder's exception. */
  function Unhex(t: Bytes): Option<Bytes> {
    if t == [] then Some([])
    else if |t| == 1 || HexValue(t[0]).None? || HexValue(t[1]).None? then None
    else
      var rest := Unhex(t[2..]);
      var high, low := HexValue(t[0]).value, HexValue(t[1]).value;
      if rest.None? then None else Some([(16 * high + low) as byte] + rest.value)
  }

  /** `hexToBytes`: the empty string on failure. */
  function HexToBytes(t: Bytes): Bytes {
    var b := Unhex(t);
    if b.None? then [] else b.value
  }

  lemma {:induction false} HexRoundTrip(b: Bytes)
    ensures Unhex(BytesToHex(b)) == Some(b)
  {
    if b != [] {
      var t := BytesToHex(b);
      HexRoundTrip(b[1..]);
      assert t[2..] == BytesToHex(b[1..]);
      assert HexValue(t[0]) == Some(b[0] / 16) && HexValue(t[1]) == Some(b[0] % 16);
      assert [b[0]] + b[1..] == b;
    }
  }

  // ----- base 64

  type sextet = x: int | 0 <= x < 64

  function Letter(v: sextet): (c: byte)
    ensures c != NEWLINE && c != PAD
  {
    if v < 26 then 65 + v else if v < 52 then 71 + v else if v < 62 then v - 4 else if v == 62 then 43 else 47
  }

  function LetterValue(c: byte): Option<sextet> {
    if 65 <= c <= 90 then Some(c - 65)
    else if 97 <= c <= 122 then Some(c - 71)
    else if 48 <= c <= 57 then Some(c + 4)
    else if c == 43 then Some(62)
    else if c == 47 then Some(63)
    else None
  }

  /** The bits of `b` in groups of six, the last group filled with zeros. */
  function ToSextets(b: Bytes): (s: seq<sextet>)
    ensures |s| == |b| / 3 * 4 + if |b| % 3 == 0 then 0 else |b| % 3 + 1
  {
    if b == [] then []
    else if |b| == 1 then [b[0] / 4, b[0] % 4 * 16]
    else if |b| == 2 then [b[0] / 4, b[0] % 4 * 16 + b[1] / 16, b[1] % 16 * 4]
    else [b[0] / 4, b[0] % 4 * 16 + b[1] / 16, b[1] % 16 * 4 + b[2] / 64, b[2] % 64] + ToSextets(b[3..])
  }

  /** Whole bytes of a string of sextets; a rest of less than eight bits is dropped. */
  function Octets(s: seq<sextet>): Bytes {
    if |s| < 2 then []
    else
      var a: int, b: int := s[0], s[1];
      var first: byte := 4 * a + b / 16;
      if |s| == 2 then [first]
      else
        var c: int := s[2];
        var second: byte := b % 16 * 16 + c / 4;
        if |s| == 3 then [first, second]
        else
          var d: int := s[3];
          [first, second, c % 4 * 64 + d] + Octets(s[4..])
  }

  lemma {:induction false} OctetsOfSextets(b: Bytes)
    ensures Octets(ToSextets(b)) == b
  {
    if |b| > 2 {
      var four: seq<sextet> := [b[0] / 4, b[0] % 4 * 16 + b[1] / 16, b[1] % 16 * 4 + b[2] / 64, b[2] % 64];
      assert (four + ToSextets(b[3..]))[4..] == ToSextets(b[3..]);
      OctetsOfSextets(b[3..]);
      assert [b[0], b[1], b[2]] + b[3..] == b;
    }
  }

  function Letters(s: seq<sextet>): (t: Bytes)
    ensures |t| == |s| && NEWLINE !in t
  {
    if s == [] then [] else [Letter(s[0])] + Letters(s[1..])
  }

  function Padding(len: nat): (p: Bytes)
    ensures NEWLINE !in p
  {
    if len % 3 == 0 then [] else if len % 3 == 1 then [PAD, PAD] else [PAD]
  }

  function Base64(b: Bytes): (t: Bytes)
    ensures NEWLINE !in t
  {
    Letters(ToSextets(b)) + Padding(|b|)
  }

  /** The values of the letters of `t`; every other character, padding included, is skipped. */
  function Sextets(t: Bytes): seq<sextet> {
    if t == [] then []
    else (if LetterValue(t[0]).None? then [] else [LetterValue(t[0]).value]) + Sextets(t[1..])
  }

  function DecodeBase64(t: Bytes): Bytes { Octets(Sextets(t)) }

  lemma PaddingIsSkipped(len: nat)
    ensures Sextets(Padding(len)) == []
  {
    assert Sextets([PAD]) == [] + Sextets([]) && Sextets([PAD, PAD]) == [] + Sextets([PAD]);
  }

  lemma SextetsOfLetter(v: sextet, t: Bytes)
    ensures Sextets([Letter(v)] + t) == [v] + Sextets(t)
  {
  }

  lemma {:induction false} SextetsOfLetters(s: seq<sextet>, pad: Bytes)
    requires Sextets(pad) == []
    ensures Sextets(Letters(s) + pad) == s
  {
    if s == [] {
      assert Letters(s) + pad == pad;
    } else {
      assert Letters(s) + pad == [Letter(s[0])] + (Letters(s[1..]) + pad);
      SextetsOfLetter(s[0], Letters(s[1..]) + pad);
      SextetsOfLetters(s[1..], pad);
      assert [s[0]] + s[1..] == s;
    }
  }

  lemma Base64RoundTrip(b: Bytes)
    ensures DecodeBase64(Base64(b)) == b
  {
    PaddingIsSkipped(|b|);
    SextetsOfLetters(ToSextets(b), Padding(|b|));
    OctetsOfSextets(b);
  }

  lemma SextetsOfGroup(group: Bytes, rest: Bytes)
    requires |group| == 3
    ensures ToSextets(group + rest) == ToSextets(group) + ToSextets(rest)
  {
    var b := group + rest;
    assert b[0] == group[0] && b[1] == group[1] && b[2] == group[2] && b[3..] == rest;
    assert group[3..] == [];
    assert ToSextets([]) == [];
  }

  /** One more group in front. */
  lemma SextetsStep(group: Bytes, groups: Bytes, rest: Bytes, tail: Bytes, head: Bytes, all: Bytes)
    requires |group| == 3 && head == group + groups && all == group + tail
    requires ToSextets(tail) == ToSextets(groups) + ToSextets(rest)
    ensures ToSextets(all) == ToSextets(head) + ToSextets(rest)
  {
    SextetsOfGroup(group, groups);
    SextetsOfGroup(group, tail);
    Associative(ToSextets(group), ToSextets(groups), ToSextets(rest));
  }

  lemma {:induction false} SextetsAppend(head: Bytes, rest: Bytes, all: Bytes)
    requires |head| % 3 == 0 && all == head + rest
    ensures ToSextets(all) == ToSextets(head) + ToSextets(rest)
    decreases |head|
  {
    if head == [] {
      assert all == rest;
    } else {
      var tail := head[3..] + rest;
      assert all == head[..3] + tail;
      SextetsAppend(head[3..], rest, tail);
      SextetsStep(head[..3], head[3..], rest, tail, head, all);
    }
  }

  lemma WholeGroups(b: Bytes, groups: nat)
    requires 3 * groups <= |b|
    ensures |b[..3 * groups]| % 3 == 0 && b == b[..3 * groups] + b[3 * groups..]
  {
  }

  lemma SextetsSplit(b: Bytes, groups: nat)
    requires 3 * groups <= |b|
    ensures ToSextets(b) == ToSextets(b[..3 * groups]) + ToSextets(b[3 * groups..])
  {
    WholeGroups(b, groups);
    SextetsAppend(b[..3 * groups], b[3 * groups..], b);
  }

  lemma {:induction false} LettersAppend(s: seq<sextet>, s': seq<sextet>)
    ensures Letters(s + s') == Letters(s) + Letters(s')
  {
    if s == [] {
      assert s + s' == s';
    } else {
      assert (s + s')[1..] == s[1..] + s';
      LettersAppend(s[1..], s');
    }
  }

  lemma PaddingOfSplit(len: nat, groups: nat)
    requires 3 * groups <= len
    ensures Padding(3 * groups) == [] && Padding(len - 3 * groups) == Padding(len)
    ensures 3 * groups % 3 == 0 && 3 * groups / 3 == groups
  {
  }

  lemma LettersOfSplit(s: seq<sextet>, s': seq<sextet>, pad: Bytes)
    ensures Letters(s + s') + pad == (Letters(s) + []) + (Letters(s') + pad)
  {
    LettersAppend(s, s');
  }

  /** Whole groups of three bytes encode independently of what follows. */
  lemma Base64Splits(b: Bytes, groups: nat)
    requires 3 * groups <= |b|
    ensures var head, tail := b[..3 * groups], b[3 * groups..];
            |Base64(head)| == 4 * groups && Base64(b) == Base64(head) + Base64(tail)
  {
    var head, tail := b[..3 * groups], b[3 * groups..];
    PaddingOfSplit(|b|, groups);
    SextetsSplit(b, groups);
    LettersOfSplit(ToSextets(head), ToSextets(tail), Padding(|b|));
  }

  lemma Base64Length(b: Bytes)
    ensures |Base64(b)| == 4 * ((|b| + 2) / 3)
  {
  }

  /** Text broken into lines of `width` characters, every line ended by a newline. */
  function Wrap(t: Bytes, width: nat): Bytes
    requires width > 0
  {
    if |t| <= width then t + [NEWLINE] else t[..width] + [NEWLINE] + Wrap(t[width..], width)
  }

  function EncodeBase64(b: Bytes, width: nat): Bytes
    requires width > 0
  {
    Wrap(Base64(b), width)
  }

  /** What is saved of a key: the encoder's lines and one more newline. */
  function KeyText(b: Bytes, width: nat): Bytes
    requires width > 0
  {
    EncodeBase64(b, width) + [NEWLINE]
  }

  // ----- lines

  /** The first line of a text, without its newline. */
  function Line(t: Bytes): (l: Bytes)
    ensures |l| <= |t| && NEWLINE !in l
  {
    if t == [] || t[0] == NEWLINE then [] else [t[0]] + Line(t[1..])
  }

  /** What follows the first line and its newline. */
  function AfterLine(t: Bytes): Bytes {
    if |Line(t)| + 1 <= |t| then t[|Line(t)| + 1..] else []
  }

  lemma {:induction false} LineOf(l: Bytes, rest: Bytes)
    requires NEWLINE !in l
    ensures Line(l + [NEWLINE] + rest) == l && AfterLine(l + [NEWLINE] + rest) == rest
  {
    var t := l + [NEWLINE] + rest;
    if l == [] {
      assert t[0] == NEWLINE;
    } else {
      assert t[0] == l[0] && t[1..] == l[1..] + [NEWLINE] + rest;
      LineOf(l[1..], rest);
    }
    assert t[|l| + 1..] == rest;
  }

  /** Decoding line by line and appending. */
  function DecodeLines(t: Bytes): Bytes
    decreases |t|
  {
    if t == [] then [] else DecodeBase64(Line(t)) + DecodeLines(AfterLine(t))
  }

  lemma DecodeLinesOfLine(l: Bytes, rest: Bytes)
    requires NEWLINE !in l
    ensures DecodeLines(l + [NEWLINE] + rest) == DecodeBase64(l) + DecodeLines(rest)
  {
    LineOf(l, rest);
  }

  /** A blank line adds nothing. */
  lemma BlankLine()
    ensures DecodeLines([NEWLINE]) == []
  {
    DecodeLinesOfLine([], []);
    assert [] + [NEWLINE] + [] == [NEWLINE];
  }

  lemma WidthOfGroups(b: Bytes, width: nat)
    requires width > 0 && width % 4 == 0 && |Base64(b)| > width
    ensures 3 * (width / 4) < |b| && 4 * (width / 4) == width
  {
    Base64Length(b);
  }

  lemma WrapLine(line: Bytes, rest: Bytes, width: nat)
    requires |line| == width > 0 && rest != []
    ensures Wrap(line + rest, width) == line + [NEWLINE] + Wrap(rest, width)
  {
  }

  lemma OnlyLineDecoded(b: Bytes)
    ensures DecodeLines(Base64(b) + [NEWLINE] + [NEWLINE]) == b
  {
    DecodeLinesOfLine(Base64(b), [NEWLINE]);
    BlankLine();
    Base64RoundTrip(b);
  }

  lemma FirstLineDecoded(head: Bytes, rest: Bytes)
    ensures DecodeLines(Base64(head) + [NEWLINE] + rest) == head + DecodeLines(rest)
  {
    Base64RoundTrip(head);
    DecodeLinesOfLine(Base64(head), rest);
  }

  /** Decoding an encoded key line by line gives the key back, at any line width divisible by four;
      the blank line at the end adds nothing. */
  lemma {:induction false} WrappedRoundTrip(b: Bytes, width: nat)
    requires width > 0 && width % 4 == 0
    ensures DecodeLines(KeyText(b, width)) == b
    decreases |b|
  {
    if |Base64(b)| <= width {
      OnlyLineDecoded(b);
    } else {
      var head, tail, rest := WrapSplits(b, width);
      WrappedRoundTrip(tail, width);
      FirstLineDecoded(head, rest);
    }
  }

  /** The first line of a long encoding encodes whole groups, the others encode the rest. */
  lemma WrapSplits(b: Bytes, width: nat) returns (head: Bytes, tail: Bytes, rest: Bytes)
    requires width > 0 && width % 4 == 0 && |Base64(b)| > width
    ensures b == head + tail && |tail| < |b| && rest == KeyText(tail, width)
    ensures |head| % 3 == 0 && |Base64(head)| == width && tail != []
    ensures KeyText(b, width) == Base64(head) + [NEWLINE] + rest
  {
    WidthOfGroups(b, width);
    head, tail := b[..3 * (width / 4)], b[3 * (width / 4)..];
    rest := KeyText(tail, width);
    Base64Splits(b, width / 4);
    WrapLine(Base64(head), Base64(tail), width);
    Associative(Base64(head) + [NEWLINE], EncodeBase64(tail, width), [NEWLINE]);
  }

  // ----- lines behind a text without a newline

  lemma FirstOfJoined<T>(a: seq<T>, t: seq<T>)
    requires a != []
    ensures (a + t)[0] == a[0] && (a + t)[1..] == a[1..] + t
  {
  }

  lemma RestOfJoined<T>(a: seq<T>, t: seq<T>, k: nat)
    requires k <= |t|
    ensures (a + t)[|a| + k..] == t[k..]
  {
  }

  lemma {:induction false} FirstLineOfJoined(a: Bytes, t: Bytes)
    requires NEWLINE !in a
    ensures Line(a + t) == a + Line(t)
  {
    if a == [] {
      assert a + t == t;
    } else {
      FirstOfJoined(a, t);
      FirstLineOfJoined(a[1..], t);
      assert [a[0]] + (a[1..] + Line(t)) == a + Line(t);
    }
  }

  lemma LineOfJoined(a: Bytes, t: Bytes)
    requires NEWLINE !in a
    ensures Line(a + t) == a + Line(t) && AfterLine(a + t) == AfterLine(t)
  {
    FirstLineOfJoined(a, t);
    if |Line(t)| + 1 <= |t| {
      RestOfJoined(a, t, |Line(t)| + 1);
    }
  }

  lemma LineOfLast(a: Bytes)
    requires NEWLINE !in a
    ensures Line(a) == a && AfterLine(a) == []
    ensures DecodeLines(a) == DecodeBase64(a)
  {
    LineOfJoined(a, []);
    assert a + [] == a;
    assert DecodeBase64([]) == [] && DecodeBase64(a) + [] == DecodeBase64(a);
  }

  lemma {:induction false} UnhexLength(t: Bytes)
    ensures Unhex(t).Some? ==> 2 * |Unhex(t).value| == |t|
  {
    if |t| > 1 && HexValue(t[0]).Some? && HexValue(t[1]).Some? {
      UnhexLength(t[2..]);
    }
  }

  // ----- a text that is cut off

  lemma OctetsOfFour(four: seq<sextet>, rest: seq<sextet>)
    requires |four| == 4
    ensures Octets(four + rest) == Octets(four) + Octets(rest)
  {
    var s := four + rest;
    assert s[0] == four[0] && s[1] == four[1] && s[2] == four[2] && s[3] == four[3];
    assert s[4..] == rest && four[4..] == [];
    assert Octets([]) == [];
  }

  lemma OctetsOfGroup(group: Bytes, rest: seq<sextet>)
    requires |group| == 3
    ensures |ToSextets(group)| == 4 && Octets(ToSextets(group) + rest) == group + Octets(rest)
  {
    OctetsOfSextets(group);
    OctetsOfFour(ToSextets(group), rest);
  }

  lemma CutBehind<T>(first: seq<T>, rest: seq<T>, n: nat)
    requires |first| <= n <= |first| + |rest|
    ensures (first + rest)[..n] == first + rest[..n - |first|]
  {
  }

  /** Of `m` sextets the bytes that they fill remain. */
  lemma {:induction false} OctetsOfCut(b: Bytes, m: nat)
    requires m <= |ToSextets(b)|
    ensures m * 3 / 4 <= |b| && Octets(ToSextets(b)[..m]) == b[..m * 3 / 4]
    decreases |b|
  {
    if |b| > 2 && m >= 4 {
      var first, rest := b[..3], b[3..];
      assert first + rest == b;
      SextetsOfGroup(first, rest);
      OctetsOfCut(rest, m - 4);
      OctetsOfGroup(first, ToSextets(rest)[..m - 4]);
      CutBehind(ToSextets(first), ToSextets(rest), m);
      CutBehind(first, rest, m * 3 / 4);
    } else {
      OctetsOfFew(b, m);
    }
  }

  lemma OctetsOfFew(b: Bytes, m: nat)
    requires (|b| <= 2 || m < 4) && m <= |ToSextets(b)|
    ensures m * 3 / 4 <= |b| && Octets(ToSextets(b)[..m]) == b[..m * 3 / 4]
  {
  }

  lemma {:induction false} SextetsOfCut(s: seq<sextet>, pad: Bytes, n: nat)
    requires forall i :: 0 <= i < |pad| ==> LetterValue(pad[i]).None?
    requires n <= |s| + |pad|
    ensures Sextets((Letters(s) + pad)[..n]) == s[..Min(n, |s|)]
  {
    if s == [] {
      SkippedSextets(pad[..n]);
      assert (Letters(s) + pad)[..n] == pad[..n];
    } else if n > 0 {
      var t := Letters(s[1..]) + pad;
      SextetsOfCut(s[1..], pad, n - 1);
      assert (Letters(s) + pad)[..n] == [Letter(s[0])] + t[..n - 1];
      SextetsOfLetter(s[0], t[..n - 1]);
    }
  }

  lemma {:induction false} SkippedSextets(t: Bytes)
    requires forall i :: 0 <= i < |t| ==> LetterValue(t[i]).None?
    ensures Sextets(t) == []
  {
    if t != [] {
      SkippedSextets(t[1..]);
    }
  }

  /** How many letters of `b` are among the first `n` characters of its encoding. */
  function LettersIn(b: Bytes, n: nat): nat { Min(n, |ToSextets(b)|) }

  lemma Base64Cut(b: Bytes, n: nat)
    requires n <= |Base64(b)|
    ensures LettersIn(b, n) * 3 / 4 <= |b| && DecodeBase64(Base64(b)[..n]) == b[..LettersIn(b, n) * 3 / 4]
  {
    SextetsOfCut(ToSextets(b), Padding(|b|), n);
    OctetsOfCut(b, LettersIn(b, n));
  }

  lemma Base64CutIsWholeIff(b: Bytes, n: nat)
    requires n <= |Base64(b)|
    ensures DecodeBase64(Base64(b)[..n]) <= b
    ensures DecodeBase64(Base64(b)[..n]) == b <==> n + |Padding(|b|)| >= |Base64(b)|
  {
    Base64Cut(b, n);
  }

  /** At most the two last newlines and the padding are missing. */
  predicate LettersArrived(b: Bytes, width: nat, n: nat)
    requires width > 0
  {
    n + |Padding(|b|)| + 2 >= |KeyText(b, width)|
  }

  predicate DecodesPart(b: Bytes, width: nat, n: nat)
    requires width > 0
  {
    var t := Cut(KeyText(b, width), n);
    DecodeLines(t) <= b && (DecodeLines(t) == b <==> LettersArrived(b, width, n))
  }

  lemma CutWithinLine(line: Bytes, n: nat, more: Bytes)
    requires NEWLINE !in line && n <= |line|
    ensures var t := Cut(line + more, n);
            t == line[..n] && AfterLine(t) == [] && DecodeLines(t) == DecodeBase64(line[..n])
  {
    assert Cut(line + more, n) == line[..n];
    LineOfLast(line[..n]);
  }

  lemma CutBehindLine(line: Bytes, n: nat)
    requires NEWLINE !in line && n > |line|
    ensures var t := Cut(line + [NEWLINE] + [NEWLINE], n);
            DecodeLines(AfterLine(t)) == [] && DecodeLines(t) == DecodeBase64(line)
  {
    var last := if n == |line| + 1 then [] else [NEWLINE];
    assert Cut(line + [NEWLINE] + [NEWLINE], n) == line + [NEWLINE] + last;
    BlankLine();
    LineOf(line, last);
    assert DecodeLines(last) == [];
    assert DecodeBase64(line) + [] == DecodeBase64(line);
  }

  lemma OneLineCut(b: Bytes, width: nat, n: nat)
    requires width > 0 && |Base64(b)| <= width
    ensures DecodesPart(b, width, n)
    ensures DecodeLines(AfterLine(Cut(KeyText(b, width), n))) == []
  {
    var line := Base64(b);
    if n <= |line| {
      assert KeyText(b, width) == line + [NEWLINE, NEWLINE];
      CutWithinLine(line, n, [NEWLINE, NEWLINE]);
      Base64CutIsWholeIff(b, n);
    } else {
      CutBehindLine(line, n);
      Base64RoundTrip(b);
    }
  }

  lemma FirstLineCut(head: Bytes, tail: Bytes, width: nat, text: Bytes, n: nat)
    requires tail != [] && |Base64(head)| == width > 0 && |head| % 3 == 0
    requires text == Base64(head) + [NEWLINE] + KeyText(tail, width) && n <= width
    ensures var t := Cut(text, n);
            DecodeLines(t) <= head && AfterLine(t) == []
  {
    var t := Cut(text, n);
    assert t == Base64(head)[..n];
    LineOfLast(t);
    Base64CutIsWholeIff(head, n);
  }

  lemma LaterLineCut(head: Bytes, tail: Bytes, width: nat, text: Bytes, n: nat)
    requires |Base64(head)| == width > 0
    requires text == Base64(head) + [NEWLINE] + KeyText(tail, width) && n > width
    ensures var t, later := Cut(text, n), Cut(KeyText(tail, width), n - width - 1);
            Line(t) == Base64(head) && AfterLine(t) == later && DecodeLines(t) == head + DecodeLines(later)
  {
    var t, later := Cut(text, n), Cut(KeyText(tail, width), n - width - 1);
    assert t == Base64(head) + [NEWLINE] + later;
    LineOf(Base64(head), later);
    FirstLineDecoded(head, later);
  }

  lemma SplitArrived(b: Bytes, head: Bytes, tail: Bytes, width: nat, n: nat)
    requires width > 0 && b == head + tail && |head| % 3 == 0
    requires |KeyText(b, width)| == width + 1 + |KeyText(tail, width)| && tail != []
    ensures n > width ==> (LettersArrived(b, width, n) <==> LettersArrived(tail, width, n - width - 1))
    ensures n <= width ==> !LettersArrived(b, width, n)
  {
    assert Padding(|b|) == Padding(|tail|);
    if n <= width {
      KeyTextIsLong(tail, width);
    }
  }

  lemma KeyTextIsLong(b: Bytes, width: nat)
    requires width > 0 && b != []
    ensures |KeyText(b, width)| >= |Base64(b)| + 2 >= 6
    decreases |Base64(b)|
  {
    Base64Length(b);
    WrapIsLonger(Base64(b), width);
  }

  lemma {:induction false} WrapIsLonger(t: Bytes, width: nat)
    requires width > 0
    ensures |Wrap(t, width)| > |t|
    decreases |t|
  {
    if |t| > width {
      WrapIsLonger(t[width..], width);
    }
  }

  lemma PrefixBehind(head: Bytes, part: Bytes, tail: Bytes)
    requires part <= tail
    ensures head + part <= head + tail && (head + part == head + tail <==> part == tail)
  {
  }

  lemma PrefixOfHead(head: Bytes, part: Bytes, tail: Bytes)
    requires part <= head && tail != []
    ensures part <= head + tail && part != head + tail
  {
  }

  lemma DecodesPartBehind(b: Bytes, head: Bytes, tail: Bytes, width: nat, n: nat)
    requires width > 0 && b == head + tail && |head| % 3 == 0 && |Base64(head)| == width && tail != []
    requires KeyText(b, width) == Base64(head) + [NEWLINE] + KeyText(tail, width)
    requires n > width ==> DecodesPart(tail, width, n - width - 1)
    ensures DecodesPart(b, width, n)
  {
    var text := KeyText(b, width);
    SplitArrived(b, head, tail, width, n);
    if n <= width {
      FirstLineCut(head, tail, width, text, n);
      PrefixOfHead(head, DecodeLines(Cut(text, n)), tail);
    } else {
      LaterLineCut(head, tail, width, text, n);
      PrefixBehind(head, DecodeLines(Cut(KeyText(tail, width), n - width - 1)), tail);
    }
  }

  /** A saved key that is cut off after `n` bytes decodes to the beginning of the key, and to all of
      it if and only if at most the two last newlines and the padding are missing. */
  lemma {:induction false} KeyTextCut(b: Bytes, width: nat, n: nat)
    requires width > 0 && width % 4 == 0
    ensures DecodesPart(b, width, n)
    decreases |b|
  {
    if |Base64(b)| <= width {
      OneLineCut(b, width, n);
    } else {
      var head, tail, rest := WrapSplits(b, width);
      if n > width {
        KeyTextCut(tail, width, n - width - 1);
      }
      DecodesPartBehind(b, head, tail, width, n);
    }
  }

  /** The first line is a full one, or nothing is decoded from what follows it. */
  predicate FullLineOrLast(t: Bytes, width: nat) {
    |Line(t)| == width || DecodeLines(AfterLine(t)) == []
  }

  lemma LastLineHides(t: Bytes, width: nat)
    requires DecodeLines(t) == []
    ensures FullLineOrLast(t, width)
  {
    if t != [] {
      assert DecodeLines(t) == DecodeBase64(Line(t)) + DecodeLines(AfterLine(t));
    }
  }

  predicate LinesAreFull(t: Bytes, width: nat) {
    FullLineOrLast(t, width) && FullLineOrLast(AfterLine(t), width)
  }

  predicate KeyLinesAreFull(b: Bytes, width: nat, n: nat)
    requires width > 0
  {
    LinesAreFull(Cut(KeyText(b, width), n), width)
  }

  lemma KeyLinesBehind(b: Bytes, head: Bytes, tail: Bytes, width: nat, n: nat)
    requires tail != [] && |Base64(head)| == width > 0 && |head| % 3 == 0
    requires KeyText(b, width) == Base64(head) + [NEWLINE] + KeyText(tail, width)
    requires n > width ==> KeyLinesAreFull(tail, width, n - width - 1)
    ensures KeyLinesAreFull(b, width, n)
  {
    if n <= width {
      FirstLineCut(head, tail, width, KeyText(b, width), n);
      LastLineHides([], width);
    } else {
      LaterLineCut(head, tail, width, KeyText(b, width), n);
    }
  }

  lemma OnlyLineIsFull(b: Bytes, width: nat, n: nat)
    requires width > 0 && |Base64(b)| <= width
    ensures KeyLinesAreFull(b, width, n)
  {
    OneLineCut(b, width, n);
    LastLineHides(AfterLine(Cut(KeyText(b, width), n)), width);
  }

  lemma {:induction false} KeyTextLines(b: Bytes, width: nat, n: nat)
    requires width > 0 && width % 4 == 0
    ensures KeyLinesAreFull(b, width, n)
    decreases |b|
  {
    if |Base64(b)| <= width {
      OnlyLineIsFull(b, width, n);
    } else {
      var head, tail, rest := WrapSplits(b, width);
      if n > width {
        KeyTextLines(tail, width, n - width - 1);
      }
      KeyLinesBehind(b, head, tail, width, n);
    }
  }

  // ----- the alphabets

  function Range(first: byte, n: nat): (s: Bytes)
    requires first + n <= 256
    ensures |s| == n && forall i :: 0 <= i < n ==> s[i] == first + i
  {
    seq(n, i requires 0 <= i < n => first + i)
  }

  /** The letters of section 4 of RFC 4648, in order: A to Z, a to z, 0 to 9, plus and slash. */
  const ALPHABET: Bytes := Range(65, 26) + Range(97, 26) + Range(48, 10) + [43, 47]

  lemma LettersAreTheAlphabet(v: sextet)
    ensures |ALPHABET| == 64 && Letter(v) == ALPHABET[v] && LetterValue(ALPHABET[v]) == Some(v)
  {
  }

  /** Every other character is skipped. */
  lemma OthersAreSkipped(c: byte)
    ensures LetterValue(c).None? <==> c !in ALPHABET
  {
    if LetterValue(c).Some? {
      LettersAreTheAlphabet(LetterValue(c).value);
      assert Letter(LetterValue(c).value) == c;
    }
    if c in ALPHABET {
      var v :| 0 <= v < |ALPHABET| && ALPHABET[v] == c;
      LettersAreTheAlphabet(v);
    }
  }

  lemma OneLetter(v: sextet, rest: seq<sextet>)
    ensures Letters([v] + rest) == [ALPHABET[v]] + Letters(rest)
  {
    LettersAreTheAlphabet(v);
    assert ([v] + rest)[1..] == rest;
  }

  lemma FourLetters(a: sextet, b: sextet, c: sextet, d: sextet)
    ensures Letters([a]) == [ALPHABET[a]]
    ensures Letters([a, b]) == [ALPHABET[a], ALPHABET[b]]
    ensures Letters([a, b, c]) == [ALPHABET[a], ALPHABET[b], ALPHABET[c]]
    ensures Letters([a, b, c, d]) == [ALPHABET[a], ALPHABET[b], ALPHABET[c], ALPHABET[d]]
  {
    OneLetter(d, []);
    OneLetter(c, [d]);
    OneLetter(b, [c, d]);
    OneLetter(a, [b, c, d]);
    OneLetter(c, []);
    OneLetter(b, [c]);
    OneLetter(a, [b, c]);
    OneLetter(b, []);
    OneLetter(a, [b]);
    OneLetter(a, []);
    assert [a] + [] == [a] && [b] + [] == [b] && [c] + [] == [c] && [d] + [] == [d];
    assert [c] + [d] == [c, d] && [b] + [c, d] == [b, c, d] && [a] + [b, c, d] == [a, b, c, d];
    assert [b] + [c] == [b, c] && [a] + [b, c] == [a, b, c] && [a] + [b] == [a, b];
  }

  lemma ThreeBytes(a: byte, b: byte, c: byte)
    ensures Base64([a, b, c]) ==
              [ALPHABET[a / 4], ALPHABET[a % 4 * 16 + b / 16], ALPHABET[b % 16 * 4 + c / 64], ALPHABET[c % 64]]
  {
    var s: seq<sextet> := [a / 4, a % 4 * 16 + b / 16, b % 16 * 4 + c / 64, c % 64];
    assert [a, b, c][3..] == [] && ToSextets([]) == [];
    assert ToSextets([a, b, c]) == s + ToSextets([]) == s;
    FourLetters(s[0], s[1], s[2], s[3]);
  }

  lemma TwoBytes(a: byte, b: byte)
    ensures Base64([a, b]) == [ALPHABET[a / 4], ALPHABET[a % 4 * 16 + b / 16], ALPHABET[b % 16 * 4]] + [61]
  {
    var s: seq<sextet> := [a / 4, a % 4 * 16 + b / 16, b % 16 * 4];
    assert ToSextets([a, b]) == s;
    FourLetters(s[0], s[1], s[2], 0);
  }

  lemma OneByte(a: byte)
    ensures Base64([a]) == [ALPHABET[a / 4], ALPHABET[a % 4 * 16]] + [61, 61]
  {
    var s: seq<sextet> := [a / 4, a % 4 * 16];
    assert ToSextets([a]) == s;
    FourLetters(s[0], s[1], 0, 0);
  }

  /** Three bytes are four letters, their bits in groups of six, the most significant first; one or two bytes
      are filled with zero bits, and with `=` for the letters that no byte reaches. Longer strings are
      encoded three bytes at a time (`Base64Splits`). */
  lemma GroupLayout(a: byte, b: byte, c: byte)
    ensures Base64([a, b, c]) ==
              [ALPHABET[a / 4], ALPHABET[a % 4 * 16 + b / 16], ALPHABET[b % 16 * 4 + c / 64], ALPHABET[c % 64]]
    ensures Base64([a, b]) == [ALPHABET[a / 4], ALPHABET[a % 4 * 16 + b / 16], ALPHABET[b % 16 * 4]] + [61]
    ensures Base64([a]) == [ALPHABET[a / 4], ALPHABET[a % 4 * 16]] + [61, 61]
  {
    ThreeBytes(a, b, c);
    TwoBytes(a, b);
    OneByte(a);
  }

  /** 0 to 9 and A to F. */
  const HEX_DIGITS: Bytes := Range(48, 10) + Range(65, 6)

  /** Digit for digit, upper case, the more significant half first. */
  lemma {:induction false} HexLayout(b: Bytes, i: nat)
    requires i < |b|
    ensures |HEX_DIGITS| == 16 && BytesToHex(b)[2 * i] == HEX_DIGITS[b[i] / 16]
    ensures BytesToHex(b)[2 * i + 1] == HEX_DIGITS[b[i] % 16]
  {
    if i > 0 {
      HexLayout(b[1..], i - 1);
      assert BytesToHex(b)[2..] == BytesToHex(b[1..]);
      assert BytesToHex(b)[2 * i] == BytesToHex(b[1..])[2 * (i - 1)];
      assert BytesToHex(b)[2 * i + 1] == BytesToHex(b[1..])[2 * (i - 1) + 1];
    }
  }

  /** Digits are read in either case. */
  lemma HexReadsBothCases(v: nat)
    requires v < 16
    ensures HexValue(HEX_DIGITS[v]) == Some(v)
    ensures v >= 10 ==> HexValue(HEX_DIGITS[v] + 32) == Some(v)
  {
  }

  /** 54 bytes make a line of 72 letters; a key ends with two newlines. */
  lemma KeyTextLayout(key: Bytes)
    ensures KeyText(key, 72) ==
              if |key| <= 54 then Base64(key) + [10, 10] else Base64(key[..54]) + [10] + KeyText(key[54..], 72)
  {
    Base64Length(key);
    if |key| <= 54 {
      assert Base64(key) + [10] + [10] == Base64(key) + [10, 10];
    } else {
      var head, tail, rest := WrapSplits(key, 72);
      Base64Length(head);
      assert head == key[..|head|] && tail == key[|head|..];
    }
  }
}
