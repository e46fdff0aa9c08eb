/** Byte strings as Python's `struct` and the client's packed structs read and write them:
    little-endian integers, fixed-width strings and NUL-terminated names. */
module ByteStrings {

  type byte = x: int | 0 <= x < 256
  type Bytes = seq<byte>

  datatype Option<+T> = None | Some(value: T)

  const U8: nat := 0x100
  const U16: nat := 0x1_0000
  const U32: nat := 0x1_0000_0000

  function Min(a: nat, b: nat): nat { if a < b then a else b }

  function Zeros(n: nat): (z: Bytes)
    ensures |z| == n
    ensures forall i :: 0 <= i < n ==> z[i] == 0
  {
    seq(n, _ => 0)
  }

  /** The first `n` bytes, or all of them. */
  function Cut(s: Bytes, n: nat): (c: Bytes)
    ensures c <= s && |c| == if n < |s| then n else |s|
  {
    s[..Min(n, |s|)]
  }

  lemma SliceOfSplit(s: Bytes, at: nat, first: Bytes, rest: Bytes, k: nat)
    requires at <= |s| && s[at..] == first + rest && k <= |first|
    ensures at + k <= |s| && first[..k] == s[at..at + k]
  {
  }

  lemma Middle(a: Bytes, b: Bytes, c: Bytes)
    ensures ((a + b) + c)[..|a|] == a && ((a + b) + c)[|a|..|a| + |b|] == b
  {
  }

  lemma FourParts(a: Bytes, b: Bytes, c: Bytes, d: Bytes)
    ensures var s := (a + b) + (c + d);
            var ab := |a| + |b|;
            s[..|a|] == a && s[|a|..ab] == b && s[ab..ab + |c|] == c && s[ab + |c|..] == d
  {
  }

  lemma Associative<T>(a: seq<T>, b: seq<T>, c: seq<T>)
    ensures (a + b) + c == a + (b + c)
  {
  }

  function Flatten<T>(pieces: seq<seq<T>>): seq<T> {
    if pieces == [] then [] else pieces[0] + Flatten(pieces[1..])
  }

  lemma {:induction false} FlattenAppend<T>(pieces: seq<seq<T>>, last: seq<T>)
    ensures Flatten(pieces + [last]) == Flatten(pieces) + last
  {
    if pieces == [] {
      assert Flatten([last]) == last + Flatten<T>([]);
    } else {
      assert (pieces + [last])[1..] == pieces[1..] + [last];
      FlattenAppend(pieces[1..], last);
    }
  }

  // ----- little-endian integers

  function Pow256(n: nat): (p: nat)
    ensures p > 0
  {
    if n == 0 then 1 else 256 * Pow256(n - 1)
  }

  /** The low `n` bytes of `v`, least significant first. */
  function LittleEndian(n: nat, v: nat): (s: Bytes)
    ensures |s| == n
  {
    if n == 0 then [] else [v % 256] + LittleEndian(n - 1, v / 256)
  }

  function Value(s: Bytes): nat {
    if s == [] then 0 else s[0] + 256 * Value(s[1..])
  }

  lemma {:induction false} ValueOfLittleEndian(n: nat, v: nat)
    requires v < Pow256(n)
    ensures Value(LittleEndian(n, v)) == v
  {
    if n > 0 {
      ValueOfLittleEndian(n - 1, v / 256);
      assert LittleEndian(n, v)[1..] == LittleEndian(n - 1, v / 256);
    }
  }

  /** Reading an integer loses nothing: the bytes can be rebuilt from the value. */
  lemma {:induction false} LittleEndianOfValue(s: Bytes)
    ensures Value(s) < Pow256(|s|)
    ensures LittleEndian(|s|, Value(s)) == s
  {
    if s != [] {
      LittleEndianOfValue(s[1..]);
      assert Value(s) % 256 == s[0] && Value(s) / 256 == Value(s[1..]);
    }
  }

  lemma Widths()
    ensures Pow256(1) == U8 && Pow256(2) == U16 && Pow256(4) == U32
  {
    assert Pow256(0) == 1;
    assert Pow256(1) == 256 && Pow256(2) == 256 * Pow256(1) && Pow256(3) == 256 * Pow256(2);
  }

  // ----- fixed-width strings and names

  /** `struct.pack(f"{n}s", s)`: cut or padded with zeros to exactly `n` bytes. */
  function Fixed(n: nat, s: Bytes): (f: Bytes)
    ensures |f| == n
  {
    if |s| >= n then s[..n] else s + Zeros(n - |s|)
  }

  /** The part of `s` before its first NUL: `partition(b'\0')[0]`, and what a C string holds. */
  function UntilNul(s: Bytes): (t: Bytes)
    ensures t <= s && 0 !in t
    ensures |t| < |s| ==> s[|t|] == 0
  {
    if s == [] || s[0] == 0 then [] else [s[0]] + UntilNul(s[1..])
  }

  /** A NUL-free name followed by a NUL is read back whole, whatever follows. */
  lemma {:induction false} UntilNulOfTerminated(name: Bytes, rest: Bytes)
    requires 0 !in name
    ensures UntilNul(name + [0] + rest) == name
  {
    var s := name + [0] + rest;
    if name == [] {
      assert s[0] == 0;
    } else {
      assert s[0] == name[0] && s[1..] == name[1..] + [0] + rest;
      UntilNulOfTerminated(name[1..], rest);
    }
  }

  lemma UntilNulOfFixed(n: nat, name: Bytes)
    requires 0 !in name && |name| < n
    ensures UntilNul(Fixed(n, name)) == name
  {
    assert Fixed(n, name) == name + [0] + Zeros(n - |name| - 1);
    UntilNulOfTerminated(name, Zeros(n - |name| - 1));
  }
}
