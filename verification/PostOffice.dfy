/** The abstract post office: who is registered, and for every client a box that remembers what was
    accepted for it, which of those messages are queued, and what each complete reply carried.
    Messages are named by their position in the acceptance order, which is never reused. */
module PostOffice {
  import opened ByteStrings
  import opened MessageTable
  import opened Protocol

  datatype Item = Item(from: Bytes, typ: nat, content: Bytes)

  datatype Box = Box(accepted: seq<Item>, queue: seq<nat>, replies: seq<seq<nat>>)

  datatype Office = Office(names: set<Bytes>, boxes: map<Bytes, Box>)

  /** A request as the office sees it. `stored` tells whether the insertion reaches the disk;
      `written` whether the mailbox reply is completely sent; `lost` as in the delete loop. */
  datatype Ask =
    | Nothing
    | Register(id: Bytes, name: Bytes, stored: bool)
    | Send(to: Bytes, item: Item, stored: bool)
    | Fetch(id: Bytes, written: bool, lost: set<nat>)

  function EmptyBox(): Box { Box([], [], []) }

  function Post(b: Box, item: Item): Box {
    b.(accepted := b.accepted + [item], queue := b.queue + [|b.accepted|])
  }

  function HandOver(b: Box, lost: set<nat>): Box {
    b.(queue := Kept(b.queue, lost, 0), replies := b.replies + [b.queue])
  }

  predicate Accepts(o: Office, ask: Ask) {
    match ask
    case Nothing => false
    case Register(id, name, stored) => stored && id !in o.boxes && name !in o.names
    case Send(to, item, stored) => stored && to in o.boxes && item.from in o.boxes && ValidMessageType(item.typ)
    case Fetch(id, written, _) => written && id in o.boxes
  }

  function Next(o: Office, ask: Ask): Office {
    if !Accepts(o, ask) then o else
      match ask
      case Nothing => o
      case Register(id, name, _) => Office(o.names + {name}, o.boxes[id := EmptyBox()])
      case Send(to, item, _) => o.(boxes := o.boxes[to := Post(o.boxes[to], item)])
      case Fetch(id, _, lost) => o.(boxes := o.boxes[id := HandOver(o.boxes[id], lost)])
  }

  // ----- no loss, in every history

  predicate Below(places: seq<nat>, n: nat) {
    forall i :: 0 <= i < |places| ==> places[i] < n
  }

  predicate Carried(replies: seq<seq<nat>>, i: nat) {
    exists r :: 0 <= r < |replies| && i in replies[r]
  }

  /** Queue and replies list accepted messages in acceptance order without duplicates, and each
      accepted message is queued or was carried by a complete reply. */
  ghost predicate Sound(b: Box) {
    && Ascending(b.queue)
    && Below(b.queue, |b.accepted|)
    && (forall r :: 0 <= r < |b.replies| ==> Ascending(b.replies[r]) && Below(b.replies[r], |b.accepted|))
    && (forall i :: 0 <= i < |b.accepted| ==> i in b.queue || Carried(b.replies, i))
  }

  lemma {:induction false} KeptIn(q: seq<nat>, lost: set<nat>, from: nat)
    ensures forall x :: x in Kept(q, lost, from) ==> x in q
  {
    if q != [] {
      KeptIn(q[1..], lost, from + 1);
    }
  }

  lemma AscendingCons(x: nat, rest: seq<nat>)
    requires Ascending(rest) && forall y :: y in rest ==> x < y
    ensures Ascending([x] + rest)
  {
    assert forall j :: 0 <= j < |rest| ==> rest[j] in rest;
  }

  lemma {:induction false} KeptSpec(q: seq<nat>, lost: set<nat>, from: nat)
    requires Ascending(q)
    ensures Ascending(Kept(q, lost, from))
    ensures forall x :: x in Kept(q, lost, from) ==> x in q
  {
    KeptIn(q, lost, from);
    if q != [] {
      var rest := Kept(q[1..], lost, from + 1);
      assert forall i :: 0 <= i < |q[1..]| ==> q[1..][i] > q[0];
      KeptSpec(q[1..], lost, from + 1);
      if from in lost {
        AscendingCons(q[0], rest);
        assert Kept(q, lost, from) == [q[0]] + rest;
      } else {
        assert Kept(q, lost, from) == rest;
      }
    }
  }

  lemma {:induction false} KeptBelow(q: seq<nat>, n: nat, lost: set<nat>, from: nat)
    requires Below(q, n)
    ensures Below(Kept(q, lost, from), n)
  {
    if q != [] {
      KeptBelow(q[1..], n, lost, from + 1);
    }
  }

  lemma CarriedMonotone(replies: seq<seq<nat>>, more: seq<nat>, i: nat)
    ensures Carried(replies + [more], i) <==> Carried(replies, i) || i in more
  {
    var all := replies + [more];
    assert all[|replies|] == more;
    if Carried(replies, i) {
      var r :| 0 <= r < |replies| && i in replies[r];
      assert all[r] == replies[r];
    }
  }

  lemma PostKeepsSound(b: Box, item: Item)
    requires Sound(b)
    ensures Sound(Post(b, item))
  {
  }

  lemma HandOverKeepsSound(b: Box, lost: set<nat>)
    requires Sound(b)
    ensures Sound(HandOver(b, lost))
  {
    var b' := HandOver(b, lost);
    KeptSpec(b.queue, lost, 0);
    KeptBelow(b.queue, |b.accepted|, lost, 0);
    forall i | 0 <= i < |b'.accepted|
      ensures i in b'.queue || Carried(b'.replies, i)
    {
      CarriedMonotone(b.replies, b.queue, i);
    }
  }

  ghost predicate AllSound(o: Office) { forall c :: c in o.boxes ==> Sound(o.boxes[c]) }

  // ----- the queue as a suffix of what was accepted

  predicate IsSuffix(q: seq<nat>, n: nat) {
    |q| <= n && forall i :: 0 <= i < |q| ==> q[i] == n - |q| + i
  }

  /** The delete loop over `n` rows stops somewhere: after the first lost deletion all are lost. */
  predicate StopsOnly(lost: set<nat>, n: nat) {
    forall i, j :: 0 <= i < j < n && i in lost ==> j in lost
  }

  /** Number of deletions that are committed before the loop stops. */
  function StopPoint(lost: set<nat>, from: nat, n: nat): (k: nat)
    ensures k <= n
    decreases n
  {
    if n == 0 || from in lost then 0 else 1 + StopPoint(lost, from + 1, n - 1)
  }

  lemma {:induction false} KeptAfterStop(q: seq<nat>, lost: set<nat>, from: nat)
    requires forall i, j :: from <= i < j < from + |q| && i in lost ==> j in lost
    ensures Kept(q, lost, from) == q[StopPoint(lost, from, |q|)..]
  {
    if q != [] {
      KeptAfterStop(q[1..], lost, from + 1);
      if from in lost {
        assert forall j :: from < j < from + |q| ==> j in lost;
        if |q| > 1 {
          assert StopPoint(lost, from + 1, |q| - 1) == 0;
        }
        assert [q[0]] + q[1..] == q;
      }
    }
  }

  /** Where a kept entry comes from. */
  lemma {:induction false} KeptAt(q: seq<nat>, lost: set<nat>, from: nat, i: nat)
    requires Ascending(q) && i < |q|
    ensures q[i] in Kept(q, lost, from) <==> from + i in lost
  {
    var rest := q[1..];
    KeptSpec(rest, lost, from + 1);
    if i == 0 {
      assert forall k :: 0 <= k < |rest| ==> rest[k] > q[0];
      assert q[0] !in rest;
    } else {
      assert q[i] == rest[i - 1] && q[i] != q[0];
      KeptAt(rest, lost, from + 1, i - 1);
    }
  }

  /** Deleting keeps the queue a suffix of the accepted messages if and only if the loop stops for
      good at its first lost deletion. A single deletion that fails, whose result the server
      ignores, leaves a hole. */
  lemma SuffixIff(q: seq<nat>, n: nat, lost: set<nat>)
    requires IsSuffix(q, n)
    ensures IsSuffix(Kept(q, lost, 0), n) <==> StopsOnly(lost, |q|)
  {
    var k := Kept(q, lost, 0);
    if StopsOnly(lost, |q|) {
      KeptAfterStop(q, lost, 0);
    }
    if IsSuffix(k, n) {
      forall i, j | 0 <= i < j < |q| && i in lost
        ensures j in lost
      {
        KeptAt(q, lost, 0, i);
        KeptAt(q, lost, 0, j);
        var p :| 0 <= p < |k| && k[p] == q[i];
        assert k[p + (j - i)] == q[j];
      }
    }
  }

  // ----- exactly once, in order

  function UpTo(n: nat): (s: seq<nat>)
    ensures |s| == n && forall i :: 0 <= i < n ==> s[i] == i
  {
    seq(n, i => i)
  }

  /** Everything carried so far followed by the queue is the acceptance order itself. */
  ghost predicate ExactlyOnce(b: Box) {
    Flatten(b.replies) + b.queue == UpTo(|b.accepted|)
  }

  /** Replies and queue together hold at least as many places as there are accepted messages. */
  predicate NoneMissing(b: Box) {
    |Flatten(b.replies)| + |b.queue| >= |b.accepted|
  }

  lemma ExactlyOncePost(b: Box, item: Item)
    ensures ExactlyOnce(Post(b, item)) <==> ExactlyOnce(b)
  {
    var carried, n := Flatten(b.replies), |b.accepted|;
    assert UpTo(n + 1) == UpTo(n) + [n];
    assert carried + (b.queue + [n]) == (carried + b.queue) + [n];
    assert (carried + (b.queue + [n]))[..|carried + b.queue|] == carried + b.queue;
    if ExactlyOnce(Post(b, item)) {
      assert |carried + b.queue| == n;
      assert UpTo(n + 1)[..n] == UpTo(n);
    }
  }

  lemma {:induction false} KeptOfSome<T>(s: seq<T>, lost: set<nat>, from: nat, i: nat)
    requires from <= i < from + |s| && i in lost
    ensures Kept(s, lost, from) != []
  {
    if i != from {
      KeptOfSome(s[1..], lost, from + 1, i);
    }
  }

  /** A handover keeps delivery exactly-once if and only if no deletion of the loop is lost, and
      nothing restores it. */
  lemma ExactlyOnceIff(b: Box, lost: set<nat>)
    requires NoneMissing(b)
    ensures NoneMissing(HandOver(b, lost))
    ensures ExactlyOnce(HandOver(b, lost)) <==> ExactlyOnce(b) && forall i :: 0 <= i < |b.queue| ==> i !in lost
  {
    FlattenAppend(b.replies, b.queue);
    var k, carried := Kept(b.queue, lost, 0), Flatten(b.replies) + b.queue;
    if forall i :: 0 <= i < |b.queue| ==> i !in lost {
      KeptOfNone(b.queue, lost, 0);
      assert carried + k == carried;
    } else {
      var i :| 0 <= i < |b.queue| && i in lost;
      KeptOfSome(b.queue, lost, 0, i);
      assert |carried + k| > |b.accepted|;
    }
  }
}
