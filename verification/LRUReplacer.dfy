/**
  The replacer: a circular doubly linked list of the evictable frames behind a sentinel, most recently unpinned
  first, with a hash table of its nodes.  The sentinel's id counts the nodes.
 */
module Replacers {
  type FrameId = int

  // ------------------------------------------------------------------ what it computes

  datatype Op = Victim | Pin(frame: FrameId) | Unpin(frame: FrameId)

  function IndexOf(s: seq<FrameId>, f: FrameId): (i: nat)
    ensures i <= |s| && (i < |s| ==> s[i] == f) && (i < |s| <==> f in s)
    ensures forall j :: 0 <= j < i ==> s[j] != f
  {
    if s == [] || s[0] == f then 0 else 1 + IndexOf(s[1..], f)
  }

  function Without(s: seq<FrameId>, f: FrameId): seq<FrameId> {
    var i := IndexOf(s, f);
    if i < |s| then s[..i] + s[i + 1..] else s
  }

  /** The evictable frames, most recent first, after an operation. */
  function Apply(s: seq<FrameId>, op: Op): seq<FrameId> {
    match op
    case Victim => if s == [] then s else s[..|s| - 1]
    case Pin(f) => Without(s, f)
    case Unpin(f) => if f in s then s else [f] + s
  }

  function After(ops: seq<Op>): seq<FrameId> {
    if ops == [] then [] else Apply(After(ops[..|ops| - 1]), ops[|ops| - 1])
  }

  ghost predicate Distinct(s: seq<FrameId>) {
    forall i, j :: 0 <= i < j < |s| ==> s[i] != s[j]
  }

  /** Frame f has been evictable ever since the k-th operation. */
  ghost predicate Since(ops: seq<Op>, f: FrameId, k: nat) {
    forall m :: k <= m <= |ops| ==> f in After(ops[..m])
  }

  /** Frames further back in the list have been evictable at least as long. */
  lemma {:induction false} BackIsOlder(ops: seq<Op>, i: nat, j: nat, k: nat)
    requires i <= j < |After(ops)| && k <= |ops| && Since(ops, After(ops)[i], k)
    ensures Since(ops, After(ops)[j], k)
  {
    var n, now := |ops|, After(ops);
    assert ops[..n] == ops;
    if k < n {
      var before, s := ops[..n - 1], After(ops[..n - 1]);
      assert now[i] in After(ops[..n - 1]);
      Shrink(before, ops, now[i], k);
      var i', j' := IndexBefore(s, ops[n - 1], i, j);
      BackIsOlder(before, i', j', k);
      Extend(before, ops, now[j], k);
    } else {
      assert forall m :: k <= m <= n ==> ops[..m] == ops;
    }
  }

  lemma Shrink(before: seq<Op>, ops: seq<Op>, f: FrameId, k: nat)
    requires |ops| >= 1 && before == ops[..|ops| - 1] && Since(ops, f, k)
    ensures Since(before, f, k)
  {
    forall m | k <= m <= |before| ensures f in After(before[..m]) {
      assert before[..m] == ops[..m];
    }
  }

  lemma Extend(before: seq<Op>, ops: seq<Op>, f: FrameId, k: nat)
    requires |ops| >= 1 && before == ops[..|ops| - 1] && Since(before, f, k) && f in After(ops)
    ensures Since(ops, f, k)
  {
    forall m | k <= m <= |ops| ensures f in After(ops[..m]) {
      if m < |ops| { assert before[..m] == ops[..m]; } else { assert ops[..m] == ops; }
    }
  }

  lemma WithoutAt(s: seq<FrameId>, f: FrameId, i: nat)
    requires f in s && i < |s| - 1
    ensures |Without(s, f)| == |s| - 1 && Without(s, f)[i] == s[if i < IndexOf(s, f) then i else i + 1]
  {}

  /** Where two surviving frames stood before the last operation: in the same order. */
  lemma IndexBefore(s: seq<FrameId>, op: Op, i: nat, j: nat) returns (i': nat, j': nat)
    requires i <= j < |Apply(s, op)| && Apply(s, op)[i] in s
    requires op.Unpin? && op.frame !in s ==> i > 0
    ensures i' <= j' < |s| && s[i'] == Apply(s, op)[i] && s[j'] == Apply(s, op)[j]
  {
    match op {
      case Victim => i', j' := i, j;
      case Pin(f) =>
        var x := IndexOf(s, f);
        if x == |s| { i', j' := i, j; } else {
          i', j' := if i < x then i else i + 1, if j < x then j else j + 1;
          WithoutAt(s, f, i);
          WithoutAt(s, f, j);
        }
      case Unpin(f) =>
        if f in s { i', j' := i, j; } else { i', j' := i - 1, j - 1; }
    }
  }

  /** In every run, the next victim has been evictable for the longest time. */
  lemma VictimIsOldest(ops: seq<Op>, f: FrameId, k: nat)
    requires After(ops) != [] && k <= |ops| && Since(ops, f, k)
    ensures Since(ops, After(ops)[|After(ops)| - 1], k)
  {
    assert ops[..|ops|] == ops;
    var i := IndexOf(After(ops), f);
    BackIsOlder(ops, i, |After(ops)| - 1, k);
  }

  // ------------------------------------------------------------------ how it does

  class Node {
    var id: int
    var next: Node
    var prev: Node

    /** A node alone is a ring by itself. */
    constructor (id: int)
      ensures this.id == id && next == this && prev == this
    {
      this.id, next, prev := id, this, this;
    }
  }

  function Succ(i: nat, n: nat): nat {
    if i + 1 == n then 0 else i + 1
  }

  /** The hash table finds the node of every listed frame, and nothing else. */
  ghost predicate TableOk(tables: map<FrameId, Node>, ring: seq<Node>, order: seq<FrameId>) {
    |ring| == |order| + 1 && Distinct(order) && (forall f :: f in tables <==> f in order) &&
    forall i :: 0 <= i < |order| ==> tables[order[i]] == ring[i + 1]
  }

  lemma TableWithout(tables: map<FrameId, Node>, ring: seq<Node>, order: seq<FrameId>, k: nat)
    requires TableOk(tables, ring, order) && 1 <= k < |ring|
    ensures TableOk(tables - {order[k - 1]}, ring[..k] + ring[k + 1..], order[..k - 1] + order[k..])
  {}

  lemma TableWith(tables: map<FrameId, Node>, ring: seq<Node>, order: seq<FrameId>, f: FrameId, n: Node)
    requires TableOk(tables, ring, order) && f !in order
    ensures TableOk(tables[f := n], [ring[0], n] + ring[1..], [f] + order)
  {}

  class LRUReplacer {
    const head: Node
    var tables: map<FrameId, Node>
    ghost var ring: seq<Node>  // the sentinel, and the nodes from head.next on
    ghost var order: seq<FrameId>  // the frames of those nodes: most recently unpinned first

    ghost function Repr(): set<object>
      reads this
    {
      {this} + (set n: Node | n in ring)
    }

    ghost predicate Linked(i: nat)
      requires i < |ring|
      reads this, Repr()
    {
      ring[i].next == ring[Succ(i, |ring|)] && ring[Succ(i, |ring|)].prev == ring[i]
    }

    ghost predicate RingOk()
      reads this, Repr()
    {
      |ring| >= 1 && ring[0] == head && (forall i, j :: 0 <= i < j < |ring| ==> ring[i] != ring[j]) &&
      forall i {:trigger Linked(i)} :: 0 <= i < |ring| ==> Linked(i)
    }

    /** The list, the hash table and the counter describe one duplicate-free sequence. */
    ghost predicate Valid()
      reads this, Repr()
    {
      RingOk() && TableOk(tables, ring, order) && head.id == |order| && forall i :: 0 <= i < |order| ==> ring[i + 1].id == order[i]
    }

    constructor (numPages: nat)
      ensures Valid() && order == [] && fresh(Repr())
    {
      head := new Node(0);
      tables := map[];
      order := [];
      new;
      ring := [head];
      assert Linked(0);
    }

    method Size() returns (n: int)
      requires Valid()
      ensures n == |order|
    {
      n := head.id;
    }

    /** Take the node at position k out of the ring. */
    method Splice(ghost k: nat, n: Node)
      requires RingOk() && 1 <= k < |ring| && n == ring[k]
      modifies Repr()
      ensures RingOk() && ring == old(ring)[..k] + old(ring)[k + 1..] && tables == old(tables) && order == old(order)
      ensures forall m: Node :: m in old(ring) ==> m.id == old(m.id)
    {
      ghost var was, size := ring, |ring|;
      assert Linked(k) && Linked(k - 1);
      var after, before := n.next, n.prev;
      label Before:
      after.prev := before;
      before.next := after;
      ring := ring[..k] + ring[k + 1..];
      forall i | 0 <= i < |ring| ensures Linked(i) {
        var o := if i < k then i else i + 1;
        assert old@Before(Linked(o));
        assert ring[i] == was[o];
        assert ring[Succ(i, |ring|)] == was[if o == k - 1 then Succ(k, size) else Succ(o, size)];
      }
    }

    method Unlink(ghost k: nat, n: Node)
      requires Valid() && 1 <= k < |ring| && n == ring[k]
      modifies Repr()
      ensures Valid() && order == old(order)[..k - 1] + old(order)[k..] && Repr() <= old(Repr())
    {
      TableWithout(tables, ring, order, k);
      Splice(k, n);
      label AfterSplice:
      tables := tables - {n.id};
      head.id := head.id - 1;
      order := order[..k - 1] + order[k..];
      forall i | 0 <= i < |ring| ensures Linked(i) {
        assert old@AfterSplice(Linked(i));
      }
    }

    /** Put a node of its own behind the sentinel. */
    method SpliceFront(n: Node)
      requires RingOk() && n !in ring && n != head
      modifies Repr(), n
      ensures RingOk() && ring == [head, n] + old(ring)[1..] && tables == old(tables) && order == old(order)
      ensures n.id == old(n.id) && forall m: Node :: m in old(ring) ==> m.id == old(m.id)
    {
      ghost var was, size := ring, |ring|;
      assert Linked(0);
      label Before:
      n.next := head.next;
      head.next := n;
      n.prev := head;
      n.next.prev := n;
      ring := [head, n] + ring[1..];
      forall i | 0 <= i < |ring| ensures Linked(i) {
        if i >= 2 {
          assert old@Before(Linked(i - 1));
          assert ring[i] == was[i - 1];
        }
      }
    }

    /** The frame that has been evictable for the longest time. */
    method Victim() returns (found: bool, frame: FrameId)
      requires Valid()
      modifies Repr()
      ensures Valid() && Repr() <= old(Repr()) && order == Apply(old(order), Op.Victim)
      ensures found == (old(order) != []) && frame == if found then old(order)[|old(order)| - 1] else 0
    {
      assert Linked(0) && Linked(|ring| - 1);
      found, frame := false, 0;
      if head.next == head {
        return;
      }
      var victim := head.prev;
      found, frame := true, victim.id;
      Unlink(|ring| - 1, victim);
    }

    method Pin(frame: FrameId)
      requires Valid()
      modifies Repr()
      ensures Valid() && Repr() <= old(Repr()) && order == Apply(old(order), Op.Pin(frame))
    {
      if frame in tables {
        Unlink(IndexOf(order, frame) + 1, tables[frame]);
      }
    }

    method Unpin(frame: FrameId)
      requires Valid()
      modifies Repr()
      ensures Valid() && fresh(Repr() - old(Repr())) && order == Apply(old(order), Op.Unpin(frame))
    {
      if frame in tables {
        return;
      }
      var n := new Node(frame);
      TableWith(tables, ring, order, frame, n);
      SpliceFront(n);
      label AfterSplice:
      tables := tables[frame := n];
      head.id := head.id + 1;
      order := [frame] + order;
      forall i | 0 <= i < |ring| ensures Linked(i) {
        assert old@AfterSplice(Linked(i));
      }
    }
  }
}
