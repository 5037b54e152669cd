/**
  What the page conditions of TreeShape mean for a reader of the tree: paths, subtrees, and what goes wrong
  when a redistribution uses a sibling's key where the parent's separating key belongs, or shifts entries with a
  loop that runs the wrong way.
 */
module TreeFacts {
  import opened TreeShape
  import opened TreeSteps
  import opened TreeCascade

  /** Each page of `path` lists the next one as a child. */
  ghost predicate IsPath(t: Tree, path: seq<PageId>) {
    |path| >= 1 && path[0] in t.nodes &&
    forall i :: 0 <= i < |path| - 1 ==>
      path[i] in t.nodes && !t.nodes[path[i]].isLeaf && IsKid(t.nodes[path[i]].items, path[i + 1])
  }

  lemma {:induction false} LevelsDrop(t: Tree, path: seq<PageId>)
    requires Shape(t) && IsPath(t, path)
    ensures forall i :: 0 <= i < |path| ==> path[i] in t.nodes && t.lvl[path[i]] + i == t.lvl[path[0]]
    decreases |path|
  {
    if |path| > 1 {
      assert IsKid(t.nodes[path[0]].items, path[1]);
      var j :| 0 <= j < |t.nodes[path[0]].items| && t.nodes[path[0]].items[j].val == path[1];
      ChildPosition(t, path[0], j);
      var rest := path[1..];
      assert forall i :: 0 <= i < |rest| ==> rest[i] == path[i + 1];
      LevelsDrop(t, rest);
      forall i | 1 <= i < |path| ensures path[i] in t.nodes && t.lvl[path[i]] + i == t.lvl[path[0]] {
        assert path[i] == rest[i - 1];
      }
    }
  }

  /** Every path from the root to a leaf has the same length. */
  lemma SameDepth(t: Tree, path: seq<PageId>, path': seq<PageId>)
    requires Shape(t) && IsPath(t, path) && IsPath(t, path') && path[0] == t.root == path'[0]
    requires path[|path| - 1] in t.nodes && t.nodes[path[|path| - 1]].isLeaf
    requires path'[|path'| - 1] in t.nodes && t.nodes[path'[|path'| - 1]].isLeaf
    ensures |path| == |path'|
  {
    LevelsDrop(t, path);
    LevelsDrop(t, path');
    assert PageOk(t, path[|path| - 1]) && PageOk(t, path'[|path'| - 1]);
  }

  lemma {:induction false} KeysWithin(t: Tree, path: seq<PageId>, k: Key)
    requires Shape(t) && IsPath(t, path) && path[|path| - 1] in t.nodes && In(t.rng[path[|path| - 1]], k)
    ensures In(t.rng[path[0]], k)
    decreases |path|
  {
    if |path| > 1 {
      var p := path[0];
      assert IsKid(t.nodes[p].items, path[1]);
      var j :| 0 <= j < |t.nodes[p].items| && t.nodes[p].items[j].val == path[1];
      ChildPosition(t, p, j);
      var rest := path[1..];
      assert forall i :: 0 <= i < |rest| ==> rest[i] == path[i + 1];
      KeysWithin(t, rest, k);
      assert ChildOk(t, p, j);
      WithinParent(t, path[1], k);
    }
  }

  /** A leaf entry below the i-th child of page p lies between the i-th separating key and the next one. */
  lemma SubtreeKeys(t: Tree, p: PageId, i: nat, path: seq<PageId>, j: nat)
    requires Shape(t) && p in t.nodes && !t.nodes[p].isLeaf && i < |t.nodes[p].items|
    requires IsPath(t, path) && path[0] == t.nodes[p].items[i].val
    requires var l := path[|path| - 1]; l in t.nodes && t.nodes[l].isLeaf && j < |t.nodes[l].items|
    ensures var k := t.nodes[path[|path| - 1]].items[j].key;
      (i > 0 ==> t.nodes[p].items[i].key <= k) && (i + 1 < |t.nodes[p].items| ==> k < t.nodes[p].items[i + 1].key)
  {
    var l := path[|path| - 1];
    assert PageOk(t, l);
    KeysWithin(t, path, t.nodes[l].items[j].key);
    ChildPosition(t, p, i);
  }

  /** Along the chain keys only rise. */
  lemma ChainRises(t: Tree, p: PageId, i: nat, j: nat)
    requires Shape(t) && p in t.nodes && t.nodes[p].isLeaf && t.nodes[p].next != INVALID_PAGE_ID
    requires i < |t.nodes[p].items|
    ensures t.nodes[p].next in t.nodes && t.nodes[t.nodes[p].next].isLeaf
    ensures j < |t.nodes[t.nodes[p].next].items| ==> t.nodes[p].items[i].key < t.nodes[t.nodes[p].next].items[j].key
  {
    var q := t.nodes[p].next;
    assert PageOk(t, p);
    assert PageOk(t, q);
    assert In(t.rng[p], t.nodes[p].items[i].key);
    if j < |t.nodes[q].items| { assert In(t.rng[q], t.nodes[q].items[j].key); }
  }

  // ------------------------------------------------------------------ the sibling's key as middle key

  /** Entries of the left page when the child from the right sibling arrives under the key `middle`. */
  function Appended(a: seq<Pair>, b: seq<Pair>, middle: Key): seq<Pair>
    requires |b| >= 1
  {
    a + [Pair(middle, b[0].val)]
  }

  /** Entries of the right page when the child from the left sibling arrives and `middle` separates it. */
  function Prepended(a: seq<Pair>, b: seq<Pair>, middle: Key): seq<Pair>
    requires |a| >= 1 && |b| >= 1
  {
    [a[|a| - 1]] + b[0 := Pair(middle, b[0].val)]
  }

  /**
    MoveFirstToEndOf as called, with the sibling's second key for the middle key: a search in the left page goes
    where it should for exactly the keys below the parent's separating key, not for those of the moved child.
   */
  lemma MiddleFromRight(t: Tree, up: PageId, j: nat, l: PageId, r: PageId, sep: Key, k: Key, i: nat)
    requires AreSiblings(t, up, j, l, r, sep) && !t.nodes[r].isLeaf && |t.nodes[r].items| >= 2
    requires !Lt(At(k), t.rng[l].lo) && k < t.nodes[r].items[1].key
    requires RoutesTo(Appended(t.nodes[l].items, t.nodes[r].items, sep), k, i)
    ensures RoutesTo(Appended(t.nodes[l].items, t.nodes[r].items, t.nodes[r].items[1].key), k, i) <==> k < sep
    ensures sep < t.nodes[r].items[1].key
  {
    var a, b := t.nodes[l].items, t.nodes[r].items;
    assert PageOk(t, l) && PageOk(t, r);
    EdgeLt(b, t.rng[r], 0, 1);
    var now := Appended(a, b, sep);
    if i < |a| { assert now[|a|].key == sep; }
    if i < |a| - 1 {
      assert now[i + 1] == a[i + 1];
      EdgeLt(a, t.rng[l], i + 1, |a|);
    }
  }

  /** MoveLastToFrontOf as called, with the sibling's last key: only searches from the separating key up go right. */
  lemma MiddleFromLeft(t: Tree, up: PageId, j: nat, l: PageId, r: PageId, sep: Key, k: Key, i: nat)
    requires AreSiblings(t, up, j, l, r, sep) && !t.nodes[r].isLeaf && |t.nodes[l].items| >= 2
    requires t.nodes[l].items[|t.nodes[l].items| - 1].key <= k && Lt(At(k), t.rng[r].hi)
    requires RoutesTo(Prepended(t.nodes[l].items, t.nodes[r].items, sep), k, i)
    ensures var wrong := t.nodes[l].items[|t.nodes[l].items| - 1].key;
      (RoutesTo(Prepended(t.nodes[l].items, t.nodes[r].items, wrong), k, i) <==> sep <= k) && wrong < sep
  {
    var a, b := t.nodes[l].items, t.nodes[r].items;
    assert PageOk(t, l) && PageOk(t, r);
    EdgeLt(a, t.rng[l], |a| - 1, |a|);
    var now := Prepended(a, b, sep);
    assert now[1].key == sep;
    if i > 1 {
      assert now[i] == b[i - 1];
      EdgeLt(b, t.rng[r], 0, i - 1);
    }
  }

  /** Below every page but an underfull one there is a stored key, as no other leaf is empty. */
  lemma {:induction false} KeyBelow(t: Tree, m: map<Key, int>, leafMax: nat, internalMax: nat, e: PageId, p: PageId) returns (k: Key)
    requires Sound(t, m, leafMax, internalMax, e) && e in t.nodes && !t.nodes[e].isLeaf && p in t.nodes && p != t.root
    ensures k in m && In(t.rng[p], k)
    decreases t.lvl[p]
  {
    assert PageOk(t, p);
    if t.nodes[p].isLeaf {
      assert FillOk(t, leafMax, internalMax, p) && Agrees(t.nodes[p].items, t.rng[p], m);
      k := t.nodes[p].items[0].key;
      assert In(t.rng[p], k);
    } else {
      ChildPosition(t, p, 0);
      k := KeyBelow(t, m, leafMax, internalMax, e, t.nodes[p].items[0].val);
      WithinParent(t, t.nodes[p].items[0].val, k);
    }
  }

  /** So whenever an internal page takes its right sibling's first child as the code stands, a stored key is lost to searches. */
  lemma RightAlwaysMisroutes(t: Tree, m: map<Key, int>, leafMax: nat, internalMax: nat, up: PageId, j: nat, l: PageId, r: PageId, sep: Key)
    returns (k: Key, i: nat)
    requires Sound(t, m, leafMax, internalMax, l) && AreSiblings(t, up, j, l, r, sep)
    requires !t.nodes[r].isLeaf && |t.nodes[r].items| >= 2
    ensures k in m && RoutesTo(Appended(t.nodes[l].items, t.nodes[r].items, sep), k, i)
    ensures !RoutesTo(Appended(t.nodes[l].items, t.nodes[r].items, t.nodes[r].items[1].key), k, i)
  {
    ChildPosition(t, r, 0);
    k := KeyBelow(t, m, leafMax, internalMax, l, t.nodes[r].items[0].val);
    i := |t.nodes[l].items|;
    NonEmpty(t, l);
    MiddleFromRight(t, up, j, l, r, sep, k, i);
  }

  /** And so would it be whenever the page takes its left sibling's last child, if the loop that makes room were repaired. */
  lemma LeftAlwaysMisroutes(t: Tree, m: map<Key, int>, leafMax: nat, internalMax: nat, up: PageId, j: nat, l: PageId, r: PageId, sep: Key)
    returns (k: Key)
    requires Sound(t, m, leafMax, internalMax, r) && AreSiblings(t, up, j, l, r, sep)
    requires !t.nodes[l].isLeaf && |t.nodes[l].items| >= 2
    ensures k in m && RoutesTo(Prepended(t.nodes[l].items, t.nodes[r].items, sep), k, 0)
    ensures !RoutesTo(Prepended(t.nodes[l].items, t.nodes[r].items, t.nodes[l].items[|t.nodes[l].items| - 1].key), k, 0)
  {
    var last := |t.nodes[l].items| - 1;
    ChildPosition(t, l, last);
    k := KeyBelow(t, m, leafMax, internalMax, r, t.nodes[l].items[last].val);
    NonEmpty(t, r);
    MiddleFromLeft(t, up, j, l, r, sep, k, 0);
  }

  // ------------------------------------------------------------------ the loop that makes room in front

  /** The loop of CopyFirstFrom as it stands: its variable, and the memory from the page's first slot on. */
  datatype Loop = Loop(i: int, memory: int -> Pair)

  predicate Guard(l: Loop) {
    l.i >= 0
  }

  function Turn(l: Loop): Loop {
    Loop(l.i + 1, j => if j == l.i + 1 then l.memory(l.i) else l.memory(j))
  }

  /** The loop after k turns on a page with n entries. */
  function Turns(n: nat, memory: int -> Pair, k: nat): Loop {
    if k == 0 then Loop(n - 1, memory) else Turn(Turns(n, memory, k - 1))
  }

  lemma {:induction false} TurnsAre(n: nat, memory: int -> Pair, k: nat, j: int)
    ensures Turns(n, memory, k).i == n - 1 + k
    ensures Turns(n, memory, k).memory(j) == if n <= j < n + k then memory(n - 1) else memory(j)
  {
    if k > 0 {
      TurnsAre(n, memory, k - 1, j);
      TurnsAre(n, memory, k - 1, n + k - 2);
    }
  }

  /** It goes on after every number of turns if and only if the page is not empty. */
  lemma ShiftNeverEnds(n: nat, memory: int -> Pair)
    ensures (forall k: nat :: Guard(Turns(n, memory, k))) <==> n > 0
  {
    forall k: nat ensures Guard(Turns(n, memory, k)) <==> n - 1 + k >= 0 { TurnsAre(n, memory, k, 0); }
    assert !Guard(Turns(0, memory, 0));
  }

  /** Then its n-th entry has been written over whatever lies behind it, the end of the array no exception. */
  lemma ShiftOverwrites(n: nat, memory: int -> Pair, capacity: nat, j: nat)
    requires 0 < n <= capacity <= j
    ensures Turns(n, memory, j + 1 - n).memory(j) == memory(n - 1)
  {
    TurnsAre(n, memory, j + 1 - n, j);
  }

  /** So does the loop each time an internal page takes its left sibling's last child, as the page is never empty. */
  lemma LeftNeverEnds(t: Tree, m: map<Key, int>, leafMax: nat, internalMax: nat, up: PageId, j: nat, l: PageId, r: PageId, sep: Key,
                      memory: int -> Pair, k: nat)
    requires Sound(t, m, leafMax, internalMax, r) && AreSiblings(t, up, j, l, r, sep) && !t.nodes[r].isLeaf
    ensures |t.nodes[r].items| > 0 && Guard(Turns(|t.nodes[r].items|, memory, k))
  {
    NonEmpty(t, r);
    ShiftNeverEnds(|t.nodes[r].items|, memory);
  }

  // ------------------------------------------------------------------ an example

  /** A root over the underfull page 1 and its sibling 2, which has three children; pages 3 to 6 are leaves. */
  predicate IsExample(t: Tree) {
    t.root == 0 && t.nodes.Keys == {0, 1, 2, 3, 4, 5, 6} && t.lvl.Keys == t.nodes.Keys && t.rng.Keys == t.nodes.Keys &&
    t.nodes[0] == Node(false, -1, -1, [Pair(0, 1), Pair(30, 2)]) && t.lvl[0] == 2 && t.rng[0] == FULL &&
    t.nodes[1] == Node(false, 0, -1, [Pair(0, 3)]) && t.lvl[1] == 1 && t.rng[1] == Range(NegInf, At(30)) &&
    t.nodes[2] == Node(false, 0, -1, [Pair(0, 4), Pair(40, 5), Pair(50, 6)]) && t.lvl[2] == 1 && t.rng[2] == Range(At(30), PosInf) &&
    t.nodes[3] == Node(true, 1, 4, [Pair(10, 11)]) && t.lvl[3] == 0 && t.rng[3] == Range(NegInf, At(30)) &&
    t.nodes[4] == Node(true, 2, 5, [Pair(30, 31)]) && t.lvl[4] == 0 && t.rng[4] == Range(At(30), At(40)) &&
    t.nodes[5] == Node(true, 2, 6, [Pair(40, 41)]) && t.lvl[5] == 0 && t.rng[5] == Range(At(40), At(50)) &&
    t.nodes[6] == Node(true, 2, -1, [Pair(50, 51)]) && t.lvl[6] == 0 && t.rng[6] == Range(At(50), PosInf)
  }

  lemma ExampleInner(t: Tree, p: PageId)
    requires IsExample(t) && 0 <= p <= 2
    ensures PageOk(t, p)
  {
    if p == 0 {
      assert ChildOk(t, 0, 0) && ChildOk(t, 0, 1);
    } else if p == 1 {
      assert ChildOk(t, 1, 0);
    } else {
      assert ChildOk(t, 2, 0) && ChildOk(t, 2, 1) && ChildOk(t, 2, 2);
    }
  }

  lemma ExampleLeaf(t: Tree, p: PageId)
    requires IsExample(t) && 3 <= p <= 6
    ensures PageOk(t, p)
  {}

  /** The example's entries. */
  predicate IsContent(m: map<Key, int>) {
    m.Keys == {10, 30, 40, 50} && forall k :: k in m ==> m[k] == k + 1
  }

  lemma ExampleStores(t: Tree, m: map<Key, int>)
    requires IsExample(t) && IsContent(m)
    ensures Stores(t, m)
  {
    forall p | p in t.nodes && t.nodes[p].isLeaf ensures Agrees(t.nodes[p].items, t.rng[p], m) {
      var x := t.nodes[p].items[0];
      assert t.nodes[p].items == [x] && forall k :: k in m && In(t.rng[p], k) ==> k == x.key;
    }
  }

  lemma ExampleShape(t: Tree)
    requires IsExample(t)
    ensures Shape(t)
  {
    forall p | p in t.nodes ensures PageOk(t, p) {
      if p <= 2 { ExampleInner(t, p); } else { ExampleLeaf(t, p); }
    }
  }

  lemma ExampleFilled(t: Tree)
    requires IsExample(t)
    ensures Filled(t, 2, 4, 1)
  {}

  lemma ExampleSiblings(t: Tree)
    requires IsExample(t) && Shape(t)
    ensures AreSiblings(t, 0, 1, 1, 2, 30)
  {
    var l, r, sep := Siblings(t, 0, 1);
  }

  lemma ExampleSound(t: Tree, m: map<Key, int>)
    requires IsExample(t) && IsContent(m)
    ensures Sound(t, m, 2, 4, 1) && AreSiblings(t, 0, 1, 1, 2, 30)
  {
    ExampleShape(t);
    ExampleFilled(t);
    ExampleStores(t, m);
    ExampleSiblings(t);
  }

  /** It is in order apart from page 1, and the redistribution as it stands sends searches for 30 to the wrong child. */
  lemma ExampleMisroutes() returns (t: Tree, m: map<Key, int>)
    ensures IsExample(t) && IsContent(m) && Sound(t, m, 2, 4, 1) && AreSiblings(t, 0, 1, 1, 2, 30)
    ensures 30 in m && RoutesTo(Appended(t.nodes[1].items, t.nodes[2].items, 30), 30, 1)
    ensures RoutesTo(Appended(t.nodes[1].items, t.nodes[2].items, t.nodes[2].items[1].key), 30, 0)
  {
    t := Tree(map[0 := Node(false, -1, -1, [Pair(0, 1), Pair(30, 2)]),
                  1 := Node(false, 0, -1, [Pair(0, 3)]), 2 := Node(false, 0, -1, [Pair(0, 4), Pair(40, 5), Pair(50, 6)]),
                  3 := Node(true, 1, 4, [Pair(10, 11)]), 4 := Node(true, 2, 5, [Pair(30, 31)]),
                  5 := Node(true, 2, 6, [Pair(40, 41)]), 6 := Node(true, 2, -1, [Pair(50, 51)])],
              0, map[0 := 2, 1 := 1, 2 := 1, 3 := 0, 4 := 0, 5 := 0, 6 := 0],
              map[0 := FULL, 1 := Range(NegInf, At(30)), 2 := Range(At(30), PosInf), 3 := Range(NegInf, At(30)),
                  4 := Range(At(30), At(40)), 5 := Range(At(40), At(50)), 6 := Range(At(50), PosInf)]);
    m := map[10 := 11, 30 := 31, 40 := 41, 50 := 51];
    ExampleSound(t, m);
  }
}
