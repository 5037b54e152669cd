/**
  What the insert and delete cascades rely on: page fill, the descent from the root, the path of latched
  pages, and the effect of each cascade step on them.
 */
module TreeCascade {
  import opened TreeShape
  import opened TreeSteps

  // ------------------------------------------------------------------ page fill

  /** Below its maximal size, and at least half full unless it is the root. */
  ghost predicate FillOk(t: Tree, leafMax: nat, internalMax: nat, p: PageId)
    requires p in t.nodes
  {
    var n := t.nodes[p];
    var max := MaxSize(n.isLeaf, leafMax, internalMax);
    |n.items| < max &&
    |n.items| >= if p != t.root then max / 2 else if n.isLeaf then 1 else 2
  }

  /** Every page is properly filled, with one possible exception. */
  ghost predicate Filled(t: Tree, leafMax: nat, internalMax: nat, except: PageId) {
    forall p {:trigger FillOk(t, leafMax, internalMax, p)} ::
      p in t.nodes && p != except ==> FillOk(t, leafMax, internalMax, p)
  }

  /** `nodes` holds the two halves of t's page p; p's parent does not know the new page q yet. */
  ghost predicate Halved(t: Tree, p: PageId, q: PageId, nodes: map<PageId, Node>) {
    p in t.nodes && nodes.Keys == t.nodes.Keys + {q} &&
    forall x {:trigger nodes[x]} :: x in nodes ==> nodes[x] == HalfNode(t, p, (|t.nodes[p].items| + 1) / 2, q, x)
  }

  /** Moving the upper entries of p to the new page q yields the two halves of a leaf, and the entries of an internal page's. */
  lemma HalvesMoved(t: Tree, p: PageId, q: PageId, nodes: map<PageId, Node>)
    requires p in t.nodes && q !in t.nodes
    requires nodes == var n := t.nodes[p]; var half := (|n.items| + 1) / 2;
      t.nodes[p := n.(items := n.items[..half], next := if n.isLeaf then q else n.next)]
             [q := Node(n.isLeaf, n.parent, if n.isLeaf then n.next else INVALID_PAGE_ID, n.items[half..])]
    ensures p in nodes && nodes[p].isLeaf == t.nodes[p].isLeaf
    ensures q in nodes && nodes[q].items == t.nodes[p].items[(|t.nodes[p].items| + 1) / 2..]
    ensures t.nodes[p].isLeaf ==> Halved(t, p, q, nodes)
    ensures !t.nodes[p].isLeaf ==> nodes == var n := t.nodes[p]; var half := (|n.items| + 1) / 2;
      t.nodes[p := n.(items := n.items[..half])][q := Node(false, n.parent, INVALID_PAGE_ID, n.items[half..])]
  {}

  /** Moving the upper entries of p to the new page q and adopting their pages yields the two halves. */
  lemma HalvesInternal(t: Tree, p: PageId, q: PageId, nodes: map<PageId, Node>)
    requires Shape(t) && p in t.nodes && !t.nodes[p].isLeaf && q >= 0 && q !in t.nodes
    requires nodes == var n := t.nodes[p]; var half := (|n.items| + 1) / 2;
      Adopt(t.nodes[p := n.(items := n.items[..half])][q := Node(false, n.parent, INVALID_PAGE_ID, n.items[half..])],
            n.items[half..], q)
    ensures Halved(t, p, q, nodes)
  {
    var items, half := t.nodes[p].items, (|t.nodes[p].items| + 1) / 2;
    forall x | x in nodes ensures nodes[x] == HalfNode(t, p, half, q, x) {
      if IsKid(items[half..], x) {
        var i :| 0 <= i < |items[half..]| && items[half..][i].val == x;
        ChildPosition(t, p, half + i);
      } else {
        var i := IndexOf(items, x);
        if half <= i < |items| { KidFrom(items, half, i); }
        if IsKid(items[half..], p) { KidElsewhere(t, p, half); }
      }
    }
  }

  lemma KidFrom(items: seq<Pair>, from: nat, i: nat)
    requires from <= i < |items|
    ensures IsKid(items[from..], items[i].val)
  {}

  lemma KidElsewhere(t: Tree, p: PageId, from: nat)
    requires Shape(t) && p in t.nodes && !t.nodes[p].isLeaf && from <= |t.nodes[p].items|
    ensures forall x :: IsKid(t.nodes[p].items[from..], x) ==> x in t.nodes && x != p && t.nodes[x].parent == p
  {
    var items := t.nodes[p].items;
    forall x | IsKid(items[from..], x) ensures x in t.nodes && x != p && t.nodes[x].parent == p {
      var i :| 0 <= i < |items[from..]| && items[from..][i].val == x;
      ChildPosition(t, p, from + i);
    }
  }

  /** The tree after the split: the given pages, and the ranges of the two halves. */
  ghost function AfterSplit(t: Tree, p: PageId, cut: nat, q: PageId, nodes: map<PageId, Node>): Tree
    requires Domains(t) && p in t.nodes && cut < |t.nodes[p].items|
  {
    var sep := At(t.nodes[p].items[cut].key);
    Tree(nodes, t.root, t.lvl[q := t.lvl[p]], t.rng[p := Range(t.rng[p].lo, sep)][q := Range(sep, t.rng[p].hi)])
  }

  /** Entering q behind p completes a split. */
  lemma HalvedInserted(t: Tree, p: PageId, q: PageId, cut: nat, up: PageId, i: nat, nodes: map<PageId, Node>)
    requires p in t.nodes && cut == (|t.nodes[p].items| + 1) / 2 && CanSplit(t, p, cut, q)
    requires up == t.nodes[p].parent && up in t.nodes && i == IndexOf(t.nodes[up].items, p) < |t.nodes[up].items|
    requires Halved(t, p, q, nodes)
    ensures nodes[up] == t.nodes[up]
    ensures var pn := t.nodes[up].(items := InsertAt(t.nodes[up].items, i + 1, Pair(t.nodes[p].items[cut].key, q)));
      IsSplit(t, p, up, i, cut, q, AfterSplit(t, p, cut, q, nodes[up := pn]))
  {
    ParentUnmoved(t, p, cut, q);
    var _, _ := Up(t, p);
    assert nodes[up] == HalfNode(t, p, cut, q, up);
    var now := nodes[up := t.nodes[up].(items := InsertAt(t.nodes[up].items, i + 1, Pair(t.nodes[p].items[cut].key, q)))];
    HalvedNodes(t, p, q, cut, up, i, nodes);
    assert now.Keys == t.nodes.Keys + {q};
    SplitBy(t, p, up, i, cut, q, now);
  }

  lemma SplitBy(t: Tree, p: PageId, up: PageId, i: nat, cut: nat, q: PageId, now: map<PageId, Node>)
    requires CanSplit(t, p, cut, q) && up == t.nodes[p].parent && up in t.nodes && i == IndexOf(t.nodes[up].items, p)
    requires !t.nodes[up].isLeaf && i < |t.nodes[up].items| && up != p && q != up && now.Keys == t.nodes.Keys + {q}
    requires forall x {:trigger now[x]} :: x in now ==> now[x] == SplitNode(t, p, up, i, cut, q, x)
    ensures IsSplit(t, p, up, i, cut, q, AfterSplit(t, p, cut, q, now))
  {}

  lemma HalvedNodes(t: Tree, p: PageId, q: PageId, cut: nat, up: PageId, i: nat, nodes: map<PageId, Node>)
    requires p in t.nodes && cut == (|t.nodes[p].items| + 1) / 2 && cut < |t.nodes[p].items| && p != up && q != up && up in t.nodes
    requires i < |t.nodes[up].items| && Halved(t, p, q, nodes) && nodes[up] == t.nodes[up]
    ensures var pn := t.nodes[up].(items := InsertAt(t.nodes[up].items, i + 1, Pair(t.nodes[p].items[cut].key, q)));
      forall x {:trigger nodes[up := pn][x]} :: x in nodes ==> nodes[up := pn][x] == SplitNode(t, p, up, i, cut, q, x)
  {}

  lemma ParentUnmoved(t: Tree, p: PageId, cut: nat, q: PageId)
    requires CanSplit(t, p, cut, q)
    ensures var up := t.nodes[p].parent; up in t.nodes && HalfNode(t, p, cut, q, up) == t.nodes[up]
  {
    var up, _ := Up(t, p);
    assert PageOk(t, p) && PageOk(t, up);
    if up != t.root { var _, _ := Up(t, up); }
  }

  /** The halves of a split root, hung below a new root r. */
  ghost predicate Rooted(t: Tree, p: PageId, q: PageId, cut: nat, r: PageId, junk: Key, now: map<PageId, Node>)
    requires p in t.nodes && cut < |t.nodes[p].items|
  {
    var items, root := t.nodes[p].items, [Pair(junk, p), Pair(t.nodes[p].items[cut].key, q)];
    now.Keys == t.nodes.Keys + {q, r} && now[r] == Node(false, INVALID_PAGE_ID, INVALID_PAGE_ID, root) &&
    now[p] == HalfNode(t, p, cut, q, p).(parent := r) && now[q] == HalfNode(t, p, cut, q, q).(parent := r) &&
    forall x :: x in t.nodes && x != p ==> now[x] == HalfNode(t, p, cut, q, x)
  }

  /** A new root over both halves completes a root split. */
  lemma HalvedRoot(t: Tree, p: PageId, q: PageId, cut: nat, r: PageId, junk: Key, now: map<PageId, Node>)
    requires Shape(t) && p == t.root && r >= 0 && q >= 0 && r != q && r !in t.nodes && q !in t.nodes
    requires cut == (|t.nodes[p].items| + 1) / 2 && |t.nodes[p].items| >= 2 && Rooted(t, p, q, cut, r, junk, now)
    ensures var a := AddRoot(t, r, junk);
      Domains(a) && IsSplit(a, p, r, 0, cut, q, AfterSplit(a, p, cut, q, now))
  {
    AddRootKeeps(t, r, junk);
    var a := AddRoot(t, r, junk);
    RootHalves(t, p, q, cut, r, junk, now);
  }

  lemma RootHalves(t: Tree, p: PageId, q: PageId, cut: nat, r: PageId, junk: Key, now: map<PageId, Node>)
    requires Domains(t) && p == t.root && r != q && r !in t.nodes && q !in t.nodes
    requires 1 <= cut < |t.nodes[p].items| && Rooted(t, p, q, cut, r, junk, now)
    ensures forall x :: x in now ==> now[x] == SplitNode(AddRoot(t, r, junk), p, r, 0, cut, q, x)
  {}

  lemma SplitFills(t: Tree, p: PageId, up: PageId, i: nat, cut: nat, q: PageId, u: Tree, leafMax: nat, internalMax: nat)
    requires leafMax >= 2 && internalMax >= 4 && IsSplit(t, p, up, i, cut, q, u)
    requires |t.nodes[p].items| == MaxSize(t.nodes[p].isLeaf, leafMax, internalMax) && cut == (|t.nodes[p].items| + 1) / 2
    requires forall x {:trigger FillOk(t, leafMax, internalMax, x)} ::
      x in t.nodes && x != p && x != up ==> FillOk(t, leafMax, internalMax, x)
    ensures Filled(u, leafMax, internalMax, up) && |u.nodes[up].items| == |t.nodes[up].items| + 1
  {
    forall x | x in u.nodes && x != up ensures FillOk(u, leafMax, internalMax, x) {
      if x != p && x != q { assert FillOk(t, leafMax, internalMax, x); }
    }
  }

  lemma AddRootFills(t: Tree, r: PageId, junk: Key, leafMax: nat, internalMax: nat)
    requires Domains(t) && r !in t.nodes && Filled(t, leafMax, internalMax, t.root)
    ensures forall x {:trigger FillOk(AddRoot(t, r, junk), leafMax, internalMax, x)} ::
      x in t.nodes && x != t.root ==> FillOk(AddRoot(t, r, junk), leafMax, internalMax, x)
  {
    forall x | x in t.nodes && x != t.root ensures FillOk(AddRoot(t, r, junk), leafMax, internalMax, x) {
      assert FillOk(t, leafMax, internalMax, x);
    }
  }

  // ------------------------------------------------------------------ descent

  lemma KeysRise(items: seq<Pair>, r: Range)
    requires Tiles(items, r)
    ensures forall a, b :: 1 <= a < b < |items| ==> items[a].key < items[b].key
  {
    forall a, b | 1 <= a < b < |items| ensures items[a].key < items[b].key {
      EdgeLt(items, r, a, b);
    }
  }

  /** Where a search for `key` goes from page p. */
  lemma Descend(t: Tree, p: PageId, key: Key, i: nat)
    requires Shape(t) && p in t.nodes && !t.nodes[p].isLeaf && In(t.rng[p], key)
    requires RoutesTo(t.nodes[p].items, key, i)
    ensures var c := t.nodes[p].items[i].val;
      c in t.nodes && In(t.rng[c], key) && t.lvl[c] + 1 == t.lvl[p] && t.nodes[c].parent == p && c != t.root
  {
    ChildPosition(t, p, i);
  }

  // ------------------------------------------------------------------ latched pages

  /** The pages of `held` are consecutive pages of one root-to-leaf path. */
  ghost predicate HeldPath(t: Tree, held: seq<PageId>) {
    |held| >= 1 && t.nodes.Keys <= t.lvl.Keys && held[0] in t.nodes && forall i :: 0 <= i < |held| ==>
      held[i] in t.nodes && t.lvl[held[i]] + i == t.lvl[held[0]] && (i > 0 ==> t.nodes[held[i]].parent == held[i - 1])
  }

  /** The insertion's test for a safe page. */
  predicate CanGrow(n: Node, leafMax: nat, internalMax: nat) {
    |n.items| < MaxSize(n.isLeaf, leafMax, internalMax) - 1
  }

  /** The root can only be the first page of a path. */
  lemma RootFirst(t: Tree, held: seq<PageId>)
    requires Shape(t) && HeldPath(t, held)
    ensures t.root in held <==> held[0] == t.root
  {
    if t.root in held {
      var i :| 0 <= i < |held| && held[i] == t.root;
      assert PageOk(t, t.root) && PageOk(t, held[0]);
      assert i == 0;
    }
  }

  /** Latched pages ending with p, the first of which is the root or can take one more entry. */
  ghost predicate HeldForInsert(t: Tree, held: seq<PageId>, p: PageId, internalMax: nat) {
    HeldPath(t, held) && held[|held| - 1] == p &&
    (held[0] == t.root || (|held| >= 2 && |t.nodes[held[0]].items| < internalMax - 1))
  }

  /** Page x keeps its kind, its entries and its link; only its parent id may differ. */
  ghost predicate SamePage(a: map<PageId, Node>, b: map<PageId, Node>, x: PageId)
    requires x in a
  {
    x in b && b[x] == a[x].(parent := b[x].parent)
  }

  /** Nothing but parent ids changes outside w. */
  ghost predicate SameBut(a: map<PageId, Node>, b: map<PageId, Node>, w: set<PageId>) {
    forall x {:trigger SamePage(a, b, x)} :: x in a && x !in w ==> SamePage(a, b, x)
  }

  lemma SameButTrans(a: map<PageId, Node>, b: map<PageId, Node>, c: map<PageId, Node>, v: set<PageId>, w: set<PageId>, vw: set<PageId>)
    requires SameBut(a, b, v) && SameBut(b, c, w) && v <= vw && w <= vw
    ensures SameBut(a, c, vw)
  {
    forall x | x in a && x !in vw ensures SamePage(a, c, x) {
      assert SamePage(a, b, x) && SamePage(b, c, x);
    }
  }

  lemma SameButWider(a: map<PageId, Node>, b: map<PageId, Node>, v: set<PageId>, w: set<PageId>)
    requires SameBut(a, b, v) && v <= w
    ensures SameBut(a, b, w)
  {}

  lemma SameNodes(a: map<PageId, Node>, b: map<PageId, Node>)
    requires a.Keys == b.Keys && forall x {:trigger a[x]} :: x in a ==> a[x] == b[x]
    ensures a == b
  {
    forall x | x in a ensures a[x] == b[x] {}
  }

  lemma Unchanged(a: map<PageId, Node>, w: set<PageId>)
    ensures SameBut(a, a, w)
  {}

  function Set(s: seq<PageId>): set<PageId> {
    set x | x in s
  }

  lemma Shorter(s: seq<PageId>)
    requires |s| >= 1
    ensures Set(s) == Set(s[..|s| - 1]) + {s[|s| - 1]}
  {}

  /** t is a search tree for m, every page but `except` properly filled. */
  ghost predicate Sound(t: Tree, m: map<Key, int>, leafMax: nat, internalMax: nat, except: PageId) {
    leafMax >= 2 && internalMax >= 4 && Shape(t) && Stores(t, m) && Filled(t, leafMax, internalMax, except)
  }

  /** Only page p is overfull, and `nodes` holds its two halves. */
  ghost predicate Overfull(t: Tree, m: map<Key, int>, leafMax: nat, internalMax: nat, p: PageId, q: PageId,
                           nodes: map<PageId, Node>) {
    Sound(t, m, leafMax, internalMax, p) && p in t.nodes && q >= 0 && q !in t.nodes && Halved(t, p, q, nodes) &&
    |t.nodes[p].items| == MaxSize(t.nodes[p].isLeaf, leafMax, internalMax)
  }

  function Middle(n: Node): nat {
    (|n.items| + 1) / 2
  }

  /** Everything a split step establishes, apart from the fill of the page above. */
  lemma SplitStep(t: Tree, p: PageId, up: PageId, i: nat, cut: nat, q: PageId, u: Tree,
                  leafMax: nat, internalMax: nat, m: map<Key, int>)
    requires leafMax >= 2 && internalMax >= 4 && IsSplit(t, p, up, i, cut, q, u) && Stores(t, m)
    requires |t.nodes[p].items| == MaxSize(t.nodes[p].isLeaf, leafMax, internalMax) && cut == Middle(t.nodes[p])
    requires forall x {:trigger FillOk(t, leafMax, internalMax, x)} ::
      x in t.nodes && x != p && x != up ==> FillOk(t, leafMax, internalMax, x)
    ensures Sound(u, m, leafMax, internalMax, up)
    ensures |u.nodes[up].items| == |t.nodes[up].items| + 1 && !u.nodes[up].isLeaf
    ensures SameBut(t.nodes, u.nodes, {p, up})
  {
    SplitKeeps(t, p, up, i, cut, q, u);
    SplitStores(t, p, up, i, cut, q, u, m);
    SplitFills(t, p, up, i, cut, q, u, leafMax, internalMax);
  }

  /** The cascade step below the root. */
  lemma EnterStep(t: Tree, m: map<Key, int>, leafMax: nat, internalMax: nat, p: PageId, q: PageId, up: PageId, i: nat,
                  nodes: map<PageId, Node>, now: map<PageId, Node>, held: seq<PageId>) returns (u: Tree)
    requires Overfull(t, m, leafMax, internalMax, p, q, nodes) && p != t.root && HeldForInsert(t, held, p, internalMax)
    requires up == t.nodes[p].parent && up in t.nodes && i == IndexOf(t.nodes[up].items, p) < |t.nodes[up].items|
    requires now == nodes[up := t.nodes[up].(items :=
      InsertAt(t.nodes[up].items, i + 1, Pair(t.nodes[p].items[Middle(t.nodes[p])].key, q)))]
    ensures u.nodes == now && u.root == t.root && Sound(u, m, leafMax, internalMax, up)
    ensures up in now && !now[up].isLeaf && |now[up].items| == |t.nodes[up].items| + 1 <= internalMax
    ensures |held| >= 2 && up in Set(held) && up == held[|held| - 2] && SameBut(t.nodes, u.nodes, Set(held))
    ensures |now[up].items| == internalMax ==> HeldForInsert(u, held[..|held| - 1], up, internalMax)
    ensures |now[up].items| < internalMax ==> Sound(u, m, leafMax, internalMax, INVALID_PAGE_ID)
  {
    var cut := Middle(t.nodes[p]);
    HalvedInserted(t, p, q, cut, up, i, nodes);
    u := AfterSplit(t, p, cut, q, now);
    SplitStep(t, p, up, i, cut, q, u, leafMax, internalMax, m);
    HeldAfter(t, p, up, i, cut, q, u, held);
    assert FillOk(t, leafMax, internalMax, up);
    if |now[up].items| < internalMax { assert FillOk(u, leafMax, internalMax, up); }
  }

  /** The rest of the latched path is still one. */
  lemma HeldAfter(t: Tree, p: PageId, up: PageId, i: nat, cut: nat, q: PageId, u: Tree, held: seq<PageId>)
    requires IsSplit(t, p, up, i, cut, q, u) && HeldPath(t, held) && held[|held| - 1] == p && p != t.root
    requires held[0] == t.root || |held| >= 2
    ensures |held| >= 2 && up == held[|held| - 2] && HeldPath(u, held[..|held| - 1])
    ensures held[0] != up ==> u.nodes[held[0]].items == t.nodes[held[0]].items
  {
    var rest := held[..|held| - 1];
    forall k | 0 <= k < |rest| ensures rest[k] in u.nodes && u.lvl[rest[k]] == t.lvl[rest[k]] && rest[k] != p {
      assert rest[k] == held[k] && t.lvl[held[k]] + k == t.lvl[p] + |held| - 1;
      assert rest[k] in u.nodes;
    }
    forall k | 1 <= k < |rest| ensures u.nodes[rest[k]].parent == rest[k - 1] {
      assert t.nodes[rest[k]].parent == rest[k - 1] && rest[k - 1] != p;
      assert u.nodes[rest[k]] == SplitNode(t, p, up, i, cut, q, rest[k]);
    }
    assert u.nodes[held[0]] == SplitNode(t, p, up, i, cut, q, held[0]);
  }

  /** Splitting the child of a new root over a full one restores the invariant. */
  lemma RootSound(t: Tree, m: map<Key, int>, leafMax: nat, internalMax: nat, p: PageId, q: PageId, r: PageId, junk: Key, u: Tree)
    requires Sound(t, m, leafMax, internalMax, p) && p == t.root && r >= 0 && r !in t.nodes
    requires |t.nodes[p].items| == MaxSize(t.nodes[p].isLeaf, leafMax, internalMax)
    requires IsSplit(AddRoot(t, r, junk), p, r, 0, Middle(t.nodes[p]), q, u)
    ensures Sound(u, m, leafMax, internalMax, INVALID_PAGE_ID) && SameBut(AddRoot(t, r, junk).nodes, u.nodes, {p, r})
  {
    AddRootStores(t, r, junk, m);
    AddRootFills(t, r, junk, leafMax, internalMax);
    SplitStep(AddRoot(t, r, junk), p, r, 0, Middle(t.nodes[p]), q, u, leafMax, internalMax, m);
    assert FillOk(u, leafMax, internalMax, r);
  }

  /** The cascade step at the root. */
  lemma RootStep(t: Tree, m: map<Key, int>, leafMax: nat, internalMax: nat, p: PageId, q: PageId, r: PageId, junk: Key,
                 nodes: map<PageId, Node>, now: map<PageId, Node>) returns (u: Tree)
    requires Overfull(t, m, leafMax, internalMax, p, q, nodes) && p == t.root && r >= 0 && r != q && r !in t.nodes
    requires now == nodes[r := Node(false, INVALID_PAGE_ID, INVALID_PAGE_ID,
                                    [Pair(junk, p), Pair(t.nodes[p].items[Middle(t.nodes[p])].key, q)])]
                         [p := nodes[p].(parent := r)][q := nodes[q].(parent := r)]
    ensures u.nodes == now && u.root == r && Sound(u, m, leafMax, internalMax, INVALID_PAGE_ID)
    ensures SameBut(t.nodes, u.nodes, {p})
  {
    var cut := Middle(t.nodes[p]);
    assert nodes[p] == HalfNode(t, p, cut, q, p) && nodes[q] == HalfNode(t, p, cut, q, q);
    HalvedRoot(t, p, q, cut, r, junk, now);
    u := AfterSplit(AddRoot(t, r, junk), p, cut, q, now);
    RootSound(t, m, leafMax, internalMax, p, q, r, junk, u);
    RootSame(t, p, r, junk, now);
  }

  lemma RootSame(t: Tree, p: PageId, r: PageId, junk: Key, now: map<PageId, Node>)
    requires Domains(t) && p == t.root && r !in t.nodes && SameBut(AddRoot(t, r, junk).nodes, now, {p, r})
    ensures SameBut(t.nodes, now, {p})
  {
    var a := AddRoot(t, r, junk);
    forall x | x in t.nodes && x != p ensures SamePage(t.nodes, now, x) {
      assert SamePage(a.nodes, now, x);
    }
  }

  lemma AddRootStores(t: Tree, r: PageId, junk: Key, m: map<Key, int>)
    requires Shape(t) && Stores(t, m) && r >= 0 && r !in t.nodes
    ensures Stores(AddRoot(t, r, junk), m)
  {}

  lemma ChildrenDistinct(t: Tree, up: PageId, i: nat)
    requires Shape(t) && up in t.nodes && !t.nodes[up].isLeaf && i < |t.nodes[up].items|
    ensures forall k :: i < k < |t.nodes[up].items| ==> t.nodes[up].items[k].val != t.nodes[up].items[i].val
  {
    forall k | i < k < |t.nodes[up].items| ensures t.nodes[up].items[k].val != t.nodes[up].items[i].val {
      ChildPosition(t, up, i);
      ChildPosition(t, up, k);
    }
  }

  // ------------------------------------------------------------------ leaf writes

  lemma InsertedAt(items: seq<Pair>, i: nat, x: Pair, j: nat)
    requires i <= |items| && j <= |items|
    ensures InsertAt(items, i, x)[j] == if j < i then items[j] else if j == i then x else items[j - 1]
  {}

  lemma InsertedSorted(items: seq<Pair>, r: Range, k: Key, v: int)
    requires EntriesOk(items, r) && In(r, k) && !Has(items, k)
    ensures EntriesOk(InsertSorted(items, k, v), r)
  {}

  lemma InsertedEntry(items: seq<Pair>, k: Key, v: int, m: map<Key, int>, a: nat)
    requires Sorted(items) && !Has(items, k) && a <= |items|
    requires forall i :: 0 <= i < |items| ==> items[i].key in m && m[items[i].key] == items[i].val
    ensures var x := InsertSorted(items, k, v)[a]; x.key in m[k := v] && m[k := v][x.key] == x.val
  {
    InsertedAt(items, Rank(items, k), Pair(k, v), a);
  }

  lemma InsertedKey(items: seq<Pair>, k: Key, v: int, x: Key)
    requires Sorted(items) && (x == k || HasKey(items, x))
    ensures HasKey(InsertSorted(items, k, v), x)
  {
    var i, now := Rank(items, k), InsertSorted(items, k, v);
    if x == k {
      assert now[i].key == k;
    } else {
      var j :| 0 <= j < |items| && items[j].key == x;
      InsertedAt(items, i, Pair(k, v), if j < i then j else j + 1);
      assert now[if j < i then j else j + 1].key == x;
    }
  }

  lemma InsertedAgrees(items: seq<Pair>, r: Range, k: Key, v: int, m: map<Key, int>)
    requires EntriesOk(items, r) && In(r, k) && !Has(items, k) && Agrees(items, r, m)
    ensures Agrees(InsertSorted(items, k, v), r, m[k := v])
  {
    var now := InsertSorted(items, k, v);
    forall a | 0 <= a < |now| ensures now[a].key in m[k := v] && m[k := v][now[a].key] == now[a].val {
      InsertedEntry(items, k, v, m, a);
    }
    forall x | x in m[k := v] && In(r, x) ensures HasKey(now, x) {
      InsertedKey(items, k, v, x);
    }
  }

  lemma RemovedAt(items: seq<Pair>, i: nat, j: nat)
    requires i < |items| && j < |items| - 1
    ensures RemoveAt(items, i)[j] == items[if j < i then j else j + 1]
  {}

  lemma RemovedSorted(items: seq<Pair>, r: Range, i: nat)
    requires EntriesOk(items, r) && i < |items|
    ensures EntriesOk(RemoveAt(items, i), r)
  {}

  lemma RemovedAgrees(items: seq<Pair>, r: Range, i: nat, m: map<Key, int>)
    requires EntriesOk(items, r) && i < |items| && Agrees(items, r, m)
    ensures Agrees(RemoveAt(items, i), r, m - {items[i].key})
  {
    var now := RemoveAt(items, i);
    forall a | 0 <= a < |now|
      ensures now[a].key in m - {items[i].key} && (m - {items[i].key})[now[a].key] == now[a].val
    {
      RemovedAt(items, i, a);
    }
    forall x | x in m - {items[i].key} && In(r, x) ensures HasKey(now, x) {
      assert HasKey(items, x);
      var j :| 0 <= j < |items| && items[j].key == x;
      RemovedAt(items, i, if j > i then j - 1 else j);
    }
  }

  /** Writing the entries of a leaf: what the tree then stores, and what the write leaves alone. */
  lemma LeafWrite(t: Tree, m: map<Key, int>, m': map<Key, int>, leafMax: nat, internalMax: nat, p: PageId, items: seq<Pair>)
    requires Sound(t, m, leafMax, internalMax, INVALID_PAGE_ID) && p in t.nodes && t.nodes[p].isLeaf
    requires EntriesOk(items, t.rng[p]) && Agrees(items, t.rng[p], m')
    requires forall k :: !In(t.rng[p], k) ==> ((k in m) == (k in m')) && (k in m ==> m[k] == m'[k])
    ensures var u := WithItems(t, p, items); Sound(u, m', leafMax, internalMax, p) && SameBut(t.nodes, u.nodes, {p})
    ensures var u := WithItems(t, p, items);
      FillOk(u, leafMax, internalMax, p) ==> Sound(u, m', leafMax, internalMax, INVALID_PAGE_ID)
  {
    var u := WithItems(t, p, items);
    WithItemsKeeps(t, p, items);
    WithItemsStores(t, p, items, m, m');
    NotAPage(t);
    forall x | x in u.nodes && x != p ensures FillOk(u, leafMax, internalMax, x) {
      assert FillOk(t, leafMax, internalMax, x);
    }
  }

  /** The leaf write that starts an insertion. */
  lemma LeafInsertStep(t: Tree, m: map<Key, int>, leafMax: nat, internalMax: nat, p: PageId, k: Key, v: int, held: seq<PageId>)
    requires Sound(t, m, leafMax, internalMax, INVALID_PAGE_ID) && p in t.nodes && t.nodes[p].isLeaf && In(t.rng[p], k)
    requires HeldPath(t, held) && held[|held| - 1] == p
    requires held[0] == t.root || CanGrow(t.nodes[held[0]], leafMax, internalMax)
    ensures Sorted(t.nodes[p].items) && 1 <= |t.nodes[p].items| < leafMax && (Has(t.nodes[p].items, k) <==> k in m)
    ensures k !in m ==> var u := WithItems(t, p, InsertSorted(t.nodes[p].items, k, v));
      Sound(u, m[k := v], leafMax, internalMax, if |t.nodes[p].items| + 1 < leafMax then INVALID_PAGE_ID else p) &&
      SameBut(t.nodes, u.nodes, {p}) && |u.nodes[p].items| == |t.nodes[p].items| + 1 &&
      (|t.nodes[p].items| + 1 == leafMax ==> HeldForInsert(u, held, p, internalMax))
  {
    assert PageOk(t, p) && FillOk(t, leafMax, internalMax, p) && Agrees(t.nodes[p].items, t.rng[p], m);
    StoresInLeaf(t, p, k, m);
    if k !in m {
      var items := InsertSorted(t.nodes[p].items, k, v);
      InsertedSorted(t.nodes[p].items, t.rng[p], k, v);
      InsertedAgrees(t.nodes[p].items, t.rng[p], k, v, m);
      LeafWrite(t, m, m[k := v], leafMax, internalMax, p, items);
      if |items| == leafMax { HeldAfterInsert(t, p, items, held, leafMax, internalMax); }
    }
  }

  lemma HeldAfterInsert(t: Tree, p: PageId, items: seq<Pair>, held: seq<PageId>, leafMax: nat, internalMax: nat)
    requires Shape(t) && p in t.nodes && t.nodes[p].isLeaf && HeldPath(t, held) && held[|held| - 1] == p
    requires held[0] == t.root || CanGrow(t.nodes[held[0]], leafMax, internalMax)
    requires |items| == |t.nodes[p].items| + 1 == leafMax
    ensures HeldForInsert(WithItems(t, p, items), held, p, internalMax)
  {
    assert PageOk(t, held[0]);
  }

  lemma NotAPage(t: Tree)
    requires Shape(t)
    ensures INVALID_PAGE_ID !in t.nodes
  {
    forall p | p in t.nodes ensures p >= 0 {
      assert PageOk(t, p);
    }
  }
}
