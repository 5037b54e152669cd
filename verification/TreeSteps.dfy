/**
  The elementary rearrangements of a paged B+ tree, and the proof that each keeps its shape.
 */
module TreeSteps {
  import opened TreeShape

  // ------------------------------------------------------------------ split

  ghost predicate CanSplit(t: Tree, p: PageId, cut: nat, q: PageId) {
    Shape(t) && p in t.nodes && p != t.root && 1 <= cut < |t.nodes[p].items| && q >= 0 && q !in t.nodes
  }

  /** Where page x hangs once the children of p from position `cut` on belong to q. */
  ghost function ParentAfterSplit(t: Tree, p: PageId, cut: nat, q: PageId, x: PageId): PageId
    requires p in t.nodes && x in t.nodes
  {
    var n := t.nodes[p];
    if !n.isLeaf && t.nodes[x].parent == p && cut <= IndexOf(n.items, x) < |n.items| then q else t.nodes[x].parent
  }

  /** The two halves: p keeps its first `cut` entries and the new page q gets the rest. */
  ghost function HalfNode(t: Tree, p: PageId, cut: nat, q: PageId, x: PageId): Node
    requires p in t.nodes && cut <= |t.nodes[p].items| && (x in t.nodes || x == q)
  {
    var n := t.nodes[p];
    if x == p then n.(next := if n.isLeaf then q else n.next, items := n.items[..cut])
    else if x == q then Node(n.isLeaf, n.parent, if n.isLeaf then n.next else INVALID_PAGE_ID, n.items[cut..])
    else t.nodes[x].(parent := ParentAfterSplit(t, p, cut, q, x))
  }

  /** The halves, and q entered behind p at position i of its parent. */
  ghost function SplitNode(t: Tree, p: PageId, up: PageId, i: nat, cut: nat, q: PageId, x: PageId): Node
    requires p in t.nodes && up in t.nodes && i < |t.nodes[up].items| && cut < |t.nodes[p].items|
    requires x in t.nodes || x == q
  {
    if x == up then
      t.nodes[up].(items := InsertAt(t.nodes[up].items, i + 1, Pair(t.nodes[p].items[cut].key, q)))
    else HalfNode(t, p, cut, q, x)
  }

  /** The boundaries after an entry enters behind position i. */
  ghost predicate EdgesGrow(items: seq<Pair>, r: Range, i: nat, x: Pair)
    requires i < |items|
  {
    forall j :: 0 <= j <= |items| + 1 ==>
      Edge(InsertAt(items, i + 1, x), r, j) ==
      (if j <= i then Edge(items, r, j) else if j == i + 1 then At(x.key) else Edge(items, r, j - 1))
  }

  lemma TilesInsert(items: seq<Pair>, r: Range, i: nat, x: Pair)
    requires Tiles(items, r) && i < |items|
    requires Lt(Edge(items, r, i), At(x.key)) && Lt(At(x.key), Edge(items, r, i + 1))
    ensures Tiles(InsertAt(items, i + 1, x), r)
    ensures EdgesGrow(items, r, i, x)
  {
    var items' := InsertAt(items, i + 1, x);
    forall j, k | 0 <= j < k <= |items'| ensures Lt(Edge(items', r, j), Edge(items', r, k)) {
      if j <= i { assert Edge(items', r, j) == Edge(items, r, j); }
      if k <= i { assert Edge(items', r, k) == Edge(items, r, k); }
      if j > i + 1 { assert Edge(items', r, j) == Edge(items, r, j - 1); }
      if k > i + 1 { assert Edge(items', r, k) == Edge(items, r, k - 1); }
    }
  }

  lemma TilesSplit(items: seq<Pair>, r: Range, cut: nat)
    requires Tiles(items, r) && 1 <= cut < |items|
    ensures Tiles(items[..cut], Range(r.lo, At(items[cut].key)))
    ensures Tiles(items[cut..], Range(At(items[cut].key), r.hi))
    ensures forall j :: 0 <= j <= cut ==> Edge(items[..cut], Range(r.lo, At(items[cut].key)), j) == Edge(items, r, j)
    ensures forall j :: 0 <= j <= |items| - cut ==>
      Edge(items[cut..], Range(At(items[cut].key), r.hi), j) == Edge(items, r, cut + j)
  {
    var sep := At(items[cut].key);
    assert forall j :: 0 <= j <= cut ==> Edge(items[..cut], Range(r.lo, sep), j) == Edge(items, r, j);
    assert forall j :: 0 <= j <= |items| - cut ==> Edge(items[cut..], Range(sep, r.hi), j) == Edge(items, r, cut + j);
  }

  /** The separating key lies strictly inside the split page's range. */
  lemma SeparatorInside(t: Tree, p: PageId, cut: nat, q: PageId)
    requires CanSplit(t, p, cut, q)
    ensures Lt(t.rng[p].lo, At(t.nodes[p].items[cut].key)) && Lt(At(t.nodes[p].items[cut].key), t.rng[p].hi)
  {
    assert PageOk(t, p);
    var n := t.nodes[p];
    if n.isLeaf {
      assert n.items[0].key < n.items[cut].key && In(t.rng[p], n.items[0].key) && In(t.rng[p], n.items[cut].key);
    } else {
      EdgeLt(n.items, t.rng[p], 0, cut);
      EdgeLt(n.items, t.rng[p], cut, |n.items|);
    }
  }

  /**
    The split u of t, page by page: page p keeps its first `cut` entries, the new page q gets the rest, and q
    enters p's parent `up` behind p's position i.
   */
  ghost predicate IsSplit(t: Tree, p: PageId, up: PageId, i: nat, cut: nat, q: PageId, u: Tree) {
    CanSplit(t, p, cut, q) && up == t.nodes[p].parent && up in t.nodes && i == IndexOf(t.nodes[up].items, p) &&
    !t.nodes[up].isLeaf && i < |t.nodes[up].items| && up != p && q != up && u.root == t.root &&
    Domains(u) && u.nodes.Keys == t.nodes.Keys + {q} &&
    (forall x :: x in u.nodes ==> u.nodes[x] == SplitNode(t, p, up, i, cut, q, x)) &&
    (forall x :: x in t.nodes ==> u.lvl[x] == t.lvl[x]) && u.lvl[q] == t.lvl[p] &&
    (forall x :: x in t.nodes && x != p ==> u.rng[x] == t.rng[x]) &&
    var sep := At(t.nodes[p].items[cut].key);
    u.rng[p] == Range(t.rng[p].lo, sep) && u.rng[q] == Range(sep, t.rng[p].hi)
  }

  lemma SplitParentChild(t: Tree, p: PageId, up: PageId, i: nat, cut: nat, q: PageId, u: Tree, j: nat)
    requires IsSplit(t, p, up, i, cut, q, u) && j <= |t.nodes[up].items|
    requires EdgesGrow(t.nodes[up].items, t.rng[up], i, Pair(t.nodes[p].items[cut].key, q))
    ensures ChildOk(u, up, j)
  {
    var items := t.nodes[up].items;
    var items' := u.nodes[up].items;
    if j == i + 1 {
      assert items'[j].val == q;
      ChildPosition(t, up, i);
    } else {
      var was := if j <= i then j else j - 1;
      assert items'[j] == items[was];
      ChildPosition(t, up, was);
    }
  }

  lemma SplitParent(t: Tree, p: PageId, up: PageId, i: nat, cut: nat, q: PageId, u: Tree)
    requires IsSplit(t, p, up, i, cut, q, u)
    ensures InternalOk(u, up)
  {
    var _, _ := Up(t, p);
    assert PageOk(t, up);
    var items, r := t.nodes[up].items, t.rng[up];
    var x := Pair(t.nodes[p].items[cut].key, q);
    SeparatorInside(t, p, cut, q);
    TilesInsert(items, r, i, x);
    var items' := InsertAt(items, i + 1, x);
    forall j | 0 <= j < |items'| ensures ChildOk(u, up, j) {
      SplitParentChild(t, p, up, i, cut, q, u, j);
    }
  }

  lemma SplitHalves(t: Tree, p: PageId, up: PageId, i: nat, cut: nat, q: PageId, u: Tree)
    requires IsSplit(t, p, up, i, cut, q, u) && !t.nodes[p].isLeaf
    ensures InternalOk(u, p) && InternalOk(u, q)
  {
    var _, _ := Up(t, p);
    var items, r := t.nodes[p].items, t.rng[p];
    assert PageOk(t, p);
    TilesSplit(items, r, cut);
    forall j | 0 <= j < cut ensures ChildOk(u, p, j) {
      ChildPosition(t, p, j);
    }
    forall j | 0 <= j < |items| - cut ensures ChildOk(u, q, j) {
      ChildPosition(t, p, cut + j);
    }
  }

  lemma SplitLeaves(t: Tree, p: PageId, up: PageId, i: nat, cut: nat, q: PageId, u: Tree)
    requires IsSplit(t, p, up, i, cut, q, u) && t.nodes[p].isLeaf
    ensures LeafOk(u, p) && LeafOk(u, q)
  {
    var _, _ := Up(t, p);
    assert PageOk(t, p);
    SeparatorInside(t, p, cut, q);
    if t.rng[p].hi != PosInf { NonEmpty(t, p); }
  }

  /** Any page not directly involved keeps its own conditions. */
  lemma SplitElsewhere(t: Tree, p: PageId, up: PageId, i: nat, cut: nat, q: PageId, u: Tree, x: PageId)
    requires IsSplit(t, p, up, i, cut, q, u) && x in t.nodes && x != p && x != up
    ensures if t.nodes[x].isLeaf then LeafOk(u, x) else InternalOk(u, x)
  {
    assert PageOk(t, x);
    var _, _ := Up(t, p);
    if !t.nodes[x].isLeaf {
      forall j | 0 <= j < |t.nodes[x].items| ensures ChildOk(u, x, j) {
        ChildPosition(t, x, j);
      }
    }
  }

  lemma ListedAfterInsert(items: seq<Pair>, i: nat, x: Pair, j: nat)
    requires i <= |items| && j < |items|
    ensures IndexOf(InsertAt(items, i, x), items[j].val) < |items| + 1
  {
    assert InsertAt(items, i, x)[if j < i then j else j + 1] == items[j];
  }

  lemma ListedAfterSplit(items: seq<Pair>, cut: nat, j: nat)
    requires cut <= |items| && j < |items|
    ensures var half := if j < cut then items[..cut] else items[cut..]; IndexOf(half, items[j].val) < |half|
  {}

  /** Every page is listed by the page its parent id names. */
  lemma SplitListed(t: Tree, p: PageId, up: PageId, i: nat, cut: nat, q: PageId, u: Tree, x: PageId)
    requires IsSplit(t, p, up, i, cut, q, u) && x in t.nodes && x != t.root
    ensures ParentOk(u, x)
  {
    var ux, j := Up(t, x);
    var _, _ := Up(t, p);
    assert PageOk(t, x);
    if ux == up {
      ListedAfterInsert(t.nodes[up].items, i + 1, Pair(t.nodes[p].items[cut].key, q), j);
    } else if ux == p {
      ListedAfterSplit(t.nodes[p].items, cut, j);
    }
  }

  lemma SplitKeeps(t: Tree, p: PageId, up: PageId, i: nat, cut: nat, q: PageId, u: Tree)
    requires IsSplit(t, p, up, i, cut, q, u)
    ensures Shape(u)
  {
    SplitParent(t, p, up, i, cut, q, u);
    if t.nodes[p].isLeaf { SplitLeaves(t, p, up, i, cut, q, u); } else { SplitHalves(t, p, up, i, cut, q, u); }
    forall x | x in u.nodes ensures PageOk(u, x) {
      assert PageOk(t, p) && PageOk(t, up) && PageOk(t, t.root);
      if x == q {
        assert u.nodes[up].items[i + 1].val == q;
      } else {
        assert PageOk(t, x);
        if x != t.root { SplitListed(t, p, up, i, cut, q, u, x); }
        if x != p && x != up { SplitElsewhere(t, p, up, i, cut, q, u, x); }
      }
    }
  }

  // ------------------------------------------------------------------ merge

  ghost predicate CanMerge(t: Tree, up: PageId, j: nat) {
    Shape(t) && up in t.nodes && !t.nodes[up].isLeaf && 1 <= j < |t.nodes[up].items|
  }

  /** The entries of two adjacent siblings; `sep` is the key between them in the parent. */
  ghost function Joined(l: Node, r: Node, sep: Key): seq<Pair>
  {
    if r.isLeaf || |r.items| == 0 then l.items + r.items else l.items + r.items[0 := Pair(sep, r.items[0].val)]
  }

  /** Child j of `up` is emptied into child j - 1 and leaves the tree. */
  ghost function MergeNode(t: Tree, up: PageId, j: nat, x: PageId): Node
    requires up in t.nodes && x in t.nodes && 1 <= j < |t.nodes[up].items|
    requires t.nodes[up].items[j - 1].val in t.nodes && t.nodes[up].items[j].val in t.nodes
  {
    var pn := t.nodes[up];
    var l, r := pn.items[j - 1].val, pn.items[j].val;
    if x == l then
      t.nodes[l].(items := Joined(t.nodes[l], t.nodes[r], pn.items[j].key), next := t.nodes[r].next)
    else if x == up then pn.(items := RemoveAt(pn.items, j))
    else t.nodes[x].(parent := if t.nodes[x].parent == r then l else t.nodes[x].parent)
  }

  ghost function Merge(t: Tree, up: PageId, j: nat): Tree
    requires CanMerge(t, up, j)
  {
    assert PageOk(t, up);
    var l, r := t.nodes[up].items[j - 1].val, t.nodes[up].items[j].val;
    assert ChildOk(t, up, j - 1) && ChildOk(t, up, j);
    Tree(map x | x in t.nodes.Keys - {r} :: MergeNode(t, up, j, x), t.root, t.lvl - {r},
         (t.rng - {r})[l := Range(t.rng[l].lo, t.rng[r].hi)])
  }

  /** What is known about the two siblings to be merged. */
  ghost predicate AreSiblings(t: Tree, up: PageId, j: nat, l: PageId, r: PageId, sep: Key) {
    CanMerge(t, up, j) &&
    l == t.nodes[up].items[j - 1].val && r == t.nodes[up].items[j].val && sep == t.nodes[up].items[j].key &&
    l in t.nodes && r in t.nodes && l != r && l != up && r != up && l != t.root && r != t.root &&
    IndexOf(t.nodes[up].items, l) == j - 1 && IndexOf(t.nodes[up].items, r) == j &&
    t.nodes[l].parent == up && t.nodes[r].parent == up && t.nodes[l].isLeaf == t.nodes[r].isLeaf &&
    t.lvl[l] == t.lvl[r] && t.lvl[l] + 1 == t.lvl[up] && t.rng[l].hi == At(sep) && t.rng[r].lo == At(sep) &&
    (!t.nodes[r].isLeaf ==> |t.nodes[r].items| >= 1)
  }

  lemma Siblings(t: Tree, up: PageId, j: nat) returns (l: PageId, r: PageId, sep: Key)
    requires CanMerge(t, up, j)
    ensures AreSiblings(t, up, j, l, r, sep)
  {
    ChildPosition(t, up, j - 1);
    ChildPosition(t, up, j);
    l, r, sep := t.nodes[up].items[j - 1].val, t.nodes[up].items[j].val, t.nodes[up].items[j].key;
    assert PageOk(t, up) && PageOk(t, l) && PageOk(t, r);
  }

  /** The merge u of t, page by page. */
  ghost predicate IsMerge(t: Tree, up: PageId, j: nat, l: PageId, r: PageId, sep: Key, u: Tree) {
    AreSiblings(t, up, j, l, r, sep) && u.root == t.root && Domains(u) && u.nodes.Keys == t.nodes.Keys - {r} &&
    (forall x :: x in u.nodes ==> u.nodes[x] == MergeNode(t, up, j, x) && u.lvl[x] == t.lvl[x]) &&
    (forall x :: x in u.nodes && x != l ==> u.rng[x] == t.rng[x]) &&
    u.rng[l] == Range(t.rng[l].lo, t.rng[r].hi)
  }

  lemma MergeIs(t: Tree, up: PageId, j: nat) returns (l: PageId, r: PageId, sep: Key)
    requires CanMerge(t, up, j)
    ensures IsMerge(t, up, j, l, r, sep, Merge(t, up, j))
  {
    l, r, sep := Siblings(t, up, j);
  }

  lemma TilesRemove(items: seq<Pair>, r: Range, j: nat)
    requires Tiles(items, r) && 1 <= j < |items|
    ensures Tiles(RemoveAt(items, j), r)
    ensures forall k :: 0 <= k < |items| ==>
      Edge(RemoveAt(items, j), r, k) == (if k < j then Edge(items, r, k) else Edge(items, r, k + 1))
  {
    var items' := RemoveAt(items, j);
    forall k | 0 <= k < |items| ensures Edge(items', r, k) == Edge(items, r, if k < j then k else k + 1) {
      if 0 < k < |items'| { assert items'[k] == items[if k < j then k else k + 1]; }
    }
    forall i, k | 0 <= i < k <= |items'| ensures Lt(Edge(items', r, i), Edge(items', r, k)) {
      assert Edge(items', r, i) == Edge(items, r, if i < j then i else i + 1);
      assert Edge(items', r, k) == Edge(items, r, if k < j then k else k + 1);
    }
  }

  lemma TilesJoin(a: seq<Pair>, b: seq<Pair>, lo: Bound, sep: Key, hi: Bound)
    requires Tiles(a, Range(lo, At(sep))) && Tiles(b, Range(At(sep), hi))
    ensures Tiles(a + b[0 := Pair(sep, b[0].val)], Range(lo, hi))
    ensures forall k :: 0 <= k <= |a| + |b| ==>
      Edge(a + b[0 := Pair(sep, b[0].val)], Range(lo, hi), k) ==
      (if k <= |a| then Edge(a, Range(lo, At(sep)), k) else Edge(b, Range(At(sep), hi), k - |a|))
  {
    var c := a + b[0 := Pair(sep, b[0].val)];
    var r, ra, rb := Range(lo, hi), Range(lo, At(sep)), Range(At(sep), hi);
    assert forall k :: 0 <= k <= |a| + |b| ==>
      Edge(c, r, k) == if k <= |a| then Edge(a, ra, k) else Edge(b, rb, k - |a|);
    forall i, k | 0 <= i < k <= |c| ensures Lt(Edge(c, r, i), Edge(c, r, k)) {
      if i < |a| { EdgeLt(a, ra, i, |a|); }
      if k > |a| { EdgeLt(b, rb, 0, k - |a|); }
    }
  }

  lemma MergeParent(t: Tree, up: PageId, j: nat, l: PageId, r: PageId, sep: Key, u: Tree)
    requires IsMerge(t, up, j, l, r, sep, u)
    ensures InternalOk(u, up)
  {
    assert PageOk(t, up);
    var items := t.nodes[up].items;
    TilesRemove(items, t.rng[up], j);
    ChildPosition(t, up, j);
    forall k | 0 <= k < |items| - 1 ensures ChildOk(u, up, k) {
      var was := if k < j then k else k + 1;
      assert u.nodes[up].items[k] == items[was];
      ChildPosition(t, up, was);
    }
  }

  lemma MergeInternal(t: Tree, up: PageId, j: nat, l: PageId, r: PageId, sep: Key, u: Tree)
    requires IsMerge(t, up, j, l, r, sep, u) && !t.nodes[l].isLeaf
    ensures InternalOk(u, l)
  {
    var a, b := t.nodes[l].items, t.nodes[r].items;
    assert PageOk(t, l) && PageOk(t, r);
    TilesJoin(a, b, t.rng[l].lo, sep, t.rng[r].hi);
    forall k | 0 <= k < |a| + |b| ensures ChildOk(u, l, k) {
      if k < |a| {
        assert u.nodes[l].items[k] == a[k];
        ChildPosition(t, l, k);
      } else {
        assert u.nodes[l].items[k].val == b[k - |a|].val;
        ChildPosition(t, r, k - |a|);
      }
    }
  }

  lemma MergeLeaf(t: Tree, up: PageId, j: nat, l: PageId, r: PageId, sep: Key, u: Tree)
    requires IsMerge(t, up, j, l, r, sep, u) && t.nodes[l].isLeaf
    ensures LeafOk(u, l)
  {
    assert PageOk(t, l) && PageOk(t, r);
    NonEmpty(t, l);
    NonEmpty(t, r);
    if t.rng[r].hi != PosInf { assert PageOk(t, t.nodes[r].next); }
  }

  /** Only the left sibling can link to the leaf that disappears. */
  lemma MergeElsewhere(t: Tree, up: PageId, j: nat, l: PageId, r: PageId, sep: Key, u: Tree, x: PageId)
    requires IsMerge(t, up, j, l, r, sep, u) && x in u.nodes && x != up && x != l
    ensures if t.nodes[x].isLeaf then LeafOk(u, x) else InternalOk(u, x)
  {
    assert PageOk(t, x);
    if t.nodes[x].isLeaf {
      if t.nodes[x].next == r && t.rng[x].hi != PosInf { LeafByEnd(t, x, l); }
    } else {
      forall i | 0 <= i < |t.nodes[x].items| ensures ChildOk(u, x, i) {
        ChildPosition(t, x, i);
      }
    }
  }

  lemma ListedAfterRemove(items: seq<Pair>, j: nat, k: nat)
    requires j < |items| && k < |items| && k != j
    ensures IndexOf(RemoveAt(items, j), items[k].val) < |items| - 1
  {
    assert RemoveAt(items, j)[if k < j then k else k - 1] == items[k];
  }

  lemma ListedAfterJoin(a: Node, b: Node, sep: Key, left: bool, k: nat)
    requires a.isLeaf || |b.items| >= 1
    requires k < |(if left then a else b).items|
    ensures IndexOf(Joined(a, b, sep), (if left then a else b).items[k].val) < |Joined(a, b, sep)|
  {
    assert Joined(a, b, sep)[if left then k else |a.items| + k].val == (if left then a else b).items[k].val;
  }

  /** Every page is listed by the page its parent id names. */
  lemma MergeListed(t: Tree, up: PageId, j: nat, l: PageId, r: PageId, sep: Key, u: Tree, x: PageId)
    requires IsMerge(t, up, j, l, r, sep, u) && x in u.nodes && x != t.root
    ensures ParentOk(u, x)
  {
    var ux, k := Up(t, x);
    assert PageOk(t, x) && PageOk(t, up);
    if ux == up {
      ListedAfterRemove(t.nodes[up].items, j, k);
    } else if ux == l || ux == r {
      ListedAfterJoin(t.nodes[l], t.nodes[r], sep, ux == l, k);
    }
  }

  lemma MergeKeeps(t: Tree, up: PageId, j: nat, l: PageId, r: PageId, sep: Key, u: Tree)
    requires IsMerge(t, up, j, l, r, sep, u)
    ensures Shape(u)
  {
    MergeParent(t, up, j, l, r, sep, u);
    if t.nodes[l].isLeaf { MergeLeaf(t, up, j, l, r, sep, u); } else { MergeInternal(t, up, j, l, r, sep, u); }
    forall x | x in u.nodes ensures PageOk(u, x) {
      assert PageOk(t, x) && PageOk(t, t.root) && PageOk(t, r);
      if x != t.root { MergeListed(t, up, j, l, r, sep, u, x); }
      if x != up && x != l { MergeElsewhere(t, up, j, l, r, sep, u, x); }
    }
  }

  // ------------------------------------------------------------------ redistribute

  /** A leaf's link names its right sibling. */
  lemma NextIsSibling(t: Tree, up: PageId, j: nat)
    requires CanMerge(t, up, j)
    ensures var l, r := t.nodes[up].items[j - 1].val, t.nodes[up].items[j].val;
      l in t.nodes && r in t.nodes && (t.nodes[l].isLeaf ==> t.nodes[l].next == r)
  {
    var l, r, sep := Siblings(t, up, j);
    if t.nodes[l].isLeaf {
      var next := t.nodes[l].next;
      assert PageOk(t, l) && PageOk(t, r);
      assert PageOk(t, next);
      NonEmpty(t, next);
      NonEmpty(t, r);
      SameLevelUnique(t, next, r, sep);
    }
  }

  // ------------------------------------------------------------------ leaf writes, new root, root collapse

  ghost function WithItems(t: Tree, p: PageId, items: seq<Pair>): Tree
    requires p in t.nodes
  {
    t.(nodes := t.nodes[p := t.nodes[p].(items := items)])
  }

  lemma WithItemsKeeps(t: Tree, p: PageId, items: seq<Pair>)
    requires Shape(t) && p in t.nodes && t.nodes[p].isLeaf && EntriesOk(items, t.rng[p])
    ensures Shape(WithItems(t, p, items))
  {
    var u := WithItems(t, p, items);
    forall x | x in u.nodes ensures PageOk(u, x) {
      assert PageOk(t, x);
      if !t.nodes[x].isLeaf {
        forall i | 0 <= i < |t.nodes[x].items| ensures ChildOk(u, x, i) {
          assert ChildOk(t, x, i);
        }
      }
    }
  }

  /** A new root r above the old one. */
  ghost function AddRoot(t: Tree, r: PageId, junk: Key): Tree
    requires t.root in t.nodes && t.root in t.lvl
  {
    Tree(t.nodes[t.root := t.nodes[t.root].(parent := r)][r := Node(false, INVALID_PAGE_ID, INVALID_PAGE_ID, [Pair(junk, t.root)])],
         r, t.lvl[r := t.lvl[t.root] + 1], t.rng[r := FULL])
  }

  lemma AddRootKeeps(t: Tree, r: PageId, junk: Key)
    requires Shape(t) && r >= 0 && r !in t.nodes
    ensures Shape(AddRoot(t, r, junk))
  {
    var u := AddRoot(t, r, junk);
    assert PageOk(t, t.root);
    forall x | x in u.nodes ensures PageOk(u, x) {
      if x == r {
        assert ChildOk(u, r, 0);
      } else {
        assert PageOk(t, x);
        if !t.nodes[x].isLeaf {
          forall i | 0 <= i < |t.nodes[x].items| ensures ChildOk(u, x, i) {
            ChildPosition(t, x, i);
          }
        }
      }
    }
  }

  ghost predicate CanCollapse(t: Tree) {
    Shape(t) && !t.nodes[t.root].isLeaf && |t.nodes[t.root].items| == 1
  }

  /** The root's only child takes its place. */
  ghost function Collapse(t: Tree): Tree
    requires CanCollapse(t)
  {
    assert PageOk(t, t.root);
    var c := t.nodes[t.root].items[0].val;
    assert ChildOk(t, t.root, 0);
    Tree((t.nodes - {t.root})[c := t.nodes[c].(parent := INVALID_PAGE_ID)], c, t.lvl - {t.root}, t.rng - {t.root})
  }

  lemma CollapseKeeps(t: Tree)
    requires CanCollapse(t)
    ensures Shape(Collapse(t))
  {
    var u := Collapse(t);
    ChildPosition(t, t.root, 0);
    forall x | x in u.nodes ensures PageOk(u, x) {
      assert PageOk(t, x) && PageOk(t, t.root);
      var up, i := Up(t, x);
      if !t.nodes[x].isLeaf {
        forall k | 0 <= k < |t.nodes[x].items| ensures ChildOk(u, x, k) {
          ChildPosition(t, x, k);
        }
      }
    }
  }

  // ------------------------------------------------------------------ contents

  ghost predicate HasKey(items: seq<Pair>, k: Key) {
    exists i :: 0 <= i < |items| && items[i].key == k
  }

  /** On the keys of range r, the map m and the entries say the same. */
  ghost predicate Agrees(items: seq<Pair>, r: Range, m: map<Key, int>) {
    (forall i :: 0 <= i < |items| ==> items[i].key in m && m[items[i].key] == items[i].val) &&
    (forall k :: k in m && In(r, k) ==> HasKey(items, k))
  }

  /** The tree stores the map m. */
  ghost predicate Stores(t: Tree, m: map<Key, int>) {
    Domains(t) && forall p {:trigger Agrees(t.nodes[p].items, t.rng[p], m)} ::
      p in t.nodes && t.nodes[p].isLeaf ==> Agrees(t.nodes[p].items, t.rng[p], m)
  }

  lemma AgreesPrefix(items: seq<Pair>, r: Range, cut: nat, m: map<Key, int>)
    requires EntriesOk(items, r) && Agrees(items, r, m) && 1 <= cut < |items|
    ensures Agrees(items[..cut], Range(r.lo, At(items[cut].key)), m)
  {}

  lemma AgreesSuffix(items: seq<Pair>, r: Range, cut: nat, m: map<Key, int>)
    requires EntriesOk(items, r) && Agrees(items, r, m) && 1 <= cut < |items|
    ensures Agrees(items[cut..], Range(At(items[cut].key), r.hi), m)
  {}

  lemma AgreesJoin(a: seq<Pair>, b: seq<Pair>, lo: Bound, sep: Key, hi: Bound, m: map<Key, int>)
    requires Agrees(a, Range(lo, At(sep)), m) && Agrees(b, Range(At(sep), hi), m)
    ensures Agrees(a + b, Range(lo, hi), m)
  {
    forall k | k in m && In(Range(lo, hi), k) ensures HasKey(a + b, k) {
      var half := if k < sep then a else b;
      assert HasKey(half, k);
      var i :| 0 <= i < |half| && half[i].key == k;
      assert (a + b)[if k < sep then i else |a| + i].key == k;
    }
  }

  lemma SplitStores(t: Tree, p: PageId, up: PageId, i: nat, cut: nat, q: PageId, u: Tree, m: map<Key, int>)
    requires IsSplit(t, p, up, i, cut, q, u) && Stores(t, m)
    ensures Stores(u, m)
  {
    assert PageOk(t, p) && PageOk(t, up);
    if t.nodes[p].isLeaf {
      AgreesPrefix(t.nodes[p].items, t.rng[p], cut, m);
      AgreesSuffix(t.nodes[p].items, t.rng[p], cut, m);
    } else {
      var _, _ := Up(t, p);
    }
  }

  lemma MergeStores(t: Tree, up: PageId, j: nat, l: PageId, r: PageId, sep: Key, u: Tree, m: map<Key, int>)
    requires IsMerge(t, up, j, l, r, sep, u) && Stores(t, m)
    ensures Stores(u, m)
  {
    if t.nodes[l].isLeaf {
      AgreesJoin(t.nodes[l].items, t.nodes[r].items, t.rng[l].lo, sep, t.rng[r].hi, m);
    }
  }

  /** Writing one leaf changes the stored map on that leaf's range only. */
  lemma WithItemsStores(t: Tree, p: PageId, items: seq<Pair>, m: map<Key, int>, m': map<Key, int>)
    requires Shape(t) && p in t.nodes && t.nodes[p].isLeaf && Stores(t, m)
    requires Agrees(items, t.rng[p], m')
    requires forall k :: !In(t.rng[p], k) ==> ((k in m) == (k in m')) && (k in m ==> m[k] == m'[k])
    ensures Stores(WithItems(t, p, items), m')
  {
    var u := WithItems(t, p, items);
    forall x | x in u.nodes && u.nodes[x].isLeaf ensures Agrees(u.nodes[x].items, u.rng[x], m') {
      if x != p {
        assert PageOk(t, x) && PageOk(t, p) && Agrees(t.nodes[x].items, t.rng[x], m);
        forall k | In(t.rng[x], k) ensures !In(t.rng[p], k) {
          if In(t.rng[p], k) { SameLevelUnique(t, x, p, k); }
        }
      }
    }
  }

  /** The map a tree stores is unique. */
  lemma StoresInLeaf(t: Tree, p: PageId, k: Key, m: map<Key, int>)
    requires Shape(t) && Stores(t, m) && p in t.nodes && t.nodes[p].isLeaf && In(t.rng[p], k)
    ensures Sorted(t.nodes[p].items)
    ensures k in m <==> Has(t.nodes[p].items, k)
    ensures k in m ==> m[k] == t.nodes[p].items[Rank(t.nodes[p].items, k)].val
  {
    assert PageOk(t, p);
    var items := t.nodes[p].items;
    assert Agrees(items, t.rng[p], m);
    assert k in m <==> HasKey(items, k);
  }
}
