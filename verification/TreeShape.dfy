/**
  The shape of a paged B+ tree, as a value: what every page must satisfy on its own, and the six
  elementary rearrangements (leaf insert and delete, split, merge, new root, root collapse) from which
  the insert and delete cascades are built.

  Every page p carries two ghost attributes: its level `lvl[p]` (leaves are at level 0) and the range
  `rng[p]` of keys that may be found below it.  With them each condition of the invariant speaks about
  one page and its direct neighbours only.
 */
module TreeShape {
  type PageId = int
  type Key = int

  const INVALID_PAGE_ID: PageId := -1

  /** One array slot: a record id in a leaf, a child page id in an internal page. */
  datatype Pair = Pair(key: Key, val: int)

  /** What a page stores: the live part of its array and its two links. */
  datatype Node = Node(isLeaf: bool, parent: PageId, next: PageId, items: seq<Pair>)

  datatype Bound = NegInf | At(key: Key) | PosInf

  /** The keys k with lo <= k < hi. */
  datatype Range = Range(lo: Bound, hi: Bound)

  datatype Tree = Tree(nodes: map<PageId, Node>, root: PageId, lvl: map<PageId, nat>, rng: map<PageId, Range>)

  /** GetMaxSize: the size at which a page of this kind is split. */
  function MaxSize(isLeaf: bool, leafMax: nat, internalMax: nat): nat {
    if isLeaf then leafMax else internalMax
  }

  const FULL := Range(NegInf, PosInf)

  predicate Lt(a: Bound, b: Bound) {
    a != b && (a.NegInf? || b.PosInf? || (a.At? && b.At? && a.key < b.key))
  }

  predicate In(r: Range, k: Key) {
    !Lt(At(k), r.lo) && Lt(At(k), r.hi)
  }

  // ------------------------------------------------------------------ sequences

  function InsertAt(s: seq<Pair>, i: nat, x: Pair): seq<Pair>
    requires i <= |s|
  {
    s[..i] + [x] + s[i..]
  }

  function RemoveAt(s: seq<Pair>, i: nat): seq<Pair>
    requires i < |s|
  {
    s[..i] + s[i + 1..]
  }

  predicate Sorted(s: seq<Pair>) {
    forall i, j :: 0 <= i < j < |s| ==> s[i].key < s[j].key
  }

  /** The number of entries with a smaller key: where a binary search for k ends. */
  function Rank(s: seq<Pair>, k: Key): (r: nat)
    requires Sorted(s)
    ensures r <= |s|
    ensures forall i :: 0 <= i < r ==> s[i].key < k
    ensures forall i :: r <= i < |s| ==> s[i].key >= k
  {
    if |s| == 0 || s[|s| - 1].key < k then |s| else Rank(s[..|s| - 1], k)
  }

  lemma RankIs(s: seq<Pair>, k: Key, r: nat)
    requires Sorted(s) && r <= |s|
    requires (r > 0 ==> s[r - 1].key < k) && (r < |s| ==> s[r].key >= k)
    ensures Rank(s, k) == r
  {}

  predicate Has(s: seq<Pair>, k: Key)
    requires Sorted(s)
  {
    var r := Rank(s, k);
    r < |s| && s[r].key == k
  }

  function InsertSorted(s: seq<Pair>, k: Key, v: int): seq<Pair>
    requires Sorted(s)
  {
    InsertAt(s, Rank(s, k), Pair(k, v))
  }

  function RemoveKey(s: seq<Pair>, k: Key): seq<Pair>
    requires Sorted(s)
  {
    if Has(s, k) then RemoveAt(s, Rank(s, k)) else s
  }

  /** A search for k in an internal page with these entries goes to the i-th child. */
  predicate RoutesTo(items: seq<Pair>, k: Key, i: nat) {
    i < |items| && (i == 0 || items[i].key <= k) && (i + 1 == |items| || k < items[i + 1].key)
  }

  /** The position of child c, or |s| when it is not there. */
  function IndexOf(s: seq<Pair>, c: int): (i: nat)
    ensures i <= |s|
    ensures i < |s| ==> s[i].val == c
    ensures forall j :: 0 <= j < i ==> s[j].val != c
  {
    if |s| == 0 || s[0].val == c then 0 else 1 + IndexOf(s[1..], c)
  }

  ghost predicate IsKid(kids: seq<Pair>, c: int) {
    exists i :: 0 <= i < |kids| && kids[i].val == c
  }

  /** The pages named in `kids` get parent `up`. */
  ghost function Adopt(nodes: map<PageId, Node>, kids: seq<Pair>, up: PageId): map<PageId, Node> {
    map p | p in nodes :: if IsKid(kids, p) then nodes[p].(parent := up) else nodes[p]
  }

  lemma Overwrite(m: map<PageId, Node>, q: PageId, a: Node, p: PageId, b: Node, c: Node)
    ensures m[q := a][p := b][q := c] == m[p := b][q := c]
  {}

  // ------------------------------------------------------------------ page conditions

  /** The i-th boundary of a page with array `items` and range r: child i covers Edge(i) up to Edge(i + 1). */
  function Edge(items: seq<Pair>, r: Range, i: nat): Bound
    requires i <= |items|
  {
    if i == 0 then r.lo else if i == |items| then r.hi else At(items[i].key)
  }

  /** The children's ranges cut up the page's range, in order, none of them empty. */
  ghost predicate Tiles(items: seq<Pair>, r: Range) {
    |items| >= 1 &&
    forall i, j :: 0 <= i < j <= |items| ==> Lt(Edge(items, r, i), Edge(items, r, j))
  }

  ghost predicate Domains(t: Tree) {
    t.lvl.Keys == t.nodes.Keys && t.rng.Keys == t.nodes.Keys && t.root in t.nodes
  }

  ghost predicate ChildOk(t: Tree, p: PageId, i: nat)
    requires Domains(t) && p in t.nodes && i < |t.nodes[p].items|
  {
    var items := t.nodes[p].items;
    var c := items[i].val;
    c in t.nodes && t.nodes[c].parent == p && t.lvl[c] + 1 == t.lvl[p] &&
    t.rng[c] == Range(Edge(items, t.rng[p], i), Edge(items, t.rng[p], i + 1))
  }

  ghost predicate InternalOk(t: Tree, p: PageId)
    requires Domains(t) && p in t.nodes
  {
    t.lvl[p] >= 1 && t.nodes[p].next == INVALID_PAGE_ID && Tiles(t.nodes[p].items, t.rng[p]) &&
    forall i {:trigger ChildOk(t, p, i)} :: 0 <= i < |t.nodes[p].items| ==> ChildOk(t, p, i)
  }

  ghost predicate EntriesOk(items: seq<Pair>, r: Range) {
    Sorted(items) && forall i :: 0 <= i < |items| ==> In(r, items[i].key)
  }

  /** The next-page link leads to the leaf whose range starts where this one ends. */
  ghost predicate ChainOk(t: Tree, p: PageId)
    requires Domains(t) && p in t.nodes
  {
    var next := t.nodes[p].next;
    if t.rng[p].hi.PosInf? then next == INVALID_PAGE_ID
    else next in t.nodes && t.nodes[next].isLeaf && t.rng[next].lo == t.rng[p].hi
  }

  ghost predicate LeafOk(t: Tree, p: PageId)
    requires Domains(t) && p in t.nodes
  {
    t.lvl[p] == 0 && EntriesOk(t.nodes[p].items, t.rng[p]) && ChainOk(t, p)
  }

  ghost predicate ParentOk(t: Tree, p: PageId)
    requires Domains(t) && p in t.nodes
  {
    var up := t.nodes[p].parent;
    t.lvl[p] <= t.lvl[t.root] &&
    if p == t.root then up == INVALID_PAGE_ID && t.rng[p] == FULL
    else up in t.nodes && !t.nodes[up].isLeaf && IndexOf(t.nodes[up].items, p) < |t.nodes[up].items|
  }

  ghost predicate PageOk(t: Tree, p: PageId)
    requires Domains(t) && p in t.nodes
  {
    p >= 0 && ParentOk(t, p) && if t.nodes[p].isLeaf then LeafOk(t, p) else InternalOk(t, p)
  }

  /** The tree invariant, apart from page fill. */
  ghost predicate Shape(t: Tree) {
    Domains(t) && forall p {:trigger PageOk(t, p)} :: p in t.nodes ==> PageOk(t, p)
  }

  // ------------------------------------------------------------------ consequences

  lemma EdgeLt(items: seq<Pair>, r: Range, i: nat, j: nat)
    requires Tiles(items, r) && i < j <= |items|
    ensures Lt(Edge(items, r, i), Edge(items, r, j))
  {}

  /** Facts about a page and its parent. */
  lemma Up(t: Tree, p: PageId) returns (up: PageId, i: nat)
    requires Shape(t) && p in t.nodes && p != t.root
    ensures up == t.nodes[p].parent && up in t.nodes && !t.nodes[up].isLeaf && up != p
    ensures i == IndexOf(t.nodes[up].items, p) && i < |t.nodes[up].items| && t.nodes[up].items[i].val == p
    ensures ChildOk(t, up, i) && Tiles(t.nodes[up].items, t.rng[up])
    ensures t.lvl[up] == t.lvl[p] + 1 <= t.lvl[t.root]
    ensures t.rng[p] == Range(Edge(t.nodes[up].items, t.rng[up], i), Edge(t.nodes[up].items, t.rng[up], i + 1))
  {
    assert PageOk(t, p);
    up := t.nodes[p].parent;
    assert PageOk(t, up);
    i := IndexOf(t.nodes[up].items, p);
    assert ChildOk(t, up, i);
  }

  /** Ranges are never empty. */
  lemma NonEmpty(t: Tree, p: PageId)
    requires Shape(t) && p in t.nodes
    ensures Lt(t.rng[p].lo, t.rng[p].hi)
  {
    if p == t.root {
      assert PageOk(t, p);
    } else {
      var up, i := Up(t, p);
      EdgeLt(t.nodes[up].items, t.rng[up], i, i + 1);
    }
  }

  /** A child's keys are keys of its parent. */
  lemma WithinParent(t: Tree, p: PageId, k: Key)
    requires Shape(t) && p in t.nodes && p != t.root && In(t.rng[p], k)
    ensures t.nodes[p].parent in t.nodes && In(t.rng[t.nodes[p].parent], k)
  {
    var up, i := Up(t, p);
    var items := t.nodes[up].items;
    if i > 0 { EdgeLt(items, t.rng[up], 0, i); }
    if i + 1 < |items| { EdgeLt(items, t.rng[up], i + 1, |items|); }
  }

  /** Two pages of one level never share a key: each key has one root-to-leaf path. */
  lemma {:induction false} SameLevelUnique(t: Tree, p: PageId, q: PageId, k: Key)
    requires Shape(t) && p in t.nodes && q in t.nodes && t.lvl[p] == t.lvl[q]
    requires In(t.rng[p], k) && In(t.rng[q], k)
    ensures p == q
    decreases (t.lvl[t.root] as int) - t.lvl[p]
  {
    assert PageOk(t, p) && PageOk(t, q);
    if p == t.root {
      if q != t.root { var _, _ := Up(t, q); }
    } else if q == t.root {
      var _, _ := Up(t, p);
    } else {
      var up, i := Up(t, p);
      var uq, j := Up(t, q);
      WithinParent(t, p, k);
      WithinParent(t, q, k);
      SameLevelUnique(t, up, uq, k);
    }
  }

  /** Two leaves whose ranges end at the same key are the same leaf. */
  lemma LeafByEnd(t: Tree, p: PageId, q: PageId)
    requires Shape(t) && p in t.nodes && q in t.nodes && t.nodes[p].isLeaf && t.nodes[q].isLeaf
    requires t.rng[p].hi == t.rng[q].hi && t.rng[p].hi.At?
    ensures p == q
  {
    assert PageOk(t, p) && PageOk(t, q);
    NonEmpty(t, p);
    NonEmpty(t, q);
    SameLevelUnique(t, p, q, t.rng[p].hi.key - 1);
  }

  /** Only one leaf has no upper bound. */
  lemma LastLeaf(t: Tree, p: PageId, q: PageId)
    requires Shape(t) && p in t.nodes && q in t.nodes && t.nodes[p].isLeaf && t.nodes[q].isLeaf
    requires t.rng[p].hi.PosInf? && t.rng[q].hi.PosInf?
    ensures p == q
  {
    assert PageOk(t, p) && PageOk(t, q);
    NonEmpty(t, p);
    NonEmpty(t, q);
    var a := if t.rng[p].lo.At? then t.rng[p].lo.key else 0;
    var b := if t.rng[q].lo.At? then t.rng[q].lo.key else 0;
    SameLevelUnique(t, p, q, if a > b then a else b);
  }

  /** A page occurs once among its parent's children. */
  lemma ChildPosition(t: Tree, up: PageId, i: nat)
    requires Shape(t) && up in t.nodes && !t.nodes[up].isLeaf && i < |t.nodes[up].items|
    ensures ChildOk(t, up, i)
    ensures IndexOf(t.nodes[up].items, t.nodes[up].items[i].val) == i
    ensures t.nodes[up].items[i].val != t.root && t.nodes[up].items[i].val != up
  {
    assert PageOk(t, up);
    assert ChildOk(t, up, i);
    var c := t.nodes[up].items[i].val;
    assert PageOk(t, c);
    var j := IndexOf(t.nodes[up].items, c);
    assert j <= i;
    if j < i {
      assert ChildOk(t, up, j);
      EdgeLt(t.nodes[up].items, t.rng[up], j, i);
    }
  }
}
