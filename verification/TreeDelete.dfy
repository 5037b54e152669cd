/**
  The two ways a deletion repairs an underfull page: merging it with a sibling, or sharing out the entries
  of both.  Sharing out is a merge followed by a split at another place, so it needs no proof of its own.
 */
module TreeDeletes {
  import opened TreeShape
  import opened TreeSteps
  import opened TreeCascade

  /** The deletion's test for a safe page. */
  predicate CanShrink(n: Node, leafMax: nat, internalMax: nat) {
    |n.items| > MaxSize(n.isLeaf, leafMax, internalMax) / 2
  }

  /** Latched pages ending with p, the first of which is the root or can give up one entry. */
  ghost predicate HeldForRemove(t: Tree, held: seq<PageId>, p: PageId, leafMax: nat, internalMax: nat) {
    HeldPath(t, held) && held[|held| - 1] == p &&
    (held[0] == t.root || (|held| >= 2 && CanShrink(t.nodes[held[0]], leafMax, internalMax)))
  }

  /** Page p may lack one entry; everything else is in order. */
  ghost predicate Underfull(t: Tree, m: map<Key, int>, leafMax: nat, internalMax: nat, p: PageId) {
    Sound(t, m, leafMax, internalMax, p) && p in t.nodes &&
    var n := t.nodes[p]; var max := MaxSize(n.isLeaf, leafMax, internalMax);
    |n.items| < max && (p != t.root ==> |n.items| + 1 >= max / 2)
  }

  // ------------------------------------------------------------------ merge

  ghost function AfterMerge(t: Tree, l: PageId, r: PageId, nodes: map<PageId, Node>): Tree
    requires l in t.rng && r in t.rng
  {
    Tree(nodes, t.root, t.lvl - {r}, (t.rng - {r})[l := Range(t.rng[l].lo, t.rng[r].hi)])
  }

  /** The page table `now`, apart from the dead pages, is the merge of t. */
  ghost predicate Merged(t: Tree, up: PageId, j: nat, l: PageId, r: PageId, sep: Key, now: map<PageId, Node>) {
    AreSiblings(t, up, j, l, r, sep) && t.nodes.Keys <= now.Keys &&
    forall x {:trigger now[x]} :: x in t.nodes && x != r ==> now[x] == MergeNode(t, up, j, x)
  }

  lemma MergedIs(t: Tree, up: PageId, j: nat, l: PageId, r: PageId, sep: Key, dead: set<PageId>, now: map<PageId, Node>)
    requires Merged(t, up, j, l, r, sep, now) && dead !! t.nodes.Keys && now.Keys == t.nodes.Keys + dead
    ensures IsMerge(t, up, j, l, r, sep, AfterMerge(t, l, r, now - (dead + {r})))
  {}

  lemma LeavesMerged(t: Tree, up: PageId, j: nat, l: PageId, r: PageId, sep: Key, was: map<PageId, Node>, now: map<PageId, Node>)
    requires AreSiblings(t, up, j, l, r, sep) && t.nodes[l].isLeaf
    requires t.nodes.Keys <= was.Keys && forall x {:trigger was[x]} :: x in t.nodes ==> was[x] == t.nodes[x]
    requires now == was[r := was[r].(items := [])]
      [l := was[l].(items := was[l].items + was[r].items, next := was[r].next)]
      [up := was[up].(items := RemoveAt(was[up].items, j))]
    ensures Merged(t, up, j, l, r, sep, now)
  {
    forall x | x in t.nodes && x != r ensures now[x] == MergeNode(t, up, j, x) {
      assert was[x] == t.nodes[x] && was[r] == t.nodes[r];
      assert PageOk(t, x) && PageOk(t, r);
      if x != t.root { var _, _ := Up(t, x); }
    }
  }

  lemma InternalsMerged(t: Tree, up: PageId, j: nat, l: PageId, r: PageId, sep: Key, was: map<PageId, Node>,
                        kids: seq<Pair>, now: map<PageId, Node>)
    requires AreSiblings(t, up, j, l, r, sep) && !t.nodes[l].isLeaf
    requires t.nodes.Keys <= was.Keys && forall x {:trigger was[x]} :: x in t.nodes ==> was[x] == t.nodes[x]
    requires kids == t.nodes[r].items[0 := Pair(sep, t.nodes[r].items[0].val)]
    requires now == var a := Adopt(was[r := was[r].(items := [])][l := was[l].(items := was[l].items + kids)], kids, l);
      a[up := a[up].(items := RemoveAt(a[up].items, j))]
    ensures Merged(t, up, j, l, r, sep, now)
  {
    assert PageOk(t, l) && PageOk(t, r) && was[r] == t.nodes[r];
    assert t.nodes[l].next == t.nodes[r].next;
    KidsOf(t, r, sep, up);
    KidsOf(t, r, sep, l);
    forall x | x in t.nodes && x != r ensures now[x] == MergeNode(t, up, j, x) {
      assert was[x] == t.nodes[x];
      KidsOf(t, r, sep, x);
    }
  }

  /** The pages adopted from r are the pages whose parent is r. */
  lemma KidsOf(t: Tree, r: PageId, sep: Key, x: PageId)
    requires Shape(t) && r in t.nodes && !t.nodes[r].isLeaf && |t.nodes[r].items| >= 1 && x in t.nodes
    ensures IsKid(t.nodes[r].items[0 := Pair(sep, t.nodes[r].items[0].val)], x) <==> t.nodes[x].parent == r
    ensures t.nodes[x].parent == r ==> t.lvl[x] + 1 == t.lvl[r]
  {
    var kids := t.nodes[r].items[0 := Pair(sep, t.nodes[r].items[0].val)];
    assert PageOk(t, x) && PageOk(t, r);
    if IsKid(kids, x) {
      var k :| 0 <= k < |kids| && kids[k].val == x;
      ChildPosition(t, r, k);
    }
    if t.nodes[x].parent == r {
      if x != t.root {
        var _, k := Up(t, x);
        assert kids[k].val == x;
      }
    }
  }

  lemma MergeStep(t: Tree, m: map<Key, int>, leafMax: nat, internalMax: nat, p: PageId, up: PageId, j: nat,
                  l: PageId, r: PageId, sep: Key, u: Tree)
    requires Underfull(t, m, leafMax, internalMax, p) && IsMerge(t, up, j, l, r, sep, u) && (p == l || p == r)
    requires |t.nodes[l].items| + |t.nodes[r].items| < MaxSize(t.nodes[l].isLeaf, leafMax, internalMax)
    ensures Underfull(u, m, leafMax, internalMax, up) && SameBut(t.nodes, u.nodes, {l, r, up})
    ensures |u.nodes[up].items| + 1 == |t.nodes[up].items| && !u.nodes[up].isLeaf
  {
    MergeKeeps(t, up, j, l, r, sep, u);
    MergeStores(t, up, j, l, r, sep, u, m);
    assert FillOk(t, leafMax, internalMax, up);
    forall x | x in u.nodes && x != up ensures FillOk(u, leafMax, internalMax, x) {
      if p != l { assert FillOk(t, leafMax, internalMax, l); }
      if p != r { assert FillOk(t, leafMax, internalMax, r); }
      if x != l { assert FillOk(t, leafMax, internalMax, x); }
    }
  }

  // ------------------------------------------------------------------ redistribute

  /** Siblings l and r share out their entries anew, `cut` of them to l. */
  ghost predicate CanShare(t: Tree, up: PageId, j: nat, l: PageId, r: PageId, sep: Key, cut: nat) {
    AreSiblings(t, up, j, l, r, sep) && 1 <= cut < |t.nodes[l].items| + |t.nodes[r].items|
  }

  ghost function Shared(t: Tree, l: PageId, r: PageId, sep: Key): seq<Pair>
    requires l in t.nodes && r in t.nodes
  {
    Joined(t.nodes[l], t.nodes[r], sep)
  }

  ghost function ShareNode(t: Tree, up: PageId, j: nat, l: PageId, r: PageId, sep: Key, cut: nat, x: PageId): Node
    requires CanShare(t, up, j, l, r, sep, cut) && x in t.nodes
  {
    var items := Shared(t, l, r, sep);
    if x == l then t.nodes[l].(items := items[..cut])
    else if x == r then t.nodes[r].(items := items[cut..])
    else if x == up then t.nodes[up].(items := t.nodes[up].items[j := Pair(items[cut].key, r)])
    else if !t.nodes[l].isLeaf && (t.nodes[x].parent == l || t.nodes[x].parent == r) then
      t.nodes[x].(parent := if IndexOf(items, x) < cut then l else r)
    else t.nodes[x]
  }

  ghost function AfterShare(t: Tree, l: PageId, r: PageId, sep: Key, cut: nat, nodes: map<PageId, Node>): Tree
    requires l in t.nodes && r in t.nodes && l in t.rng && r in t.rng && cut < |Shared(t, l, r, sep)|
  {
    var k := At(Shared(t, l, r, sep)[cut].key);
    Tree(nodes, t.root, t.lvl, t.rng[l := Range(t.rng[l].lo, k)][r := Range(k, t.rng[r].hi)])
  }

  lemma ShareIs(t: Tree, up: PageId, j: nat, l: PageId, r: PageId, sep: Key, cut: nat, nodes: map<PageId, Node>)
    requires CanShare(t, up, j, l, r, sep, cut) && nodes.Keys == t.nodes.Keys
    requires forall x {:trigger nodes[x]} :: x in nodes ==> nodes[x] == ShareNode(t, up, j, l, r, sep, cut, x)
    ensures IsSplit(Merge(t, up, j), l, up, j - 1, cut, r, AfterShare(t, l, r, sep, cut, nodes))
  {
    var m := Merge(t, up, j);
    MergedCanSplit(t, up, j, l, r, sep, cut);
    forall x | x in nodes ensures nodes[x] == SplitNode(m, l, up, j - 1, cut, r, x) {
      ShareAt(t, up, j, l, r, sep, cut, x);
    }
  }

  lemma MergedCanSplit(t: Tree, up: PageId, j: nat, l: PageId, r: PageId, sep: Key, cut: nat)
    requires CanShare(t, up, j, l, r, sep, cut)
    ensures var m := Merge(t, up, j);
      CanSplit(m, l, cut, r) && m.nodes[l].parent == up && up in m.nodes && !m.nodes[up].isLeaf && l != up && r != up &&
      j - 1 == IndexOf(m.nodes[up].items, l) < |m.nodes[up].items| && m.nodes.Keys + {r} == t.nodes.Keys
    ensures IsMerge(t, up, j, l, r, sep, Merge(t, up, j))
  {
    var m := Merge(t, up, j);
    var _, _, _ := MergeIs(t, up, j);
    MergeKeeps(t, up, j, l, r, sep, m);
    assert PageOk(t, r) && PageOk(t, l);
    assert RemoveAt(t.nodes[up].items, j)[j - 1] == t.nodes[up].items[j - 1];
    var _, i := Up(m, l);
    ChildPosition(m, up, j - 1);
  }

  lemma Replaces(items: seq<Pair>, j: nat, x: Pair)
    requires j < |items|
    ensures InsertAt(RemoveAt(items, j), j, x) == items[j := x]
  {}

  /** Page by page, sharing out is the split of the merge. */
  lemma ShareAt(t: Tree, up: PageId, j: nat, l: PageId, r: PageId, sep: Key, cut: nat, x: PageId)
    requires CanShare(t, up, j, l, r, sep, cut) && x in t.nodes
    ensures var m := Merge(t, up, j);
      l in m.nodes && up in m.nodes && j - 1 < |m.nodes[up].items| && cut < |m.nodes[l].items| && (x in m.nodes || x == r)
    ensures ShareNode(t, up, j, l, r, sep, cut, x) == SplitNode(Merge(t, up, j), l, up, j - 1, cut, r, x)
  {
    var m := Merge(t, up, j);
    var _, _, _ := MergeIs(t, up, j);
    assert PageOk(t, r) && PageOk(t, l) && PageOk(t, x);
    NextIsSibling(t, up, j);
    Replaces(t.nodes[up].items, j, Pair(Shared(t, l, r, sep)[cut].key, r));
    if x == l || x == r || x == up {
    } else {
      if t.nodes[x].parent == l || t.nodes[x].parent == r {
        SharedListed(t, up, j, l, r, sep, x);
      }
    }
  }

  lemma SharedListed(t: Tree, up: PageId, j: nat, l: PageId, r: PageId, sep: Key, x: PageId)
    requires AreSiblings(t, up, j, l, r, sep) && x in t.nodes && (t.nodes[x].parent == l || t.nodes[x].parent == r)
    ensures !t.nodes[l].isLeaf && IndexOf(Shared(t, l, r, sep), x) < |Shared(t, l, r, sep)| && x != t.root
  {
    assert PageOk(t, x) && PageOk(t, t.root) && PageOk(t, l) && PageOk(t, r);
    var ux, k := Up(t, x);
    var items := Shared(t, l, r, sep);
    assert items[if ux == l then k else |t.nodes[l].items| + k].val == x;
  }

  /** The entries can be shared out so that both siblings are properly filled. */
  ghost predicate FairCut(t: Tree, leafMax: nat, internalMax: nat, l: PageId, r: PageId, cut: nat)
    requires l in t.nodes && r in t.nodes
  {
    var max, n := MaxSize(t.nodes[l].isLeaf, leafMax, internalMax), |t.nodes[l].items| + |t.nodes[r].items|;
    max / 2 <= cut < max && max / 2 <= n - cut < max
  }

  lemma ShareFills(t: Tree, m: map<Key, int>, leafMax: nat, internalMax: nat, p: PageId, up: PageId, j: nat,
                   l: PageId, r: PageId, sep: Key, cut: nat, u: Tree)
    requires Underfull(t, m, leafMax, internalMax, p) && CanShare(t, up, j, l, r, sep, cut) && (p == l || p == r)
    requires FairCut(t, leafMax, internalMax, l, r, cut) && u.nodes.Keys == t.nodes.Keys && u.root == t.root
    requires forall x {:trigger u.nodes[x]} :: x in u.nodes ==> u.nodes[x] == ShareNode(t, up, j, l, r, sep, cut, x)
    ensures Filled(u, leafMax, internalMax, INVALID_PAGE_ID) && SameBut(t.nodes, u.nodes, {l, r, up})
  {
    assert |u.nodes[l].items| == cut && |u.nodes[r].items| == |t.nodes[l].items| + |t.nodes[r].items| - cut;
    assert |u.nodes[up].items| == |t.nodes[up].items| && FillOk(t, leafMax, internalMax, up);
    forall x | x in u.nodes ensures FillOk(u, leafMax, internalMax, x) {
      if x != l && x != r && x != up {
        assert FillOk(t, leafMax, internalMax, x);
        assert u.nodes[x].items == t.nodes[x].items;
      }
    }
  }

  lemma ShareStep(t: Tree, m: map<Key, int>, leafMax: nat, internalMax: nat, p: PageId, up: PageId, j: nat,
                  l: PageId, r: PageId, sep: Key, cut: nat, nodes: map<PageId, Node>) returns (u: Tree)
    requires Underfull(t, m, leafMax, internalMax, p) && CanShare(t, up, j, l, r, sep, cut) && (p == l || p == r)
    requires FairCut(t, leafMax, internalMax, l, r, cut) && nodes.Keys == t.nodes.Keys
    requires forall x {:trigger nodes[x]} :: x in nodes ==> nodes[x] == ShareNode(t, up, j, l, r, sep, cut, x)
    ensures u.nodes == nodes && u.root == t.root && Sound(u, m, leafMax, internalMax, INVALID_PAGE_ID)
    ensures SameBut(t.nodes, u.nodes, {l, r, up})
  {
    u := AfterShare(t, l, r, sep, cut, nodes);
    ShareSound(t, m, up, j, l, r, sep, cut, nodes);
    ShareFills(t, m, leafMax, internalMax, p, up, j, l, r, sep, cut, u);
  }

  lemma ShareSound(t: Tree, m: map<Key, int>, up: PageId, j: nat, l: PageId, r: PageId, sep: Key, cut: nat, nodes: map<PageId, Node>)
    requires CanShare(t, up, j, l, r, sep, cut) && nodes.Keys == t.nodes.Keys && Stores(t, m)
    requires forall x {:trigger nodes[x]} :: x in nodes ==> nodes[x] == ShareNode(t, up, j, l, r, sep, cut, x)
    ensures Shape(AfterShare(t, l, r, sep, cut, nodes)) && Stores(AfterShare(t, l, r, sep, cut, nodes), m)
  {
    var mt, u := Merge(t, up, j), AfterShare(t, l, r, sep, cut, nodes);
    ShareIs(t, up, j, l, r, sep, cut, nodes);
    var l', r', sep' := MergeIs(t, up, j);
    MergeStores(t, up, j, l', r', sep', mt, m);
    SplitKeeps(mt, l, up, j - 1, cut, r, u);
    SplitStores(mt, l, up, j - 1, cut, r, u, m);
  }

  /** The page table after the first entry of r went to the end of l. */
  ghost predicate TookFirst(t: Tree, up: PageId, j: nat, l: PageId, r: PageId, sep: Key, now: map<PageId, Node>) {
    AreSiblings(t, up, j, l, r, sep) && |t.nodes[r].items| >= 2 && t.nodes.Keys <= now.Keys &&
    var a, b, leaf := t.nodes[l].items, t.nodes[r].items, t.nodes[l].isLeaf;
    now[l] == t.nodes[l].(items := a + [if leaf then b[0] else Pair(sep, b[0].val)]) &&
    now[r] == t.nodes[r].(items := b[1..]) &&
    now[up] == t.nodes[up].(items := t.nodes[up].items[j := Pair(b[1].key, r)]) &&
    forall x {:trigger now[x]} :: x in t.nodes && x != l && x != r && x != up ==>
      now[x] == t.nodes[x].(parent := if !leaf && x == b[0].val then l else t.nodes[x].parent)
  }

  /** The page table after the last entry of l went to the front of r. */
  ghost predicate TookLast(t: Tree, up: PageId, j: nat, l: PageId, r: PageId, sep: Key, now: map<PageId, Node>) {
    AreSiblings(t, up, j, l, r, sep) && |t.nodes[l].items| >= 2 && t.nodes.Keys <= now.Keys &&
    var a, b, leaf := t.nodes[l].items, t.nodes[r].items, t.nodes[l].isLeaf; var last := |a| - 1;
    now[l] == t.nodes[l].(items := a[..last]) &&
    now[r] == t.nodes[r].(items := [a[last]] + if leaf then b else b[0 := Pair(sep, b[0].val)]) &&
    now[up] == t.nodes[up].(items := t.nodes[up].items[j := Pair(a[last].key, r)]) &&
    forall x {:trigger now[x]} :: x in t.nodes && x != l && x != r && x != up ==>
      now[x] == t.nodes[x].(parent := if !leaf && x == a[last].val then r else t.nodes[x].parent)
  }

  /** What InternalMove and LeafMove of a first entry, the adoption of its page and SetKeyAt make of the pages `was`. */
  lemma TookFirstNow(t: Tree, up: PageId, j: nat, l: PageId, r: PageId, sep: Key, was: map<PageId, Node>,
                     moved: map<PageId, Node>, adopted: map<PageId, Node>, now: map<PageId, Node>)
    requires AreSiblings(t, up, j, l, r, sep) && |t.nodes[r].items| >= 2 && t.nodes.Keys <= was.Keys
    requires forall x {:trigger was[x]} :: x in t.nodes ==> was[x] == t.nodes[x]
    requires var a, b := was[l].items, was[r].items;
      if was[l].isLeaf then moved == was[r := was[r].(items := b[1..])][l := was[l].(items := a + [b[0]])]
      else moved == was[r := was[r].(items := b[1..])][l := was[l].(items := a + [Pair(sep, b[0].val)])]
    requires var c := was[r].items[0].val;
      if was[l].isLeaf then adopted == moved else c in moved && adopted == moved[c := moved[c].(parent := l)]
    requires r in adopted && |adopted[r].items| >= 1 && up in adopted && j < |adopted[up].items|
    requires var items := adopted[up].items;
      now == adopted[up := adopted[up].(items := items[j := Pair(adopted[r].items[0].key, items[j].val)])]
    ensures TookFirst(t, up, j, l, r, sep, now)
  {
    if !t.nodes[l].isLeaf { ChildPosition(t, r, 0); }
    assert was[l] == t.nodes[l] && was[r] == t.nodes[r] && was[up] == t.nodes[up];
    forall x | x in t.nodes ensures was[x] == t.nodes[x] {}
  }

  /** The last entry of page l went to the front of r, under the middle key, and its page was adopted. */
  ghost predicate MovedLast(was: map<PageId, Node>, l: PageId, r: PageId, middle: Key, moved: map<PageId, Node>, adopted: map<PageId, Node>) {
    l in was && r in was && |was[l].items| >= 1 && (was[l].isLeaf || |was[r].items| >= 1) &&
    var a, b := was[l].items, was[r].items; var last := |a| - 1;
    if was[l].isLeaf then
      moved == was[l := was[l].(items := a[..last])][r := was[r].(items := [a[last]] + b)] && adopted == moved
    else
      moved == was[l := was[l].(items := a[..last])][r := was[r].(items := [a[last]] + b[0 := Pair(middle, b[0].val)])] &&
      a[last].val in moved && adopted == moved[a[last].val := moved[a[last].val].(parent := r)]
  }

  lemma TookLastNow(t: Tree, up: PageId, j: nat, l: PageId, r: PageId, sep: Key, was: map<PageId, Node>,
                    moved: map<PageId, Node>, adopted: map<PageId, Node>, now: map<PageId, Node>)
    requires AreSiblings(t, up, j, l, r, sep) && |t.nodes[l].items| >= 2 && t.nodes.Keys <= was.Keys
    requires forall x {:trigger was[x]} :: x in t.nodes ==> was[x] == t.nodes[x]
    requires MovedLast(was, l, r, sep, moved, adopted)
    requires r in adopted && |adopted[r].items| >= 1 && up in adopted && j < |adopted[up].items|
    requires var items := adopted[up].items;
      now == adopted[up := adopted[up].(items := items[j := Pair(adopted[r].items[0].key, items[j].val)])]
    ensures TookLast(t, up, j, l, r, sep, now)
  {
    if !t.nodes[l].isLeaf { ChildPosition(t, l, |t.nodes[l].items| - 1); }
    assert was[l] == t.nodes[l] && was[r] == t.nodes[r] && was[up] == t.nodes[up];
    forall x | x in t.nodes ensures was[x] == t.nodes[x] {}
  }

  lemma SharedItems(t: Tree, up: PageId, j: nat, l: PageId, r: PageId, sep: Key, i: nat)
    requires AreSiblings(t, up, j, l, r, sep) && i < |t.nodes[l].items| + |t.nodes[r].items|
    ensures var a, b, leaf := t.nodes[l].items, t.nodes[r].items, t.nodes[l].isLeaf; var s := Shared(t, l, r, sep);
      |s| == |a| + |b| &&
      s[i] == if i < |a| then a[i] else if !leaf && i == |a| then Pair(sep, b[0].val) else b[i - |a|]
  {}

  /** The position of a child among the joint entries of both siblings. */
  lemma SharedPosition(t: Tree, up: PageId, j: nat, l: PageId, r: PageId, sep: Key, x: PageId)
    requires AreSiblings(t, up, j, l, r, sep) && x in t.nodes && (t.nodes[x].parent == l || t.nodes[x].parent == r)
    ensures !t.nodes[l].isLeaf && x != l && x != r && x != up
    ensures IndexOf(Shared(t, l, r, sep), x) == if t.nodes[x].parent == l then IndexOf(t.nodes[l].items, x)
      else |t.nodes[l].items| + IndexOf(t.nodes[r].items, x)
    ensures var p := t.nodes[x].parent; IndexOf(t.nodes[p].items, x) < |t.nodes[p].items|
  {
    SharedListed(t, up, j, l, r, sep, x);
    var ux, k := Up(t, x);
    var s, i := Shared(t, l, r, sep), IndexOf(Shared(t, l, r, sep), x);
    SharedItems(t, up, j, l, r, sep, i);
    assert PageOk(t, l) && PageOk(t, r);
    if i < |t.nodes[l].items| { ChildPosition(t, l, i); } else { ChildPosition(t, r, i - |t.nodes[l].items|); }
  }

  lemma TookFirstIs(t: Tree, up: PageId, j: nat, l: PageId, r: PageId, sep: Key, now: map<PageId, Node>)
    requires TookFirst(t, up, j, l, r, sep, now)
    ensures CanShare(t, up, j, l, r, sep, |t.nodes[l].items| + 1)
    ensures forall x {:trigger now[x]} :: x in t.nodes ==>
      now[x] == ShareNode(t, up, j, l, r, sep, |t.nodes[l].items| + 1, x)
  {
    var a, b, cut := t.nodes[l].items, t.nodes[r].items, |t.nodes[l].items| + 1;
    var s := Shared(t, l, r, sep);
    SharedItems(t, up, j, l, r, sep, cut);
    SharedItems(t, up, j, l, r, sep, |a|);
    assert s[..cut] == now[l].items && s[cut..] == b[1..];
    forall x | x in t.nodes && x != l && x != r && x != up ensures now[x] == ShareNode(t, up, j, l, r, sep, cut, x) {
      if t.nodes[x].parent == l || t.nodes[x].parent == r {
        SharedPosition(t, up, j, l, r, sep, x);
      }
      if !t.nodes[l].isLeaf { ChildPosition(t, r, 0); }
    }
  }

  lemma DividesAtLast(a: seq<Pair>, b: seq<Pair>)
    requires |a| >= 1
    ensures var s, last := a + b, |a| - 1; s[..last] == a[..last] && s[last..] == [a[last]] + b && s[last] == a[last]
  {}

  /** The joint entries, divided in front of the left page's last one. */
  lemma TookLastItems(t: Tree, up: PageId, j: nat, l: PageId, r: PageId, sep: Key, now: map<PageId, Node>)
    requires TookLast(t, up, j, l, r, sep, now)
    ensures var s, cut := Shared(t, l, r, sep), |t.nodes[l].items| - 1;
      1 <= cut < |s| && s[..cut] == now[l].items && s[cut..] == now[r].items && s[cut].key == now[r].items[0].key
  {
    var a, b := t.nodes[l].items, t.nodes[r].items;
    DividesAtLast(a, if t.nodes[l].isLeaf then b else b[0 := Pair(sep, b[0].val)]);
  }

  lemma TookLastChild(t: Tree, up: PageId, j: nat, l: PageId, r: PageId, sep: Key, now: map<PageId, Node>, x: PageId)
    requires TookLast(t, up, j, l, r, sep, now) && x in t.nodes && (t.nodes[x].parent == l || t.nodes[x].parent == r)
    ensures !t.nodes[l].isLeaf && x != l && x != r && x != up
    ensures now[x] == t.nodes[x].(parent := if IndexOf(Shared(t, l, r, sep), x) < |t.nodes[l].items| - 1 then l else r)
  {
    SharedPosition(t, up, j, l, r, sep, x);
    ChildPosition(t, l, |t.nodes[l].items| - 1);
  }

  lemma TookLastIs(t: Tree, up: PageId, j: nat, l: PageId, r: PageId, sep: Key, now: map<PageId, Node>)
    requires TookLast(t, up, j, l, r, sep, now)
    ensures CanShare(t, up, j, l, r, sep, |t.nodes[l].items| - 1)
    ensures forall x {:trigger now[x]} :: x in t.nodes ==>
      now[x] == ShareNode(t, up, j, l, r, sep, |t.nodes[l].items| - 1, x)
  {
    var cut := |t.nodes[l].items| - 1;
    TookLastItems(t, up, j, l, r, sep, now);
    forall x | x in t.nodes ensures now[x] == ShareNode(t, up, j, l, r, sep, cut, x) {
      if t.nodes[x].parent == l || t.nodes[x].parent == r {
        TookLastChild(t, up, j, l, r, sep, now, x);
      } else if x != l && x != r && x != up && !t.nodes[l].isLeaf {
        ChildPosition(t, l, cut);
      }
    }
  }

  /** A redistribution with the right neighbour of the underfull page l. */
  lemma TookFirstStep(t: Tree, m: map<Key, int>, leafMax: nat, internalMax: nat, up: PageId, j: nat, l: PageId, r: PageId,
                      sep: Key, dead: set<PageId>, now: map<PageId, Node>) returns (u: Tree)
    requires Underfull(t, m, leafMax, internalMax, l) && TookFirst(t, up, j, l, r, sep, now)
    requires FairCut(t, leafMax, internalMax, l, r, |t.nodes[l].items| + 1)
    requires dead !! t.nodes.Keys && now.Keys == t.nodes.Keys + dead
    ensures u.nodes == now - dead && u.root == t.root && Sound(u, m, leafMax, internalMax, INVALID_PAGE_ID)
    ensures SameBut(t.nodes, u.nodes, {l, r, up})
  {
    TookFirstIs(t, up, j, l, r, sep, now);
    u := ShareStep(t, m, leafMax, internalMax, l, up, j, l, r, sep, |t.nodes[l].items| + 1, now - dead);
  }

  /** A redistribution with the left neighbour of the underfull page r. */
  lemma TookLastStep(t: Tree, m: map<Key, int>, leafMax: nat, internalMax: nat, up: PageId, j: nat, l: PageId, r: PageId,
                     sep: Key, dead: set<PageId>, now: map<PageId, Node>) returns (u: Tree)
    requires Underfull(t, m, leafMax, internalMax, r) && TookLast(t, up, j, l, r, sep, now)
    requires FairCut(t, leafMax, internalMax, l, r, |t.nodes[l].items| - 1)
    requires dead !! t.nodes.Keys && now.Keys == t.nodes.Keys + dead
    ensures u.nodes == now - dead && u.root == t.root && Sound(u, m, leafMax, internalMax, INVALID_PAGE_ID)
    ensures SameBut(t.nodes, u.nodes, {l, r, up})
  {
    TookLastIs(t, up, j, l, r, sep, now);
    u := ShareStep(t, m, leafMax, internalMax, r, up, j, l, r, sep, |t.nodes[l].items| - 1, now - dead);
  }

  // ------------------------------------------------------------------ the root

  /** A root leaf is the whole tree. */
  lemma RootLeafAlone(t: Tree)
    requires Shape(t) && t.nodes[t.root].isLeaf
    ensures t.nodes.Keys == {t.root}
  {
    forall x | x in t.nodes ensures x == t.root {
      assert PageOk(t, x) && PageOk(t, t.root);
      if x != t.root { var _, _ := Up(t, x); }
    }
  }

  lemma EmptyRoot(t: Tree, m: map<Key, int>)
    requires Shape(t) && Stores(t, m) && t.nodes[t.root].isLeaf && |t.nodes[t.root].items| == 0
    ensures t.nodes.Keys == {t.root} && m == map[]
  {
    RootLeafAlone(t);
    assert PageOk(t, t.root) && Agrees(t.nodes[t.root].items, t.rng[t.root], m);
    forall k ensures k !in m {
      assert In(t.rng[t.root], k) && !HasKey(t.nodes[t.root].items, k);
    }
  }

  lemma CollapseStep(t: Tree, m: map<Key, int>, leafMax: nat, internalMax: nat)
    requires Underfull(t, m, leafMax, internalMax, t.root) && CanCollapse(t)
    ensures Sound(Collapse(t), m, leafMax, internalMax, INVALID_PAGE_ID) && SameBut(t.nodes, Collapse(t).nodes, {t.root})
    ensures var c := t.nodes[t.root].items[0].val; Collapse(t).root == c && c in t.nodes && c != t.root
  {
    var u := Collapse(t);
    CollapseKeeps(t);
    ChildPosition(t, t.root, 0);
    forall x | x in u.nodes && u.nodes[x].isLeaf ensures Agrees(u.nodes[x].items, u.rng[x], m) {
      assert Agrees(t.nodes[x].items, t.rng[x], m);
    }
    forall x | x in u.nodes ensures FillOk(u, leafMax, internalMax, x) {
      assert FillOk(t, leafMax, internalMax, x);
    }
  }

  /** Below a root that neither empties nor collapses, nothing is left to repair. */
  lemma RootStays(t: Tree, m: map<Key, int>, leafMax: nat, internalMax: nat)
    requires Underfull(t, m, leafMax, internalMax, t.root)
    requires !(t.nodes[t.root].isLeaf && |t.nodes[t.root].items| == 0)
    requires !(!t.nodes[t.root].isLeaf && |t.nodes[t.root].items| == 1)
    ensures Sound(t, m, leafMax, internalMax, INVALID_PAGE_ID)
  {
    assert PageOk(t, t.root);
    forall x | x in t.nodes ensures FillOk(t, leafMax, internalMax, x) {
      if x != t.root { assert FillOk(t, leafMax, internalMax, x); }
    }
  }

  // ------------------------------------------------------------------ the latched path under a merge

  /** A merge at the end of the path leaves the rest of the path in place. */
  lemma HeldAfterMerge(t: Tree, p: PageId, up: PageId, j: nat, l: PageId, r: PageId, sep: Key, u: Tree, held: seq<PageId>,
                       leafMax: nat, internalMax: nat)
    requires IsMerge(t, up, j, l, r, sep, u) && (p == l || p == r) && HeldForRemove(t, held, p, leafMax, internalMax)
    ensures |held| >= 2 && held[|held| - 2] == up && HeldPath(u, held[..|held| - 1])
    ensures held[0] != up ==> u.nodes[held[0]].items == t.nodes[held[0]].items
    ensures SameAbove(t.nodes, u.nodes, held)
  {
    var rest := held[..|held| - 1];
    assert |held| >= 2 by { assert p != t.root; }
    assert PageOk(t, l) && PageOk(t, r);
    forall k | 0 <= k < |rest|
      ensures rest[k] in u.nodes && u.lvl[rest[k]] == t.lvl[rest[k]] && rest[k] != l && rest[k] != r
    {
      assert rest[k] == held[k] && t.lvl[held[k]] + k == t.lvl[p] + |held| - 1;
      assert t.lvl[rest[k]] > t.lvl[p] && t.lvl[p] == t.lvl[l] && t.lvl[p] == t.lvl[r];
      assert rest[k] in u.nodes;
    }
    forall k | 1 <= k < |rest| ensures u.nodes[rest[k]].parent == rest[k - 1] {
      assert t.nodes[rest[k]].parent == rest[k - 1];
      assert u.nodes[rest[k]] == MergeNode(t, up, j, rest[k]);
    }
    assert u.nodes[held[0]] == MergeNode(t, up, j, held[0]);
    forall i | 0 <= i < |held| - 2 ensures u.nodes[held[i]].items == t.nodes[held[i]].items {
      assert rest[i] == held[i] && t.lvl[held[i]] + i == t.lvl[up] + |held| - 2;
      assert u.nodes[held[i]] == MergeNode(t, up, j, held[i]);
    }
  }

  /** All that follows from a merge: what is left to repair, and the path on which to repair it. */
  lemma CoalesceStep(t: Tree, m: map<Key, int>, leafMax: nat, internalMax: nat, p: PageId, up: PageId, j: nat,
                     l: PageId, r: PageId, sep: Key, dead: set<PageId>, now: map<PageId, Node>, held: seq<PageId>) returns (u: Tree)
    requires Underfull(t, m, leafMax, internalMax, p) && Merged(t, up, j, l, r, sep, now) && (p == l || p == r)
    requires |t.nodes[l].items| + |t.nodes[r].items| < MaxSize(t.nodes[l].isLeaf, leafMax, internalMax)
    requires dead !! t.nodes.Keys && now.Keys == t.nodes.Keys + dead
    requires HeldForRemove(t, held, p, leafMax, internalMax)
    ensures u.nodes == now - (dead + {r}) && u.root == t.root && Underfull(u, m, leafMax, internalMax, up)
    ensures up in u.nodes && !u.nodes[up].isLeaf && SameBut(t.nodes, u.nodes, {l, r, up})
    ensures |held| >= 2 && held[|held| - 2] == up
    ensures |u.nodes[up].items| >= internalMax / 2 ==> Sound(u, m, leafMax, internalMax, INVALID_PAGE_ID)
    ensures |u.nodes[up].items| < internalMax / 2 ==> HeldForRemove(u, held[..|held| - 1], up, leafMax, internalMax)
    ensures SameAbove(t.nodes, u.nodes, held)
  {
    u := AfterMerge(t, l, r, now - (dead + {r}));
    MergedIs(t, up, j, l, r, sep, dead, now);
    MergeStep(t, m, leafMax, internalMax, p, up, j, l, r, sep, u);
    HeldAfterMerge(t, p, up, j, l, r, sep, u, held, leafMax, internalMax);
    assert PageOk(t, held[0]);
    if |u.nodes[up].items| >= internalMax / 2 {
      forall x | x in u.nodes ensures FillOk(u, leafMax, internalMax, x) {
        if x != up { assert FillOk(u, leafMax, internalMax, x); }
      }
    }
  }

  // ------------------------------------------------------------------ what a repair leaves behind

  /** x is the neighbour a deletion looks at for child p of `up`: the right one of a leftmost page, else the left one. */
  ghost predicate IsNeighbour(nodes: map<PageId, Node>, up: PageId, p: PageId, x: PageId) {
    up in nodes && x in nodes && |nodes[up].items| >= 2 &&
    var i := IndexOf(nodes[up].items, p); i < |nodes[up].items| && x == nodes[up].items[if i == 0 then 1 else i - 1].val
  }

  ghost predicate Beside(nodes: map<PageId, Node>, held: seq<PageId>, i: nat, x: PageId)
    requires i + 1 < |held|
  {
    IsNeighbour(nodes, held[i], held[i + 1], x)
  }

  /** The siblings a deletion latches: of each retained page below the first at most its one neighbour. */
  ghost predicate BesideHeld(nodes: map<PageId, Node>, siblings: set<PageId>, held: seq<PageId>) {
    forall x :: x in siblings ==> exists i :: 0 <= i < |held| - 1 && Beside(nodes, held, i, x)
  }

  /** Above the last two pages of the path the entries are the same. */
  ghost predicate SameAbove(a: map<PageId, Node>, b: map<PageId, Node>, held: seq<PageId>) {
    forall i {:trigger held[i]} :: 0 <= i < |held| - 2 ==> held[i] in a && held[i] in b && b[held[i]].items == a[held[i]].items
  }

  lemma BesideAbove(a: map<PageId, Node>, b: map<PageId, Node>, siblings: set<PageId>, held: seq<PageId>)
    requires |held| >= 2 && SameAbove(a, b, held) && b.Keys <= a.Keys && BesideHeld(b, siblings, held[..|held| - 1])
    ensures BesideHeld(a, siblings, held)
  {
    var rest := held[..|held| - 1];
    forall x | x in siblings ensures exists i :: 0 <= i < |held| - 1 && Beside(a, held, i, x) {
      var i :| 0 <= i < |rest| - 1 && Beside(b, rest, i, x);
      assert rest[i] == held[i] && rest[i + 1] == held[i + 1];
      assert Beside(a, held, i, x);
    }
  }

  /**
    From tree t with `was` pages in the table to tree u with `now` pages: pages written are retained ones,
    siblings of retained ones, or in `extra`; pages that left the tree but not the table are retained pages to
    be `deleted`, or in `extra`; the root id changes only when the first retained page is the root.
   */
  ghost predicate Repaired(t: Tree, was: set<PageId>, u: Tree, now: set<PageId>, held: seq<PageId>,
                           deleted: set<PageId>, siblings: set<PageId>, extra: set<PageId>) {
    |held| >= 1 && u.nodes.Keys <= t.nodes.Keys && deleted <= Set(held) &&
    now - u.nodes.Keys <= (was - t.nodes.Keys) + deleted + extra &&
    (forall x :: x in deleted ==> x !in u.nodes) && BesideHeld(t.nodes, siblings, held) &&
    SameBut(t.nodes, u.nodes, Set(held) + siblings + extra) &&
    (u.root != t.root ==> held[0] == t.root)
  }

  lemma RepairedNothing(t: Tree, was: set<PageId>, held: seq<PageId>)
    requires |held| >= 1
    ensures Repaired(t, was, t, was, held, {}, {}, {})
  {}

  /** A repair that rewrote a retained page and its sibling, and unlinked no page. */
  lemma RepairedHere(t: Tree, u: Tree, was: set<PageId>, held: seq<PageId>, p: PageId, up: PageId, nb: PageId)
    requires u.nodes.Keys == t.nodes.Keys && u.root == t.root && SameBut(t.nodes, u.nodes, {p, nb, up})
    requires |held| >= 2 && held[|held| - 1] == p && held[|held| - 2] == up && IsNeighbour(t.nodes, up, p, nb)
    ensures Repaired(t, was, u, was, held, {}, {nb}, {})
  {
    assert Beside(t.nodes, held, |held| - 2, nb);
  }

  /** A repair of the root, which may give the root page up. */
  lemma RepairedRoot(t: Tree, u: Tree, was: set<PageId>, now: set<PageId>, held: seq<PageId>, p: PageId, gone: bool)
    requires |held| >= 1 && held[0] == p == t.root && u.nodes.Keys <= t.nodes.Keys && SameBut(t.nodes, u.nodes, {p})
    requires now - u.nodes.Keys <= (was - t.nodes.Keys) + (if gone then {p} else {}) && (gone ==> p !in u.nodes)
    ensures Repaired(t, was, u, now, held, if gone then {p} else {}, {}, {})
  {}

  /** A merge of l and r, the pages p and nb in some order, followed by a repair of the rest of the path. */
  lemma RepairedAbove(t: Tree, was: set<PageId>, m: Tree, mid: set<PageId>, u: Tree, now: set<PageId>, held: seq<PageId>,
                      p: PageId, nb: PageId, up: PageId, r: PageId, deleted: set<PageId>, siblings: set<PageId>)
    requires |held| >= 2 && held[|held| - 1] == p && held[|held| - 2] == up && p != nb && (r == p || r == nb)
    requires m.nodes.Keys <= t.nodes.Keys && r !in m.nodes && mid - m.nodes.Keys <= (was - t.nodes.Keys) + {r}
    requires SameBut(t.nodes, m.nodes, {p, nb, up}) && m.root == t.root
    requires SameAbove(t.nodes, m.nodes, held)
    requires Repaired(m, mid, u, now, held[..|held| - 1], deleted, siblings, {}) && IsNeighbour(t.nodes, up, p, nb)
    ensures Repaired(t, was, u, now, held, deleted + (if r == p then {p} else {}), siblings + {nb}, if r == p then {} else {nb})
    ensures r == nb ==> nb !in u.nodes
  {
    var rest := held[..|held| - 1];
    Shorter(held);
    Shorter(rest);
    BesideAbove(t.nodes, m.nodes, siblings, held);
    assert Beside(t.nodes, held, |held| - 2, nb);
    SameButTrans(t.nodes, m.nodes, u.nodes, {p, nb, up}, Set(rest) + siblings + {},
                 Set(held) + (siblings + {nb}) + if r == p then {} else {nb});
  }

  /** A neighbour that was emptied is deleted at once. */
  lemma RepairedBeside(t: Tree, was: set<PageId>, u: Tree, now: set<PageId>, held: seq<PageId>,
                       deleted: set<PageId>, siblings: set<PageId>, nb: PageId)
    requires Repaired(t, was, u, now, held, deleted, siblings, {nb}) && nb in siblings && nb !in u.nodes
    ensures Repaired(t, was, u, now - {nb}, held, deleted, siblings, {})
  {
    SameButWider(t.nodes, u.nodes, Set(held) + siblings + {nb}, Set(held) + siblings + {});
    forall x | x in (now - {nb}) - u.nodes.Keys ensures x in (was - t.nodes.Keys) + deleted + {} {
      assert x in now - u.nodes.Keys;
    }
  }

  // ------------------------------------------------------------------ the leaf

  /** The leaf write that starts a deletion. */
  lemma LeafRemoveStep(t: Tree, m: map<Key, int>, leafMax: nat, internalMax: nat, p: PageId, k: Key, held: seq<PageId>)
    requires Sound(t, m, leafMax, internalMax, INVALID_PAGE_ID) && p in t.nodes && t.nodes[p].isLeaf && In(t.rng[p], k)
    requires HeldPath(t, held) && held[|held| - 1] == p
    requires held[0] == t.root || CanShrink(t.nodes[held[0]], leafMax, internalMax)
    ensures Sorted(t.nodes[p].items) && |t.nodes[p].items| >= 1
    ensures var u := WithItems(t, p, RemoveKey(t.nodes[p].items, k)); var n := |u.nodes[p].items|;
      Underfull(u, m - {k}, leafMax, internalMax, p) && SameBut(t.nodes, u.nodes, Set(held)) &&
      if n >= leafMax / 2 then Sound(u, m - {k}, leafMax, internalMax, INVALID_PAGE_ID)
      else HeldForRemove(u, held, p, leafMax, internalMax)
  {
    RemovedKey(t, m, p, k);
    NotAPage(t);
    assert FillOk(t, leafMax, internalMax, p);
    var items := RemoveKey(t.nodes[p].items, k);
    LeafWrite(t, m, m - {k}, leafMax, internalMax, p, items);
    Shorter(held);
    SameButWider(t.nodes, WithItems(t, p, items).nodes, {p}, Set(held));
    if |items| < leafMax / 2 { HeldAfterRemove(t, p, items, held, leafMax, internalMax); }
  }

  lemma RemovedKey(t: Tree, m: map<Key, int>, p: PageId, k: Key)
    requires Shape(t) && Stores(t, m) && p in t.nodes && t.nodes[p].isLeaf && In(t.rng[p], k)
    ensures Sorted(t.nodes[p].items)
    ensures var items := RemoveKey(t.nodes[p].items, k);
      EntriesOk(items, t.rng[p]) && Agrees(items, t.rng[p], m - {k}) &&
      |t.nodes[p].items| - 1 <= |items| <= |t.nodes[p].items|
  {
    var was := t.nodes[p].items;
    assert PageOk(t, p) && Agrees(was, t.rng[p], m);
    StoresInLeaf(t, p, k, m);
    if Has(was, k) {
      RemovedSorted(was, t.rng[p], Rank(was, k));
      RemovedAgrees(was, t.rng[p], Rank(was, k), m);
    } else {
      assert m - {k} == m;
    }
  }

  lemma HeldAfterRemove(t: Tree, p: PageId, items: seq<Pair>, held: seq<PageId>, leafMax: nat, internalMax: nat)
    requires Shape(t) && p in t.nodes && t.nodes[p].isLeaf && HeldPath(t, held) && held[|held| - 1] == p
    requires held[0] == t.root || CanShrink(t.nodes[held[0]], leafMax, internalMax)
    requires |t.nodes[p].items| - 1 <= |items| < leafMax / 2
    ensures HeldForRemove(WithItems(t, p, items), held, p, leafMax, internalMax)
  {}

  /** The two parts of a deletion together. */
  lemma RepairedLeaf(t: Tree, p: PageId, items: seq<Pair>, was: set<PageId>, u: Tree, now: set<PageId>, held: seq<PageId>,
                     deleted: set<PageId>, siblings: set<PageId>)
    requires p in t.nodes && SameBut(t.nodes, WithItems(t, p, items).nodes, Set(held))
    requires forall i :: 0 <= i < |held| - 1 ==> held[i] != p
    requires Repaired(WithItems(t, p, items), was, u, now, held, deleted, siblings, {})
    ensures BesideHeld(t.nodes, siblings, held) && SameBut(t.nodes, u.nodes, Set(held) + siblings)
  {
    forall x | x in siblings ensures exists i :: 0 <= i < |held| - 1 && Beside(t.nodes, held, i, x) {
      var i :| 0 <= i < |held| - 1 && Beside(WithItems(t, p, items).nodes, held, i, x);
      assert Beside(t.nodes, held, i, x);
    }
    SameButTrans(t.nodes, WithItems(t, p, items).nodes, u.nodes, Set(held), Set(held) + siblings + {}, Set(held) + siblings);
  }
}
