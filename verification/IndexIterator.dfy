/**
  Iterating over the leaf chain, from the leftmost leaf to the end of the rightmost one.
 */
module IndexIterators {
  import opened TreeShape
  import opened TreeSteps
  import opened TreeCascade
  import opened PageTables
  import opened BPlusTrees

  class IndexIterator {
    const pool: PageTable
    var pageId: PageId
    var index: nat

    constructor (pool: PageTable, pageId: PageId, index: nat)
      ensures this.pool == pool && this.pageId == pageId && this.index == index
    {
      this.pool, this.pageId, this.index := pool, pageId, index;
    }

    method Current() returns (x: Pair)
      requires pageId in pool.nodes && index < |pool.nodes[pageId].items|
      ensures x == pool.nodes[pageId].items[index]
    {
      x := pool.nodes[pageId].items[index];
    }

    /** Step to the next entry, crossing to the next leaf at the end of a leaf that has one. */
    method Next()
      requires pageId in pool.nodes
      modifies this`pageId, this`index
      ensures var n := pool.nodes[old(pageId)];
        if old(index) + 1 == |n.items| && n.next != INVALID_PAGE_ID then pageId == n.next && index == 0
        else pageId == old(pageId) && index == old(index) + 1
    {
      index := index + 1;
      if index == |pool.nodes[pageId].items| && pool.nodes[pageId].next != INVALID_PAGE_ID {
        pageId := pool.nodes[pageId].next;
        index := 0;
      }
    }
  }

  /** The iterator at the first entry: the first slot of the leftmost leaf. */
  method Begin(tree: BPlusTree) returns (it: IndexIterator)
    requires tree.Valid() && tree.rootPageId != INVALID_PAGE_ID
    ensures fresh(it) && it.pool == tree.pool && it.index == 0
    ensures it.pageId in tree.tree.nodes && tree.tree.nodes[it.pageId].isLeaf && tree.tree.rng[it.pageId].lo == NegInf
  {
    ghost var t := tree.tree;
    assert PageOk(t, t.root);
    var p := tree.rootPageId;
    while !tree.pool.nodes[p].isLeaf
      invariant p in t.nodes && t.rng[p].lo == NegInf
      decreases t.lvl[p]
    {
      assert PageOk(t, p);
      ChildPosition(t, p, 0);
      p := tree.pool.nodes[p].items[0].val;
    }
    it := new IndexIterator(tree.pool, p, 0);
  }

  /** The iterator behind the last entry: one past the last slot of the rightmost leaf. */
  method End(tree: BPlusTree) returns (it: IndexIterator)
    requires tree.Valid() && tree.rootPageId != INVALID_PAGE_ID
    ensures fresh(it) && it.pool == tree.pool
    ensures it.pageId in tree.tree.nodes && tree.tree.nodes[it.pageId].isLeaf && tree.tree.rng[it.pageId].hi == PosInf
    ensures it.index == |tree.tree.nodes[it.pageId].items|
  {
    ghost var t := tree.tree;
    assert PageOk(t, t.root);
    var p := tree.rootPageId;
    while !tree.pool.nodes[p].isLeaf
      invariant p in t.nodes && t.rng[p].hi == PosInf
      decreases t.lvl[p]
    {
      assert PageOk(t, p);
      ChildPosition(t, p, |t.nodes[p].items| - 1);
      p := tree.pool.nodes[p].items[|tree.pool.nodes[p].items| - 1].val;
    }
    it := new IndexIterator(tree.pool, p, |tree.pool.nodes[p].items|);
  }

  /** Key k comes before position (p, i) of the leaf chain. */
  ghost predicate Before(t: Tree, p: PageId, i: nat, k: Key)
    requires Domains(t) && p in t.nodes && i <= |t.nodes[p].items|
  {
    Lt(At(k), t.rng[p].lo) || HasKey(t.nodes[p].items[..i], k)
  }

  /** `out` lists, in order, exactly the entries before position (p, i). */
  ghost predicate Listed(t: Tree, m: map<Key, int>, p: PageId, i: nat, out: seq<Pair>)
    requires Domains(t) && p in t.nodes && i <= |t.nodes[p].items|
  {
    Sorted(out) &&
    (forall a :: 0 <= a < |out| ==> out[a].key in m && m[out[a].key] == out[a].val && Before(t, p, i, out[a].key)) &&
    forall k :: k in m && Before(t, p, i, k) ==> HasKey(out, k)
  }

  /** One more entry of the same leaf. */
  lemma ListedNext(t: Tree, m: map<Key, int>, p: PageId, i: nat, out: seq<Pair>)
    requires Shape(t) && Stores(t, m) && p in t.nodes && t.nodes[p].isLeaf && i < |t.nodes[p].items|
    requires Listed(t, m, p, i, out)
    ensures Listed(t, m, p, i + 1, out + [t.nodes[p].items[i]])
    ensures t.nodes[p].items[i].key in m && !HasKey(out, t.nodes[p].items[i].key)
  {
    var items, x, now := t.nodes[p].items, t.nodes[p].items[i], out + [t.nodes[p].items[i]];
    assert PageOk(t, p) && Agrees(items, t.rng[p], m);
    assert In(t.rng[p], x.key);
    assert items[..i + 1] == items[..i] + [x];
    forall a | 0 <= a < |out| ensures out[a].key < x.key {
      if HasKey(items[..i], out[a].key) {
        var b :| 0 <= b < i && items[..i][b].key == out[a].key;
        assert items[b].key < x.key;
      }
    }
    forall k ensures Before(t, p, i + 1, k) <==> Before(t, p, i, k) || k == x.key {
      BeforeNext(t, p, i, k);
    }
    forall k | k in m && Before(t, p, i + 1, k) ensures HasKey(now, k) {
      if k == x.key {
        assert now[|out|].key == k;
      } else {
        assert HasKey(out, k);
        var a :| 0 <= a < |out| && out[a].key == k;
        assert now[a].key == k;
      }
    }
  }

  lemma BeforeNext(t: Tree, p: PageId, i: nat, k: Key)
    requires Domains(t) && p in t.nodes && i < |t.nodes[p].items|
    ensures Before(t, p, i + 1, k) <==> Before(t, p, i, k) || k == t.nodes[p].items[i].key
  {
    var items := t.nodes[p].items;
    if HasKey(items[..i + 1], k) && k != items[i].key {
      var b :| 0 <= b < i + 1 && items[..i + 1][b].key == k;
      assert items[..i][b].key == k;
    }
    if HasKey(items[..i], k) {
      var b :| 0 <= b < i && items[..i][b].key == k;
      assert items[..i + 1][b].key == k;
    }
    assert items[..i + 1][i].key == items[i].key;
  }

  /** Behind the last entry of a leaf stands the start of the next one. */
  lemma ListedCross(t: Tree, m: map<Key, int>, p: PageId, out: seq<Pair>)
    requires Shape(t) && Stores(t, m) && p in t.nodes && t.nodes[p].isLeaf && t.nodes[p].next != INVALID_PAGE_ID
    requires Listed(t, m, p, |t.nodes[p].items|, out)
    ensures var q := t.nodes[p].next; q in t.nodes && t.nodes[q].isLeaf && Listed(t, m, q, 0, out)
  {
    var q, items := t.nodes[p].next, t.nodes[p].items;
    assert PageOk(t, p) && Agrees(items, t.rng[p], m);
    assert PageOk(t, q);
    NonEmpty(t, p);
    assert items[..|items|] == items;
    forall k ensures Before(t, q, 0, k) <==> Lt(At(k), t.rng[p].hi) {
    }
    forall k | k in m && Lt(At(k), t.rng[p].hi) ensures HasKey(out, k) {
      assert Before(t, p, |items|, k) by {
        if !Lt(At(k), t.rng[p].lo) { assert In(t.rng[p], k); }
      }
    }
    forall a | 0 <= a < |out| ensures Lt(At(out[a].key), t.rng[p].hi) {
      if HasKey(items, out[a].key) {
        var b :| 0 <= b < |items| && items[b].key == out[a].key;
        assert In(t.rng[p], items[b].key);
      }
    }
  }

  /** Behind the last entry of the rightmost leaf everything has been listed. */
  lemma ListedAll(t: Tree, m: map<Key, int>, p: PageId, out: seq<Pair>)
    requires Shape(t) && Stores(t, m) && p in t.nodes && t.nodes[p].isLeaf && t.rng[p].hi == PosInf
    requires Listed(t, m, p, |t.nodes[p].items|, out)
    ensures forall k :: k in m ==> HasKey(out, k)
  {
    var items := t.nodes[p].items;
    assert PageOk(t, p) && Agrees(items, t.rng[p], m);
    assert items[..|items|] == items;
    forall k | k in m ensures HasKey(out, k) {
      if !Lt(At(k), t.rng[p].lo) { assert In(t.rng[p], k); }
      assert Before(t, p, |items|, k);
    }
  }

  lemma HasKeyPush(s: seq<Pair>, x: Pair)
    ensures forall k :: HasKey(s + [x], k) <==> HasKey(s, k) || k == x.key
  {
    assert (s + [x])[|s|].key == x.key;
    assert forall a :: 0 <= a < |s| ==> (s + [x])[a] == s[a];
  }

  /** Where the iterator goes after (p, i), and that the listing invariant goes with it. */
  lemma ScanStep(t: Tree, m: map<Key, int>, leafMax: nat, internalMax: nat, p: PageId, i: nat, q: PageId, j: nat, out: seq<Pair>)
    requires Shape(t) && Stores(t, m) && Filled(t, leafMax, internalMax, INVALID_PAGE_ID) && 2 <= leafMax
    requires p in t.nodes && t.nodes[p].isLeaf && i < |t.nodes[p].items| && Listed(t, m, p, i, out)
    requires
      if i + 1 == |t.nodes[p].items| && t.nodes[p].next != INVALID_PAGE_ID then q == t.nodes[p].next && j == 0
      else q == p && j == i + 1
    ensures q in t.nodes && t.nodes[q].isLeaf && j <= |t.nodes[q].items|
    ensures Listed(t, m, q, j, out + [t.nodes[p].items[i]])
    ensures j == |t.nodes[q].items| ==> t.rng[q].hi == PosInf
    ensures t.nodes[p].items[i].key in m && !HasKey(out, t.nodes[p].items[i].key)
  {
    ListedNext(t, m, p, i, out);
    assert PageOk(t, p);
    if q != p || j == 0 {
      ListedCross(t, m, p, out + [t.nodes[p].items[i]]);
      NotAPage(t);
      assert FillOk(t, leafMax, internalMax, q);
    } else {
      NotAPage(t);
    }
  }

  /** A full scan yields exactly the map's entries, in strictly increasing key order. */
  method Scan(tree: BPlusTree) returns (out: seq<Pair>)
    requires tree.Valid() && tree.rootPageId != INVALID_PAGE_ID
    ensures Sorted(out)
    ensures forall i :: 0 <= i < |out| ==> out[i].key in tree.contents && tree.contents[out[i].key] == out[i].val
    ensures forall k :: k in tree.contents ==> HasKey(out, k)
  {
    ghost var t, m := tree.tree, tree.contents;
    var it := Begin(tree);
    var end := End(tree);
    out := [];
    ghost var rest, last := m.Keys, end.pageId;
    NotAPage(t);
    assert FillOk(t, tree.leafMaxSize, tree.internalMaxSize, it.pageId);
    while !(it.pageId == end.pageId && it.index == end.index)
      invariant it.pool == tree.pool && fresh(it) && it != end && fresh(end)
      invariant end.pageId == last && end.index == |t.nodes[last].items|
      invariant it.pageId in t.nodes && t.nodes[it.pageId].isLeaf && it.index <= |t.nodes[it.pageId].items|
      invariant it.index == |t.nodes[it.pageId].items| ==> t.rng[it.pageId].hi == PosInf
      invariant Listed(t, m, it.pageId, it.index, out)
      invariant forall k :: k in rest <==> k in m && !HasKey(out, k)
      decreases rest
    {
      if it.index == |t.nodes[it.pageId].items| { LastLeaf(t, it.pageId, last); }
      var x := it.Current();
      HasKeyPush(out, x);
      ghost var p, i := it.pageId, it.index;
      it.Next();
      ScanStep(t, m, tree.leafMaxSize, tree.internalMaxSize, p, i, it.pageId, it.index, out);
      out := out + [x];
      rest := rest - {x.key};
    }
    ListedAll(t, m, it.pageId, out);
  }
}
