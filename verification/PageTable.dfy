/**
  The tree's view of the buffer pool: a table of pages by id.  A page is fetched into a frame, changed there
  in place, and written back.
 */
module PageTables {
  import opened TreeShape
  import opened TreePages

  class PageTable {
    const leafMaxSize: nat
    const internalMaxSize: nat
    var nodes: map<PageId, Node>
    var nextPageId: nat

    ghost predicate Valid()
      reads this
    {
      (forall p :: p in nodes ==> 0 <= p < nextPageId) &&
      forall p {:trigger nodes[p]} :: p in nodes ==> Fits(nodes[p])
    }

    ghost predicate Fits(n: Node) {
      |n.items| <= MaxSize(n.isLeaf, leafMaxSize, internalMaxSize) && (n.isLeaf || n.next == INVALID_PAGE_ID)
    }

    constructor (leafMaxSize: nat, internalMaxSize: nat)
      ensures Valid() && nodes == map[]
      ensures this.leafMaxSize == leafMaxSize && this.internalMaxSize == internalMaxSize
    {
      this.leafMaxSize, this.internalMaxSize := leafMaxSize, internalMaxSize;
      nodes, nextPageId := map[], 0;
    }

    method FetchPage(p: PageId) returns (page: TreePage)
      requires Valid() && p in nodes
      ensures fresh(page) && fresh(page.slots) && page.Valid() && page.View() == nodes[p] && page.pageId == p
      ensures page.maxSize == MaxSize(nodes[p].isLeaf, leafMaxSize, internalMaxSize)
    {
      page := new TreePage(p, nodes[p], MaxSize(nodes[p].isLeaf, leafMaxSize, internalMaxSize));
    }

    /** Unpin a changed page. */
    method WritePage(page: TreePage)
      requires Valid() && page.Valid() && page.pageId in nodes && Fits(page.View())
      modifies this`nodes
      ensures Valid() && nodes == old(nodes)[page.pageId := page.View()]
    {
      nodes := nodes[page.pageId := page.View()];
    }

    /** NewPage and Init: an empty page under the next page id. */
    method NewPage(isLeaf: bool, parent: PageId) returns (q: PageId)
      requires Valid()
      modifies this
      ensures Valid() && q == old(nextPageId) && nextPageId == q + 1 && q !in old(nodes)
      ensures nodes == old(nodes)[q := Node(isLeaf, parent, INVALID_PAGE_ID, [])]
    {
      q := nextPageId;
      nodes := nodes[q := Node(isLeaf, parent, INVALID_PAGE_ID, [])];
      nextPageId := nextPageId + 1;
    }

    method DeletePage(p: PageId)
      requires Valid()
      modifies this`nodes
      ensures Valid() && nodes == old(nodes) - {p}
    {
      nodes := nodes - {p};
    }

    method SetParent(p: PageId, up: PageId)
      requires Valid() && p in nodes
      modifies this`nodes
      ensures Valid() && nodes.Keys == old(nodes).Keys && nodes == old(nodes)[p := old(nodes)[p].(parent := up)]
    {
      var page := FetchPage(p);
      page.parent := up;
      WritePage(page);
    }

    // ---------------------------------------------------------------- leaf pages

    method LeafLookup(p: PageId, key: Key) returns (found: bool, value: int)
      requires Valid() && p in nodes && nodes[p].isLeaf && |nodes[p].items| >= 1 && Sorted(nodes[p].items)
      ensures found == Has(nodes[p].items, key)
      ensures found ==> value == nodes[p].items[Rank(nodes[p].items, key)].val
    {
      var page := FetchPage(p);
      found, value := page.LeafLookup(key);
    }

    method LeafInsert(p: PageId, key: Key, value: int) returns (n: nat)
      requires Valid() && p in nodes && nodes[p].isLeaf && |nodes[p].items| < leafMaxSize && Sorted(nodes[p].items)
      modifies this`nodes
      ensures Valid()
      ensures nodes == var was := old(nodes); was[p := was[p].(items := InsertSorted(was[p].items, key, value))]
      ensures n == |nodes[p].items|
    {
      var page := FetchPage(p);
      n := page.LeafInsert(key, value);
      WritePage(page);
    }

    method LeafRemove(p: PageId, key: Key) returns (n: nat)
      requires Valid() && p in nodes && nodes[p].isLeaf && |nodes[p].items| >= 1 && Sorted(nodes[p].items)
      modifies this`nodes
      ensures Valid()
      ensures nodes == var was := old(nodes); was[p := was[p].(items := RemoveKey(was[p].items, key))]
      ensures n == |nodes[p].items|
    {
      var page := FetchPage(p);
      n := page.LeafRemove(key);
      WritePage(page);
    }

    /** Two different pages of one kind. */
    ghost predicate Two(p: PageId, q: PageId, isLeaf: bool)
      reads this
    {
      p in nodes && q in nodes && p != q && nodes[p].isLeaf == isLeaf && nodes[q].isLeaf == isLeaf
    }

    method LeafMoveHalfTo(p: PageId, q: PageId)
      requires Valid() && Two(p, q, true) && |nodes[q].items| == 0
      modifies this`nodes
      ensures Valid() && nodes.Keys == old(nodes).Keys
      ensures nodes == var was := old(nodes); var n := was[p]; var half := (|n.items| + 1) / 2;
        was[p := n.(items := n.items[..half], next := q)][q := was[q].(items := n.items[half..], next := n.next)]
    {
      var page := FetchPage(p);
      var other := FetchPage(q);
      page.LeafMoveHalfTo(other);
      WritePage(page);
      WritePage(other);
    }

    method LeafMoveAllTo(p: PageId, q: PageId)
      requires Valid() && Two(p, q, true) && |nodes[p].items| + |nodes[q].items| <= leafMaxSize
      modifies this`nodes
      ensures Valid() && nodes.Keys == old(nodes).Keys
      ensures nodes == var was := old(nodes);
        was[p := was[p].(items := [])][q := was[q].(items := was[q].items + was[p].items, next := was[p].next)]
    {
      var page := FetchPage(p);
      var other := FetchPage(q);
      page.LeafMoveAllTo(other);
      WritePage(page);
      WritePage(other);
    }

    method LeafMoveFirstToEndOf(p: PageId, q: PageId)
      requires Valid() && Two(p, q, true) && 1 <= |nodes[p].items| < leafMaxSize && |nodes[q].items| < leafMaxSize
      modifies this`nodes
      ensures Valid() && nodes.Keys == old(nodes).Keys
      ensures nodes == var was := old(nodes); var items := was[p].items;
        was[p := was[p].(items := items[1..])][q := was[q].(items := was[q].items + [items[0]])]
    {
      var page := FetchPage(p);
      var other := FetchPage(q);
      page.LeafMoveFirstToEndOf(other);
      WritePage(page);
      WritePage(other);
    }

    method LeafMoveLastToFrontOf(p: PageId, q: PageId)
      requires Valid() && Two(p, q, true) && 1 <= |nodes[p].items| && |nodes[q].items| < leafMaxSize
      modifies this`nodes
      ensures Valid() && nodes.Keys == old(nodes).Keys
      ensures nodes == var was := old(nodes); var items := was[p].items; var last := |items| - 1;
        was[p := was[p].(items := items[..last])][q := was[q].(items := [items[last]] + was[q].items)]
    {
      var page := FetchPage(p);
      var other := FetchPage(q);
      page.LeafMoveLastToFrontOf(other);
      WritePage(page);
      WritePage(other);
    }

    // ---------------------------------------------------------------- internal pages

    method InternalLookup(p: PageId, key: Key) returns (child: PageId)
      requires Valid() && p in nodes && !nodes[p].isLeaf && |nodes[p].items| >= 2
      requires forall a, b :: 1 <= a < b < |nodes[p].items| ==> nodes[p].items[a].key < nodes[p].items[b].key
      ensures exists i: nat :: RoutesTo(nodes[p].items, key, i) && child == nodes[p].items[i].val
    {
      var page := FetchPage(p);
      child := page.InternalLookup(key);
    }

    method ValueIndex(p: PageId, value: PageId) returns (i: int)
      requires Valid() && p in nodes
      ensures i == var items := nodes[p].items; if IndexOf(items, value) < |items| then IndexOf(items, value) else -1
    {
      var page := FetchPage(p);
      i := page.ValueIndex(value);
    }

    method InsertNodeAfter(p: PageId, oldValue: PageId, key: Key, newValue: PageId, ghost at: nat) returns (n: nat)
      requires Valid() && p in nodes && !nodes[p].isLeaf && |nodes[p].items| < internalMaxSize
      requires at < |nodes[p].items| && nodes[p].items[at].val == oldValue
      requires forall k :: at < k < |nodes[p].items| ==> nodes[p].items[k].val != oldValue
      modifies this`nodes
      ensures Valid() && nodes.Keys == old(nodes).Keys
      ensures nodes == var was := old(nodes);
        was[p := was[p].(items := InsertAt(was[p].items, at + 1, Pair(key, newValue)))]
      ensures n == |nodes[p].items|
    {
      var page := FetchPage(p);
      n := page.InsertNodeAfter(oldValue, key, newValue, at);
      WritePage(page);
    }

    method PopulateNewRoot(p: PageId, oldValue: PageId, key: Key, newValue: PageId) returns (ghost junk: Key)
      requires Valid() && p in nodes && !nodes[p].isLeaf && |nodes[p].items| == 0 && internalMaxSize >= 2
      modifies this`nodes
      ensures Valid()
      ensures nodes == var was := old(nodes); was[p := was[p].(items := [Pair(junk, oldValue), Pair(key, newValue)])]
    {
      var page := FetchPage(p);
      junk := page.PopulateNewRoot(oldValue, key, newValue);
      WritePage(page);
    }

    method InternalRemove(p: PageId, index: nat) returns (n: nat)
      requires Valid() && p in nodes && !nodes[p].isLeaf && index < |nodes[p].items|
      modifies this`nodes
      ensures Valid() && nodes.Keys == old(nodes).Keys
      ensures nodes == var was := old(nodes); was[p := was[p].(items := RemoveAt(was[p].items, index))]
      ensures n == |nodes[p].items|
    {
      var page := FetchPage(p);
      page.InternalRemove(index);
      n := page.size;
      WritePage(page);
    }

    method RemoveAndReturnOnlyChild(p: PageId) returns (child: PageId)
      requires Valid() && p in nodes && !nodes[p].isLeaf && |nodes[p].items| == 1
      modifies this`nodes
      ensures Valid() && child == old(nodes[p].items[0].val)
      ensures nodes == var was := old(nodes); was[p := was[p].(items := [])]
    {
      var page := FetchPage(p);
      child := page.RemoveAndReturnOnlyChild();
      WritePage(page);
    }

    method SetKeyAt(p: PageId, index: nat, key: Key)
      requires Valid() && p in nodes && index < |nodes[p].items|
      modifies this`nodes
      ensures Valid() && nodes.Keys == old(nodes).Keys
      ensures nodes == var was := old(nodes);
        was[p := was[p].(items := was[p].items[index := Pair(key, was[p].items[index].val)])]
    {
      var page := FetchPage(p);
      page.SetKeyAt(index, key);
      WritePage(page);
    }

    method InternalMoveHalfTo(p: PageId, q: PageId)
      requires Valid() && Two(p, q, false) && |nodes[q].items| == 0
      modifies this`nodes
      ensures Valid() && nodes.Keys == old(nodes).Keys
      ensures nodes == var was := old(nodes); var n := was[p]; var half := (|n.items| + 1) / 2;
        was[p := n.(items := n.items[..half])][q := was[q].(items := n.items[half..])]
    {
      var page := FetchPage(p);
      var other := FetchPage(q);
      page.InternalMoveHalfTo(other);
      WritePage(page);
      WritePage(other);
    }

    method InternalMoveAllTo(p: PageId, q: PageId, middle: Key)
      requires Valid() && Two(p, q, false) && |nodes[p].items| >= 1 && |nodes[p].items| + |nodes[q].items| <= internalMaxSize
      modifies this`nodes
      ensures Valid() && nodes.Keys == old(nodes).Keys
      ensures nodes == var was := old(nodes); var items := was[p].items;
        was[p := was[p].(items := [])]
           [q := was[q].(items := was[q].items + items[0 := Pair(middle, items[0].val)])]
    {
      var page := FetchPage(p);
      var other := FetchPage(q);
      page.InternalMoveAllTo(other, middle);
      WritePage(page);
      WritePage(other);
    }

    method InternalMoveFirstToEndOf(p: PageId, q: PageId, middle: Key)
      requires Valid() && Two(p, q, false) && |nodes[p].items| >= 1 && |nodes[q].items| < internalMaxSize
      modifies this`nodes
      ensures Valid() && nodes.Keys == old(nodes).Keys
      ensures nodes == var was := old(nodes); var items := was[p].items;
        was[p := was[p].(items := items[1..])]
           [q := was[q].(items := was[q].items + [Pair(middle, items[0].val)])]
    {
      var page := FetchPage(p);
      var other := FetchPage(q);
      page.InternalMoveFirstToEndOf(other, middle);
      WritePage(page);
      WritePage(other);
    }

    method InternalMoveLastToFrontOf(p: PageId, q: PageId, middle: Key)
      requires Valid() && Two(p, q, false) && |nodes[p].items| >= 1 && 1 <= |nodes[q].items| < internalMaxSize
      modifies this`nodes
      ensures Valid() && nodes.Keys == old(nodes).Keys
      ensures nodes == var was := old(nodes); var items, there := was[p].items, was[q].items; var last := |items| - 1;
        was[p := was[p].(items := items[..last])]
           [q := was[q].(items := [items[last]] + there[0 := Pair(middle, there[0].val)])]
    {
      var page := FetchPage(p);
      var other := FetchPage(q);
      page.InternalMoveLastToFrontOf(other, middle);
      WritePage(page);
      WritePage(other);
    }

    /** The children listed by page p from position `from` up to `to` get p as their parent. */
    method AdoptChildren(p: PageId, from: nat, to: nat)
      requires Valid() && p in nodes && from <= to <= |nodes[p].items|
      requires forall i :: from <= i < to ==> nodes[p].items[i].val in nodes
      modifies this`nodes
      ensures Valid() && nodes.Keys == old(nodes).Keys
      ensures nodes == Adopt(old(nodes), old(nodes[p]).items[from..to], p)
    {
      ghost var was := nodes;
      ghost var items := nodes[p].items;
      var i := from;
      assert nodes == Adopt(was, items[from..i], p);
      while i < to
        invariant from <= i <= to && Valid()
        invariant nodes == Adopt(was, items[from..i], p)
      {
        SetParent(nodes[p].items[i].val, p);
        OneMore(was, items, from, i, p);
        i := i + 1;
      }
    }

    lemma OneMore(nodes: map<PageId, Node>, items: seq<Pair>, from: nat, i: nat, p: PageId)
      requires from <= i < |items| && items[i].val in nodes
      ensures Adopt(nodes, items[from..i + 1], p) ==
        var was := Adopt(nodes, items[from..i], p); was[items[i].val := was[items[i].val].(parent := p)]
    {
      var a, b := items[from..i], items[from..i + 1];
      forall x ensures IsKid(b, x) <==> IsKid(a, x) || x == items[i].val {
        if IsKid(b, x) && x != items[i].val {
          var k :| 0 <= k < |b| && b[k].val == x;
          assert a[k].val == x;
        }
        if IsKid(a, x) {
          var k :| 0 <= k < |a| && a[k].val == x;
          assert b[k].val == x;
        }
        assert b[i - from].val == items[i].val;
      }
    }
  }
}
