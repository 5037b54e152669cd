/**
  The paged B+ tree: pages reached by id, changed in place by the insert and delete cascades.
 */
module BPlusTrees {
  import opened TreeShape
  import opened TreeSteps
  import opened PageTables
  import opened TreeCascade
  import opened TreeDeletes

  class BPlusTree {
    const leafMaxSize: nat
    const internalMaxSize: nat
    const pool: PageTable
    var rootPageId: PageId

    ghost var tree: Tree  // the last consistent tree; behind the pages while a cascade step is under way
    ghost var contents: map<Key, int>

    ghost predicate PoolOk()
      reads this, pool
    {
      pool.Valid() && leafMaxSize >= 2 && internalMaxSize >= 4 && tree.root == rootPageId &&
      pool.leafMaxSize == leafMaxSize && pool.internalMaxSize == internalMaxSize
    }

    /** `tree` is a search tree for `contents`; page `except` may be over- or underfull. */
    ghost predicate TreeOk(except: PageId)
      reads this
    {
      Sound(tree, contents, leafMaxSize, internalMaxSize, except)
    }

    ghost predicate Valid()
      reads this, pool
    {
      PoolOk() && pool.nodes == tree.nodes &&
      if rootPageId == INVALID_PAGE_ID then pool.nodes == map[] && contents == map[] else TreeOk(INVALID_PAGE_ID)
    }

    constructor (leafMaxSize: nat, internalMaxSize: nat)
      requires leafMaxSize >= 2 && internalMaxSize >= 4
      ensures Valid() && fresh(pool) && contents == map[]
      ensures this.leafMaxSize == leafMaxSize && this.internalMaxSize == internalMaxSize
    {
      this.leafMaxSize, this.internalMaxSize := leafMaxSize, internalMaxSize;
      pool := new PageTable(leafMaxSize, internalMaxSize);
      rootPageId := INVALID_PAGE_ID;
      contents, tree := map[], Tree(map[], INVALID_PAGE_ID, map[], map[]);
    }

    // ---------------------------------------------------------------- search

    /** One step of the descent that every operation starts with. */
    method ChildFor(p: PageId, key: Key) returns (child: PageId)
      requires PoolOk() && TreeOk(INVALID_PAGE_ID) && pool.nodes == tree.nodes
      requires p in tree.nodes && !tree.nodes[p].isLeaf && In(tree.rng[p], key)
      ensures child in tree.nodes && In(tree.rng[child], key) && tree.lvl[child] + 1 == tree.lvl[p]
      ensures tree.nodes[child].parent == p && child != tree.root
    {
      assert PageOk(tree, p) && FillOk(tree, leafMaxSize, internalMaxSize, p);
      KeysRise(tree.nodes[p].items, tree.rng[p]);
      child := pool.InternalLookup(p, key);
      ghost var i: nat :| RoutesTo(tree.nodes[p].items, key, i) && child == tree.nodes[p].items[i].val;
      Descend(tree, p, key, i);
    }

    method GetValue(key: Key) returns (found: bool, value: int)
      requires Valid()
      ensures found == (key in contents) && (found ==> value == contents[key])
    {
      if rootPageId == INVALID_PAGE_ID {
        return false, 0;
      }
      assert PageOk(tree, rootPageId);
      var p := rootPageId;
      while !pool.nodes[p].isLeaf
        invariant p in tree.nodes && In(tree.rng[p], key)
        decreases tree.lvl[p]
      {
        p := ChildFor(p, key);
      }
      assert PageOk(tree, p) && FillOk(tree, leafMaxSize, internalMaxSize, p);
      StoresInLeaf(tree, p, key, contents);
      found, value := pool.LeafLookup(p, key);
    }

    // ---------------------------------------------------------------- insertion

    /** Page p is full: half of it moves to a new page, which p's parent does not list yet. */
    method Split(p: PageId) returns (q: PageId)
      requires PoolOk() && pool.nodes == tree.nodes && Shape(tree) && p in tree.nodes
      modifies pool
      ensures PoolOk() && 0 <= q < pool.nextPageId && q !in tree.nodes && Halved(tree, p, q, pool.nodes)
      ensures pool.nodes[q].items == tree.nodes[p].items[Middle(tree.nodes[p])..]
    {
      assert PageOk(tree, p);
      q := pool.NewPage(pool.nodes[p].isLeaf, pool.nodes[p].parent);
      MoveHalf(p, q);
      HalvesMoved(tree, p, q, pool.nodes);
      if !pool.nodes[p].isLeaf {
        AdoptHalf(p, q);
      }
    }

    /** The upper half of page p goes to the empty page q. */
    method MoveHalf(p: PageId, q: PageId)
      requires PoolOk() && p in tree.nodes && q !in tree.nodes
      requires var n := tree.nodes[p]; pool.nodes == tree.nodes[q := Node(n.isLeaf, n.parent, INVALID_PAGE_ID, [])]
      modifies pool
      ensures PoolOk() && pool.nextPageId == old(pool.nextPageId)
      ensures var n := tree.nodes[p]; var half := (|n.items| + 1) / 2;
        pool.nodes == tree.nodes[p := n.(items := n.items[..half], next := if n.isLeaf then q else n.next)]
                                [q := Node(n.isLeaf, n.parent, if n.isLeaf then n.next else INVALID_PAGE_ID, n.items[half..])]
    {
      ghost var n, half := tree.nodes[p], (|tree.nodes[p].items| + 1) / 2;
      if pool.nodes[p].isLeaf {
        pool.LeafMoveHalfTo(p, q);
      } else {
        pool.InternalMoveHalfTo(p, q);
      }
      Overwrite(tree.nodes, q, Node(n.isLeaf, n.parent, INVALID_PAGE_ID, []), p,
        n.(items := n.items[..half], next := if n.isLeaf then q else n.next),
        Node(n.isLeaf, n.parent, if n.isLeaf then n.next else INVALID_PAGE_ID, n.items[half..]));
    }

    /** The pages listed by the new internal page q get q as their parent. */
    method AdoptHalf(p: PageId, q: PageId)
      requires PoolOk() && Shape(tree) && p in tree.nodes && !tree.nodes[p].isLeaf && 0 <= q && q !in tree.nodes
      requires var n := tree.nodes[p]; var half := (|n.items| + 1) / 2;
        pool.nodes == tree.nodes[p := n.(items := n.items[..half])][q := Node(false, n.parent, INVALID_PAGE_ID, n.items[half..])]
      modifies pool
      ensures PoolOk() && Halved(tree, p, q, pool.nodes) && pool.nodes[q].items == old(pool.nodes)[q].items
      ensures pool.nextPageId == old(pool.nextPageId)
    {
      ghost var kids := pool.nodes[q].items;
      forall i | 0 <= i < |kids| ensures kids[i].val in pool.nodes {
        ChildPosition(tree, p, Middle(tree.nodes[p]) + i);
      }
      assert kids[0..|kids|] == kids;
      pool.AdoptChildren(q, 0, |pool.nodes[q].items|);
      HalvesInternal(tree, p, q, pool.nodes);
    }

    /** What a cascade step starts from: only page p is overfull, and it was split with the new page q. */
    ghost predicate SplitAt(p: PageId, q: PageId, key: Key)
      reads this, pool
    {
      PoolOk() && q < pool.nextPageId && Overfull(tree, contents, leafMaxSize, internalMaxSize, p, q, pool.nodes) &&
      key == tree.nodes[p].items[Middle(tree.nodes[p])].key
    }

    /** Enter the new page q behind p in p's parent, splitting the parent in turn when it is full. */
    method InsertIntoParent(p: PageId, key: Key, q: PageId, ghost held: seq<PageId>)
      requires SplitAt(p, q, key) && HeldForInsert(tree, held, p, internalMaxSize)
      modifies this`tree, this`rootPageId, pool
      ensures PoolOk() && TreeOk(INVALID_PAGE_ID) && pool.nodes == tree.nodes
      ensures SameBut(old(tree).nodes, tree.nodes, Set(held))
      ensures rootPageId != old(rootPageId) ==> held[0] == old(rootPageId)
      decreases |held|, 1
    {
      ghost var start := tree.nodes;
      assert pool.nodes[p] == HalfNode(tree, p, Middle(tree.nodes[p]), q, p);
      assert PageOk(tree, p);
      if pool.nodes[p].parent == INVALID_PAGE_ID {
        RootFirst(tree, held);
        NewRoot(p, key, q);
        SameButWider(start, tree.nodes, {p}, Set(held));
      } else {
        var up := pool.nodes[p].parent;
        var n := EnterParent(p, key, q, held);
        ghost var middle := tree.nodes;
        if n >= internalMaxSize {
          SplitParent(up, held[..|held| - 1]);
          SameButTrans(start, middle, tree.nodes, Set(held), Set(held[..|held| - 1]), Set(held));
        }
      }
    }

    /** The parent is full: split it and enter the new page in turn. */
    method SplitParent(up: PageId, ghost held: seq<PageId>)
      requires PoolOk() && TreeOk(up) && pool.nodes == tree.nodes && HeldForInsert(tree, held, up, internalMaxSize)
      requires up in tree.nodes && !tree.nodes[up].isLeaf && |tree.nodes[up].items| == internalMaxSize
      modifies this`tree, this`rootPageId, pool
      ensures PoolOk() && TreeOk(INVALID_PAGE_ID) && pool.nodes == tree.nodes
      ensures SameBut(old(tree).nodes, tree.nodes, Set(held))
      ensures rootPageId != old(rootPageId) ==> held[0] == old(rootPageId)
      decreases |held|, 2
    {
      var q := Split(up);
      var key := pool.nodes[q].items[0].key;
      InsertIntoParent(up, key, q, held);
    }

    /** The step below the root: InsertNodeAfter completes the split as far as the parent's size allows. */
    method EnterParent(p: PageId, key: Key, q: PageId, ghost held: seq<PageId>) returns (n: nat)
      requires SplitAt(p, q, key) && HeldForInsert(tree, held, p, internalMaxSize) && p != tree.root
      modifies this`tree, pool
      ensures PoolOk() && pool.nodes == tree.nodes && |held| >= 2 && SameBut(old(tree).nodes, tree.nodes, Set(held))
      ensures held[|held| - 2] in tree.nodes && n == |tree.nodes[held[|held| - 2]].items| <= internalMaxSize
      ensures n < internalMaxSize ==> TreeOk(INVALID_PAGE_ID)
      ensures n == internalMaxSize ==> TreeOk(held[|held| - 2]) && !tree.nodes[held[|held| - 2]].isLeaf
      ensures n == internalMaxSize ==> HeldForInsert(tree, held[..|held| - 1], held[|held| - 2], internalMaxSize)
    {
      ghost var up, i := Up(tree, p);
      assert FillOk(tree, leafMaxSize, internalMaxSize, up);
      ParentUnmoved(tree, p, Middle(tree.nodes[p]), q);
      assert pool.nodes[up] == HalfNode(tree, p, Middle(tree.nodes[p]), q, up);
      assert pool.nodes[p] == HalfNode(tree, p, Middle(tree.nodes[p]), q, p);
      ChildrenDistinct(tree, up, i);
      ghost var before := pool.nodes;
      n := pool.InsertNodeAfter(pool.nodes[p].parent, p, key, q, i);
      tree := EnterStep(tree, contents, leafMaxSize, internalMaxSize, p, q, up, i, before, pool.nodes, held);
    }

    /** The root was split: a new root takes the two halves. */
    method NewRoot(p: PageId, key: Key, q: PageId)
      requires SplitAt(p, q, key) && p == tree.root
      modifies this`tree, this`rootPageId, pool
      ensures PoolOk() && TreeOk(INVALID_PAGE_ID) && pool.nodes == tree.nodes
      ensures SameBut(old(tree).nodes, tree.nodes, {p})
    {
      ghost var before := pool.nodes;
      assert p in before && q in before && p != q;
      var r, junk := RootOver(p, key, q);
      rootPageId := r;
      tree := RootStep(tree, contents, leafMaxSize, internalMaxSize, p, q, r, junk, before, pool.nodes);
    }

    method RootOver(p: PageId, key: Key, q: PageId) returns (r: PageId, ghost junk: Key)
      requires PoolOk() && p in pool.nodes && q in pool.nodes && p != q
      modifies pool
      ensures PoolOk() && r >= 0 && r !in old(pool.nodes)
      ensures pool.nodes == var was := old(pool.nodes);
        was[r := Node(false, INVALID_PAGE_ID, INVALID_PAGE_ID, [Pair(junk, p), Pair(key, q)])]
           [p := was[p].(parent := r)][q := was[q].(parent := r)]
    {
      r := pool.NewPage(false, INVALID_PAGE_ID);
      junk := pool.PopulateNewRoot(r, p, key, q);
      pool.SetParent(p, r);
      pool.SetParent(q, r);
    }

    /** Unlatch every retained page; the root latch goes with the root page. */
    method ReleaseAll(held: seq<PageId>, rootLocked: bool) returns (left: seq<PageId>, locked: bool)
      ensures left == [] && locked == (rootLocked && rootPageId !in held)
    {
      left, locked := held, rootLocked;
      ghost var done := [];
      while left != []
        invariant held == done + left && locked == (rootLocked && rootPageId !in done)
        decreases |left|
      {
        var front := left[0];
        if front == rootPageId {
          locked := false;
        }
        left := left[1..];
        done := done + [front];
      }
    }

    /** The descent of an insertion: ancestors are released at every page that can take one more entry, so that none such is behind the first. */
    method LatchForInsert(key: Key) returns (leaf: PageId, held: seq<PageId>, rootLocked: bool)
      requires Valid() && rootPageId != INVALID_PAGE_ID
      ensures leaf in tree.nodes && tree.nodes[leaf].isLeaf && In(tree.rng[leaf], key)
      ensures HeldPath(tree, held) && held[|held| - 1] == leaf && rootLocked == (held[0] == rootPageId)
      ensures held[0] == rootPageId || |tree.nodes[held[0]].items| < MaxSize(tree.nodes[held[0]].isLeaf, leafMaxSize, internalMaxSize) - 1
      ensures forall i :: 1 <= i < |held| ==>
        |tree.nodes[held[i]].items| >= MaxSize(tree.nodes[held[i]].isLeaf, leafMaxSize, internalMaxSize) - 1
    {
      assert PageOk(tree, rootPageId);
      leaf, held, rootLocked := rootPageId, [rootPageId], true;
      while !pool.nodes[leaf].isLeaf
        invariant leaf in tree.nodes && In(tree.rng[leaf], key)
        invariant HeldPath(tree, held) && held[|held| - 1] == leaf && rootLocked == (held[0] == rootPageId)
        invariant held[0] == rootPageId || CanGrow(tree.nodes[held[0]], leafMaxSize, internalMaxSize)
        invariant forall i :: 1 <= i < |held| ==> !CanGrow(tree.nodes[held[i]], leafMaxSize, internalMaxSize)
        decreases tree.lvl[leaf]
      {
        leaf := ChildFor(leaf, key);
        RootFirst(tree, held);
        if CanGrow(pool.nodes[leaf], leafMaxSize, internalMaxSize) {
          held, rootLocked := ReleaseAll(held, rootLocked);
        }
        held := held + [leaf];
      }
    }

    /**
      Returns false and changes nothing when the key is there.  `latched` are the pages still latched when
      the first page is written: no other page that existed before changes its entries or its link, and the
      root id changes only under the root latch.
     */
    method InsertIntoLeaf(key: Key, value: int) returns (res: bool, ghost latched: seq<PageId>, ghost rootLatched: bool)
      requires Valid() && rootPageId != INVALID_PAGE_ID
      modifies this, pool
      ensures Valid()
      ensures res == (key !in old(contents))
      ensures contents == if res then old(contents)[key := value] else old(contents)
      ensures !res ==> pool.nodes == old(pool.nodes) && rootPageId == old(rootPageId)
      ensures HeldPath(old(tree), latched) && SameBut(old(tree).nodes, tree.nodes, Set(latched))
      ensures rootLatched == (latched[0] == old(rootPageId)) && (rootPageId != old(rootPageId) ==> rootLatched)
      ensures forall i :: 1 <= i < |latched| ==>
        |old(tree).nodes[latched[i]].items| >= MaxSize(old(tree).nodes[latched[i]].isLeaf, leafMaxSize, internalMaxSize) - 1
    {
      var leaf, held, rootLocked := LatchForInsert(key);
      latched, rootLatched := held, rootLocked;
      LeafInsertStep(tree, contents, leafMaxSize, internalMaxSize, leaf, key, value, held);
      var found, _ := pool.LeafLookup(leaf, key);
      if found {
        res := false;
        Unchanged(tree.nodes, Set(held));
      } else {
        res := true;
        var n := pool.LeafInsert(leaf, key, value);
        ghost var start := tree.nodes;
        tree := WithItems(tree, leaf, pool.nodes[leaf].items);
        contents := contents[key := value];
        ghost var written := tree.nodes;
        if n >= leafMaxSize {
          var q := Split(leaf);
          var first := pool.nodes[q].items[0].key;
          InsertIntoParent(leaf, first, q, held);
          Shorter(held);
          SameButTrans(start, written, tree.nodes, {leaf}, Set(held), Set(held));
        } else {
          Shorter(held);
          SameButWider(start, tree.nodes, {leaf}, Set(held));
        }
      }
    }

    /** Create the tree's first page. */
    method StartNewTree(key: Key, value: int)
      requires Valid() && rootPageId == INVALID_PAGE_ID
      modifies this, pool
      ensures Valid() && contents == map[key := value]
    {
      var p := pool.NewPage(true, INVALID_PAGE_ID);
      var _ := pool.LeafInsert(p, key, value);
      rootPageId := p;
      contents := map[key := value];
      tree := Tree(pool.nodes, p, map[p := 0], map[p := FULL]);
      assert pool.nodes[p].items == [Pair(key, value)];
      assert pool.nodes[p].items[0].key == key && HasKey(pool.nodes[p].items, key);
    }

    /** Insert a new key; an old key is refused and changes nothing. */
    method Insert(key: Key, value: int) returns (res: bool)
      requires Valid()
      modifies this, pool
      ensures Valid()
      ensures res == (key !in old(contents))
      ensures contents == if res then old(contents)[key := value] else old(contents)
      ensures !res ==> pool.nodes == old(pool.nodes) && rootPageId == old(rootPageId)
    {
      if rootPageId == INVALID_PAGE_ID {
        StartNewTree(key, value);
        return true;
      }
      ghost var latched, rootLatched;
      res, latched, rootLatched := InsertIntoLeaf(key, value);
    }

    // ---------------------------------------------------------------- deletion

    /** The page table holds the tree and perhaps dead pages: emptied and unlinked, not yet deleted. */
    ghost predicate Holds()
      reads this, pool
    {
      PoolOk() && tree.nodes.Keys <= pool.nodes.Keys &&
      forall x {:trigger pool.nodes[x]} :: x in tree.nodes ==> pool.nodes[x] == tree.nodes[x]
    }

    ghost function Dead(): set<PageId>
      reads this, pool
    {
      pool.nodes.Keys - tree.nodes.Keys
    }

    /** An empty tree, or one in good order. */
    ghost predicate Settled()
      reads this
    {
      if rootPageId == INVALID_PAGE_ID then tree.nodes == map[] && contents == map[] else TreeOk(INVALID_PAGE_ID)
    }

    /** An empty root leaf is given up, an internal root with one child is replaced by that child. */
    method AdjustRoot(p: PageId) returns (res: bool)
      requires Holds() && Underfull(tree, contents, leafMaxSize, internalMaxSize, p) && p == tree.root
      modifies this`tree, this`rootPageId, pool
      ensures Holds() && tree.nodes.Keys <= old(tree).nodes.Keys && Dead() <= old(Dead()) + (if res then {p} else {})
      ensures res ==> p !in tree.nodes
      ensures var n := old(tree).nodes[p]; res <==> if n.isLeaf then |n.items| == 0 else |n.items| == 1
      ensures Settled()
      ensures SameBut(old(tree).nodes, tree.nodes, {p})
    {
      if |pool.nodes[p].items| == 0 && pool.nodes[p].isLeaf {
        EmptyRoot(tree, contents);
        rootPageId := INVALID_PAGE_ID;
        tree := Tree(map[], INVALID_PAGE_ID, map[], map[]);
        return true;
      }
      if |pool.nodes[p].items| == 1 && !pool.nodes[p].isLeaf {
        CollapseStep(tree, contents, leafMaxSize, internalMaxSize);
        NotAPage(tree);
        var child := pool.RemoveAndReturnOnlyChild(p);
        pool.SetParent(child, INVALID_PAGE_ID);
        rootPageId := child;
        tree := Collapse(tree);
        return true;
      }
      RootStays(tree, contents, leafMaxSize, internalMaxSize);
      return false;
    }

    /** The first entry of r goes to the end of its left sibling l. */
    method TakeFirst(up: PageId, j: nat, l: PageId, r: PageId, sep: Key)
      requires Holds() && AreSiblings(tree, up, j, l, r, sep)
      requires 2 <= |tree.nodes[r].items| < MaxSize(tree.nodes[l].isLeaf, leafMaxSize, internalMaxSize)
      requires |tree.nodes[l].items| < MaxSize(tree.nodes[l].isLeaf, leafMaxSize, internalMaxSize)
      modifies pool
      ensures PoolOk() && pool.nodes.Keys == old(pool.nodes.Keys) && TookFirst(tree, up, j, l, r, sep, pool.nodes)
    {
      ghost var was := pool.nodes;
      assert pool.nodes[l] == tree.nodes[l] && pool.nodes[r] == tree.nodes[r] && pool.nodes[up] == tree.nodes[up];
      ghost var moved;
      var child := pool.nodes[r].items[0].val;
      if pool.nodes[l].isLeaf {
        pool.LeafMoveFirstToEndOf(r, l);
        moved := pool.nodes;
      } else {
        ChildPosition(tree, r, 0);
        pool.InternalMoveFirstToEndOf(r, l, sep);
        moved := pool.nodes;
        pool.SetParent(child, l);
      }
      ghost var adopted := pool.nodes;
      pool.SetKeyAt(up, j, pool.nodes[r].items[0].key);
      TookFirstNow(tree, up, j, l, r, sep, was, moved, adopted, pool.nodes);
    }

    /** The last entry of l goes to the front of its right sibling r. */
    method TakeLast(up: PageId, j: nat, l: PageId, r: PageId, sep: Key)
      requires Holds() && AreSiblings(tree, up, j, l, r, sep)
      requires 2 <= |tree.nodes[l].items|
      requires |tree.nodes[r].items| < MaxSize(tree.nodes[l].isLeaf, leafMaxSize, internalMaxSize)
      modifies pool
      ensures PoolOk() && pool.nodes.Keys == old(pool.nodes.Keys) && TookLast(tree, up, j, l, r, sep, pool.nodes)
    {
      ghost var was := pool.nodes;
      assert pool.nodes[l] == tree.nodes[l] && pool.nodes[r] == tree.nodes[r] && pool.nodes[up] == tree.nodes[up];
      if !pool.nodes[l].isLeaf { ChildPosition(tree, l, |tree.nodes[l].items| - 1); }
      ghost var moved := MoveLast(l, r, sep);
      ghost var adopted := pool.nodes;
      assert adopted[up].items == was[up].items;
      pool.SetKeyAt(up, j, pool.nodes[r].items[0].key);
      TookLastNow(tree, up, j, l, r, sep, was, moved, adopted, pool.nodes);
    }

    method MoveLast(l: PageId, r: PageId, middle: Key) returns (ghost moved: map<PageId, Node>)
      requires PoolOk() && l in pool.nodes && pool.Two(l, r, pool.nodes[l].isLeaf)
      requires var a := pool.nodes[l].items; |a| >= 2 && (pool.nodes[l].isLeaf || a[|a| - 1].val in pool.nodes)
      requires |pool.nodes[r].items| < MaxSize(pool.nodes[l].isLeaf, leafMaxSize, internalMaxSize)
      requires pool.nodes[l].isLeaf || |pool.nodes[r].items| >= 1
      modifies pool
      ensures PoolOk() && pool.nodes.Keys == old(pool.nodes.Keys)
      ensures MovedLast(old(pool.nodes), l, r, middle, moved, pool.nodes)
      ensures |pool.nodes[r].items| >= 1
    {
      var last := |pool.nodes[l].items| - 1;
      var child := pool.nodes[l].items[last].val;
      if pool.nodes[l].isLeaf {
        pool.LeafMoveLastToFrontOf(l, r);
        moved := pool.nodes;
      } else {
        pool.InternalMoveLastToFrontOf(l, r, middle);
        moved := pool.nodes;
        pool.SetParent(child, r);
      }
    }

    /** Where a deletion repairs page p: below `up`, at position `index`, with neighbour nb. */
    ghost predicate RepairAt(nb: PageId, p: PageId, up: PageId, index: nat)
      reads this, pool
    {
      Holds() && Underfull(tree, contents, leafMaxSize, internalMaxSize, p) && up in tree.nodes &&
      if index == 0 then |tree.nodes[up].items| >= 2 && AreSiblings(tree, up, 1, p, nb, tree.nodes[up].items[1].key)
      else index < |tree.nodes[up].items| && AreSiblings(tree, up, index, nb, p, tree.nodes[up].items[index].key)
    }

    method TakeFromRight(up: PageId, j: nat, p: PageId, nb: PageId, sep: Key)
      requires Holds() && Underfull(tree, contents, leafMaxSize, internalMaxSize, p)
      requires up in tree.nodes && AreSiblings(tree, up, j, p, nb, sep)
      requires |tree.nodes[p].items| < MaxSize(tree.nodes[p].isLeaf, leafMaxSize, internalMaxSize) / 2
      requires |tree.nodes[p].items| + |tree.nodes[nb].items| >= MaxSize(tree.nodes[p].isLeaf, leafMaxSize, internalMaxSize)
      modifies this`tree, pool
      ensures Holds() && TreeOk(INVALID_PAGE_ID) && SameBut(old(tree).nodes, tree.nodes, {p, nb, up})
      ensures tree.nodes.Keys == old(tree).nodes.Keys && pool.nodes.Keys == old(pool.nodes.Keys)
      ensures |tree.nodes[p].items| == |old(tree).nodes[p].items| + 1 && |tree.nodes[nb].items| == |old(tree).nodes[nb].items| - 1
    {
      assert FillOk(tree, leafMaxSize, internalMaxSize, nb);
      TakeFirst(up, j, p, nb, sep);
      tree := TookFirstStep(tree, contents, leafMaxSize, internalMaxSize, up, j, p, nb, sep, Dead(), pool.nodes);
    }

    method TakeFromLeft(up: PageId, j: nat, nb: PageId, p: PageId, sep: Key)
      requires Holds() && Underfull(tree, contents, leafMaxSize, internalMaxSize, p)
      requires up in tree.nodes && AreSiblings(tree, up, j, nb, p, sep)
      requires |tree.nodes[p].items| < MaxSize(tree.nodes[p].isLeaf, leafMaxSize, internalMaxSize) / 2
      requires |tree.nodes[p].items| + |tree.nodes[nb].items| >= MaxSize(tree.nodes[p].isLeaf, leafMaxSize, internalMaxSize)
      modifies this`tree, pool
      ensures Holds() && TreeOk(INVALID_PAGE_ID) && SameBut(old(tree).nodes, tree.nodes, {p, nb, up})
      ensures tree.nodes.Keys == old(tree).nodes.Keys && pool.nodes.Keys == old(pool.nodes.Keys)
      ensures |tree.nodes[p].items| == |old(tree).nodes[p].items| + 1 && |tree.nodes[nb].items| == |old(tree).nodes[nb].items| - 1
    {
      assert FillOk(tree, leafMaxSize, internalMaxSize, nb);
      TakeLast(up, j, nb, p, sep);
      tree := TookLastStep(tree, contents, leafMaxSize, internalMaxSize, up, j, nb, p, sep, Dead(), pool.nodes);
    }

    /** Move one entry over from the neighbour, under the parent's separating key. */
    method Redistribute(nb: PageId, p: PageId, up: PageId, index: nat)
      requires RepairAt(nb, p, up, index)
      requires |tree.nodes[p].items| < MaxSize(tree.nodes[p].isLeaf, leafMaxSize, internalMaxSize) / 2
      requires |tree.nodes[p].items| + |tree.nodes[nb].items| >= MaxSize(tree.nodes[p].isLeaf, leafMaxSize, internalMaxSize)
      modifies this`tree, pool
      ensures Holds() && TreeOk(INVALID_PAGE_ID) && SameBut(old(tree).nodes, tree.nodes, {p, nb, up})
      ensures tree.nodes.Keys == old(tree).nodes.Keys && pool.nodes.Keys == old(pool.nodes.Keys)
      ensures |tree.nodes[p].items| == |old(tree).nodes[p].items| + 1 && |tree.nodes[nb].items| == |old(tree).nodes[nb].items| - 1
    {
      if index == 0 {
        TakeFromRight(up, 1, p, nb, pool.nodes[up].items[1].key);
      } else {
        TakeFromLeft(up, index, nb, p, pool.nodes[up].items[index].key);
      }
    }

    /** Empty r into its left sibling l and drop it from their parent. */
    method MergeInto(up: PageId, j: nat, l: PageId, r: PageId, ghost sep: Key) returns (n: nat)
      requires Holds() && AreSiblings(tree, up, j, l, r, sep)
      requires |tree.nodes[l].items| + |tree.nodes[r].items| < MaxSize(tree.nodes[l].isLeaf, leafMaxSize, internalMaxSize)
      modifies pool
      ensures PoolOk() && pool.nodes.Keys == old(pool.nodes.Keys)
      ensures Merged(tree, up, j, l, r, sep, pool.nodes) && n == |pool.nodes[up].items|
    {
      ghost var was := pool.nodes;
      assert pool.nodes[l] == tree.nodes[l] && pool.nodes[r] == tree.nodes[r] && pool.nodes[up] == tree.nodes[up];
      if pool.nodes[r].isLeaf {
        pool.LeafMoveAllTo(r, l);
        n := pool.InternalRemove(up, j);
        LeavesMerged(tree, up, j, l, r, sep, was, pool.nodes);
      } else {
        AdoptAll(up, j, l, r, sep);
        n := pool.InternalRemove(up, j);
        ghost var kids := tree.nodes[r].items[0 := Pair(sep, tree.nodes[r].items[0].val)];
        InternalsMerged(tree, up, j, l, r, sep, was, kids, pool.nodes);
      }
    }

    /** MoveAllTo on internal pages. */
    method AdoptAll(up: PageId, j: nat, l: PageId, r: PageId, ghost sep: Key)
      requires Holds() && AreSiblings(tree, up, j, l, r, sep) && !tree.nodes[r].isLeaf
      requires |tree.nodes[l].items| + |tree.nodes[r].items| < internalMaxSize
      modifies pool
      ensures PoolOk() && pool.nodes.Keys == old(pool.nodes.Keys)
      ensures var kids := tree.nodes[r].items[0 := Pair(sep, tree.nodes[r].items[0].val)]; var was := old(pool.nodes);
        pool.nodes == Adopt(was[r := was[r].(items := [])][l := was[l].(items := was[l].items + kids)], kids, l)
    {
      assert pool.nodes[l] == tree.nodes[l] && pool.nodes[r] == tree.nodes[r] && pool.nodes[up] == tree.nodes[up];
      ghost var was, kids := pool.nodes, tree.nodes[r].items[0 := Pair(sep, tree.nodes[r].items[0].val)];
      var size := |pool.nodes[l].items|;
      pool.InternalMoveAllTo(r, l, pool.nodes[up].items[j].key);
      assert pool.nodes == was[r := was[r].(items := [])][l := was[l].(items := was[l].items + kids)];
      assert pool.nodes[l].items[size..size + |kids|] == kids;
      forall i | size <= i < size + |kids| ensures pool.nodes[l].items[i].val in pool.nodes {
        assert pool.nodes[l].items[i].val == tree.nodes[r].items[i - size].val;
        ChildPosition(tree, r, i - size);
      }
      ghost var moved := pool.nodes;
      pool.AdoptChildren(l, size, |pool.nodes[l].items|);
      assert pool.nodes == Adopt(moved, kids, l);
    }

    /** The outcome of a repair that began with tree t and the pages `was`. */
    ghost predicate RepairDone(t: Tree, was: set<PageId>, held: seq<PageId>, deleted: set<PageId>, siblings: set<PageId>, extra: set<PageId>)
      reads this, pool
    {
      Holds() && Settled() && Repaired(t, was, tree, pool.nodes.Keys, held, deleted, siblings, extra)
    }

    /**
      Repair page p, at the end of the retained path `held`.  Returns whether a page was given up, and the pages
      to be deleted when the latches are released.
     */
    method CoalesceOrRedistribute(p: PageId, ghost held: seq<PageId>)
      returns (res: bool, deleted: set<PageId>, ghost siblings: set<PageId>)
      requires Holds() && Underfull(tree, contents, leafMaxSize, internalMaxSize, p)
      requires |tree.nodes[p].items| < MaxSize(tree.nodes[p].isLeaf, leafMaxSize, internalMaxSize) / 2
      requires HeldForRemove(tree, held, p, leafMaxSize, internalMaxSize)
      modifies this`tree, this`rootPageId, pool
      ensures RepairDone(old(tree), old(pool.nodes.Keys), held, deleted, siblings, {})
      ensures var n := old(tree).nodes[p]; p == old(tree).root ==> (res <==> if n.isLeaf then |n.items| == 0 else |n.items| == 1)
      ensures forall x :: p != old(tree).root && IsNeighbour(old(tree).nodes, old(tree).nodes[p].parent, p, x) ==>
        (res <==> |old(tree).nodes[p].items| + |old(tree).nodes[x].items| < MaxSize(old(tree).nodes[p].isLeaf, leafMaxSize, internalMaxSize))
      decreases |held|, 2
    {
      assert PageOk(tree, p);
      if pool.nodes[p].parent == INVALID_PAGE_ID {
        ghost var start, was := tree, pool.nodes.Keys;
        RootFirst(tree, held);
        res := AdjustRoot(p);
        deleted, siblings := if res then {p} else {}, {};
        RepairedRoot(start, tree, was, pool.nodes.Keys, held, p, res);
        return;
      }
      var up, index, nb := Neighbour(p, held);
      res, deleted, siblings := RepairWith(nb, p, up, index, held);
    }

    /** Merge p with its neighbour if both together are less than a full page, and else take one entry from it. */
    method RepairWith(nb: PageId, p: PageId, up: PageId, index: nat, ghost held: seq<PageId>)
      returns (res: bool, deleted: set<PageId>, ghost siblings: set<PageId>)
      requires RepairAt(nb, p, up, index) && HeldForRemove(tree, held, p, leafMaxSize, internalMaxSize) && p != tree.root
      requires |tree.nodes[p].items| < MaxSize(tree.nodes[p].isLeaf, leafMaxSize, internalMaxSize) / 2
      requires |held| >= 2 && held[|held| - 2] == up && IsNeighbour(tree.nodes, up, p, nb)
      modifies this`tree, this`rootPageId, pool
      ensures RepairDone(old(tree), old(pool.nodes.Keys), held, deleted, siblings, {})
      ensures res <==> |old(tree).nodes[p].items| + |old(tree).nodes[nb].items| < MaxSize(old(tree).nodes[p].isLeaf, leafMaxSize, internalMaxSize)
      decreases |held|, 1
    {
      ghost var start, was := tree, pool.nodes.Keys;
      if |pool.nodes[p].items| + |pool.nodes[nb].items| >= MaxSize(pool.nodes[p].isLeaf, leafMaxSize, internalMaxSize) {
        Redistribute(nb, p, up, index);
        RepairedHere(start, tree, was, held, p, up, nb);
        return false, {}, {nb};
      }
      deleted, siblings := Coalesce(nb, p, up, index, held);
      if index == 0 {
        RepairedBeside(start, was, tree, pool.nodes.Keys, held, deleted, siblings, nb);
        pool.DeletePage(nb);
      }
      res := true;
    }

    /** The right neighbour of a leftmost page, the left neighbour of any other. */
    method Neighbour(p: PageId, ghost held: seq<PageId>) returns (up: PageId, index: nat, nb: PageId)
      requires Holds() && Underfull(tree, contents, leafMaxSize, internalMaxSize, p) && p != tree.root
      requires HeldForRemove(tree, held, p, leafMaxSize, internalMaxSize)
      ensures RepairAt(nb, p, up, index) && up == tree.nodes[p].parent && up in Set(held)
      ensures |held| >= 2 && held[|held| - 2] == up && IsNeighbour(tree.nodes, up, p, nb)
    {
      ghost var _, i := Up(tree, p);
      up := pool.nodes[p].parent;
      assert FillOk(tree, leafMaxSize, internalMaxSize, up) && PageOk(tree, up);
      index := pool.ValueIndex(up, p);
      nb := pool.nodes[up].items[if index == 0 then 1 else index - 1].val;
      ghost var _, _, _ := TreeSteps.Siblings(tree, up, if index == 0 then 1 else index);
      assert |held| >= 2 && held[|held| - 2] == up;
    }

    /** Merge p with its neighbour, the right one of the two being emptied, and repair their parent if need be. */
    method Coalesce(nb: PageId, p: PageId, up: PageId, index: nat, ghost held: seq<PageId>)
      returns (deleted: set<PageId>, ghost siblings: set<PageId>)
      requires RepairAt(nb, p, up, index) && HeldForRemove(tree, held, p, leafMaxSize, internalMaxSize)
      requires |tree.nodes[p].items| + |tree.nodes[nb].items| < MaxSize(tree.nodes[p].isLeaf, leafMaxSize, internalMaxSize)
      modifies this`tree, this`rootPageId, pool
      ensures RepairDone(old(tree), old(pool.nodes.Keys), held, deleted, siblings, if index == 0 then {nb} else {})
      ensures nb in siblings && (index == 0 ==> nb !in tree.nodes)
      decreases |held|, 0
    {
      var left, right, index2 := nb, p, index;
      if index == 0 {
        left, right, index2 := p, nb, 1;
      }
      ghost var start, was := tree, pool.nodes.Keys;
      var n := MergeSiblings(up, index2, left, right, p, held);
      ghost var merged, mid := tree, pool.nodes.Keys;
      deleted, siblings := RepairParent(up, n, held[..|held| - 1]);
      RepairedAbove(start, was, merged, mid, tree, pool.nodes.Keys, held, p, nb, up, right, deleted, siblings);
      deleted, siblings := deleted + (if right == p then {p} else {}), siblings + {nb};
    }

    /** Go on with the parent when the merge left it underfull. */
    method RepairParent(up: PageId, n: nat, ghost held: seq<PageId>) returns (deleted: set<PageId>, ghost siblings: set<PageId>)
      requires Holds() && Underfull(tree, contents, leafMaxSize, internalMaxSize, up)
      requires n == |tree.nodes[up].items| && !tree.nodes[up].isLeaf && |held| >= 1
      requires if n >= internalMaxSize / 2 then TreeOk(INVALID_PAGE_ID)
        else HeldForRemove(tree, held, up, leafMaxSize, internalMaxSize)
      modifies this`tree, this`rootPageId, pool
      ensures RepairDone(old(tree), old(pool.nodes.Keys), held, deleted, siblings, {})
      decreases |held|, 3
    {
      deleted, siblings := {}, {};
      if n < internalMaxSize / 2 {
        var res;
        res, deleted, siblings := CoalesceOrRedistribute(up, held);
      } else {
        RepairedNothing(tree, pool.nodes.Keys, held);
        assert rootPageId != INVALID_PAGE_ID by { NotAPage(tree); }
      }
    }

    method MergeSiblings(up: PageId, j: nat, l: PageId, r: PageId, ghost p: PageId, ghost held: seq<PageId>) returns (n: nat)
      requires Holds() && Underfull(tree, contents, leafMaxSize, internalMaxSize, p) && (p == l || p == r)
      requires up in tree.nodes && j < |tree.nodes[up].items| && AreSiblings(tree, up, j, l, r, tree.nodes[up].items[j].key)
      requires |tree.nodes[l].items| + |tree.nodes[r].items| < MaxSize(tree.nodes[l].isLeaf, leafMaxSize, internalMaxSize)
      requires HeldForRemove(tree, held, p, leafMaxSize, internalMaxSize)
      modifies this`tree, pool
      ensures Holds() && tree.nodes.Keys <= old(tree).nodes.Keys && r !in tree.nodes && Dead() <= old(Dead()) + {r}
      ensures |held| >= 2 && held[|held| - 2] == up
      ensures Underfull(tree, contents, leafMaxSize, internalMaxSize, up) && n == |tree.nodes[up].items| && !tree.nodes[up].isLeaf
      ensures n >= internalMaxSize / 2 ==> TreeOk(INVALID_PAGE_ID)
      ensures n < internalMaxSize / 2 ==> HeldForRemove(tree, held[..|held| - 1], up, leafMaxSize, internalMaxSize)
      ensures SameBut(old(tree).nodes, tree.nodes, {l, r, up})
      ensures SameAbove(old(tree).nodes, tree.nodes, held)
    {
      ghost var sep := tree.nodes[up].items[j].key;
      n := MergeInto(up, j, l, r, sep);
      tree := CoalesceStep(tree, contents, leafMaxSize, internalMaxSize, p, up, j, l, r, sep, Dead(), pool.nodes, held);
    }

    /** The descent of a deletion: ancestors are released at every page that can give up one entry, so that none such is behind the first. */
    method LatchForRemove(key: Key) returns (leaf: PageId, held: seq<PageId>, rootLocked: bool)
      requires Valid() && rootPageId != INVALID_PAGE_ID
      ensures leaf in tree.nodes && tree.nodes[leaf].isLeaf && In(tree.rng[leaf], key)
      ensures HeldPath(tree, held) && held[|held| - 1] == leaf && rootLocked == (held[0] == rootPageId)
      ensures held[0] == rootPageId || |tree.nodes[held[0]].items| > MaxSize(tree.nodes[held[0]].isLeaf, leafMaxSize, internalMaxSize) / 2
      ensures forall i :: 1 <= i < |held| ==>
        |tree.nodes[held[i]].items| <= MaxSize(tree.nodes[held[i]].isLeaf, leafMaxSize, internalMaxSize) / 2
    {
      assert PageOk(tree, rootPageId);
      leaf, held, rootLocked := rootPageId, [rootPageId], true;
      while !pool.nodes[leaf].isLeaf
        invariant leaf in tree.nodes && In(tree.rng[leaf], key)
        invariant HeldPath(tree, held) && held[|held| - 1] == leaf && rootLocked == (held[0] == rootPageId)
        invariant held[0] == rootPageId || CanShrink(tree.nodes[held[0]], leafMaxSize, internalMaxSize)
        invariant forall i :: 1 <= i < |held| ==> !CanShrink(tree.nodes[held[i]], leafMaxSize, internalMaxSize)
        decreases tree.lvl[leaf]
      {
        leaf := ChildFor(leaf, key);
        RootFirst(tree, held);
        if CanShrink(pool.nodes[leaf], leafMaxSize, internalMaxSize) {
          held, rootLocked := ReleaseAll(held, rootLocked);
        }
        held := held + [leaf];
      }
    }

    /** Release the retained pages, deleting those marked for it. */
    method ReleaseAndDelete(held: seq<PageId>, deleted: set<PageId>)
      requires Holds() && deleted <= Set(held) && Dead() <= deleted && forall x :: x in deleted ==> x !in tree.nodes
      modifies pool
      ensures PoolOk() && pool.nodes == tree.nodes
    {
      var i := 0;
      while i < |held|
        invariant 0 <= i <= |held| && Holds()
        invariant forall x :: x in pool.nodes && x !in tree.nodes ==> x in deleted && x !in held[..i]
      {
        assert held[..i + 1] == held[..i] + [held[i]];
        if held[i] in deleted {
          pool.DeletePage(held[i]);
        }
        i := i + 1;
      }
      assert held[..|held|] == held;
      assert forall x :: x in deleted ==> x in Set(held);
      assert forall x :: x in pool.nodes ==> x in tree.nodes;
      assert pool.nodes.Keys == tree.nodes.Keys;
      SameNodes(pool.nodes, tree.nodes);
    }

    /**
      Remove a key if it is there.  `latched` are the retained pages and `siblings` the neighbours latched on the
      way up: no other page that existed before changes its entries or its link, and the root id changes only
      under the root latch.
     */
    method Remove(key: Key) returns (ghost latched: seq<PageId>, ghost siblings: set<PageId>, ghost rootLatched: bool)
      requires Valid()
      modifies this, pool
      ensures Valid() && contents == old(contents) - {key}
      ensures old(rootPageId) == INVALID_PAGE_ID ==> rootPageId == INVALID_PAGE_ID
      ensures old(rootPageId) != INVALID_PAGE_ID ==>
        HeldPath(old(tree), latched) && BesideHeld(old(tree).nodes, siblings, latched) &&
        SameBut(old(tree).nodes, tree.nodes, Set(latched) + siblings) && rootLatched == (latched[0] == old(rootPageId)) &&
        forall i :: 1 <= i < |latched| ==>
          |old(tree).nodes[latched[i]].items| <= MaxSize(old(tree).nodes[latched[i]].isLeaf, leafMaxSize, internalMaxSize) / 2
      ensures rootPageId != old(rootPageId) ==> rootLatched
    {
      latched, siblings, rootLatched := [], {}, true;
      if rootPageId == INVALID_PAGE_ID {
        assert contents - {key} == contents;
        return;
      }
      var leaf, held, rootLocked := LatchForRemove(key);
      latched, rootLatched := held, rootLocked;
      ghost var start := tree;
      LeafRemoveStep(tree, contents, leafMaxSize, internalMaxSize, leaf, key, held);
      var n := pool.LeafRemove(leaf, key);
      tree := WithItems(tree, leaf, pool.nodes[leaf].items);
      contents := contents - {key};
      var deleted := {};
      if n < leafMaxSize / 2 {
        deleted, siblings := RepairLeaf(start, leaf, held);
      } else {
        SameButWider(start.nodes, tree.nodes, Set(held), Set(held) + siblings);
        NotAPage(tree);
      }
      ReleaseAndDelete(held, deleted);
    }

    method RepairLeaf(ghost start: Tree, leaf: PageId, ghost held: seq<PageId>) returns (deleted: set<PageId>, ghost siblings: set<PageId>)
      requires PoolOk() && pool.nodes == tree.nodes && Underfull(tree, contents, leafMaxSize, internalMaxSize, leaf)
      requires HeldForRemove(tree, held, leaf, leafMaxSize, internalMaxSize)
      requires |tree.nodes[leaf].items| < leafMaxSize / 2 && tree.nodes[leaf].isLeaf
      requires leaf in start.nodes && tree == WithItems(start, leaf, tree.nodes[leaf].items)
      requires SameBut(start.nodes, tree.nodes, Set(held))
      modifies this`tree, this`rootPageId, pool
      ensures Holds() && Settled() && deleted <= Set(held) && Dead() <= deleted && forall x :: x in deleted ==> x !in tree.nodes
      ensures BesideHeld(start.nodes, siblings, held) && SameBut(start.nodes, tree.nodes, Set(held) + siblings)
      ensures rootPageId != old(rootPageId) ==> held[0] == old(rootPageId)
    {
      ghost var items, was := tree.nodes[leaf].items, pool.nodes.Keys;
      assert forall i :: 0 <= i < |held| - 1 ==> held[i] != leaf by {
        assert forall i :: 0 <= i < |held| ==> tree.lvl[held[i]] + i == tree.lvl[held[0]];
      }
      var res;
      res, deleted, siblings := CoalesceOrRedistribute(leaf, held);
      RepairedLeaf(start, leaf, items, was, tree, pool.nodes.Keys, held, deleted, siblings);
    }
  }
}
