/**
  The sequential scan of a table heap: live tuples in the order of the page chain and of the slots.
 */
module TableIterators {
  import opened TablePages
  import opened Rollbacks
  import opened TableHeaps

  function IndexIn(chain: seq<PageId>, p: PageId): (i: nat)
    ensures i <= |chain| && (i < |chain| ==> chain[i] == p) && forall j :: 0 <= j < i ==> chain[j] != p
  {
    if chain == [] || chain[0] == p then 0 else 1 + IndexIn(chain[1..], p)
  }

  /** r lies before the k-th slot of the i-th page. */
  predicate Earlier(chain: seq<PageId>, r: Rid, i: nat, k: nat) {
    var j := IndexIn(chain, r.page);
    j < i || (j == i && r.slot < k)
  }

  /** The pages from the i-th up to the j-th hold no live tuple. */
  ghost predicate NoneLive(t: Table, chain: seq<PageId>, i: nat, j: nat)
    requires j <= |chain|
  {
    forall m :: i <= m < j ==> chain[m] in t && NextLive(t[chain[m]], 0) == |t[chain[m]]|
  }

  /** `out` lists exactly the live tuples before a position, in scan order. */
  ghost predicate Visited(t: Table, chain: seq<PageId>, out: seq<Rid>, i: nat, k: nat) {
    (forall r :: r in out <==> CellAt(t, r).Live? && Earlier(chain, r, i, k)) &&
    forall a, b :: 0 <= a < b < |out| ==> Earlier(chain, out[a], IndexIn(chain, out[b].page), out[b].slot)
  }

  ghost predicate Chained(t: Table, chain: seq<PageId>) {
    (forall i, j :: 0 <= i < j < |chain| ==> chain[i] != chain[j]) &&
    (forall i :: 0 <= i < |chain| ==> chain[i] in t) && forall p :: p in t ==> p in chain
  }

  /** From the k-th slot of page i on, the first live slot is the l-th of page j (none, if j is behind the chain). */
  ghost predicate Moved(t: Table, chain: seq<PageId>, i: nat, k: nat, j: nat, l: nat)
    requires Chained(t, chain) && i < |chain| && k <= |t[chain[i]]| && i <= j <= |chain|
  {
    if j == i then l == NextLive(t[chain[i]], k)
    else
      NextLive(t[chain[i]], k) == |t[chain[i]]| && NoneLive(t, chain, i + 1, j) &&
      (j < |chain| ==> l == NextLive(t[chain[j]], 0))
  }

  /** Positions between which nothing is live are as good as each other. */
  lemma Skip(t: Table, chain: seq<PageId>, out: seq<Rid>, i: nat, k: nat, j: nat, l: nat)
    requires Chained(t, chain) && Visited(t, chain, out, i, k) && i < |chain| && k <= |t[chain[i]]| && i <= j <= |chain|
    requires Moved(t, chain, i, k, j, l) && (j == |chain| ==> l == 0)
    ensures Visited(t, chain, out, j, l)
  {}

  /** One more tuple is visited. */
  lemma VisitOne(t: Table, chain: seq<PageId>, out: seq<Rid>, i: nat, k: nat)
    requires Chained(t, chain) && Visited(t, chain, out, i, k) && i < |chain| && k < |t[chain[i]]| && t[chain[i]][k].Live?
    ensures Visited(t, chain, out + [Rid(chain[i], k)], i, k + 1) && Rid(chain[i], k) !in out
  {}

  lemma VisitAndMove(t: Table, chain: seq<PageId>, out: seq<Rid>, i: nat, k: nat, j: nat, l: nat)
    requires Chained(t, chain) && Visited(t, chain, out, i, k) && i < |chain| && k < |t[chain[i]]| && t[chain[i]][k].Live?
    requires i <= j <= |chain| && Moved(t, chain, i, k + 1, j, l) && (j == |chain| ==> l == 0)
    ensures Visited(t, chain, out + [Rid(chain[i], k)], j, l)
  {
    VisitOne(t, chain, out, i, k);
    Skip(t, chain, out + [Rid(chain[i], k)], i, k + 1, j, l);
  }

  /** The tuples are those of the listed records. */
  ghost predicate Reads(t: Table, out: seq<Rid>, tuples: seq<Tuple>) {
    |tuples| == |out| && forall a :: 0 <= a < |out| ==> CellAt(t, out[a]) == Live(tuples[a])
  }

  lemma ReadsPush(t: Table, out: seq<Rid>, tuples: seq<Tuple>, r: Rid, x: Tuple)
    requires Reads(t, out, tuples) && CellAt(t, r) == Live(x)
    ensures Reads(t, out + [r], tuples + [x])
  {}

  class TableIterator {
    const heap: TableHeap
    var rid: Rid
    var tuple: Tuple

    /** The iterator stands at a live tuple of the i-th page, or behind the last one. */
    ghost predicate At(i: nat)
      reads this, heap
    {
      i <= |heap.chain| &&
      if i == |heap.chain| then rid.page == INVALID_PAGE_ID && rid.slot == 0
      else rid.page == heap.chain[i] != INVALID_PAGE_ID && CellAt(heap.View(), rid) == Live(tuple)
    }

    constructor (heap: TableHeap, rid: Rid)
      requires heap.Valid() && (rid.page == INVALID_PAGE_ID || CellAt(heap.View(), rid).Live?)
      ensures this.heap == heap && this.rid == rid && (rid.page != INVALID_PAGE_ID ==> CellAt(heap.View(), rid) == Live(tuple))
    {
      this.heap, this.rid, tuple := heap, rid, [];
      new;
      if rid.page != INVALID_PAGE_ID {
        var _, t := heap.GetTuple(rid);
        tuple := t;
      }
    }

    /** The first live tuple of the pages from p on. */
    static method Seek(heap: TableHeap, p: PageId, ghost i: nat) returns (rid: Rid, ghost j: nat)
      requires heap.Valid() && i <= |heap.chain| && p == (if i < |heap.chain| then heap.chain[i] else INVALID_PAGE_ID)
      ensures i <= j <= |heap.chain| && NoneLive(heap.View(), heap.chain, i, j)
      ensures if j == |heap.chain| then rid == Rid(INVALID_PAGE_ID, 0)
        else rid.page == heap.chain[j] != INVALID_PAGE_ID && CellAt(heap.View(), rid).Live? && rid.slot == NextLive(heap.View()[rid.page], 0)
    {
      var page := p;
      j := i;
      while page != INVALID_PAGE_ID
        invariant i <= j <= |heap.chain| && NoneLive(heap.View(), heap.chain, i, j)
        invariant page == (if j < |heap.chain| then heap.chain[j] else INVALID_PAGE_ID)
        decreases |heap.chain| - j
      {
        NextIs(heap.pages, heap.nextPageId, heap.firstPageId, heap.chain, j);
        var table := heap.FetchPage(page);
        var found, slot := table.GetFirstTupleRid();
        if found {
          return Rid(page, slot), j;
        }
        page, j := heap.pages[page].next, j + 1;
      }
      if j < |heap.chain| { NextIs(heap.pages, heap.nextPageId, heap.firstPageId, heap.chain, j); }
      return Rid(INVALID_PAGE_ID, 0), j;
    }

    static lemma HeapChained(heap: TableHeap)
      requires heap.Valid()
      ensures Chained(heap.View(), heap.chain)
    {
      forall i | 0 <= i < |heap.chain| ensures heap.chain[i] in heap.pages {
        assert LinkOk(heap.pages, heap.chain, i);
      }
    }

    static method Begin(heap: TableHeap) returns (it: TableIterator, ghost i: nat)
      requires heap.Valid()
      ensures fresh(it) && it.heap == heap && it.At(i) && NoneLive(heap.View(), heap.chain, 0, i)
      ensures i < |heap.chain| ==> it.rid.slot == NextLive(heap.View()[it.rid.page], 0)
    {
      HeapChained(heap);
      var rid;
      rid, i := Seek(heap, heap.firstPageId, 0);
      it := new TableIterator(heap, rid);
    }

    /** operator++: on in the page, or to the first live tuple of the pages behind it. */
    method Next(ghost i: nat) returns (ghost j: nat)
      requires heap.Valid() && Chained(heap.View(), heap.chain) && At(i) && i < |heap.chain|
      modifies this
      ensures At(j) && i <= j
      ensures var t, k := heap.View(), old(rid.slot) + 1;
        Moved(t, heap.chain, i, k, j, rid.slot)
    {
      var page := heap.FetchPage(rid.page);
      var found, slot := page.GetNextTupleRid(rid.slot);
      if found {
        rid, j := Rid(rid.page, slot), i;
      } else {
        NextIs(heap.pages, heap.nextPageId, heap.firstPageId, heap.chain, i);
        rid, j := Seek(heap, page.nextPageId, i + 1);
      }
      if rid.page != INVALID_PAGE_ID {
        var _, t := heap.GetTuple(rid);
        tuple := t;
      }
    }
  }

  /** A scan from Begin to End visits every live tuple exactly once, in chain and slot order, and reads its bytes. */
  method Scan(heap: TableHeap) returns (out: seq<Rid>, tuples: seq<Tuple>)
    requires heap.Valid()
    ensures forall r :: r in out <==> CellAt(heap.View(), r).Live?
    ensures forall a, b :: 0 <= a < b < |out| ==> Earlier(heap.chain, out[a], IndexIn(heap.chain, out[b].page), out[b].slot)
    ensures |tuples| == |out| && forall a :: 0 <= a < |out| ==> CellAt(heap.View(), out[a]) == Live(tuples[a])
  {
    ghost var t, chain := heap.View(), heap.chain;
    out, tuples := [], [];
    var it;
    ghost var i;
    TableIterator.HeapChained(heap);
    it, i := TableIterator.Begin(heap);
    Skip(t, chain, out, 0, 0, i, it.rid.slot);
    while it.rid.page != INVALID_PAGE_ID
      invariant it.heap == heap && fresh(it) && it.At(i) && Visited(t, chain, out, i, it.rid.slot) && Reads(t, out, tuples)
      decreases |chain| - i, if i < |chain| then |t[chain[i]]| - it.rid.slot else 0
    {
      ghost var k, before := it.rid.slot, out;
      ReadsPush(t, out, tuples, it.rid, it.tuple);
      out, tuples := out + [it.rid], tuples + [it.tuple];
      ghost var j := it.Next(i);
      VisitAndMove(t, chain, before, i, k, j, it.rid.slot);
      i := j;
    }
    AllVisited(t, chain, out);
  }

  lemma AllVisited(t: Table, chain: seq<PageId>, out: seq<Rid>)
    requires Chained(t, chain) && Visited(t, chain, out, |chain|, 0)
    ensures forall r :: r in out <==> CellAt(t, r).Live?
  {}
}
