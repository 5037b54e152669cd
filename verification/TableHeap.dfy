/**
  The table heap: a chain of slotted pages, filled first fit.  Every operation works on a page fetched from the
  buffer pool and written back; the pool always has a frame.
 */
module TableHeaps {
  import opened TablePages
  import opened Rollbacks

  /** t holds the cells of the stored pages. */
  ghost predicate IsTable(pages: map<PageId, Stored>, t: Table) {
    (forall p :: p in pages <==> p in t) && forall p {:trigger ViewOf(pages[p])} :: p in pages ==> t[p] == ViewOf(pages[p])
  }

  lemma NewTable(pages: map<PageId, Stored>, t: Table, last: PageId, p: PageId, s: Stored)
    requires IsTable(pages, t) && last in pages && p !in pages
    ensures IsTable(pages[last := pages[last].(next := p)][p := s], t[p := ViewOf(s)])
  {
    var pages' := pages[last := pages[last].(next := p)][p := s];
    forall q | q in pages' ensures t[p := ViewOf(s)][q] == ViewOf(pages'[q]) {
      if q != p { assert t[q] == ViewOf(pages[q]) == ViewOf(pages'[q]); }
    }
  }

  /** The pages follow one another by their links, each once, from the first one to the last and back. */
  ghost predicate ChainOk(pages: map<PageId, Stored>, first: PageId, chain: seq<PageId>) {
    |chain| >= 1 && chain[0] == first && (forall i, j :: 0 <= i < j < |chain| ==> chain[i] != chain[j]) &&
    (forall i {:trigger LinkOk(pages, chain, i)} :: 0 <= i < |chain| ==> LinkOk(pages, chain, i)) &&
    forall p :: p in pages ==> p in chain
  }

  ghost predicate LinkOk(pages: map<PageId, Stored>, chain: seq<PageId>, i: nat)
    requires i < |chain|
  {
    chain[i] in pages && pages[chain[i]].next == (if i + 1 < |chain| then chain[i + 1] else INVALID_PAGE_ID) &&
    pages[chain[i]].prev == if i > 0 then chain[i - 1] else INVALID_PAGE_ID
  }

  /** Where the link of the i-th page leads. */
  lemma NextIs(pages: map<PageId, Stored>, fresh': PageId, first: PageId, chain: seq<PageId>, i: nat)
    requires PagesOk(pages, fresh') && ChainOk(pages, first, chain) && i < |chain|
    ensures chain[i] in pages
    ensures if i + 1 == |chain| then pages[chain[i]].next == INVALID_PAGE_ID
      else pages[chain[i]].next == chain[i + 1] && chain[i + 1] in pages && chain[i + 1] != INVALID_PAGE_ID
  {
    assert LinkOk(pages, chain, i);
    if i + 1 < |chain| {
      assert LinkOk(pages, chain, i + 1);
      assert 0 <= chain[i + 1];
    }
  }

  lemma ChainKeeps(pages: map<PageId, Stored>, first: PageId, chain: seq<PageId>, p: PageId, s: Stored)
    requires ChainOk(pages, first, chain) && p in pages && s.next == pages[p].next && s.prev == pages[p].prev
    ensures ChainOk(pages[p := s], first, chain)
  {
    var pages' := pages[p := s];
    forall i | 0 <= i < |chain| ensures LinkOk(pages', chain, i) { assert LinkOk(pages, chain, i); }
  }

  lemma ChainGrows(pages: map<PageId, Stored>, first: PageId, chain: seq<PageId>, p: PageId, s: Stored)
    requires ChainOk(pages, first, chain) && p !in pages && s.next == INVALID_PAGE_ID && s.prev == chain[|chain| - 1]
    ensures var last := chain[|chain| - 1]; last in pages && ChainOk(pages[last := pages[last].(next := p)][p := s], first, chain + [p])
  {
    var last, n := chain[|chain| - 1], |chain|;
    assert LinkOk(pages, chain, n - 1);
    var pages', chain' := pages[last := pages[last].(next := p)][p := s], chain + [p];
    forall i | 0 <= i < n ensures chain[i] in pages { assert LinkOk(pages, chain, i); }
    forall i | 0 <= i < |chain'| ensures LinkOk(pages', chain', i) {
      if i < n - 1 { assert LinkOk(pages, chain, i); }
    }
  }

  ghost predicate PagesOk(pages: map<PageId, Stored>, fresh': PageId) {
    (forall p :: p in pages ==> 0 <= p < fresh') && forall p {:trigger StoredOk(pages[p])} :: p in pages ==> StoredOk(pages[p])
  }

  class TableHeap {
    const firstPageId: PageId
    var pages: map<PageId, Stored>
    var nextPageId: PageId  // the next page id the disk manager hands out
    ghost var chain: seq<PageId>
    ghost var table: Table

    ghost predicate Valid()
      reads this
    {
      PagesOk(pages, nextPageId) && ChainOk(pages, firstPageId, chain) && IsTable(pages, table)
    }

    ghost function View(): Table
      reads this
    {
      table
    }

    constructor (nextPageId: PageId)
      requires nextPageId >= 0
      ensures Valid() && firstPageId == nextPageId && chain == [firstPageId] && View() == map[firstPageId := []]
    {
      var page := new TablePage(nextPageId, INVALID_PAGE_ID);
      firstPageId := nextPageId;
      pages := map[nextPageId := page.Store()];
      this.nextPageId := nextPageId + 1;
      chain, table := [nextPageId], map[nextPageId := []];
      new;
      assert ViewOf(pages[nextPageId]) == [];
      assert LinkOk(pages, chain, 0);
    }

    method FetchPage(p: PageId) returns (page: TablePage)
      requires Valid() && p in pages
      ensures fresh(page) && fresh(page.data) && page.Valid() && page.Store() == pages[p] && page.pageId == p
      ensures page.View() == View()[p]
    {
      assert StoredOk(pages[p]);
      page := new TablePage.Load(p, pages[p]);
      assert table[p] == ViewOf(pages[p]);
    }

    /** A page of the chain changed, but not its links. */
    method WritePage(page: TablePage)
      requires Valid() && page.Valid() && page.pageId in pages && page.nextPageId == pages[page.pageId].next
      requires page.prevPageId == pages[page.pageId].prev
      modifies this`pages, this`table
      ensures Valid() && pages.Keys == old(pages).Keys && View() == old(View())[page.pageId := page.View()]
      ensures pages == old(pages)[page.pageId := page.Store()]
    {
      ChainKeeps(pages, firstPageId, chain, page.pageId, page.Store());
      pages := pages[page.pageId := page.Store()];
      table := table[page.pageId := page.View()];
    }

    /** A new page behind the last one. */
    method AppendPage(last: PageId) returns (p: PageId)
      requires Valid() && last == chain[|chain| - 1]
      modifies this
      ensures Valid() && p !in old(pages) && p in pages && chain == old(chain) + [p] && View() == old(View())[p := []]
    {
      p := nextPageId;
      nextPageId := nextPageId + 1;
      var page := new TablePage(p, last);
      ChainGrows(pages, firstPageId, chain, p, page.Store());
      NewTable(pages, table, last, p, page.Store());
      assert StoredOk(pages[last]) && StoredOk(pages[last].(next := p));
      pages := pages[last := pages[last].(next := p)][p := page.Store()];
      chain, table := chain + [p], table[p := []];
    }

    /**
      First fit over the chain, on a new page at its end if need be; refused only if a tuple of this size would not
      fit any page.
     */
    method InsertTuple(t: Tuple) returns (res: bool, rid: Rid)
      requires Valid() && |t| > 0
      modifies this
      ensures Valid() && (res <==> |t| + 32 <= PAGE_SIZE)
      ensures !res ==> pages == old(pages) && chain == old(chain) && View() == old(View())
      ensures res ==> var cells := CellsOf(old(View()), rid.page);
        View() == old(View())[rid.page := WithTuple(cells, t)] && rid.slot == FirstEmpty(cells)
      ensures res ==> chain == if rid.page in old(View()) then old(chain) else old(chain) + [rid.page]
      ensures res ==> exists i :: 0 <= i < |chain| && chain[i] == rid.page && Full(old(View()), chain, t, i)
      ensures res ==> Placed(old(View()), View(), rid, t)
    {
      rid := Rid(INVALID_PAGE_ID, 0);
      if |t| + 32 > PAGE_SIZE {
        return false, rid;
      }
      ghost var before, was, i := View(), chain, 0;
      assert LinkOk(pages, chain, 0);
      var cur := firstPageId;
      var ok, slot := TryPage(cur, t);
      while !ok
        invariant Valid() && Tried(before, was, t, i, cur, ok, slot)
        decreases if ok then 0 else |was| + 1 - i
      {
        cur, ok, slot := TryNext(cur, t, before, was, i);
        i := i + 1;
      }
      res, rid := true, Rid(cur, slot);
      PlacedIs(before, cur, t);
    }

    /** Page `cur`, the i-th of the chain, was the first to have room for t; or, if not ok, has none either. */
    ghost predicate Tried(before: Table, was: seq<PageId>, t: Tuple, i: nat, cur: PageId, ok: bool, slot: nat)
      reads this
    {
      i < |chain| && cur == chain[i] && cur in pages && Full(before, chain, t, i) &&
      chain == (if cur in before then was else was + [cur]) && (cur in before || i == |was|) &&
      if ok then View() == before[cur := WithTuple(CellsOf(before, cur), t)] && slot == FirstEmpty(CellsOf(before, cur))
      else cur in before && View() == before && Full(before, chain, t, i + 1)
    }

    method TryNext(cur: PageId, t: Tuple, ghost before: Table, ghost was: seq<PageId>, ghost i: nat)
      returns (next: PageId, ok: bool, slot: nat)
      requires Valid() && 0 < |t| && |t| + 32 <= PAGE_SIZE && Tried(before, was, t, i, cur, false, 0)
      modifies this
      ensures Valid() && Tried(before, was, t, i + 1, next, ok, slot)
    {
      next := NextPage(cur, i);
      ok, slot := TryPage(next, t);
    }

    /** The next page of the chain, a new one behind the last. */
    method NextPage(cur: PageId, ghost i: nat) returns (next: PageId)
      requires Valid() && i < |chain| && cur == chain[i]
      modifies this
      ensures Valid() && i + 1 < |chain| && next == chain[i + 1] && next in pages
      ensures if i + 1 < old(|chain|) then View() == old(View()) && chain == old(chain)
        else next !in old(View()) && View() == old(View())[next := []] && chain == old(chain) + [next]
    {
      NextIs(pages, nextPageId, firstPageId, chain, i);
      next := pages[cur].next;
      if next == INVALID_PAGE_ID {
        next := AppendPage(cur);
      }
    }

    /** Insert into a page if there is room. */
    method TryPage(p: PageId, t: Tuple) returns (ok: bool, slot: nat)
      requires Valid() && p in pages && |t| > 0
      modifies this`pages, this`table
      ensures Valid() && p in pages && (ok <==> |t| + SLOT_SIZE <= Space(old(View())[p]))
      ensures if ok then View() == old(View())[p := WithTuple(old(View())[p], t)] && slot == FirstEmpty(old(View())[p])
        else View() == old(View())
    {
      var page := FetchPage(p);
      ok, slot := page.InsertTuple(t);
      if ok {
        WritePage(page);
      }
    }

    /** What the page answers; the caller of the heap is told true in any case. */
    method MarkDelete(r: Rid) returns (marked: bool)
      requires Valid() && r.page in pages
      modifies this`pages, this`table
      ensures Valid() && (marked <==> CellAt(old(View()), r).Live?)
      ensures View() == if marked then SetCell(old(View()), r, Marked(CellAt(old(View()), r).bytes)) else old(View())
    {
      var page := FetchPage(r.page);
      marked := page.MarkDelete(r.slot);
      ghost var view := View();
      WritePage(page);
      assert view[r.page := view[r.page]] == view;
    }

    method UpdateTuple(t: Tuple, r: Rid) returns (res: bool, before: Tuple)
      requires Valid() && r.page in pages && |t| > 0
      modifies this`pages, this`table
      ensures Valid() && (res <==> Fits(old(View()), r, t)) && (res ==> before == CellAt(old(View()), r).bytes)
      ensures View() == if res then SetCell(old(View()), r, Live(t)) else old(View())
    {
      var page := FetchPage(r.page);
      res, before := page.UpdateTuple(r.slot, t);
      if res {
        WritePage(page);
      }
    }

    /** `ok` tells whether the page's assertions hold; the program stops where they do not. */
    method ApplyDelete(r: Rid) returns (ok: bool)
      requires Valid() && r.page in pages
      modifies this`pages, this`table
      ensures Valid() && (ok <==> CellAt(old(View()), r) != Empty) && (ok ==> Present(old(View()), r))
      ensures View() == if ok then SetCell(old(View()), r, Empty) else old(View())
    {
      var page := FetchPage(r.page);
      ok := page.ApplyDelete(r.slot);
      if ok {
        WritePage(page);
      }
    }

    method RollbackDelete(r: Rid) returns (ok: bool)
      requires Valid() && r.page in pages
      modifies this`pages, this`table
      ensures Valid() && (ok <==> Present(old(View()), r))
      ensures View() == if ok then Undo(old(View()), Deleted(r)) else old(View())
    {
      var page := FetchPage(r.page);
      ok := page.RollbackDelete(r.slot);
      if ok {
        WritePage(page);
      }
    }

    method GetTuple(r: Rid) returns (res: bool, t: Tuple)
      requires Valid() && r.page in pages
      ensures res <==> CellAt(View(), r).Live?
      ensures res ==> t == CellAt(View(), r).bytes
    {
      var page := FetchPage(r.page);
      res, t := page.GetTuple(r.slot);
    }

    lemma NoEmptyTuples()
      requires Valid()
      ensures forall r :: CellAt(View(), r).Live? ==> |CellAt(View(), r).bytes| > 0
    {
      forall r | CellAt(View(), r).Live? ensures |CellAt(View(), r).bytes| > 0 {
        assert View()[r.page] == ViewOf(pages[r.page]);
      }
    }

    /** A page never holds more than fits. */
    lemma NeverOverfull()
      requires Valid()
      ensures SpaceOk(View())
    {
      forall p | p in View() ensures Space(View()[p]) >= 0 {
        var s := pages[p];
        assert StoredOk(s) && View()[p] == ViewOf(s);
        SizesAreTotal(s.data, s.slots, s.free);
      }
    }
  }

  /** No page before the i-th of the chain has room for t. */
  ghost predicate Full(view: Table, chain: seq<PageId>, t: Tuple, i: nat)
    requires i <= |chain|
  {
    forall j :: 0 <= j < i ==> chain[j] in view && Space(view[chain[j]]) < |t| + SLOT_SIZE
  }

  /** The cells of a page, none if it is still to be made. */
  function CellsOf(t: Table, p: PageId): seq<Cell> {
    if p in t then t[p] else []
  }

  /** t was placed in the empty cell r; everything else is as before. */
  ghost predicate Placed(before: Table, after: Table, r: Rid, t: Tuple) {
    Did(before, after, Inserted(r)) && CellAt(after, r) == Live(t) && Present(after, r) && Grows(before, after)
  }

  lemma PlacedIs(before: Table, p: PageId, t: Tuple)
    ensures var cells := CellsOf(before, p);
      Placed(before, before[p := WithTuple(cells, t)], Rid(p, FirstEmpty(cells)), t)
  {}

  /** Pages and slots stay. */
  ghost predicate Grows(t: Table, t': Table) {
    (forall p :: p in t ==> p in t') && forall r {:trigger Present(t', r)} :: Present(t, r) ==> Present(t', r)
  }
}
