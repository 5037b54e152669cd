/**
  Transactions whose commit or abort does not do what it is for.
 */
module TableExamples {
  import opened TablePages
  import opened Rollbacks
  import opened TableHeaps
  import opened TableTxns

  /** A table with one tuple, on its first page. */
  method OneTuple(t: Tuple) returns (heap: TableHeap, rid: Rid)
    requires 0 < |t| && |t| + 32 <= PAGE_SIZE
    ensures fresh(heap) && heap.Valid() && rid == Rid(0, 0) && heap.View() == map[0 := [Live(t)]] && heap.chain == [0]
  {
    heap := new TableHeap(0);
    var _, r := heap.InsertTuple(t);
    rid := r;
    assert [] + [Live(t)] == [Live(t)];
    assert Space([]) >= |t| + SLOT_SIZE;
    assert heap.chain[0] == 0;
  }

  lemma OneCell(c: Cell)
    ensures Sizes([c]) == Size(c)
  {
    assert [c][..0] == [];
  }

  /** A record deleted twice in one transaction: the commit fails an assertion. */
  method DeletedTwice(t: Tuple) returns (ok: bool)
    requires 0 < |t| && |t| + 32 <= PAGE_SIZE
    ensures !ok
  {
    var heap, rid := OneTuple(t);
    var txn := new TableTxn(heap);
    var _ := txn.MarkDelete(rid);
    var _ := txn.MarkDelete(rid);
    assert txn.writeSet == [Deleted(rid), Deleted(rid)];
    assert txn.writeSet[1..][0] == Deleted(rid);
    assert !Applies(heap.View(), txn.writeSet, 0);
    ok := txn.Commit();
  }

  /** The deletion of a slot beyond the count is recorded: the abort fails an assertion. */
  method DeletedBeyond(t: Tuple) returns (ok: bool)
    requires 0 < |t| && |t| + 32 <= PAGE_SIZE
    ensures !ok
  {
    var heap, rid := OneTuple(t);
    var txn := new TableTxn(heap);
    var _ := txn.MarkDelete(Rid(rid.page, 1));
    assert txn.writeSet[0] == Deleted(Rid(rid.page, 1));
    ok := txn.Abort();
  }

  lemma CutIs()
    ensures var long := map[0 := [Live(Bytes(4064))]];
      Fits(long, Rid(0, 0), Bytes(1)) && CellAt(long, Rid(0, 0)).bytes == Bytes(4064) &&
      SetCell(long, Rid(0, 0), Live(Bytes(1))) == map[0 := [Live(Bytes(1))]]
  {
    OneCell(Live(Bytes(4064)));
    assert [Live(Bytes(4064))][0 := Live(Bytes(1))] == [Live(Bytes(1))];
  }

  /** A tuple that fills its page is cut to one byte. */
  method Cut() returns (txn: TableTxn)
    ensures fresh(txn) && fresh(txn.heap) && txn.Valid() && txn.Start() == map[0 := [Live(Bytes(4064))]]
    ensures txn.writeSet == [Updated(Rid(0, 0), Bytes(4064))]
    ensures txn.heap.View() == map[0 := [Live(Bytes(1))]] && txn.heap.chain == [0]
  {
    var heap, rid := OneTuple(Bytes(4064));
    txn := new TableTxn(heap);
    CutIs();
    var _ := txn.Update(Bytes(1), rid);
  }

  /** Then a second tuple takes the room won. */
  method CutAndFill() returns (txn: TableTxn)
    ensures fresh(txn) && fresh(txn.heap) && txn.Valid() && txn.Start() == map[0 := [Live(Bytes(4064))]]
    ensures txn.writeSet == [Updated(Rid(0, 0), Bytes(4064)), Inserted(Rid(0, 1))]
    ensures txn.heap.View() == map[0 := [Live(Bytes(1)), Live(Bytes(4055))]]
  {
    txn := Cut();
    ghost var short := [Live(Bytes(1))];
    OneCell(Live(Bytes(1)));
    var _, other := txn.Insert(Bytes(4055));
    assert txn.heap.chain[0] == 0 && Space(short) == 4055 + SLOT_SIZE && FirstEmpty(short) == 1;
    assert short + [Live(Bytes(4055))] == [Live(Bytes(1)), Live(Bytes(4055))];
  }

  /** After the abort of this transaction the first record is still cut short. */
  method LostUpdate() returns (ok: bool, found: bool, t: Tuple)
    ensures ok && !(found && t == Bytes(4064))
  {
    var txn := CutAndFill();
    ghost var ts, ws, r := AbortLosesUpdate();
    ghost var cs := [Logged(ws[0]), Logged(ws[1])];
    assert cs[..1] == [Logged(ws[0])] && cs[..1][..0] == [];
    assert LogOf(cs[..1]) == [ws[0]] && LogOf(cs) == ws;
    assert txn.writeSet == ws && txn.heap.View() == ts[2] && txn.Start() == ts[0];
    AbortRestores(ts, cs, r);
    ok := txn.Abort();
    found, t := txn.heap.GetTuple(Rid(0, 0));
  }

  /** An update behind a refused insertion is not undone by the abort. */
  method UnrecordedUpdate() returns (ok: bool, found: bool, t: Tuple)
    ensures ok && found && t == Bytes(4)
  {
    var heap, rid := OneTuple(Bytes(8));
    var txn := new TableTxn(heap);
    ghost var first := [Live(Bytes(8))];
    OneCell(Live(Bytes(8)));
    var _, _ := txn.Insert(Bytes(5000));
    var _ := txn.Update(Bytes(4), rid);
    assert first[0 := Live(Bytes(4))] == [Live(Bytes(4))];
    assert txn.writeSet == [] && CellAt(heap.View(), rid) == Live(Bytes(4));
    ok := txn.Abort();
    found, t := heap.GetTuple(rid);
  }

  /** A table with one tuple, which its transaction is still to keep or not. */
  method FirstInsert(t: Tuple) returns (txn: TableTxn)
    requires 0 < |t| && |t| + 32 <= PAGE_SIZE
    ensures fresh(txn) && fresh(txn.heap) && txn.Valid() && txn.heap.firstPageId == 0 && NoneMarked(txn.Start())
    ensures txn.heap.View() == map[0 := [Live(t)]] && txn.writeSet == [Inserted(Rid(0, 0))]
  {
    var heap := new TableHeap(0);
    txn := new TableTxn(heap);
    assert Space([]) >= |t| + SLOT_SIZE;
    var _, rid := txn.Insert(t);
    assert heap.chain[0] == 0 && [] + [Live(t)] == [Live(t)];
  }

  /** A table whose only slot is empty, as an aborted insertion leaves it. */
  method EmptySlot(t: Tuple) returns (heap: TableHeap)
    requires 0 < |t| && |t| + 32 <= PAGE_SIZE
    ensures fresh(heap) && heap.Valid() && heap.View() == map[0 := [Empty]] && heap.firstPageId == 0
  {
    var txn := FirstInsert(t);
    heap := txn.heap;
    ghost var view, ws := heap.View(), txn.writeSet;
    assert ws[..0] == [] && [Live(t)][0 := Empty] == [Empty];
    assert Undo(view, ws[0]) == map[0 := [Empty]] && Replay(view, ws) == Undo(view, ws[0]);
    var _ := txn.Abort();
  }

  /** A record deleted before it is there, and then inserted. */
  method DeletedFirst(t: Tuple) returns (txn: TableTxn)
    requires 0 < |t| && |t| + 40 <= PAGE_SIZE
    ensures fresh(txn) && fresh(txn.heap) && txn.Valid() && txn.writeSet == [Deleted(Rid(0, 0)), Inserted(Rid(0, 0))]
    ensures CellAt(txn.heap.View(), Rid(0, 0)) == Live(t)
  {
    var heap := EmptySlot(t);
    txn := new TableTxn(heap);
    var _ := txn.MarkDelete(Rid(0, 0));
    ghost var view := heap.View();
    OneCell(Empty);
    assert view == map[0 := [Empty]] && FirstEmpty([Empty]) == 0;
    var _, rid := txn.Insert(t);
    assert heap.chain[0] == 0;
    ghost var i :| 0 <= i < |heap.chain| && heap.chain[i] == rid.page && Full(view, heap.chain, t, i);
    assert i > 0 ==> Space(view[heap.chain[0]]) >= |t| + SLOT_SIZE;
  }

  /** The commit goes through and takes it out. */
  method InsertedAndGone(t: Tuple) returns (ok: bool, found: bool)
    requires 0 < |t| && |t| + 40 <= PAGE_SIZE
    ensures ok && !found
  {
    var txn := DeletedFirst(t);
    ghost var view, ws, rid := txn.heap.View(), txn.writeSet, Rid(0, 0);
    assert ws[1..] == [Inserted(rid)] && !DeletedIn(ws[1..], rid);
    assert Applies(view, ws, 0) && Applies(view, ws, 1) && DeletesApply(view, ws);
    ok := txn.Commit();
    assert ws[0..] == ws && ws[0] == Deleted(rid) && DeletedIn(ws, rid);
    var there, _ := txn.heap.GetTuple(Rid(0, 0));
    found := there;
  }
}
