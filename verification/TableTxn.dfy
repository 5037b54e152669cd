/**
  One transaction's changes to a table heap, and how Commit and Abort finish them from the write set.
 */
module TableTxns {
  import opened TablePages
  import opened Rollbacks
  import opened TableHeaps

  class TableTxn {
    const heap: TableHeap
    var writeSet: seq<Record>
    var aborted: bool  // the transaction's state is ABORTED
    ghost var changes: seq<Change>
    ghost var past: seq<Table>  // the table before each change

    ghost predicate Valid()
      reads this, heap
    {
      heap.Valid() && Run(past + [heap.View()], changes) && Orderly(changes) && writeSet == LogOf(changes) &&
      Recorded(heap.View(), writeSet) && (aborted || AllLogged(changes))
    }

    /** The table as the transaction found it. */
    ghost function Start(): Table
      reads this, heap
    {
      (past + [heap.View()])[0]
    }

    constructor (heap: TableHeap)
      requires heap.Valid()
      ensures Valid() && this.heap == heap && writeSet == [] && !aborted && Start() == heap.View()
    {
      this.heap, writeSet, aborted, changes, past := heap, [], false, [], [];
    }

    /** Enter a change in the write set. */
    method Note(w: Record, ghost before: Table)
      requires heap.Valid() && StoodAt(before)
      requires Did(before, heap.View(), w) && Grows(before, heap.View()) && RecordOk(heap.View(), w) && !(w.Updated? && aborted)
      modifies this`writeSet, this`changes, this`past
      ensures Valid() && writeSet == old(writeSet) + [w] && Start() == (old(past) + [before])[0]
    {
      ghost var was := past + [before];
      RunOn(was, changes, heap.View(), Logged(w));
      OrderlyOn(changes, Logged(w));
      RecordedOn(before, heap.View(), writeSet, w);
      past, changes := was, changes + [Logged(w)];
      writeSet := writeSet + [w];
    }

    /** An update that is not entered. */
    ghost method Pass(r: Rid, before: Table)
      requires heap.Valid() && StoodAt(before) && aborted
      requires Changed(before, heap.View(), Unlogged(r)) && Grows(before, heap.View())
      modifies this`changes, this`past
      ensures Valid() && writeSet == old(writeSet) && Start() == (old(past) + [before])[0]
    {
      ghost var was := past + [before];
      RunOn(was, changes, heap.View(), Unlogged(r));
      OrderlyOn(changes, Unlogged(r));
      RecordedStays(before, heap.View(), writeSet);
      past, changes := was, changes + [Unlogged(r)];
    }

    /** What Valid says of the table `before`, apart from the heap. */
    ghost predicate StoodAt(before: Table)
      reads this
    {
      Run(past + [before], changes) && Orderly(changes) && writeSet == LogOf(changes) && Recorded(before, writeSet) &&
      (aborted || AllLogged(changes))
    }

    /** A tuple too large for a page makes the transaction an aborted one. */
    method Insert(t: Tuple) returns (res: bool, rid: Rid)
      requires Valid() && |t| > 0
      modifies this, heap
      ensures Valid() && Start() == old(Start()) && (res <==> |t| + 32 <= PAGE_SIZE) && (aborted <==> old(aborted) || !res)
      ensures writeSet == if res then old(writeSet) + [Inserted(rid)] else old(writeSet)
      ensures if !res then heap.View() == old(heap.View()) && heap.chain == old(heap.chain)
        else heap.View() == old(heap.View())[rid.page := WithTuple(CellsOf(old(heap.View()), rid.page), t)]
      ensures res ==> rid.slot == FirstEmpty(CellsOf(old(heap.View()), rid.page)) && Placed(old(heap.View()), heap.View(), rid, t)
      ensures res ==> heap.chain == if rid.page in old(heap.View()) then old(heap.chain) else old(heap.chain) + [rid.page]
      ensures res ==> exists i :: 0 <= i < |heap.chain| && heap.chain[i] == rid.page && Full(old(heap.View()), heap.chain, t, i)
    {
      ghost var before := heap.View();
      res, rid := heap.InsertTuple(t);
      if res {
        Note(Inserted(rid), before);
      } else {
        aborted := true;
      }
    }

    /** Entered in the write set whether or not a live tuple, or even a slot, was there to mark. */
    method MarkDelete(rid: Rid) returns (marked: bool)
      requires Valid() && rid.page in heap.View()
      modifies this, heap
      ensures Valid() && Start() == old(Start()) && writeSet == old(writeSet) + [Deleted(rid)] && aborted == old(aborted)
      ensures marked <==> CellAt(old(heap.View()), rid).Live?
      ensures heap.View() == if marked then SetCell(old(heap.View()), rid, Marked(CellAt(old(heap.View()), rid).bytes)) else old(heap.View())
    {
      ghost var before := heap.View();
      marked := heap.MarkDelete(rid);
      Note(Deleted(rid), before);
    }

    /** Not entered in the write set of an aborted transaction, though the page is written. */
    method Update(t: Tuple, rid: Rid) returns (res: bool)
      requires Valid() && rid.page in heap.View() && |t| > 0
      modifies this, heap
      ensures Valid() && Start() == old(Start()) && aborted == old(aborted)
      ensures res <==> Fits(old(heap.View()), rid, t)
      ensures heap.View() == (if res then SetCell(old(heap.View()), rid, Live(t)) else old(heap.View())) && heap.chain == old(heap.chain)
      ensures writeSet == if res && !aborted then old(writeSet) + [Updated(rid, CellAt(old(heap.View()), rid).bytes)] else old(writeSet)
    {
      ghost var before := heap.View();
      var was;
      heap.NoEmptyTuples();
      res, was := heap.UpdateTuple(t, rid);
      if res && !aborted {
        Note(Updated(rid, was), before);
      } else if res {
        Pass(rid, before);
      }
    }

    /**
      Replay the write set backwards.  An assertion stops it exactly if a deletion was recorded for a slot that is
      not there.  Otherwise a record ends up as the transaction found it exactly if the undo of its first entry,
      deletions aside, is not an update refused for space, or, without such an entry, its bytes have not been changed.
     */
    method Abort() returns (ok: bool)
      requires Valid() && NoneMarked(Start())
      modifies this, heap
      ensures heap.Valid() && (ok <==> AllPresent(old(heap.View()), old(writeSet))) && aborted
      ensures ok ==> writeSet == [] && heap.View() == Replay(old(heap.View()), old(writeSet))
      ensures ok ==> Restores(old(Start()), old(heap.View()), old(writeSet), heap.View()) && NoneMarked(heap.View())
      ensures !ok ==> writeSet != [] && MissesSlot(heap.View(), writeSet[|writeSet| - 1])
    {
      ghost var k := Undoes();
      ghost var ts := past + [heap.View()];
      aborted := true;
      ok := UndoAll(k);
      if k == 0 { RestoredIs(ts, changes, heap.View()); }
    }

    /** How far back the entries can be undone. */
    lemma Undoes() returns (k: nat)
      requires Valid()
      ensures Undoing(heap.View(), heap.View(), writeSet, k, |writeSet|) && (k == 0 <==> AllPresent(heap.View(), writeSet))
      ensures SpaceOk(heap.View())
    {
      k := FirstBad(heap.View(), writeSet);
      heap.NeverOverfull();
      CanAbortFrom(past + [heap.View()], changes, k);
    }

    /** The undos of the entries from the k-th on succeed, the one before them fails. */
    method UndoAll(ghost k: nat) returns (ok: bool)
      requires heap.Valid() && Undoing(heap.View(), heap.View(), writeSet, k, |writeSet|)
      modifies this`writeSet, heap
      ensures heap.Valid() && writeSet == old(writeSet)[..k] && (ok <==> k == 0)
      ensures Undone(old(heap.View()), heap.View(), old(writeSet), k)
      ensures !ok ==> writeSet != [] && MissesSlot(heap.View(), writeSet[|writeSet| - 1])
    {
      ghost var full, first := writeSet, heap.View();
      ok := true;
      while writeSet != [] && ok
        invariant heap.Valid() && k <= |writeSet| <= |full| && writeSet == full[..|writeSet|]
        invariant Undoing(first, heap.View(), full, k, |writeSet|)
        invariant !ok ==> |writeSet| == k > 0
        decreases |writeSet|, ok
      {
        ok := UndoLast(first, full, k);
      }
      UndoingEnds(first, heap.View(), full, k);
      assert k > 0 ==> writeSet[k - 1] == full[k - 1];
    }

    method UndoLast(ghost first: Table, ghost full: seq<Record>, ghost k: nat) returns (ok: bool)
      requires heap.Valid() && 0 < |writeSet| <= |full| && writeSet == full[..|writeSet|] && k <= |writeSet|
      requires Undoing(first, heap.View(), full, k, |writeSet|)
      modifies this`writeSet, heap
      ensures heap.Valid() && (ok <==> k < |old(writeSet)|)
      ensures writeSet == if ok then full[..|old(writeSet)| - 1] else old(writeSet)
      ensures Undoing(first, heap.View(), full, k, |writeSet|)
    {
      ghost var n, before := |writeSet|, heap.View();
      var w := writeSet[|writeSet| - 1];
      assert w == full[n - 1];
      UndoingStep(first, before, full, k, n);
      ok := UndoOne(w);
      if ok {
        writeSet := writeSet[..|writeSet| - 1];
      }
    }

    /** Undo one entry; the assertions behind it fail when what it speaks of is not there. */
    method UndoOne(w: Record) returns (ok: bool)
      requires heap.Valid() && RecordOk(heap.View(), w)
      modifies heap
      ensures heap.Valid() && (ok <==> !Fails(old(heap.View()), w))
      ensures if ok then Present(old(heap.View()), w.rid) && heap.View() == Undo(old(heap.View()), w) else heap.View() == old(heap.View())
    {
      match w {
        case Deleted(rid) => ok := heap.RollbackDelete(rid);
        case Inserted(rid) => ok := heap.ApplyDelete(rid);
        case Updated(rid, before) =>
          var _, _ := heap.UpdateTuple(before, rid);
          ok := true;
      }
    }

    /**
      Take out the tuples whose deletion is recorded, last entry first.  An assertion stops it, at the last entry
      then left, exactly if one record's deletion is recorded twice, or that of a record that is not there.
     */
    method Commit() returns (ok: bool)
      requires Valid()
      modifies this, heap
      ensures heap.Valid() && (ok <==> DeletesApply(old(heap.View()), old(writeSet))) && !aborted
      ensures writeSet <= old(writeSet) && (if ok then writeSet == []
        else writeSet != [] && writeSet[|writeSet| - 1].Deleted? && CellAt(heap.View(), writeSet[|writeSet| - 1].rid) == Empty)
      ensures Committing(old(heap.View()), heap.View(), old(writeSet), |writeSet|)
    {
      ghost var full, first := writeSet, heap.View();
      assert forall r :: !DeletedIn(full[|full|..], r);
      aborted, ok := false, true;
      while writeSet != [] && ok
        invariant heap.Valid() && !aborted && writeSet <= full && Committing(first, heap.View(), full, |writeSet|)
        invariant !ok ==> Stopped(first, heap.View(), writeSet, full)
        decreases |writeSet|, ok
      {
        ok := CommitLast(first, full);
      }
    }

    method CommitLast(ghost first: Table, ghost full: seq<Record>) returns (ok: bool)
      requires heap.Valid() && writeSet != [] && writeSet <= full && Committing(first, heap.View(), full, |writeSet|)
      modifies this`writeSet, heap
      ensures heap.Valid() && writeSet <= full && Committing(first, heap.View(), full, |writeSet|)
      ensures if ok then writeSet == old(writeSet)[..|old(writeSet)| - 1]
        else writeSet == old(writeSet) && Stopped(first, heap.View(), writeSet, full)
    {
      ghost var n, before := |writeSet| - 1, heap.View();
      var w := writeSet[|writeSet| - 1];
      CommitStep(first, before, full, n);
      ok := true;
      if w.Deleted? {
        ok := heap.ApplyDelete(w.rid);
      }
      if ok {
        writeSet := writeSet[..|writeSet| - 1];
      }
    }
  }

  /** The commit cannot go on with the last entry left. */
  ghost predicate Stopped(first: Table, now: Table, left: seq<Record>, ws: seq<Record>) {
    0 < |left| <= |ws| && left[|left| - 1].Deleted? && CellAt(now, left[|left| - 1].rid) == Empty && !Applies(first, ws, |left| - 1)
  }

  /** What an entry speaks of is there, as far as it must be. */
  ghost predicate RecordOk(t: Table, w: Record) {
    w.rid.page in t && (w.Deleted? || Present(t, w.rid)) && (w.Updated? ==> |w.before| > 0)
  }

  ghost predicate Recorded(t: Table, ws: seq<Record>) {
    forall i {:trigger ws[i]} :: 0 <= i < |ws| ==> RecordOk(t, ws[i])
  }

  lemma RecordedOn(t: Table, t': Table, ws: seq<Record>, w: Record)
    requires Recorded(t, ws) && Grows(t, t') && RecordOk(t', w)
    ensures Recorded(t', ws + [w])
  {
    RecordedStays(t, t', ws);
  }

  lemma RecordedStays(t: Table, t': Table, ws: seq<Record>)
    requires Recorded(t, ws) && Grows(t, t')
    ensures Recorded(t', ws)
  {
    forall i | 0 <= i < |ws| ensures RecordOk(t', ws[i]) {
      assert RecordOk(t, ws[i]);
      assert Present(t, ws[i].rid) ==> Present(t', ws[i].rid);
    }
  }

  lemma UndoRecorded(t: Table, w: Record, ws: seq<Record>)
    requires Recorded(t, ws) && Present(t, w.rid)
    ensures Recorded(Undo(t, w), ws)
  {}

  predicate MissesSlot(t: Table, w: Record) {
    w.Deleted? && !Present(t, w.rid)
  }

  /** The undo of w runs into an assertion. */
  predicate Fails(t: Table, w: Record) {
    MissesSlot(t, w) || (w.Inserted? && CellAt(t, w.rid) == Empty)
  }

  /** From table `first` to table `now`, the entries from the n-th on have been undone; those from the k-th on can be. */
  ghost predicate Undoing(first: Table, now: Table, ws: seq<Record>, k: nat, n: nat) {
    k <= n <= |ws| && Recorded(now, ws[..n]) && AllPresent(first, ws[k..]) && AllPresent(now, ws[k..n]) && Replayable(now, ws[k..n]) &&
    (k > 0 ==> MissesSlot(now, ws[k - 1])) && Replay(now, ws[k..n]) == Replay(first, ws[k..])
  }

  lemma UndoingStep(first: Table, now: Table, ws: seq<Record>, k: nat, n: nat)
    requires Undoing(first, now, ws, k, n) && n > 0
    ensures RecordOk(now, ws[n - 1])
    ensures Fails(now, ws[n - 1]) <==> n == k
    ensures n > k ==> Present(now, ws[n - 1].rid) && Undoing(first, Undo(now, ws[n - 1]), ws, k, n - 1)
  {
    var w := ws[n - 1];
    assert ws[..n][n - 1] == w;
    if n > k {
      var tail := ws[k..n];
      assert tail[|tail| - 1] == w && tail[..|tail| - 1] == ws[k..n - 1];
      UndoPresent(now, w, ws[k..n - 1]);
      assert ws[..n][..n - 1] == ws[..n - 1];
      UndoRecorded(now, w, ws[..n - 1]);
    }
  }

  lemma UndoingEnds(first: Table, now: Table, ws: seq<Record>, k: nat)
    requires Undoing(first, now, ws, k, k)
    ensures Undone(first, now, ws, k)
  {
    assert ws[k..k] == [];
  }

  /** The entries from the k-th on are undone, and the one before them cannot be. */
  ghost predicate Undone(first: Table, now: Table, ws: seq<Record>, k: nat) {
    k <= |ws| && AllPresent(first, ws[k..]) && now == Replay(first, ws[k..]) && (k > 0 ==> MissesSlot(now, ws[k - 1]))
  }

  /** Behind the last deletion recorded for a slot that is not there. */
  ghost function FirstBad(t: Table, ws: seq<Record>): (k: nat)
    requires Recorded(t, ws)
    ensures k <= |ws| && AllPresent(t, ws[k..]) && (k > 0 ==> MissesSlot(t, ws[k - 1]))
    ensures k == 0 <==> AllPresent(t, ws)
  {
    if ws == [] then 0
    else if MissesSlot(t, ws[|ws| - 1]) then |ws|
    else
      var rest := ws[..|ws| - 1];
      assert forall i :: 0 <= i < |rest| ==> rest[i] == ws[i];
      FirstBad(t, rest)
  }

  lemma CanAbortFrom(ts: seq<Table>, cs: seq<Change>, k: nat)
    requires Run(ts, cs) && Recorded(ts[|cs|], LogOf(cs)) && k <= |LogOf(cs)| && AllPresent(ts[|cs|], LogOf(cs)[k..])
    requires k > 0 ==> MissesSlot(ts[|cs|], LogOf(cs)[k - 1])
    ensures Undoing(ts[|cs|], ts[|cs|], LogOf(cs), k, |LogOf(cs)|)
  {
    var ws := LogOf(cs);
    CanAbort(ts, cs, ts[|cs|], k);
    assert ws[..|ws|] == ws && ws[k..|ws|] == ws[k..];
  }

  /** A record is as it was in table `first` exactly if its undos, from table `last` on, put it back. */
  ghost predicate Restores(first: Table, last: Table, ws: seq<Record>, now: Table) {
    AllPresent(last, ws) && now.Keys == last.Keys &&
    forall r :: CellAt(now, r) == CellAt(first, r) <==> !Spoiled(last, ws, r, Drifted(first, last, r))
  }

  lemma RestoredIs(ts: seq<Table>, cs: seq<Change>, now: Table)
    requires Run(ts, cs) && Orderly(cs) && NoneMarked(ts[0]) && SpaceOk(ts[|cs|]) && Undone(ts[|cs|], now, LogOf(cs), 0)
    ensures Restores(ts[0], ts[|cs|], LogOf(cs), now) && NoneMarked(now) && now == Replay(ts[|cs|], LogOf(cs))
  {
    assert LogOf(cs)[0..] == LogOf(cs);
    AbortRestoresEach(ts, cs);
    CanAbort(ts, cs, ts[|cs|], 0);
    forall r ensures !CellAt(now, r).Marked? { assert Kin(CellAt(now, r), CellAt(ts[0], r)) && !CellAt(ts[0], r).Marked?; }
    ReplayKeys(ts[|cs|], LogOf(cs));
  }

  /** The i-th entry, if a deletion, finds its record there and not deleted again by a later entry. */
  ghost predicate Applies(t: Table, ws: seq<Record>, i: nat)
    requires i < |ws|
  {
    ws[i].Deleted? ==> CellAt(t, ws[i].rid) != Empty && !DeletedIn(ws[i + 1..], ws[i].rid)
  }

  /** No record's deletion is recorded twice, and none of a record that is not there. */
  ghost predicate DeletesApply(t: Table, ws: seq<Record>) {
    forall i {:trigger Applies(t, ws, i)} :: 0 <= i < |ws| ==> Applies(t, ws, i)
  }

  /** From table `first` to table `now`, the entries from the n-th on have been committed. */
  ghost predicate Committing(first: Table, now: Table, ws: seq<Record>, n: nat)
    requires n <= |ws|
  {
    Recorded(first, ws) && now.Keys == first.Keys &&
    (forall r :: CellAt(now, r) == if DeletedIn(ws[n..], r) then Empty else CellAt(first, r)) &&
    forall i {:trigger Applies(first, ws, i)} :: n <= i < |ws| ==> Applies(first, ws, i)
  }

  lemma CommitStep(first: Table, now: Table, ws: seq<Record>, n: nat)
    requires n < |ws| && Committing(first, now, ws, n + 1)
    ensures ws[n].rid.page in now
    ensures if !ws[n].Deleted? then Committing(first, now, ws, n)
      else if CellAt(now, ws[n].rid) == Empty then !Applies(first, ws, n)
      else Present(now, ws[n].rid) && Committing(first, SetCell(now, ws[n].rid, Empty), ws, n)
  {
    var w := ws[n];
    assert RecordOk(first, w);
    DeletedMore(ws, n);
    if w.Deleted? && CellAt(now, w.rid) != Empty {
      var next := SetCell(now, w.rid, Empty);
      forall r ensures CellAt(next, r) == if DeletedIn(ws[n..], r) then Empty else CellAt(first, r) {
        assert CellAt(next, r) == if r == w.rid then Empty else CellAt(now, r);
      }
    }
  }

  ghost predicate DeletedIn(ws: seq<Record>, r: Rid) {
    exists i :: 0 <= i < |ws| && ws[i] == Deleted(r)
  }

  lemma DeletedMore(ws: seq<Record>, n: nat)
    requires n < |ws|
    ensures forall r :: DeletedIn(ws[n..], r) <==> DeletedIn(ws[n + 1..], r) || ws[n] == Deleted(r)
  {}

  ghost predicate AllLogged(cs: seq<Change>) {
    forall i :: 0 <= i < |cs| ==> cs[i].Logged?
  }

  lemma OrderlyOn(cs: seq<Change>, c: Change)
    requires Orderly(cs) && (c.Logged? && c.w.Updated? ==> AllLogged(cs))
    ensures Orderly(cs + [c]) && (AllLogged(cs) && c.Logged? ==> AllLogged(cs + [c]))
  {}

  lemma RunOn(ts: seq<Table>, cs: seq<Change>, t: Table, c: Change)
    requires Run(ts, cs) && Changed(ts[|ts| - 1], t, c)
    ensures Run(ts + [t], cs + [c]) && LogOf(cs + [c]) == if c.Logged? then LogOf(cs) + [c.w] else LogOf(cs)
    ensures (ts + [t])[0] == ts[0]
  {
    assert (cs + [c])[..|cs|] == cs;
    var us := ts + [t];
    forall i | 0 <= i < |cs + [c]| ensures Changed(us[i], us[i + 1], (cs + [c])[i]) {
      if i < |cs| { assert Changed(ts[i], ts[i + 1], cs[i]); }
    }
  }
}
