/**
  The lock manager's calls, section by section, on its own lock table and the transactions' lock sets.
 */
module LockManagers {
  import opened LockStates

  class LockManager {
    const fixed: bool
    var lockTable: map<Rid, Queue>
    var txns: map<TxnId, Txn>

    ghost function Now(): State
      reads this
    {
      State(lockTable, txns)
    }

    ghost predicate Valid()
      reads this
    {
      Inv(fixed, Now())
    }

    /** What every section promises: the state it leaves is the one the specification names, in order unless a record was locked again. */
    twostate predicate Did(c: Call)
      reads this
    {
      NoteOk(old(Now()), c) && Now() == Step(fixed, old(Now()), c) && (old(Valid()) && CallOk(old(Now()), c) ==> Valid())
    }

    lemma Keeps(c: Call)
      requires NoteOk(Now(), c)
      ensures Valid() && CallOk(Now(), c) ==> Inv(fixed, Step(fixed, Now(), c))
    {
      if Valid() && CallOk(Now(), c) { StepKeeps(fixed, Now(), c); }
    }

    constructor (fixed: bool)
      ensures this.fixed == fixed && Now() == START && Valid()
    {
      this.fixed, lockTable, txns := fixed, map[], map[];
      new;
      forall r ensures QueueOk(fixed, START, r) {
        assert Sharers(START, r) == {} && Writers(START, r) == {};
      }
    }

    method BeginTxn(t: TxnId, isolation: Isolation)
      requires NoteOk(Now(), Begin(t, isolation))
      modifies this`txns
      ensures Did(Begin(t, isolation))
    {
      Keeps(Begin(t, isolation));
      txns := txns[t := Txn(GROWING, isolation, {}, {}, Running)];
    }

    method SetState(t: TxnId, state: TxnState)
      requires NoteOk(Now(), Call.SetState(t, state))
      modifies this`txns
      ensures Did(Call.SetState(t, state)) && txns == old(txns)[t := old(txns)[t].(state := state)]
    {
      Keeps(Call.SetState(t, state));
      txns := txns[t := txns[t].(state := state)];
    }

    method GetIterator(requests: seq<Request>, t: TxnId) returns (i: nat)
      ensures i == Find(requests, t)
    {
      i := 0;
      while i < |requests|
        invariant i <= |requests| && forall j :: 0 <= j < i ==> requests[j].txn != t
      {
        if requests[i].txn == t {
          break;
        }
        i := i + 1;
      }
      FindIs(requests, t, i);
    }

    /** The checks every lock call starts with. */
    method Refuse(t: TxnId) returns (o: Outcome)
      requires t in txns
      modifies this`txns
      ensures o == if Refused(old(txns)[t]) then Thrown(Refusal(old(txns)[t])) else Granted
      ensures txns == if o.Thrown? then old(txns)[t := old(txns)[t].(state := ABORTED)] else old(txns)
    {
      if txns[t].state == SHRINKING {
        txns := txns[t := txns[t].(state := ABORTED)];
        return Thrown(LOCK_ON_SHRINKING);
      }
      if txns[t].isolation == READ_UNCOMMITTED {
        txns := txns[t := txns[t].(state := ABORTED)];
        return Thrown(LOCKSHARED_ON_READ_UNCOMMITTED);
      }
      return Granted;
    }

    method Enqueue(t: TxnId, r: Rid, mode: Mode)
      modifies this`lockTable
      ensures lockTable == old(lockTable)[r := Pushed(QueueOf(old(Now()), r), t, mode)]
    {
      if r !in lockTable {
        lockTable := lockTable[r := NO_REQUESTS];
      }
      var queue := lockTable[r];
      lockTable := lockTable[r := queue.(requests := queue.requests + [Request(t, mode, false)])];
    }

    /** Take t's request out of the queue, as a call does that finds its transaction aborted. */
    method EraseRequest(t: TxnId, r: Rid)
      requires r in lockTable && Find(lockTable[r].requests, t) < |lockTable[r].requests|
      modifies this`lockTable
      ensures lockTable == old(lockTable)[r := old(lockTable)[r].(requests := Erase(old(lockTable)[r].requests, t))]
    {
      var requests := lockTable[r].requests;
      var i := GetIterator(requests, t);
      lockTable := lockTable[r := lockTable[r].(requests := requests[..i] + requests[i + 1..])];
    }

    /** The end of LockShared, behind its wait. */
    method AfterSharedWait(t: TxnId, r: Rid) returns (o: Outcome)
      requires t in txns && r in lockTable && Find(lockTable[r].requests, t) < |lockTable[r].requests|
      modifies this`lockTable, this`txns
      ensures var c := FinishShared(old(txns)[t], old(lockTable)[r], t, r);
        o == c.outcome && txns == old(txns)[t := c.x] && lockTable == old(lockTable)[r := c.q]
    {
      txns := txns[t := txns[t].(wait := Running)];
      if txns[t].state == ABORTED {
        EraseRequest(t, r);
        return Thrown(DEADLOCK);
      }
      txns := txns[t := txns[t].(shared := txns[t].shared + {r})];
      var q := lockTable[r];
      var i := GetIterator(q.requests, t);
      lockTable := lockTable[r := q.(requests := q.requests[i := q.requests[i].(granted := true)], sharedCount := q.sharedCount + 1)];
      return Granted;
    }

    method AfterExclusiveWait(t: TxnId, r: Rid) returns (o: Outcome)
      requires t in txns && r in lockTable && Find(lockTable[r].requests, t) < |lockTable[r].requests|
      modifies this`lockTable, this`txns
      ensures var c := FinishExclusive(fixed, old(txns)[t], old(lockTable)[r], t, r);
        o == c.outcome && txns == old(txns)[t := c.x] && lockTable == old(lockTable)[r := c.q]
    {
      txns := txns[t := txns[t].(wait := Running)];
      if txns[t].state == ABORTED {
        EraseRequest(t, r);
        return Thrown(DEADLOCK);
      }
      txns := txns[t := txns[t].(exclusive := txns[t].exclusive + {r})];
      var q := lockTable[r];
      var i := GetIterator(q.requests, t);
      lockTable := lockTable[r := q.(requests := q.requests[i := q.requests[i].(granted := true)])];
      if fixed {
        lockTable := lockTable[r := lockTable[r].(writing := true)];
      }
      return Granted;
    }

    method AfterUpgradeWait(t: TxnId, r: Rid) returns (o: Outcome)
      requires t in txns && r in lockTable && Find(lockTable[r].requests, t) < |lockTable[r].requests|
      modifies this`lockTable, this`txns
      ensures var c := FinishUpgrade(old(txns)[t], old(lockTable)[r], t, r);
        o == c.outcome && txns == old(txns)[t := c.x] && lockTable == old(lockTable)[r := c.q]
    {
      txns := txns[t := txns[t].(wait := Running)];
      if txns[t].state == ABORTED {
        EraseRequest(t, r);
        return Thrown(DEADLOCK);
      }
      txns := txns[t := txns[t].(exclusive := txns[t].exclusive + {r})];
      var q := lockTable[r];
      var i := GetIterator(q.requests, t);
      lockTable := lockTable[r := q.(requests := q.requests[i := q.requests[i].(granted := true)], upgrading := false, writing := true)];
      return Granted;
    }

    method LockShared(t: TxnId, r: Rid) returns (o: Outcome)
      requires NoteOk(Now(), Call.LockShared(t, r))
      modifies this`lockTable, this`txns
      ensures Did(Call.LockShared(t, r)) && o == Section(fixed, old(Now()), Call.LockShared(t, r)).outcome
    {
      Keeps(Call.LockShared(t, r));
      o := Refuse(t);
      if o.Thrown? {
        return;
      }
      o := RequestShared(t, r);
    }

    method RequestShared(t: TxnId, r: Rid) returns (o: Outcome)
      requires t in txns && !Refused(txns[t])
      modifies this`lockTable, this`txns
      ensures var c := StartShared(old(txns)[t], QueueOf(old(Now()), r), t, r);
        o == c.outcome && txns == old(txns)[t := c.x] && lockTable == old(lockTable)[r := c.q]
    {
      Enqueue(t, r, SHARED);
      if lockTable[r].writing && txns[t].state != ABORTED {
        txns := txns[t := txns[t].(wait := Asleep(r, CallShared))];
        return Blocked;
      }
      o := AfterSharedWait(t, r);
    }

    method LockExclusive(t: TxnId, r: Rid) returns (o: Outcome)
      requires NoteOk(Now(), Call.LockExclusive(t, r))
      modifies this`lockTable, this`txns
      ensures Did(Call.LockExclusive(t, r)) && o == Section(fixed, old(Now()), Call.LockExclusive(t, r)).outcome
    {
      Keeps(Call.LockExclusive(t, r));
      o := Refuse(t);
      if o.Thrown? {
        return;
      }
      o := RequestExclusive(t, r);
    }

    method RequestExclusive(t: TxnId, r: Rid) returns (o: Outcome)
      requires t in txns && !Refused(txns[t])
      modifies this`lockTable, this`txns
      ensures var c := StartExclusive(fixed, old(txns)[t], QueueOf(old(Now()), r), t, r);
        o == c.outcome && txns == old(txns)[t := c.x] && lockTable == old(lockTable)[r := c.q]
    {
      Enqueue(t, r, EXCLUSIVE);
      if (lockTable[r].writing || lockTable[r].sharedCount > 0) && txns[t].state != ABORTED {
        txns := txns[t := txns[t].(wait := Asleep(r, CallExclusive))];
        return Blocked;
      }
      o := AfterExclusiveWait(t, r);
    }

    method LockUpgrade(t: TxnId, r: Rid) returns (o: Outcome)
      requires NoteOk(Now(), Call.LockUpgrade(t, r))
      modifies this`lockTable, this`txns
      ensures Did(Call.LockUpgrade(t, r)) && o == Section(fixed, old(Now()), Call.LockUpgrade(t, r)).outcome
    {
      Keeps(Call.LockUpgrade(t, r));
      o := Refuse(t);
      if o.Thrown? {
        return;
      }
      o := Upgrade(t, r);
    }

    method Upgrade(t: TxnId, r: Rid) returns (o: Outcome)
      requires t in txns && !Refused(txns[t]) && txns[t].wait == Running
      requires r in lockTable && Find(lockTable[r].requests, t) < |lockTable[r].requests|
      modifies this`lockTable, this`txns
      ensures var c := StartUpgrade(old(txns)[t], old(lockTable)[r], t, r);
        o == c.outcome && txns == old(txns)[t := c.x] && lockTable == old(lockTable)[r := c.q]
    {
      if lockTable[r].upgrading {
        txns := txns[t := txns[t].(state := ABORTED)];
        return Thrown(UPGRADE_CONFLICT);
      }
      UpdateFinds(lockTable[r].requests, t, EXCLUSIVE, false, t);
      GiveUpShared(t, r);
      if (lockTable[r].writing || lockTable[r].sharedCount > 0) && txns[t].state != ABORTED {
        txns := txns[t := txns[t].(wait := Asleep(r, CallUpgrade))];
        return Blocked;
      }
      o := AfterUpgradeWait(t, r);
    }

    /** The shared hold becomes a request for the exclusive lock, before any wait. */
    method GiveUpShared(t: TxnId, r: Rid)
      requires t in txns && r in lockTable && Find(lockTable[r].requests, t) < |lockTable[r].requests|
      modifies this`lockTable, this`txns
      ensures txns == old(txns)[t := old(txns)[t].(shared := old(txns)[t].shared - {r})]
      ensures var q := old(lockTable)[r]; lockTable == old(lockTable)[r :=
        q.(requests := Update(q.requests, t, EXCLUSIVE, false), sharedCount := q.sharedCount - 1,
           upgrading := q.upgrading || q.writing || q.sharedCount - 1 > 0)]
    {
      var q := lockTable[r];
      txns := txns[t := txns[t].(shared := txns[t].shared - {r})];
      var i := GetIterator(q.requests, t);
      lockTable := lockTable[r := q.(requests := q.requests[i := Request(t, EXCLUSIVE, false)], sharedCount := q.sharedCount - 1)];
      if lockTable[r].writing || lockTable[r].sharedCount > 0 {
        lockTable := lockTable[r := lockTable[r].(upgrading := true)];
      }
    }

    /** A sleeping call re-acquires the latch, notified or not, and tests its predicate. */
    method Wake(t: TxnId) returns (o: Outcome)
      requires NoteOk(Now(), Call.Wake(t))
      modifies this`lockTable, this`txns
      ensures Did(Call.Wake(t)) && o == Section(fixed, old(Now()), Call.Wake(t)).outcome
    {
      Keeps(Call.Wake(t));
      var r := txns[t].wait.rid;
      var q, aborted := lockTable[r], txns[t].state == ABORTED;
      match txns[t].wait.call {
        case CallShared =>
          if aborted || !q.writing { o := AfterSharedWait(t, r); return; }
        case CallExclusive =>
          if aborted || (!q.writing && q.sharedCount <= 0) { o := AfterExclusiveWait(t, r); return; }
        case CallUpgrade =>
          if aborted || (!q.writing && q.sharedCount <= 0) { o := AfterUpgradeWait(t, r); return; }
      }
      return Blocked;
    }

    /** Returns whether the sleepers of r are notified. */
    method Unlock(t: TxnId, r: Rid) returns (notify: bool)
      requires NoteOk(Now(), Call.Unlock(t, r))
      modifies this`lockTable, this`txns
      ensures Did(Call.Unlock(t, r))
      ensures notify == Notifies(old(Now()), Call.Unlock(t, r), r)
    {
      Keeps(Call.Unlock(t, r));
      txns := txns[t := txns[t].(shared := txns[t].shared - {r}, exclusive := txns[t].exclusive - {r})];
      var q := lockTable[r];
      var i := GetIterator(q.requests, t);
      var mode := q.requests[i].mode;
      if !(mode == SHARED && txns[t].isolation == READ_COMMITTED) && txns[t].state == GROWING {
        txns := txns[t := txns[t].(state := SHRINKING)];
      }
      if mode == SHARED {
        lockTable := lockTable[r := q.(sharedCount := q.sharedCount - 1)];
        notify := lockTable[r].sharedCount == 0;
      } else {
        lockTable := lockTable[r := q.(writing := false)];
        notify := true;
      }
    }
  }
}
