/**
  What happens when a transaction that reads committed locks a record again that it has unlocked: its old request is
  still in the queue, and it is the one every search for the transaction's request finds.
 */
module Relocks {
  import opened LockStates
  import opened LockExclusions
  import opened WaitsFor
  import opened LockManagers
  import opened DeadlockDetectors
  import opened Sets

  /** Every waiting request is that of a sleeper on the record, and nobody waits for itself. */
  ghost predicate Orderly(s: State) {
    WaitersSleep(s) && Selfless(s.queues)
  }

  /** A lock call on a record for which the transaction has a request leaves a waiting request behind it. */
  lemma PushedWaits(q: seq<Request>, t: TxnId, mode: Mode)
    requires Find(q, t) < |q|
    ensures var p := q + [Request(t, mode, false)];
      Find(p, t) == Find(q, t) && HasRequest(p, t, false) && HasRequest(Erase(p, t), t, false) && HasRequest(Grant(p, t), t, false) &&
      (q[Find(q, t)].granted ==> HasRequest(p, t, true))
  {
    var r := Request(t, mode, false);
    var p, i := q + [r], Find(q, t);
    FindPushed(q, r, t);
    assert p[|q|] == r && Erase(p, t)[|q| - 1] == r && Grant(p, t)[|q|] == r && p[i] == q[i];
  }

  ghost predicate LeftWaiting(c: Cell, t: TxnId) {
    HasRequest(c.q.requests, t, false) && (c.x.wait.Asleep? ==> HasRequest(c.q.requests, t, true))
  }

  lemma RelockCell(fixed: bool, x: Txn, q: Queue, t: TxnId, r: Rid)
    requires !Refused(x) && x.wait == Running && Find(q.requests, t) < |q.requests| && q.requests[Find(q.requests, t)].granted
    ensures LeftWaiting(StartShared(x, q, t, r), t) && LeftWaiting(StartExclusive(fixed, x, q, t, r), t)
  {
    PushedWaits(q.requests, t, SHARED);
    PushedWaits(q.requests, t, EXCLUSIVE);
  }

  /** Then the transaction either runs on with a waiting request, or sleeps and waits for itself. */
  lemma RelockWaits(fixed: bool, s: State, c: Call)
    requires Inv(fixed, s) && NoteOk(s, c) && !CallOk(s, c)
    ensures !Orderly(Step(fixed, s, c))
  {
    var t, r := c.t, c.r;
    var q, s' := QueueOf(s, r), Step(fixed, s, c);
    assert PairOk(TxnOf(s, t), q, t, r);
    RelockCell(fixed, s.txns[t], q, t, r);
    var cell := Section(fixed, s, c);
    assert s'.queues[r] == cell.q && s'.txns[t] == cell.x && LeftWaiting(cell, t);
    assert r in s'.queues && HasRequest(s'.queues[r].requests, t, false);
    if cell.x.wait.Asleep? {
      assert WaitsIn(s'.queues[r].requests, t, t);
      assert Waits(s'.queues, t, t);
    } else {
      assert !WaitersSleep(s');
    }
  }

  /** From a table in order, a call leads to one whose waiting requests are sleepers' if and only if it locks nothing again. */
  lemma OrderlyStep(fixed: bool, s: State, c: Call)
    requires Inv(fixed, s) && NoteOk(s, c)
    ensures Orderly(Step(fixed, s, c)) <==> CallOk(s, c)
  {
    if CallOk(s, c) {
      StepKeeps(fixed, s, c);
      InvWaits(fixed, Step(fixed, s, c));
    } else {
      RelockWaits(fixed, s, c);
    }
  }

  /** A run whose transactions keep to the lock note, but may lock records again. */
  ghost predicate IsNoteRun(fixed: bool, states: seq<State>, calls: seq<Call>) {
    |states| == |calls| + 1 && states[0] == START &&
    forall i {:trigger calls[i]} :: 0 <= i < |calls| ==>
      NoteOk(states[i], calls[i]) && states[i + 1] == Step(fixed, states[i], calls[i])
  }

  ghost predicate NothingAgain(states: seq<State>, calls: seq<Call>, n: nat)
    requires n <= |calls| < |states|
  {
    forall i {:trigger calls[i]} :: 0 <= i < n ==> CallOk(states[i], calls[i])
  }

  /** The table is in order at every point of a run up to the n-th if and only if no call before locks a record again. */
  lemma {:induction false} OrderlyExactly(fixed: bool, states: seq<State>, calls: seq<Call>, n: nat)
    requires IsNoteRun(fixed, states, calls) && n <= |calls|
    ensures (forall i :: 0 <= i <= n ==> Orderly(states[i])) <==> NothingAgain(states, calls, n)
    ensures NothingAgain(states, calls, n) ==> Inv(fixed, states[n])
  {
    if n == 0 {
      RunKeeps(fixed, [START], [], 0);
      InvWaits(fixed, START);
    } else {
      OrderlyExactly(fixed, states, calls, n - 1);
      if NothingAgain(states, calls, n - 1) {
        OrderlyStep(fixed, states[n - 1], calls[n - 1]);
        if CallOk(states[n - 1], calls[n - 1]) { StepKeeps(fixed, states[n - 1], calls[n - 1]); }
      }
    }
  }

  /** An unlock keeps the shared count exact if and only if the request it finds is for the mode held. */
  lemma UnlockCounts(fixed: bool, s: State, t: TxnId, r: Rid)
    requires NoteOk(s, Unlock(t, r)) && QueueOf(s, r).sharedCount == |Sharers(s, r)|
    ensures var s' := Step(fixed, s, Unlock(t, r));
      QueueOf(s', r).sharedCount == |Sharers(s', r)| <==> (Entry(QueueOf(s, r).requests, t).value.mode == SHARED <==> r in s.txns[t].shared)
  {
    var s' := Step(fixed, s, Unlock(t, r));
    forall u ensures u in Sharers(s', r) <==> u in Sharers(s, r) && u != t {}
    assert Sharers(s', r) == Sharers(s, r) - {t};
    assert t in Sharers(s, r) <==> r in s.txns[t].shared;
    Resize(Sharers(s, r), t);
  }

  /** Transaction 1, which reads committed, has shared record 7 and given it up. */
  method GivenUp() returns (lm: LockManager)
    ensures fresh(lm) && lm.Valid() && lm.fixed
    ensures lm.Now() == State(map[7 := Queue([Request(1, SHARED, true)], false, 0, false)],
                              map[1 := Txn(GROWING, READ_COMMITTED, {}, {}, Running)])
  {
    lm := new LockManager(true);
    lm.BeginTxn(1, READ_COMMITTED);
    var _ := lm.LockShared(1, 7);
    assert lm.lockTable[7].requests == [Request(1, SHARED, true)];
    var _ := lm.Unlock(1, 7);
  }

  method SharedAgain() returns (lm: LockManager, o: Outcome)
    ensures fresh(lm) && o == Granted && lm.txns == map[1 := Txn(GROWING, READ_COMMITTED, {7}, {}, Running)]
    ensures lm.lockTable == map[7 := Queue([Request(1, SHARED, true), Request(1, SHARED, false)], false, 1, false)]
  {
    lm := GivenUp();
    o := lm.LockShared(1, 7);
    assert lm.lockTable[7].requests == [Request(1, SHARED, true), Request(1, SHARED, false)];
  }

  lemma WaitsForItself(table: map<Rid, Queue>)
    requires 7 in table && table[7].requests == [Request(1, SHARED, true), Request(1, SHARED, false)]
    ensures WaitCycle(table, [1, 1])
  {
    var q := table[7].requests;
    assert q[0].granted && !q[1].granted;
    assert WaitsIn(q, 1, 1);
    assert Follows(table, [1, 1], 0);
  }

  /** When it shares the record again it waits for itself, and the detector aborts it although it does not sleep. */
  method RunningVictim() returns (lm: LockManager, o: Outcome)
    ensures fresh(lm) && o == Granted && 1 in lm.txns && lm.txns[1].state == ABORTED && lm.txns[1].wait == Running
  {
    lm, o := SharedAgain();
    WaitsForItself(lm.lockTable);
    var detector := new DeadlockDetector();
    ghost var victims, _, _ := detector.RunCycleDetection(lm);
    assert forall t :: t in victims ==> t == 1;
  }

  /** When it takes the record exclusively and unlocks it, the shared count goes below zero. */
  method CountBelowZero() returns (lm: LockManager)
    ensures fresh(lm) && 7 in lm.lockTable && lm.lockTable[7].sharedCount == -1 && lm.lockTable[7].writing && Sharers(lm.Now(), 7) == {}
  {
    lm := GivenUp();
    var _ := lm.LockExclusive(1, 7);
    assert lm.lockTable[7].requests == [Request(1, SHARED, true), Request(1, EXCLUSIVE, false)];
    var _ := lm.Unlock(1, 7);
  }
}
