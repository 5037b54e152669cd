/**
  Who waits for whom by the lock sets, and how that compares with the requests in the queues, where Unlock leaves
  granted requests behind.
 */
module Deadlocks {
  import opened LockStates
  import opened LockExclusions
  import opened WaitsFor

  /** a sleeps on a record that b holds. */
  ghost predicate WaitsOn(s: State, a: TxnId, b: TxnId) {
    a in s.txns && s.txns[a].wait.Asleep? && Holds(s, b, s.txns[a].wait.rid, false)
  }

  ghost predicate Behind(s: State, c: seq<TxnId>, i: nat)
    requires i + 1 < |c|
  {
    WaitsOn(s, c[i], c[i + 1])
  }

  /** A deadlock: transactions each of which sleeps on a record the next one holds, the last one being the first. */
  ghost predicate Deadlock(s: State, c: seq<TxnId>) {
    |c| >= 2 && c[0] == c[|c| - 1] && forall i {:trigger Behind(s, c, i)} :: 0 <= i < |c| - 1 ==> Behind(s, c, i)
  }

  /** b's request for r is still marked as granted although b does not hold r any more. */
  ghost predicate Stale(s: State, b: TxnId, r: Rid) {
    HasRequest(QueueOf(s, r).requests, b, true) && !Holds(s, b, r, false)
  }

  lemma EntryHas(q: seq<Request>, t: TxnId, granted: bool)
    requires Distinct(q)
    ensures HasRequest(q, t, granted) <==> Entry(q, t).Some? && Entry(q, t).value.granted == granted
  {
    if HasRequest(q, t, granted) {
      var i :| 0 <= i < |q| && q[i].txn == t && q[i].granted == granted;
      FindIs(q, t, i);
    }
  }

  /** An edge of the detector's graph is a real wait, or leads to a request left behind. */
  lemma EdgeIs(fixed: bool, s: State, a: TxnId, b: TxnId)
    requires Inv(fixed, s)
    ensures WaitsOn(s, a, b) ==> Waits(s.queues, a, b)
    ensures Waits(s.queues, a, b) ==> a in s.txns && s.txns[a].wait.Asleep? && (WaitsOn(s, a, b) <==> !Stale(s, b, s.txns[a].wait.rid))
  {
    if WaitsOn(s, a, b) {
      var r := s.txns[a].wait.rid;
      assert PairOk(TxnOf(s, a), QueueOf(s, r), a, r) && PairOk(TxnOf(s, b), QueueOf(s, r), b, r) && QueueOk(fixed, s, r);
      EntryHas(QueueOf(s, r).requests, a, false);
      EntryHas(QueueOf(s, r).requests, b, true);
      assert WaitsIn(s.queues[r].requests, a, b);
    }
    if Waits(s.queues, a, b) {
      var r :| r in s.queues && WaitsIn(s.queues[r].requests, a, b);
      WaiterSleeps(fixed, s, a, r);
    }
  }

  /** Every real deadlock is a circle of requests. */
  lemma DeadlockIsCycle(fixed: bool, s: State, c: seq<TxnId>)
    requires Inv(fixed, s) && Deadlock(s, c)
    ensures WaitCycle(s.queues, c)
  {
    forall i | 0 <= i < |c| - 1 ensures Follows(s.queues, c, i) {
      assert Behind(s, c, i);
      EdgeIs(fixed, s, c[i], c[i + 1]);
    }
  }

  // ------------------------------------------------------------------ requests left behind

  /** t's request for r is marked as granted. */
  predicate Marked(q: seq<Request>, t: TxnId) {
    Entry(q, t).Some? && Entry(q, t).value.granted
  }

  lemma EntryKept(fixed: bool, s: State, c: Call, u: TxnId, r: Rid)
    requires Inv(fixed, s) && CallOk(s, c) && u != c.t
    ensures Entry(QueueOf(Step(fixed, s, c), r).requests, u) == Entry(QueueOf(s, r).requests, u)
  {
    SectionLocal(fixed, s, c);
  }

  /** What becomes of the request of a transaction that goes on behind its wait: taken back, or granted with the lock. */
  lemma FinishedSettles(fixed: bool, x: Txn, q: Queue, t: TxnId, r: Rid)
    requires Distinct(q.requests) && Find(q.requests, t) < |q.requests|
    ensures Settled(FinishShared(x, q, t, r), t, r) && Settled(FinishExclusive(fixed, x, q, t, r), t, r)
    ensures Settled(FinishUpgrade(x, q, t, r), t, r)
  {
    Erases(q.requests, t);
  }

  predicate Settled(c: Cell, t: TxnId, r: Rid) {
    Entry(c.q.requests, t) == None || r in c.x.shared || r in c.x.exclusive
  }

  /** After a lock call's section the request waits, is taken back, or is granted with the lock. */
  lemma LockSettles(fixed: bool, x: Txn, q: Queue, t: TxnId, r: Rid)
    requires Distinct(q.requests) && Entry(q.requests, t) == None && !Refused(x)
    ensures var c := StartShared(x, q, t, r); c.outcome == Blocked || Settled(c, t, r)
    ensures var c := StartExclusive(fixed, x, q, t, r); c.outcome == Blocked || Settled(c, t, r)
  {
    Pushes(q.requests, Request(t, SHARED, false));
    Pushes(q.requests, Request(t, EXCLUSIVE, false));
    FinishedSettles(fixed, x, Pushed(q, t, SHARED), t, r);
    FinishedSettles(fixed, x, Pushed(q, t, EXCLUSIVE), t, r);
  }

  lemma UpgradeSettles(x: Txn, q: Queue, t: TxnId, r: Rid)
    requires Distinct(q.requests) && Find(q.requests, t) < |q.requests| && r in x.shared
    ensures var c := StartUpgrade(x, q, t, r); c.outcome == Blocked || Settled(c, t, r)
  {
    if !Refused(x) && !q.upgrading {
      var p := q.(requests := Update(q.requests, t, EXCLUSIVE, false), sharedCount := q.sharedCount - 1);
      Updates(q.requests, t, EXCLUSIVE, false);
      UpdateFinds(q.requests, t, EXCLUSIVE, false, t);
      FinishedSettles(true, x.(shared := x.shared - {r}), if p.writing || p.sharedCount > 0 then p.(upgrading := true) else p, t, r);
    }
  }

  lemma SectionSettles(fixed: bool, s: State, c: Call)
    requires CallOk(s, c) && Touches(s, c) && !c.Unlock? && Distinct(QueueOf(s, RidOf(s, c)).requests)
    ensures var cell := Section(fixed, s, c); cell.outcome == Blocked || Settled(cell, c.t, RidOf(s, c))
  {
    var x, t, r := s.txns[c.t], c.t, RidOf(s, c);
    var q := QueueOf(s, r);
    if c.LockShared? || c.LockExclusive? { LockSettles(fixed, x, q, t, r); }
    if c.LockUpgrade? { UpgradeSettles(x, q, t, r); }
    if c.Wake? { FinishedSettles(fixed, x, q, t, r); }
  }

  /** t's request for r is marked as granted, and t does not hold r. */
  predicate Left(x: Txn, q: Queue, t: TxnId, r: Rid) {
    Marked(q.requests, t) && r !in x.shared && r !in x.exclusive
  }

  /** Requests left behind, seen from the calling transaction. */
  lemma LeftHere(fixed: bool, s: State, c: Call)
    requires Inv(fixed, s) && CallOk(s, c) && Touches(s, c)
    ensures var r, cell := RidOf(s, c), Section(fixed, s, c);
      Left(cell.x, cell.q, c.t, r) <==> Left(s.txns[c.t], QueueOf(s, r), c.t, r) || c.Unlock?
  {
    var t, r, cell := c.t, RidOf(s, c), Section(fixed, s, c);
    assert PairOk(TxnOf(s, t), QueueOf(s, r), t, r);
    if c.Unlock? { return; }
    assert QueueOk(fixed, s, r);
    SectionSettles(fixed, s, c);
    if cell.outcome == Blocked {
      SectionLocal(fixed, s, c);
      assert cell.x.wait == Asleep(r, cell.x.wait.call);
    }
  }

  lemma LeftElsewhere(fixed: bool, s: State, c: Call, r: Rid)
    requires Inv(fixed, s) && CallOk(s, c) && (!Touches(s, c) || r != RidOf(s, c))
    ensures var s' := Step(fixed, s, c); Left(TxnOf(s', c.t), QueueOf(s', r), c.t, r) <==> Left(TxnOf(s, c.t), QueueOf(s, r), c.t, r)
  {
    var x, rid, cell := TxnOf(s, c.t), RidOf(s, c), Section(fixed, s, c);
    if Touches(s, c) {
      SectionLocal(fixed, s, c);
      SameElsewhere(x, QueueOf(s, rid), c.t, rid, cell.x, cell.q, r);
    }
  }

  /** Requests are left behind by Unlock, and by nothing else; they stay for good. */
  lemma StaleStep(fixed: bool, s: State, c: Call, b: TxnId, r: Rid)
    requires Inv(fixed, s) && CallOk(s, c)
    ensures Stale(Step(fixed, s, c), b, r) <==> Stale(s, b, r) || c == Unlock(b, r)
  {
    var s', t := Step(fixed, s, c), c.t;
    var q, q' := QueueOf(s, r), QueueOf(s', r);
    StepKeeps(fixed, s, c);
    assert QueueOk(fixed, s, r) && QueueOk(fixed, s', r);
    EntryHas(q.requests, b, true);
    EntryHas(q'.requests, b, true);
    OthersKeep(fixed, s, c, r);
    if b == t {
      if Touches(s, c) && r == RidOf(s, c) { LeftHere(fixed, s, c); } else { LeftElsewhere(fixed, s, c, r); }
    } else {
      EntryKept(fixed, s, c, b, r);
    }
  }

  /** b has given up r among the first n sections. */
  ghost predicate GivenUp(calls: seq<Call>, n: nat, b: TxnId, r: Rid)
    requires n <= |calls|
  {
    exists k :: 0 <= k < n && calls[k] == Unlock(b, r)
  }

  /** In a run, the requests left behind are exactly those of the locks given up. */
  lemma {:induction false} StaleIsGivenUp(fixed: bool, states: seq<State>, calls: seq<Call>, n: nat, b: TxnId, r: Rid)
    requires IsRun(fixed, states, calls) && n <= |calls|
    ensures Stale(states[n], b, r) <==> GivenUp(calls, n, b, r)
  {
    if n > 0 {
      StaleIsGivenUp(fixed, states, calls, n - 1, b, r);
      RunKeeps(fixed, states, calls, n - 1);
      assert CallOk(states[n - 1], calls[n - 1]);
      StaleStep(fixed, states[n - 1], calls[n - 1], b, r);
    }
  }

  // ------------------------------------------------------------------ which circles are deadlocks

  /** The next transaction of the circle has given up the record that c[i] sleeps on. */
  ghost predicate Detached(s: State, calls: seq<Call>, n: nat, c: seq<TxnId>, i: nat)
    requires n <= |calls| && i + 1 < |c|
  {
    c[i] in s.txns && s.txns[c[i]].wait.Asleep? && GivenUp(calls, n, c[i + 1], s.txns[c[i]].wait.rid)
  }

  /** A circle the detector finds is a deadlock if and only if nobody in it waits behind a lock already given up. */
  lemma CycleIsDeadlock(fixed: bool, states: seq<State>, calls: seq<Call>, n: nat, c: seq<TxnId>)
    requires IsRun(fixed, states, calls) && n <= |calls| && WaitCycle(states[n].queues, c)
    ensures Deadlock(states[n], c) <==> forall i {:trigger Detached(states[n], calls, n, c, i)} ::
      0 <= i < |c| - 1 ==> !Detached(states[n], calls, n, c, i)
  {
    var s := states[n];
    RunKeeps(fixed, states, calls, n);
    forall i | 0 <= i < |c| - 1 ensures Behind(s, c, i) <==> !Detached(s, calls, n, c, i) {
      assert Follows(s.queues, c, i);
      EdgeIs(fixed, s, c[i], c[i + 1]);
      StaleIsGivenUp(fixed, states, calls, n, c[i + 1], s.txns[c[i]].wait.rid);
    }
    if Deadlock(s, c) {
      forall i | 0 <= i < |c| - 1 ensures !Detached(s, calls, n, c, i) {
        assert Behind(s, c, i);
      }
    }
  }

  /** No sleeping transaction has given up a lock before. */
  ghost predicate SleepersHoldAll(s: State) {
    forall b, r {:trigger Stale(s, b, r)} :: Stale(s, b, r) && b in s.txns ==> !s.txns[b].wait.Asleep?
  }

  lemma SleepersDeadlock(fixed: bool, s: State, c: seq<TxnId>)
    requires Inv(fixed, s) && SleepersHoldAll(s) && WaitCycle(s.queues, c)
    ensures Deadlock(s, c)
  {
    forall i | 0 <= i < |c| - 1 ensures Behind(s, c, i) {
      assert Follows(s.queues, c, i);
      EdgeIs(fixed, s, c[i], c[i + 1]);
      var next := if i + 1 < |c| - 1 then i + 1 else 0;
      assert Follows(s.queues, c, next) && c[next] == c[i + 1];
      EdgeIs(fixed, s, c[next], c[next + 1]);
      assert !Stale(s, c[i + 1], s.txns[c[i]].wait.rid);
    }
  }

  /** A transaction past its growing phase never goes to sleep. */
  lemma EndedStaysAwake(fixed: bool, s: State, c: Call, b: TxnId)
    requires CallOk(s, c) && b in s.txns && s.txns[b].wait == Running && s.txns[b].state != GROWING
    ensures var s' := Step(fixed, s, c);
      b in s'.txns && s'.txns[b].wait == Running && s'.txns[b].state != GROWING && s'.txns[b].isolation == s.txns[b].isolation
  {}

  lemma IsolationStays(fixed: bool, s: State, c: Call, b: TxnId)
    requires CallOk(s, c) && b in s.txns
    ensures var s' := Step(fixed, s, c); b in s'.txns && s'.txns[b].isolation == s.txns[b].isolation
  {}

  lemma UnlockEnds(fixed: bool, s: State, b: TxnId, r: Rid)
    requires CallOk(s, Unlock(b, r)) && s.txns[b].isolation != READ_COMMITTED
    ensures var x := Step(fixed, s, Unlock(b, r)).txns[b]; x.wait == Running && x.state != GROWING
  {}

  /** A transaction that does not read committed and has given up a lock sleeps no more. */
  lemma {:induction false} GivenUpStaysAwake(fixed: bool, states: seq<State>, calls: seq<Call>, n: nat, b: TxnId, r: Rid)
    requires IsRun(fixed, states, calls) && n <= |calls| && GivenUp(calls, n, b, r)
    ensures b in states[n].txns
    ensures states[n].txns[b].isolation != READ_COMMITTED ==> states[n].txns[b].wait == Running && states[n].txns[b].state != GROWING
  {
    var s, c := states[n - 1], calls[n - 1];
    assert CallOk(s, c);
    if GivenUp(calls, n - 1, b, r) {
      GivenUpStaysAwake(fixed, states, calls, n - 1, b, r);
      IsolationStays(fixed, s, c, b);
      if s.txns[b].isolation != READ_COMMITTED { EndedStaysAwake(fixed, s, c, b); }
    } else {
      IsolationStays(fixed, s, c, b);
      if s.txns[b].isolation != READ_COMMITTED { UnlockEnds(fixed, s, b, r); }
    }
  }

  /** Without transactions that read committed, every circle the detector finds is a deadlock. */
  lemma RepeatableSleepersHoldAll(fixed: bool, states: seq<State>, calls: seq<Call>, n: nat)
    requires IsRun(fixed, states, calls) && n <= |calls|
    requires forall t :: t in states[n].txns ==> states[n].txns[t].isolation != READ_COMMITTED
    ensures SleepersHoldAll(states[n])
  {
    forall b, r | Stale(states[n], b, r) && b in states[n].txns ensures !states[n].txns[b].wait.Asleep? {
      StaleIsGivenUp(fixed, states, calls, n, b, r);
      GivenUpStaysAwake(fixed, states, calls, n, b, r);
    }
  }
}
