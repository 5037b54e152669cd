/**
  Runs of the lock manager that show what its invariants do not promise.
 */
module LockExamples {
  import opened LockStates
  import opened LockExclusions
  import opened LockUpgrades
  import opened LockRuns
  import opened WakeUps
  import opened WaitsFor
  import opened Deadlocks

  const FRESH := Txn(GROWING, REPEATABLE_READ, {}, {}, Running)

  // ------------------------------------------------------------------ one call more

  /** A run and its last state. */
  datatype Trace = Trace(states: seq<State>, calls: seq<Call>, now: State)

  ghost predicate Ok(fixed: bool, h: Trace) {
    IsRun(fixed, h.states, h.calls) && h.now == h.states[|h.calls|]
  }

  /** h' goes on from h with call c, which leaves transaction x and queue q. */
  ghost predicate Goes(fixed: bool, h: Trace, c: Call, h': Trace, x: Txn, r: Rid, q: Queue) {
    Ok(fixed, h') && h'.calls == h.calls + [c] && h'.states == h.states + [h'.now] &&
    h'.now == State(h.now.queues[r := q], h.now.txns[c.t := x])
  }

  lemma Then(fixed: bool, h: Trace, c: Call) returns (h': Trace)
    requires Ok(fixed, h) && CallOk(h.now, c)
    ensures Ok(fixed, h') && h'.calls == h.calls + [c] && h'.states == h.states + [h'.now] && h'.now == Step(fixed, h.now, c)
  {
    var s := Step(fixed, h.now, c);
    h' := Trace(h.states + [s], h.calls + [c], s);
    forall i | 0 <= i < |h'.calls|
      ensures CallOk(h'.states[i], h'.calls[i]) && h'.states[i + 1] == Step(fixed, h'.states[i], h'.calls[i])
    {
      if i < |h.calls| { assert CallOk(h.states[i], h.calls[i]); }
    }
  }

  lemma Enters(fixed: bool, h: Trace, t: TxnId, isolation: Isolation) returns (h': Trace)
    requires Ok(fixed, h) && t !in h.now.txns
    ensures Ok(fixed, h') && h'.calls == h.calls + [Begin(t, isolation)] && h'.states == h.states + [h'.now]
    ensures h'.now == State(h.now.queues, h.now.txns[t := FRESH.(isolation := isolation)])
  {
    h' := Then(fixed, h, Begin(t, isolation));
  }

  /** A run of the given number of transactions that have done nothing yet. */
  lemma {:induction false} Begun(fixed: bool, n: nat) returns (h: Trace)
    ensures Ok(fixed, h) && |h.calls| == n && h.now.queues == map[]
    ensures forall t :: if 1 <= t <= n then t in h.now.txns && h.now.txns[t] == FRESH else t !in h.now.txns
  {
    if n == 0 {
      h := Trace([START], [], START);
    } else {
      h := Begun(fixed, n - 1);
      h := Enters(fixed, h, n, REPEATABLE_READ);
    }
  }

  /** t can make a request for r. */
  predicate Can(s: State, t: TxnId, r: Rid) {
    t in s.txns && s.txns[t].wait == Running && s.txns[t].state == GROWING && !Refused(s.txns[t]) &&
    r !in s.txns[t].shared && r !in s.txns[t].exclusive &&
    forall e :: e in QueueOf(s, r).requests ==> e.txn != t
  }

  lemma Shares(fixed: bool, h: Trace, t: TxnId, r: Rid) returns (h': Trace)
    requires Ok(fixed, h) && Can(h.now, t, r) && !QueueOf(h.now, r).writing
    ensures var x, q := h.now.txns[t], QueueOf(h.now, r);
      Goes(fixed, h, LockShared(t, r), h', x.(shared := x.shared + {r}), r,
           q.(requests := q.requests + [Request(t, SHARED, true)], sharedCount := q.sharedCount + 1))
  {
    var q, a, b := QueueOf(h.now, r).requests, Request(t, SHARED, false), Request(t, SHARED, true);
    FindPushed(q, a, t);
    assert (q + [a])[|q| := b] == q + [b];
    h' := Then(fixed, h, LockShared(t, r));
  }

  lemma Excludes(fixed: bool, h: Trace, t: TxnId, r: Rid) returns (h': Trace)
    requires Ok(fixed, h) && Can(h.now, t, r) && Free(QueueOf(h.now, r))
    ensures var x, q := h.now.txns[t], QueueOf(h.now, r);
      Goes(fixed, h, LockExclusive(t, r), h', x.(exclusive := x.exclusive + {r}), r,
           q.(requests := q.requests + [Request(t, EXCLUSIVE, true)], writing := fixed))
  {
    var q, a, b := QueueOf(h.now, r).requests, Request(t, EXCLUSIVE, false), Request(t, EXCLUSIVE, true);
    FindPushed(q, a, t);
    assert (q + [a])[|q| := b] == q + [b];
    h' := Then(fixed, h, LockExclusive(t, r));
  }

  lemma WaitsToShare(fixed: bool, h: Trace, t: TxnId, r: Rid) returns (h': Trace)
    requires Ok(fixed, h) && Can(h.now, t, r) && QueueOf(h.now, r).writing
    ensures var x, q := h.now.txns[t], QueueOf(h.now, r);
      Goes(fixed, h, LockShared(t, r), h', x.(wait := Asleep(r, CallShared)), r,
           q.(requests := q.requests + [Request(t, SHARED, false)]))
  {
    h' := Then(fixed, h, LockShared(t, r));
  }

  lemma WaitsToExclude(fixed: bool, h: Trace, t: TxnId, r: Rid) returns (h': Trace)
    requires Ok(fixed, h) && Can(h.now, t, r) && !Free(QueueOf(h.now, r))
    ensures var x, q := h.now.txns[t], QueueOf(h.now, r);
      Goes(fixed, h, LockExclusive(t, r), h', x.(wait := Asleep(r, CallExclusive)), r,
           q.(requests := q.requests + [Request(t, EXCLUSIVE, false)]))
  {
    h' := Then(fixed, h, LockExclusive(t, r));
  }

  /** Its request is the i-th of the queue. */
  lemma StopsSharing(fixed: bool, h: Trace, t: TxnId, r: Rid, i: nat) returns (h': Trace)
    requires Ok(fixed, h) && t in h.now.txns && r in h.now.txns[t].shared && h.now.txns[t].exclusive == {} && h.now.txns[t].wait == Running
    requires h.now.txns[t].state == GROWING
    requires var q := QueueOf(h.now, r).requests;
      i < |q| && q[i] == Request(t, SHARED, true) && forall j :: 0 <= j < i ==> q[j].txn != t
    ensures var x, q := h.now.txns[t], QueueOf(h.now, r);
      Goes(fixed, h, Unlock(t, r), h',
           x.(shared := x.shared - {r}, state := if x.isolation == READ_COMMITTED then GROWING else SHRINKING), r,
           q.(sharedCount := q.sharedCount - 1))
  {
    FindIs(QueueOf(h.now, r).requests, t, i);
    h' := Then(fixed, h, Unlock(t, r));
    var x := h.now.txns[t];
    assert x.exclusive - {r} == x.exclusive;
  }

  lemma WaitsToUpgrade(fixed: bool, h: Trace, t: TxnId, r: Rid, i: nat) returns (h': Trace)
    requires Ok(fixed, h) && t in h.now.txns && r in h.now.txns[t].shared && h.now.txns[t].wait == Running
    requires h.now.txns[t].state == GROWING && !Refused(h.now.txns[t])
    requires !QueueOf(h.now, r).upgrading && QueueOf(h.now, r).sharedCount > 1
    requires var q := QueueOf(h.now, r).requests;
      i < |q| && q[i] == Request(t, SHARED, true) && forall j :: 0 <= j < i ==> q[j].txn != t
    ensures var x, q := h.now.txns[t], QueueOf(h.now, r);
      Goes(fixed, h, LockUpgrade(t, r), h', x.(shared := x.shared - {r}, wait := Asleep(r, CallUpgrade)), r,
           q.(requests := q.requests[i := Request(t, EXCLUSIVE, false)], upgrading := true, sharedCount := q.sharedCount - 1))
  {
    FindIs(QueueOf(h.now, r).requests, t, i);
    h' := Then(fixed, h, LockUpgrade(t, r));
  }

  lemma IsAborted(fixed: bool, h: Trace, t: TxnId) returns (h': Trace)
    requires Ok(fixed, h) && t in h.now.txns
    ensures Ok(fixed, h') && h'.calls == h.calls + [SetState(t, ABORTED)] && h'.states == h.states + [h'.now]
    ensures h'.now == State(h.now.queues, h.now.txns[t := h.now.txns[t].(state := ABORTED)])
  {
    h' := Then(fixed, h, SetState(t, ABORTED));
  }

  // ------------------------------------------------------------------ exclusion lost by the code as it stands

  /** Two transactions that both end up with the same record in exclusive mode. */
  lemma TwoWriters() returns (h: Trace)
    ensures Ok(false, h) && |h.calls| == 4 && h.calls[2..] == [LockExclusive(1, 7), LockExclusive(2, 7)]
    ensures Alone(h.states[3], 7) && !Alone(h.states[4], 7)
  {
    h := Begun(false, 2);
    h := Excludes(false, h, 1, 7);
    assert Alone(h.now, 7);
    h := Excludes(false, h, 2, 7);
    assert 7 in h.now.txns[1].exclusive && 7 in h.now.txns[2].exclusive;
  }

  /** A reader is let in beside a writer. */
  lemma ReaderBesideWriter() returns (h: Trace)
    ensures Ok(false, h) && |h.calls| == 4 && h.calls[2..] == [LockExclusive(1, 7), LockShared(2, 7)]
    ensures Alone(h.states[3], 7) && !Alone(h.states[4], 7)
  {
    h := Begun(false, 2);
    h := Excludes(false, h, 1, 7);
    assert Alone(h.now, 7);
    h := Shares(false, h, 2, 7);
    assert 7 in h.now.txns[1].exclusive && 7 in h.now.txns[2].shared;
  }

  /** 2 sleeps in a request for the exclusive lock that would be granted now, and 1 has done nothing. */
  lemma Overtaken() returns (h: Trace)
    ensures Ok(false, h) && |h.calls| == 6 && h.calls[3..] == [LockShared(3, 7), LockExclusive(2, 7), Unlock(3, 7)]
    ensures (forall t :: t in h.now.txns <==> 1 <= t <= 3) && h.now.txns[1] == FRESH && h.now.txns[2] == FRESH.(wait := Asleep(7, CallExclusive))
    ensures h.now.txns[3].shared == {} && h.now.txns[3].exclusive == {}
    ensures 7 in h.now.queues && h.now.queues[7] == Queue([Request(3, SHARED, true), Request(2, EXCLUSIVE, false)], false, 0, false)
  {
    h := Begun(false, 3);
    h := Shares(false, h, 3, 7);
    h := WaitsToExclude(false, h, 2, 7);
    h := StopsSharing(false, h, 3, 7, 0);
  }

  /** A sleeping writer is let in beside another one when it wakes. */
  lemma WokenBesideWriter() returns (h: Trace)
    ensures Ok(false, h) && |h.calls| == 8 && h.calls[6..] == [LockExclusive(1, 7), Wake(2)]
    ensures Alone(h.states[7], 7) && !Alone(h.states[8], 7)
  {
    h := Overtaken();
    h := Excludes(false, h, 1, 7);
    assert Alone(h.now, 7);
    FindIs(h.now.queues[7].requests, 2, 1);
    h := Then(false, h, Wake(2));
    assert 7 in h.now.txns[1].exclusive && 7 in h.now.txns[2].exclusive;
  }

  /** 2 sleeps in an upgrade that 3, a reader, keeps it from. */
  lemma UpgradeBlocked() returns (h: Trace)
    ensures Ok(false, h) && |h.calls| == 6 && h.calls[3..] == [LockShared(2, 7), LockShared(3, 7), LockUpgrade(2, 7)]
    ensures (forall t :: t in h.now.txns <==> 1 <= t <= 3) && h.now.txns[1] == FRESH
    ensures h.now.txns[2] == FRESH.(wait := Asleep(7, CallUpgrade)) && h.now.txns[3] == FRESH.(shared := {7})
    ensures 7 in h.now.queues && h.now.queues[7] == Queue([Request(2, EXCLUSIVE, false), Request(3, SHARED, true)], true, 1, false)
  {
    h := Begun(false, 3);
    h := Shares(false, h, 2, 7);
    h := Shares(false, h, 3, 7);
    h := WaitsToUpgrade(false, h, 2, 7, 0);
  }

  /** A sleeping upgrade is let in beside a writer that came while it slept. */
  lemma UpgradedBesideWriter() returns (h: Trace)
    ensures Ok(false, h) && |h.calls| == 9 && h.calls[6..] == [Unlock(3, 7), LockExclusive(1, 7), Wake(2)]
    ensures Alone(h.states[8], 7) && !Alone(h.states[9], 7)
  {
    h := UpgradeBlocked();
    h := StopsSharing(false, h, 3, 7, 1);
    h := Excludes(false, h, 1, 7);
    assert Alone(h.now, 7);
    FindIs(h.now.queues[7].requests, 2, 0);
    h := Then(false, h, Wake(2));
    assert 7 in h.now.txns[1].exclusive && 7 in h.now.txns[2].exclusive;
  }

  // ------------------------------------------------------------------ the upgrading flag left up

  /** 1 and 2 share record 7. */
  lemma Sharing() returns (h: Trace)
    ensures Ok(true, h) && |h.calls| == 4 && h.calls[2..] == [LockShared(1, 7), LockShared(2, 7)]
    ensures (forall t :: t in h.now.txns <==> 1 <= t <= 2) && forall t :: 1 <= t <= 2 ==> h.now.txns[t] == FRESH.(shared := {7})
    ensures 7 in h.now.queues && h.now.queues[7] == Queue([Request(1, SHARED, true), Request(2, SHARED, true)], false, 2, false)
  {
    h := Begun(true, 2);
    h := Shares(true, h, 1, 7);
    h := Shares(true, h, 2, 7);
  }

  /** A deadlock victim wakes from its upgrade. */
  lemma VictimsFlag() returns (h: Trace)
    ensures Ok(true, h) && |h.calls| == 7 && h.calls[4..] == [LockUpgrade(1, 7), SetState(1, ABORTED), Wake(1)]
    ensures !Stuck(h.states[6], 7) && Stuck(h.states[7], 7)
  {
    h := Sharing();
    h := WaitsToUpgrade(true, h, 1, 7, 0);
    h := IsAborted(true, h, 1);
    assert Upgrading(h.states[6], 1, 7);
    FindIs(h.now.queues[7].requests, 1, 0);
    h := Then(true, h, Wake(1));
    assert QueueOf(h.now, 7).upgrading;
  }

  /** A transaction that has been aborted asks for an upgrade; nobody sleeps. */
  lemma AbortedUpgradesFlag() returns (h: Trace)
    ensures Ok(true, h) && |h.calls| == 6 && h.calls[4..] == [SetState(1, ABORTED), LockUpgrade(1, 7)]
    ensures !Stuck(h.states[5], 7) && Stuck(h.states[6], 7)
  {
    h := Sharing();
    h := IsAborted(true, h, 1);
    assert !QueueOf(h.now, 7).upgrading;
    FindIs(h.now.queues[7].requests, 1, 0);
    h := Then(true, h, LockUpgrade(1, 7));
    assert QueueOf(h.now, 7).upgrading;
  }

  // ------------------------------------------------------------------ a wait in an upgrade

  lemma Touching(fixed: bool, h: Trace, t: TxnId, r: Rid, write: bool, value: int) returns (h': Trace)
    requires Ok(fixed, h) && CallOk(h.now, Access(t, r, write, value))
    ensures Ok(fixed, h') && h'.calls == h.calls + [Access(t, r, write, value)] && h'.states == h.states + [h'.now] && h'.now == h.now
  {
    h' := Then(fixed, h, Access(t, r, write, value));
    assert h.now.txns[t := h.now.txns[t]] == h.now.txns;
  }

  lemma StopsExcluding(fixed: bool, h: Trace, t: TxnId, r: Rid, i: nat) returns (h': Trace)
    requires Ok(fixed, h) && t in h.now.txns && h.now.txns[t] == FRESH.(exclusive := {r})
    requires var q := QueueOf(h.now, r).requests;
      i < |q| && q[i] == Request(t, EXCLUSIVE, true) && forall j :: 0 <= j < i ==> q[j].txn != t
    ensures Goes(fixed, h, Unlock(t, r), h', FRESH.(state := SHRINKING), r, QueueOf(h.now, r).(writing := false))
  {
    FindIs(QueueOf(h.now, r).requests, t, i);
    h' := Then(fixed, h, Unlock(t, r));
    assert {r} - {r} == {} && FRESH.shared - {r} == {};
  }

  /** 2 and 3 share record 7, and 2 has read it. */
  lemma ReadOnce() returns (h: Trace)
    ensures Ok(true, h) && |h.calls| == 6 && h.calls[3..] == [LockShared(2, 7), Access(2, 7, false, 0), LockShared(3, 7)]
    ensures (forall t :: t in h.now.txns <==> 1 <= t <= 3) && h.now.txns[1] == FRESH
    ensures h.now.txns[2] == FRESH.(shared := {7}) && h.now.txns[3] == FRESH.(shared := {7})
    ensures 7 in h.now.queues && h.now.queues[7] == Queue([Request(2, SHARED, true), Request(3, SHARED, true)], false, 2, false)
  {
    h := Begun(true, 3);
    h := Shares(true, h, 2, 7);
    h := Touching(true, h, 2, 7, false, 0);
    h := Shares(true, h, 3, 7);
  }

  /** 2 asks for an upgrade and sleeps; 3 leaves. */
  lemma ReadAndBlocked() returns (h: Trace)
    ensures Ok(true, h) && |h.calls| == 8 && h.calls[4] == Access(2, 7, false, 0) && h.calls[6..] == [LockUpgrade(2, 7), Unlock(3, 7)]
    ensures (forall t :: t in h.now.txns <==> 1 <= t <= 3) && h.now.txns[1] == FRESH
    ensures h.now.txns[2] == FRESH.(wait := Asleep(7, CallUpgrade)) && h.now.txns[3].isolation == REPEATABLE_READ
    ensures 7 in h.now.queues && h.now.queues[7] == Queue([Request(2, EXCLUSIVE, false), Request(3, SHARED, true)], true, 0, false)
  {
    h := ReadOnce();
    assert h.calls[3..][1] == h.calls[4];
    h := WaitsToUpgrade(true, h, 2, 7, 0);
    h := StopsSharing(true, h, 3, 7, 1);
  }

  /** 1 takes the record, writes it, and gives it back. */
  lemma WrittenMeanwhile() returns (h: Trace)
    ensures Ok(true, h) && |h.calls| == 11 && h.calls[4] == Access(2, 7, false, 0)
    ensures h.calls[8..] == [LockExclusive(1, 7), Access(1, 7, true, 1), Unlock(1, 7)]
    ensures 2 in h.now.txns && h.now.txns[2] == FRESH.(wait := Asleep(7, CallUpgrade))
    ensures forall t :: t in h.now.txns ==> h.now.txns[t].isolation == REPEATABLE_READ
    ensures 7 in h.now.queues &&
      h.now.queues[7] == Queue([Request(2, EXCLUSIVE, false), Request(3, SHARED, true), Request(1, EXCLUSIVE, true)], true, 0, false)
  {
    h := ReadAndBlocked();
    h := Excludes(true, h, 1, 7);
    h := Touching(true, h, 1, 7, true, 1);
    h := StopsExcluding(true, h, 1, 7, 2);
  }

  /** Then 2 goes on and writes it too: each of 1 and 2 comes before the other, so no serial order will do. */
  lemma UpgradeLosesPlace() returns (h: Trace)
    ensures Ok(true, h) && |h.calls| == 13 && h.calls[11..] == [Wake(2), Access(2, 7, true, 2)]
    ensures (forall t :: t in h.now.txns ==> h.now.txns[t].isolation == REPEATABLE_READ) && Precedes(h.calls, 1, 2) && Precedes(h.calls, 2, 1)
  {
    h := WrittenMeanwhile();
    assert h.calls[8..][1] == h.calls[9];
    FindIs(h.now.queues[7].requests, 2, 0);
    h := Then(true, h, Wake(2));
    h := Touching(true, h, 2, 7, true, 2);
    assert Conflict(h.calls[4], h.calls[9]) && Conflict(h.calls[9], h.calls[12]);
  }

  // ------------------------------------------------------------------ an abort without a deadlock

  /** Transaction 1, which reads committed, has shared record 10 and given it up. */
  lemma GaveUp() returns (h: Trace)
    ensures Ok(true, h) && |h.calls| == 5 && h.calls[3..] == [LockShared(1, 10), Unlock(1, 10)]
    ensures (forall t :: t in h.now.txns <==> 1 <= t <= 3) && h.now.txns[1] == FRESH.(isolation := READ_COMMITTED)
    ensures h.now.txns[2] == FRESH && h.now.txns[3] == FRESH
    ensures h.now.queues.Keys == {10} && h.now.queues[10] == Queue([Request(1, SHARED, true)], false, 0, false)
  {
    h := Begun(true, 0);
    h := Enters(true, h, 1, READ_COMMITTED);
    h := Enters(true, h, 2, REPEATABLE_READ);
    h := Enters(true, h, 3, REPEATABLE_READ);
    h := Shares(true, h, 1, 10);
    h := StopsSharing(true, h, 1, 10, 0);
  }

  /** Then 3 takes record 10, and 2 takes record 20. */
  lemma Taken() returns (h: Trace)
    ensures Ok(true, h) && |h.calls| == 7 && h.calls[5..] == [LockExclusive(3, 10), LockExclusive(2, 20)]
    ensures (forall t :: t in h.now.txns <==> 1 <= t <= 3) && h.now.txns[1] == FRESH.(isolation := READ_COMMITTED)
    ensures h.now.txns[2] == FRESH.(exclusive := {20}) && h.now.txns[3] == FRESH.(exclusive := {10})
    ensures 10 in h.now.queues && h.now.queues[10] == Queue([Request(1, SHARED, true), Request(3, EXCLUSIVE, true)], false, 0, true)
    ensures 20 in h.now.queues && h.now.queues[20] == Queue([Request(2, EXCLUSIVE, true)], false, 0, true)
  {
    h := GaveUp();
    h := Excludes(true, h, 3, 10);
    h := Excludes(true, h, 2, 20);
  }

  /** The requests of 1 and 2 stand in a circle, but 1 waits for 2, 2 for 3, and 3 for nobody. */
  lemma CircleWithoutDeadlock() returns (h: Trace)
    ensures Ok(true, h) && |h.calls| == 9 && h.calls[7..] == [LockExclusive(2, 10), LockShared(1, 20)]
    ensures WaitCycle(h.now.queues, [1, 2, 1]) && forall c :: !Deadlock(h.now, c)
  {
    h := Taken();
    h := WaitsToExclude(true, h, 2, 10);
    h := WaitsToShare(true, h, 1, 20);
    var s := h.now;
    var q, p := s.queues[10].requests, s.queues[20].requests;
    assert q[0] == Request(1, SHARED, true) && q[2] == Request(2, EXCLUSIVE, false);
    assert p[0] == Request(2, EXCLUSIVE, true) && p[1] == Request(1, SHARED, false);
    assert WaitsIn(q, 2, 1) && WaitsIn(p, 1, 2);
    forall i | 0 <= i < 2 ensures Follows(s.queues, [1, 2, 1], i) {}
    forall c ensures !Deadlock(s, c) {
      if Deadlock(s, c) { Rises(s, c, |c| - 1); }
    }
  }

  /** Where waits lead to newer transactions only there is no deadlock. */
  lemma {:induction false} Rises(s: State, c: seq<TxnId>, n: nat)
    requires (forall a, b :: WaitsOn(s, a, b) ==> a < b) && Deadlock(s, c) && 1 <= n < |c|
    ensures c[0] < c[n]
  {
    assert Behind(s, c, n - 1);
    if n > 1 { Rises(s, c, n - 1); }
  }

  // ------------------------------------------------------------------ a sleeper nobody notifies

  lemma {:induction false} NobodyRang(states: seq<State>, calls: seq<Call>, n: nat, t: TxnId)
    requires n <= |calls| < |states| && forall i :: 0 <= i < n ==> !calls[i].Unlock? && calls[i] != SetState(t, ABORTED)
    ensures !Notified(states, calls, n, t)
  {
    if n > 0 { NobodyRang(states, calls, n - 1, t); }
  }

  /** 2 waits for 1, which has been aborted, to stop sharing. */
  lemma BehindAborted() returns (h: Trace)
    ensures Ok(true, h) && |h.calls| == 5
    ensures h.calls[..2] == [Begin(1, REPEATABLE_READ), Begin(2, REPEATABLE_READ)]
    ensures h.calls[2..] == [LockShared(1, 7), LockExclusive(2, 7), SetState(1, ABORTED)]
    ensures (forall t :: t in h.now.txns <==> 1 <= t <= 2) && h.now.txns[1] == FRESH.(state := ABORTED, shared := {7})
    ensures h.now.txns[2] == FRESH.(wait := Asleep(7, CallExclusive))
    ensures 7 in h.now.queues && h.now.queues[7] == Queue([Request(1, SHARED, true), Request(2, EXCLUSIVE, false)], false, 1, false)
  {
    h := Begun(true, 0);
    h := Enters(true, h, 1, REPEATABLE_READ);
    h := Enters(true, h, 2, REPEATABLE_READ);
    h := Shares(true, h, 1, 7);
    h := WaitsToExclude(true, h, 2, 7);
    h := IsAborted(true, h, 1);
  }

  /** 2 could have the record now, and nobody has told it. */
  lemma Forgotten() returns (h: Trace)
    ensures Ok(true, h) && |h.calls| == 6 && h.calls[5] == LockUpgrade(1, 7)
    ensures Sleeping(h.now, 2) && WaitOver(h.now, 2) && !Notified(h.states, h.calls, 6, 2)
  {
    h := BehindAborted();
    assert forall i :: 0 <= i < 3 ==> h.calls[2 + i] == h.calls[2..][i];
    assert forall i :: 0 <= i < 2 ==> h.calls[i] == h.calls[..2][i];
    FindIs(h.now.queues[7].requests, 1, 0);
    h := Then(true, h, LockUpgrade(1, 7));
    NobodyRang(h.states, h.calls, 6, 2);
  }
}
