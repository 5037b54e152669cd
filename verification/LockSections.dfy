/**
  What each section of the lock manager does, call by call, in terms of the caller's state and the record's queue.
 */
module LockSections {
  import opened LockStates
  import opened Deadlocks
  import opened Sets

  predicate IsLockCall(c: Call) {
    c.LockShared? || c.LockExclusive? || c.LockUpgrade?
  }

  /** A shrinking transaction, or one that reads uncommitted, gets no lock and is aborted; no queue is touched. */
  lemma LockRefused(fixed: bool, s: State, c: Call)
    requires NoteOk(s, c) && IsLockCall(c) && (s.txns[c.t].state == SHRINKING || s.txns[c.t].isolation == READ_UNCOMMITTED)
    ensures Section(fixed, s, c).outcome ==
      Thrown(if s.txns[c.t].state == SHRINKING then LOCK_ON_SHRINKING else LOCKSHARED_ON_READ_UNCOMMITTED)
    ensures Step(fixed, s, c) == State(s.queues, s.txns[c.t := s.txns[c.t].(state := ABORTED)])
  {}

  /** The section leaves transaction x and queue q behind, with outcome o, and nothing else has changed. */
  ghost predicate Leaves(fixed: bool, s: State, c: Call, r: Rid, o: Outcome, x: Txn, q: Queue)
    requires NoteOk(s, c)
  {
    Section(fixed, s, c).outcome == o && Step(fixed, s, c) == State(s.queues[r := q], s.txns[c.t := x])
  }

  predicate Admitted(x: Txn) {
    x.state != SHRINKING && x.isolation != READ_UNCOMMITTED
  }

  lemma LastRequest(q: seq<Request>, t: TxnId, mode: Mode)
    requires Entry(q, t) == None
    ensures var p := q + [Request(t, mode, false)];
      Find(p, t) == |q| && Erase(p, t) == q && Grant(p, t) == q + [Request(t, mode, true)]
  {
    FindPushed(q, Request(t, mode, false), t);
    var p := q + [Request(t, mode, false)];
    assert p[..|q|] + p[|q| + 1..] == q;
    assert p[|q| := Request(t, mode, true)] == q + [Request(t, mode, true)];
  }

  lemma LockSharedIs(fixed: bool, s: State, t: TxnId, r: Rid)
    requires CallOk(s, LockShared(t, r)) && Admitted(s.txns[t])
    ensures var c, x, q := LockShared(t, r), s.txns[t], QueueOf(s, r);
      if x.state == ABORTED then Leaves(fixed, s, c, r, Thrown(DEADLOCK), x, q)
      else if q.writing then
        Leaves(fixed, s, c, r, Blocked, x.(wait := Asleep(r, CallShared)), q.(requests := q.requests + [Request(t, SHARED, false)]))
      else
        Leaves(fixed, s, c, r, Granted, x.(shared := x.shared + {r}),
               q.(requests := q.requests + [Request(t, SHARED, true)], sharedCount := q.sharedCount + 1))
  {
    LastRequest(QueueOf(s, r).requests, t, SHARED);
  }

  lemma LockExclusiveIs(fixed: bool, s: State, t: TxnId, r: Rid)
    requires CallOk(s, LockExclusive(t, r)) && Admitted(s.txns[t])
    ensures var c, x, q := LockExclusive(t, r), s.txns[t], QueueOf(s, r);
      if x.state == ABORTED then Leaves(fixed, s, c, r, Thrown(DEADLOCK), x, q)
      else if q.writing || q.sharedCount > 0 then
        Leaves(fixed, s, c, r, Blocked, x.(wait := Asleep(r, CallExclusive)), q.(requests := q.requests + [Request(t, EXCLUSIVE, false)]))
      else
        Leaves(fixed, s, c, r, Granted, x.(exclusive := x.exclusive + {r}),
               q.(requests := q.requests + [Request(t, EXCLUSIVE, true)], writing := fixed))
  {
    LastRequest(QueueOf(s, r).requests, t, EXCLUSIVE);
  }

  /** The queue without its i-th request. */
  function Without(q: seq<Request>, i: nat): seq<Request>
    requires i < |q|
  {
    q[..i] + q[i + 1..]
  }

  /** t's request is the i-th. */
  ghost predicate At(q: seq<Request>, t: TxnId, i: nat) {
    Distinct(q) && i < |q| && q[i].txn == t
  }

  lemma AtFinds(q: seq<Request>, t: TxnId, i: nat)
    requires At(q, t, i)
    ensures Find(q, t) == i
  {
    FindIs(q, t, i);
  }

  lemma LockUpgradeIs(fixed: bool, s: State, t: TxnId, r: Rid, i: nat)
    requires CallOk(s, LockUpgrade(t, r)) && Admitted(s.txns[t]) && At(QueueOf(s, r).requests, t, i)
    ensures var c, x, q, n := LockUpgrade(t, r), s.txns[t], QueueOf(s, r), QueueOf(s, r).sharedCount - 1;
      var y := x.(shared := x.shared - {r});
      if q.upgrading then Leaves(fixed, s, c, r, Thrown(UPGRADE_CONFLICT), x.(state := ABORTED), q)
      else if x.state == ABORTED then
        Leaves(fixed, s, c, r, Thrown(DEADLOCK), y, q.(requests := Without(q.requests, i), sharedCount := n, upgrading := q.writing || n > 0))
      else if q.writing || n > 0 then
        Leaves(fixed, s, c, r, Blocked, y.(wait := Asleep(r, CallUpgrade)),
               q.(requests := q.requests[i := Request(t, EXCLUSIVE, false)], sharedCount := n, upgrading := true))
      else
        Leaves(fixed, s, c, r, Granted, y.(exclusive := x.exclusive + {r}),
               q.(requests := q.requests[i := Request(t, EXCLUSIVE, true)], sharedCount := n, writing := true))
  {
    var q := QueueOf(s, r).requests;
    AtFinds(q, t, i);
    UpdateFinds(q, t, EXCLUSIVE, false, t);
    var p := q[i := Request(t, EXCLUSIVE, false)];
    assert Without(p, i) == Without(q, i) && p[i := Request(t, EXCLUSIVE, true)] == q[i := Request(t, EXCLUSIVE, true)];
  }

  /** A wake-up: the call goes on if the transaction was aborted or the record can be had, and else sleeps on. */
  lemma WakeIs(fixed: bool, s: State, t: TxnId, i: nat)
    requires CallOk(s, Wake(t)) && At(QueueOf(s, s.txns[t].wait.rid).requests, t, i)
    ensures var c, x, r := Wake(t), s.txns[t], s.txns[t].wait.rid; var q, y, call := QueueOf(s, r), x.(wait := Running), x.wait.call;
      var granted := q.requests[i := q.requests[i].(granted := true)];
      if x.state == ABORTED then Leaves(fixed, s, c, r, Thrown(DEADLOCK), y, q.(requests := Without(q.requests, i)))
      else if q.writing || (call != CallShared && q.sharedCount > 0) then Leaves(fixed, s, c, r, Blocked, x, q)
      else match call
        case CallShared =>
          Leaves(fixed, s, c, r, Granted, y.(shared := x.shared + {r}), q.(requests := granted, sharedCount := q.sharedCount + 1))
        case CallExclusive =>
          Leaves(fixed, s, c, r, Granted, y.(exclusive := x.exclusive + {r}), q.(requests := granted, writing := fixed))
        case CallUpgrade =>
          Leaves(fixed, s, c, r, Granted, y.(exclusive := x.exclusive + {r}), q.(requests := granted, upgrading := false, writing := true))
  {
    AtFinds(QueueOf(s, s.txns[t].wait.rid).requests, t, i);
  }

  /** The request stays; a growing transaction goes on growing exactly if it reads committed and has shared the record. */
  lemma UnlockIs(fixed: bool, s: State, t: TxnId, r: Rid)
    requires Inv(fixed, s) && CallOk(s, Unlock(t, r))
    ensures var c, x, q := Unlock(t, r), s.txns[t], QueueOf(s, r); var shares := r in x.shared;
      var state := if x.state == GROWING && !(x.isolation == READ_COMMITTED && shares) then SHRINKING else x.state;
      Leaves(fixed, s, c, r, Granted, x.(shared := x.shared - {r}, exclusive := x.exclusive - {r}, state := state),
             if shares then q.(sharedCount := q.sharedCount - 1) else q.(writing := false))
    ensures Notifies(s, Unlock(t, r), r) <==> r in s.txns[t].exclusive || Sharers(s, r) == {t}
  {
    assert QueueOk(fixed, s, r) && PairOk(TxnOf(s, t), QueueOf(s, r), t, r);
    assert t in Sharers(s, r) <==> r in s.txns[t].shared;
    if r in s.txns[t].shared { OnlyOne(Sharers(s, r), t); }
  }

  lemma OnlyOne(a: set<TxnId>, t: TxnId)
    requires t in a
    ensures |a| == 1 <==> a == {t}
  {
    if |a| == 1 { Only(a, t); }
  }

  // ------------------------------------------------------------------ over runs

  /** t has no lock and waits for none. */
  predicate Bare(x: Txn) {
    x.shared == {} && x.exclusive == {} && x.wait == Running
  }

  lemma UncommittedStep(fixed: bool, s: State, c: Call, t: TxnId)
    requires CallOk(s, c) && t in s.txns && s.txns[t].isolation == READ_UNCOMMITTED && Bare(s.txns[t])
    ensures var s' := Step(fixed, s, c); t in s'.txns && Bare(s'.txns[t])
  {
    if c.t == t && IsLockCall(c) { LockRefused(fixed, s, c); }
  }

  /** A transaction that reads uncommitted never holds a lock or waits for one. */
  lemma {:induction false} UncommittedNeverLocks(fixed: bool, states: seq<State>, calls: seq<Call>, n: nat, t: TxnId)
    requires IsRun(fixed, states, calls) && n <= |calls| && t in states[n].txns && states[n].txns[t].isolation == READ_UNCOMMITTED
    ensures Bare(states[n].txns[t])
  {
    var s, c := states[n - 1], calls[n - 1];
    assert CallOk(s, c);
    if t in s.txns {
      IsolationStays(fixed, s, c, t);
      UncommittedNeverLocks(fixed, states, calls, n - 1, t);
      UncommittedStep(fixed, s, c, t);
    }
  }
}
