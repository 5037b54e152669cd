/**
  Notifications of sleeping lock calls: who is notified when a wait predicate comes true, over whole runs.
 */
module WakeUps {
  import opened LockStates
  import opened LockExclusions

  predicate Sleeping(s: State, t: TxnId) {
    t in s.txns && s.txns[t].wait.Asleep?
  }

  /** The section notifies the sleeper t: an Unlock does, and the detector when it aborts t. */
  predicate Rings(s: State, c: Call, t: TxnId)
    requires CallOk(s, c) && Sleeping(s, t)
  {
    Notifies(s, c, s.txns[t].wait.rid) || c == SetState(t, ABORTED)
  }

  /** The last share of r goes without a word: an aborted transaction asks for an upgrade. */
  predicate Slips(s: State, c: Call, r: Rid)
    requires CallOk(s, c)
  {
    c.LockUpgrade? && c.r == r && s.txns[c.t].state == ABORTED && !Refused(s.txns[c.t]) &&
    var q := QueueOf(s, r); !q.upgrading && !q.writing && q.sharedCount == 1
  }

  /** The same, as far as the sleeper's record and the caller are concerned. */
  lemma WakeHere(fixed: bool, s: State, c: Call, t: TxnId, r: Rid)
    requires CallOk(s, c) && Touches(s, c) && RidOf(s, c) == r && Sleeping(s, t) && s.txns[t].wait.rid == r && c.t != t && !WaitOver(s, t)
    requires Distinct(QueueOf(s, r).requests) && PairOk(TxnOf(s, c.t), QueueOf(s, r), c.t, r)
    ensures Sleeping(Step(fixed, s, c), t)
    ensures WaitOver(Step(fixed, s, c), t) && !Rings(s, c, t) <==> Slips(s, c, r)
  {}

  /** Exactly then does another transaction's section make a wait predicate come true without notifying the sleeper. */
  lemma WakeStep(fixed: bool, s: State, c: Call, t: TxnId)
    requires Inv(fixed, s) && CallOk(s, c) && Sleeping(s, t) && c.t != t && !WaitOver(s, t)
    ensures Sleeping(Step(fixed, s, c), t)
    ensures WaitOver(Step(fixed, s, c), t) && !Rings(s, c, t) <==> Slips(s, c, s.txns[t].wait.rid)
  {
    var r := s.txns[t].wait.rid;
    if Touches(s, c) && RidOf(s, c) == r {
      assert QueueOk(fixed, s, r) && PairOk(TxnOf(s, c.t), QueueOf(s, r), c.t, r);
      WakeHere(fixed, s, c, t, r);
    }
  }

  /** A call that goes to sleep, or back to sleep, does so because its predicate does not hold. */
  lemma AsleepForAReason(fixed: bool, s: State, c: Call)
    requires Inv(fixed, s) && CallOk(s, c) && Sleeping(Step(fixed, s, c), c.t) && !c.SetState?
    ensures !WaitOver(Step(fixed, s, c), c.t)
  {}

  /** Transaction t was notified since it last went to sleep. */
  predicate Notified(states: seq<State>, calls: seq<Call>, n: nat, t: TxnId)
    requires n <= |calls| < |states|
  {
    n > 0 && Sleeping(states[n - 1], t) && CallOk(states[n - 1], calls[n - 1]) && calls[n - 1] != Wake(t) &&
    (Notified(states, calls, n - 1, t) || Rings(states[n - 1], calls[n - 1], t))
  }

  /** Since then the last share of its record has gone without a word. */
  predicate Slipped(states: seq<State>, calls: seq<Call>, n: nat, t: TxnId)
    requires n <= |calls| < |states|
  {
    n > 0 && Sleeping(states[n - 1], t) && CallOk(states[n - 1], calls[n - 1]) && calls[n - 1] != Wake(t) &&
    (Slipped(states, calls, n - 1, t) || Slips(states[n - 1], calls[n - 1], states[n - 1].txns[t].wait.rid))
  }

  /** No wake-up is lost: at every point of a run a sleeper that could go on has been notified, unless a share has slipped. */
  lemma {:induction false} SleeperIsNotified(fixed: bool, states: seq<State>, calls: seq<Call>, n: nat, t: TxnId)
    requires IsRun(fixed, states, calls) && n <= |calls| && Sleeping(states[n], t) && WaitOver(states[n], t)
    ensures Notified(states, calls, n, t) || Slipped(states, calls, n, t)
  {
    var s, c := states[n - 1], calls[n - 1];
    assert CallOk(s, c);
    RunKeeps(fixed, states, calls, n - 1);
    if c.t == t && !c.SetState? { AsleepForAReason(fixed, s, c); }
    SleepsOn(fixed, s, c, t);
    if WaitOver(s, t) {
      SleeperIsNotified(fixed, states, calls, n - 1, t);
    } else if c.t != t {
      WakeStep(fixed, s, c, t);
    }
  }

  lemma SleepsOn(fixed: bool, s: State, c: Call, t: TxnId)
    requires CallOk(s, c) && Sleeping(Step(fixed, s, c), t) && (c.t != t || c.SetState?)
    ensures Sleeping(s, t)
  {}
}
