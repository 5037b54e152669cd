/**
  What LockUpgrade does to two-phase locking, and what an aborted upgrade leaves behind.
 */
module LockUpgrades {
  import opened LockStates
  import opened Sets
  import opened LockExclusions

  /** The upgrade of r is refused, or goes through at once: t is not aborted and the only sharer, and the flag is down. */
  ghost predicate AtOnce(s: State, t: TxnId, r: Rid)
    requires t in s.txns
  {
    Refused(s.txns[t]) || QueueOf(s, r).upgrading || (Sharers(s, r) == {t} && !QueueOf(s, r).writing && s.txns[t].state != ABORTED)
  }

  /** Exactly then does an upgrade keep a hold on the record; with the flag set on every exclusive grant it is down. */
  lemma UpgradeKeepsHold(fixed: bool, s: State, t: TxnId, r: Rid)
    requires Inv(fixed, s) && CallOk(s, LockUpgrade(t, r))
    ensures Holds(Step(fixed, s, LockUpgrade(t, r)), t, r, false) <==> AtOnce(s, t, r)
    ensures fixed ==> !QueueOf(s, r).writing
  {
    var q := QueueOf(s, r);
    assert QueueOk(fixed, s, r) && PairOk(TxnOf(s, t), q, t, r);
    assert t in Sharers(s, r);
    if q.sharedCount == 1 { Only(Sharers(s, r), t); }
  }

  // ------------------------------------------------------------------ the upgrading flag

  /** t is asleep in an upgrade of r. */
  predicate Upgrading(s: State, t: TxnId, r: Rid) {
    t in s.txns && s.txns[t].wait == Asleep(r, CallUpgrade)
  }

  /** A sleeping upgrade keeps the flag up, and there is at most one per record. */
  ghost predicate OneUpgrade(s: State, r: Rid) {
    (forall t :: Upgrading(s, t, r) ==> QueueOf(s, r).upgrading) &&
    forall t, u :: Upgrading(s, t, r) && Upgrading(s, u, r) ==> t == u
  }

  lemma StepUpgrading(fixed: bool, s: State, c: Call, u: TxnId, r: Rid)
    requires CallOk(s, c)
    ensures var s' := Step(fixed, s, c);
      (c.t != u ==> (Upgrading(s', u, r) <==> Upgrading(s, u, r))) &&
      (Upgrading(s', u, r) && !Upgrading(s, u, r) ==> c == LockUpgrade(u, r) && !QueueOf(s, r).upgrading && QueueOf(s', r).upgrading)
  {}

  /** Only a sleeping upgrade that is granted on waking takes the flag down. */
  lemma FlagDown(fixed: bool, s: State, c: Call, r: Rid)
    requires CallOk(s, c)
    ensures QueueOf(s, r).upgrading && !QueueOf(Step(fixed, s, c), r).upgrading ==>
      c.Wake? && Upgrading(s, c.t, r) && !Upgrading(Step(fixed, s, c), c.t, r)
  {}

  lemma {:induction false} OneUpgradeInRuns(fixed: bool, states: seq<State>, calls: seq<Call>, i: nat, r: Rid)
    requires IsRun(fixed, states, calls) && i < |states|
    ensures OneUpgrade(states[i], r)
  {
    if i > 0 {
      OneUpgradeInRuns(fixed, states, calls, i - 1, r);
      var s, c := states[i - 1], calls[i - 1];
      assert CallOk(s, c);
      forall u ensures Upgrading(states[i], u, r) ==> (Upgrading(s, u, r) && c.t != u) || QueueOf(states[i], r).upgrading {
        StepUpgrading(fixed, s, c, u, r);
        FlagDown(fixed, s, c, r);
      }
      forall u, v | Upgrading(states[i], u, r) && Upgrading(states[i], v, r) ensures u == v && QueueOf(states[i], r).upgrading {
        StepUpgrading(fixed, s, c, u, r);
        StepUpgrading(fixed, s, c, v, r);
        FlagDown(fixed, s, c, r);
      }
    }
  }

  /** The flag is up although no upgrade is under way. */
  ghost predicate Stuck(s: State, r: Rid) {
    QueueOf(s, r).upgrading && forall t :: !Upgrading(s, t, r)
  }

  /**
    The two ways to leave the flag up: an aborted upgrade wakes, or an aborted transaction asks for an upgrade that
    would have to wait.
   */
  predicate LeavesFlag(s: State, c: Call, r: Rid)
    requires CallOk(s, c)
  {
    (c.Wake? && Upgrading(s, c.t, r) && s.txns[c.t].state == ABORTED) ||
    (c.LockUpgrade? && c.r == r && s.txns[c.t].state == ABORTED && !Refused(s.txns[c.t]) &&
     var q := QueueOf(s, r); !q.upgrading && (q.writing || q.sharedCount > 1))
  }

  /** Exactly these two leave the flag up with no upgrade under way. */
  lemma FlagLeftUp(fixed: bool, s: State, c: Call, r: Rid)
    requires Inv(fixed, s) && CallOk(s, c) && OneUpgrade(s, r) && !Stuck(s, r)
    ensures Stuck(Step(fixed, s, c), r) <==> LeavesFlag(s, c, r)
  {
    var s', t := Step(fixed, s, c), c.t;
    forall u | u != t ensures Upgrading(s', u, r) <==> Upgrading(s, u, r) {
      StepUpgrading(fixed, s, c, u, r);
    }
    StepUpgrading(fixed, s, c, t, r);
    if LeavesFlag(s, c, r) {
      assert forall u :: u != t ==> !Upgrading(s, u, r);
      assert QueueOf(s', r).upgrading && !Upgrading(s', t, r);
    }
    if Stuck(s', r) && QueueOf(s, r).upgrading {
      var u :| Upgrading(s, u, r);
      assert !Upgrading(s', u, r);
      assert u == t && c.Wake?;
    }
  }

  lemma {:induction false} StuckForever(fixed: bool, states: seq<State>, calls: seq<Call>, i: nat, j: nat, r: Rid)
    requires IsRun(fixed, states, calls) && i <= j < |states| && Stuck(states[i], r)
    ensures Stuck(states[j], r)
    decreases j - i
  {
    if i < j {
      StuckForever(fixed, states, calls, i, j - 1, r);
      var s, c := states[j - 1], calls[j - 1];
      assert CallOk(s, c);
      FlagDown(fixed, s, c, r);
      forall u ensures !Upgrading(states[j], u, r) {
        StepUpgrading(fixed, s, c, u, r);
      }
    }
  }

  /** The i-th section is one of the two. */
  predicate FlagLeft(states: seq<State>, calls: seq<Call>, i: nat, r: Rid)
    requires i < |calls| < |states|
  {
    CallOk(states[i], calls[i]) && LeavesFlag(states[i], calls[i], r)
  }

  /** A run's flag is up with no upgrade under way if and only if one of the two has happened. */
  lemma {:induction false} StuckExactly(fixed: bool, states: seq<State>, calls: seq<Call>, n: nat, r: Rid)
    requires IsRun(fixed, states, calls) && n <= |calls|
    ensures Stuck(states[n], r) <==> exists i :: 0 <= i < n && FlagLeft(states, calls, i, r)
  {
    if n > 0 {
      StuckExactly(fixed, states, calls, n - 1, r);
      StuckNext(fixed, states, calls, n - 1, r);
    }
  }

  lemma StuckNext(fixed: bool, states: seq<State>, calls: seq<Call>, i: nat, r: Rid)
    requires IsRun(fixed, states, calls) && i < |calls|
    ensures Stuck(states[i + 1], r) <==> Stuck(states[i], r) || FlagLeft(states, calls, i, r)
  {
    assert CallOk(states[i], calls[i]);
    RunKeeps(fixed, states, calls, i);
    OneUpgradeInRuns(fixed, states, calls, i, r);
    if Stuck(states[i], r) { StuckForever(fixed, states, calls, i, i + 1, r); } else { FlagLeftUp(fixed, states[i], calls[i], r); }
  }

  /** From then on every upgrade of the record is refused, for the rest of the run. */
  lemma NoUpgradeEver(fixed: bool, states: seq<State>, calls: seq<Call>, i: nat, j: nat, r: Rid)
    requires IsRun(fixed, states, calls) && i <= j < |calls| && Stuck(states[i], r)
    requires calls[j].LockUpgrade? && calls[j].r == r
    ensures Section(fixed, states[j], calls[j]).outcome.Thrown?
    ensures states[j + 1].txns[calls[j].t].state == ABORTED
  {
    StuckForever(fixed, states, calls, i, j, r);
    assert CallOk(states[j], calls[j]);
  }
}
