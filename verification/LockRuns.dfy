/**
  Whole runs of the lock manager: two-phase locking and conflict serializability.
 */
module LockRuns {
  import opened LockStates
  import opened LockExclusions
  import opened LockSections
  import opened LockUpgrades

  // ------------------------------------------------------------------ two-phase locking

  ghost predicate Growing(s: State, t: TxnId) {
    t in s.txns && s.txns[t].state == GROWING
  }

  ghost predicate Ended(s: State, t: TxnId) {
    t in s.txns && s.txns[t].state != GROWING
  }

  lemma StepEnds(fixed: bool, s: State, c: Call, t: TxnId)
    requires CallOk(s, c)
    ensures var s' := Step(fixed, s, c); Ended(s, t) ==> Ended(s', t)
    ensures var s' := Step(fixed, s, c); t in s.txns ==> t in s'.txns && s'.txns[t].isolation == s.txns[t].isolation
  {}

  lemma StepGains(fixed: bool, s: State, c: Call, t: TxnId, r: Rid, write: bool)
    requires Inv(fixed, s) && CallOk(s, c) && !Holds(s, t, r, write) && Holds(Step(fixed, s, c), t, r, write)
    ensures Growing(s, t) && c.t == t
  {
    var rid := RidOf(s, c);
    assert PairOk(TxnOf(s, c.t), QueueOf(s, rid), c.t, rid);
  }

  lemma StepLoses(fixed: bool, s: State, c: Call, t: TxnId, r: Rid, write: bool)
    requires Inv(fixed, s) && CallOk(s, c) && Holds(s, t, r, write) && !Holds(Step(fixed, s, c), t, r, write)
    ensures c.t == t
    ensures s.txns[t].isolation == REPEATABLE_READ && (c.LockUpgrade? ==> AtOnce(s, t, c.r)) ==> Ended(Step(fixed, s, c), t)
  {
    assert PairOk(TxnOf(s, c.t), QueueOf(s, r), c.t, r);
    if c.LockUpgrade? { UpgradeKeepsHold(fixed, s, c.t, c.r); }
  }

  /** One section and the two phases of transaction t. */
  lemma StepPhases(fixed: bool, s: State, c: Call, t: TxnId, r: Rid, write: bool)
    requires Inv(fixed, s) && CallOk(s, c)
    ensures var s' := Step(fixed, s, c);
      (Ended(s, t) ==> Ended(s', t)) && (t in s.txns ==> t in s'.txns && s'.txns[t].isolation == s.txns[t].isolation) &&
      (!Holds(s, t, r, write) && Holds(s', t, r, write) ==> Growing(s, t) && c.t == t) &&
      (Holds(s, t, r, write) && !Holds(s', t, r, write) ==>
        c.t == t && (s.txns[t].isolation == REPEATABLE_READ && (c.LockUpgrade? ==> AtOnce(s, t, c.r)) ==> Ended(s', t)))
  {
    StepEnds(fixed, s, c, t);
    if !Holds(s, t, r, write) && Holds(Step(fixed, s, c), t, r, write) { StepGains(fixed, s, c, t, r, write); }
    if Holds(s, t, r, write) && !Holds(Step(fixed, s, c), t, r, write) { StepLoses(fixed, s, c, t, r, write); }
  }

  /** Transaction t makes no upgrade in this run but ones that are refused or go through at once, and repeats its reads. */
  ghost predicate Plain(states: seq<State>, calls: seq<Call>, t: TxnId)
    requires |calls| < |states|
  {
    (forall i {:trigger calls[i]} :: 0 <= i < |calls| && calls[i].LockUpgrade? && calls[i].t == t && t in states[i].txns ==>
      AtOnce(states[i], t, calls[i].r)) &&
    forall i {:trigger states[i]} :: 0 <= i < |states| && t in states[i].txns ==> states[i].txns[t].isolation == REPEATABLE_READ
  }

  lemma {:induction false} StaysEnded(fixed: bool, states: seq<State>, calls: seq<Call>, t: TxnId, i: nat, j: nat)
    requires IsRun(fixed, states, calls) && i <= j < |states| && Ended(states[i], t)
    ensures Ended(states[j], t)
    decreases j - i
  {
    if i < j {
      RunKeeps(fixed, states, calls, j - 1);
      StaysEnded(fixed, states, calls, t, i, j - 1);
      assert CallOk(states[j - 1], calls[j - 1]);
      StepPhases(fixed, states[j - 1], calls[j - 1], t, 0, false);
    }
  }

  /** Two-phase locking: after the first release no lock is acquired. */
  lemma TwoPhase(fixed: bool, states: seq<State>, calls: seq<Call>, t: TxnId, i: nat, r: Rid, w: bool, j: nat, r': Rid, w': bool)
    requires IsRun(fixed, states, calls) && Plain(states, calls, t) && i < j < |calls|
    requires Holds(states[i], t, r, w) && !Holds(states[i + 1], t, r, w)
    ensures Holds(states[j + 1], t, r', w') ==> Holds(states[j], t, r', w')
  {
    Released(fixed, states, calls, t, r, w, i);
    StaysEnded(fixed, states, calls, t, i + 1, j);
    RunKeeps(fixed, states, calls, j);
    assert CallOk(states[j], calls[j]);
    StepPhases(fixed, states[j], calls[j], t, r', w');
  }

  lemma Released(fixed: bool, states: seq<State>, calls: seq<Call>, t: TxnId, r: Rid, w: bool, i: nat)
    requires IsRun(fixed, states, calls) && Plain(states, calls, t) && i < |calls|
    requires Holds(states[i], t, r, w) && !Holds(states[i + 1], t, r, w)
    ensures Ended(states[i + 1], t) && calls[i].t == t
  {
    RunKeeps(fixed, states, calls, i);
    assert CallOk(states[i], calls[i]);
    StepPhases(fixed, states[i], calls[i], t, r, w);
  }

  /** At whatever isolation level, a transaction that has released an exclusive lock acquires nothing more. */
  lemma WritersEnd(fixed: bool, states: seq<State>, calls: seq<Call>, t: TxnId, i: nat, r: Rid, j: nat, r': Rid, w': bool)
    requires IsRun(fixed, states, calls) && i < j < |calls|
    requires Holds(states[i], t, r, true) && !Holds(states[i + 1], t, r, true)
    ensures Holds(states[j + 1], t, r', w') ==> Holds(states[j], t, r', w')
  {
    RunKeeps(fixed, states, calls, i);
    assert CallOk(states[i], calls[i]);
    WriterEnds(fixed, states[i], calls[i], t, r);
    StaysEnded(fixed, states, calls, t, i + 1, j);
    RunKeeps(fixed, states, calls, j);
    assert CallOk(states[j], calls[j]);
    StepPhases(fixed, states[j], calls[j], t, r', w');
  }

  lemma WriterEnds(fixed: bool, s: State, c: Call, t: TxnId, r: Rid)
    requires Inv(fixed, s) && CallOk(s, c) && Holds(s, t, r, true) && !Holds(Step(fixed, s, c), t, r, true)
    ensures Ended(Step(fixed, s, c), t)
  {
    assert PairOk(TxnOf(s, c.t), QueueOf(s, r), c.t, r);
    if c.Unlock? { UnlockIs(fixed, s, c.t, c.r); }
  }

  // ------------------------------------------------------------------ conflict serializability

  /** The first point of the run at which t is no longer growing: the point at which it holds most locks. */
  ghost function LockPoint(states: seq<State>, t: TxnId): (p: nat)
    ensures p <= |states|
    ensures p < |states| ==> Ended(states[p], t)
    ensures forall i :: 0 <= i < p ==> !Ended(states[i], t)
  {
    if states == [] || Ended(states[0], t) then 0 else 1 + LockPoint(states[1..], t)
  }

  /** Accesses of different transactions to the same record, not both reads. */
  predicate Conflict(a: Call, b: Call) {
    a.Access? && b.Access? && a.t != b.t && a.r == b.r && (a.write || b.write)
  }

  /** When a hold at i is gone at j, it is lost at some step in between. */
  lemma {:induction false} LossBetween(states: seq<State>, t: TxnId, r: Rid, w: bool, i: nat, j: nat) returns (k: nat)
    requires i <= j < |states| && Holds(states[i], t, r, w) && !Holds(states[j], t, r, w)
    ensures i <= k < j && Holds(states[k], t, r, w) && !Holds(states[k + 1], t, r, w)
    decreases j - i
  {
    if Holds(states[j - 1], t, r, w) { k := j - 1; } else { k := LossBetween(states, t, r, w, i, j - 1); }
  }

  lemma {:induction false} GainBetween(states: seq<State>, t: TxnId, r: Rid, w: bool, i: nat, j: nat) returns (k: nat)
    requires i <= j < |states| && !Holds(states[i], t, r, w) && Holds(states[j], t, r, w)
    ensures i <= k < j && !Holds(states[k], t, r, w) && Holds(states[k + 1], t, r, w)
    decreases j - i
  {
    if !Holds(states[j - 1], t, r, w) { k := j - 1; } else { k := GainBetween(states, t, r, w, i, j - 1); }
  }

  /** Conflicting accesses happen in the order of their transactions' lock points. */
  lemma ConflictsFollowLockPoints(states: seq<State>, calls: seq<Call>, i: nat, j: nat)
    requires IsRun(true, states, calls) && i < j < |calls| && Conflict(calls[i], calls[j])
    requires Plain(states, calls, calls[i].t) && Plain(states, calls, calls[j].t)
    ensures LockPoint(states, calls[i].t) < LockPoint(states, calls[j].t)
  {
    var a, b, r := calls[i], calls[j], calls[i].r;
    assert CallOk(states[i], a) && CallOk(states[j], b);
    forall k | 0 <= k < |states| ensures !(Holds(states[k], a.t, r, a.write) && Holds(states[k], b.t, r, b.write)) {
      ExclusionInRuns(states, calls, k, r);
    }
    var k := LossBetween(states, a.t, r, a.write, i, j);
    Released(true, states, calls, a.t, r, a.write, k);
    assert CallOk(states[k], calls[k]);
    RunKeeps(true, states, calls, k);
    StepPhases(true, states[k], calls[k], b.t, r, b.write);
    var m := GainBetween(states, b.t, r, b.write, k + 1, j);
    assert CallOk(states[m], calls[m]);
    RunKeeps(true, states, calls, m);
    StepPhases(true, states[m], calls[m], b.t, r, b.write);
    var p := LockPoint(states, b.t);
    if p <= m { StaysEnded(true, states, calls, b.t, p, m); }
  }

  /** Some access of t conflicts with a later one of u. */
  ghost predicate Precedes(calls: seq<Call>, t: TxnId, u: TxnId) {
    exists i, j :: 0 <= i < j < |calls| && Conflict(calls[i], calls[j]) && calls[i].t == t && calls[j].t == u
  }

  ghost predicate AllPlain(states: seq<State>, calls: seq<Call>)
    requires |calls| < |states|
  {
    forall i {:trigger calls[i]} :: 0 <= i < |calls| ==> Plain(states, calls, calls[i].t)
  }

  lemma PrecedesByLockPoint(states: seq<State>, calls: seq<Call>, t: TxnId, u: TxnId)
    requires IsRun(true, states, calls) && AllPlain(states, calls) && Precedes(calls, t, u)
    ensures LockPoint(states, t) < LockPoint(states, u)
  {
    var i, j :| 0 <= i < j < |calls| && Conflict(calls[i], calls[j]) && calls[i].t == t && calls[j].t == u;
    ConflictsFollowLockPoints(states, calls, i, j);
  }

  lemma {:induction false} PrecedenceRises(states: seq<State>, calls: seq<Call>, ts: seq<TxnId>, n: nat)
    requires IsRun(true, states, calls) && AllPlain(states, calls) && 1 <= n < |ts|
    requires forall i :: 0 <= i < |ts| - 1 ==> Precedes(calls, ts[i], ts[i + 1])
    ensures LockPoint(states, ts[0]) < LockPoint(states, ts[n])
  {
    assert Precedes(calls, ts[n - 1], ts[n]);
    PrecedesByLockPoint(states, calls, ts[n - 1], ts[n]);
    if n > 1 { PrecedenceRises(states, calls, ts, n - 1); }
  }

  /** The precedence graph of a run has no cycle. */
  lemma NoPrecedenceCycle(states: seq<State>, calls: seq<Call>, ts: seq<TxnId>)
    requires IsRun(true, states, calls) && AllPlain(states, calls) && |ts| >= 2
    requires forall i :: 0 <= i < |ts| - 1 ==> Precedes(calls, ts[i], ts[i + 1])
    ensures ts[0] != ts[|ts| - 1]
  {
    PrecedenceRises(states, calls, ts, |ts| - 1);
  }
}
