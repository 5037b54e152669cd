/**
  Exclusion over whole runs of the lock manager: what holds with the flag set on every exclusive grant, and when
  exactly the code as it stands keeps it.
 */
module LockExclusions {
  import opened LockStates
  import opened Sets

  /** t holds r in a mode good enough for a write (exclusive) or for a read (either). */
  predicate Holds(s: State, t: TxnId, r: Rid, write: bool) {
    t in s.txns && (r in s.txns[t].exclusive || (!write && r in s.txns[t].shared))
  }

  lemma {:induction false} RunKeeps(fixed: bool, states: seq<State>, calls: seq<Call>, i: nat)
    requires IsRun(fixed, states, calls) && i < |states|
    ensures Inv(fixed, states[i])
  {
    if i == 0 {
      forall r ensures QueueOk(fixed, START, r) {
        assert Sharers(START, r) == {} && Writers(START, r) == {};
      }
    } else {
      RunKeeps(fixed, states, calls, i - 1);
      assert CallOk(states[i - 1], calls[i - 1]);
      StepKeeps(fixed, states[i - 1], calls[i - 1]);
    }
  }

  /** Even as the code stands, the shared count is the number of transactions holding the record shared. */
  lemma CountIsExact(fixed: bool, states: seq<State>, calls: seq<Call>, i: nat, r: Rid)
    requires IsRun(fixed, states, calls) && i < |states|
    ensures QueueOf(states[i], r).sharedCount == |Sharers(states[i], r)|
  {
    RunKeeps(fixed, states, calls, i);
    assert QueueOk(fixed, states[i], r);
  }

  /** A holder in exclusive mode is the only holder. */
  ghost predicate Alone(s: State, r: Rid) {
    forall t, u :: t in s.txns && u in s.txns && t != u && r in s.txns[t].exclusive ==>
      r !in s.txns[u].shared && r !in s.txns[u].exclusive
  }

  lemma OneWriter(s: State, r: Rid)
    requires QueueOk(true, s, r)
    ensures Alone(s, r)
  {
    forall t, u | t in s.txns && u in s.txns && t != u && r in s.txns[t].exclusive
      ensures r !in s.txns[u].shared && r !in s.txns[u].exclusive
    {
      assert t in Writers(s, r);
      if QueueOf(s, r).writing { Only(Writers(s, r), t); }
      assert u in Sharers(s, r) <==> r in s.txns[u].shared;
      assert u in Writers(s, r) <==> r in s.txns[u].exclusive;
    }
  }

  /** With the flag set on every exclusive grant, exclusion holds at every point of every run. */
  lemma ExclusionInRuns(states: seq<State>, calls: seq<Call>, i: nat, r: Rid)
    requires IsRun(true, states, calls) && i < |states|
    ensures Alone(states[i], r)
  {
    RunKeeps(true, states, calls, i);
    assert QueueOk(true, states[i], r);
    OneWriter(states[i], r);
  }

  // ------------------------------------------------------------------ as the code stands

  /** The call gains its transaction the record, for reading or for writing. */
  predicate Gains(fixed: bool, s: State, c: Call, r: Rid, write: bool)
    requires CallOk(s, c)
  {
    !Holds(s, c.t, r, write) && Holds(Step(fixed, s, c), c.t, r, write)
  }

  lemma OthersKeep(fixed: bool, s: State, c: Call, r: Rid)
    requires CallOk(s, c)
    ensures var s' := Step(fixed, s, c); s'.txns.Keys == s.txns.Keys + {c.t} && forall u :: u in s.txns && u != c.t ==> s'.txns[u] == s.txns[u]
  {}

  /** Whatever the section, a transaction gains a writer's lock only when no one shares the record. */
  lemma WriterFindsNoSharer(fixed: bool, s: State, c: Call, r: Rid)
    requires Inv(fixed, s) && CallOk(s, c) && Gains(fixed, s, c, r, true)
    ensures forall u :: u in s.txns && u != c.t ==> r !in s.txns[u].shared
    ensures r !in Step(fixed, s, c).txns[c.t].shared
  {
    var t := c.t;
    assert QueueOk(fixed, s, r) && PairOk(TxnOf(s, t), QueueOf(s, r), t, r);
    StepKeeps(fixed, s, c);
    var s' := Step(fixed, s, c);
    assert PairOk(TxnOf(s', t), QueueOf(s', r), t, r);
    assert r == RidOf(s, c);
    var sharers := Sharers(s, r);
    assert t in sharers <==> r in s.txns[t].shared;
    if t in sharers { Only(sharers, t); }
    assert sharers <= {t};
    forall u | u in s.txns && u != t ensures r !in s.txns[u].shared {
      assert u !in sharers;
    }
  }

  /** As the code stands, a section that gains a lock leaves exclusion in place if and only if the record had no writer. */
  lemma GainExcludes(s: State, c: Call, r: Rid, write: bool)
    requires Inv(false, s) && CallOk(s, c) && Gains(false, s, c, r, write)
    ensures Alone(Step(false, s, c), r) <==> Writers(s, r) == {}
  {
    var s', t := Step(false, s, c), c.t;
    OthersKeep(false, s, c, r);
    if write { WriterFindsNoSharer(false, s, c, r); }
    if Writers(s, r) != {} {
      Inhabited(Writers(s, r));
      var u :| u in Writers(s, r);
      assert u != t;
      assert r in s'.txns[u].exclusive;
    } else {
      forall u | u in s.txns ensures r !in s.txns[u].exclusive {
        assert u !in Writers(s, r);
      }
      if r in s'.txns[t].exclusive && !write {
        WriterFindsNoSharer(false, s, c, r);
      }
    }
  }

  lemma AloneUngained(s: State, c: Call, r: Rid)
    requires CallOk(s, c) && Alone(s, r) && !Gains(false, s, c, r, true) && !Gains(false, s, c, r, false)
    ensures Alone(Step(false, s, c), r)
  {
    var s' := Step(false, s, c);
    OthersKeep(false, s, c, r);
    assert forall w :: Holds(s', c.t, r, w) ==> Holds(s, c.t, r, w);
    forall t, u | t in s'.txns && u in s'.txns && t != u && r in s'.txns[t].exclusive
      ensures r !in s'.txns[u].shared && r !in s'.txns[u].exclusive
    {
      assert Holds(s', t, r, true) && Holds(s, t, r, true);
      assert Holds(s', u, r, false) ==> Holds(s, u, r, false);
    }
  }

  /** No section up to the n-th gains a record that has a writer. */
  ghost predicate GainsFree(states: seq<State>, calls: seq<Call>, r: Rid, n: nat)
    requires IsRun(false, states, calls) && n <= |calls|
  {
    forall i, write {:trigger Gains(false, states[i], calls[i], r, write)} :: 0 <= i < n ==>
      CallOk(states[i], calls[i]) && (Gains(false, states[i], calls[i], r, write) ==> Writers(states[i], r) == {})
  }

  /** One section keeps exclusion if and only if whatever it gains had no writer. */
  lemma ExclusionStep(s: State, c: Call, r: Rid)
    requires Inv(false, s) && CallOk(s, c) && Alone(s, r)
    ensures Alone(Step(false, s, c), r) <==> forall write :: Gains(false, s, c, r, write) ==> Writers(s, r) == {}
  {
    forall write | Gains(false, s, c, r, write) ensures Alone(Step(false, s, c), r) <==> Writers(s, r) == {} {
      GainExcludes(s, c, r, write);
    }
    if !Gains(false, s, c, r, true) && !Gains(false, s, c, r, false) { AloneUngained(s, c, r); }
  }

  /** As the code stands, exclusion holds throughout a run if and only if every gain in it finds the record without a writer. */
  lemma {:induction false} ExclusionExactly(states: seq<State>, calls: seq<Call>, r: Rid, n: nat)
    requires IsRun(false, states, calls) && n <= |calls|
    ensures (forall i :: 0 <= i <= n ==> Alone(states[i], r)) <==> GainsFree(states, calls, r, n)
  {
    if n > 0 {
      ExclusionExactly(states, calls, r, n - 1);
      assert CallOk(states[n - 1], calls[n - 1]);
      RunKeeps(false, states, calls, n - 1);
      if Alone(states[n - 1], r) { ExclusionStep(states[n - 1], calls[n - 1], r); }
    }
  }
}
