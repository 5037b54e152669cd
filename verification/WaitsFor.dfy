/**
  Waits-for graphs: walks, cycles, and nodes known to reach no cycle.
 */
module WaitsFor {
  import opened LockStates

  type Graph = map<TxnId, seq<TxnId>>

  function Next(g: Graph, a: TxnId): seq<TxnId> {
    if a in g then g[a] else []
  }

  predicate Edge(g: Graph, a: TxnId, b: TxnId) {
    b in Next(g, a)
  }

  predicate Link(g: Graph, p: seq<TxnId>, i: nat)
    requires i + 1 < |p|
  {
    Edge(g, p[i], p[i + 1])
  }

  ghost predicate Walk(g: Graph, p: seq<TxnId>) {
    |p| >= 1 && forall i {:trigger Link(g, p, i)} :: 0 <= i < |p| - 1 ==> Link(g, p, i)
  }

  ghost predicate Repeats(p: seq<TxnId>) {
    exists i, j :: 0 <= i < j < |p| && p[i] == p[j]
  }

  /** Some walk from a comes back to a node it has passed. */
  ghost predicate ReachesCycle(g: Graph, a: TxnId) {
    exists p :: Walk(g, p) && p[0] == a && Repeats(p)
  }

  /** Edges lead from safe nodes to safe nodes only, and no cycle is reached from there. */
  ghost predicate SafeOk(g: Graph, safe: set<TxnId>) {
    (forall a, b :: a in safe && Edge(g, a, b) ==> b in safe) && forall a :: a in safe ==> !ReachesCycle(g, a)
  }

  lemma {:induction false} WalkStaysSafe(g: Graph, safe: set<TxnId>, p: seq<TxnId>, i: nat)
    requires SafeOk(g, safe) && Walk(g, p) && p[0] in safe && i < |p|
    ensures p[i] in safe
  {
    if i > 0 {
      WalkStaysSafe(g, safe, p, i - 1);
      assert Link(g, p, i - 1);
    }
  }

  lemma WalkRest(g: Graph, p: seq<TxnId>)
    requires Walk(g, p) && |p| >= 2
    ensures Walk(g, p[1..]) && p[1..][0] == p[1] && Edge(g, p[0], p[1])
  {
    var q := p[1..];
    assert Link(g, p, 0);
    forall i | 0 <= i < |q| - 1 ensures Link(g, q, i) {
      assert Link(g, p, i + 1);
    }
  }

  /** A node all of whose successors are safe is safe. */
  lemma SafeAdd(g: Graph, safe: set<TxnId>, n: TxnId)
    requires SafeOk(g, safe) && n !in safe && forall b :: Edge(g, n, b) ==> b in safe
    ensures SafeOk(g, safe + {n})
  {
    forall p | Walk(g, p) && p[0] == n ensures !Repeats(p) {
      if |p| >= 2 {
        WalkRest(g, p);
        var q := p[1..];
        forall i | 0 <= i < |q| ensures q[i] in safe {
          WalkStaysSafe(g, safe, q, i);
        }
        assert !ReachesCycle(g, q[0]);
        forall i, j | 0 <= i < j < |p| ensures p[i] != p[j] {
          assert p[j] == q[j - 1];
          if i > 0 { assert p[i] == q[i - 1]; }
        }
      }
    }
  }

  /** Fewer edges leave the safe nodes safe. */
  lemma SafeFewer(g: Graph, g': Graph, safe: set<TxnId>)
    requires SafeOk(g, safe) && forall a, b :: Edge(g', a, b) ==> Edge(g, a, b)
    ensures SafeOk(g', safe)
  {
    forall a | a in safe ensures !ReachesCycle(g', a) {
      forall p | Walk(g', p) && p[0] == a ensures !Repeats(p) {
        forall i | 0 <= i < |p| - 1 ensures Link(g, p, i) {
          assert Link(g', p, i);
        }
        assert Walk(g, p);
        assert !ReachesCycle(g, a);
      }
    }
  }

  /** A closed walk. */
  ghost predicate Cycle(g: Graph, p: seq<TxnId>) {
    |p| >= 2 && Walk(g, p) && p[0] == p[|p| - 1]
  }

  /** A cycle is reached from each of its nodes, and every node reaching one leads to a closed walk. */
  lemma CycleIsReached(g: Graph, p: seq<TxnId>)
    requires Cycle(g, p)
    ensures ReachesCycle(g, p[0])
  {}

  lemma ReachedIsCycle(g: Graph, a: TxnId) returns (c: seq<TxnId>)
    requires ReachesCycle(g, a)
    ensures Cycle(g, c)
  {
    var p :| Walk(g, p) && p[0] == a && Repeats(p);
    var i, j :| 0 <= i < j < |p| && p[i] == p[j];
    c := p[i..j + 1];
    forall k | 0 <= k < |c| - 1 ensures Link(g, c, k) {
      assert Link(g, p, i + k);
    }
  }

  // ------------------------------------------------------------------ the path of a search

  ghost predicate NoRepeats(p: seq<TxnId>) {
    forall i, j :: 0 <= i < j < |p| ==> p[i] != p[j]
  }

  /** p goes on to the smallest of the successors that reach a cycle. */
  ghost predicate SmallestNext(g: Graph, p: seq<TxnId>, i: nat)
    requires i + 1 < |p|
  {
    forall y :: Edge(g, p[i], y) && ReachesCycle(g, y) ==> p[i + 1] <= y
  }

  /** p starts at the smallest node of `all` that reaches a cycle, goes on to the smallest successor that does, and ends where it meets itself. */
  ghost predicate SearchPath(g: Graph, all: set<TxnId>, p: seq<TxnId>) {
    |p| >= 2 && Walk(g, p) && NoRepeats(p[..|p| - 1]) && p[|p| - 1] in p[..|p| - 1] &&
    p[0] in all && (forall a :: a in all && ReachesCycle(g, a) ==> p[0] <= a) &&
    forall i {:trigger SmallestNext(g, p, i)} :: 0 <= i < |p| - 1 ==> SmallestNext(g, p, i)
  }

  /** A walk whose end is also at j, gone on with from i: round again from j to i. */
  lemma RoundAgain(g: Graph, p: seq<TxnId>, i: nat, j: nat)
    requires Walk(g, p) && j < i < |p| && p[j] == p[|p| - 1]
    ensures ReachesCycle(g, p[i])
  {
    var rest := |p| - 1 - i;
    var q := p[i..] + p[j + 1..i + 1];
    forall k | 0 <= k < |q| - 1 ensures Link(g, q, k) {
      if k < rest { assert Link(g, p, i + k); } else { assert Link(g, p, j + k - rest); }
    }
    assert Walk(g, q) && q[0] == q[|q| - 1];
  }

  lemma MeetsAhead(g: Graph, p: seq<TxnId>, i: nat, j: nat)
    requires Walk(g, p) && i <= j < |p| - 1 && p[j] == p[|p| - 1]
    ensures ReachesCycle(g, p[i])
  {
    var q := p[i..];
    forall k | 0 <= k < |q| - 1 ensures Link(g, q, k) { assert Link(g, p, i + k); }
    assert Walk(g, q) && q[j - i] == q[|q| - 1];
  }

  /** Every node of a walk that meets itself reaches a cycle. */
  lemma ClosingReaches(g: Graph, p: seq<TxnId>, i: nat)
    requires Walk(g, p) && i < |p| && p[|p| - 1] in p[..|p| - 1]
    ensures ReachesCycle(g, p[i])
  {
    var j :| 0 <= j < |p| - 1 && p[..|p| - 1][j] == p[|p| - 1];
    if i <= j { MeetsAhead(g, p, i, j); } else { RoundAgain(g, p, i, j); }
  }

  lemma SameReach(g: Graph, h: Graph, a: TxnId)
    requires forall x, y :: Edge(g, x, y) <==> Edge(h, x, y)
    ensures ReachesCycle(g, a) <==> ReachesCycle(h, a)
  {
    forall p ensures Walk(g, p) <==> Walk(h, p) {
      forall i | 0 <= i < |p| - 1 ensures Link(g, p, i) <==> Link(h, p, i) {}
    }
  }

  lemma SameStep(g: Graph, h: Graph, p: seq<TxnId>, q: seq<TxnId>, k: nat)
    requires forall x, y :: Edge(g, x, y) <==> Edge(h, x, y)
    requires k + 1 < |p| && k + 1 < |q| && p[k] == q[k] && SmallestNext(g, p, k) && SmallestNext(h, q, k)
    requires Link(g, p, k) && Link(h, q, k) && ReachesCycle(g, p[k + 1]) && ReachesCycle(h, q[k + 1])
    ensures p[k + 1] == q[k + 1]
  {
    SameReach(g, h, p[k + 1]);
    SameReach(g, h, q[k + 1]);
  }

  lemma {:induction false} SamePrefix(g: Graph, h: Graph, all: set<TxnId>, p: seq<TxnId>, q: seq<TxnId>, k: nat)
    requires forall x, y :: Edge(g, x, y) <==> Edge(h, x, y)
    requires SearchPath(g, all, p) && SearchPath(h, all, q) && k < |p| && k < |q|
    ensures p[k] == q[k]
  {
    ClosingReaches(g, p, k);
    ClosingReaches(h, q, k);
    if k == 0 {
      SameReach(g, h, p[0]);
      SameReach(g, h, q[0]);
    } else {
      SamePrefix(g, h, all, p, q, k - 1);
      SameStep(g, h, p, q, k - 1);
    }
  }

  lemma NotShorter(g: Graph, h: Graph, all: set<TxnId>, p: seq<TxnId>, q: seq<TxnId>)
    requires forall x, y :: Edge(g, x, y) <==> Edge(h, x, y)
    requires SearchPath(g, all, p) && SearchPath(h, all, q)
    ensures |p| >= |q|
  {
    if |p| < |q| {
      var last := |p| - 1;
      var j :| 0 <= j < last && p[..last][j] == p[last];
      SamePrefix(g, h, all, p, q, j);
      SamePrefix(g, h, all, p, q, last);
    }
  }

  /** There is one such path: the graph's edges determine where the search ends. */
  lemma OnePath(g: Graph, h: Graph, all: set<TxnId>, p: seq<TxnId>, q: seq<TxnId>)
    requires forall x, y :: Edge(g, x, y) <==> Edge(h, x, y)
    requires SearchPath(g, all, p) && SearchPath(h, all, q)
    ensures p == q
  {
    NotShorter(g, h, all, p, q);
    NotShorter(h, g, all, q, p);
    forall k | 0 <= k < |p| ensures p[k] == q[k] { SamePrefix(g, h, all, p, q, k); }
  }

  // ------------------------------------------------------------------ the lock table's graph

  /** t has a request in the queue that is granted, or that waits. */
  ghost predicate HasRequest(q: seq<Request>, t: TxnId, granted: bool) {
    exists i :: 0 <= i < |q| && q[i].txn == t && q[i].granted == granted
  }

  /** a waits for the record of this queue and b was granted it. */
  ghost predicate WaitsIn(q: seq<Request>, a: TxnId, b: TxnId) {
    HasRequest(q, a, false) && HasRequest(q, b, true)
  }

  ghost predicate Waits(table: map<Rid, Queue>, a: TxnId, b: TxnId) {
    exists r :: r in table && WaitsIn(table[r].requests, a, b)
  }

  ghost predicate Requests(table: map<Rid, Queue>, a: TxnId) {
    exists r :: r in table && (HasRequest(table[r].requests, a, false) || HasRequest(table[r].requests, a, true))
  }

  ghost predicate Waiting(table: map<Rid, Queue>, a: TxnId) {
    exists r :: r in table && HasRequest(table[r].requests, a, false)
  }

  /** One more queue. */
  lemma OneMoreQueue(table: map<Rid, Queue>, r: Rid, q: Queue, a: TxnId, b: TxnId)
    requires r !in table
    ensures var more := table[r := q];
      (Waits(more, a, b) <==> Waits(table, a, b) || WaitsIn(q.requests, a, b)) &&
      (Requests(more, a) <==> Requests(table, a) || HasRequest(q.requests, a, false) || HasRequest(q.requests, a, true)) &&
      (Waiting(more, a) <==> Waiting(table, a) || HasRequest(q.requests, a, false))
  {
    var more := table[r := q];
    assert more[r] == q;
    forall r' | r' in table ensures r' in more && more[r'] == table[r'] {}
  }

  /** A circle of requests, each waiting behind a granted one of the next transaction's. */
  ghost predicate WaitCycle(table: map<Rid, Queue>, c: seq<TxnId>) {
    |c| >= 2 && c[0] == c[|c| - 1] && forall i {:trigger Follows(table, c, i)} :: 0 <= i < |c| - 1 ==> Follows(table, c, i)
  }

  ghost predicate Follows(table: map<Rid, Queue>, c: seq<TxnId>, i: nat)
    requires i + 1 < |c|
  {
    Waits(table, c[i], c[i + 1])
  }

  /**
    g is the waits-for graph of the table, without the edges that leave victims; edges from a node to itself may be
    lost as well unless `loops` holds.
   */
  ghost predicate GraphOf(g: Graph, table: map<Rid, Queue>, victims: set<TxnId>, loops: bool) {
    forall a, b :: (Edge(g, a, b) ==> Waits(table, a, b) && a !in victims) &&
      (Waits(table, a, b) && a !in victims && (loops || a != b) ==> Edge(g, a, b))
  }

  /** Every transaction with a waiting request is known. */
  ghost predicate Known(s: State) {
    forall a :: Waiting(s.queues, a) ==> a in s.txns
  }

  /** Every transaction with a waiting request sleeps on the record. */
  ghost predicate WaitersSleep(s: State) {
    forall r, a :: r in s.queues && HasRequest(s.queues[r].requests, a, false) ==>
      a in s.txns && s.txns[a].wait.Asleep? && s.txns[a].wait.rid == r
  }

  lemma InvWaits(fixed: bool, s: State)
    requires Inv(fixed, s)
    ensures Known(s) && WaitersSleep(s) && forall a :: !Waits(s.queues, a, a)
  {
    forall r, a | r in s.queues && HasRequest(s.queues[r].requests, a, false)
      ensures a in s.txns && s.txns[a].wait.Asleep? && s.txns[a].wait.rid == r
    {
      WaiterSleeps(fixed, s, a, r);
    }
    forall a ensures !Waits(s.queues, a, a) { NoSelfWait(fixed, s, a); }
  }

  /** Nobody waits for itself. */
  lemma NoSelfWait(fixed: bool, s: State, a: TxnId)
    requires Inv(fixed, s)
    ensures !Waits(s.queues, a, a)
  {
    forall r | r in s.queues ensures !WaitsIn(s.queues[r].requests, a, a) {
      assert QueueOk(fixed, s, r);
    }
  }

  /** A transaction with a waiting request sleeps on that record. */
  lemma WaiterSleeps(fixed: bool, s: State, a: TxnId, r: Rid)
    requires Inv(fixed, s) && r in s.queues && HasRequest(s.queues[r].requests, a, false)
    ensures a in s.txns && s.txns[a].wait.Asleep? && s.txns[a].wait.rid == r
  {
    var q := s.queues[r].requests;
    assert QueueOk(fixed, s, r) && PairOk(TxnOf(s, a), QueueOf(s, r), a, r);
    var i :| 0 <= i < |q| && q[i].txn == a && !q[i].granted;
    FindIs(q, a, i);
  }

  /** v is the newest transaction on the path of the search through the table's graph without those in `gone`. */
  ghost predicate NextVictim(table: map<Rid, Queue>, gone: set<TxnId>, v: TxnId) {
    exists g, all, p :: IsSearch(table, gone, g, all, p) && Newest(p, v)
  }

  ghost predicate Newest(p: seq<TxnId>, v: TxnId) {
    v in p && forall x :: x in p ==> x <= v
  }

  ghost predicate IsSearch(table: map<Rid, Queue>, gone: set<TxnId>, g: Graph, all: set<TxnId>, p: seq<TxnId>) {
    GraphOf(g, table, gone, true) && (forall a :: a in all <==> Requests(table, a)) && SearchPath(g, all, p)
  }

  lemma OneSearch(table: map<Rid, Queue>, gone: set<TxnId>, g: Graph, all: set<TxnId>, p: seq<TxnId>, h: Graph, all': set<TxnId>, q: seq<TxnId>)
    requires IsSearch(table, gone, g, all, p) && IsSearch(table, gone, h, all', q)
    ensures p == q
  {
    forall x, y ensures Edge(g, x, y) <==> Edge(h, x, y) { assert Edge(g, x, y) <==> Waits(table, x, y) && x !in gone; }
    forall a ensures a in all <==> a in all' { assert a in all <==> Requests(table, a); }
    assert all == all';
    OnePath(g, h, all, p, q);
  }

  /** The table and the transactions gone determine who comes next. */
  lemma OneVictim(table: map<Rid, Queue>, gone: set<TxnId>, v: TxnId, u: TxnId)
    requires NextVictim(table, gone, v) && NextVictim(table, gone, u)
    ensures v == u
  {
    var g, all, p :| IsSearch(table, gone, g, all, p) && Newest(p, v);
    var h, all', q :| IsSearch(table, gone, h, all', q) && Newest(q, u);
    OneSearch(table, gone, g, all, p, h, all', q);
  }

  /** Nobody waits for itself. */
  ghost predicate Selfless(table: map<Rid, Queue>) {
    forall a :: !Waits(table, a, a)
  }

  function Members(s: seq<TxnId>): set<TxnId> {
    set x | x in s
  }

  /** Each of them was the next victim when those before it were gone. */
  ghost predicate InTurn(table: map<Rid, Queue>, order: seq<TxnId>) {
    forall i {:trigger order[i]} :: 0 <= i < |order| ==> NextVictim(table, Members(order[..i]), order[i])
  }

  lemma {:induction false} SameTurns(table: map<Rid, Queue>, p: seq<TxnId>, q: seq<TxnId>, n: nat)
    requires InTurn(table, p) && InTurn(table, q) && n <= |p| && n <= |q|
    ensures p[..n] == q[..n]
  {
    if n > 0 {
      SameTurns(table, p, q, n - 1);
      OneVictim(table, Members(p[..n - 1]), p[n - 1], q[n - 1]);
    }
  }

  lemma NextAfter(table: map<Rid, Queue>, p: seq<TxnId>, q: seq<TxnId>)
    requires InTurn(table, p) && InTurn(table, q) && |p| < |q|
    ensures NextVictim(table, Members(p), q[|p|])
  {
    SameTurns(table, p, q, |p|);
    assert p == p[..|p|] == q[..|p|];
  }

  /** The table determines all victims and their order. */
  lemma OneOrder(table: map<Rid, Queue>, p: seq<TxnId>, q: seq<TxnId>)
    requires InTurn(table, p) && InTurn(table, q)
    requires forall v :: !NextVictim(table, Members(p), v) && !NextVictim(table, Members(q), v)
    ensures p == q
  {
    if |p| < |q| { NextAfter(table, p, q); }
    if |q| < |p| { NextAfter(table, q, p); }
    SameTurns(table, p, q, |p|);
    assert p == p[..|p|] && q == q[..|p|];
  }

  /** Where no node reaches a cycle any more, nobody comes next. */
  lemma NobodyNext(g: Graph, table: map<Rid, Queue>, gone: set<TxnId>)
    requires GraphOf(g, table, gone, true) && forall a :: Requests(table, a) ==> !ReachesCycle(g, a)
    ensures forall v :: !NextVictim(table, gone, v)
  {
    forall v ensures !NextVictim(table, gone, v) {
      if NextVictim(table, gone, v) {
        var h, all, p :| IsSearch(table, gone, h, all, p) && Newest(p, v);
        forall x, y ensures Edge(g, x, y) <==> Edge(h, x, y) { assert Edge(g, x, y) <==> Waits(table, x, y) && x !in gone; }
        ClosingReaches(h, p, 0);
        SameReach(g, h, p[0]);
      }
    }
  }

  /** No step of the circle leads from a transaction to itself. */
  ghost predicate Stepping(c: seq<TxnId>) {
    forall i :: 0 <= i < |c| - 1 ==> c[i] != c[i + 1]
  }

  /** When no node of the remaining graph reaches a cycle, every circle of requests contains a victim. */
  lemma CyclesBroken(g: Graph, table: map<Rid, Queue>, victims: set<TxnId>, loops: bool, safe: set<TxnId>, c: seq<TxnId>)
    requires GraphOf(g, table, victims, loops) && SafeOk(g, safe) && (forall a :: Requests(table, a) ==> a in safe)
    requires WaitCycle(table, c) && (loops || Stepping(c))
    ensures exists i :: 0 <= i < |c| && c[i] in victims
  {
    assert Follows(table, c, 0);
    WaitsAndRequests(table, c[0], c[1]);
    if Cycle(g, c) { CycleIsReached(g, c); }
    if forall i :: 0 <= i < |c| ==> c[i] !in victims { AvoidsVictims(g, table, victims, loops, c); }
  }

  lemma AvoidsVictims(g: Graph, table: map<Rid, Queue>, victims: set<TxnId>, loops: bool, c: seq<TxnId>)
    requires GraphOf(g, table, victims, loops) && WaitCycle(table, c) && forall i :: 0 <= i < |c| ==> c[i] !in victims
    requires loops || Stepping(c)
    ensures Cycle(g, c)
  {
    forall i | 0 <= i < |c| - 1 ensures Link(g, c, i) {
      assert Follows(table, c, i);
    }
  }

  lemma WaitsAndRequests(table: map<Rid, Queue>, a: TxnId, b: TxnId)
    requires Waits(table, a, b)
    ensures Waiting(table, a) && Requests(table, a) && Requests(table, b)
  {}

  /** A cycle of the remaining graph is a circle of requests. */
  lemma CycleIsWaitCycle(g: Graph, table: map<Rid, Queue>, victims: set<TxnId>, loops: bool, c: seq<TxnId>)
    requires GraphOf(g, table, victims, loops) && Cycle(g, c)
    ensures WaitCycle(table, c)
  {
    forall i | 0 <= i < |c| - 1 ensures Follows(table, c, i) {
      assert Link(g, c, i);
    }
  }
}
