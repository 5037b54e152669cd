/**
  The background deadlock detector: it builds the waits-for graph from the lock table, searches it depth first,
  and aborts the newest transaction on the search stack until no cycle is left.
 */
module DeadlockDetectors {
  import opened LockStates
  import opened Deadlocks
  import opened LockManagers
  import opened Sets
  import opened WaitsFor

  /** std::sort. */
  function Ascending(s: seq<TxnId>): (r: seq<TxnId>)
    ensures forall x :: x in r <==> x in s
    ensures forall i, j :: 0 <= i < j < |r| ==> r[i] <= r[j]
  {
    if s == [] then [] else InsertSorted(Ascending(s[1..]), s[0])
  }

  function InsertSorted(s: seq<TxnId>, x: TxnId): (r: seq<TxnId>)
    requires forall i, j :: 0 <= i < j < |s| ==> s[i] <= s[j]
    ensures forall y :: y in r <==> y in s || y == x
    ensures forall i, j :: 0 <= i < j < |r| ==> r[i] <= r[j]
  {
    if s == [] || x <= s[0] then [x] + s else
      var rest := InsertSorted(s[1..], x);
      assert forall k :: 0 <= k < |rest| ==> rest[k] in s[1..] || rest[k] == x;
      [s[0]] + rest
  }

  ghost predicate ClosedUnder(g: Graph, all: set<TxnId>) {
    forall a, b :: Edge(g, a, b) ==> a in all && b in all
  }

  /** `walk` goes on from `stack`, and its last step returns to a node it has passed. */
  ghost predicate ClosingWalk(g: Graph, stack: seq<TxnId>, walk: seq<TxnId>) {
    Walk(g, walk) && stack <= walk && |stack| < |walk| && walk[|walk| - 1] in walk[..|walk| - 1]
  }

  /** Successors of a smaller than b are safe. */
  ghost predicate SafeBelow(g: Graph, a: TxnId, b: TxnId, safe: set<TxnId>) {
    forall y :: Edge(g, a, y) && y < b ==> y in safe
  }

  /** From position `from` on the walk always takes the smallest successor that is not safe. */
  ghost predicate SmallestFirst(g: Graph, walk: seq<TxnId>, from: nat, safe: set<TxnId>) {
    forall i {:trigger walk[i]} :: from <= i < |walk| - 1 ==> SafeBelow(g, walk[i], walk[i + 1], safe)
  }

  /** In ascending order the successors seen before the i-th are all the smaller ones. */
  lemma BelowIsSafe(g: Graph, a: TxnId, next: seq<TxnId>, i: nat, safe: set<TxnId>)
    requires (forall y :: y in next <==> y in Next(g, a)) && forall j, k :: 0 <= j < k < |next| ==> next[j] <= next[k]
    requires i < |next| && forall k :: 0 <= k < i ==> next[k] in safe
    ensures SafeBelow(g, a, next[i], safe)
  {
    forall y | Edge(g, a, y) && y < next[i] ensures y in safe {
      assert y in next;
      var k :| 0 <= k < |next| && next[k] == y;
    }
  }

  /** The nodes of the walk but the last are those on the stack, once each. */
  ghost predicate OnStack(walk: seq<TxnId>, active: set<TxnId>) {
    |walk| >= 1 && active == Members(walk[..|walk| - 1]) && NoRepeats(walk[..|walk| - 1])
  }

  /** The next node is on the stack. */
  lemma Closes(g: Graph, path: seq<TxnId>, y: TxnId, active: set<TxnId>, safe: set<TxnId>)
    requires |path| >= 1 && Walk(g, path + [y]) && active == Members(path) && y in active && NoRepeats(path)
    requires SafeBelow(g, path[|path| - 1], y, safe)
    ensures ClosingWalk(g, path, path + [y]) && OnStack(path + [y], active) && SmallestFirst(g, path + [y], |path| - 1, safe)
  {
    assert (path + [y])[..|path|] == path;
  }

  lemma GoesOn(g: Graph, walk: seq<TxnId>, from: nat, before: set<TxnId>, safe: set<TxnId>)
    requires from + 1 < |walk| && SafeBelow(g, walk[from], walk[from + 1], before) && before <= safe
    requires SmallestFirst(g, walk, from + 1, safe)
    ensures SmallestFirst(g, walk, from, safe)
  {}

  /** n has been searched: it leaves the stack and is safe. */
  lemma BackFrom(g: Graph, n: TxnId, stack: seq<TxnId>, next: seq<TxnId>, safe: set<TxnId>)
    requires SafeOk(g, safe) && n !in safe && NoRepeats(stack + [n]) && Members(stack + [n]) !! safe
    requires (forall y :: y in next <==> y in Next(g, n)) && forall k :: 0 <= k < |next| ==> next[k] in safe
    ensures Members(stack + [n]) - {n} == Members(stack) && SafeOk(g, safe + {n}) && Members(stack) !! safe + {n}
  {
    forall b | Edge(g, n, b) ensures b in safe {
      assert b in next;
    }
    SafeAdd(g, safe, n);
    forall a | a in stack ensures a != n {
      var i :| 0 <= i < |stack| && stack[i] == a;
      assert (stack + [n])[i] == a && (stack + [n])[|stack|] == n;
    }
  }

  class DeadlockDetector {
    var waitsFor: Graph
    var safe: set<TxnId>
    var txnSet: set<TxnId>
    var active: set<TxnId>
    var requireRecord: map<TxnId, Rid>

    ghost predicate Blank()
      reads this
    {
      waitsFor == map[] && safe == {} && txnSet == {} && active == {} && requireRecord == map[]
    }

    constructor ()
      ensures Blank()
    {
      waitsFor, safe, txnSet, active, requireRecord := map[], {}, {}, {}, map[];
    }

    /**
      Depth-first search from n; `active` holds the nodes of the search stack.  The successors are visited in
      ascending order; they are sorted here on a copy, every visit sorting them anew.
     */
    method Dfs(n: TxnId, ghost stack: seq<TxnId>, ghost all: set<TxnId>) returns (found: bool, ghost walk: seq<TxnId>)
      requires SafeOk(waitsFor, safe) && active == Members(stack) && n !in active && active !! safe
      requires Walk(waitsFor, stack + [n]) && NoRepeats(stack) && ClosedUnder(waitsFor, all) && n in all && active <= all
      modifies this`safe, this`active
      ensures SafeOk(waitsFor, safe) && old(safe) <= safe
      ensures !found ==> n in safe && active == old(active) && active !! safe
      ensures found ==> ClosingWalk(waitsFor, stack + [n], walk) && OnStack(walk, active)
      ensures found ==> SmallestFirst(waitsFor, walk, |stack|, safe)
      decreases all - active
    {
      found, walk := false, [];
      if n in safe {
        return;
      }
      active := active + {n};
      ghost var path := stack + [n];
      assert active == Members(path) && NoRepeats(path);
      var next := Ascending(Next(waitsFor, n));
      var i := 0;
      while i < |next|
        invariant 0 <= i <= |next| && forall k :: 0 <= k < i ==> next[k] in safe
        invariant SafeOk(waitsFor, safe) && old(safe) <= safe && active == Members(path) && active !! safe
      {
        assert Edge(waitsFor, n, next[i]);
        WalkOn(waitsFor, path, next[i]);
        BelowIsSafe(waitsFor, n, next, i, safe);
        if next[i] in active {
          walk := path + [next[i]];
          Closes(waitsFor, path, next[i], active, safe);
          return true, walk;
        }
        ghost var before := safe;
        found, walk := Dfs(next[i], path, all);
        if found {
          GoesOn(waitsFor, walk, |stack|, before, safe);
          return;
        }
        i := i + 1;
      }
      BackFrom(waitsFor, n, stack, next, safe);
      active := active - {n};
      safe := safe + {n};
    }

    method Smallest(s: set<TxnId>) returns (m: TxnId)
      requires s != {}
      ensures m in s && forall x :: x in s ==> m <= x
    {
      Inhabited(s);
      m :| m in s;
      var rest := s - {m};
      while rest != {}
        invariant rest < s && m in s && forall x :: x in s && x !in rest ==> m <= x
        decreases rest
      {
        Inhabited(rest);
        var y :| y in rest;
        if y < m { m := y; }
        rest := rest - {y};
      }
    }

    method Largest(s: set<TxnId>) returns (m: TxnId)
      requires s != {}
      ensures m in s && forall x :: x in s ==> x <= m
    {
      Inhabited(s);
      m :| m in s;
      var rest := s - {m};
      while rest != {}
        invariant rest < s && m in s && forall x :: x in s && x !in rest ==> x <= m
        decreases rest
      {
        Inhabited(rest);
        var y :| y in rest;
        if y > m { m := y; }
        rest := rest - {y};
      }
    }

    // ---------------------------------------------------------------- building the graph

    method AddEdge(a: TxnId, b: TxnId)
      modifies this`waitsFor
      ensures forall x, y :: Edge(waitsFor, x, y) <==> Edge(old(waitsFor), x, y) || (x == a && y == b)
    {
      var v := Next(waitsFor, a);
      waitsFor := waitsFor[a := v + [b]];
    }

    /** Edges from a waiting transaction to all that were granted the record. */
    method AddWaits(a: TxnId, q: seq<Request>)
      modifies this`waitsFor
      ensures forall x, y :: Edge(waitsFor, x, y) <==> Edge(old(waitsFor), x, y) || (x == a && HasRequest(q, y, true))
    {
      var j := 0;
      while j < |q|
        invariant 0 <= j <= |q|
        invariant forall x, y :: Edge(waitsFor, x, y) <==> Edge(old(waitsFor), x, y) || (x == a && HasRequest(q[..j], y, true))
      {
        HasRequestPush(q, j);
        if q[j].granted {
          AddEdge(a, q[j].txn);
        }
        j := j + 1;
      }
      assert q[..|q|] == q;
    }

    method AddQueue(r: Rid, q: seq<Request>)
      modifies this`waitsFor, this`txnSet, this`requireRecord
      ensures forall x, y :: Edge(waitsFor, x, y) <==> Edge(old(waitsFor), x, y) || WaitsIn(q, x, y)
      ensures forall x :: x in txnSet <==> x in old(txnSet) || HasRequest(q, x, false) || HasRequest(q, x, true)
      ensures forall x :: if HasRequest(q, x, false) then x in requireRecord && requireRecord[x] == r
        else (x in requireRecord <==> x in old(requireRecord)) && (x in requireRecord ==> requireRecord[x] == old(requireRecord)[x])
    {
      var i := 0;
      while i < |q|
        invariant 0 <= i <= |q|
        invariant forall x, y :: Edge(waitsFor, x, y) <==>
          Edge(old(waitsFor), x, y) || (HasRequest(q[..i], x, false) && HasRequest(q, y, true))
        invariant forall x :: x in txnSet <==> x in old(txnSet) || HasRequest(q[..i], x, false) || HasRequest(q[..i], x, true)
        invariant forall x :: if HasRequest(q[..i], x, false) then x in requireRecord && requireRecord[x] == r
          else (x in requireRecord <==> x in old(requireRecord)) && (x in requireRecord ==> requireRecord[x] == old(requireRecord)[x])
      {
        HasRequestPush(q, i);
        txnSet := txnSet + {q[i].txn};
        if !q[i].granted {
          requireRecord := requireRecord[q[i].txn := r];
          AddWaits(q[i].txn, q);
        }
        i := i + 1;
      }
      assert q[..|q|] == q;
    }

    /** Where requireRecord sends the notification for each waiting transaction. */
    ghost predicate RecordsOf(table: map<Rid, Queue>)
      reads this
    {
      forall a :: (Waiting(table, a) <==> a in requireRecord) &&
        (a in requireRecord ==> requireRecord[a] in table && HasRequest(table[requireRecord[a]].requests, a, false))
    }

    ghost predicate Built(table: map<Rid, Queue>)
      reads this
    {
      GraphOf(waitsFor, table, {}, true) && (forall a :: a in txnSet <==> Requests(table, a)) && RecordsOf(table)
    }

    method Build(table: map<Rid, Queue>)
      requires waitsFor == map[] && txnSet == {} && requireRecord == map[]
      modifies this`waitsFor, this`txnSet, this`requireRecord
      ensures Built(table)
    {
      var rids := table.Keys;
      ghost var done: map<Rid, Queue> := map[];
      while rids != {}
        invariant done.Keys == table.Keys - rids && rids <= table.Keys && forall r :: r in done ==> done[r] == table[r]
        invariant Built(done)
        decreases rids
      {
        Inhabited(rids);
        var r :| r in rids;
        forall a, b ensures
          var more := done[r := table[r]];
          (Waits(more, a, b) <==> Waits(done, a, b) || WaitsIn(table[r].requests, a, b)) &&
          (Requests(more, a) <==> Requests(done, a) || HasRequest(table[r].requests, a, false) || HasRequest(table[r].requests, a, true)) &&
          (Waiting(more, a) <==> Waiting(done, a) || HasRequest(table[r].requests, a, false))
        {
          OneMoreQueue(done, r, table[r], a, b);
        }
        AddQueue(r, table[r].requests);
        done := done[r := table[r]];
        rids := rids - {r};
      }
      SameTable(done, table);
    }

    // ---------------------------------------------------------------- breaking cycles

    /** As the code has it: the edge looked for is the one from t1 to itself. */
    method RemoveEdge(t1: TxnId, t2: TxnId)
      modifies this`waitsFor
      ensures forall x, y :: x != t1 || y != t1 ==> (Edge(waitsFor, x, y) <==> Edge(old(waitsFor), x, y))
      ensures Edge(waitsFor, t1, t1) ==> Edge(old(waitsFor), t1, t1)
      ensures !Edge(old(waitsFor), t1, t1) ==> Next(waitsFor, t1) == Next(old(waitsFor), t1)
    {
      var v := Next(waitsFor, t1);
      waitsFor := waitsFor[t1 := v];
      var i := 0;
      while i < |v| && v[i] != t1
        invariant 0 <= i <= |v| && t1 !in v[..i]
      {
        i := i + 1;
      }
      if i < |v| {
        RemovedOne(v, i);
        waitsFor := waitsFor[t1 := v[..i] + v[i + 1..]];
      } else {
        assert v[..|v|] == v;
      }
    }

    /** g is the graph `was`, some edges from a node to itself perhaps missing. */
    static ghost predicate LoopsApart(g: Graph, was: Graph) {
      forall x, y :: (Edge(g, x, y) ==> Edge(was, x, y)) && (x != y && Edge(was, x, y) ==> Edge(g, x, y))
    }

    /** The victim's outgoing edges go, and no others but edges from a node to itself. */
    method DeleteNode(victim: TxnId, lm: LockManager)
      requires victim in lm.txns
      modifies this`waitsFor
      ensures LoopsApart(waitsFor, old(waitsFor) - {victim})
    {
      waitsFor := waitsFor - {victim};
      RemoveEdgesTo(victim, lm, lm.txns[victim].shared);
      RemoveEdgesTo(victim, lm, lm.txns[victim].exclusive);
    }

    method RemoveEdgesTo(victim: TxnId, lm: LockManager, locks: set<Rid>)
      modifies this`waitsFor
      ensures LoopsApart(waitsFor, old(waitsFor))
    {
      var rids := locks;
      while rids != {}
        invariant LoopsApart(waitsFor, old(waitsFor))
        decreases rids
      {
        Inhabited(rids);
        var r :| r in rids;
        var q := QueueOf(State(lm.lockTable, lm.txns), r).requests;
        var i := 0;
        while i < |q|
          invariant 0 <= i <= |q|
          invariant LoopsApart(waitsFor, old(waitsFor))
        {
          if !q[i].granted {
            RemoveEdge(q[i].txn, victim);
          }
          i := i + 1;
        }
        rids := rids - {r};
      }
    }

    /**
      Whether a cycle can be reached from one of the listed transactions; if so, the newest transaction on the
      search stack.  Transactions found to reach none leave the list.
     */
    method HasCycle(ghost all: set<TxnId>) returns (found: bool, victim: TxnId, ghost walk: seq<TxnId>)
      requires SafeOk(waitsFor, safe) && active == {} && ClosedUnder(waitsFor, all) && txnSet <= all
      modifies this`safe, this`active, this`txnSet
      ensures SafeOk(waitsFor, safe) && active == {} && old(safe) <= safe
      ensures txnSet <= old(txnSet) <= txnSet + safe && (!found ==> txnSet == {})
      ensures found <==> exists a :: a in old(txnSet) && ReachesCycle(waitsFor, a)
      ensures found ==> Next(waitsFor, victim) != [] && ClosingWalk(waitsFor, [], walk)
      ensures found ==> SearchPath(waitsFor, old(txnSet), walk) && Newest(walk, victim)
    {
      found, victim, walk := false, 0, [];
      while txnSet != {}
        invariant SafeOk(waitsFor, safe) && active == {} && old(safe) <= safe
        invariant txnSet <= old(txnSet) <= txnSet + safe
        decreases txnSet
      {
        var start := Smallest(txnSet);
        found, walk := Dfs(start, [], all);
        if found {
          StackTop(waitsFor, walk, start);
          victim := Largest(active);
          StackBusy(waitsFor, walk, victim);
          active := {};
          return;
        }
        active := {};
        txnSet := txnSet - {start};
      }
    }

    // ---------------------------------------------------------------- one pass

    /** The search is under way: the graph is the table's without the victims, and every listed node is open or safe. */
    ghost predicate Searching(table: map<Rid, Queue>, all: set<TxnId>, victims: set<TxnId>)
      reads this
    {
      GraphOf(waitsFor, table, victims, victims == {}) && RecordsOf(table) && SafeOk(waitsFor, safe) && active == {} &&
      txnSet <= all <= txnSet + safe && forall a :: a in all <==> Requests(table, a)
    }

    method Search(ghost table: map<Rid, Queue>, ghost all: set<TxnId>, ghost victims: set<TxnId>) returns (found: bool, victim: TxnId)
      requires Searching(table, all, victims)
      modifies this`safe, this`active, this`txnSet
      ensures Searching(table, all, victims)
      ensures !found ==> txnSet == {}
      ensures found ==> Next(waitsFor, victim) != [] && exists c :: WaitCycle(table, c)
      ensures found && Selfless(table) ==> NextVictim(table, victims, victim)
    {
      Bounded(waitsFor, table, victims, victims == {}, all);
      ghost var open := txnSet;
      ghost var walk;
      found, victim, walk := HasCycle(all);
      if found {
        ghost var a :| a in open && ReachesCycle(waitsFor, a);
        ghost var c := ReachedIsCycle(waitsFor, a);
        CycleIsWaitCycle(waitsFor, table, victims, victims == {}, c);
        assert forall a :: a in all && ReachesCycle(waitsFor, a) ==> a in open;
        assert SearchPath(waitsFor, all, walk);
        if Selfless(table) { assert IsSearch(table, victims, waitsFor, all, walk); }
      }
    }

    /** The victims are the aborted ones; everything else about the transactions is as it was. */
    static ghost predicate Aborted(txns: map<TxnId, Txn>, before: map<TxnId, Txn>, victims: set<TxnId>) {
      txns.Keys == before.Keys && victims <= txns.Keys &&
      forall t :: t in txns ==> txns[t] == if t in victims then before[t].(state := ABORTED) else before[t]
    }

    /** The victim has a waiting request for a record whose sleepers were notified. */
    static ghost predicate Told(table: map<Rid, Queue>, notified: set<Rid>, t: TxnId) {
      exists r :: r in notified && r in table && HasRequest(table[r].requests, t, false)
    }

    /** What is known of a transaction that waits in the graph. */
    lemma VictimWaits(s: State, all: set<TxnId>, victims: set<TxnId>, t: TxnId)
      requires Known(s) && Searching(s.queues, all, victims) && Next(waitsFor, t) != []
      ensures t in requireRecord && t in s.txns && t in all && t !in victims
      ensures requireRecord[t] in s.queues && HasRequest(s.queues[requireRecord[t]].requests, t, false)
    {
      assert Edge(waitsFor, t, Next(waitsFor, t)[0]);
      WaitsAndRequests(s.queues, t, Next(waitsFor, t)[0]);
    }

    /** Abort a waiting transaction, take it out of the graph, and notify the record it waits for. */
    method AbortVictim(lm: LockManager, victim: TxnId, ghost all: set<TxnId>, ghost victims: set<TxnId>) returns (notify: Rid)
      requires Known(lm.Now()) && Searching(lm.lockTable, all, victims) && Next(waitsFor, victim) != []
      modifies this`waitsFor, lm`txns
      ensures (old(lm.Valid()) ==> lm.Valid()) && Searching(lm.lockTable, all, victims + {victim}) && victim !in victims && victim in all
      ensures notify in lm.lockTable && HasRequest(lm.lockTable[notify].requests, victim, false)
      ensures victim in old(lm.txns) && lm.txns == old(lm.txns)[victim := old(lm.txns)[victim].(state := ABORTED)]
    {
      ghost var graph := waitsFor;
      VictimWaits(lm.Now(), all, victims, victim);
      notify := requireRecord[victim];
      lm.SetState(victim, ABORTED);
      DeleteNode(victim, lm);
      SafeFewer(graph, waitsFor, safe);
    }

    /** The victims so far, in order, are aborted and told. */
    static ghost predicate Broken(table: map<Rid, Queue>, txns: map<TxnId, Txn>, before: map<TxnId, Txn>,
                                  victims: set<TxnId>, order: seq<TxnId>, notified: set<Rid>)
    {
      Aborted(txns, before, victims) && (forall t :: t in victims ==> Told(table, notified, t)) && victims == Members(order) &&
      (Selfless(table) ==> InTurn(table, order)) && (victims != {} ==> exists c :: WaitCycle(table, c))
    }

    /** And the graph is the table's without them. */
    ghost predicate Breaking(lm: LockManager, table: map<Rid, Queue>, all: set<TxnId>, before: map<TxnId, Txn>,
                             victims: set<TxnId>, order: seq<TxnId>, notified: set<Rid>)
      reads this, lm
    {
      lm.lockTable == table && Searching(table, all, victims) && Known(lm.Now()) &&
      Broken(table, lm.txns, before, victims, order, notified)
    }

    /** The search has found the next victim, or that there is none. */
    ghost predicate Picked(table: map<Rid, Queue>, victims: set<TxnId>, found: bool, victim: TxnId)
      reads this
    {
      if found then
        Next(waitsFor, victim) != [] && (exists c :: WaitCycle(table, c)) && (Selfless(table) ==> NextVictim(table, victims, victim))
      else txnSet == {}
    }

    /** Abort the victim found. */
    method BreakOne(lm: LockManager, victim: TxnId, ghost all: set<TxnId>, ghost before: map<TxnId, Txn>,
                    ghost victims: set<TxnId>, ghost order: seq<TxnId>, ghost notified: set<Rid>)
      returns (ghost notified': set<Rid>)
      requires Breaking(lm, lm.lockTable, all, before, victims, order, notified) && Picked(lm.lockTable, victims, true, victim)
      modifies this`waitsFor, lm`txns
      ensures (old(lm.Valid()) ==> lm.Valid()) && victim in all && victim !in victims
      ensures Breaking(lm, lm.lockTable, all, before, victims + {victim}, order + [victim], notified')
    {
      ghost var txns := lm.txns;
      var notify := AbortVictim(lm, victim, all, victims);
      notified' := notified + {notify};
      BrokenPush(lm.lockTable, txns, before, victims, order, notified, victim, notify);
    }

    /** Abort victims until the search finds no more cycle. */
    method BreakCycles(lm: LockManager, ghost all: set<TxnId>)
      returns (ghost victims: set<TxnId>, ghost order: seq<TxnId>, ghost notified: set<Rid>)
      requires Known(lm.Now()) && Searching(lm.lockTable, all, {})
      modifies this, lm`txns
      ensures (old(lm.Valid()) ==> lm.Valid()) && txnSet == {}
      ensures Breaking(lm, lm.lockTable, all, old(lm.txns), victims, order, notified)
    {
      victims, order, notified := {}, [], {};
      ghost var table, before := lm.lockTable, lm.txns;
      var found, victim := Search(table, all, victims);
      while found
        invariant (old(lm.Valid()) ==> lm.Valid()) && Breaking(lm, table, all, before, victims, order, notified)
        invariant Picked(table, victims, found, victim)
        decreases all - victims
      {
        notified := BreakOne(lm, victim, all, before, victims, order, notified);
        victims, order := victims + {victim}, order + [victim];
        found, victim := Search(table, all, victims);
      }
    }

    static lemma TurnPush(table: map<Rid, Queue>, order: seq<TxnId>, v: TxnId)
      requires InTurn(table, order) && NextVictim(table, Members(order), v)
      ensures InTurn(table, order + [v])
    {
      var more := order + [v];
      forall i | 0 <= i < |more| ensures NextVictim(table, Members(more[..i]), more[i]) {
        assert more[..i] == order[..i];
        if i == |order| { assert order[..i] == order; }
      }
    }

    static lemma BrokenPush(table: map<Rid, Queue>, txns: map<TxnId, Txn>, before: map<TxnId, Txn>, victims: set<TxnId>,
                            order: seq<TxnId>, notified: set<Rid>, v: TxnId, r: Rid)
      requires Broken(table, txns, before, victims, order, notified) && v in txns && v !in victims
      requires r in table && HasRequest(table[r].requests, v, false) && exists c :: WaitCycle(table, c)
      requires Selfless(table) ==> NextVictim(table, victims, v)
      ensures Broken(table, txns[v := txns[v].(state := ABORTED)], before, victims + {v}, order + [v], notified + {r})
    {
      OneMoreTold(table, notified, victims, v, r);
      if Selfless(table) { TurnPush(table, order, v); }
    }

    static lemma OneMoreTold(table: map<Rid, Queue>, notified: set<Rid>, victims: set<TxnId>, t: TxnId, r: Rid)
      requires r in table && HasRequest(table[r].requests, t, false) && forall u :: u in victims ==> Told(table, notified, u)
      ensures forall u :: u in victims + {t} ==> Told(table, notified + {r}, u)
    {
      forall u | u in victims + {t} ensures Told(table, notified + {r}, u) {
        if u != t {
          var q :| q in notified && q in table && HasRequest(table[q].requests, u, false);
          assert q in notified + {r};
        } else {
          assert r in notified + {r};
        }
      }
    }

    /**
      One pass of the detector, under the latch.  It aborts only transactions with a waiting request, and aborts one
      exactly if some requests stand in a circle; afterwards every circle in which nobody waits for itself contains
      one of them.  Where nobody waits for itself at all, the table determines them and their order.  Where every
      waiting request is a sleeper's, it aborts only sleepers and notifies their records.
      On a table in order every deadlock contains a transaction it aborted, and it aborts one exactly if there is a
      deadlock, unless a sleeping transaction has given up a lock.
     */
    method RunCycleDetection(lm: LockManager) returns (ghost victims: set<TxnId>, ghost order: seq<TxnId>, ghost notified: set<Rid>)
      requires Known(lm.Now()) && Blank()
      modifies this, lm`txns
      ensures (old(lm.Valid()) ==> lm.Valid()) && Aborted(lm.txns, old(lm.txns), victims)
      ensures forall t :: t in victims ==> Told(lm.lockTable, notified, t)
      ensures victims != {} <==> exists c :: WaitCycle(lm.lockTable, c)
      ensures forall c :: WaitCycle(lm.lockTable, c) && Stepping(c) ==> exists i :: 0 <= i < |c| && c[i] in victims
      ensures WaitersSleep(old(lm.Now())) ==> forall t :: t in victims ==> lm.txns[t].wait.Asleep? && lm.txns[t].wait.rid in notified
      ensures old(lm.Valid()) ==> forall c :: Deadlock(old(lm.Now()), c) ==> exists i :: 0 <= i < |c| && c[i] in victims
      ensures old(lm.Valid()) && SleepersHoldAll(old(lm.Now())) ==> (victims != {} <==> exists c :: Deadlock(old(lm.Now()), c))
      ensures victims == Members(order)
      ensures Selfless(lm.lockTable) ==> InTurn(lm.lockTable, order) && forall v :: !NextVictim(lm.lockTable, victims, v)
      ensures Blank()
    {
      ghost var was := lm.Now();
      Build(lm.lockTable);
      victims, order, notified := BreakCycles(lm, txnSet);
      NothingLeft(waitsFor, lm.lockTable, victims, safe);
      if WaitersSleep(was) { SleepersTold(was, lm.txns, victims, notified); }
      if old(lm.Valid()) {
        DeadlocksAre(lm.fixed, was);
      }
      Clear();
    }

    method Clear()
      requires active == {}
      modifies this
      ensures Blank()
    {
      waitsFor, safe, txnSet, requireRecord := map[], {}, {}, map[];
    }

    static lemma SleepersTold(s: State, txns: map<TxnId, Txn>, victims: set<TxnId>, notified: set<Rid>)
      requires WaitersSleep(s) && Aborted(txns, s.txns, victims) && forall t :: t in victims ==> Told(s.queues, notified, t)
      ensures forall t :: t in victims ==> txns[t].wait.Asleep? && txns[t].wait.rid in notified
    {
      forall t | t in victims ensures txns[t].wait.Asleep? && txns[t].wait.rid in notified {
        assert Told(s.queues, notified, t);
      }
    }

    /** What a search that has found nothing leaves. */
    static lemma NothingLeft(g: Graph, table: map<Rid, Queue>, victims: set<TxnId>, safe: set<TxnId>)
      requires GraphOf(g, table, victims, victims == {}) && SafeOk(g, safe) && forall a :: Requests(table, a) ==> a in safe
      ensures victims == {} ==> forall c :: !WaitCycle(table, c)
      ensures forall c :: WaitCycle(table, c) && Stepping(c) ==> exists i :: 0 <= i < |c| && c[i] in victims
      ensures Selfless(table) ==> forall v :: !NextVictim(table, victims, v)
    {
      forall c | WaitCycle(table, c) && (victims == {} || Stepping(c)) ensures exists i :: 0 <= i < |c| && c[i] in victims {
        CyclesBroken(g, table, victims, victims == {}, safe, c);
      }
      if Selfless(table) { NobodyNext(g, table, victims); }
    }

    /** On a table in order, deadlocks are circles in which nobody waits for itself. */
    static lemma DeadlocksAre(fixed: bool, s: State)
      requires Inv(fixed, s)
      ensures forall c :: Deadlock(s, c) ==> WaitCycle(s.queues, c) && Stepping(c)
      ensures SleepersHoldAll(s) && (exists c :: WaitCycle(s.queues, c)) ==> exists c :: Deadlock(s, c)
    {
      InvWaits(fixed, s);
      forall c | Deadlock(s, c) ensures WaitCycle(s.queues, c) && Stepping(c) {
        DeadlockIsCycle(fixed, s, c);
        forall i | 0 <= i < |c| - 1 ensures c[i] != c[i + 1] { assert Follows(s.queues, c, i); }
      }
      if SleepersHoldAll(s) && exists c :: WaitCycle(s.queues, c) {
        var c :| WaitCycle(s.queues, c);
        SleepersDeadlock(fixed, s, c);
      }
    }
  }

  lemma SameTable(a: map<Rid, Queue>, b: map<Rid, Queue>)
    requires (forall r :: r in b ==> r in a) && forall r :: r in a ==> r in b && a[r] == b[r]
    ensures a == b
  {
    forall r ensures r in a.Keys <==> r in b.Keys {}
    assert a.Keys == b.Keys;
    forall r | r in a ensures a[r] == b[r] {}
  }

  lemma Bounded(g: Graph, table: map<Rid, Queue>, victims: set<TxnId>, loops: bool, all: set<TxnId>)
    requires GraphOf(g, table, victims, loops) && forall a :: a in all <==> Requests(table, a)
    ensures ClosedUnder(g, all)
  {}

  lemma RemovedOne(v: seq<TxnId>, i: nat)
    requires i < |v|
    ensures forall y :: y != v[i] ==> (y in v[..i] + v[i + 1..] <==> y in v)
  {}

  lemma HasRequestPush(q: seq<Request>, i: nat)
    requires i < |q|
    ensures forall t, g :: HasRequest(q[..i + 1], t, g) <==> HasRequest(q[..i], t, g) || (q[i].txn == t && q[i].granted == g)
  {
    var a, b := q[..i], q[..i + 1];
    assert forall k :: 0 <= k < i ==> b[k] == a[k];
    forall t, g ensures HasRequest(b, t, g) <==> HasRequest(a, t, g) || (q[i].txn == t && q[i].granted == g) {
      if HasRequest(b, t, g) {
        var k :| 0 <= k < |b| && b[k].txn == t && b[k].granted == g;
        if k < i { assert a[k].txn == t && a[k].granted == g; }
      }
      if HasRequest(a, t, g) {
        var k :| 0 <= k < |a| && a[k].txn == t && a[k].granted == g;
        assert b[k].txn == t && b[k].granted == g;
      }
      assert b[i] == q[i];
    }
  }

  /** A closing walk shows a reachable cycle, and stays on the stack. */
  lemma StackTop(g: Graph, walk: seq<TxnId>, start: TxnId)
    requires ClosingWalk(g, [] + [start], walk)
    ensures ClosingWalk(g, [], walk) && ReachesCycle(g, start)
    ensures Members(walk[..|walk| - 1]) != {} && forall x :: x in walk ==> x in Members(walk[..|walk| - 1])
  {
    var last := |walk| - 1;
    assert walk[0] == start && walk[0] in walk[..last];
    var i :| 0 <= i < last && walk[..last][i] == walk[last];
    assert walk[i] == walk[last];
    assert Repeats(walk);
    assert walk[0] in Members(walk[..last]);
    forall x | x in walk ensures x in walk[..last] {
      var k :| 0 <= k < |walk| && walk[k] == x;
      if k < last { assert walk[..last][k] == x; }
    }
  }

  /** Every node on the stack waits for something. */
  lemma StackBusy(g: Graph, walk: seq<TxnId>, x: TxnId)
    requires Walk(g, walk) && x in Members(walk[..|walk| - 1])
    ensures Next(g, x) != [] && x in walk
  {
    var k :| 0 <= k < |walk| - 1 && walk[..|walk| - 1][k] == x;
    assert walk[k] == x && Link(g, walk, k);
  }

  lemma WalkOn(g: Graph, p: seq<TxnId>, x: TxnId)
    requires Walk(g, p) && Edge(g, p[|p| - 1], x)
    ensures Walk(g, p + [x])
  {
    var q := p + [x];
    forall i | 0 <= i < |q| - 1 ensures Link(g, q, i) {
      if i < |p| - 1 { assert Link(g, p, i); }
    }
  }
}
