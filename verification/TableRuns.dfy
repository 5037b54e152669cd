/**
  Whole runs of a table: transactions one after the other, each ended by commit or abort, answer as a map from
  record ids to tuples would, and it is said exactly when a commit or an abort leaves the map it should.
 */
module TableRuns {
  import opened TablePages
  import opened Rollbacks
  import opened TableHeaps
  import opened TableTxns

  // ------------------------------------------------------------------ what a table holds

  ghost function RidsOf(t: Table): set<Rid> {
    set p, i | p in t && 0 <= i < |t[p]| :: Rid(p, i)
  }

  /** The live tuples. */
  ghost function ContentOf(t: Table): map<Rid, Tuple> {
    map r | r in RidsOf(t) && CellAt(t, r).Live? :: CellAt(t, r).bytes
  }

  lemma ContentAt(t: Table, r: Rid)
    ensures r in ContentOf(t) <==> CellAt(t, r).Live?
    ensures r in ContentOf(t) ==> ContentOf(t)[r] == CellAt(t, r).bytes
  {
    if CellAt(t, r).Live? { assert r == Rid(r.page, r.slot) && r in RidsOf(t); }
  }

  lemma ContentIs(t: Table, m: map<Rid, Tuple>)
    requires forall r :: (r in m <==> CellAt(t, r).Live?) && (r in m ==> m[r] == CellAt(t, r).bytes)
    ensures ContentOf(t) == m
  {
    forall r ensures (r in ContentOf(t) <==> r in m) && (r in m ==> ContentOf(t)[r] == m[r]) { ContentAt(t, r); }
    assert ContentOf(t).Keys == m.Keys;
  }

  /** One cell has changed. */
  lemma ContentStep(t: Table, t': Table, r: Rid)
    requires SameElsewhere(t, t', r)
    ensures ContentOf(t') == if CellAt(t', r).Live? then ContentOf(t)[r := CellAt(t', r).bytes] else ContentOf(t) - {r}
  {
    var m := if CellAt(t', r).Live? then ContentOf(t)[r := CellAt(t', r).bytes] else ContentOf(t) - {r};
    forall q ensures (q in m <==> CellAt(t', q).Live?) && (q in m ==> m[q] == CellAt(t', q).bytes) {
      ContentAt(t, q);
      if q != r { assert CellAt(t', q) == CellAt(t, q); }
    }
    ContentIs(t', m);
  }

  /** Without marks, tables with the same content have the same cells. */
  lemma SameContent(a: Table, b: Table)
    requires NoneMarked(a) && NoneMarked(b)
    ensures ContentOf(a) == ContentOf(b) <==> forall r :: CellAt(a, r) == CellAt(b, r)
  {
    forall r ensures r in ContentOf(a) <==> CellAt(a, r).Live? { ContentAt(a, r); }
    if ContentOf(a) == ContentOf(b) {
      forall r ensures CellAt(a, r) == CellAt(b, r) {
        ContentAt(a, r);
        ContentAt(b, r);
        assert !CellAt(a, r).Marked? && !CellAt(b, r).Marked?;
      }
    }
    if forall r :: CellAt(a, r) == CellAt(b, r) {
      forall r ensures (r in ContentOf(b) <==> CellAt(a, r).Live?) && (r in ContentOf(b) ==> ContentOf(b)[r] == CellAt(a, r).bytes) {
        ContentAt(b, r);
      }
      ContentIs(a, ContentOf(b));
    }
  }

  // ------------------------------------------------------------------ what a map answers

  /** A call names a record by its place in the list of record ids the client knows. */
  datatype Op = Put(t: Tuple) | Get(k: nat) | Change(k: nat, t: Tuple) | Remove(k: nat)

  datatype Reply = StoredAt(rid: Rid) | TooLarge | Found(t: Tuple) | Missing | Done(ok: bool)

  datatype Ending = Commits | Aborts

  datatype Script = Script(ops: seq<Op>, ending: Ending)

  /** The records there are, and the record ids known. */
  datatype Client = Client(m: map<Rid, Tuple>, known: seq<Rid>)

  predicate Sized(t: Tuple) {
    |t| + 32 <= PAGE_SIZE
  }

  /** Tuples are not empty, and only known record ids are named; n of them are known at first. */
  predicate OpsOk(n: nat, ops: seq<Op>)
    decreases |ops|
  {
    ops == [] ||
    match ops[0]
    case Put(t) => |t| > 0 && OpsOk(if Sized(t) then n + 1 else n, ops[1..])
    case Get(k) => k < n && OpsOk(n, ops[1..])
    case Change(k, t) => k < n && |t| > 0 && OpsOk(n, ops[1..])
    case Remove(k) => k < n && OpsOk(n, ops[1..])
  }

  predicate Names(c: Client, op: Op) {
    op.Put? || op.k < |c.known|
  }

  /** An update may be refused for lack of space, but never when the new tuple is no longer than the old one. */
  predicate Answers(c: Client, op: Op, reply: Reply)
    requires Names(c, op)
  {
    match op
    case Put(t) => if Sized(t) then reply.StoredAt? && reply.rid !in c.m else reply == TooLarge
    case Get(k) => reply == if c.known[k] in c.m then Found(c.m[c.known[k]]) else Missing
    case Change(k, t) => reply.Done? &&
      if c.known[k] in c.m then |t| <= |c.m[c.known[k]]| ==> reply.ok else !reply.ok
    case Remove(_) => reply == Done(true)
  }

  function After(c: Client, op: Op, reply: Reply): Client
    requires Names(c, op)
  {
    match op
    case Put(t) => if reply.StoredAt? then Client(c.m[reply.rid := t], c.known + [reply.rid]) else c
    case Get(_) => c
    case Change(k, t) => if reply == Done(true) then c.(m := c.m[c.known[k] := t]) else c
    case Remove(k) => c.(m := c.m - {c.known[k]})
  }

  predicate AnswersAll(c: Client, ops: seq<Op>, replies: seq<Reply>)
    decreases |ops|
  {
    |replies| == |ops| &&
    (ops == [] || (Names(c, ops[0]) && Answers(c, ops[0], replies[0]) && AnswersAll(After(c, ops[0], replies[0]), ops[1..], replies[1..])))
  }

  function AfterAll(c: Client, ops: seq<Op>, replies: seq<Reply>): Client
    requires AnswersAll(c, ops, replies)
    decreases |ops|
  {
    if ops == [] then c else AfterAll(After(c, ops[0], replies[0]), ops[1..], replies[1..])
  }

  /** Every record deleted is there. */
  predicate Proper(c: Client, ops: seq<Op>, replies: seq<Reply>)
    requires AnswersAll(c, ops, replies)
    decreases |ops|
  {
    ops == [] || ((ops[0].Remove? ==> c.known[ops[0].k] in c.m) && Proper(After(c, ops[0], replies[0]), ops[1..], replies[1..]))
  }

  // ------------------------------------------------------------------ deletions

  /** The i-th entry, if a deletion, has marked its record and is the only deletion of it. */
  ghost predicate TidyAt(t: Table, ws: seq<Record>, i: nat)
    requires i < |ws|
  {
    ws[i].Deleted? ==> CellAt(t, ws[i].rid).Marked? && !DeletedIn(ws[i + 1..], ws[i].rid)
  }

  ghost predicate Tidy(t: Table, ws: seq<Record>) {
    forall i {:trigger TidyAt(t, ws, i)} :: 0 <= i < |ws| ==> TidyAt(t, ws, i)
  }

  /** Marks come from deletions. */
  ghost predicate MarksLogged(t: Table, ws: seq<Record>) {
    forall r {:trigger CellAt(t, r)} :: CellAt(t, r).Marked? ==> DeletedIn(ws, r)
  }

  lemma DeletedPush(ws: seq<Record>, w: Record, r: Rid)
    ensures DeletedIn(ws + [w], r) <==> DeletedIn(ws, r) || w == Deleted(r)
  {
    var us := ws + [w];
    assert us[|ws|] == w;
    if DeletedIn(ws, r) {
      var i :| 0 <= i < |ws| && ws[i] == Deleted(r);
      assert us[i] == Deleted(r);
    }
  }

  /** A change other than a deletion keeps the deletions' state. */
  lemma TidyStays(t: Table, t': Table, ws: seq<Record>, r: Rid)
    requires SameElsewhere(t, t', r) && !CellAt(t, r).Marked? && CellAt(t', r).Live?
    ensures Tidy(t', ws) <==> Tidy(t, ws)
    ensures MarksLogged(t, ws) ==> MarksLogged(t', ws)
  {
    forall i | 0 <= i < |ws| ensures TidyAt(t', ws, i) <==> TidyAt(t, ws, i) {
      if ws[i].rid != r { assert CellAt(t', ws[i].rid) == CellAt(t, ws[i].rid); }
    }
    forall q | MarksLogged(t, ws) && CellAt(t', q).Marked? ensures DeletedIn(ws, q) {
      assert CellAt(t, q) == CellAt(t', q);
    }
  }

  lemma TidyPush(t: Table, ws: seq<Record>, w: Record)
    requires !w.Deleted?
    ensures Tidy(t, ws + [w]) <==> Tidy(t, ws)
    ensures MarksLogged(t, ws) ==> MarksLogged(t, ws + [w])
  {
    var us := ws + [w];
    forall i | 0 <= i < |ws| ensures TidyAt(t, us, i) <==> TidyAt(t, ws, i) {
      assert us[i + 1..] == ws[i + 1..] + [w];
      DeletedPush(ws[i + 1..], w, ws[i].rid);
    }
    assert TidyAt(t, us, |ws|);
    forall q | MarksLogged(t, ws) && CellAt(t, q).Marked? ensures DeletedIn(us, q) { DeletedPush(ws, w, q); }
  }

  /** A deletion leaves the deletions tidy if and only if they were, and its record is there. */
  lemma TidyDelete(t: Table, t': Table, ws: seq<Record>, r: Rid)
    requires Did(t, t', Deleted(r)) && MarksLogged(t, ws)
    ensures Tidy(t', ws + [Deleted(r)]) <==> Tidy(t, ws) && CellAt(t, r).Live?
    ensures MarksLogged(t', ws + [Deleted(r)])
  {
    var us := ws + [Deleted(r)];
    forall q | CellAt(t', q).Marked? ensures DeletedIn(us, q) {
      if q != r { assert CellAt(t', q) == CellAt(t, q); }
      DeletedPush(ws, Deleted(r), q);
    }
    assert us[|ws|..][1..] == [];
    assert TidyAt(t', us, |ws|) <==> CellAt(t', r).Marked?;
    forall i | 0 <= i < |ws| ensures TidyAt(t', us, i) <==> TidyAt(t, ws, i) && ws[i] != Deleted(r) {
      assert us[i + 1..] == ws[i + 1..] + [Deleted(r)];
      DeletedPush(ws[i + 1..], Deleted(r), ws[i].rid);
      if ws[i].rid != r { assert CellAt(t', ws[i].rid) == CellAt(t, ws[i].rid); }
    }
    if Tidy(t, ws) && CellAt(t, r).Live? {
      forall i | 0 <= i < |ws| ensures TidyAt(t', us, i) { assert TidyAt(t, ws, i); }
    }
    if Tidy(t', us) {
      forall i | 0 <= i < |ws| ensures TidyAt(t, ws, i) && ws[i] != Deleted(r) { assert TidyAt(t', us, i); }
      assert TidyAt(t', us, |ws|);
      assert !DeletedIn(ws, r);
    }
  }

  /** A commit does what it is for exactly if the deletions are tidy. */
  lemma CommitTells(t: Table, t': Table, ws: seq<Record>)
    requires MarksLogged(t, ws) && (DeletesApply(t, ws) ==> Committing(t, t', ws, 0))
    ensures DeletesApply(t, ws) && ContentOf(t') == ContentOf(t) <==> Tidy(t, ws)
    ensures DeletesApply(t, ws) ==> NoneMarked(t')
  {
    assert ws[0..] == ws;
    if Tidy(t, ws) {
      forall i | 0 <= i < |ws| ensures Applies(t, ws, i) { assert TidyAt(t, ws, i); }
      forall r ensures (r in ContentOf(t) <==> CellAt(t', r).Live?) && (r in ContentOf(t) ==> ContentOf(t)[r] == CellAt(t', r).bytes) {
        ContentAt(t, r);
        if DeletedIn(ws, r) {
          var i :| 0 <= i < |ws| && ws[i] == Deleted(r);
          assert TidyAt(t, ws, i);
        }
      }
      ContentIs(t', ContentOf(t));
    }
    if DeletesApply(t, ws) && ContentOf(t') == ContentOf(t) {
      forall i | 0 <= i < |ws| ensures TidyAt(t, ws, i) {
        assert Applies(t, ws, i);
        if ws[i].Deleted? {
          assert DeletedIn(ws, ws[i].rid) && CellAt(t', ws[i].rid) == Empty;
          ContentAt(t, ws[i].rid);
          ContentAt(t', ws[i].rid);
        }
      }
    }
    if DeletesApply(t, ws) {
      forall r ensures !CellAt(t', r).Marked? { assert CellAt(t, r).Marked? ==> DeletedIn(ws, r); }
    }
  }

  // ------------------------------------------------------------------ one call

  ghost predicate PagesKnown(known: seq<Rid>, t: Table) {
    forall r :: r in known ==> r.page in t
  }

  /** The transaction goes on from content c and the known record ids. */
  ghost predicate Under(txn: TableTxn, c: Client)
    reads txn, txn.heap
  {
    txn.Valid() && c.m == ContentOf(txn.heap.View()) && PagesKnown(c.known, txn.heap.View()) && MarksLogged(txn.heap.View(), txn.writeSet)
  }

  ghost predicate TidyNow(txn: TableTxn)
    reads txn, txn.heap
  {
    Tidy(txn.heap.View(), txn.writeSet)
  }

  method DoPut(txn: TableTxn, t: Tuple, ghost c: Client) returns (reply: Reply)
    requires Under(txn, c) && |t| > 0
    modifies txn, txn.heap
    ensures Answers(c, Put(t), reply) && Under(txn, After(c, Put(t), reply)) && txn.Start() == old(txn.Start())
    ensures TidyNow(txn) <==> old(TidyNow(txn))
  {
    ghost var before, ws := txn.heap.View(), txn.writeSet;
    var res, rid := txn.Insert(t);
    if !res { return TooLarge; }
    reply := StoredAt(rid);
    ghost var after := txn.heap.View();
    ContentAt(before, rid);
    ContentStep(before, after, rid);
    TidyStays(before, after, ws, rid);
    TidyPush(after, ws, Inserted(rid));
  }

  method DoGet(txn: TableTxn, known: seq<Rid>, k: nat, ghost c: Client) returns (reply: Reply)
    requires Under(txn, c) && c.known == known && k < |known|
    ensures Answers(c, Get(k), reply)
  {
    assert known[k] in known;
    var res, t := txn.heap.GetTuple(known[k]);
    ContentAt(txn.heap.View(), known[k]);
    reply := if res then Found(t) else Missing;
  }

  /** A tuple is replaced; the write set takes note of it or not. */
  lemma UpdateStep(before: Table, r: Rid, t: Tuple, ws: seq<Record>, ws': seq<Record>)
    requires CellAt(before, r).Live? && (ws' == ws || exists was: Tuple :: ws' == ws + [Updated(r, was)])
    ensures var after := SetCell(before, r, Live(t));
      ContentOf(after) == ContentOf(before)[r := t] && (Tidy(after, ws') <==> Tidy(before, ws)) &&
      (MarksLogged(before, ws) ==> MarksLogged(after, ws'))
  {
    var after := SetCell(before, r, Live(t));
    ContentStep(before, after, r);
    TidyStays(before, after, ws, r);
    if ws' != ws { TidyPush(after, ws, ws'[|ws|]); }
  }

  method DoChange(txn: TableTxn, known: seq<Rid>, k: nat, t: Tuple, ghost c: Client) returns (reply: Reply)
    requires Under(txn, c) && c.known == known && k < |known| && |t| > 0
    modifies txn, txn.heap
    ensures Answers(c, Change(k, t), reply) && Under(txn, After(c, Change(k, t), reply)) && txn.Start() == old(txn.Start())
    ensures TidyNow(txn) <==> old(TidyNow(txn))
  {
    ghost var before, ws := txn.heap.View(), txn.writeSet;
    var r := known[k];
    assert r in known;
    txn.heap.NeverOverfull();
    ContentAt(before, r);
    var res := txn.Update(t, r);
    reply := Done(res);
    if res { UpdateStep(before, r, t, ws, txn.writeSet); }
  }

  method DoRemove(txn: TableTxn, known: seq<Rid>, k: nat, ghost c: Client) returns (reply: Reply)
    requires Under(txn, c) && c.known == known && k < |known|
    modifies txn, txn.heap
    ensures Answers(c, Remove(k), reply) && Under(txn, After(c, Remove(k), reply)) && txn.Start() == old(txn.Start())
    ensures TidyNow(txn) <==> old(TidyNow(txn)) && known[k] in c.m
  {
    ghost var before, ws := txn.heap.View(), txn.writeSet;
    var r := known[k];
    assert r in known;
    ContentAt(before, r);
    var _ := txn.MarkDelete(r);
    reply := Done(true);
    ghost var after := txn.heap.View();
    ContentStep(before, after, r);
    TidyDelete(before, after, ws, r);
  }

  method Do(txn: TableTxn, op: Op, known: seq<Rid>, ghost c: Client) returns (reply: Reply, known': seq<Rid>)
    requires Under(txn, c) && c.known == known && OpsOk(|known|, [op])
    modifies txn, txn.heap
    ensures Names(c, op) && Answers(c, op, reply) && Under(txn, After(c, op, reply)) && known' == After(c, op, reply).known
    ensures txn.Start() == old(txn.Start()) && |known'| == if op.Put? && Sized(op.t) then |known| + 1 else |known|
    ensures TidyNow(txn) <==> old(TidyNow(txn)) && (op.Remove? ==> known[op.k] in c.m)
  {
    match op {
      case Put(t) => reply := DoPut(txn, t, c);
      case Get(k) => reply := DoGet(txn, known, k, c);
      case Change(k, t) => reply := DoChange(txn, known, k, t, c);
      case Remove(k) => reply := DoRemove(txn, known, k, c);
    }
    known' := if reply.StoredAt? then known + [reply.rid] else known;
  }

  /** The calls of one transaction. */
  method Perform(txn: TableTxn, ops: seq<Op>, known: seq<Rid>, ghost c: Client) returns (replies: seq<Reply>, known': seq<Rid>)
    requires Under(txn, c) && c.known == known && OpsOk(|known|, ops)
    modifies txn, txn.heap
    ensures AnswersAll(c, ops, replies) && Under(txn, AfterAll(c, ops, replies)) && known' == AfterAll(c, ops, replies).known
    ensures txn.Start() == old(txn.Start())
    ensures TidyNow(txn) <==> old(TidyNow(txn)) && Proper(c, ops, replies)
    decreases |ops|
  {
    if ops == [] {
      return [], known;
    }
    var reply, next := Do(txn, ops[0], known, c);
    var rest;
    rest, known' := Perform(txn, ops[1..], next, After(c, ops[0], reply));
    replies := [reply] + rest;
    assert replies[1..] == rest;
  }

  // ------------------------------------------------------------------ one transaction

  /** What the books say of one transaction: the client before and after, and the table at its start and at its end. */
  datatype Account = Account(before: Client, after: Client, first: Table, last: Table, log: seq<Record>)

  /** Every deletion's slot is there, and every record's undo puts it back. */
  ghost predicate Undoable(first: Table, last: Table, log: seq<Record>) {
    AllPresent(last, log) && forall r :: !Spoiled(last, log, r, Drifted(first, last, r))
  }

  /**
    The answers are a map's.  A commit runs to its end and leaves the map that results exactly if every record
    deleted was there; an abort leaves the map as it was at the start exactly if every undo does what it should.
   */
  ghost predicate AccountOk(s: Script, replies: seq<Reply>, ok: bool, a: Account) {
    AnswersAll(a.before, s.ops, replies) && a.before.m == ContentOf(a.first) && a.after.known == AfterAll(a.before, s.ops, replies).known &&
    match s.ending
    case Commits => ok && a.after.m == AfterAll(a.before, s.ops, replies).m <==> Proper(a.before, s.ops, replies)
    case Aborts => ok && a.after.m == a.before.m <==> Undoable(a.first, a.last, a.log)
  }

  /** No deletion is pending between transactions. */
  ghost predicate Resting(heap: TableHeap, c: Client)
    reads heap
  {
    heap.Valid() && NoneMarked(heap.View()) && c.m == ContentOf(heap.View()) && PagesKnown(c.known, heap.View())
  }

  method Transact(heap: TableHeap, s: Script, known: seq<Rid>, ghost c: Client)
    returns (replies: seq<Reply>, ok: bool, known': seq<Rid>, ghost a: Account)
    requires Resting(heap, c) && c.known == known && OpsOk(|known|, s.ops)
    modifies heap
    ensures AccountOk(s, replies, ok, a) && a.before == c && a.after.known == known'
    ensures ok ==> Resting(heap, a.after)
  {
    ghost var first := heap.View();
    var txn := new TableTxn(heap);
    replies, known' := Perform(txn, s.ops, known, c);
    ghost var last, log := heap.View(), txn.writeSet;
    if s.ending == Commits {
      ok := txn.Commit();
      CommitTells(last, heap.View(), log);
    } else {
      ok := txn.Abort();
      if ok {
        SameContent(heap.View(), first);
      }
    }
    a := Account(c, Client(ContentOf(heap.View()), known'), first, last, log);
  }

  // ------------------------------------------------------------------ one transaction after the other

  /** How many record ids are known after the calls. */
  function Grown(n: nat, ops: seq<Op>): nat
    decreases |ops|
  {
    if ops == [] then n else Grown(if ops[0].Put? && Sized(ops[0].t) then n + 1 else n, ops[1..])
  }

  lemma {:induction false} KnownGrows(c: Client, ops: seq<Op>, replies: seq<Reply>)
    requires AnswersAll(c, ops, replies)
    ensures |AfterAll(c, ops, replies).known| == Grown(|c.known|, ops)
    decreases |ops|
  {
    if ops != [] { KnownGrows(After(c, ops[0], replies[0]), ops[1..], replies[1..]); }
  }

  predicate ScriptsOk(n: nat, scripts: seq<Script>)
    decreases |scripts|
  {
    scripts == [] || (OpsOk(n, scripts[0].ops) && ScriptsOk(Grown(n, scripts[0].ops), scripts[1..]))
  }

  /** The accounts of a run, one for each transaction until an assertion stops one. */
  ghost predicate Books(c: Client, scripts: seq<Script>, replies: seq<seq<Reply>>, ok: bool, accounts: seq<Account>)
    decreases |scripts|
  {
    |accounts| == |replies| &&
    if scripts == [] then replies == [] && ok
    else
      replies != [] && accounts[0].before == c && AccountOk(scripts[0], replies[0], |replies| > 1 || ok, accounts[0]) &&
      if |replies| > 1 || ok then Books(accounts[0].after, scripts[1..], replies[1..], ok, accounts[1..]) else true
  }

  ghost function LastOf(c: Client, accounts: seq<Account>): Client {
    if accounts == [] then c else accounts[|accounts| - 1].after
  }

  method Run(heap: TableHeap, scripts: seq<Script>, known: seq<Rid>, ghost c: Client)
    returns (replies: seq<seq<Reply>>, ok: bool, ghost accounts: seq<Account>)
    requires Resting(heap, c) && c.known == known && ScriptsOk(|known|, scripts)
    modifies heap
    ensures Books(c, scripts, replies, ok, accounts)
    ensures ok ==> Resting(heap, LastOf(c, accounts))
    decreases |scripts|
  {
    if scripts == [] {
      return [], true, [];
    }
    var first, known';
    ghost var a;
    first, ok, known', a := Transact(heap, scripts[0], known, c);
    if !ok {
      return [first], false, [a];
    }
    KnownGrows(c, scripts[0].ops, first);
    var rest;
    ghost var more;
    rest, ok, more := Run(heap, scripts[1..], known', a.after);
    replies, accounts := [first] + rest, [a] + more;
    assert replies[1..] == rest && accounts[1..] == more;
  }

  /** The map after a transaction: a committed one counts, an aborted one leaves nothing but the record ids it learned. */
  function Net(c: Client, s: Script, replies: seq<Reply>): Client
    requires AnswersAll(c, s.ops, replies)
  {
    if s.ending == Commits then AfterAll(c, s.ops, replies) else AfterAll(c, s.ops, replies).(m := c.m)
  }

  /** All answers are those of the map, whole transactions counting or not. */
  predicate Session(c: Client, scripts: seq<Script>, replies: seq<seq<Reply>>)
    decreases |scripts|
  {
    |replies| == |scripts| &&
    (scripts == [] || (AnswersAll(c, scripts[0].ops, replies[0]) && Session(Net(c, scripts[0], replies[0]), scripts[1..], replies[1..])))
  }

  function NetAll(c: Client, scripts: seq<Script>, replies: seq<seq<Reply>>): Client
    requires Session(c, scripts, replies)
    decreases |scripts|
  {
    if scripts == [] then c else NetAll(Net(c, scripts[0], replies[0]), scripts[1..], replies[1..])
  }

  /** The transaction ends as it should: it deletes only records that are there, or every undo does what it should. */
  ghost predicate Good(s: Script, replies: seq<Reply>, a: Account) {
    AnswersAll(a.before, s.ops, replies) &&
    if s.ending == Commits then Proper(a.before, s.ops, replies) else Undoable(a.first, a.last, a.log)
  }

  ghost predicate AllGood(scripts: seq<Script>, replies: seq<seq<Reply>>, accounts: seq<Account>)
    requires |accounts| == |replies| <= |scripts|
  {
    forall i {:trigger accounts[i]} :: 0 <= i < |accounts| ==> Good(scripts[i], replies[i], accounts[i])
  }

  ghost predicate Nets(s: Script, replies: seq<Reply>, a: Account) {
    AnswersAll(a.before, s.ops, replies) && a.after == Net(a.before, s, replies)
  }

  /** Every account leads on to what its transaction should leave. */
  ghost predicate AllNet(scripts: seq<Script>, replies: seq<seq<Reply>>, accounts: seq<Account>)
    requires |accounts| == |replies| <= |scripts|
  {
    forall i {:trigger accounts[i]} :: 0 <= i < |accounts| ==> Nets(scripts[i], replies[i], accounts[i])
  }

  lemma {:induction false} BooksShort(c: Client, scripts: seq<Script>, replies: seq<seq<Reply>>, ok: bool, accounts: seq<Account>)
    requires Books(c, scripts, replies, ok, accounts)
    ensures |accounts| == |replies| <= |scripts| && (ok ==> |replies| == |scripts|)
    decreases |scripts|
  {
    if scripts != [] && (|replies| > 1 || ok) { BooksShort(accounts[0].after, scripts[1..], replies[1..], ok, accounts[1..]); }
  }

  /** A run goes through to its end, each transaction leaving what it should, if and only if every one of them is good. */
  lemma {:induction false} GoodRuns(c: Client, scripts: seq<Script>, replies: seq<seq<Reply>>, ok: bool, accounts: seq<Account>)
    requires Books(c, scripts, replies, ok, accounts) && |accounts| == |replies| <= |scripts|
    ensures ok && AllNet(scripts, replies, accounts) <==> AllGood(scripts, replies, accounts)
    decreases |scripts|
  {
    if scripts != [] {
      var a, s := accounts[0], scripts[0];
      var going := |replies| > 1 || ok;
      assert going && a.after == Net(a.before, s, replies[0]) <==> Good(s, replies[0], a);
      if going {
        BooksShort(a.after, scripts[1..], replies[1..], ok, accounts[1..]);
        GoodRuns(a.after, scripts[1..], replies[1..], ok, accounts[1..]);
        Peels(scripts, replies, accounts);
      }
    }
  }

  lemma Peels(scripts: seq<Script>, replies: seq<seq<Reply>>, accounts: seq<Account>)
    requires 0 < |accounts| == |replies| <= |scripts|
    ensures AllGood(scripts, replies, accounts) <==> Good(scripts[0], replies[0], accounts[0]) && AllGood(scripts[1..], replies[1..], accounts[1..])
    ensures AllNet(scripts, replies, accounts) <==> Nets(scripts[0], replies[0], accounts[0]) && AllNet(scripts[1..], replies[1..], accounts[1..])
  {
    forall i | 0 <= i < |accounts| - 1 ensures accounts[1..][i] == accounts[i + 1] {}
    if AllGood(scripts[1..], replies[1..], accounts[1..]) {
      forall i | 1 <= i < |accounts| ensures Good(scripts[i], replies[i], accounts[i]) {
        assert Good(scripts[1..][i - 1], replies[1..][i - 1], accounts[1..][i - 1]);
      }
    }
    if AllNet(scripts[1..], replies[1..], accounts[1..]) {
      forall i | 1 <= i < |accounts| ensures Nets(scripts[i], replies[i], accounts[i]) {
        assert Nets(scripts[1..][i - 1], replies[1..][i - 1], accounts[1..][i - 1]);
      }
    }
  }

  /** Such a run answers throughout as a map in which committed transactions count and aborted ones do not. */
  lemma {:induction false} GoodRunsAreMaps(c: Client, scripts: seq<Script>, replies: seq<seq<Reply>>, ok: bool, accounts: seq<Account>)
    requires Books(c, scripts, replies, ok, accounts) && |accounts| == |replies| <= |scripts| && AllGood(scripts, replies, accounts)
    ensures ok && Session(c, scripts, replies) && LastOf(c, accounts) == NetAll(c, scripts, replies)
    decreases |scripts|
  {
    GoodRuns(c, scripts, replies, ok, accounts);
    if scripts != [] {
      BooksShort(accounts[0].after, scripts[1..], replies[1..], ok, accounts[1..]);
      Peels(scripts, replies, accounts);
      GoodRunsAreMaps(accounts[0].after, scripts[1..], replies[1..], ok, accounts[1..]);
    }
  }

  /** From a new table. */
  method Serve(scripts: seq<Script>) returns (replies: seq<seq<Reply>>, ok: bool, ghost accounts: seq<Account>)
    requires ScriptsOk(0, scripts)
    ensures Books(Client(map[], []), scripts, replies, ok, accounts)
  {
    var heap := new TableHeap(0);
    ContentIs(heap.View(), map[]);
    replies, ok, accounts := Run(heap, scripts, [], Client(map[], []));
  }
}
