/**
  Whole runs of the buffer pool: it answers as a plain map of pages would, as long as its clients report their
  writes, and runs short of frames exactly when every frame is pinned.
 */
module PoolRuns {
  import opened BufferPools
  import opened Replacers
  import opened Sets

  /**
    What the clients know: the content of every page in use, how often each page is pinned, whose writes are still
    to be reported, and the next page id.
   */
  datatype Client = Client(pages: map<PageId, Bytes>, pins: map<PageId, nat>, owed: set<PageId>, next: PageId)

  datatype Call =
    | FetchCall(p: PageId)
    | NewCall
    | WriteCall(p: PageId, data: Bytes)
    | UnpinCall(p: PageId, isDirty: bool)
    | FlushCall(p: PageId)
    | FlushAllCall
    | DeleteCall(p: PageId)

  datatype Reply = Data(bytes: Bytes) | NewId(p: PageId) | NoFrame | Done(res: bool) | Flushed

  /** Only pages in use are fetched, only pinned ones written, and the last unpin reports what is owed. */
  predicate OpOk(c: Client, op: Call) {
    match op
    case FetchCall(p) => p in c.pages
    case WriteCall(p, _) => p in c.pins
    case UnpinCall(p, isDirty) => p in c.pins && c.pins[p] == 1 && p in c.owed ==> isDirty
    case _ => true
  }

  /** What a map of pages answers that can have `size` pages pinned at a time. */
  function Answer(c: Client, size: nat, op: Call): Reply
    requires OpOk(c, op)
  {
    match op
    case FetchCall(p) => if p in c.pins || |c.pins| < size then Data(c.pages[p]) else NoFrame
    case NewCall => if |c.pins| < size then NewId(c.next) else NoFrame
    case WriteCall(_, _) => Done(true)
    case UnpinCall(p, _) => Done(p in c.pins)
    case FlushCall(_) => Flushed
    case FlushAllCall => Flushed
    case DeleteCall(p) => Done(p !in c.pins)
  }

  function After(c: Client, size: nat, op: Call): Client
    requires OpOk(c, op)
  {
    match op
    case FetchCall(p) =>
      if p in c.pins then c.(pins := c.pins[p := c.pins[p] + 1])
      else if |c.pins| < size then c.(pins := c.pins[p := 1]) else c
    case NewCall =>
      var d := c.(pages := c.pages[c.next := Zeros()], next := c.next + 1);
      if |c.pins| < size then d.(pins := c.pins[c.next := 1]) else d
    case WriteCall(p, data) => c.(pages := c.pages[p := data], owed := c.owed + {p})
    case UnpinCall(p, isDirty) =>
      if p !in c.pins then c
      else
        c.(pins := if c.pins[p] > 1 then c.pins[p := c.pins[p] - 1] else c.pins - {p}, owed := if isDirty then c.owed - {p} else c.owed)
    case FlushCall(p) => c.(owed := c.owed - {p})
    case FlushAllCall => c.(owed := {})
    case DeleteCall(p) => if p in c.pins then c else c.(pages := c.pages - {p})
  }

  predicate RunOk(c: Client, size: nat, ops: seq<Call>)
    decreases |ops|
  {
    ops == [] || (OpOk(c, ops[0]) && RunOk(After(c, size, ops[0]), size, ops[1..]))
  }

  function Answers(c: Client, size: nat, ops: seq<Call>): (r: seq<Reply>)
    requires RunOk(c, size, ops)
    ensures |r| == |ops|
    decreases |ops|
  {
    if ops == [] then [] else [Answer(c, size, ops[0])] + Answers(After(c, size, ops[0]), size, ops[1..])
  }

  function AfterAll(c: Client, size: nat, ops: seq<Call>): Client
    requires RunOk(c, size, ops)
    decreases |ops|
  {
    if ops == [] then c else AfterAll(After(c, size, ops[0]), size, ops[1..])
  }

  // ------------------------------------------------------------------ how a pool stands to its clients

  ghost predicate PinnedFor(s: Pool, p: PageId) {
    p in s.table && InRange(s, s.table[p]) && s.frames[s.table[p]].pinCount > 0
  }

  /** The pool holds what the clients know of page p. */
  ghost predicate Fits(s: Pool, c: Client, p: PageId) {
    (p in s.table || p in s.disk ==> p < s.next) &&
    (p in c.pages ==> 0 <= p < c.next && Logical(s, p) == c.pages[p]) && (PinnedFor(s, p) <==> p in c.pins) &&
    (p in c.pins ==> p in c.pages && s.frames[s.table[p]].pinCount == c.pins[p]) &&
    (p in c.owed <==> p in s.table && s.table[p] in s.unreported)
  }

  ghost predicate Refines(s: Pool, c: Client) {
    Ok(s, {}) && s.next == c.next >= 0 && forall p {:trigger Fits(s, c, p)} :: Fits(s, c, p)
  }

  const NOTHING := Client(map[], map[], {}, 0)

  lemma RefinesFresh(s: Pool)
    requires Ok(s, {}) && Fresh(s)
    ensures Refines(s, NOTHING)
  {
    forall p ensures Fits(s, NOTHING, p) {}
  }

  ghost function Pinned(s: Pool): set<FrameId> {
    set f | 0 <= f < |s.frames| && s.frames[f].pinCount > 0
  }

  lemma {:induction false} SameSize(a: set<int>, b: set<int>, f: map<int, int>)
    requires forall x :: x in a ==> x in f && f[x] in b
    requires forall x, y :: x in a && y in a && f[x] == f[y] ==> x == y
    requires forall z :: z in b ==> exists x :: x in a && f[x] == z
    ensures |a| == |b|
  {
    if a != {} {
      Inhabited(a);
      var x :| x in a;
      SameSize(a - {x}, b - {f[x]}, f);
    } else {
      assert forall z :: z !in b;
    }
  }

  lemma {:induction false} UpTo(n: nat) returns (all: set<int>)
    ensures |all| == n && forall f :: f in all <==> 0 <= f < n
  {
    all := {};
    if n > 0 {
      all := UpTo(n - 1);
      all := all + {n - 1};
    }
  }

  /** A frame is free to use exactly if fewer pages are pinned than there are frames. */
  lemma FramesLeft(s: Pool, c: Client)
    requires Refines(s, c)
    ensures SomeUnpinned(s) <==> |c.pins| < |s.frames|
  {
    var pinned := Pinned(s);
    forall p | p in c.pins ensures PinnedFor(s, p) && s.table[p] in pinned && s.frames[s.table[p]].pageId == p {
      assert Fits(s, c, p);
    }
    forall f | f in pinned ensures exists p :: p in c.pins.Keys && s.table[p] == f {
      assert FrameOk(s, f);
      assert Fits(s, c, s.frames[f].pageId) && PinnedFor(s, s.frames[f].pageId);
    }
    SameSize(c.pins.Keys, pinned, s.table);
    var all := UpTo(|s.frames|);
    if SomeUnpinned(s) {
      var f :| InRange(s, f) && s.frames[f].pinCount == 0;
      assert pinned <= all - {f};
      Smaller(pinned, all - {f});
    } else {
      forall f | f in all ensures f in pinned { assert FrameOk(s, f); }
      assert pinned == all;
    }
  }

  lemma {:induction false} Smaller(a: set<int>, b: set<int>)
    requires a <= b
    ensures |a| <= |b|
  {
    if a != {} {
      Inhabited(a);
      var x :| x in a;
      Smaller(a - {x}, b - {x});
    }
  }

  // ------------------------------------------------------------------ the calls, one by one

  /** The pages other than p stand in their frames as before. */
  lemma OthersStand(s: Pool, s': Pool, f: FrameId, p: PageId, q: PageId)
    requires Ok(s, {}) && Ok(s', {}) && InRange(s, f) && OthersStay(s, s', f) && q != p
    requires s'.frames[f].pageId == p && (s.frames[f].pinCount > 0 ==> s.frames[f].pageId == p)
    ensures q in s'.table ==> q in s.table && s'.table[q] == s.table[q] && s'.frames[s'.table[q]] == s.frames[s.table[q]]
    ensures PinnedFor(s, q) ==> q in s'.table
  {
    if q in s'.table {
      TableIsInverse(s, q, s'.table[q]);
    }
    if PinnedFor(s, q) {
      TableIsInverse(s', q, s.table[q]);
    }
  }

  lemma PageStands(s: Pool, s': Pool, f: FrameId, p: PageId)
    requires Ok(s', {}) && InRange(s, f) && OthersStay(s, s', f) && s'.frames[f].pageId == p != INVALID_PAGE_ID
    ensures p in s'.table && s'.table[p] == f
  {
    TableIsInverse(s', p, f);
  }

  /** The clients know the same of page q. */
  predicate SameFor(c: Client, c': Client, q: PageId) {
    (q in c.pages <==> q in c'.pages) && (q in c.pages ==> c.pages[q] == c'.pages[q]) &&
    (q in c.pins <==> q in c'.pins) && (q in c.pins ==> c.pins[q] == c'.pins[q]) && (q in c.owed <==> q in c'.owed)
  }

  /** A call that works on frame f, for page p, keeps every other page's part. */
  lemma OthersFit(s: Pool, c: Client, s': Pool, c': Client, f: FrameId, p: PageId, q: PageId)
    requires Refines(s, c) && Ok(s', {}) && InRange(s, f) && OthersStay(s, s', f) && q != p && SameFor(c, c', q)
    requires s'.frames[f].pageId == p && (s.frames[f].pinCount > 0 ==> s.frames[f].pageId == p)
    requires s'.next == c'.next >= s.next && Logical(s', q) == Logical(s, q)
    ensures Fits(s', c', q)
  {
    OthersStand(s, s', f, p, q);
    assert Fits(s, c, q);
    if q in s.table && s.table[q] in s.unreported { assert FrameOk(s, s.table[q]); }
  }

  lemma FetchRefines(s: Pool, c: Client, p: PageId, k: Taken)
    requires Refines(s, c) && p in c.pages && Fetched(s, p, k)
    ensures k.found <==> p in c.pins || |c.pins| < |s.frames|
    ensures Refines(k.pool, After(c, |s.frames|, FetchCall(p)))
    ensures k.found ==> InRange(k.pool, k.frame) && k.pool.frames[k.frame].data == c.pages[p]
  {
    FramesLeft(s, c);
    assert Fits(s, c, p);
    if p in s.table { assert FrameOk(s, s.table[p]); }
    var t, d := k.pool, After(c, |s.frames|, FetchCall(p));
    if k.found {
      PageStands(s, t, k.frame, p);
      forall q ensures Fits(t, d, q) {
        assert Logical(t, q) == Logical(s, q);
        if q != p { OthersFit(s, c, t, d, k.frame, p, q); } else { FetchFits(s, c, p, k); }
      }
    }
  }

  lemma FetchFits(s: Pool, c: Client, p: PageId, k: Taken)
    requires Refines(s, c) && p in c.pages && Fetched(s, p, k) && k.found && p in k.pool.table && k.pool.table[p] == k.frame
    requires p in c.pins || |c.pins| < |s.frames|
    ensures Fits(k.pool, After(c, |s.frames|, FetchCall(p)), p)
  {
    assert Fits(s, c, p);
    assert Logical(k.pool, p) == Logical(s, p);
    assert FrameOk(s, k.frame);
    if p in s.table {
      TableIsInverse(s, p, s.table[p]);
      TableIsInverse(k.pool, p, s.table[p]);
      assert FrameOk(s, s.table[p]);
    }
  }

  lemma NewRefines(s: Pool, c: Client, k: Taken)
    requires Refines(s, c) && NextUnused(s) && Created(s, k)
    ensures k.found <==> |c.pins| < |s.frames|
    ensures Refines(k.pool, After(c, |s.frames|, NewCall))
  {
    FramesLeft(s, c);
    var t, d, p := k.pool, After(c, |s.frames|, NewCall), s.next;
    assert Fits(s, c, p);
    if k.found {
      PageStands(s, t, k.frame, p);
      assert FrameOk(s, k.frame);
      forall q ensures Fits(t, d, q) {
        if q != p {
          assert Logical(t, q) == Logical(s, q);
          OthersFit(s, c, t, d, k.frame, p, q);
        }
      }
    } else {
      forall q ensures Fits(t, d, q) {
        assert Fits(s, c, q);
        assert Logical(t, q) == Logical(s, q);
      }
    }
  }

  /** The next page is unused as long as the clients keep to the pages they were given. */
  lemma NextIsUnused(s: Pool, c: Client)
    requires Refines(s, c)
    ensures NextUnused(s)
  {
    assert Fits(s, c, s.next);
  }

  lemma WriteRefines(s: Pool, c: Client, p: PageId, data: Bytes)
    requires Refines(s, c) && p in c.pins
    ensures PinnedFor(s, p)
    ensures Refines(Store(s, s.table[p], data), After(c, |s.frames|, WriteCall(p, data)))
  {
    assert Fits(s, c, p);
    var f := s.table[p];
    StoreOk(s, f, data);
    var t, d := Store(s, f, data), After(c, |s.frames|, WriteCall(p, data));
    forall q ensures Fits(t, d, q) {
      assert Fits(s, c, q);
      if q in s.table { TableIsInverse(s, q, s.table[q]); }
    }
  }

  lemma UnpinRefines(s: Pool, c: Client, p: PageId, isDirty: bool)
    requires Refines(s, c) && PinnedFor(s, p) && OpOk(c, UnpinCall(p, isDirty))
    requires s.frames[s.table[p]].pinCount == 1 && s.table[p] in s.unreported ==> isDirty
    ensures p in c.pins && Refines(PinLess(s, s.table[p], isDirty), After(c, |s.frames|, UnpinCall(p, isDirty)))
  {
    assert Fits(s, c, p);
    var f := s.table[p];
    PinLessOk(s, f, isDirty);
    var t, d := PinLess(s, f, isDirty), After(c, |s.frames|, UnpinCall(p, isDirty));
    forall q ensures Fits(t, d, q) {
      assert Fits(s, c, q) && Logical(t, q) == Logical(s, q);
      if q in s.table { TableIsInverse(s, q, s.table[q]); }
    }
  }

  lemma DeleteRefines(s: Pool, c: Client, p: PageId)
    requires Refines(s, c) && p in s.table && InRange(s, s.table[p]) && s.frames[s.table[p]].pinCount == 0
    ensures p !in c.pins && Refines(Delete(s, s.table[p]), After(c, |s.frames|, DeleteCall(p)))
  {
    assert Fits(s, c, p);
    var f := s.table[p];
    assert FrameOk(s, f);
    DeleteOk(s, f);
    var t, d := Delete(s, f), After(c, |s.frames|, DeleteCall(p));
    forall q ensures Fits(t, d, q) {
      assert Fits(s, c, q);
      if q in s.table { TableIsInverse(s, q, s.table[q]); }
    }
  }

  lemma CleanedRefines(s: Pool, c: Client, s': Pool, d: Client)
    requires Refines(s, c) && Ok(s', {}) && SamePages(s, s') && Cleaned(s, s')
    requires d.pages == c.pages && d.pins == c.pins && d.next == c.next && d.owed <= c.owed
    requires forall p {:trigger p in d.owed} :: p in c.owed ==> (p in d.owed <==> p in s.table && s.table[p] in s'.unreported)
    ensures Refines(s', d)
  {
    forall q ensures Fits(s', d, q) {
      assert Fits(s, c, q) && Logical(s', q) == Logical(s, q);
    }
  }

  // ------------------------------------------------------------------ runs

  /** The pool has answered the call as the map does, and still holds what its clients know. */
  ghost predicate Answered(s: Pool, c: Client, op: Call, pool: BufferPoolManager, reply: Reply)
    requires OpOk(c, op)
    reads pool, pool.Repr()
  {
    pool.Valid() && pool.frames.Length == |s.frames| && reply == Answer(c, |s.frames|, op) &&
    Refines(pool.Now(), After(c, |s.frames|, op))
  }

  method StepFetch(pool: BufferPoolManager, p: PageId, ghost c: Client) returns (reply: Reply)
    requires pool.Valid() && Refines(pool.Now(), c) && OpOk(c, FetchCall(p))
    modifies pool.Repr()
    ensures Answered(old(pool.Now()), c, FetchCall(p), pool, reply) && fresh(pool.Repr() - old(pool.Repr()))
  {
    ghost var s := pool.Now();
    assert Fits(s, c, p);
    var found, frame := pool.FetchPage(p);
    FetchRefines(s, c, p, Taken(pool.Now(), found, frame));
    reply := if found then Data(pool.frames[frame].data) else NoFrame;
  }

  method StepNew(pool: BufferPoolManager, ghost c: Client) returns (reply: Reply)
    requires pool.Valid() && Refines(pool.Now(), c) && OpOk(c, NewCall)
    modifies pool.Repr()
    ensures Answered(old(pool.Now()), c, NewCall, pool, reply) && fresh(pool.Repr() - old(pool.Repr()))
  {
    ghost var s := pool.Now();
    NextIsUnused(s, c);
    var p, found, frame := pool.NewPage();
    NewRefines(s, c, Taken(pool.Now(), found, frame));
    reply := if found then NewId(p) else NoFrame;
  }

  method StepWrite(pool: BufferPoolManager, p: PageId, data: Bytes, ghost c: Client) returns (reply: Reply)
    requires pool.Valid() && Refines(pool.Now(), c) && OpOk(c, WriteCall(p, data))
    modifies pool.Repr()
    ensures Answered(old(pool.Now()), c, WriteCall(p, data), pool, reply) && fresh(pool.Repr() - old(pool.Repr()))
  {
    ghost var s := pool.Now();
    WriteRefines(s, c, p, data);
    pool.WriteData(pool.pageTable[p], data);
    reply := Done(true);
  }

  method StepUnpin(pool: BufferPoolManager, p: PageId, isDirty: bool, ghost c: Client) returns (reply: Reply)
    requires pool.Valid() && Refines(pool.Now(), c) && OpOk(c, UnpinCall(p, isDirty))
    modifies pool.Repr()
    ensures Answered(old(pool.Now()), c, UnpinCall(p, isDirty), pool, reply) && fresh(pool.Repr() - old(pool.Repr()))
  {
    ghost var s := pool.Now();
    assert Fits(s, c, p);
    var res := pool.UnpinPage(p, isDirty);
    if res { UnpinRefines(s, c, p, isDirty); }
    reply := Done(res);
  }

  method StepFlush(pool: BufferPoolManager, p: PageId, ghost c: Client) returns (reply: Reply)
    requires pool.Valid() && Refines(pool.Now(), c) && OpOk(c, FlushCall(p))
    modifies pool.Repr()
    ensures Answered(old(pool.Now()), c, FlushCall(p), pool, reply) && fresh(pool.Repr() - old(pool.Repr()))
  {
    ghost var s := pool.Now();
    var _ := pool.FlushPage(p);
    FlushRefines(s, c, p);
    reply := Flushed;
  }

  method StepFlushAll(pool: BufferPoolManager, ghost c: Client) returns (reply: Reply)
    requires pool.Valid() && Refines(pool.Now(), c) && OpOk(c, FlushAllCall)
    modifies pool.Repr()
    ensures Answered(old(pool.Now()), c, FlushAllCall, pool, reply) && fresh(pool.Repr() - old(pool.Repr()))
  {
    ghost var s := pool.Now();
    pool.FlushAllPages();
    CleanedRefines(s, c, pool.Now(), c.(owed := {}));
    reply := Flushed;
  }

  method StepDelete(pool: BufferPoolManager, p: PageId, ghost c: Client) returns (reply: Reply)
    requires pool.Valid() && Refines(pool.Now(), c) && OpOk(c, DeleteCall(p))
    modifies pool.Repr()
    ensures Answered(old(pool.Now()), c, DeleteCall(p), pool, reply) && fresh(pool.Repr() - old(pool.Repr()))
  {
    ghost var s := pool.Now();
    assert Fits(s, c, p);
    var res := pool.DeletePage(p);
    if p !in s.table {
      DroppedRefines(s, c, p);
    } else if res {
      DeleteRefines(s, c, p);
    } else {
      assert FrameOk(s, s.table[p]) && PinnedFor(s, p);
    }
    reply := Done(res);
  }

  method Step(pool: BufferPoolManager, op: Call, ghost c: Client) returns (reply: Reply)
    requires pool.Valid() && Refines(pool.Now(), c) && OpOk(c, op)
    modifies pool.Repr()
    ensures Answered(old(pool.Now()), c, op, pool, reply) && fresh(pool.Repr() - old(pool.Repr()))
  {
    match op {
      case FetchCall(p) => reply := StepFetch(pool, p, c);
      case NewCall => reply := StepNew(pool, c);
      case WriteCall(p, data) => reply := StepWrite(pool, p, data, c);
      case UnpinCall(p, isDirty) => reply := StepUnpin(pool, p, isDirty, c);
      case FlushCall(p) => reply := StepFlush(pool, p, c);
      case FlushAllCall => reply := StepFlushAll(pool, c);
      case DeleteCall(p) => reply := StepDelete(pool, p, c);
    }
  }

  /** Every run of the pool answers as the map of pages does. */
  method Run(pool: BufferPoolManager, ops: seq<Call>, ghost c: Client) returns (replies: seq<Reply>)
    requires pool.Valid() && Refines(pool.Now(), c) && RunOk(c, pool.frames.Length, ops)
    modifies pool.Repr()
    ensures pool.Valid() && fresh(pool.Repr() - old(pool.Repr()))
    ensures replies == Answers(c, pool.frames.Length, ops) && Refines(pool.Now(), AfterAll(c, pool.frames.Length, ops))
    decreases |ops|
  {
    if ops == [] {
      return [];
    }
    var reply := Step(pool, ops[0], c);
    var rest := Run(pool, ops[1..], After(c, pool.frames.Length, ops[0]));
    replies := [reply] + rest;
  }

  lemma FlushRefines(s: Pool, c: Client, p: PageId)
    requires Refines(s, c)
    ensures p in s.table ==> InRange(s, s.table[p]) && Refines(Flush(s, s.table[p]), After(c, |s.frames|, FlushCall(p)))
    ensures p !in s.table ==> Refines(s, After(c, |s.frames|, FlushCall(p)))
  {
    var d := After(c, |s.frames|, FlushCall(p));
    assert Fits(s, c, p);
    if p in s.table {
      FlushOk(s, s.table[p]);
      forall q | q in s.table ensures s.frames[s.table[q]].pageId == q { TableIsInverse(s, q, s.table[q]); }
      forall q | q in c.owed ensures q in s.table { assert Fits(s, c, q); }
      forall q {:trigger q in d.owed} | q in c.owed ensures q in d.owed <==> q in s.table && s.table[q] in Flush(s, s.table[p]).unreported {
        assert Fits(s, c, q);
      }
      CleanedRefines(s, c, Flush(s, s.table[p]), d);
    } else {
      assert d == c;
    }
  }

  /** The deletion of a page that is not resident. */
  lemma DroppedRefines(s: Pool, c: Client, p: PageId)
    requires Refines(s, c) && p !in s.table
    ensures Refines(s, After(c, |s.frames|, DeleteCall(p)))
  {
    forall q ensures Fits(s, After(c, |s.frames|, DeleteCall(p)), q) { assert Fits(s, c, q); }
  }

  /** From the start, with the given number of frames. */
  method Serve(size: nat, ops: seq<Call>) returns (replies: seq<Reply>)
    requires RunOk(NOTHING, size, ops)
    ensures replies == Answers(NOTHING, size, ops)
  {
    var pool := new BufferPoolManager(size);
    RefinesFresh(pool.Now());
    replies := Run(pool, ops, NOTHING);
  }

  // ------------------------------------------------------------------ Delete and Flush as they stand

  /** A pool of one frame, with page 0 in it and pinned. */
  method OnePage() returns (pool: BufferPoolManager)
    ensures fresh(pool) && fresh(pool.Repr()) && pool.Valid() && pool.frames.Length == 1
    ensures 0 in pool.pageTable && pool.pageTable[0] == 0 && pool.frames[0].pinCount == 1
  {
    pool := new BufferPoolManager(1);
    assert pool.frames[0].pinCount == 0;
    var p, found, frame := pool.NewPage();
    TableIsInverse(pool.Now(), 0, 0);
  }

  /** Page 0 resident and not pinned: deleting it as the code stands breaks the pool. */
  method DeleteBreaks() returns (pool: BufferPoolManager)
    ensures fresh(pool) && pool.Valid() && pool.frames.Length == 1 && 0 in pool.pageTable
    ensures !Ok(DeleteAsWritten(pool.Now(), 0), {})
  {
    pool := OnePage();
    var _ := pool.UnpinPage(0, true);
    DeleteAsWrittenBreaks(pool.Now(), 0);
  }

  /** A pool that has handed out no page: flushing page 0 as the code stands breaks it. */
  method FlushBreaks() returns (pool: BufferPoolManager)
    ensures fresh(pool) && pool.Valid() && pool.frames.Length == 1
    ensures !Ok(FlushAsWritten(pool.Now(), 0), {})
  {
    pool := new BufferPoolManager(1);
    FlushAsWrittenBreaks(pool.Now(), 0);
  }
}
