/**
  The buffer pool: a fixed number of frames caching the pages of a disk.

  The disk is a total map in which pages never written are all zeros, and page ids are handed out in order.
 */
module BufferPools {
  import opened Replacers
  import opened Sets

  type PageId = int
  type Bytes = seq<bv8>

  const INVALID_PAGE_ID: PageId := -1
  const PAGE_SIZE: nat := 4096
  /** A page never written to. */
  function Zeros(): Bytes {
    seq(PAGE_SIZE, i => 0)
  }

  datatype Frame = Frame(pageId: PageId, data: Bytes, pinCount: int, isDirty: bool)

  /** All of the pool's state.  `unreported` are the frames written to since, without a report at an unpin yet. */
  datatype Pool = Pool(frames: seq<Frame>, table: map<PageId, FrameId>, free: seq<FrameId>, lru: seq<FrameId>,
                       disk: map<PageId, Bytes>, next: PageId, unreported: set<FrameId>)

  function OnDisk(disk: map<PageId, Bytes>, p: PageId): Bytes {
    if p in disk then disk[p] else Zeros()
  }

  ghost predicate InRange(s: Pool, f: FrameId) {
    0 <= f < |s.frames|
  }

  /** A frame is free, pinned, or evictable; a resident page is found in the table; a clean one equals its disk page. */
  ghost predicate FrameOk(s: Pool, f: FrameId)
    requires InRange(s, f)
  {
    var x := s.frames[f];
    x.pinCount >= 0 &&
    (f in s.free <==> x.pageId == INVALID_PAGE_ID) &&
    (f in s.lru <==> x.pageId != INVALID_PAGE_ID && x.pinCount == 0) &&
    (if x.pageId == INVALID_PAGE_ID then x.pinCount == 0 && !x.isDirty
     else x.pageId in s.table && s.table[x.pageId] == f) &&
    (x.pageId != INVALID_PAGE_ID && !x.isDirty && f !in s.unreported ==> x.data == OnDisk(s.disk, x.pageId)) &&
    (f in s.unreported ==> x.pinCount > 0)
  }

  /** The pool's invariant, apart from the frames `out`, which a call has taken and not yet put to use. */
  ghost predicate Ok(s: Pool, out: set<FrameId>) {
    (forall f {:trigger FrameOk(s, f)} :: InRange(s, f) && f !in out ==> FrameOk(s, f)) &&
    (forall f :: f in s.free || f in s.lru || f in s.unreported ==> InRange(s, f) && f !in out) &&
    Distinct(s.free) && Distinct(s.lru) &&
    forall p :: p in s.table ==>
      p != INVALID_PAGE_ID && InRange(s, s.table[p]) && s.table[p] !in out && s.frames[s.table[p]].pageId == p
  }

  /** What page p holds as far as anyone can tell: the resident data if it is resident, else the disk's. */
  ghost function Logical(s: Pool, p: PageId): Bytes {
    if p in s.table && InRange(s, s.table[p]) then s.frames[s.table[p]].data else OnDisk(s.disk, p)
  }

  ghost predicate SamePages(s: Pool, s': Pool) {
    forall p {:trigger Logical(s', p)} :: Logical(s', p) == Logical(s, p)
  }

  /** Every frame is exactly one of free, pinned, and evictable. */
  lemma FrameIsOneOf(s: Pool, f: FrameId)
    requires Ok(s, {}) && InRange(s, f)
    ensures if f in s.free then f !in s.lru && s.frames[f].pinCount == 0 else f in s.lru <==> s.frames[f].pinCount == 0
  {
    assert FrameOk(s, f);
  }

  /** The page table is the inverse of the frames' page ids. */
  lemma TableIsInverse(s: Pool, p: PageId, f: FrameId)
    requires Ok(s, {})
    ensures p in s.table && s.table[p] == f <==> InRange(s, f) && p != INVALID_PAGE_ID && s.frames[f].pageId == p
  {
    if InRange(s, f) { assert FrameOk(s, f); }
  }

  /** An unpinned clean frame equals its disk page, so it can be dropped without a write. */
  lemma CleanIsOnDisk(s: Pool, f: FrameId)
    requires Ok(s, {}) && f in s.lru && !s.frames[f].isDirty
    ensures s.frames[f].data == OnDisk(s.disk, s.frames[f].pageId)
  {
    assert FrameOk(s, f);
  }

  // ------------------------------------------------------------------ the steps, on values

  function SetFrame(s: Pool, f: FrameId, x: Frame): Pool
    requires 0 <= f < |s.frames|
  {
    s.(frames := s.frames[f := x])
  }

  /** The first free frame, taken. */
  function TakeFree(s: Pool): Pool
    requires s.free != []
  {
    s.(free := s.free[1..])
  }

  /** The least recently used frame, taken: its page goes to the disk if it is dirty, and out of the table. */
  function TakeVictim(s: Pool): Pool
    requires s.lru != [] && 0 <= s.lru[|s.lru| - 1] < |s.frames|
  {
    var f := s.lru[|s.lru| - 1];
    var x := s.frames[f];
    SetFrame(s, f, x.(isDirty := false))
    .(lru := Apply(s.lru, Victim), table := s.table - {x.pageId}, disk := if x.isDirty then s.disk[x.pageId := x.data] else s.disk)
  }

  /** A taken frame, given to page p. */
  function Load(s: Pool, f: FrameId, p: PageId, data: Bytes): Pool
    requires 0 <= f < |s.frames|
  {
    SetFrame(s, f, Frame(p, data, 1, false)).(table := s.table[p := f])
  }

  function PinMore(s: Pool, f: FrameId): Pool
    requires 0 <= f < |s.frames|
  {
    SetFrame(s, f, s.frames[f].(pinCount := s.frames[f].pinCount + 1)).(lru := Apply(s.lru, Op.Pin(f)))
  }

  function PinLess(s: Pool, f: FrameId, isDirty: bool): Pool
    requires 0 <= f < |s.frames|
  {
    var x := s.frames[f];
    SetFrame(s, f, x.(pinCount := x.pinCount - 1, isDirty := x.isDirty || isDirty))
    .(lru := if x.pinCount == 1 then Apply(s.lru, Op.Unpin(f)) else s.lru, unreported := if isDirty then s.unreported - {f} else s.unreported)
  }

  function Store(s: Pool, f: FrameId, data: Bytes): Pool
    requires 0 <= f < |s.frames|
  {
    SetFrame(s, f, s.frames[f].(data := data)).(unreported := s.unreported + {f})
  }

  function Flush(s: Pool, f: FrameId): Pool
    requires 0 <= f < |s.frames|
  {
    SetFrame(s, f, s.frames[f].(isDirty := false))
    .(disk := s.disk[s.frames[f].pageId := s.frames[f].data], unreported := s.unreported - {f})
  }

  /** By the step list in its comments. */
  function Delete(s: Pool, f: FrameId): Pool
    requires 0 <= f < |s.frames|
  {
    SetFrame(s, f, Frame(INVALID_PAGE_ID, Zeros(), 0, false))
    .(table := s.table - {s.frames[f].pageId}, lru := Apply(s.lru, Op.Pin(f)), free := s.free + [f])
  }

  lemma TakeFreeOk(s: Pool)
    requires Ok(s, {}) && s.free != []
    ensures Ok(TakeFree(s), {s.free[0]}) && SamePages(s, TakeFree(s))
    ensures InRange(s, s.free[0]) && s.frames[s.free[0]].pinCount == 0 && !s.frames[s.free[0]].isDirty
  {
    var f, s' := s.free[0], TakeFree(s);
    assert f in s.free;
    assert FrameOk(s, f);
    forall g ensures g in s'.free <==> g in s.free && g != f {
      if g in s.free && g != f {
        var i :| 0 <= i < |s.free| && s.free[i] == g;
        assert s'.free[i - 1] == g;
      }
    }
    forall g | InRange(s', g) && g != f ensures FrameOk(s', g) { assert FrameOk(s, g); }
  }

  lemma TakeVictimOk(s: Pool)
    requires Ok(s, {}) && s.lru != []
    ensures InRange(s, s.lru[|s.lru| - 1])
    ensures var f := s.lru[|s.lru| - 1]; Ok(TakeVictim(s), {f}) && SamePages(s, TakeVictim(s)) && s.frames[f].pinCount == 0
    ensures forall p :: p in TakeVictim(s).table ==> p in s.table
    ensures forall p :: p in TakeVictim(s).disk ==> p in s.disk || p in s.table
  {
    var f := s.lru[|s.lru| - 1];
    assert f in s.lru;
    assert FrameOk(s, f);
    var s' := TakeVictim(s);
    forall g ensures g in s'.lru <==> g in s.lru && g != f {
      if g in s.lru && g != f {
        var i :| 0 <= i < |s.lru| && s.lru[i] == g;
        assert s'.lru[i] == g;
      }
    }
    forall g | InRange(s', g) && g != f ensures FrameOk(s', g) { assert FrameOk(s, g); }
    forall p ensures Logical(s', p) == Logical(s, p) {}
  }

  lemma LoadOk(s: Pool, f: FrameId, p: PageId)
    requires Ok(s, {f}) && InRange(s, f) && p !in s.table && p != INVALID_PAGE_ID
    ensures var s' := Load(s, f, p, OnDisk(s.disk, p)); Ok(s', {}) && SamePages(s, s')
  {
    var s' := Load(s, f, p, OnDisk(s.disk, p));
    forall g | InRange(s', g) ensures FrameOk(s', g) { if g != f { assert FrameOk(s, g); } }
    forall q ensures Logical(s', q) == Logical(s, q) {}
  }

  lemma PinMoreOk(s: Pool, f: FrameId)
    requires Ok(s, {}) && InRange(s, f) && s.frames[f].pageId != INVALID_PAGE_ID
    ensures Ok(PinMore(s, f), {}) && SamePages(s, PinMore(s, f))
  {
    var s' := PinMore(s, f);
    assert FrameOk(s, f);
    WithoutMembers(s.lru, f);
    forall g | InRange(s', g) ensures FrameOk(s', g) { assert FrameOk(s, g); }
    forall q ensures Logical(s', q) == Logical(s, q) {}
  }

  lemma WithoutMembers(s: seq<FrameId>, f: FrameId)
    requires Distinct(s)
    ensures Distinct(Without(s, f)) && forall g :: g in Without(s, f) <==> g in s && g != f
  {}

  /** The last unpin must have all writes reported. */
  lemma PinLessOk(s: Pool, f: FrameId, isDirty: bool)
    requires Ok(s, {}) && InRange(s, f) && s.frames[f].pinCount > 0
    requires s.frames[f].pinCount == 1 && f in s.unreported ==> isDirty
    ensures Ok(PinLess(s, f, isDirty), {}) && SamePages(s, PinLess(s, f, isDirty))
  {
    var s' := PinLess(s, f, isDirty);
    assert FrameOk(s, f);
    forall g | InRange(s', g) ensures FrameOk(s', g) { assert FrameOk(s, g); }
    forall q ensures Logical(s', q) == Logical(s, q) {}
  }

  lemma StoreOk(s: Pool, f: FrameId, data: Bytes)
    requires Ok(s, {}) && InRange(s, f) && s.frames[f].pinCount > 0
    ensures var s', p := Store(s, f, data), s.frames[f].pageId; Ok(s', {}) && Logical(s', p) == data
    ensures var s', p := Store(s, f, data), s.frames[f].pageId; forall q :: q != p ==> Logical(s', q) == Logical(s, q)
  {
    var s' := Store(s, f, data);
    assert FrameOk(s, f);
    forall g | InRange(s', g) ensures FrameOk(s', g) { assert FrameOk(s, g); }
  }

  lemma FlushOk(s: Pool, f: FrameId)
    requires Ok(s, {}) && InRange(s, f) && s.frames[f].pageId != INVALID_PAGE_ID
    ensures var s', p := Flush(s, f), s.frames[f].pageId;
      Ok(s', {}) && SamePages(s, s') && OnDisk(s'.disk, p) == Logical(s, p) && forall q :: q != p ==> OnDisk(s'.disk, q) == OnDisk(s.disk, q)
  {
    var s' := Flush(s, f);
    assert FrameOk(s, f);
    forall g | InRange(s', g) ensures FrameOk(s', g) { assert FrameOk(s, g); }
    forall q ensures Logical(s', q) == Logical(s, q) {}
  }

  /** The frame goes behind the other free ones, blank; its page leaves the table. */
  lemma DeleteIs(s: Pool, f: FrameId)
    requires Ok(s, {}) && InRange(s, f)
    ensures var s' := Delete(s, f);
      s'.free == s.free + [f] && f !in s'.lru && s'.table == s.table - {s.frames[f].pageId} && s'.next == s.next &&
      s'.frames == s.frames[f := Frame(INVALID_PAGE_ID, Zeros(), 0, false)]
  {
    WithoutMembers(s.lru, f);
  }

  /** A frame no longer pinned becomes the newest evictable one; a dirty page stays dirty whatever is reported. */
  lemma UnpinIs(s: Pool, f: FrameId, isDirty: bool)
    requires Ok(s, {}) && InRange(s, f) && s.frames[f].pinCount > 0
    ensures var s', x := PinLess(s, f, isDirty), s.frames[f];
      s'.frames == s.frames[f := Frame(x.pageId, x.data, x.pinCount - 1, x.isDirty || isDirty)] &&
      s'.lru == (if x.pinCount == 1 then [f] + s.lru else s.lru) && s'.table == s.table && s'.free == s.free && s'.disk == s.disk
  {
    assert FrameOk(s, f);
  }

  lemma DeleteOk(s: Pool, f: FrameId)
    requires Ok(s, {}) && InRange(s, f) && s.frames[f].pageId != INVALID_PAGE_ID && s.frames[f].pinCount == 0
    ensures var s', p := Delete(s, f), s.frames[f].pageId; Ok(s', {}) && p !in s'.table && s'.disk == s.disk
    ensures var s', p := Delete(s, f), s.frames[f].pageId; forall q :: q != p ==> Logical(s', q) == Logical(s, q)
  {
    var s' := Delete(s, f);
    assert FrameOk(s, f);
    WithoutMembers(s.lru, f);
    forall g | InRange(s', g) ensures FrameOk(s', g) { assert FrameOk(s, g); }
  }

  lemma StartOk(s: Pool)
    requires forall f :: InRange(s, f) ==> s.frames[f] == Frame(INVALID_PAGE_ID, Zeros(), 0, false)
    requires |s.free| == |s.frames| && forall f :: InRange(s, f) ==> s.free[f] == f
    requires s.table == map[] && s.lru == [] && s.disk == map[] && s.next == 0 && s.unreported == {}
    ensures Ok(s, {})
  {}

  /** Nothing is resident, and nothing was ever written. */
  ghost predicate Fresh(s: Pool) {
    s.table == map[] && s.disk == map[] && s.next == 0 && s.unreported == {} &&
    forall f :: InRange(s, f) ==> s.frames[f] == Frame(INVALID_PAGE_ID, Zeros(), 0, false)
  }

  ghost predicate SomeUnpinned(s: Pool) {
    exists f :: InRange(s, f) && s.frames[f].pinCount == 0
  }

  /** A frame can be had exactly when some frame is not pinned. */
  lemma FrameToTake(s: Pool)
    requires Ok(s, {})
    ensures s.free != [] || s.lru != [] <==> SomeUnpinned(s)
  {
    if s.free != [] {
      assert s.free[0] in s.free;
      assert FrameOk(s, s.free[0]);
    }
    if s.lru != [] {
      assert s.lru[0] in s.lru;
      assert FrameOk(s, s.lru[0]);
    }
    forall f | InRange(s, f) && s.frames[f].pinCount == 0 ensures f in s.free || f in s.lru {
      assert FrameOk(s, f);
    }
  }

  /** Only dirty bits, reports and the disk changed. */
  ghost predicate Cleaned(s: Pool, s': Pool) {
    |s'.frames| == |s.frames| && s'.table == s.table && s'.next == s.next && s'.unreported <= s.unreported &&
    (forall p :: p in s'.disk ==> p in s.disk || p in s.table) &&
    forall f {:trigger s'.frames[f]} :: InRange(s, f) ==> s'.frames[f] == s.frames[f].(isDirty := s'.frames[f].isDirty)
  }

  /** All resident pages but the `rest` are on the disk as they were in s. */
  ghost predicate Flushing(s: Pool, s': Pool, rest: set<PageId>) {
    SamePages(s, s') && Cleaned(s, s') &&
    (forall p {:trigger OnDisk(s'.disk, p)} :: p in s'.table && p !in rest ==> OnDisk(s'.disk, p) == Logical(s, p)) &&
    forall f :: f in s'.unreported ==> InRange(s', f) && s'.frames[f].pageId in rest
  }

  lemma FlushingStep(s: Pool, s': Pool, rest: set<PageId>, p: PageId)
    requires Ok(s', {}) && Flushing(s, s', rest) && p in rest && p in s'.table
    ensures InRange(s', s'.table[p]) && Flushing(s, Flush(s', s'.table[p]), rest - {p})
  {
    var f := s'.table[p];
    var now := Flush(s', f);
    FlushOk(s', f);
    assert Logical(s', p) == Logical(s, p);
    forall q ensures Logical(now, q) == Logical(s, q) { assert Logical(s', q) == Logical(s, q); }
    forall q | q in now.table && q !in rest - {p} ensures OnDisk(now.disk, q) == Logical(s, q) {
      if q != p { assert OnDisk(s'.disk, q) == Logical(s, q); }
    }
    forall g | g in now.unreported ensures now.frames[g].pageId in rest - {p} { assert FrameOk(s', g); }
  }

  lemma FlushingEnds(s: Pool, s': Pool)
    requires Flushing(s, s', {})
    ensures s'.unreported == {} && forall p :: OnDisk(s'.disk, p) == Logical(s, p)
  {
    assert forall f :: f !in s'.unreported;
    forall p ensures OnDisk(s'.disk, p) == Logical(s, p) {
      assert Logical(s', p) == Logical(s, p);
    }
  }

  ghost predicate AllClean(s: Pool, s': Pool) {
    Cleaned(s, s') && s'.unreported == {}
  }

  // ------------------------------------------------------------------ the calls, on values

  datatype Taken = Taken(pool: Pool, found: bool, frame: FrameId)

  /** A frame from the free list if there is one, else the least recently used one. */
  function Take(s: Pool): Taken
    requires Ok(s, {})
  {
    if s.free != [] then Taken(TakeFree(s), true, s.free[0])
    else if s.lru != [] then TakeVictimOk(s); Taken(TakeVictim(s), true, s.lru[|s.lru| - 1])
    else Taken(s, false, 0)
  }

  lemma TakeOk(s: Pool)
    requires Ok(s, {})
    ensures var k := Take(s);
      (k.found <==> SomeUnpinned(s)) && (!k.found ==> k.pool == s) &&
      (k.found ==>
        InRange(s, k.frame) && Ok(k.pool, {k.frame}) && SamePages(s, k.pool) && s.frames[k.frame].pinCount == 0 &&
        k.pool.frames == s.frames[k.frame := s.frames[k.frame].(isDirty := false)] && k.pool.next == s.next &&
        (forall p :: p in k.pool.table ==> p in s.table) && forall p :: p in k.pool.disk ==> p in s.disk || p in s.table)
  {
    FrameToTake(s);
    if s.free != [] { TakeFreeOk(s); } else if s.lru != [] { TakeVictimOk(s); }
  }

  /** Frames other than f are as they were, and f was not pinned for another page. */
  ghost predicate OthersStay(s: Pool, s': Pool, f: FrameId) {
    |s'.frames| == |s.frames| && s'.unreported == s.unreported && (forall p :: p in s'.disk ==> p in s.disk || p in s.table) &&
    forall g {:trigger s'.frames[g]} :: InRange(s, g) && g != f ==> s'.frames[g] == s.frames[g]
  }

  /**
    Which frame page p comes to, and which page leaves the pool for it: the first free frame and none, or else the
    frame longest evictable and its page, which goes to the disk if it is dirty.
   */
  ghost predicate Replaces(s: Pool, p: PageId, k: Taken) {
    if s.free != [] then
      k.found && k.frame == s.free[0] && k.pool.free == s.free[1..] && k.pool.lru == s.lru && k.pool.table == s.table[p := s.free[0]] &&
      k.pool.disk == s.disk
    else if s.lru != [] then
      var last := |s.lru| - 1; var f := s.lru[last];
      InRange(s, f) && k.found && k.frame == f && k.pool.free == [] && k.pool.lru == s.lru[..last] &&
      var x := s.frames[f];
      k.pool.table == (s.table - {x.pageId})[p := f] && k.pool.disk == if x.isDirty then s.disk[x.pageId := x.data] else s.disk
    else !k.found
  }

  function Fetch(s: Pool, p: PageId): Taken
    requires Ok(s, {})
  {
    if p in s.table then Taken(PinMore(s, s.table[p]), true, s.table[p])
    else
      TakeOk(s);
      var k := Take(s);
      if k.found then k.(pool := Load(k.pool, k.frame, p, OnDisk(k.pool.disk, p))) else k
  }

  /**
    What a fetch promises: page p pinned in a frame that holds its logical content.  It fails only when p is not
    resident and every frame is pinned, and leaves every page's content as it was.
   */
  ghost predicate Fetched(s: Pool, p: PageId, k: Taken) {
    Ok(k.pool, {}) && k.pool.next == s.next && SamePages(s, k.pool) && (k.found <==> p in s.table || SomeUnpinned(s)) &&
    if !k.found then k.pool == s
    else
      InRange(s, k.frame) && OthersStay(s, k.pool, k.frame) && (s.frames[k.frame].pinCount > 0 ==> s.frames[k.frame].pageId == p) &&
      var x := k.pool.frames[k.frame];
      x.pageId == p && x.data == Logical(s, p) &&
      x.pinCount == if p in s.table && InRange(s, s.table[p]) then s.frames[s.table[p]].pinCount + 1 else 1
  }

  lemma FetchOk(s: Pool, p: PageId)
    requires Ok(s, {}) && p != INVALID_PAGE_ID
    ensures Fetched(s, p, Fetch(s, p))
  {
    if p in s.table {
      PinMoreOk(s, s.table[p]);
    } else {
      TakeOk(s);
      var k := Take(s);
      if k.found {
        LoadOk(k.pool, k.frame, p);
        assert Logical(k.pool, p) == Logical(s, p);
        forall q ensures Logical(Fetch(s, p).pool, q) == Logical(s, q) {
          assert Logical(k.pool, q) == Logical(s, q);
        }
      }
    }
  }

  /** A resident page stays where it is and is not evictable any more; an absent one takes a frame. */
  ghost predicate FetchTakes(s: Pool, p: PageId, k: Taken) {
    if p in s.table then
      k.found && k.frame == s.table[p] && k.pool.table == s.table && k.pool.free == s.free && k.pool.disk == s.disk &&
      k.pool.lru == Without(s.lru, k.frame) && k.frame !in k.pool.lru && InRange(s, k.frame) &&
      k.pool.frames == s.frames[k.frame := s.frames[k.frame].(pinCount := s.frames[k.frame].pinCount + 1)]
    else
      Replaces(s, p, k) && (k.found ==> InRange(s, k.frame) && k.pool.frames == s.frames[k.frame := Frame(p, OnDisk(k.pool.disk, p), 1, false)])
  }

  lemma FetchIs(s: Pool, p: PageId)
    requires Ok(s, {})
    ensures FetchTakes(s, p, Fetch(s, p))
  {
    if p in s.table {
      WithoutMembers(s.lru, s.table[p]);
    } else {
      TakeOk(s);
      if s.free == [] && s.lru != [] { TakeVictimOk(s); }
    }
  }

  /** The page id is used up even when no frame can be had. */
  function Create(s: Pool): Taken
    requires Ok(s, {})
  {
    NextOk(s);
    Place(s.(next := s.next + 1), s.next)
  }

  function Place(s: Pool, p: PageId): Taken
    requires Ok(s, {})
  {
    TakeOk(s);
    var k := Take(s);
    if k.found then k.(pool := Load(k.pool, k.frame, p, Zeros())) else k
  }

  lemma NextOk(s: Pool)
    requires Ok(s, {})
    ensures var t := s.(next := s.next + 1); Ok(t, {}) && SamePages(s, t)
  {
    var t := s.(next := s.next + 1);
    forall f | InRange(t, f) ensures FrameOk(t, f) { assert FrameOk(s, f); }
    forall p ensures Logical(t, p) == Logical(s, p) {}
  }

  /** A fresh id, and an empty page under it; every other page's content stays. */
  ghost predicate Created(s: Pool, k: Taken) {
    Ok(k.pool, {}) && k.pool.next == s.next + 1 && (k.found <==> SomeUnpinned(s)) &&
    (forall q {:trigger Logical(k.pool, q)} :: q != s.next ==> Logical(k.pool, q) == Logical(s, q)) &&
    if !k.found then k.pool == s.(next := s.next + 1)
    else
      InRange(s, k.frame) && OthersStay(s, k.pool, k.frame) && s.frames[k.frame].pinCount == 0 &&
      k.pool.frames[k.frame] == Frame(s.next, Zeros(), 1, false) && Logical(k.pool, s.next) == Zeros()
  }

  lemma CreateIs(s: Pool)
    requires Ok(s, {})
    ensures Replaces(s, s.next, Create(s))
  {
    NextOk(s);
    if s.free == [] && s.lru != [] { TakeVictimOk(s.(next := s.next + 1)); }
  }

  /** Nobody has asked for the next page before it is handed out. */
  ghost predicate NextUnused(s: Pool) {
    s.next != INVALID_PAGE_ID && s.next !in s.table && OnDisk(s.disk, s.next) == Zeros()
  }

  lemma CreateOk(s: Pool)
    requires Ok(s, {}) && NextUnused(s)
    ensures Created(s, Create(s))
  {
    var t, p := s.(next := s.next + 1), s.next;
    NextOk(s);
    TakeOk(t);
    assert SomeUnpinned(t) <==> SomeUnpinned(s) by {
      if SomeUnpinned(s) { var f :| InRange(s, f) && s.frames[f].pinCount == 0; assert InRange(t, f); }
      if SomeUnpinned(t) { var f :| InRange(t, f) && t.frames[f].pinCount == 0; assert InRange(s, f); }
    }
    var k := Take(t);
    assert Logical(s, p) == Zeros() && Logical(t, p) == Zeros();
    if k.found {
      assert OnDisk(k.pool.disk, p) == Zeros() by { assert Logical(k.pool, p) == Logical(t, p); }
      LoadOk(k.pool, k.frame, p);
      forall q ensures Logical(Create(s).pool, q) == Logical(s, q) {
        assert Logical(k.pool, q) == Logical(t, q) && Logical(t, q) == Logical(s, q);
      }
    }
  }

  // ------------------------------------------------------------------ Delete and Flush as they stand

  /** Indexing the table for a page that is not there enters it, under frame 0. */
  function Indexed(s: Pool, p: PageId): map<PageId, FrameId> {
    if p in s.table then s.table else s.table[p := 0]
  }

  function DeleteAsWritten(s: Pool, p: PageId): Pool
    requires Ok(s, {}) && |s.frames| > 0
  {
    var table := Indexed(s, p);
    var f := table[p];
    if s.frames[f].pinCount != 0 then s.(table := table)
    else SetFrame(s, f, Frame(INVALID_PAGE_ID, Zeros(), 0, false)).(table := table, lru := Apply(s.lru, Op.Pin(f)), free := s.free + [f])
  }

  function FlushAsWritten(s: Pool, p: PageId): Pool
    requires Ok(s, {}) && |s.frames| > 0
  {
    var table := Indexed(s, p);
    var f := table[p];
    SetFrame(s, f, s.frames[f].(isDirty := false)).(table := table, disk := s.disk[p := s.frames[f].data], unreported := s.unreported - {f})
  }

  /** The deletion as it stands leaves the pool in order exactly when it refuses: the page resident and pinned. */
  lemma DeleteAsWrittenBreaks(s: Pool, p: PageId)
    requires Ok(s, {}) && |s.frames| > 0 && p != INVALID_PAGE_ID
    ensures Ok(DeleteAsWritten(s, p), {}) <==> p in s.table && s.frames[s.table[p]].pinCount != 0
  {
    assert FrameOk(s, 0);
    if p in s.table { assert FrameOk(s, s.table[p]); }
    var s' := DeleteAsWritten(s, p);
    assert p in s'.table;
  }

  /** The flush as it stands leaves the pool in order exactly when the page is resident. */
  lemma FlushAsWrittenBreaks(s: Pool, p: PageId)
    requires Ok(s, {}) && |s.frames| > 0 && p != INVALID_PAGE_ID
    ensures Ok(FlushAsWritten(s, p), {}) <==> p in s.table
  {
    assert FrameOk(s, 0);
    var s' := FlushAsWritten(s, p);
    assert p in s'.table;
    if p in s.table {
      FlushOk(s, s.table[p]);
      assert s' == Flush(s, s.table[p]);
    }
  }

  // ------------------------------------------------------------------ the pool

  class BufferPoolManager {
    const frames: array<Frame>
    const replacer: LRUReplacer
    var pageTable: map<PageId, FrameId>
    var freeList: seq<FrameId>
    var disk: map<PageId, Bytes>
    var nextPageId: PageId
    ghost var unreported: set<FrameId>

    ghost function Now(): Pool
      reads this, frames, replacer
    {
      Pool(frames[..], pageTable, freeList, replacer.order, disk, nextPageId, unreported)
    }

    ghost function Repr(): set<object>
      reads this, replacer
    {
      {this, frames} + replacer.Repr()
    }

    /** The objects the pool is made of do not overlap, and the replacer is in order. */
    ghost predicate Parts()
      reads Repr()
    {
      this !in replacer.Repr() && (frames as object) !in replacer.Repr() && replacer.Valid()
    }

    ghost predicate Valid()
      reads Repr()
    {
      Parts() && Ok(Now(), {})
    }

    constructor (poolSize: nat)
      ensures Valid() && fresh(Repr()) && frames.Length == poolSize && nextPageId == 0
      ensures Fresh(Now())
    {
      frames := new Frame[poolSize](i => Frame(INVALID_PAGE_ID, Zeros(), 0, false));
      replacer := new LRUReplacer(poolSize);
      pageTable, freeList, disk, nextPageId, unreported := map[], [], map[], 0, {};
      new;
      for i := 0 to poolSize
        invariant |freeList| == i && forall k :: 0 <= k < i ==> freeList[k] == k
        invariant Parts() && fresh(Repr()) && replacer.order == []
        invariant pageTable == map[] && disk == map[] && nextPageId == 0 && unreported == {}
        invariant forall k :: 0 <= k < poolSize ==> frames[k] == Frame(INVALID_PAGE_ID, Zeros(), 0, false)
      {
        freeList := freeList + [i];
      }
      StartOk(Now());
    }

    /** A frame from the free list if there is one, else the least recently used one, written back if dirty. */
    method TakeFrame() returns (found: bool, frame: FrameId)
      requires Valid()
      modifies this`freeList, this`pageTable, this`disk, frames, replacer.Repr()
      ensures Parts() && replacer.Repr() <= old(replacer.Repr())
      ensures Taken(Now(), found, frame) == Take(old(Now()))
    {
      TakeOk(Now());
      found, frame := true, 0;
      if freeList != [] {
        frame := freeList[0];
        freeList := freeList[1..];
      } else {
        found, frame := replacer.Victim();
        if found {
          Evict(frame);
        }
      }
    }

    /** The frame's page goes to the disk if it is dirty, and out of the table. */
    method Evict(frame: FrameId)
      requires 0 <= frame < frames.Length
      modifies this`pageTable, this`disk, frames
      ensures var x := old(frames[frame]);
        frames[..] == old(frames[..])[frame := x.(isDirty := false)] && pageTable == old(pageTable) - {x.pageId} &&
        disk == if x.isDirty then old(disk)[x.pageId := x.data] else old(disk)
    {
      var page := frames[frame];
      if page.isDirty {
        frames[frame] := page.(isDirty := false);
        disk := disk[page.pageId := page.data];
      }
      pageTable := pageTable - {page.pageId};
    }

    method FetchPage(p: PageId) returns (found: bool, frame: FrameId)
      requires Valid() && p != INVALID_PAGE_ID
      modifies Repr()
      ensures Valid() && replacer.Repr() <= old(replacer.Repr())
      ensures Fetched(old(Now()), p, Taken(Now(), found, frame)) && FetchTakes(old(Now()), p, Taken(Now(), found, frame))
    {
      FetchOk(Now(), p);
      FetchIs(Now(), p);
      if p in pageTable {
        found, frame := true, pageTable[p];
        PinResident(frame);
      } else {
        found, frame := FetchAbsent(p);
      }
    }

    method PinResident(frame: FrameId)
      requires Parts() && 0 <= frame < frames.Length
      modifies Repr()
      ensures Parts() && replacer.Repr() <= old(replacer.Repr()) && Now() == PinMore(old(Now()), frame)
    {
      frames[frame] := frames[frame].(pinCount := frames[frame].pinCount + 1);
      replacer.Pin(frame);
    }

    method FetchAbsent(p: PageId) returns (found: bool, frame: FrameId)
      requires Valid() && p !in pageTable
      modifies Repr()
      ensures Parts() && replacer.Repr() <= old(replacer.Repr())
      ensures Taken(Now(), found, frame) == Fetch(old(Now()), p)
    {
      TakeOk(Now());
      found, frame := TakeFrame();
      if found {
        frames[frame] := Frame(p, if p in disk then disk[p] else Zeros(), frames[frame].pinCount + 1, frames[frame].isDirty);
        pageTable := pageTable[p := frame];
      }
    }

    method NewPage() returns (p: PageId, found: bool, frame: FrameId)
      requires Valid() && NextUnused(Now())
      modifies Repr()
      ensures Valid() && replacer.Repr() <= old(replacer.Repr())
      ensures p == old(nextPageId) && Created(old(Now()), Taken(Now(), found, frame)) && Replaces(old(Now()), p, Taken(Now(), found, frame))
    {
      CreateOk(Now());
      CreateIs(Now());
      NextOk(Now());
      p := nextPageId;
      nextPageId := nextPageId + 1;
      found, frame := PlaceNew(p);
    }

    method PlaceNew(p: PageId) returns (found: bool, frame: FrameId)
      requires Valid()
      modifies Repr()
      ensures Parts() && replacer.Repr() <= old(replacer.Repr())
      ensures Taken(Now(), found, frame) == Place(old(Now()), p)
    {
      TakeOk(Now());
      found, frame := TakeFrame();
      if found {
        pageTable := pageTable[p := frame];
        frames[frame] := Frame(p, Zeros(), 1, false);
      }
    }

    /** A client writes to a frame it has pinned. */
    method WriteData(frame: FrameId, data: Bytes)
      requires Valid() && 0 <= frame < frames.Length && frames[frame].pinCount > 0
      modifies this`unreported, frames
      ensures Valid() && Now() == Store(old(Now()), frame, data)
    {
      StoreOk(Now(), frame, data);
      frames[frame] := frames[frame].(data := data);
      unreported := unreported + {frame};
    }

    /** The last client to let go of a page has to report the writes not reported yet. */
    method UnpinPage(p: PageId, isDirty: bool) returns (res: bool)
      requires Valid()
      requires p in pageTable && frames[pageTable[p]].pinCount == 1 && pageTable[p] in unreported ==> isDirty
      modifies Repr()
      ensures Valid() && fresh(replacer.Repr() - old(replacer.Repr())) && SamePages(old(Now()), Now())
      ensures res <==> p in old(pageTable) && old(frames[pageTable[p]]).pinCount > 0
      ensures Now() == if res then PinLess(old(Now()), old(pageTable)[p], isDirty) else old(Now())
    {
      if p !in pageTable {
        return false;
      }
      var frame := pageTable[p];
      if frames[frame].pinCount <= 0 {
        return false;
      }
      PinLessOk(Now(), frame, isDirty);
      Unpinned(frame, isDirty);
      res := true;
    }

    method Unpinned(frame: FrameId, isDirty: bool)
      requires Parts() && 0 <= frame < frames.Length
      modifies Repr()
      ensures Parts() && fresh(replacer.Repr() - old(replacer.Repr())) && Now() == PinLess(old(Now()), frame, isDirty)
    {
      ghost var t := PinLess(Now(), frame, isDirty);
      LetGo(frame, isDirty);
      assert frames[..] == t.frames;
      assert replacer.order == t.lru;
      assert Now() == t;
    }

    method LetGo(frame: FrameId, isDirty: bool)
      requires Parts() && 0 <= frame < frames.Length
      modifies Repr()
      ensures Parts() && fresh(replacer.Repr() - old(replacer.Repr()))
      ensures var x := old(frames[frame]);
        frames[..] == old(frames[..])[frame := x.(pinCount := x.pinCount - 1, isDirty := x.isDirty || isDirty)] &&
        replacer.order == if x.pinCount == 1 then Apply(old(replacer.order), Op.Unpin(frame)) else old(replacer.order)
      ensures unreported == if isDirty then old(unreported) - {frame} else old(unreported)
      ensures pageTable == old(pageTable) && freeList == old(freeList) && disk == old(disk) && nextPageId == old(nextPageId)
    {
      ghost var was, x := frames[..], frames[frame];
      SetFrameTo(frame, frames[frame].(pinCount := frames[frame].pinCount - 1));
      LetReplace(frame);
      SetFrameTo(frame, frames[frame].(isDirty := frames[frame].isDirty || isDirty));
      assert frames[..] == was[frame := x.(pinCount := x.pinCount - 1, isDirty := x.isDirty || isDirty)];
      unreported := if isDirty then unreported - {frame} else unreported;
    }

    method LetReplace(frame: FrameId)
      requires Parts() && 0 <= frame < frames.Length
      modifies replacer.Repr()
      ensures Parts() && fresh(replacer.Repr() - old(replacer.Repr())) && frames[..] == old(frames[..])
      ensures replacer.order == if frames[frame].pinCount == 0 then Apply(old(replacer.order), Op.Unpin(frame)) else old(replacer.order)
    {
      if frames[frame].pinCount == 0 {
        replacer.Unpin(frame);
      }
    }

    method SetFrameTo(frame: FrameId, x: Frame)
      requires Parts() && 0 <= frame < frames.Length
      modifies frames
      ensures Parts() && frames[..] == old(frames[..])[frame := x]
    {
      frames[frame] := x;
    }

    /** By the contract in the header: a page that is not resident is left alone. */
    method FlushPage(p: PageId) returns (res: bool)
      requires Valid()
      modifies this`disk, this`unreported, frames
      ensures Valid() && SamePages(old(Now()), Now()) && (res <==> p in old(pageTable))
      ensures Now() == if res then Flush(old(Now()), old(pageTable)[p]) else old(Now())
      ensures res ==> OnDisk(disk, p) == Logical(Now(), p)
      ensures forall q :: q != p ==> OnDisk(disk, q) == OnDisk(old(disk), q)
    {
      if p !in pageTable {
        return false;
      }
      var frame := pageTable[p];
      FlushOk(Now(), frame);
      frames[frame] := frames[frame].(isDirty := false);
      disk := disk[p := frames[frame].data];
      unreported := unreported - {frame};
      assert Now() == Flush(old(Now()), frame);
      res := true;
    }

    /** Afterwards the disk holds what the pool holds. */
    method FlushAllPages()
      requires Valid()
      modifies this`disk, this`unreported, frames
      ensures Valid() && SamePages(old(Now()), Now()) && AllClean(old(Now()), Now())
      ensures forall p :: OnDisk(disk, p) == Logical(old(Now()), p)
    {
      var rest := pageTable.Keys;
      ghost var before := Now();
      forall f | f in unreported ensures 0 <= f < frames.Length && frames[f].pageId in rest { assert FrameOk(before, f); }
      while rest != {}
        invariant Valid() && rest <= pageTable.Keys && Flushing(before, Now(), rest)
        decreases rest
      {
        Inhabited(rest);
        var p :| p in rest;
        FlushingStep(before, Now(), rest, p);
        var _ := FlushPage(p);
        rest := rest - {p};
      }
      FlushingEnds(before, Now());
    }

    /** By the step list: a pinned page stays, an unpinned one leaves the table and its frame becomes free. */
    method DeletePage(p: PageId) returns (res: bool)
      requires Valid()
      modifies Repr()
      ensures Valid() && replacer.Repr() <= old(replacer.Repr()) && disk == old(disk)
      ensures res <==> p !in old(pageTable) || old(frames[pageTable[p]]).pinCount == 0
      ensures Now() == if res && p in old(pageTable) then Delete(old(Now()), old(pageTable)[p]) else old(Now())
      ensures res ==> p !in pageTable
      ensures forall q :: q != p ==> Logical(Now(), q) == Logical(old(Now()), q)
    {
      if p !in pageTable {
        return true;
      }
      var frame := pageTable[p];
      if frames[frame].pinCount != 0 {
        return false;
      }
      DeleteOk(Now(), frame);
      pageTable := pageTable - {p};
      frames[frame] := Frame(INVALID_PAGE_ID, Zeros(), 0, false);
      replacer.Pin(frame);
      freeList := freeList + [frame];
      assert Now() == Delete(old(Now()), frame);
      res := true;
    }
  }
}
