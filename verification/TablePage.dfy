/**
  The slotted table page: tuples packed at the end of a byte buffer, a slot array at its front.

  The header fields and the slot array are fields here, not bytes of the buffer; that the packed tuples never
  reach down to the bytes those take up is part of the invariant.
 */
module TablePages {
  type PageId = int
  type Byte = bv8
  type Tuple = seq<Byte>

  const INVALID_PAGE_ID: PageId := -1
  const PAGE_SIZE: nat := 4096
  const HEADER_SIZE: nat := 24
  const SLOT_SIZE: nat := 8
  const DELETE_MASK: nat := 0x80000000

  /** The size carries the deleted flag in its top bit; size 0 is an empty slot. */
  datatype Slot = Slot(offset: nat, size: nat)

  predicate IsDeleted(size: nat) {
    size >= DELETE_MASK || size == 0
  }

  function UnsetDeletedFlag(size: nat): nat {
    if size >= DELETE_MASK then size - DELETE_MASK else size
  }

  function SetDeletedFlag(size: nat): nat {
    if size >= DELETE_MASK then size else size + DELETE_MASK
  }

  function Len(s: Slot): nat {
    UnsetDeletedFlag(s.size)
  }

  /** What a slot holds, as its users see it. */
  datatype Cell = Empty | Live(bytes: Tuple) | Marked(bytes: Tuple)

  // ------------------------------------------------------------------ layout

  predicate Apart(a: Slot, b: Slot) {
    a.offset + Len(a) <= b.offset || b.offset + Len(b) <= a.offset
  }

  ghost predicate Covers(slots: seq<Slot>, b: nat) {
    exists i :: 0 <= i < |slots| && slots[i].size != 0 && slots[i].offset <= b < slots[i].offset + Len(slots[i])
  }

  function Total(slots: seq<Slot>): nat {
    if slots == [] then 0 else Total(slots[..|slots| - 1]) + Len(slots[|slots| - 1])
  }

  predicate SlotOk(s: Slot, free: nat) {
    if s.size == 0 then s.offset == 0 else 0 < Len(s) && free <= s.offset && s.offset + Len(s) <= PAGE_SIZE
  }

  /** The slots in use, marked ones included, tile the buffer from the free pointer to its end. */
  ghost predicate Tiled(slots: seq<Slot>, free: nat) {
    HEADER_SIZE + SLOT_SIZE * |slots| <= free && free + Total(slots) == PAGE_SIZE &&
    (forall i :: 0 <= i < |slots| ==> SlotOk(slots[i], free)) &&
    (forall i, j :: 0 <= i < j < |slots| && slots[i].size != 0 && slots[j].size != 0 ==> Apart(slots[i], slots[j])) &&
    forall b :: free <= b < PAGE_SIZE ==> Covers(slots, b)
  }

  lemma {:induction false} TotalUpdate(slots: seq<Slot>, k: nat, s: Slot)
    requires k < |slots|
    ensures Total(slots[k := s]) + Len(slots[k]) == Total(slots) + Len(s)
  {
    var n := |slots| - 1;
    if k == n {
      assert slots[k := s][..n] == slots[..n];
    } else {
      assert slots[k := s][..n] == slots[..n][k := s];
      TotalUpdate(slots[..n], k, s);
    }
  }

  lemma {:induction false} TotalSame(a: seq<Slot>, b: seq<Slot>)
    requires |a| == |b| && forall i :: 0 <= i < |a| ==> Len(a[i]) == Len(b[i])
    ensures Total(a) == Total(b)
  {
    if a != [] { TotalSame(a[..|a| - 1], b[..|b| - 1]); }
  }

  /** Slot o when the slot s in use is resized to n bytes: what lies before s in the buffer moves by the difference. */
  function Shifted(o: Slot, s: Slot, n: nat): Slot {
    if o.size != 0 && o.offset < s.offset && n <= o.offset + Len(s) then Slot(o.offset + Len(s) - n, o.size) else o
  }

  function NewSlot(s: Slot, n: nat): Slot {
    if n == 0 || n > s.offset + Len(s) then Slot(0, 0) else Slot(s.offset + Len(s) - n, n)
  }

  function Resized(slots: seq<Slot>, k: nat, n: nat): (r: seq<Slot>)
    requires k < |slots|
    ensures |r| == |slots|
  {
    seq(|slots|, i requires 0 <= i < |slots| => if i == k then NewSlot(slots[k], n) else Shifted(slots[i], slots[k], n))
  }

  /** Slot s may be resized to n bytes. */
  predicate CanResize(s: Slot, free: nat, n: nat) {
    s.size != 0 && SlotOk(s, free) && n < DELETE_MASK && n <= free + Len(s)
  }

  lemma ShiftedOk(a: Slot, s: Slot, free: nat, n: nat)
    requires CanResize(s, free, n) && SlotOk(a, free) && (a.size != 0 ==> Apart(a, s))
    ensures SlotOk(Shifted(a, s, n), free + Len(s) - n) && SlotOk(NewSlot(s, n), free + Len(s) - n)
    ensures a.size != 0 && n != 0 ==> Apart(Shifted(a, s, n), NewSlot(s, n))
    ensures Len(Shifted(a, s, n)) == Len(a) && Len(NewSlot(s, n)) == n
  {}

  lemma ShiftedApart(a: Slot, b: Slot, s: Slot, free: nat, n: nat)
    requires CanResize(s, free, n) && SlotOk(a, free) && SlotOk(b, free) && a.size != 0 && b.size != 0
    requires Apart(a, s) && Apart(b, s) && Apart(a, b)
    ensures Apart(Shifted(a, s, n), Shifted(b, s, n))
  {}

  lemma ApartFrom(slots: seq<Slot>, free: nat, k: nat, i: nat)
    requires k < |slots| && i < |slots| && i != k && slots[k].size != 0 && Tiled(slots, free)
    ensures SlotOk(slots[i], free) && SlotOk(slots[k], free) && (slots[i].size != 0 ==> Apart(slots[i], slots[k]))
  {}

  /** Slot o does not overlap s, and can be moved when s is resized to n bytes. */
  predicate Clear(o: Slot, s: Slot, n: nat) {
    o.size != 0 ==> Apart(o, s) && n <= o.offset + Len(s) && Len(o) > 0
  }

  ghost predicate AllClear(slots: seq<Slot>, k: nat, n: nat)
    requires k < |slots|
  {
    forall i :: 0 <= i < |slots| && i != k ==> Clear(slots[i], slots[k], n)
  }

  lemma AllApart(slots: seq<Slot>, free: nat, k: nat, n: nat)
    requires k < |slots| && Tiled(slots, free) && slots[k].size != 0 && n <= free + Len(slots[k])
    ensures AllClear(slots, k, n) && SlotOk(slots[k], free)
  {}

  lemma ResizedTiles(slots: seq<Slot>, free: nat, k: nat, n: nat)
    requires k < |slots| && Tiled(slots, free) && CanResize(slots[k], free, n)
    requires HEADER_SIZE + SLOT_SIZE * |slots| <= free + Len(slots[k]) - n
    ensures Tiled(Resized(slots, k, n), free + Len(slots[k]) - n)
  {
    var r, s, free' := Resized(slots, k, n), slots[k], free + Len(slots[k]) - n;
    forall i | 0 <= i < |r| ensures SlotOk(r[i], free') && (i != k ==> Len(r[i]) == Len(slots[i])) && Len(r[k]) == n {
      if i != k { ApartFrom(slots, free, k, i); }
      ShiftedOk(if i == k then Slot(0, 0) else slots[i], s, free, n);
    }
    TotalUpdate(slots, k, r[k]);
    TotalSame(slots[k := r[k]], r);
    forall i, j | 0 <= i < j < |r| && r[i].size != 0 && r[j].size != 0 ensures Apart(r[i], r[j]) {
      if i != k { ApartFrom(slots, free, k, i); }
      if j != k { ApartFrom(slots, free, k, j); }
      if i != k && j != k {
        assert Apart(slots[i], slots[j]);
        ShiftedApart(slots[i], slots[j], s, free, n);
      } else {
        ShiftedOk(slots[if i == k then j else i], s, free, n);
      }
    }
    forall b | free' <= b < PAGE_SIZE ensures Covers(r, b) {
      ResizedCovers(slots, free, k, n, b);
    }
  }

  lemma ResizedCovers(slots: seq<Slot>, free: nat, k: nat, n: nat, b: nat)
    requires k < |slots| && Tiled(slots, free) && CanResize(slots[k], free, n)
    requires free + Len(slots[k]) - n <= b < PAGE_SIZE
    ensures Covers(Resized(slots, k, n), b)
  {
    var r, s := Resized(slots, k, n), slots[k];
    var end := s.offset + Len(s);
    if end - n <= b < end {
      assert r[k].offset <= b < r[k].offset + Len(r[k]);
    } else {
      var b' := if b >= end then b else b - Len(s) + n;
      assert Covers(slots, b');
      var i :| 0 <= i < |slots| && slots[i].size != 0 && slots[i].offset <= b' < slots[i].offset + Len(slots[i]);
      if i != k { ApartFrom(slots, free, k, i); }
      assert r[i].offset <= b < r[i].offset + Len(r[i]);
    }
  }

  /** The first empty slot, or a new one. */
  function EmptySlot(slots: seq<Slot>): (i: nat)
    ensures i <= |slots| && (i < |slots| ==> slots[i].size == 0) && forall j :: 0 <= j < i ==> slots[j].size != 0
  {
    if slots == [] || slots[0].size == 0 then 0 else 1 + EmptySlot(slots[1..])
  }

  function Put(slots: seq<Slot>, i: nat, s: Slot): seq<Slot>
    requires i <= |slots|
  {
    if i < |slots| then slots[i := s] else slots + [s]
  }

  lemma InsertedTotal(slots: seq<Slot>, s: Slot)
    ensures var r := Put(slots, EmptySlot(slots), s); Total(r) == Total(slots) + Len(s) && |r| <= |slots| + 1
  {
    var k := EmptySlot(slots);
    var r := Put(slots, k, s);
    if k < |slots| { TotalUpdate(slots, k, s); } else { assert r[..|slots|] == slots; }
  }

  lemma InsertedTiles(slots: seq<Slot>, free: nat, n: nat)
    requires Tiled(slots, free) && 0 < n < DELETE_MASK && HEADER_SIZE + SLOT_SIZE * |slots| + n + SLOT_SIZE <= free
    ensures Tiled(Put(slots, EmptySlot(slots), Slot(free - n, n)), free - n)
  {
    var k, s := EmptySlot(slots), Slot(free - n, n);
    var r := Put(slots, k, s);
    InsertedTotal(slots, s);
    InsertedSlots(slots, free, n);
    forall b | free - n <= b < PAGE_SIZE ensures Covers(r, b) {
      InsertedCovers(slots, free, n, b);
    }
  }

  lemma InsertedSlots(slots: seq<Slot>, free: nat, n: nat)
    requires Tiled(slots, free) && 0 < n < DELETE_MASK && n <= free
    ensures var r := Put(slots, EmptySlot(slots), Slot(free - n, n));
      (forall i :: 0 <= i < |r| ==> SlotOk(r[i], free - n)) &&
      forall i, j :: 0 <= i < j < |r| && r[i].size != 0 && r[j].size != 0 ==> Apart(r[i], r[j])
  {
    var r := Put(slots, EmptySlot(slots), Slot(free - n, n));
    forall i | 0 <= i < |r| ensures SlotOk(r[i], free - n) {
      InsertedPair(slots, free, n, i, i);
    }
    forall i, j | 0 <= i < j < |r| && r[i].size != 0 && r[j].size != 0 ensures Apart(r[i], r[j]) {
      InsertedPair(slots, free, n, i, j);
    }
  }

  lemma InsertedPair(slots: seq<Slot>, free: nat, n: nat, i: nat, j: nat)
    requires Tiled(slots, free) && 0 < n < DELETE_MASK && n <= free
    requires i <= j < |Put(slots, EmptySlot(slots), Slot(free - n, n))|
    ensures var r := Put(slots, EmptySlot(slots), Slot(free - n, n));
      SlotOk(r[i], free - n) && (i < j && r[i].size != 0 && r[j].size != 0 ==> Apart(r[i], r[j]))
  {}

  lemma InsertedCovers(slots: seq<Slot>, free: nat, n: nat, b: nat)
    requires Tiled(slots, free) && 0 < n < DELETE_MASK && n <= free && free - n <= b < PAGE_SIZE
    ensures Covers(Put(slots, EmptySlot(slots), Slot(free - n, n)), b)
  {
    var k := EmptySlot(slots);
    var r := Put(slots, k, Slot(free - n, n));
    if b < free {
      assert r[k].offset <= b < r[k].offset + Len(r[k]);
    } else {
      assert Covers(slots, b);
      var i :| 0 <= i < |slots| && slots[i].size != 0 && slots[i].offset <= b < slots[i].offset + Len(slots[i]);
      assert r[i] == slots[i];
    }
  }

  /** Setting or clearing the deleted flag leaves the layout as it is. */
  lemma FlaggedTiles(slots: seq<Slot>, free: nat, k: nat, size: nat)
    requires Tiled(slots, free) && k < |slots| && slots[k].size != 0 && size != 0 && UnsetDeletedFlag(size) == Len(slots[k])
    ensures Tiled(slots[k := slots[k].(size := size)], free)
  {
    var s := slots[k].(size := size);
    var r := slots[k := s];
    TotalUpdate(slots, k, s);
    forall i | 0 <= i < |r| ensures SlotOk(r[i], free) { assert SlotOk(slots[i], free); }
    forall i, j | 0 <= i < j < |r| && r[i].size != 0 && r[j].size != 0 ensures Apart(r[i], r[j]) {
      assert Apart(slots[i], slots[j]);
    }
    forall b | free <= b < PAGE_SIZE ensures Covers(r, b) {
      assert Covers(slots, b);
      var i :| 0 <= i < |slots| && slots[i].size != 0 && slots[i].offset <= b < slots[i].offset + Len(slots[i]);
      assert r[i].offset <= b < r[i].offset + Len(r[i]);
    }
  }

  // ------------------------------------------------------------------ contents

  function CellOf(data: seq<Byte>, s: Slot): Cell {
    if s.size == 0 || s.offset + Len(s) > |data| then Empty
    else
      var bytes := data[s.offset..s.offset + Len(s)];
      if IsDeleted(s.size) then Marked(bytes) else Live(bytes)
  }

  function Cells(data: seq<Byte>, slots: seq<Slot>): seq<Cell> {
    seq(|slots|, i requires 0 <= i < |slots| => CellOf(data, slots[i]))
  }

  /** t written over the bytes from position `at` on. */
  function Splice(data: seq<Byte>, at: nat, t: seq<Byte>): (r: seq<Byte>)
    requires at + |t| <= |data|
    ensures |r| == |data| && r[at..at + |t|] == t
  {
    data[..at] + t + data[at + |t|..]
  }

  lemma SpliceIs(data: seq<Byte>, at: nat, t: seq<Byte>, data': seq<Byte>)
    requires at + |t| <= |data| == |data'|
    requires forall b :: at <= b < at + |t| ==> data'[b] == t[b - at]
    requires forall b :: 0 <= b < |data| && !(at <= b < at + |t|) ==> data'[b] == data[b]
    ensures data' == Splice(data, at, t)
  {}

  /** The buffer after slot k was resized to the bytes t and the bytes below it moved along. */
  ghost predicate Compacted(data: seq<Byte>, data': seq<Byte>, free: nat, s: Slot, t: Tuple) {
    |data| == |data'| == PAGE_SIZE && free <= s.offset && s.offset + Len(s) <= PAGE_SIZE && |t| <= free + Len(s) &&
    (forall b :: s.offset + Len(s) <= b < PAGE_SIZE ==> data'[b] == data[b]) &&
    (forall b :: free + Len(s) - |t| <= b < s.offset + Len(s) - |t| ==> data'[b] == data[b - Len(s) + |t|]) &&
    data'[s.offset + Len(s) - |t|..s.offset + Len(s)] == t
  }

  lemma MovedByte(data: seq<Byte>, data': seq<Byte>, free: nat, s: Slot, t: Tuple, o: Slot, x: nat)
    requires Compacted(data, data', free, s, t) && o.size != 0 && SlotOk(o, free) && Apart(o, s) && x < Len(o)
    ensures var to := Shifted(o, s, |t|).offset; to + x < PAGE_SIZE && data'[to + x] == data[o.offset + x]
  {}

  /** Compaction preserves the bytes of every other slot. */
  lemma MovedBytes(data: seq<Byte>, data': seq<Byte>, free: nat, s: Slot, t: Tuple, o: Slot)
    requires Compacted(data, data', free, s, t) && CanResize(s, free, |t|) && SlotOk(o, free) && (o.size != 0 ==> Apart(o, s))
    ensures CellOf(data', Shifted(o, s, |t|)) == CellOf(data, o)
  {
    if o.size != 0 {
      var to, n := Shifted(o, s, |t|).offset, Len(o);
      ShiftedOk(o, s, free, |t|);
      var before, now := data[o.offset..o.offset + n], data'[to..to + n];
      forall x | 0 <= x < n ensures now[x] == before[x] {
        MovedByte(data, data', free, s, t, o, x);
      }
      assert now == before;
    }
  }

  lemma ResizedCells(data: seq<Byte>, data': seq<Byte>, slots: seq<Slot>, free: nat, k: nat, t: Tuple)
    requires k < |slots| && Tiled(slots, free) && CanResize(slots[k], free, |t|)
    requires Compacted(data, data', free, slots[k], t)
    ensures Cells(data', Resized(slots, k, |t|)) == Cells(data, slots)[k := if |t| == 0 then Empty else Live(t)]
  {
    forall i | 0 <= i < |slots| && i != k ensures CellOf(data', Resized(slots, k, |t|)[i]) == CellOf(data, slots[i]) {
      ApartFrom(slots, free, k, i);
      MovedBytes(data, data', free, slots[k], t, slots[i]);
    }
  }

  lemma InsertedCells(data: seq<Byte>, slots: seq<Slot>, free: nat, t: Tuple)
    requires Tiled(slots, free) && 0 < |t| < DELETE_MASK && |t| <= free && |data| == PAGE_SIZE
    ensures var k, cells := EmptySlot(slots), Cells(data, slots);
      Cells(Splice(data, free - |t|, t), Put(slots, k, Slot(free - |t|, |t|))) ==
      if k < |cells| then cells[k := Live(t)] else cells + [Live(t)]
  {
    var k, s, data' := EmptySlot(slots), Slot(free - |t|, |t|), Splice(data, free - |t|, t);
    var r := Put(slots, k, s);
    assert CellOf(data', s) == Live(t);
    forall i | 0 <= i < |slots| && i != k ensures CellOf(data', r[i]) == CellOf(data, slots[i]) {
      assert SlotOk(slots[i], free);
      if slots[i].size != 0 {
        var a, n := slots[i].offset, Len(slots[i]);
        assert data'[a..a + n] == data[a..a + n];
      }
    }
  }

  // ------------------------------------------------------------------ the page's operations, on cells

  function Size(c: Cell): nat {
    if c.Empty? then 0 else |c.bytes|
  }

  function Sizes(cells: seq<Cell>): nat {
    if cells == [] then 0 else Sizes(cells[..|cells| - 1]) + Size(cells[|cells| - 1])
  }

  /** The free space that remains, as the cells determine it. */
  function Space(cells: seq<Cell>): int {
    PAGE_SIZE - HEADER_SIZE - SLOT_SIZE * |cells| - Sizes(cells)
  }

  /** The first empty cell, or the position behind the last cell. */
  function FirstEmpty(cells: seq<Cell>): (i: nat)
    ensures i <= |cells| && (i < |cells| ==> cells[i].Empty?) && forall j :: 0 <= j < i ==> !cells[j].Empty?
  {
    if cells == [] || cells[0].Empty? then 0 else 1 + FirstEmpty(cells[1..])
  }

  function WithTuple(cells: seq<Cell>, t: Tuple): seq<Cell> {
    var k := FirstEmpty(cells);
    if k < |cells| then cells[k := Live(t)] else cells + [Live(t)]
  }

  lemma FirstEmptyIs(cells: seq<Cell>, i: nat)
    requires i <= |cells| && (i < |cells| ==> cells[i].Empty?) && forall j :: 0 <= j < i ==> !cells[j].Empty?
    ensures FirstEmpty(cells) == i
  {}

  lemma {:induction false} SizesAreTotal(data: seq<Byte>, slots: seq<Slot>, free: nat)
    requires |data| == PAGE_SIZE && forall i :: 0 <= i < |slots| ==> SlotOk(slots[i], free)
    ensures Sizes(Cells(data, slots)) == Total(slots)
  {
    if slots != [] {
      var n := |slots| - 1;
      SizesAreTotal(data, slots[..n], free);
      assert Cells(data, slots)[..n] == Cells(data, slots[..n]);
      assert SlotOk(slots[n], free);
    }
  }

  lemma EmptyIs(data: seq<Byte>, slots: seq<Slot>, free: nat)
    requires |data| == PAGE_SIZE && forall i :: 0 <= i < |slots| ==> SlotOk(slots[i], free)
    ensures FirstEmpty(Cells(data, slots)) == EmptySlot(slots)
  {
    forall i | 0 <= i < |slots| ensures CellOf(data, slots[i]).Empty? <==> slots[i].size == 0 {
      assert SlotOk(slots[i], free);
    }
    FirstEmptyIs(Cells(data, slots), EmptySlot(slots));
  }

  /** The first live cell from position i on, or |cells|. */
  function NextLive(cells: seq<Cell>, i: nat): (k: nat)
    requires i <= |cells|
    ensures i <= k <= |cells| && (k < |cells| ==> cells[k].Live?) && forall j :: i <= j < k ==> !cells[j].Live?
    decreases |cells| - i
  {
    if i == |cells| || cells[i].Live? then i else NextLive(cells, i + 1)
  }

  // ------------------------------------------------------------------ the page

  /** A page as it lies in the buffer pool. */
  datatype Stored = Stored(prev: PageId, next: PageId, free: nat, slots: seq<Slot>, data: seq<Byte>)

  ghost predicate StoredOk(s: Stored) {
    |s.data| == PAGE_SIZE && Tiled(s.slots, s.free)
  }

  ghost function ViewOf(s: Stored): seq<Cell> {
    Cells(s.data, s.slots)
  }

  class TablePage {
    const data: array<Byte>
    var pageId: PageId
    var prevPageId: PageId
    var nextPageId: PageId
    var freeSpacePointer: nat
    var slots: seq<Slot>

    ghost predicate Valid()
      reads this, data
    {
      data.Length == PAGE_SIZE && Tiled(slots, freeSpacePointer)
    }

    ghost function View(): seq<Cell>
      reads this, data
    {
      Cells(data[..], slots)
    }

    constructor (pageId: PageId, prevPageId: PageId)
      ensures Valid() && fresh(data) && View() == []
      ensures this.pageId == pageId && this.prevPageId == prevPageId && nextPageId == INVALID_PAGE_ID
    {
      data := new Byte[PAGE_SIZE](i => 0);
      this.pageId, this.prevPageId, nextPageId := pageId, prevPageId, INVALID_PAGE_ID;
      freeSpacePointer, slots := PAGE_SIZE, [];
    }

    constructor Load(pageId: PageId, s: Stored)
      requires StoredOk(s)
      ensures Valid() && fresh(data) && Store() == s && this.pageId == pageId
    {
      data := new Byte[|s.data|](i requires 0 <= i < |s.data| => s.data[i]);
      this.pageId, prevPageId, nextPageId, freeSpacePointer, slots := pageId, s.prev, s.next, s.free, s.slots;
      new;
      assert data[..] == s.data;
    }

    function Store(): Stored
      reads this, data
    {
      Stored(prevPageId, nextPageId, freeSpacePointer, slots, data[..])
    }

    function GetFreeSpaceRemaining(): int
      reads this
    {
      freeSpacePointer - HEADER_SIZE - SLOT_SIZE * |slots|
    }

    /** The free space is what the cells leave. */
    lemma SpaceIs()
      requires Valid()
      ensures GetFreeSpaceRemaining() == Space(View())
    {
      SizesAreTotal(data[..], slots, freeSpacePointer);
    }

    /** memmove: the regions may overlap. */
    method MemMove(dst: nat, src: nat, n: nat)
      requires dst + n <= data.Length && src + n <= data.Length
      modifies data
      ensures data[..] == Splice(old(data[..]), dst, old(data[src..src + n]))
    {
      if dst <= src {
        for i := 0 to n
          invariant forall b :: dst <= b < dst + i ==> data[b] == old(data[b - dst + src])
          invariant forall b :: 0 <= b < data.Length && !(dst <= b < dst + i) ==> data[b] == old(data[b])
        {
          data[dst + i] := data[src + i];
        }
      } else {
        for i := n downto 0
          invariant forall b :: dst + i <= b < dst + n ==> data[b] == old(data[b - dst + src])
          invariant forall b :: 0 <= b < data.Length && !(dst + i <= b < dst + n) ==> data[b] == old(data[b])
        {
          data[dst + i] := data[src + i];
        }
      }
      SpliceIs(old(data[..]), dst, old(data[src..src + n]), data[..]);
    }

    method MemCpy(dst: nat, t: Tuple)
      requires dst + |t| <= data.Length
      modifies data
      ensures data[..] == Splice(old(data[..]), dst, t)
    {
      for i := 0 to |t|
        invariant forall b :: dst <= b < dst + i ==> data[b] == t[b - dst]
        invariant forall b :: 0 <= b < data.Length && !(dst <= b < dst + i) ==> data[b] == old(data[b])
      {
        data[dst + i] := t[i];
      }
      SpliceIs(old(data[..]), dst, t, data[..]);
    }

    method InsertTuple(t: Tuple) returns (res: bool, slot: nat)
      requires Valid() && |t| > 0
      modifies this`freeSpacePointer, this`slots, data
      ensures Valid() && (res <==> |t| + SLOT_SIZE <= Space(old(View())))
      ensures View() == if res then WithTuple(old(View()), t) else old(View())
      ensures res ==> slot == FirstEmpty(old(View()))
    {
      SpaceIs();
      EmptyIs(data[..], slots, freeSpacePointer);
      slot := 0;
      if GetFreeSpaceRemaining() < |t| + SLOT_SIZE {
        return false, slot;
      }
      slot := FreeSlot();
      Place(slot, t);
      res := true;
    }

    method FreeSlot() returns (slot: nat)
      ensures slot == EmptySlot(slots)
    {
      slot := 0;
      while slot < |slots| && slots[slot].size != 0
        invariant slot <= EmptySlot(slots)
      {
        slot := slot + 1;
      }
    }

    method Place(slot: nat, t: Tuple)
      requires Valid() && slot == EmptySlot(slots) && 0 < |t| && HEADER_SIZE + SLOT_SIZE * |slots| + |t| + SLOT_SIZE <= freeSpacePointer
      modifies this`freeSpacePointer, this`slots, data
      ensures Valid() && View() ==
        if slot < |old(View())| then old(View())[slot := Live(t)] else old(View()) + [Live(t)]
    {
      ghost var before, was, free := data[..], slots, freeSpacePointer;
      InsertedTiles(was, free, |t|);
      InsertedCells(before, was, free, t);
      PlaceBytes(slot, t);
      assert slots == Put(was, slot, Slot(freeSpacePointer, |t|));
    }

    method PlaceBytes(slot: nat, t: Tuple)
      requires slot <= |slots| && |t| <= freeSpacePointer <= data.Length
      modifies this`freeSpacePointer, this`slots, data
      ensures freeSpacePointer == old(freeSpacePointer) - |t| && slots == Put(old(slots), slot, Slot(freeSpacePointer, |t|))
      ensures data[..] == Splice(old(data[..]), freeSpacePointer, t)
    {
      freeSpacePointer := freeSpacePointer - |t|;
      MemCpy(freeSpacePointer, t);
      if slot == |slots| {
        slots := slots + [Slot(freeSpacePointer, |t|)];
      } else {
        slots := slots[slot := Slot(freeSpacePointer, |t|)];
      }
    }

    method MarkDelete(slot: nat) returns (res: bool)
      requires Valid()
      modifies this`slots
      ensures Valid() && (res <==> slot < |old(View())| && old(View())[slot].Live?)
      ensures View() == if res then old(View())[slot := Marked(old(View())[slot].bytes)] else old(View())
    {
      if slot >= |slots| {
        return false;
      }
      assert SlotOk(slots[slot], freeSpacePointer);
      var size := slots[slot].size;
      if IsDeleted(size) {
        return false;
      }
      ghost var was := slots;
      FlaggedTiles(slots, freeSpacePointer, slot, SetDeletedFlag(size));
      slots := slots[slot := slots[slot].(size := SetDeletedFlag(size))];
      Flagged(data[..], was, slot, SetDeletedFlag(size));
      res := true;
    }

    /** Undo a MarkDelete; `ok` tells whether the assertion holds, which stops the program otherwise. */
    method RollbackDelete(slot: nat) returns (ok: bool)
      requires Valid()
      modifies this`slots
      ensures Valid() && (ok <==> slot < |old(View())|) && (!ok ==> View() == old(View()))
      ensures ok ==> View() == var c := old(View())[slot]; old(View())[slot := if c.Marked? then Live(c.bytes) else c]
    {
      if slot >= |slots| {
        return false;
      }
      ok := true;
      assert SlotOk(slots[slot], freeSpacePointer);
      var size := slots[slot].size;
      ghost var was := slots;
      if size != 0 {
        FlaggedTiles(slots, freeSpacePointer, slot, UnsetDeletedFlag(size));
        Flagged(data[..], was, slot, UnsetDeletedFlag(size));
      }
      assert View()[slot := View()[slot]] == View() && slots[slot := slots[slot]] == slots;
      if IsDeleted(size) {
        slots := slots[slot := slots[slot].(size := UnsetDeletedFlag(size))];
      }
    }

    method GetTuple(slot: nat) returns (res: bool, t: Tuple)
      requires Valid()
      ensures res <==> slot < |View()| && View()[slot].Live?
      ensures res ==> t == View()[slot].bytes
    {
      t := [];
      if slot >= |slots| {
        return false, t;
      }
      assert SlotOk(slots[slot], freeSpacePointer);
      if IsDeleted(slots[slot].size) {
        return false, t;
      }
      return true, data[slots[slot].offset..slots[slot].offset + slots[slot].size];
    }

    /** The first live tuple at or behind a slot: behind all of them, |slots|. */
    method FirstLiveFrom(from: nat) returns (slot: nat)
      requires Valid() && from <= |slots|
      ensures slot == NextLive(View(), from)
    {
      slot := from;
      while slot < |slots| && IsDeleted(slots[slot].size)
        invariant from <= slot <= |slots| && NextLive(View(), slot) == NextLive(View(), from)
      {
        assert SlotOk(slots[slot], freeSpacePointer);
        slot := slot + 1;
      }
      if slot < |slots| { assert SlotOk(slots[slot], freeSpacePointer); }
    }

    method GetFirstTupleRid() returns (found: bool, slot: nat)
      requires Valid()
      ensures found <==> NextLive(View(), 0) < |View()|
      ensures found ==> slot == NextLive(View(), 0)
    {
      slot := FirstLiveFrom(0);
      found := slot < |slots|;
    }

    method GetNextTupleRid(cur: nat) returns (found: bool, slot: nat)
      requires Valid() && cur < |slots|
      ensures found <==> NextLive(View(), cur + 1) < |View()|
      ensures found ==> slot == NextLive(View(), cur + 1)
    {
      slot := FirstLiveFrom(cur + 1);
      found := slot < |slots|;
    }

    /** Resize slot k: the bytes below it move up or down, and t takes its place. */
    method Compact(k: nat, t: Tuple)
      requires data.Length == PAGE_SIZE && k < |slots| && slots[k].size != 0 && SlotOk(slots[k], freeSpacePointer)
      requires |t| <= freeSpacePointer + Len(slots[k])
      modifies this`freeSpacePointer, data
      ensures freeSpacePointer == old(freeSpacePointer) + Len(slots[k]) - |t|
      ensures Compacted(old(data[..]), data[..], old(freeSpacePointer), slots[k], t)
    {
      var s, free := slots[k], freeSpacePointer;
      ghost var before := data[..];
      assert data[free..s.offset] == before[free..s.offset];
      MemMove(free + Len(s) - |t|, free, s.offset - free);
      ghost var moved := data[..];
      freeSpacePointer := free + Len(s) - |t|;
      MemCpy(s.offset + Len(s) - |t|, t);
      SplicedIsCompacted(before, moved, data[..], free, s, t);
    }

    method UpdateTuple(slot: nat, t: Tuple) returns (res: bool, before: Tuple)
      requires Valid() && |t| > 0
      modifies this`freeSpacePointer, this`slots, data
      ensures Valid()
      ensures var cells := old(View());
        res <==> slot < |cells| && cells[slot].Live? && |t| <= Space(cells) + |cells[slot].bytes|
      ensures View() == if res then old(View())[slot := Live(t)] else old(View())
      ensures res ==> before == old(View())[slot].bytes
    {
      SpaceIs();
      before := [];
      if slot >= |slots| {
        return false, before;
      }
      var s := slots[slot];
      assert SlotOk(s, freeSpacePointer);
      if IsDeleted(s.size) {
        return false, before;
      }
      if GetFreeSpaceRemaining() + s.size < |t| {
        return false, before;
      }
      before := data[s.offset..s.offset + s.size];
      Replace(slot, t);
      res := true;
    }

    /** The update proper. */
    method Replace(k: nat, t: Tuple)
      requires Valid() && k < |slots| && 0 < |t| < DELETE_MASK && !IsDeleted(slots[k].size)
      requires HEADER_SIZE + SLOT_SIZE * |slots| + |t| <= freeSpacePointer + Len(slots[k])
      modifies this`freeSpacePointer, this`slots, data
      ensures Valid() && View() == old(View())[k := Live(t)]
    {
      ghost var was, free, bytes := slots, freeSpacePointer, data[..];
      assert SlotOk(slots[k], freeSpacePointer);
      ResizedTiles(was, free, k, |t|);
      ReplaceBytes(k, t);
      assert Valid();
      ResizedCells(bytes, data[..], was, free, k, t);
    }

    method ReplaceBytes(k: nat, t: Tuple)
      requires Valid() && k < |slots| && 0 < |t| < DELETE_MASK && !IsDeleted(slots[k].size)
      requires HEADER_SIZE + SLOT_SIZE * |slots| + |t| <= freeSpacePointer + Len(slots[k])
      modifies this`freeSpacePointer, this`slots, data
      ensures freeSpacePointer == old(freeSpacePointer) + Len(old(slots)[k]) - |t| && slots == Resized(old(slots), k, |t|)
      ensures Compacted(old(data[..]), data[..], old(freeSpacePointer), old(slots)[k], t)
    {
      ghost var was := slots;
      var offset, size := slots[k].offset, slots[k].size;
      AllApart(was, freeSpacePointer, k, |t|);
      Compact(k, t);
      slots := slots[k := slots[k].(size := |t|)];
      FixUpdated(was, k, offset, size, |t|);
    }

    /** The offsets of the updated slot and of those before it in the buffer. */
    method FixUpdated(ghost was: seq<Slot>, ghost k: nat, offset: nat, size: nat, n: nat)
      requires k < |was| && was[k] == Slot(offset, size) && !IsDeleted(size) && 0 < n < DELETE_MASK
      requires n <= offset + size && AllClear(was, k, n)
      requires slots == was[k := was[k].(size := n)]
      modifies this`slots
      ensures slots == Resized(was, k, n)
    {
      for i := 0 to |slots|
        invariant |slots| == |was| && forall j :: 0 <= j < i ==> slots[j] == Resized(was, k, n)[j]
        invariant forall j :: i <= j < |slots| ==> slots[j] == if j == k then was[k].(size := n) else was[j]
      {
        assert i != k ==> Clear(was[i], was[k], n);
        if slots[i].size > 0 && slots[i].offset < offset + size {
          slots := slots[i := slots[i].(offset := slots[i].offset + size - n)];
        }
      }
    }

    /**
      Give up a slot's bytes: a marked tuple's when its deletion commits, a live one's when its insertion is undone.
      `ok` tells whether the assertions hold, that the slot is there and that its offset is not below the free space.
     */
    method ApplyDelete(slot: nat) returns (ok: bool)
      requires Valid()
      modifies this`freeSpacePointer, this`slots, data
      ensures Valid() && (ok <==> slot < |old(View())| && old(View())[slot] != Empty)
      ensures View() == if ok then old(View())[slot := Empty] else old(View())
    {
      if slot >= |slots| || slots[slot].offset < freeSpacePointer {
        ok := false;
        assert slot < |slots| ==> SlotOk(slots[slot], freeSpacePointer);
      } else {
        assert SlotOk(slots[slot], freeSpacePointer);
        Release(slot);
        ok := true;
      }
    }

    method Release(slot: nat)
      requires Valid() && slot < |slots| && slots[slot].size != 0
      modifies this`freeSpacePointer, this`slots, data
      ensures Valid() && View() == old(View())[slot := Empty]
    {
      ghost var was, free, bytes := slots, freeSpacePointer, data[..];
      var offset, size := slots[slot].offset, slots[slot].size;
      if IsDeleted(size) {
        size := UnsetDeletedFlag(size);
      }
      AllApart(was, free, slot, 0);
      ResizedTiles(was, free, slot, 0);
      Compact(slot, []);
      slots := slots[slot := Slot(0, 0)];
      FixDeleted(was, slot, offset, size);
      assert Valid();
      ResizedCells(bytes, data[..], was, free, slot, []);
    }

    method FixDeleted(ghost was: seq<Slot>, ghost k: nat, offset: nat, size: nat)
      requires k < |was| && offset == was[k].offset && size == Len(was[k]) > 0 && AllClear(was, k, 0)
      requires slots == was[k := Slot(0, 0)]
      modifies this`slots
      ensures slots == Resized(was, k, 0)
    {
      for i := 0 to |slots|
        invariant |slots| == |was| && forall j :: 0 <= j < i ==> slots[j] == Resized(was, k, 0)[j]
        invariant forall j :: i <= j < |slots| ==> slots[j] == if j == k then Slot(0, 0) else was[j]
      {
        assert i != k ==> Clear(was[i], was[k], 0);
        if slots[i].size != 0 && slots[i].offset < offset {
          slots := slots[i := slots[i].(offset := slots[i].offset + size)];
        }
      }
    }
  }

  /** Moving the bytes below the slot and then writing t. */
  lemma SplicedIsCompacted(data: seq<Byte>, moved: seq<Byte>, data': seq<Byte>, free: nat, s: Slot, t: Tuple)
    requires |data| == PAGE_SIZE && free <= s.offset && s.offset + Len(s) <= PAGE_SIZE && |t| <= free + Len(s)
    requires moved == Splice(data, free + Len(s) - |t|, data[free..s.offset])
    requires data' == Splice(moved, s.offset + Len(s) - |t|, t)
    ensures Compacted(data, data', free, s, t)
  {}

  lemma Flagged(data: seq<Byte>, slots: seq<Slot>, k: nat, size: nat)
    requires k < |slots| && slots[k].offset + Len(slots[k]) <= |data| && UnsetDeletedFlag(size) == Len(slots[k]) > 0
    ensures var bytes := data[slots[k].offset..slots[k].offset + Len(slots[k])];
      CellOf(data, slots[k]) == (if IsDeleted(slots[k].size) then Marked(bytes) else Live(bytes)) &&
      Cells(data, slots[k := slots[k].(size := size)]) == Cells(data, slots)[k := if IsDeleted(size) then Marked(bytes) else Live(bytes)]
  {}
}
