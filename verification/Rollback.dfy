/**
  Undoing a transaction's changes to a table in reverse order, from its write set.
 */
module Rollbacks {
  import opened TablePages

  datatype Rid = Rid(page: PageId, slot: nat)

  /** A table, as the cells of its pages. */
  type Table = map<PageId, seq<Cell>>

  function CellAt(t: Table, r: Rid): Cell {
    if r.page in t && r.slot < |t[r.page]| then t[r.page][r.slot] else Empty
  }

  function SetCell(t: Table, r: Rid, c: Cell): Table
    requires r.page in t && r.slot < |t[r.page]|
  {
    t[r.page := t[r.page][r.slot := c]]
  }

  /** The write set's entries; an update keeps the old tuple. */
  datatype Record = Inserted(rid: Rid) | Deleted(rid: Rid) | Updated(rid: Rid, before: Tuple)

  /** UpdateTuple's tests: a live tuple, and enough space on its page. */
  predicate Fits(t: Table, r: Rid, x: Tuple) {
    CellAt(t, r).Live? && r.page in t && |x| <= Space(t[r.page]) + |CellAt(t, r).bytes|
  }

  predicate Present(t: Table, r: Rid) {
    r.page in t && r.slot < |t[r.page]|
  }

  /** What Abort does for one entry. */
  function Undo(t: Table, w: Record): Table
    requires Present(t, w.rid)
  {
    match w
    case Inserted(r) => SetCell(t, r, Empty)
    case Deleted(r) => var c := CellAt(t, r); SetCell(t, r, if c.Marked? then Live(c.bytes) else c)
    case Updated(r, x) => if Fits(t, r, x) then SetCell(t, r, Live(x)) else t
  }

  ghost predicate AllPresent(t: Table, ws: seq<Record>) {
    forall i :: 0 <= i < |ws| ==> Present(t, ws[i].rid)
  }

  lemma UndoPresent(t: Table, w: Record, ws: seq<Record>)
    requires Present(t, w.rid) && AllPresent(t, ws)
    ensures AllPresent(Undo(t, w), ws)
  {}

  /** The entries undone one by one, last first. */
  function Replay(t: Table, ws: seq<Record>): Table
    requires AllPresent(t, ws)
  {
    if ws == [] then t
    else
      UndoPresent(t, ws[|ws| - 1], ws[..|ws| - 1]);
      Replay(Undo(t, ws[|ws| - 1]), ws[..|ws| - 1])
  }

  lemma {:induction false} ReplayKeys(t: Table, ws: seq<Record>)
    requires AllPresent(t, ws)
    ensures Replay(t, ws).Keys == t.Keys
  {
    if ws != [] {
      var w, rest := ws[|ws| - 1], ws[..|ws| - 1];
      UndoPresent(t, w, rest);
      ReplayKeys(Undo(t, w), rest);
      assert Undo(t, w).Keys == t.Keys;
    }
  }

  /** The undo of an update that UpdateTuple refuses. */
  predicate Refused(t: Table, w: Record) {
    w.Updated? && !Fits(t, w.rid, w.before)
  }

  /** The undo that decides r's bytes, of the first entry for r that is not a deletion, is refused (or, without one, `so` holds). */
  predicate Spoiled(t: Table, ws: seq<Record>, r: Rid, so: bool)
    requires AllPresent(t, ws)
  {
    if ws == [] then so
    else
      var w, rest := ws[|ws| - 1], ws[..|ws| - 1];
      UndoPresent(t, w, rest);
      Spoiled(Undo(t, w), rest, r, if w.rid == r && !w.Deleted? then Refused(t, w) else so)
  }

  // ------------------------------------------------------------------ the transaction's own steps

  ghost predicate SameElsewhere(t: Table, t': Table, r: Rid) {
    forall q {:trigger CellAt(t', q)} :: q != r ==> CellAt(t', q) == CellAt(t, q)
  }

  /** One recorded change.  A deletion is recorded even if it found no live tuple to mark. */
  ghost predicate Did(t: Table, t': Table, w: Record) {
    SameElsewhere(t, t', w.rid) &&
    var c, c' := CellAt(t, w.rid), CellAt(t', w.rid);
    match w
    case Inserted(_) => c == Empty && c'.Live?
    case Deleted(_) => c' == if c.Live? then Marked(c.bytes) else c
    case Updated(_, x) => c == Live(x) && c'.Live?
  }

  ghost predicate SpaceOk(t: Table) {
    forall p :: p in t ==> Space(t[p]) >= 0
  }

  /** What a transaction does to the table: entered in its write set, or an update that was not. */
  datatype Change = Logged(w: Record) | Unlogged(rid: Rid)

  ghost predicate Changed(t: Table, t': Table, c: Change) {
    match c
    case Logged(w) => Did(t, t', w)
    case Unlogged(r) => SameElsewhere(t, t', r) && CellAt(t, r).Live? && CellAt(t', r).Live?
  }

  /** A transaction's run: the tables it went through. */
  ghost predicate Run(ts: seq<Table>, cs: seq<Change>) {
    |ts| == |cs| + 1 && forall i {:trigger cs[i]} :: 0 <= i < |cs| ==> Changed(ts[i], ts[i + 1], cs[i])
  }

  /** The write set. */
  function LogOf(cs: seq<Change>): (ws: seq<Record>)
    ensures |ws| <= |cs|
  {
    if cs == [] then []
    else
      var rest, c := LogOf(cs[..|cs| - 1]), cs[|cs| - 1];
      if c.Logged? then rest + [c.w] else rest
  }

  /** Once an update has not been entered, none is. */
  ghost predicate Orderly(cs: seq<Change>) {
    forall i, j :: 0 <= i < j < |cs| && cs[i].Unlogged? ==> cs[j].Unlogged? || !cs[j].w.Updated?
  }

  /** No deletion is pending. */
  ghost predicate NoneMarked(t: Table) {
    forall r {:trigger CellAt(t, r)} :: !CellAt(t, r).Marked?
  }

  // ------------------------------------------------------------------ the proof

  /** Every step of the replay finds what it needs: a tuple where one was inserted, a live one where one was updated. */
  predicate Replayable(t: Table, ws: seq<Record>)
    requires AllPresent(t, ws)
  {
    if ws == [] then true
    else
      var w, rest := ws[|ws| - 1], ws[..|ws| - 1];
      UndoPresent(t, w, rest);
      (w.Inserted? ==> CellAt(t, w.rid) != Empty) && (w.Updated? ==> CellAt(t, w.rid).Live?) && Replayable(Undo(t, w), rest)
  }

  /** How the rolled-back cell u stands to the cell s it should be, the bytes apart. */
  predicate Kin(u: Cell, s: Cell) {
    (u == Empty <==> s == Empty) && (s.Live? ==> u.Live?)
  }

  lemma UndoKin(s: Table, s': Table, w: Record, u: Table, r: Rid)
    requires Did(s, s', w) && Present(u, w.rid) && Kin(CellAt(u, w.rid), CellAt(s', w.rid)) && Kin(CellAt(u, r), CellAt(s', r))
    ensures Kin(CellAt(Undo(u, w), r), CellAt(s, r))
  {}

  lemma {:induction false} SizesUpdate(cells: seq<Cell>, k: nat, c: Cell)
    requires k < |cells|
    ensures Sizes(cells[k := c]) + Size(cells[k]) == Sizes(cells) + Size(c)
  {
    var n := |cells| - 1;
    if k == n {
      assert cells[k := c][..n] == cells[..n];
    } else {
      assert cells[k := c][..n] == cells[..n][k := c];
      SizesUpdate(cells[..n], k, c);
    }
  }

  lemma UndoSpace(t: Table, w: Record)
    requires SpaceOk(t) && Present(t, w.rid)
    ensures SpaceOk(Undo(t, w))
  {
    var u := Undo(t, w);
    SizesUpdate(t[w.rid.page], w.rid.slot, CellAt(u, w.rid));
    assert u == t || u == t[w.rid.page := t[w.rid.page][w.rid.slot := CellAt(u, w.rid)]];
  }

  /** The run without its last change. */
  lemma Shorter(ts: seq<Table>, cs: seq<Change>)
    requires Run(ts, cs) && cs != []
    ensures var n := |cs| - 1; Run(ts[..n + 1], cs[..n]) && Changed(ts[n], ts[n + 1], cs[n])
  {
    var n := |cs| - 1;
    forall i | 0 <= i < n ensures Changed(ts[..n + 1][i], ts[..n + 1][i + 1], cs[..n][i]) {
      assert Changed(ts[i], ts[i + 1], cs[i]);
    }
  }

  /** Every entry undone, up to the k-th, finds what it needs; undoing them all takes every cell back, up to its bytes. */
  lemma {:induction false} CanAbort(ts: seq<Table>, cs: seq<Change>, u: Table, k: nat)
    requires Run(ts, cs) && k <= |LogOf(cs)| && AllPresent(u, LogOf(cs)[k..])
    requires forall q :: Kin(CellAt(u, q), CellAt(ts[|cs|], q))
    ensures Replayable(u, LogOf(cs)[k..])
    ensures k == 0 ==> forall q :: Kin(CellAt(Replay(u, LogOf(cs)[k..]), q), CellAt(ts[0], q))
    decreases |cs|
  {
    if cs != [] && (k == 0 || |LogOf(cs)| > k) {
      var n, c, tail := |cs| - 1, cs[|cs| - 1], LogOf(cs)[k..];
      Shorter(ts, cs);
      if c.Logged? {
        assert tail[|tail| - 1] == c.w && tail[..|tail| - 1] == LogOf(cs[..n])[k..];
        UndoPresent(u, c.w, LogOf(cs[..n])[k..]);
        forall q ensures Kin(CellAt(Undo(u, c.w), q), CellAt(ts[n], q)) { UndoKin(ts[n], ts[n + 1], c.w, u, q); }
        CanAbort(ts[..n + 1], cs[..n], Undo(u, c.w), k);
      } else {
        CanAbort(ts[..n + 1], cs[..n], u, k);
      }
    }
  }

  datatype First = Nothing | Was(w: Record)

  /** The first entry for r that is not a deletion. */
  function FirstOf(ws: seq<Record>, r: Rid): First {
    if ws == [] then Nothing
    else
      var f, w := FirstOf(ws[..|ws| - 1], r), ws[|ws| - 1];
      if f.Was? then f else if w.rid == r && !w.Deleted? then Was(w) else Nothing
  }

  /** The cell without its mark. */
  function Bare(c: Cell): Cell {
    if c.Marked? then Live(c.bytes) else c
  }

  /** What the replay makes of r. */
  ghost predicate CellGoes(from: Cell, to: Cell, first: First, spoiled: bool) {
    match first
    case Nothing => Bare(to) == Bare(from)
    case Was(Updated(_, x)) => if spoiled then Bare(to).Live? && |Bare(to).bytes| != |x| else Bare(to) == Live(x)
    case Was(_) => to == Empty && !spoiled
  }

  lemma UndoCell(t: Table, w: Record, r: Rid)
    requires SpaceOk(t) && Present(t, w.rid) && (w.Updated? ==> CellAt(t, w.rid).Live?)
    ensures CellGoes(CellAt(t, r), CellAt(Undo(t, w), r), if w.rid == r && !w.Deleted? then Was(w) else Nothing, Refused(t, w))
  {
    assert w.rid.page in t && Space(t[w.rid.page]) >= 0;
  }

  lemma {:induction false} ReplayCell(t: Table, ws: seq<Record>, r: Rid, so: bool)
    requires SpaceOk(t) && AllPresent(t, ws) && Replayable(t, ws)
    ensures CellGoes(CellAt(t, r), CellAt(Replay(t, ws), r), FirstOf(ws, r), Spoiled(t, ws, r, so))
    ensures FirstOf(ws, r) == Nothing ==> Spoiled(t, ws, r, so) == so
    decreases |ws|
  {
    if ws != [] {
      var w, rest := ws[|ws| - 1], ws[..|ws| - 1];
      UndoPresent(t, w, rest);
      UndoSpace(t, w);
      UndoCell(t, w, r);
      ReplayCell(Undo(t, w), rest, r, if w.rid == r && !w.Deleted? then Refused(t, w) else so);
    }
  }

  /** An empty cell has been empty all along; without entries for it and unrecorded updates, a live one has stayed the same. */
  lemma {:induction false} Quiet(ts: seq<Table>, cs: seq<Change>, r: Rid)
    requires Run(ts, cs)
    ensures CellAt(ts[|cs|], r) == Empty ==> CellAt(ts[0], r) == Empty
    ensures CellAt(ts[|cs|], r).Live? && FirstOf(LogOf(cs), r) == Nothing && (forall i :: 0 <= i < |cs| ==> cs[i].Logged?)
      ==> CellAt(ts[|cs|], r) == CellAt(ts[0], r)
    decreases |cs|
  {
    if cs != [] {
      Shorter(ts, cs);
      Quiet(ts[..|cs|], cs[..|cs| - 1], r);
      LogGrows(cs, r);
    }
  }

  lemma LogGrows(cs: seq<Change>, r: Rid)
    requires cs != []
    ensures var n := |cs| - 1; var f := FirstOf(LogOf(cs[..n]), r);
      FirstOf(LogOf(cs), r) == if f.Was? then f
        else if cs[n].Logged? && cs[n].w.rid == r && !cs[n].w.Deleted? then Was(cs[n].w) else Nothing
  {
    var n, ws := |cs| - 1, LogOf(cs);
    if cs[n].Logged? { assert ws[..|ws| - 1] == LogOf(cs[..n]); }
  }

  /** The first entry for r tells how the transaction found it. */
  lemma {:induction false} FirstTells(ts: seq<Table>, cs: seq<Change>, r: Rid)
    requires Run(ts, cs) && Orderly(cs)
    ensures match FirstOf(LogOf(cs), r)
      case Nothing => true
      case Was(Updated(_, x)) => CellAt(ts[0], r) == Live(x)
      case Was(_) => CellAt(ts[0], r) == Empty
    decreases |cs|
  {
    if cs != [] {
      var n := |cs| - 1;
      Shorter(ts, cs);
      LogGrows(cs, r);
      FirstTells(ts[..n + 1], cs[..n], r);
      Quiet(ts[..n + 1], cs[..n], r);
    }
  }

  /** r was updated without an entry, so that its bytes are no longer those the transaction found. */
  predicate Drifted(first: Table, last: Table, r: Rid) {
    Bare(CellAt(last, r)) != CellAt(first, r)
  }

  /**
    Abort leaves a record as the transaction found it exactly if the undo of its first entry, deletions aside, is
    not an update refused for space, or, without such an entry, its bytes are still those the transaction found.
   */
  lemma AbortRestores(ts: seq<Table>, cs: seq<Change>, r: Rid)
    requires Run(ts, cs) && Orderly(cs) && NoneMarked(ts[0]) && AllPresent(ts[|cs|], LogOf(cs)) && SpaceOk(ts[|cs|])
    ensures CellAt(Replay(ts[|cs|], LogOf(cs)), r) == CellAt(ts[0], r) <==> !Spoiled(ts[|cs|], LogOf(cs), r, Drifted(ts[0], ts[|cs|], r))
  {
    var u := ts[|cs|];
    assert LogOf(cs)[0..] == LogOf(cs);
    CanAbort(ts, cs, u, 0);
    ReplayCell(u, LogOf(cs), r, Drifted(ts[0], u, r));
    FirstTells(ts, cs, r);
    assert !CellAt(ts[0], r).Marked?;
    assert Kin(CellAt(Replay(u, LogOf(cs)), r), CellAt(ts[0], r));
  }

  lemma AbortRestoresEach(ts: seq<Table>, cs: seq<Change>)
    requires Run(ts, cs) && Orderly(cs) && NoneMarked(ts[0]) && AllPresent(ts[|cs|], LogOf(cs)) && SpaceOk(ts[|cs|])
    ensures forall r :: CellAt(Replay(ts[|cs|], LogOf(cs)), r) == CellAt(ts[0], r) <==>
      !Spoiled(ts[|cs|], LogOf(cs), r, Drifted(ts[0], ts[|cs|], r))
  {
    forall r ensures CellAt(Replay(ts[|cs|], LogOf(cs)), r) == CellAt(ts[0], r) <==>
      !Spoiled(ts[|cs|], LogOf(cs), r, Drifted(ts[0], ts[|cs|], r))
    {
      AbortRestores(ts, cs, r);
    }
  }

  /** No undo in the replay is refused. */
  predicate NoneRefused(t: Table, ws: seq<Record>)
    requires AllPresent(t, ws)
  {
    if ws == [] then true
    else
      UndoPresent(t, ws[|ws| - 1], ws[..|ws| - 1]);
      !Refused(t, ws[|ws| - 1]) && NoneRefused(Undo(t, ws[|ws| - 1]), ws[..|ws| - 1])
  }

  lemma {:induction false} NotSpoiled(t: Table, ws: seq<Record>, r: Rid, so: bool)
    requires AllPresent(t, ws) && NoneRefused(t, ws)
    ensures Spoiled(t, ws, r, so) ==> so && FirstOf(ws, r) == Nothing
  {
    if ws != [] {
      var w, rest := ws[|ws| - 1], ws[..|ws| - 1];
      UndoPresent(t, w, rest);
      NotSpoiled(Undo(t, w), rest, r, if w.rid == r && !w.Deleted? then Refused(t, w) else so);
    }
  }

  /** If every update is entered and no undo is refused, the whole table is as it was. */
  lemma AbortRestoresAll(ts: seq<Table>, cs: seq<Change>)
    requires Run(ts, cs) && NoneMarked(ts[0]) && AllPresent(ts[|cs|], LogOf(cs)) && SpaceOk(ts[|cs|])
    requires NoneRefused(ts[|cs|], LogOf(cs)) && forall i :: 0 <= i < |cs| ==> cs[i].Logged?
    ensures forall r :: CellAt(Replay(ts[|cs|], LogOf(cs)), r) == CellAt(ts[0], r)
  {
    forall r ensures CellAt(Replay(ts[|cs|], LogOf(cs)), r) == CellAt(ts[0], r) {
      NotSpoiled(ts[|cs|], LogOf(cs), r, Drifted(ts[0], ts[|cs|], r));
      if FirstOf(LogOf(cs), r) == Nothing { Undrifted(ts, cs, r); }
      AbortRestores(ts, cs, r);
    }
  }

  lemma BareStays(t: Table, t': Table, w: Record, r: Rid)
    requires Did(t, t', w) && (w.rid == r ==> w.Deleted?)
    ensures Bare(CellAt(t', r)) == Bare(CellAt(t, r))
  {}

  /** Deletions alone change no bytes. */
  lemma {:induction false} Undrifted(ts: seq<Table>, cs: seq<Change>, r: Rid)
    requires Run(ts, cs) && !CellAt(ts[0], r).Marked? && FirstOf(LogOf(cs), r) == Nothing && forall i :: 0 <= i < |cs| ==> cs[i].Logged?
    ensures !Drifted(ts[0], ts[|cs|], r)
    decreases |cs|
  {
    if cs != [] {
      Shorter(ts, cs);
      LogGrows(cs, r);
      Undrifted(ts[..|cs|], cs[..|cs| - 1], r);
      BareStays(ts[|cs| - 1], ts[|cs|], cs[|cs| - 1].w, r);
    }
  }

  function Bytes(n: nat): Tuple {
    seq(n, i => 0)
  }

  /**
    A full page: its tuple is cut to one byte, a second tuple takes the freed bytes.  The rollback empties the
    second slot but keeps the slot itself, so the first tuple no longer fits, and is left cut.
   */
  lemma AbortLosesUpdate() returns (ts: seq<Table>, ws: seq<Record>, r: Rid)
    ensures r == Rid(0, 0) && ws == [Updated(r, Bytes(4064)), Inserted(Rid(0, 1))]
    ensures ts == [map[0 := [Live(Bytes(4064))]], map[0 := [Live(Bytes(1))]], map[0 := [Live(Bytes(1)), Live(Bytes(4055))]]]
    ensures Run(ts, [Logged(ws[0]), Logged(ws[1])]) && NoneMarked(ts[0]) && AllPresent(ts[2], ws) && forall t :: t in ts ==> SpaceOk(t)
    ensures CellAt(Replay(ts[2], ws), r) != CellAt(ts[0], r)
  {
    var long, short, other := Live(Bytes(4064)), Live(Bytes(1)), Live(Bytes(4055));
    r := Rid(0, 0);
    ts := [map[0 := [long]], map[0 := [short]], map[0 := [short, other]]];
    ws := [Updated(r, long.bytes), Inserted(Rid(0, 1))];
    assert Sizes([long]) == 4064 by { assert [long][..0] == []; }
    assert Sizes([short]) == 1 by { assert [short][..0] == []; }
    assert Sizes([short, other]) == 4056 by { assert [short, other][..1] == [short]; }
    assert Did(ts[0], ts[1], ws[0]) && Did(ts[1], ts[2], ws[1]);
    var u := Undo(ts[2], ws[1]);
    assert [short, other][1 := Empty] == [short, Empty];
    assert u[0] == [short, Empty];
    assert u == map[0 := [short, Empty]];
    assert Sizes([short, Empty]) == 1 by { assert [short, Empty][..1] == [short]; }
    assert Undo(u, ws[0]) == u;
    assert ws[..1] == [ws[0]] && ws[..1][..0] == [];
    assert Replay(u, ws[..1]) == u;
  }
}
