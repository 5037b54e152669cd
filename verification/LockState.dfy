/**
  The lock table and what one latch-protected section of each lock call does to it.

  A call that has to wait ends its first section asleep; every wake-up, spurious or not, is a further section
  that tests the wait predicate again.  `fixed` says whether LockExclusive sets is_writing_ when it grants: the
  code does not, although every wait predicate reads that flag.
 */
module LockStates {
  import opened Sets

  type TxnId = int
  type Rid = int

  datatype Mode = SHARED | EXCLUSIVE

  datatype Request = Request(txn: TxnId, mode: Mode, granted: bool)

  datatype Queue = Queue(requests: seq<Request>, upgrading: bool, sharedCount: int, writing: bool)

  datatype TxnState = GROWING | SHRINKING | COMMITTED | ABORTED

  datatype Isolation = READ_UNCOMMITTED | REPEATABLE_READ | READ_COMMITTED

  datatype Reason = LOCK_ON_SHRINKING | UPGRADE_CONFLICT | DEADLOCK | LOCKSHARED_ON_READ_UNCOMMITTED

  /** How a section ends: with the lock, asleep, or with an exception. */
  datatype Outcome = Granted | Blocked | Thrown(reason: Reason)

  datatype LockCall = CallShared | CallExclusive | CallUpgrade

  datatype Wait = Running | Asleep(rid: Rid, call: LockCall)

  datatype Txn = Txn(state: TxnState, isolation: Isolation, shared: set<Rid>, exclusive: set<Rid>, wait: Wait)

  datatype State = State(queues: map<Rid, Queue>, txns: map<TxnId, Txn>)

  datatype Option<T> = None | Some(value: T)

  const NO_REQUESTS := Queue([], false, 0, false)

  function QueueOf(s: State, r: Rid): Queue {
    if r in s.queues then s.queues[r] else NO_REQUESTS
  }

  /** GetIterator: the position of t's first request, or |q| when it has none. */
  function Find(q: seq<Request>, t: TxnId): (i: nat)
    ensures i <= |q| && (i < |q| ==> q[i].txn == t) && forall j :: 0 <= j < i ==> q[j].txn != t
  {
    if q == [] || q[0].txn == t then 0 else 1 + Find(q[1..], t)
  }

  function Entry(q: seq<Request>, t: TxnId): Option<Request> {
    if Find(q, t) < |q| then Some(q[Find(q, t)]) else None
  }

  function Erase(q: seq<Request>, t: TxnId): seq<Request>
    requires Find(q, t) < |q|
  {
    q[..Find(q, t)] + q[Find(q, t) + 1..]
  }

  function Update(q: seq<Request>, t: TxnId, mode: Mode, granted: bool): seq<Request>
    requires Find(q, t) < |q|
  {
    q[Find(q, t) := Request(t, mode, granted)]
  }

  /** The request that is found becomes a granted one, of whatever mode it is. */
  function Grant(q: seq<Request>, t: TxnId): seq<Request>
    requires Find(q, t) < |q|
  {
    Update(q, t, q[Find(q, t)].mode, true)
  }

  predicate Refused(x: Txn) {
    x.state == SHRINKING || x.isolation == READ_UNCOMMITTED
  }

  function Refusal(x: Txn): Reason {
    if x.state == SHRINKING then LOCK_ON_SHRINKING else LOCKSHARED_ON_READ_UNCOMMITTED
  }

  const BLANK := Txn(GROWING, REPEATABLE_READ, {}, {}, Running)

  function TxnOf(s: State, t: TxnId): Txn {
    if t in s.txns then s.txns[t] else BLANK
  }

  function Put(s: State, t: TxnId, x: Txn, r: Rid, q: Queue): State {
    State(s.queues[r := q], s.txns[t := x])
  }

  /** Sections touch the state of one transaction and one queue. */
  datatype Cell = Cell(x: Txn, q: Queue, outcome: Outcome)

  /** What follows the wait of LockShared. */
  function FinishShared(x: Txn, q: Queue, t: TxnId, r: Rid): Cell
    requires Find(q.requests, t) < |q.requests|
  {
    var y := x.(wait := Running);
    if x.state == ABORTED then Cell(y, q.(requests := Erase(q.requests, t)), Thrown(DEADLOCK))
    else Cell(y.(shared := x.shared + {r}),
              q.(requests := Grant(q.requests, t), sharedCount := q.sharedCount + 1), Granted)
  }

  function FinishExclusive(fixed: bool, x: Txn, q: Queue, t: TxnId, r: Rid): Cell
    requires Find(q.requests, t) < |q.requests|
  {
    var y := x.(wait := Running);
    if x.state == ABORTED then Cell(y, q.(requests := Erase(q.requests, t)), Thrown(DEADLOCK))
    else Cell(y.(exclusive := x.exclusive + {r}),
              q.(requests := Grant(q.requests, t), writing := q.writing || fixed), Granted)
  }

  /** An aborted upgrade leaves the queue's upgrading_ flag as it is. */
  function FinishUpgrade(x: Txn, q: Queue, t: TxnId, r: Rid): Cell
    requires Find(q.requests, t) < |q.requests|
  {
    var y := x.(wait := Running);
    if x.state == ABORTED then Cell(y, q.(requests := Erase(q.requests, t)), Thrown(DEADLOCK))
    else Cell(y.(exclusive := x.exclusive + {r}),
              q.(requests := Grant(q.requests, t), upgrading := false, writing := true), Granted)
  }

  predicate Free(q: Queue) {
    !q.writing && q.sharedCount <= 0
  }

  lemma FindPushed(q: seq<Request>, x: Request, t: TxnId)
    ensures Find(q + [x], t) == if Find(q, t) < |q| then Find(q, t) else if x.txn == t then |q| else |q| + 1
  {
    if q != [] && q[0].txn != t {
      assert (q + [x])[1..] == q[1..] + [x];
      FindPushed(q[1..], x, t);
    }
  }

  function Pushed(q: Queue, t: TxnId, mode: Mode): (p: Queue)
    ensures Find(p.requests, t) < |p.requests|
  {
    FindPushed(q.requests, Request(t, mode, false), t);
    q.(requests := q.requests + [Request(t, mode, false)])
  }

  function StartShared(x: Txn, q: Queue, t: TxnId, r: Rid): Cell {
    if Refused(x) then Cell(x.(state := ABORTED), q, Thrown(Refusal(x)))
    else
      var p := Pushed(q, t, SHARED);
      if p.writing && x.state != ABORTED then Cell(x.(wait := Asleep(r, CallShared)), p, Blocked)
      else FinishShared(x, p, t, r)
  }

  function StartExclusive(fixed: bool, x: Txn, q: Queue, t: TxnId, r: Rid): Cell {
    if Refused(x) then Cell(x.(state := ABORTED), q, Thrown(Refusal(x)))
    else
      var p := Pushed(q, t, EXCLUSIVE);
      if (p.writing || p.sharedCount > 0) && x.state != ABORTED then Cell(x.(wait := Asleep(r, CallExclusive)), p, Blocked)
      else FinishExclusive(fixed, x, p, t, r)
  }

  /** The shared lock is given up before the wait. */
  function StartUpgrade(x: Txn, q: Queue, t: TxnId, r: Rid): Cell
    requires Find(q.requests, t) < |q.requests|
  {
    if Refused(x) then Cell(x.(state := ABORTED), q, Thrown(Refusal(x)))
    else if q.upgrading then Cell(x.(state := ABORTED), q, Thrown(UPGRADE_CONFLICT))
    else
      var y := x.(shared := x.shared - {r});
      var p := q.(requests := Update(q.requests, t, EXCLUSIVE, false), sharedCount := q.sharedCount - 1);
      UpdateFinds(q.requests, t, EXCLUSIVE, false, t);
      var p' := if p.writing || p.sharedCount > 0 then p.(upgrading := true) else p;
      if (p.writing || p.sharedCount > 0) && x.state != ABORTED then Cell(y.(wait := Asleep(r, CallUpgrade)), p', Blocked)
      else FinishUpgrade(y, p', t, r)
  }

  /** A wake-up of a sleeping call: nothing happens unless the predicate holds. */
  function Woken(fixed: bool, x: Txn, q: Queue, t: TxnId): Cell
    requires x.wait.Asleep? && Find(q.requests, t) < |q.requests|
  {
    var r := x.wait.rid;
    match x.wait.call
    case CallShared => if x.state == ABORTED || !q.writing then FinishShared(x, q, t, r) else Cell(x, q, Blocked)
    case CallExclusive => if x.state == ABORTED || Free(q) then FinishExclusive(fixed, x, q, t, r) else Cell(x, q, Blocked)
    case CallUpgrade => if x.state == ABORTED || Free(q) then FinishUpgrade(x, q, t, r) else Cell(x, q, Blocked)
  }

  /** The request stays in the queue. */
  function Unlocked(x: Txn, q: Queue, t: TxnId, r: Rid): Cell
    requires Find(q.requests, t) < |q.requests|
  {
    var y := x.(shared := x.shared - {r}, exclusive := x.exclusive - {r});
    var mode := q.requests[Find(q.requests, t)].mode;
    var z := if !(mode == SHARED && x.isolation == READ_COMMITTED) && x.state == GROWING then y.(state := SHRINKING) else y;
    Cell(z, if mode == SHARED then q.(sharedCount := q.sharedCount - 1) else q.(writing := false), Granted)
  }

  lemma UpdateFinds(q: seq<Request>, t: TxnId, mode: Mode, granted: bool, u: TxnId)
    requires Find(q, t) < |q|
    ensures Find(Update(q, t, mode, granted), u) == Find(q, u)
  {
    var i, p := Find(q, t), Update(q, t, mode, granted);
    FindIs(p, u, Find(q, u));
  }

  lemma FindIs(q: seq<Request>, t: TxnId, i: nat)
    requires i <= |q| && (i < |q| ==> q[i].txn == t) && forall j :: 0 <= j < i ==> q[j].txn != t
    ensures Find(q, t) == i
  {}

  // ------------------------------------------------------------------ runs

  datatype Call =
    | Begin(t: TxnId, isolation: Isolation)
    | LockShared(t: TxnId, r: Rid)
    | LockExclusive(t: TxnId, r: Rid)
    | LockUpgrade(t: TxnId, r: Rid)
    | Wake(t: TxnId)
    | Unlock(t: TxnId, r: Rid)
    | SetState(t: TxnId, state: TxnState)
    | Access(t: TxnId, r: Rid, write: bool, value: int)

  /**
    What the callers must keep to: no record is locked that is locked still, only held locks are upgraded or
    released, no calls while asleep, no new locks after the commit, records accessed only under a lock.
   */
  predicate NoteOk(s: State, c: Call) {
    if c.Begin? then c.t !in s.txns
    else c.t in s.txns && var x := s.txns[c.t];
      match c
      case Begin(_, _) => true
      case LockShared(t, r) => x.wait == Running && x.state != COMMITTED && r !in x.shared && r !in x.exclusive
      case LockExclusive(t, r) => x.wait == Running && x.state != COMMITTED && r !in x.shared && r !in x.exclusive
      case LockUpgrade(t, r) => x.wait == Running && x.state != COMMITTED && r in x.shared && Entry(QueueOf(s, r).requests, t) != None
      case Wake(t) => x.wait.Asleep? && Entry(QueueOf(s, x.wait.rid).requests, t) != None
      case Unlock(t, r) => x.wait == Running && (r in x.shared || r in x.exclusive) && Entry(QueueOf(s, r).requests, t) != None
      case SetState(t, state) => state == ABORTED || (state == COMMITTED && x.wait == Running)
      case Access(t, r, write, _) => x.wait == Running && (r in x.exclusive || (!write && r in x.shared))
  }

  /** And besides: no record is locked again after it was unlocked, so that there is one request per transaction and record. */
  predicate CallOk(s: State, c: Call) {
    NoteOk(s, c) && (c.LockShared? || c.LockExclusive? ==> Refused(s.txns[c.t]) || Entry(QueueOf(s, c.r).requests, c.t) == None)
  }

  /** The record whose queue a call works on. */
  function RidOf(s: State, c: Call): Rid
    requires NoteOk(s, c)
  {
    match c
    case LockShared(_, r) => r
    case LockExclusive(_, r) => r
    case LockUpgrade(_, r) => r
    case Unlock(_, r) => r
    case Access(_, r, _, _) => r
    case Wake(t) => s.txns[t].wait.rid
    case _ => 0
  }

  function Section(fixed: bool, s: State, c: Call): Cell
    requires NoteOk(s, c)
  {
    var x := if c.Begin? then Txn(GROWING, c.isolation, {}, {}, Running) else s.txns[c.t];
    var r := RidOf(s, c);
    var q := QueueOf(s, r);
    match c
    case Begin(_, _) => Cell(x, q, Granted)
    case LockShared(t, _) => StartShared(x, q, t, r)
    case LockExclusive(t, _) => StartExclusive(fixed, x, q, t, r)
    case LockUpgrade(t, _) => StartUpgrade(x, q, t, r)
    case Wake(t) => Woken(fixed, x, q, t)
    case Unlock(t, _) => Unlocked(x, q, t, r)
    case SetState(_, state) => Cell(x.(state := state), q, Granted)
    case Access(_, _, _, _) => Cell(x, q, Granted)
  }

  function Step(fixed: bool, s: State, c: Call): State
    requires NoteOk(s, c)
  {
    var cell := Section(fixed, s, c);
    if Touches(s, c) then Put(s, c.t, cell.x, RidOf(s, c), cell.q) else State(s.queues, s.txns[c.t := cell.x])
  }

  /** Whether the call gets as far as the record's queue, which is created on the way if it is missing. */
  predicate Touches(s: State, c: Call)
    requires NoteOk(s, c)
  {
    match c
    case LockShared(t, _) => !Refused(s.txns[t])
    case LockExclusive(t, _) => !Refused(s.txns[t])
    case LockUpgrade(t, _) => !Refused(s.txns[t])
    case Wake(_) => true
    case Unlock(_, _) => true
    case _ => false
  }

  /** The sleeping transaction's wait predicate. */
  predicate WaitOver(s: State, t: TxnId)
    requires t in s.txns && s.txns[t].wait.Asleep?
  {
    var x := s.txns[t]; var q := QueueOf(s, x.wait.rid);
    x.state == ABORTED || if x.wait.call == CallShared then !q.writing else Free(q)
  }

  /** The call notifies the sleepers of record r. */
  predicate Notifies(s: State, c: Call, r: Rid)
    requires NoteOk(s, c)
  {
    c.Unlock? && c.r == r &&
    var q := QueueOf(s, r);
    q.requests[Find(q.requests, c.t)].mode == EXCLUSIVE || q.sharedCount - 1 == 0
  }

  /** The queue entries CallOk asks for are there whenever the caller keeps to the rest. */
  lemma EntriesThere(fixed: bool, s: State, t: TxnId, r: Rid)
    requires Inv(fixed, s) && t in s.txns
    requires r in s.txns[t].shared || r in s.txns[t].exclusive || (s.txns[t].wait.Asleep? && s.txns[t].wait.rid == r)
    ensures Entry(QueueOf(s, r).requests, t) != None
  {
    assert PairOk(TxnOf(s, t), QueueOf(s, r), t, r);
  }

  const START := State(map[], map[])

  ghost predicate IsRun(fixed: bool, states: seq<State>, calls: seq<Call>) {
    |states| == |calls| + 1 && states[0] == START &&
    forall i {:trigger calls[i]} :: 0 <= i < |calls| ==>
      CallOk(states[i], calls[i]) && states[i + 1] == Step(fixed, states[i], calls[i])
  }

  // ------------------------------------------------------------------ the invariant

  ghost function Sharers(s: State, r: Rid): set<TxnId> {
    set t | t in s.txns && r in s.txns[t].shared
  }

  ghost function Writers(s: State, r: Rid): set<TxnId> {
    set t | t in s.txns && r in s.txns[t].exclusive
  }

  predicate Distinct(q: seq<Request>) {
    forall i, j :: 0 <= i < j < |q| ==> q[i].txn != q[j].txn
  }

  function ModeOf(call: LockCall): Mode {
    if call == CallShared then SHARED else EXCLUSIVE
  }

  /** Transaction t's own view of record r agrees with its request in r's queue. */
  ghost predicate PairOk(x: Txn, q: Queue, t: TxnId, r: Rid) {
    (r in x.shared ==> r !in x.exclusive && Entry(q.requests, t) == Some(Request(t, SHARED, true))) &&
    (r in x.exclusive ==> Entry(q.requests, t) == Some(Request(t, EXCLUSIVE, true))) &&
    (x.wait.Asleep? && x.wait.rid == r ==>
      r !in x.shared && r !in x.exclusive && Entry(q.requests, t) == Some(Request(t, ModeOf(x.wait.call), false)) &&
      (x.state == GROWING || x.state == ABORTED)) &&
    (Entry(q.requests, t).Some? && !Entry(q.requests, t).value.granted ==> x.wait.Asleep? && x.wait.rid == r)
  }

  /** The shared count is exact; the flag tells whether there is a writer, and a writer is alone. */
  ghost predicate QueueOk(fixed: bool, s: State, r: Rid) {
    var q := QueueOf(s, r);
    Distinct(q.requests) && q.sharedCount == |Sharers(s, r)| &&
    (fixed ==> if q.writing then Sharers(s, r) == {} && |Writers(s, r)| == 1 else Writers(s, r) == {})
  }

  ghost predicate Inv(fixed: bool, s: State) {
    (forall r :: QueueOk(fixed, s, r)) &&
    forall t, r {:trigger PairOk(TxnOf(s, t), QueueOf(s, r), t, r)} :: PairOk(TxnOf(s, t), QueueOf(s, r), t, r)
  }

  /** What a section may do, seen from its transaction and its queue alone. */
  ghost predicate Local(x: Txn, q: Queue, t: TxnId, r: Rid, x': Txn, q': Queue) {
    x'.shared - {r} == x.shared - {r} && x'.exclusive - {r} == x.exclusive - {r} &&
    Distinct(q'.requests) && (forall u :: u != t ==> Entry(q'.requests, u) == Entry(q.requests, u)) &&
    PairOk(x', q', t, r) &&
    (x.wait.Asleep? && x.wait.rid != r ==> x'.wait == x.wait) &&
    (x'.wait.Asleep? && x'.wait.rid != r ==> x'.wait == x.wait && (x'.state == x.state || x'.state == ABORTED)) &&
    q'.sharedCount - q.sharedCount == (if r in x'.shared then 1 else 0) - (if r in x.shared then 1 else 0)
  }

  /** How the writing flag goes with the locks gained and lost. */
  ghost predicate Excludes(x: Txn, q: Queue, r: Rid, x': Txn, q': Queue) {
    var gained, lost := r in x'.exclusive && r !in x.exclusive, r in x.exclusive && r !in x'.exclusive;
    (r in x'.shared && r !in x.shared ==> !q.writing) && (gained ==> !q.writing && q'.sharedCount <= 0) &&
    q'.writing == ((q.writing && !lost) || gained)
  }

  lemma PutKeeps(fixed: bool, s: State, t: TxnId, x: Txn, r: Rid, q: Queue)
    requires Inv(fixed, s) && Local(TxnOf(s, t), QueueOf(s, r), t, r, x, q)
    requires fixed ==> Excludes(TxnOf(s, t), QueueOf(s, r), r, x, q)
    ensures Inv(fixed, Put(s, t, x, r, q))
  {
    var s' := Put(s, t, x, r, q);
    forall r' ensures QueueOk(fixed, s', r') {
      assert QueueOk(fixed, s, r');
      if r' == r { QueueHere(fixed, s, t, x, r, q); } else { QueueElsewhere(fixed, s, t, x, r, q, r'); }
    }
    forall u, r' ensures PairOk(TxnOf(s', u), QueueOf(s', r'), u, r') {
      assert PairOk(TxnOf(s, u), QueueOf(s, r'), u, r');
      PairKept(s, t, x, r, q, u, r');
    }
  }

  lemma QueueHere(fixed: bool, s: State, t: TxnId, x: Txn, r: Rid, q: Queue)
    requires QueueOk(fixed, s, r) && Local(TxnOf(s, t), QueueOf(s, r), t, r, x, q)
    requires fixed ==> Excludes(TxnOf(s, t), QueueOf(s, r), r, x, q)
    ensures QueueOk(fixed, Put(s, t, x, r, q), r)
  {
    HoldersPut(s, t, x, r, q, r);
    var was, now := Sharers(s, r), Sharers(Put(s, t, x, r, q), r);
    assert t in was <==> r in TxnOf(s, t).shared;
    assert t in Writers(s, r) <==> r in TxnOf(s, t).exclusive;
    Resize(was, t);
    if fixed { WritersHere(s, t, x, r, q); }
  }

  lemma WritersHere(s: State, t: TxnId, x: Txn, r: Rid, q: Queue)
    requires QueueOk(true, s, r) && Local(TxnOf(s, t), QueueOf(s, r), t, r, x, q)
    requires Excludes(TxnOf(s, t), QueueOf(s, r), r, x, q) && q.sharedCount == |Sharers(Put(s, t, x, r, q), r)|
    ensures var s' := Put(s, t, x, r, q);
      if q.writing then Sharers(s', r) == {} && |Writers(s', r)| == 1 else Writers(s', r) == {}
  {
    HoldersPut(s, t, x, r, q, r);
    var was, s' := Writers(s, r), Put(s, t, x, r, q);
    assert t in was <==> r in TxnOf(s, t).exclusive;
    assert t in Sharers(s, r) <==> r in TxnOf(s, t).shared;
    if |was| == 1 && t in was { Only(was, t); }
    if r in x.exclusive && t in was { assert was + {t} == was; }
    if r !in x.exclusive && t !in was { assert was - {t} == was; }
  }

  lemma QueueElsewhere(fixed: bool, s: State, t: TxnId, x: Txn, r: Rid, q: Queue, r': Rid)
    requires QueueOk(fixed, s, r') && r' != r && Local(TxnOf(s, t), QueueOf(s, r), t, r, x, q)
    ensures QueueOk(fixed, Put(s, t, x, r, q), r')
  {
    var s', x0 := Put(s, t, x, r, q), TxnOf(s, t);
    SameElsewhere(x0, QueueOf(s, r), t, r, x, q, r');
    HoldersPut(s, t, x, r, q, r');
    assert (t in Sharers(s, r') <==> r' in x0.shared) && (t in Writers(s, r') <==> r' in x0.exclusive);
    assert Sharers(s', r') == Sharers(s, r');
    assert Writers(s', r') == Writers(s, r');
  }

  lemma SameElsewhere(x0: Txn, q0: Queue, t: TxnId, r: Rid, x: Txn, q: Queue, r': Rid)
    requires Local(x0, q0, t, r, x, q) && r' != r
    ensures (r' in x.shared <==> r' in x0.shared) && (r' in x.exclusive <==> r' in x0.exclusive)
  {
    assert (r' in x.shared - {r} <==> r' in x0.shared - {r}) && (r' in x.exclusive - {r} <==> r' in x0.exclusive - {r});
  }

  lemma PairKept(s: State, t: TxnId, x: Txn, r: Rid, q: Queue, u: TxnId, r': Rid)
    requires Local(TxnOf(s, t), QueueOf(s, r), t, r, x, q)
    requires PairOk(TxnOf(s, u), QueueOf(s, r'), u, r')
    ensures var s' := Put(s, t, x, r, q); PairOk(TxnOf(s', u), QueueOf(s', r'), u, r')
  {
    if r' != r { SameElsewhere(TxnOf(s, t), QueueOf(s, r), t, r, x, q, r'); }
    if u != t && r' == r { assert Entry(q.requests, u) == Entry(QueueOf(s, r).requests, u); }
  }

  /** The holders of a record after one transaction changed. */
  lemma HoldersPut(s: State, t: TxnId, x: Txn, r: Rid, q: Queue, r': Rid)
    ensures var s' := Put(s, t, x, r, q);
      Sharers(s', r') == (if r' in x.shared then Sharers(s, r') + {t} else Sharers(s, r') - {t}) &&
      Writers(s', r') == (if r' in x.exclusive then Writers(s, r') + {t} else Writers(s, r') - {t})
  {}

  // ------------------------------------------------------------------ the sections keep it

  /** q' differs from q only in t's request. */
  ghost predicate OthersSame(q: seq<Request>, q': seq<Request>, t: TxnId) {
    Distinct(q') && forall u :: u != t ==> Entry(q', u) == Entry(q, u)
  }

  lemma Pushes(q: seq<Request>, x: Request)
    requires Distinct(q) && Entry(q, x.txn) == None
    ensures OthersSame(q, q + [x], x.txn) && Entry(q + [x], x.txn) == Some(x)
  {
    forall u ensures Entry(q + [x], u) == if u == x.txn then Some(x) else Entry(q, u) {
      FindPushed(q, x, u);
    }
  }

  lemma Updates(q: seq<Request>, t: TxnId, mode: Mode, granted: bool)
    requires Distinct(q) && Find(q, t) < |q|
    ensures var q' := Update(q, t, mode, granted); OthersSame(q, q', t) && Entry(q', t) == Some(Request(t, mode, granted))
  {
    forall u ensures Find(Update(q, t, mode, granted), u) == Find(q, u) {
      UpdateFinds(q, t, mode, granted, u);
    }
  }

  lemma Erases(q: seq<Request>, t: TxnId)
    requires Distinct(q) && Find(q, t) < |q|
    ensures OthersSame(q, Erase(q, t), t) && Entry(Erase(q, t), t) == None
  {
    ErasedAt(q, t);
    forall u ensures Entry(Erase(q, t), u) == if u == t then None else Entry(q, u) {
      ErasedEntry(q, t, u);
    }
  }

  lemma ErasedAt(q: seq<Request>, t: TxnId)
    requires Find(q, t) < |q|
    ensures |Erase(q, t)| == |q| - 1
    ensures forall j :: 0 <= j < |q| - 1 ==> Erase(q, t)[j] == q[if j < Find(q, t) then j else j + 1]
  {}

  lemma ErasedEntry(q: seq<Request>, t: TxnId, u: TxnId)
    requires Distinct(q) && Find(q, t) < |q|
    ensures Entry(Erase(q, t), u) == if u == t then None else Entry(q, u)
  {
    var i, j, q' := Find(q, t), Find(q, u), Erase(q, t);
    ErasedAt(q, t);
    if u == t {
      forall k | 0 <= k < |q'| ensures q'[k].txn != t {
        assert q'[k] == q[if k < i then k else k + 1];
      }
      FindIs(q', t, |q'|);
    } else {
      FindIs(q', u, if j < i then j else j - 1);
    }
  }

  lemma FinishSharedLocal(x: Txn, q: Queue, t: TxnId, r: Rid)
    requires Distinct(q.requests) && Find(q.requests, t) < |q.requests| && r !in x.shared && r !in x.exclusive
    requires x.wait.Asleep? ==> x.wait.rid == r
    requires q.requests[Find(q.requests, t)].mode == SHARED
    ensures var c := FinishShared(x, q, t, r); Local(x, q, t, r, c.x, c.q)
    ensures var c := FinishShared(x, q, t, r); x.state == ABORTED || !q.writing ==> Excludes(x, q, r, c.x, c.q)
  {
    Updates(q.requests, t, q.requests[Find(q.requests, t)].mode, true);
    Erases(q.requests, t);
  }

  lemma FinishExclusiveLocal(fixed: bool, x: Txn, q: Queue, t: TxnId, r: Rid)
    requires Distinct(q.requests) && Find(q.requests, t) < |q.requests| && r !in x.shared && r !in x.exclusive
    requires x.wait.Asleep? ==> x.wait.rid == r
    requires q.requests[Find(q.requests, t)].mode == EXCLUSIVE
    ensures var c := FinishExclusive(fixed, x, q, t, r); Local(x, q, t, r, c.x, c.q)
    ensures var c := FinishExclusive(fixed, x, q, t, r);
      fixed && (x.state == ABORTED || Free(q)) ==> Excludes(x, q, r, c.x, c.q)
  {
    Updates(q.requests, t, q.requests[Find(q.requests, t)].mode, true);
    Erases(q.requests, t);
  }

  lemma FinishUpgradeLocal(x: Txn, q: Queue, t: TxnId, r: Rid)
    requires Distinct(q.requests) && Find(q.requests, t) < |q.requests| && r !in x.shared && r !in x.exclusive
    requires x.wait.Asleep? ==> x.wait.rid == r
    requires q.requests[Find(q.requests, t)].mode == EXCLUSIVE
    ensures var c := FinishUpgrade(x, q, t, r); Local(x, q, t, r, c.x, c.q)
    ensures var c := FinishUpgrade(x, q, t, r); x.state == ABORTED || Free(q) ==> Excludes(x, q, r, c.x, c.q)
  {
    Updates(q.requests, t, q.requests[Find(q.requests, t)].mode, true);
    Erases(q.requests, t);
  }

  /** The queue p in between only differs from q in t's request. */
  lemma LocalThrough(x: Txn, q: Queue, p: Queue, t: TxnId, r: Rid, x': Txn, q': Queue)
    requires OthersSame(q.requests, p.requests, t) && p.sharedCount == q.sharedCount && p.writing == q.writing
    requires Local(x, p, t, r, x', q')
    ensures Local(x, q, t, r, x', q')
    ensures Excludes(x, p, r, x', q') ==> Excludes(x, q, r, x', q')
  {
    forall u | u != t ensures Entry(q'.requests, u) == Entry(q.requests, u) {
      assert Entry(q'.requests, u) == Entry(p.requests, u);
    }
  }

  lemma StartSharedLocal(x: Txn, q: Queue, t: TxnId, r: Rid)
    requires Distinct(q.requests) && PairOk(x, q, t, r) && x.wait == Running && x.state != COMMITTED && (Refused(x) || Entry(q.requests, t) == None)
    ensures var c := StartShared(x, q, t, r); Local(x, q, t, r, c.x, c.q) && Excludes(x, q, r, c.x, c.q)
  {
    if !Refused(x) {
      var p := Pushed(q, t, SHARED);
      Pushes(q.requests, Request(t, SHARED, false));
      FinishSharedLocal(x, p, t, r);
      if !p.writing || x.state == ABORTED {
        var c := FinishShared(x, p, t, r);
        LocalThrough(x, q, p, t, r, c.x, c.q);
      }
    }
  }

  lemma StartExclusiveLocal(fixed: bool, x: Txn, q: Queue, t: TxnId, r: Rid)
    requires Distinct(q.requests) && PairOk(x, q, t, r) && x.wait == Running && x.state != COMMITTED && (Refused(x) || Entry(q.requests, t) == None)
    ensures var c := StartExclusive(fixed, x, q, t, r);
      Local(x, q, t, r, c.x, c.q) && (fixed ==> Excludes(x, q, r, c.x, c.q))
  {
    if !Refused(x) {
      var p := Pushed(q, t, EXCLUSIVE);
      Pushes(q.requests, Request(t, EXCLUSIVE, false));
      FinishExclusiveLocal(fixed, x, p, t, r);
      if Free(p) || x.state == ABORTED {
        var c := FinishExclusive(fixed, x, p, t, r);
        LocalThrough(x, q, p, t, r, c.x, c.q);
      }
    }
  }

  lemma StartUpgradeLocal(x: Txn, q: Queue, t: TxnId, r: Rid)
    requires Distinct(q.requests) && PairOk(x, q, t, r) && x.wait == Running && x.state != COMMITTED && r in x.shared
    ensures var c := StartUpgrade(x, q, t, r); Local(x, q, t, r, c.x, c.q) && Excludes(x, q, r, c.x, c.q)
  {
    if !Refused(x) && !q.upgrading {
      var y := x.(shared := x.shared - {r});
      var p := q.(requests := Update(q.requests, t, EXCLUSIVE, false), sharedCount := q.sharedCount - 1);
      Updates(q.requests, t, EXCLUSIVE, false);
      UpdateFinds(q.requests, t, EXCLUSIVE, false, t);
      var p' := if p.writing || p.sharedCount > 0 then p.(upgrading := true) else p;
      FinishUpgradeLocal(y, p', t, r);
      if Free(p) || x.state == ABORTED {
        var c := FinishUpgrade(y, p', t, r);
        forall u | u != t ensures Entry(c.q.requests, u) == Entry(q.requests, u) {
          assert Entry(c.q.requests, u) == Entry(p'.requests, u);
        }
      }
    }
  }

  lemma WokenLocal(fixed: bool, x: Txn, q: Queue, t: TxnId)
    requires x.wait.Asleep? && Distinct(q.requests) && PairOk(x, q, t, x.wait.rid)
    ensures var r, c := x.wait.rid, Woken(fixed, x, q, t);
      Local(x, q, t, r, c.x, c.q) && (fixed ==> Excludes(x, q, r, c.x, c.q))
  {
    var r := x.wait.rid;
    if x.wait.call == CallShared {
      FinishSharedLocal(x, q, t, r);
    } else {
      FinishExclusiveLocal(fixed, x, q, t, r);
      FinishUpgradeLocal(x, q, t, r);
    }
  }

  lemma UnlockedLocal(x: Txn, q: Queue, t: TxnId, r: Rid)
    requires Distinct(q.requests) && PairOk(x, q, t, r) && x.wait == Running && (r in x.shared || r in x.exclusive)
    ensures var c := Unlocked(x, q, t, r); Local(x, q, t, r, c.x, c.q) && (r in x.exclusive || !q.writing ==> Excludes(x, q, r, c.x, c.q))
  {}

  /** A section touches its own transaction's request and locks only. */
  lemma SectionLocal(fixed: bool, s: State, c: Call)
    requires Inv(fixed, s) && CallOk(s, c)
    ensures var x, r, cell := TxnOf(s, c.t), RidOf(s, c), Section(fixed, s, c);
      Local(x, QueueOf(s, r), c.t, r, cell.x, cell.q) && (fixed ==> Excludes(x, QueueOf(s, r), r, cell.x, cell.q))
  {
    var x, r := TxnOf(s, c.t), RidOf(s, c);
    var q := QueueOf(s, r);
    assert QueueOk(fixed, s, r);
    assert PairOk(TxnOf(s, c.t), q, c.t, r);
    match c {
      case Begin(_, _) =>
      case LockShared(t, _) => StartSharedLocal(x, q, t, r);
      case LockExclusive(t, _) => StartExclusiveLocal(fixed, x, q, t, r);
      case LockUpgrade(t, _) => StartUpgradeLocal(x, q, t, r);
      case Wake(t) => WokenLocal(fixed, x, q, t);
      case Unlock(t, _) =>
        UnlockedLocal(x, q, t, r);
        assert t in Sharers(s, r) <==> r in x.shared;
      case SetState(_, _) =>
      case Access(_, _, _, _) =>
    }
  }

  /** Every section of every call keeps the invariant. */
  lemma StepKeeps(fixed: bool, s: State, c: Call)
    requires Inv(fixed, s) && CallOk(s, c)
    ensures Inv(fixed, Step(fixed, s, c))
  {
    var r, cell := RidOf(s, c), Section(fixed, s, c);
    SectionLocal(fixed, s, c);
    PutKeeps(fixed, s, c.t, cell.x, r, cell.q);
    if !Touches(s, c) { InvAlike(fixed, Put(s, c.t, cell.x, r, cell.q), Step(fixed, s, c)); }
  }

  /** An empty queue is as good as none. */
  lemma InvAlike(fixed: bool, s: State, s': State)
    requires Inv(fixed, s) && s'.txns == s.txns && forall r :: QueueOf(s', r) == QueueOf(s, r)
    ensures Inv(fixed, s')
  {
    forall r ensures QueueOk(fixed, s', r) {
      assert QueueOk(fixed, s, r) && Sharers(s', r) == Sharers(s, r) && Writers(s', r) == Writers(s, r);
    }
    forall t, r ensures PairOk(TxnOf(s', t), QueueOf(s', r), t, r) {
      assert PairOk(TxnOf(s, t), QueueOf(s, r), t, r);
    }
  }
}
