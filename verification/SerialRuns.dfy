/**
  Every run of plain transactions is worth a serial one: the same reads see the same values and the same
  values are left behind when the transactions run one after the other.
 */
module SerialRuns {
  import opened LockStates
  import opened LockRuns

  /** An access, with its position in the run. */
  datatype Op = Op(id: nat, t: TxnId, r: Rid, write: bool, value: int)

  /** The records' values, and what each read saw. */
  datatype World = World(db: map<Rid, int>, seen: map<nat, Option<int>>)

  function Apply(w: World, o: Op): World {
    if o.write then w.(db := w.db[o.r := o.value])
    else w.(seen := w.seen[o.id := if o.r in w.db then Some(w.db[o.r]) else None])
  }

  function Exec(w: World, ops: seq<Op>): World {
    if ops == [] then w else Apply(Exec(w, ops[..|ops| - 1]), ops[|ops| - 1])
  }

  /** The accesses of a run, in order. */
  function History(calls: seq<Call>): (ops: seq<Op>)
    ensures forall i :: 0 <= i < |ops| ==>
      var o := ops[i]; o.id < |calls| && calls[o.id] == Access(o.t, o.r, o.write, o.value)
    ensures forall i, j :: 0 <= i < j < |ops| ==> ops[i].id < ops[j].id
  {
    if calls == [] then []
    else
      var n := |calls| - 1;
      match calls[n]
      case Access(t, r, write, value) => History(calls[..n]) + [Op(n, t, r, write, value)]
      case _ => History(calls[..n])
  }

  /** No access is left out. */
  lemma {:induction false} HistoryComplete(calls: seq<Call>, k: nat)
    requires k < |calls| && calls[k].Access?
    ensures exists i :: 0 <= i < |History(calls)| && History(calls)[i].id == k
  {
    var n := |calls| - 1;
    if k < n {
      HistoryComplete(calls[..n], k);
      var i :| 0 <= i < |History(calls[..n])| && History(calls[..n])[i].id == k;
      assert History(calls)[i].id == k;
    } else {
      assert History(calls)[|History(calls)| - 1].id == n;
    }
  }

  predicate Clash(a: Op, b: Op) {
    a.t != b.t && a.r == b.r && (a.write || b.write)
  }

  /** The serial order: by lock point, and by transaction id where those agree. */
  predicate Later(rank: TxnId -> nat, t: TxnId, u: TxnId) {
    rank(t) > rank(u) || (rank(t) == rank(u) && t > u)
  }

  function Insert(rank: TxnId -> nat, ops: seq<Op>, o: Op): seq<Op> {
    if ops == [] || !Later(rank, ops[|ops| - 1].t, o.t) then ops + [o]
    else Insert(rank, ops[..|ops| - 1], o) + [ops[|ops| - 1]]
  }

  function Serialize(rank: TxnId -> nat, ops: seq<Op>): seq<Op> {
    if ops == [] then [] else Insert(rank, Serialize(rank, ops[..|ops| - 1]), ops[|ops| - 1])
  }

  ghost predicate InOrder(rank: TxnId -> nat, ops: seq<Op>) {
    forall i, j :: 0 <= i < j < |ops| ==>
      !Later(rank, ops[i].t, ops[j].t) && (ops[i].t == ops[j].t ==> ops[i].id < ops[j].id)
  }

  /** One transaction after the other. */
  ghost predicate Serial(ops: seq<Op>) {
    forall i, j, k :: 0 <= i < j < k < |ops| && ops[i].t == ops[k].t ==> ops[j].t == ops[i].t
  }

  lemma Swap(w: World, a: Op, b: Op)
    requires a.t != b.t && !Clash(a, b) && a.id != b.id
    ensures Apply(Apply(w, a), b) == Apply(Apply(w, b), a)
  {
    if a.write && b.write { assert w.db[a.r := a.value][b.r := b.value] == w.db[b.r := b.value][a.r := a.value]; }
    if !a.write && !b.write {
      var x, y := Apply(w, a).seen[a.id], Apply(w, b).seen[b.id];
      assert w.seen[a.id := x][b.id := y] == w.seen[b.id := y][a.id := x];
    }
  }

  lemma ExecPush(w: World, ops: seq<Op>, o: Op)
    ensures Exec(w, ops + [o]) == Apply(Exec(w, ops), o)
  {}

  /** Moving an access up past later transactions' accesses changes nothing, as none of them clashes with it. */
  lemma {:induction false} InsertSame(rank: TxnId -> nat, w: World, ops: seq<Op>, o: Op)
    requires forall e :: e in ops ==> e.id != o.id && (Clash(e, o) ==> rank(e.t) < rank(o.t))
    ensures Exec(w, Insert(rank, ops, o)) == Exec(w, ops + [o])
  {
    ExecPush(w, ops, o);
    if ops != [] && Later(rank, ops[|ops| - 1].t, o.t) {
      var rest, last := ops[..|ops| - 1], ops[|ops| - 1];
      assert last in ops;
      InsertSame(rank, w, rest, o);
      ExecPush(w, rest, o);
      ExecPush(w, Insert(rank, rest, o), last);
      Swap(Exec(w, rest), o, last);
    }
  }

  lemma {:induction false} InsertElements(rank: TxnId -> nat, ops: seq<Op>, o: Op)
    ensures multiset(Insert(rank, ops, o)) == multiset(ops) + multiset{o}
  {
    if ops != [] && Later(rank, ops[|ops| - 1].t, o.t) {
      InsertElements(rank, ops[..|ops| - 1], o);
      assert ops == ops[..|ops| - 1] + [ops[|ops| - 1]];
    }
  }

  lemma OrderPush(rank: TxnId -> nat, ops: seq<Op>, o: Op)
    requires InOrder(rank, ops)
    requires forall i :: 0 <= i < |ops| ==> !Later(rank, ops[i].t, o.t) && (ops[i].t == o.t ==> ops[i].id < o.id)
    ensures InOrder(rank, ops + [o])
  {}

  lemma {:induction false} InsertOrders(rank: TxnId -> nat, ops: seq<Op>, o: Op)
    requires InOrder(rank, ops) && forall e :: e in ops ==> e.id < o.id
    ensures InOrder(rank, Insert(rank, ops, o))
  {
    if ops != [] && Later(rank, ops[|ops| - 1].t, o.t) {
      var rest, last := ops[..|ops| - 1], ops[|ops| - 1];
      InsertOrders(rank, rest, o);
      var now := Insert(rank, rest, o);
      InsertElements(rank, rest, o);
      forall i | 0 <= i < |now| ensures !Later(rank, now[i].t, last.t) && (now[i].t == last.t ==> now[i].id < last.id) {
        assert now[i] in multiset(now);
        if now[i] != o { assert now[i] in rest; }
      }
      OrderPush(rank, now, last);
    }
  }

  lemma {:induction false} SerializeElements(rank: TxnId -> nat, ops: seq<Op>)
    ensures multiset(Serialize(rank, ops)) == multiset(ops)
  {
    if ops != [] {
      SerializeElements(rank, ops[..|ops| - 1]);
      InsertElements(rank, Serialize(rank, ops[..|ops| - 1]), ops[|ops| - 1]);
      assert ops == ops[..|ops| - 1] + [ops[|ops| - 1]];
    }
  }

  /** When clashes follow the ranks, the serial reordering has the same effect, and keeps each transaction's order. */
  lemma {:induction false} SerializeSame(rank: TxnId -> nat, w: World, ops: seq<Op>)
    requires forall i, j :: 0 <= i < j < |ops| ==> ops[i].id < ops[j].id && (Clash(ops[i], ops[j]) ==> rank(ops[i].t) < rank(ops[j].t))
    ensures Exec(w, Serialize(rank, ops)) == Exec(w, ops) && InOrder(rank, Serialize(rank, ops))
  {
    if ops != [] {
      var rest, last := ops[..|ops| - 1], ops[|ops| - 1];
      SerializeSame(rank, w, rest);
      SerializeElements(rank, rest);
      var z := Serialize(rank, rest);
      forall e | e in z ensures e.id < last.id && (Clash(e, last) ==> rank(e.t) < rank(last.t)) {
        assert e in multiset(z);
        assert e in rest;
      }
      InsertSame(rank, w, z, last);
      InsertOrders(rank, z, last);
      ExecPush(w, z, last);
    }
  }

  /** Every run of plain transactions has the effect of running them one at a time. */
  lemma RunsAreSerializable(states: seq<State>, calls: seq<Call>, w: World) returns (z: seq<Op>)
    requires IsRun(true, states, calls) && AllPlain(states, calls)
    ensures multiset(z) == multiset(History(calls)) && Serial(z)
    ensures forall i, j :: 0 <= i < j < |z| && z[i].t == z[j].t ==> z[i].id < z[j].id
    ensures Exec(w, z) == Exec(w, History(calls))
  {
    var ops := History(calls);
    var rank: TxnId -> nat := t => LockPoint(states, t);
    forall i, j | 0 <= i < j < |ops| && Clash(ops[i], ops[j]) ensures rank(ops[i].t) < rank(ops[j].t) {
      ConflictsFollowLockPoints(states, calls, ops[i].id, ops[j].id);
    }
    z := Serialize(rank, ops);
    SerializeElements(rank, ops);
    SerializeSame(rank, w, ops);
  }
}
