/**
  The reader-writer latch, as the mutex-protected sections of its four calls.

  A thread that has to wait goes to sleep on one of the two condition variables.  Any wake-up, notified or
  spurious, is a section of its own that tests the condition again.
 */
module RWLatches {
  import opened Sets

  type Tid = int

  const MAX_READERS: nat := 0xFFFF_FFFF

  /** Where a thread is: `awake` tells whether it was notified since it went to sleep. */
  datatype Pc =
    | Idle
    | Entering(awake: bool)       // in WLock, on reader_, until no writer has entered
    | Draining(awake: bool)       // in WLock, on writer_, until the readers are gone
    | Writing
    | WaitingToRead(awake: bool)  // in RLock, on reader_
    | Reading

  datatype State = State(writerEntered: bool, readerCount: nat, threads: map<Tid, Pc>)

  /** `chosen` is the thread that a notify_one on reader_ wakes. */
  datatype Call = WLock(t: Tid) | WUnlock(t: Tid) | RLock(t: Tid) | RUnlock(t: Tid, chosen: Tid) | Wake(t: Tid)

  function PcOf(s: State, t: Tid): Pc {
    if t in s.threads then s.threads[t] else Idle
  }

  predicate SleepsOnReader(p: Pc) {
    (p.Entering? || p.WaitingToRead?) && !p.awake
  }

  /** notify_one wakes a sleeper if there is one. */
  predicate ChoiceOk(s: State, chosen: Tid) {
    (exists t :: t in s.threads && SleepsOnReader(s.threads[t])) ==> SleepsOnReader(PcOf(s, chosen))
  }

  predicate CallOk(s: State, c: Call) {
    match c
    case WLock(t) => PcOf(s, t) == Idle
    case RLock(t) => PcOf(s, t) == Idle
    case WUnlock(t) => PcOf(s, t) == Writing
    case RUnlock(t, chosen) => PcOf(s, t) == Reading && ChoiceOk(s, chosen)
    case Wake(t) => var p := PcOf(s, t); p.Entering? || p.Draining? || p.WaitingToRead?
  }

  function At(s: State, t: Tid, p: Pc): State {
    s.(threads := s.threads[t := p])
  }

  /** The wait loops of WLock, from the first test on. */
  function Enter(s: State, t: Tid): State {
    if s.writerEntered then At(s, t, Entering(false))
    else Drain(s.(writerEntered := true), t)
  }

  function Drain(s: State, t: Tid): State {
    if s.readerCount > 0 then At(s, t, Draining(false)) else At(s, t, Writing)
  }

  function Read(s: State, t: Tid): State {
    if s.writerEntered || s.readerCount == MAX_READERS then At(s, t, WaitingToRead(false))
    else At(s, t, Reading).(readerCount := s.readerCount + 1)
  }

  function Notified(p: Pc): Pc {
    match p
    case Entering(_) => Entering(true)
    case Draining(_) => Draining(true)
    case WaitingToRead(_) => WaitingToRead(true)
    case _ => p
  }

  function NotifyReaders(threads: map<Tid, Pc>): map<Tid, Pc> {
    map t | t in threads :: if SleepsOnReader(threads[t]) then Notified(threads[t]) else threads[t]
  }

  function NotifyWriters(threads: map<Tid, Pc>): map<Tid, Pc> {
    map t | t in threads :: if threads[t] == Draining(false) then Draining(true) else threads[t]
  }

  function NotifyOneReader(threads: map<Tid, Pc>, chosen: Tid): map<Tid, Pc> {
    if chosen in threads && SleepsOnReader(threads[chosen]) then threads[chosen := Notified(threads[chosen])] else threads
  }

  function Step(s: State, c: Call): State
    requires CallOk(s, c)
  {
    match c
    case WLock(t) => Enter(s, t)
    case RLock(t) => Read(s, t)
    case WUnlock(t) =>
      var u := At(s, t, Idle);
      State(false, s.readerCount, NotifyReaders(u.threads))
    case RUnlock(t, chosen) =>
      var n, u := if s.readerCount == 0 then MAX_READERS else s.readerCount - 1, At(s, t, Idle);
      State(s.writerEntered, n,
        if s.writerEntered then (if n == 0 then NotifyWriters(u.threads) else u.threads)
        else if n == MAX_READERS - 1 then NotifyOneReader(u.threads, chosen) else u.threads)
    case Wake(t) =>
      match PcOf(s, t)
      case Entering(_) => Enter(s, t)
      case Draining(_) => Drain(s, t)
      case _ => Read(s, t)
  }

  const START := State(false, 0, map[])

  ghost predicate IsRun(states: seq<State>, calls: seq<Call>) {
    |states| == |calls| + 1 && states[0] == START &&
    forall i {:trigger calls[i]} :: 0 <= i < |calls| ==> CallOk(states[i], calls[i]) && states[i + 1] == Step(states[i], calls[i])
  }

  // ------------------------------------------------------------------ the invariant

  ghost function Readers(s: State): set<Tid> {
    set t | t in s.threads && s.threads[t] == Reading
  }

  /** The threads that have entered as a writer: at work, or waiting for the readers to leave. */
  ghost function Writers(s: State): set<Tid> {
    set t | t in s.threads && (s.threads[t] == Writing || s.threads[t].Draining?)
  }

  ghost predicate ThreadOk(s: State, t: Tid)
    requires t in s.threads
  {
    var p := s.threads[t];
    (p == Writing ==> s.readerCount == 0) &&
    (p == Draining(false) ==> s.readerCount > 0) &&
    (p == Entering(false) ==> s.writerEntered)
  }

  ghost predicate Inv(s: State) {
    s.readerCount == |Readers(s)| <= MAX_READERS && |Writers(s)| == (if s.writerEntered then 1 else 0) &&
    forall t {:trigger ThreadOk(s, t)} :: t in s.threads ==> ThreadOk(s, t)
  }

  /** Thread t moved to p, and some sleepers were notified. */
  ghost predicate Moved(s: State, s': State, t: Tid, p: Pc) {
    s'.threads.Keys == s.threads.Keys + {t} && s'.threads[t] == p &&
    forall u :: u in s.threads && u != t ==> s'.threads[u] == s.threads[u] || s'.threads[u] == Notified(s.threads[u])
  }

  lemma SetsAfter(s: State, s': State, t: Tid, p: Pc)
    requires Moved(s, s', t, p)
    ensures Readers(s') == if p == Reading then Readers(s) + {t} else Readers(s) - {t}
    ensures Writers(s') == if p == Writing || p.Draining? then Writers(s) + {t} else Writers(s) - {t}
  {
    forall u ensures u in Readers(s') <==> if u == t then p == Reading else u in Readers(s) {}
    forall u ensures u in Writers(s') <==> if u == t then p == Writing || p.Draining? else u in Writers(s) {}
  }

  lemma CountsAfter(s: State, s': State, t: Tid, p: Pc)
    requires Moved(s, s', t, p)
    ensures |Readers(s')| - |Readers(s)| == (if p == Reading then 1 else 0) - (if t in Readers(s) then 1 else 0)
    ensures |Writers(s')| - |Writers(s)| == (if p == Writing || p.Draining? then 1 else 0) - (if t in Writers(s) then 1 else 0)
  {
    SetsAfter(s, s', t, p);
    Resize(Readers(s), t);
    Resize(Writers(s), t);
  }

  /** Enough for a section to keep the invariant: its own thread, the counters, and what the others rely on. */
  lemma MoveKeeps(s: State, s': State, t: Tid, p: Pc)
    requires Inv(s) && Moved(s, s', t, p) && ThreadOk(s', t)
    requires s'.readerCount - s.readerCount == (if p == Reading then 1 else 0) - (if t in Readers(s) then 1 else 0)
    requires s'.readerCount <= MAX_READERS
    requires (if s'.writerEntered then 1 else 0) - (if s.writerEntered then 1 else 0) ==
      (if p == Writing || p.Draining? then 1 else 0) - (if t in Writers(s) then 1 else 0)
    requires p == Reading ==> !s.writerEntered
    requires s'.readerCount == 0 ==> forall u :: u in s'.threads ==> s'.threads[u] != Draining(false)
    requires !s'.writerEntered ==> forall u :: u in s'.threads ==> s'.threads[u] != Entering(false)
    ensures Inv(s')
  {
    forall u | u in s'.threads && u != t ensures ThreadOk(s', u) {
      assert ThreadOk(s, u);
      WriterEntered(s, u);
    }
    CountsAfter(s, s', t, p);
  }

  lemma WriterEntered(s: State, t: Tid)
    requires Inv(s) && t in s.threads
    ensures t in Writers(s) ==> s.writerEntered
  {}

  lemma EnterKeeps(s: State, t: Tid)
    requires Inv(s) && (PcOf(s, t) == Idle || PcOf(s, t).Entering?)
    ensures Inv(Enter(s, t))
  {
    var s' := Enter(s, t);
    forall u | u in s.threads ensures ThreadOk(s, u) && (!s.writerEntered ==> u !in Writers(s)) { WriterEntered(s, u); }
    MoveKeeps(s, s', t, s'.threads[t]);
  }

  lemma DrainKeeps(s: State, t: Tid)
    requires Inv(s) && PcOf(s, t).Draining?
    ensures Inv(Drain(s, t))
  {
    var s' := Drain(s, t);
    forall u | u in s.threads ensures ThreadOk(s, u) {}
    WriterEntered(s, t);
    MoveKeeps(s, s', t, s'.threads[t]);
  }

  lemma ReadKeeps(s: State, t: Tid)
    requires Inv(s) && (PcOf(s, t) == Idle || PcOf(s, t).WaitingToRead?)
    ensures Inv(Read(s, t))
  {
    var s' := Read(s, t);
    forall u | u in s.threads ensures ThreadOk(s, u) {}
    MoveKeeps(s, s', t, s'.threads[t]);
  }

  lemma WUnlockKeeps(s: State, t: Tid)
    requires Inv(s) && PcOf(s, t) == Writing
    ensures Inv(Step(s, WUnlock(t)))
  {
    var s' := Step(s, WUnlock(t));
    forall u | u in s.threads ensures ThreadOk(s, u) {}
    WriterEntered(s, t);
    assert t in Writers(s);
    MoveKeeps(s, s', t, Idle);
  }

  lemma RUnlockKeeps(s: State, t: Tid, chosen: Tid)
    requires Inv(s) && PcOf(s, t) == Reading && ChoiceOk(s, chosen)
    ensures Inv(Step(s, RUnlock(t, chosen)))
  {
    var s' := Step(s, RUnlock(t, chosen));
    forall u | u in s.threads ensures ThreadOk(s, u) && (!s.writerEntered ==> u !in Writers(s)) { WriterEntered(s, u); }
    assert t in Readers(s);
    Resize(Readers(s), t);
    MoveKeeps(s, s', t, Idle);
  }

  lemma StepKeeps(s: State, c: Call)
    requires Inv(s) && CallOk(s, c)
    ensures Inv(Step(s, c))
  {
    match c {
      case WLock(t) => EnterKeeps(s, t);
      case RLock(t) => ReadKeeps(s, t);
      case WUnlock(t) => WUnlockKeeps(s, t);
      case RUnlock(t, chosen) => RUnlockKeeps(s, t, chosen);
      case Wake(t) =>
        if s.threads[t].Entering? { EnterKeeps(s, t); } else if s.threads[t].Draining? { DrainKeeps(s, t); } else { ReadKeeps(s, t); }
    }
  }

  lemma {:induction false} RunKeeps(states: seq<State>, calls: seq<Call>, i: nat)
    requires IsRun(states, calls) && i < |states|
    ensures Inv(states[i])
  {
    if i == 0 {
      assert Readers(START) == {} && Writers(START) == {};
    } else {
      RunKeeps(states, calls, i - 1);
      assert CallOk(states[i - 1], calls[i - 1]);
      StepKeeps(states[i - 1], calls[i - 1]);
    }
  }

  /** An active writer excludes all readers and all other writers, at every point of every run. */
  lemma WriterIsAlone(states: seq<State>, calls: seq<Call>, i: nat, t: Tid, u: Tid)
    requires IsRun(states, calls) && i < |states| && PcOf(states[i], t) == Writing && t != u
    ensures PcOf(states[i], u) != Reading && PcOf(states[i], u) != Writing
  {
    var s := states[i];
    RunKeeps(states, calls, i);
    assert ThreadOk(s, t) && t in Writers(s);
    Only(Writers(s), t);
    assert PcOf(s, u) == Reading ==> u in Readers(s);
    assert PcOf(s, u) == Writing ==> u in Writers(s);
  }

  /** A thread sleeping on writer_ has readers to wait for: it never misses the last RUnlock. */
  lemma SleepingWriterHasReaders(states: seq<State>, calls: seq<Call>, i: nat, t: Tid)
    requires IsRun(states, calls) && i < |states| && PcOf(states[i], t) == Draining(false)
    ensures exists u :: PcOf(states[i], u) == Reading
  {
    var s := states[i];
    RunKeeps(states, calls, i);
    assert ThreadOk(s, t);
    Inhabited(Readers(s));
    var u :| u in Readers(s);
    assert PcOf(s, u) == Reading;
  }

  /** A writer sleeping on reader_ has another writer to wait for. */
  lemma SleepingEntrantHasWriter(states: seq<State>, calls: seq<Call>, i: nat, t: Tid)
    requires IsRun(states, calls) && i < |states| && PcOf(states[i], t) == Entering(false)
    ensures exists u :: u != t && (PcOf(states[i], u) == Writing || PcOf(states[i], u).Draining?)
  {
    var s := states[i];
    RunKeeps(states, calls, i);
    assert ThreadOk(s, t);
    Inhabited(Writers(s));
    var u :| u in Writers(s);
    assert PcOf(s, u) == Writing || PcOf(s, u).Draining?;
  }

  // ------------------------------------------------------------------ the sections, thread by thread

  /** Only thread t has moved, to p. */
  ghost predicate OnlyMoves(s: State, s': State, t: Tid, p: Pc) {
    forall u :: PcOf(s', u) == if u == t then p else PcOf(s, u)
  }

  /** A writer that has not entered yet goes in if nobody is in as a writer, and is at work if there are no readers. */
  lemma EntrantIs(s: State, c: Call)
    requires CallOk(s, c) && (c.WLock? || (c.Wake? && PcOf(s, c.t).Entering?))
    ensures var s' := Step(s, c);
      s'.writerEntered && s'.readerCount == s.readerCount &&
      OnlyMoves(s, s', c.t, if s.writerEntered then Entering(false) else if s.readerCount > 0 then Draining(false) else Writing)
  {}

  /** A writer that has entered is at work once there are no readers. */
  lemma DrainingIs(s: State, t: Tid)
    requires CallOk(s, Call.Wake(t)) && PcOf(s, t).Draining?
    ensures var s' := Step(s, Call.Wake(t));
      s'.writerEntered == s.writerEntered && s'.readerCount == s.readerCount &&
      OnlyMoves(s, s', t, if s.readerCount > 0 then Draining(false) else Writing)
  {}

  /** A reader goes in if no writer has entered and there is room. */
  lemma ReaderIs(s: State, c: Call)
    requires CallOk(s, c) && (c.RLock? || (c.Wake? && PcOf(s, c.t).WaitingToRead?))
    ensures var s' := Step(s, c); var waits := s.writerEntered || s.readerCount == MAX_READERS;
      s'.writerEntered == s.writerEntered && s'.readerCount == (if waits then s.readerCount else s.readerCount + 1) &&
      OnlyMoves(s, s', c.t, if waits then WaitingToRead(false) else Reading)
  {}

  /** A writer that leaves takes the flag down and notifies everyone on reader_. */
  lemma WUnlockIs(s: State, t: Tid)
    requires CallOk(s, Call.WUnlock(t))
    ensures var s' := Step(s, Call.WUnlock(t));
      !s'.writerEntered && s'.readerCount == s.readerCount &&
      forall u :: PcOf(s', u) == if u == t then Idle else match PcOf(s, u)
        case Entering(_) => Entering(true)
        case WaitingToRead(_) => WaitingToRead(true)
        case p => p
  {}

  /** A reader that leaves notifies the writer when it was the last one, and one sleeper on reader_ when the latch was full. */
  lemma RUnlockIs(s: State, t: Tid, chosen: Tid)
    requires Inv(s) && CallOk(s, Call.RUnlock(t, chosen))
    ensures var s' := Step(s, Call.RUnlock(t, chosen));
      s'.writerEntered == s.writerEntered && s'.readerCount == s.readerCount - 1 &&
      forall u :: PcOf(s', u) == if u == t then Idle else match PcOf(s, u)
        case Draining(false) => Draining(s.writerEntered && s.readerCount == 1)
        case Entering(false) => Entering(u == chosen && !s.writerEntered && s.readerCount == MAX_READERS)
        case WaitingToRead(false) => WaitingToRead(u == chosen && !s.writerEntered && s.readerCount == MAX_READERS)
        case p => p
  {
    assert t in Readers(s);
    if s.readerCount == 0 { Inhabited(Readers(s)); }
  }

  /** Once a writer has entered, nobody starts to read. */
  lemma WriterBarsReaders(s: State, c: Call, u: Tid)
    requires CallOk(s, c) && s.writerEntered && PcOf(Step(s, c), u) == Reading
    ensures PcOf(s, u) == Reading
  {
    if c.RLock? || (c.Wake? && PcOf(s, c.t).WaitingToRead?) { ReaderIs(s, c); }
  }

  /** Some thread has entered as a writer: it is at work, or waits for the readers to leave. */
  ghost predicate HasWriter(s: State) {
    exists w :: PcOf(s, w) == Writing || PcOf(s, w).Draining?
  }

  /** While a writer is at work or waits for the readers to leave, there are none but those it found. */
  lemma {:induction false} ReadersOnlyLeave(states: seq<State>, calls: seq<Call>, i: nat, j: nat)
    requires IsRun(states, calls) && i <= j <= |calls|
    requires forall k :: i <= k < j ==> HasWriter(states[k])
    ensures Readers(states[j]) <= Readers(states[i])
    decreases j - i
  {
    if i < j {
      assert HasWriter(states[j - 1]);
      ReadersOnlyLeave(states, calls, i, j - 1);
      RunKeeps(states, calls, j - 1);
      assert CallOk(states[j - 1], calls[j - 1]);
      var w :| PcOf(states[j - 1], w) == Writing || PcOf(states[j - 1], w).Draining?;
      WriterEntered(states[j - 1], w);
      forall u | u in Readers(states[j]) ensures u in Readers(states[j - 1]) {
        assert PcOf(states[j], u) == Reading;
        WriterBarsReaders(states[j - 1], calls[j - 1], u);
      }
    }
  }

  // ------------------------------------------------------------------ readers at the limit

  /** t sleeps in RLock without having been notified, although it could read. */
  predicate Missed(s: State, t: Tid) {
    PcOf(s, t) == WaitingToRead(false) && !s.writerEntered && s.readerCount < MAX_READERS
  }

  /** A reader leaves a full latch, and another sleeper than t is told. */
  predicate PassesOver(s: State, c: Call, t: Tid) {
    c.RUnlock? && c.chosen != t && PcOf(s, t) == WaitingToRead(false) && !s.writerEntered && s.readerCount == MAX_READERS
  }

  /** Exactly then is a reader missed. */
  lemma MissedStep(s: State, c: Call, t: Tid)
    requires Inv(s) && CallOk(s, c) && !Missed(s, t)
    ensures Missed(Step(s, c), t) <==> PassesOver(s, c, t)
  {
    if c.RUnlock? {
      assert c.t in Readers(s);
      if s.readerCount == 0 { Inhabited(Readers(s)); }
    }
  }

  /** No section up to the n-th passes over t. */
  ghost predicate NeverPassed(states: seq<State>, calls: seq<Call>, n: nat, t: Tid)
    requires n <= |calls| < |states|
  {
    forall i {:trigger calls[i]} :: 0 <= i < n ==> !PassesOver(states[i], calls[i], t)
  }

  /** t is not missed at any point of a run if and only if it is never passed over. */
  lemma {:induction false} MissedExactly(states: seq<State>, calls: seq<Call>, n: nat, t: Tid)
    requires IsRun(states, calls) && n <= |calls|
    ensures (forall i :: 0 <= i <= n ==> !Missed(states[i], t)) <==> NeverPassed(states, calls, n, t)
  {
    if n > 0 {
      MissedExactly(states, calls, n - 1, t);
      assert CallOk(states[n - 1], calls[n - 1]);
      RunKeeps(states, calls, n - 1);
      if !Missed(states[n - 1], t) { MissedStep(states[n - 1], calls[n - 1], t); }
    }
  }

  /** A reader asleep and not passed over has something to wait for: a writer, or a full latch. */
  lemma SleepingReaderWaits(states: seq<State>, calls: seq<Call>, n: nat, t: Tid)
    requires IsRun(states, calls) && n <= |calls| && PcOf(states[n], t) == WaitingToRead(false) && NeverPassed(states, calls, n, t)
    ensures states[n].readerCount == MAX_READERS || exists u :: PcOf(states[n], u) == Writing || PcOf(states[n], u).Draining?
  {
    MissedExactly(states, calls, n, t);
    RunKeeps(states, calls, n);
    assert !Missed(states[n], t);
    if states[n].writerEntered {
      Inhabited(Writers(states[n]));
      var u :| u in Writers(states[n]);
      assert PcOf(states[n], u) == Writing || PcOf(states[n], u).Draining?;
    }
  }

  /** In a run whose latch never fills up, it is a writer. */
  lemma SleepingReaderHasWriter(states: seq<State>, calls: seq<Call>, n: nat, t: Tid)
    requires IsRun(states, calls) && n <= |calls| && PcOf(states[n], t) == WaitingToRead(false)
    requires forall i :: 0 <= i <= n ==> states[i].readerCount < MAX_READERS
    ensures exists u :: PcOf(states[n], u) == Writing || PcOf(states[n], u).Draining?
  {
    SleepingReaderWaits(states, calls, n, t);
  }

  /** The run with one more call. */
  lemma RunOn(states: seq<State>, calls: seq<Call>, c: Call) returns (states': seq<State>, calls': seq<Call>)
    requires IsRun(states, calls) && CallOk(states[|calls|], c)
    ensures IsRun(states', calls') && |calls'| == |calls| + 1 && states'[|calls'|] == Step(states[|calls|], c)
    ensures calls'[|calls|] == c && states'[|calls|] == states[|calls|]
  {
    states', calls' := states + [Step(states[|calls|], c)], calls + [c];
    forall i | 0 <= i < |calls'| ensures CallOk(states'[i], calls'[i]) && states'[i + 1] == Step(states'[i], calls'[i]) {
      if i < |calls| { assert CallOk(states[i], calls[i]); }
    }
  }

  /** n readers are in, and nobody else has come. */
  ghost predicate OnlyReaders(s: State, n: nat) {
    !s.writerEntered && s.readerCount == n && forall t :: PcOf(s, t) == if 0 <= t < n then Reading else Idle
  }

  lemma {:induction false} ManyReaders(n: nat) returns (states: seq<State>, calls: seq<Call>)
    requires n <= MAX_READERS
    ensures IsRun(states, calls) && OnlyReaders(states[|calls|], n)
  {
    if n == 0 {
      states, calls := [START], [];
    } else {
      states, calls := ManyReaders(n - 1);
      var s := states[|calls|];
      assert PcOf(s, n - 1) == Idle;
      states, calls := RunOn(states, calls, RLock(n - 1));
      forall t ensures PcOf(states[|calls|], t) == if 0 <= t < n then Reading else Idle {
        assert PcOf(states[|calls|], t) == if t == n - 1 then Reading else PcOf(s, t);
      }
    }
  }

  /** The latch is full, two more readers go to sleep, one reader leaves: one of the two is passed over. */
  lemma PassedOver() returns (states: seq<State>, calls: seq<Call>)
    ensures IsRun(states, calls) && Missed(states[|calls|], MAX_READERS + 1)
  {
    var n := MAX_READERS;
    states, calls := ManyReaders(n);
    var s := states[|calls|];
    assert PcOf(s, 0) == Reading && PcOf(s, n) == Idle && PcOf(s, n + 1) == Idle;
    states, calls := RunOn(states, calls, RLock(n));
    states, calls := RunOn(states, calls, RLock(n + 1));
    states, calls := RunOn(states, calls, RUnlock(0, n));
  }

  // ------------------------------------------------------------------ the latch

  class ReaderWriterLatch {
    var writerEntered: bool
    var readerCount: nat
    var threads: map<Tid, Pc>

    ghost function Now(): State
      reads this
    {
      State(writerEntered, readerCount, threads)
    }

    constructor ()
      ensures Now() == START
    {
      writerEntered, readerCount, threads := false, 0, map[];
    }

    method WLock(t: Tid)
      requires Inv(Now()) && CallOk(Now(), Call.WLock(t))
      modifies this
      ensures Now() == Step(old(Now()), Call.WLock(t)) && Inv(Now())
    {
      StepKeeps(Now(), Call.WLock(t));
      EnterLoop(t);
    }

    method EnterLoop(t: Tid)
      modifies this
      ensures Now() == Enter(old(Now()), t)
    {
      if writerEntered {
        threads := threads[t := Entering(false)];
        return;
      }
      writerEntered := true;
      DrainLoop(t);
    }

    method DrainLoop(t: Tid)
      modifies this`threads
      ensures Now() == Drain(old(Now()), t)
    {
      threads := threads[t := if readerCount > 0 then Draining(false) else Writing];
    }

    method ReadLoop(t: Tid)
      modifies this
      ensures Now() == Read(old(Now()), t)
    {
      if writerEntered || readerCount == MAX_READERS {
        threads := threads[t := WaitingToRead(false)];
        return;
      }
      readerCount := readerCount + 1;
      threads := threads[t := Reading];
    }

    method WUnlock(t: Tid)
      requires Inv(Now()) && CallOk(Now(), Call.WUnlock(t))
      modifies this
      ensures Now() == Step(old(Now()), Call.WUnlock(t)) && Inv(Now())
    {
      StepKeeps(Now(), Call.WUnlock(t));
      threads := threads[t := Idle];
      writerEntered := false;
      threads := NotifyReaders(threads);
    }

    method RLock(t: Tid)
      requires Inv(Now()) && CallOk(Now(), Call.RLock(t))
      modifies this
      ensures Now() == Step(old(Now()), Call.RLock(t)) && Inv(Now())
    {
      StepKeeps(Now(), Call.RLock(t));
      ReadLoop(t);
    }

    method RUnlock(t: Tid, chosen: Tid)
      requires Inv(Now()) && CallOk(Now(), Call.RUnlock(t, chosen))
      modifies this
      ensures Now() == Step(old(Now()), Call.RUnlock(t, chosen)) && Inv(Now())
    {
      StepKeeps(Now(), Call.RUnlock(t, chosen));
      assert t in Readers(Now());
      threads := threads[t := Idle];
      readerCount := readerCount - 1;
      if writerEntered {
        if readerCount == 0 {
          threads := NotifyWriters(threads);
        }
      } else if readerCount == MAX_READERS - 1 {
        threads := NotifyOneReader(threads, chosen);
      }
    }

    /** A sleeping thread re-acquires the mutex and tests its condition. */
    method Wake(t: Tid)
      requires Inv(Now()) && CallOk(Now(), Call.Wake(t))
      modifies this
      ensures Now() == Step(old(Now()), Call.Wake(t)) && Inv(Now())
    {
      StepKeeps(Now(), Call.Wake(t));
      if threads[t].Entering? {
        EnterLoop(t);
      } else if threads[t].Draining? {
        DrainLoop(t);
      } else {
        ReadLoop(t);
      }
    }
  }
}
