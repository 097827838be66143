/**
 * Threads sharing one environment, interleaved at every lock: the per-thread counters behind
 * d_countmutex, LMDB's writer lock, and d_openmut around MDBEnv::openDB.
 */
module Threads {
  import opened Options
  import opened Transactions

  /** What a thread takes d_countmutex for. ReadRW comes in two flavours, by what it decides. */
  datatype CountOp = ReadRO | ReadRWForRW | ReadRWForRO | IncRO | DecRO | IncRW | DecRW

  /** Where a thread is between two steps that others can see. */
  datatype Pc =
    | Idle                     // in user code
    | WantCount(op: CountOp)   // about to lock d_countmutex
    | HasCount(op: CountOp)    // holding d_countmutex
    | WantWriter               // in mdb_txn_begin of a root RW transaction
    | StartRO                  // before mdb_txn_begin of an RO transaction
    | EndRO                    // counter down, before mdb_txn_commit of an RO transaction
    | WantOpen                 // in MDBEnv::openDB, about to lock d_openmut
    | InDbiOpen                // in MDBEnv::openDB, transaction begun and counted, before mdb_dbi_open
    | EndRW                    // in MDBEnv::openDB, before the end of its RW transaction
    | Unwind                   // in MDBEnv::openDB, before d_openmut is released

  /**
   * A thread: its live LMDB transactions, RO ones and the depth of its RW one with children; whether it
   * holds d_openmut; whether it has called mdb_dbi_open inside MDBEnv::openDB and not yet ended that transaction.
   */
  datatype Local = Local(pc: Pc, ro: nat, rw: nat, opening: bool, dbi: bool)

  datatype State = State(
    threads: map<Thread, Local>,
    roOut: map<Thread, int>,
    rwOut: map<Thread, int>,
    count: Option<Thread>,
    writer: Option<Thread>,
    open: Option<Thread>,
    rdonly: bool)

  /** A client's call, or the next step inside one; ok is what LMDB answers where it can fail. */
  datatype Act = CallRW | CallRO | CallChild(ok: bool) | CallEndRW | CallEndRO | CallOpenDB | Go(ok: bool)

  function Init(ts: set<Thread>, rdonly: bool): State {
    State(map t | t in ts :: Local(Idle, 0, 0, false, false), map[], map[], None, None, None, rdonly)
  }

  /** What a step does to a lock. */
  datatype LockMove = Keep | Take | Release

  /** What one step does: to the thread, to its two counters and to the three locks. */
  datatype Delta = Delta(l: Local, ro: int, rw: int, count: LockMove, writer: LockMove, open: LockMove)

  /** What a thread sees of the rest: its counters and which locks are free. */
  datatype Sight = Sight(ro: int, rw: int, countFree: bool, writerFree: bool, openFree: bool, rdonly: bool)

  function Only(l: Local, x: Sight): Delta {
    Delta(l, x.ro, x.rw, Keep, Keep, Keep)
  }

  /** A call is over, or an exception leaves it: inside MDBEnv::openDB the lock guard still has to run. */
  function Return(l: Local): Local {
    l.(pc := if l.opening then Unwind else Idle)
  }

  /** The transaction is counted: back to the client, or on to mdb_dbi_open. */
  function Begun(l: Local): Local {
    l.(pc := if l.opening then InDbiOpen else Idle)
  }

  /** The body of one of the counter functions, up to and including the release of d_countmutex. */
  function Counted(l: Local, x: Sight, op: CountOp): Delta {
    var d := Only(l, x).(count := Release);
    match op
    case ReadRO => d.(l := if x.ro != 0 then Return(l) else l.(pc := WantCount(ReadRWForRW)))
    case ReadRWForRW => d.(l := if x.rw != 0 then Return(l) else l.(pc := WantWriter))
    case ReadRWForRO => d.(l := if x.rw != 0 then Return(l) else l.(pc := StartRO))
    case IncRO => d.(l := Begun(l), ro := x.ro + 1)
    case IncRW => d.(l := Begun(l), rw := x.rw + 1)
    case DecRO => d.(l := l.(pc := EndRO), ro := x.ro - 1)
    case DecRW => d.(l := Return(l), rw := x.rw - 1)
  }

  /** mdb_txn_commit or mdb_txn_abort of the innermost RW transaction; the root's releases the writer lock. */
  function EndWriter(l: Local, x: Sight): Delta {
    Only(l.(rw := if l.rw > 0 then l.rw - 1 else 0, dbi := false, pc := WantCount(DecRW)), x)
      .(writer := if l.rw == 1 then Release else Keep)
  }

  /** The next step of a thread inside a call; a thread that has to wait for a lock stays where it is. */
  function GoOn(l: Local, x: Sight, ok: bool): Delta {
    match l.pc
    case Idle => Only(l, x)
    case WantCount(op) => if x.countFree then Only(l.(pc := HasCount(op)), x).(count := Take) else Only(l, x)
    case HasCount(op) => Counted(l, x, op)
    case WantWriter =>
      if !ok then Only(Return(l), x)
      else if x.writerFree then Only(l.(pc := WantCount(IncRW), rw := l.rw + 1), x).(writer := Take)
      else Only(l, x)
    case StartRO => Only(if ok then l.(pc := WantCount(IncRO), ro := l.ro + 1) else Return(l), x)
    case EndRO => Only(Return(l).(ro := if l.ro > 0 then l.ro - 1 else 0, dbi := false), x)
    case WantOpen =>
      if x.openFree
      then Only(l.(opening := true, pc := WantCount(if x.rdonly then ReadRWForRO else ReadRO)), x).(open := Take)
      else Only(l, x)
    case InDbiOpen => Only(l.(dbi := true, pc := if x.rdonly then WantCount(DecRO) else EndRW), x)
    case EndRW => EndWriter(l, x)
    case Unwind => Only(l.(opening := false, pc := Idle), x).(open := Release)
  }

  /** A client's call, from user code. What is not possible changes nothing. */
  function Call(l: Local, x: Sight, a: Act): Delta {
    match a
    case CallRW => Only(l.(pc := WantCount(ReadRO)), x)
    case CallRO => Only(l.(pc := WantCount(ReadRWForRO)), x)
    case CallChild(ok) => if l.rw == 0 || !ok then Only(l, x) else Only(l.(rw := l.rw + 1, pc := WantCount(IncRW)), x)
    case CallEndRW => if l.rw == 0 then Only(l, x) else EndWriter(l, x)
    case CallEndRO => if l.ro == 0 then Only(l, x) else Only(l.(pc := WantCount(DecRO)), x)
    case CallOpenDB => Only(l.(pc := WantOpen), x)
    case Go(_) => Only(l, x)
  }

  function Next(l: Local, x: Sight, a: Act): Delta {
    if a.Go? then GoOn(l, x, a.ok) else if l.pc == Idle then Call(l, x, a) else Only(l, x)
  }

  function Moved(lock: Option<Thread>, t: Thread, m: LockMove): Option<Thread> {
    match m
    case Keep => lock
    case Take => Some(t)
    case Release => None
  }

  function See(s: State, t: Thread): Sight {
    Sight(CountOf(s.roOut, t), CountOf(s.rwOut, t), s.count == None, s.writer == None, s.open == None, s.rdonly)
  }

  /** One step of one thread. */
  function Step(s: State, t: Thread, a: Act): State {
    if t !in s.threads then s
    else
      var d := Next(s.threads[t], See(s, t), a);
      State(s.threads[t := d.l], s.roOut[t := d.ro], s.rwOut[t := d.rw],
            Moved(s.count, t, d.count), Moved(s.writer, t, d.writer), Moved(s.open, t, d.open), s.rdonly)
  }

  function Run(s: State, trace: seq<(Thread, Act)>): State
    decreases |trace|
  {
    if trace == [] then s else Run(Step(s, trace[0].0, trace[0].1), trace[1..])
  }

  // ----- the invariant -----

  /** What being about to count, or counting, says about a thread's transactions. */
  predicate SensibleIn(op: CountOp, l: Local, rdonly: bool) {
    match op
    case ReadRO => !l.dbi && (l.opening ==> !rdonly)
    case ReadRWForRW => !l.dbi && l.ro == 0 && (l.opening ==> !rdonly)
    case ReadRWForRO => !l.dbi && (l.opening ==> rdonly)
    case IncRO => !l.dbi && l.ro > 0 && (l.opening ==> rdonly)
    case IncRW => !l.dbi && l.rw > 0 && (l.opening ==> !rdonly)
    case DecRO => l.ro > 0 && (l.dbi ==> l.opening)
    case DecRW => !l.dbi && l.ro == 0
  }

  /** What a thread's position says about its transactions. */
  predicate Sensible(l: Local, rdonly: bool) {
    !(l.ro > 0 && l.rw > 0) &&
    match l.pc
    case Idle => !l.opening && !l.dbi
    case WantCount(op) => SensibleIn(op, l, rdonly)
    case HasCount(op) => SensibleIn(op, l, rdonly)
    case WantWriter => !l.dbi && l.ro == 0 && l.rw == 0 && (l.opening ==> !rdonly)
    case StartRO => !l.dbi && l.rw == 0 && (l.opening ==> rdonly)
    case EndRO => l.ro > 0 && (l.dbi ==> l.opening)
    case WantOpen => !l.opening && !l.dbi
    case InDbiOpen => l.opening && !l.dbi && if rdonly then l.ro > 0 else l.rw > 0
    case EndRW => l.opening && l.rw > 0
    case Unwind => l.opening && !l.dbi
  }

  /** The step the thread is at concerns this count. */
  predicate At(l: Local, op: CountOp) {
    l.pc == WantCount(op) || l.pc == HasCount(op)
  }

  /** The counters of a thread, up to the steps between an LMDB call and its count. */
  predicate CountsRight(l: Local, ro: int, rw: int) {
    && ro == l.ro - (if At(l, IncRO) || l.pc == EndRO then 1 else 0)
    && rw == l.rw - (if At(l, IncRW) then 1 else 0) + (if At(l, DecRW) then 1 else 0)
  }

  /** A thread holds the locks its position says it holds. */
  predicate LocksRight(l: Local, count: bool, writer: bool, open: bool) {
    count == l.pc.HasCount? && writer == (l.rw > 0) && open == l.opening
  }

  ghost predicate Right(s: State, t: Thread)
    requires t in s.threads
  {
    var l := s.threads[t];
    && Sensible(l, s.rdonly)
    && CountsRight(l, CountOf(s.roOut, t), CountOf(s.rwOut, t))
    && LocksRight(l, s.count == Some(t), s.writer == Some(t), s.open == Some(t))
  }

  ghost predicate Held(lock: Option<Thread>, s: State) {
    lock.Some? ==> lock.value in s.threads
  }

  ghost predicate Inv(s: State) {
    (forall t :: t in s.threads ==> Right(s, t)) && Held(s.count, s) && Held(s.writer, s) && Held(s.open, s)
  }

  lemma InitIsGood(ts: set<Thread>, rdonly: bool)
    ensures Inv(Init(ts, rdonly))
  {
  }

  /** A lock is only taken when it is free, and only released by the thread whose position says it holds it. */
  ghost predicate Fair(m: LockMove, free: bool, held: bool) {
    (m == Take ==> free) && (m == Release ==> held)
  }

  predicate After(m: LockMove, held: bool) {
    m == Take || (m == Keep && held)
  }

  /** A step leads to a sensible position, right counters and the locks that go with it. */
  ghost predicate GoodStep(l: Local, x: Sight, d: Delta) {
    && Fair(d.count, x.countFree, l.pc.HasCount?)
    && Fair(d.writer, x.writerFree, l.rw > 0)
    && Fair(d.open, x.openFree, l.opening)
    && Sensible(d.l, x.rdonly)
    && CountsRight(d.l, d.ro, d.rw)
    && LocksRight(d.l, After(d.count, l.pc.HasCount?), After(d.writer, l.rw > 0), After(d.open, l.opening))
  }

  lemma ReadIsGood(l: Local, x: Sight, op: CountOp)
    requires Sensible(l, x.rdonly) && CountsRight(l, x.ro, x.rw) && l.pc == HasCount(op)
    requires op in {ReadRO, ReadRWForRW, ReadRWForRO}
    ensures GoodStep(l, x, Counted(l, x, op))
  {
  }

  lemma IncIsGood(l: Local, x: Sight, op: CountOp)
    requires Sensible(l, x.rdonly) && CountsRight(l, x.ro, x.rw) && l.pc == HasCount(op)
    requires op in {IncRO, IncRW}
    ensures GoodStep(l, x, Counted(l, x, op))
  {
  }

  lemma DecIsGood(l: Local, x: Sight, op: CountOp)
    requires Sensible(l, x.rdonly) && CountsRight(l, x.ro, x.rw) && l.pc == HasCount(op)
    requires op in {DecRO, DecRW}
    ensures GoodStep(l, x, Counted(l, x, op))
  {
  }

  lemma CountedIsGood(l: Local, x: Sight, op: CountOp)
    requires Sensible(l, x.rdonly) && CountsRight(l, x.ro, x.rw) && l.pc == HasCount(op)
    ensures GoodStep(l, x, Counted(l, x, op))
  {
    hide Sensible, CountsRight, GoodStep, Counted;
    if op in {IncRO, IncRW} {
      IncIsGood(l, x, op);
    } else if op in {DecRO, DecRW} {
      DecIsGood(l, x, op);
    } else {
      ReadIsGood(l, x, op);
    }
  }

  lemma EndWriterIsGood(l: Local, x: Sight)
    requires Sensible(l, x.rdonly) && CountsRight(l, x.ro, x.rw) && (l.pc == EndRW || (l.pc == Idle && l.rw > 0))
    ensures GoodStep(l, x, EndWriter(l, x))
  {
  }

  lemma CountWaitIsGood(l: Local, x: Sight, op: CountOp, ok: bool)
    requires Sensible(l, x.rdonly) && CountsRight(l, x.ro, x.rw) && l.pc == WantCount(op)
    ensures GoodStep(l, x, GoOn(l, x, ok))
  {
  }

  lemma LockWaitIsGood(l: Local, x: Sight, ok: bool)
    requires Sensible(l, x.rdonly) && CountsRight(l, x.ro, x.rw) && (l.pc == WantWriter || l.pc == WantOpen)
    ensures GoodStep(l, x, GoOn(l, x, ok))
  {
  }

  lemma ReadOnlyStepIsGood(l: Local, x: Sight, ok: bool)
    requires Sensible(l, x.rdonly) && CountsRight(l, x.ro, x.rw) && (l.pc == StartRO || l.pc == EndRO)
    ensures GoodStep(l, x, GoOn(l, x, ok))
  {
  }

  lemma OtherStepIsGood(l: Local, x: Sight, ok: bool)
    requires Sensible(l, x.rdonly) && CountsRight(l, x.ro, x.rw)
    requires l.pc == Idle || l.pc == InDbiOpen || l.pc == Unwind
    ensures GoodStep(l, x, GoOn(l, x, ok))
  {
  }

  lemma GoIsGood(l: Local, x: Sight, ok: bool)
    requires Sensible(l, x.rdonly) && CountsRight(l, x.ro, x.rw)
    ensures GoodStep(l, x, GoOn(l, x, ok))
  {
    hide GoodStep, Sensible, CountsRight;
    match l.pc
    case HasCount(op) => CountedIsGood(l, x, op);
    case EndRW => EndWriterIsGood(l, x);
    case WantCount(op) => CountWaitIsGood(l, x, op, ok);
    case WantWriter => LockWaitIsGood(l, x, ok);
    case WantOpen => LockWaitIsGood(l, x, ok);
    case StartRO => ReadOnlyStepIsGood(l, x, ok);
    case EndRO => ReadOnlyStepIsGood(l, x, ok);
    case _ => OtherStepIsGood(l, x, ok);
  }

  lemma CallIsGood(l: Local, x: Sight, a: Act)
    requires Sensible(l, x.rdonly) && CountsRight(l, x.ro, x.rw) && l.pc == Idle
    ensures GoodStep(l, x, Call(l, x, a))
  {
    hide EndWriter;
    if a == CallEndRW && l.rw > 0 {
      EndWriterIsGood(l, x);
    }
  }

  lemma NextIsGood(l: Local, x: Sight, a: Act)
    requires Sensible(l, x.rdonly) && CountsRight(l, x.ro, x.rw)
    ensures GoodStep(l, x, Next(l, x, a))
  {
    if a.Go? {
      GoIsGood(l, x, a.ok);
    } else if l.pc == Idle {
      CallIsGood(l, x, a);
    }
  }

  lemma OwnStaysRight(s: State, t: Thread, a: Act)
    requires t in s.threads && Right(s, t)
    ensures Right(Step(s, t, a), t)
  {
    hide Next, Sensible, CountsRight;
    NextIsGood(s.threads[t], See(s, t), a);
  }

  lemma OtherStaysRight(s: State, t: Thread, a: Act, u: Thread)
    requires t in s.threads && u in s.threads && u != t && Right(s, t) && Right(s, u)
    ensures Right(Step(s, t, a), u)
  {
    hide Next, Sensible, CountsRight;
    NextIsGood(s.threads[t], See(s, t), a);
  }

  /** A step touches its own thread, its own counters, and locks that are free or its own. */
  lemma StepKeepsInv(s: State, t: Thread, a: Act)
    requires Inv(s)
    ensures Inv(Step(s, t, a))
  {
    hide Next, Right;
    if t in s.threads {
      OwnStaysRight(s, t, a);
      forall u | u in s.threads && u != t ensures Right(Step(s, t, a), u) {
        OtherStaysRight(s, t, a, u);
      }
    }
  }

  lemma {:induction false} RunKeepsInv(s: State, trace: seq<(Thread, Act)>)
    requires Inv(s)
    ensures Inv(Run(s, trace))
    decreases |trace|
  {
    if trace != [] {
      StepKeepsInv(s, trace[0].0, trace[0].1);
      RunKeepsInv(Step(s, trace[0].0, trace[0].1), trace[1..]);
    }
  }

  // ----- what the counters promise -----

  /** What holds of a thread's counters at every moment. */
  ghost predicate CountersPolice(s: State, t: Thread)
    requires t in s.threads
  {
    var l, ro, rw := s.threads[t], CountOf(s.roOut, t), CountOf(s.rwOut, t);
    && 0 <= ro && 0 <= rw && !(ro > 0 && rw > 0)
    && !(l.ro > 0 && l.rw > 0)
    && (ro == l.ro || (ro == l.ro - 1 && (At(l, IncRO) || l.pc == EndRO)))
    && (rw == l.rw || (rw == l.rw - 1 && At(l, IncRW)) || (rw == l.rw + 1 && At(l, DecRW)))
    && (l.pc == WantWriter ==> s.writer != Some(t))
  }

  /**
   * In every interleaving: no thread has live (or counted) transactions of both kinds, each counter is
   * the number of that thread's live transactions of that kind except between an LMDB call and its count,
   * and no thread waits for the writer lock while it holds it.
   */
  lemma CountersAreRight(ts: set<Thread>, rdonly: bool, trace: seq<(Thread, Act)>, t: Thread)
    requires t in Run(Init(ts, rdonly), trace).threads
    ensures CountersPolice(Run(Init(ts, rdonly), trace), t)
  {
    hide Run, Inv, CountersPolice;
    InitIsGood(ts, rdonly);
    RunKeepsInv(Init(ts, rdonly), trace);
    InvPolices(Run(Init(ts, rdonly), trace), t);
  }

  lemma InvPolices(s: State, t: Thread)
    requires Inv(s) && t in s.threads
    ensures CountersPolice(s, t)
  {
    assert Right(s, t);
  }

  /** Inside MDBEnv::openDB, with a transaction that is about to call mdb_dbi_open or has called it. */
  predicate UsesDbiOpen(l: Local) {
    l.dbi || l.pc == InDbiOpen
  }

  /**
   * At most one thread is between mdb_dbi_open inside MDBEnv::openDB, whether that succeeds or not, and the
   * end of the transaction it was called in.
   */
  lemma OneDbiOpenAtATime(ts: set<Thread>, rdonly: bool, trace: seq<(Thread, Act)>, t: Thread, u: Thread)
    requires var s := Run(Init(ts, rdonly), trace);
             t in s.threads && u in s.threads && UsesDbiOpen(s.threads[t]) && UsesDbiOpen(s.threads[u])
    ensures t == u
  {
    hide Run, Inv, UsesDbiOpen;
    InitIsGood(ts, rdonly);
    RunKeepsInv(Init(ts, rdonly), trace);
    DbiOpenIsLocked(Run(Init(ts, rdonly), trace), t);
    DbiOpenIsLocked(Run(Init(ts, rdonly), trace), u);
  }

  lemma DbiOpenIsLocked(s: State, t: Thread)
    requires Inv(s) && t in s.threads && UsesDbiOpen(s.threads[t])
    ensures s.open == Some(t)
  {
    assert Right(s, t);
  }

  // ----- who waits for whom -----

  /** The holder of the lock a thread is waiting for. */
  function WaitsFor(s: State, t: Thread): Option<Thread> {
    if t !in s.threads then None
    else
      match s.threads[t].pc
      case WantCount(_) => s.count
      case WantWriter => s.writer
      case WantOpen => s.open
      case _ => None
  }

  /** Every thread in the list waits for the next one, and the last for the first. */
  ghost predicate IsCycle(s: State, c: seq<Thread>) {
    c != [] && forall i :: 0 <= i < |c| ==> WaitsFor(s, c[i]) == Some(c[(i + 1) % |c|])
  }

  /** A thread calls MDBEnv::openDB with an RW transaction of its own, while the one inside waits for the writer lock. */
  ghost predicate Embrace(s: State, t: Thread, u: Thread) {
    && t in s.threads && u in s.threads
    && s.threads[t].pc == WantOpen && s.threads[t].rw > 0 && s.open == Some(u)
    && s.threads[u].pc == WantWriter
  }

  lemma CycleIsClosed(s: State, c: seq<Thread>, t: Thread)
    requires IsCycle(s, c) && t in c
    ensures WaitsFor(s, t).Some? && WaitsFor(s, t).value in c
  {
    var i :| 0 <= i < |c| && c[i] == t;
    assert 0 <= (i + 1) % |c| < |c|;
  }

  /** The holder of d_countmutex waits for nothing, so whoever waits for a waiting thread wants another lock. */
  lemma NotForCount(s: State, t: Thread, u: Thread)
    requires Inv(s) && WaitsFor(s, t) == Some(u) && WaitsFor(s, u).Some?
    ensures t in s.threads && u in s.threads
    ensures s.threads[t].pc == WantWriter || s.threads[t].pc == WantOpen
    ensures s.threads[t].pc == WantWriter ==> s.threads[u].rw > 0 && s.threads[u].pc != WantWriter
    ensures s.threads[t].pc == WantOpen ==> s.threads[u].pc != WantOpen && s.open == Some(u)
  {
    assert Right(s, t);
    assert u in s.threads;
    assert Right(s, u);
  }

  /**
   * The waits form a cycle exactly when one thread calls MDBEnv::openDB while it holds an RW transaction
   * and the thread inside MDBEnv::openDB waits for the writer lock.
   */
  lemma CycleIsEmbrace(s: State)
    requires Inv(s)
    ensures (exists c :: IsCycle(s, c)) <==> exists t, u :: Embrace(s, t, u)
  {
    hide Inv, WaitsFor, IsCycle;
    if c :| IsCycle(s, c) {
      var t, u := CycleHasEmbrace(s, c);
    }
    if t, u :| Embrace(s, t, u) {
      EmbraceIsCycle(s, t, u);
    }
  }

  /** Along a cycle, waiting for the writer lock and waiting for d_openmut alternate. */
  lemma CycleHasEmbrace(s: State, c: seq<Thread>) returns (t: Thread, u: Thread)
    requires Inv(s) && IsCycle(s, c)
    ensures Embrace(s, t, u)
  {
    hide Inv, WaitsFor, IsCycle;
    CycleStarts(s, c);
    var p := WaitsFor(s, c[0]).value;
    CycleIsClosed(s, c, p);
    var q := WaitsFor(s, p).value;
    CycleIsClosed(s, c, q);
    var r := WaitsFor(s, q).value;
    CycleIsClosed(s, c, r);
    NotForCount(s, c[0], p);
    NotForCount(s, p, q);
    NotForCount(s, q, r);
    var v := WaitsFor(s, r).value;
    CycleIsClosed(s, c, v);
    NotForCount(s, r, v);
    if s.threads[c[0]].pc == WantWriter {
      t, u := p, q;
    } else {
      t, u := q, r;
    }
  }

  lemma CycleStarts(s: State, c: seq<Thread>)
    requires IsCycle(s, c)
    ensures c != [] && WaitsFor(s, c[0]).Some? && WaitsFor(s, c[0]).value in c
  {
    CycleIsClosed(s, c, c[0]);
  }

  lemma EmbraceIsCycle(s: State, t: Thread, u: Thread)
    requires Inv(s) && Embrace(s, t, u)
    ensures IsCycle(s, [t, u])
  {
    assert Right(s, t) && Right(s, u);
  }

  /** The client's rule: no thread calls MDBEnv::openDB while it holds an RW transaction. */
  ghost predicate KeepsRule(s: State, trace: seq<(Thread, Act)>)
    decreases |trace|
  {
    trace != [] ==>
      && (trace[0].1 == CallOpenDB && trace[0].0 in s.threads ==> s.threads[trace[0].0].rw == 0)
      && KeepsRule(Step(s, trace[0].0, trace[0].1), trace[1..])
  }

  ghost predicate Ruled(s: State) {
    forall t :: t in s.threads && s.threads[t].pc == WantOpen ==> s.threads[t].rw == 0
  }

  lemma StepStaysRuled(s: State, t: Thread, a: Act)
    requires Ruled(s) && (a == CallOpenDB && t in s.threads ==> s.threads[t].rw == 0)
    ensures Ruled(Step(s, t, a))
  {
    hide Counted, EndWriter;
    if t in s.threads {
      var l, x := s.threads[t], See(s, t);
      if Next(l, x, a).l.pc == WantOpen {
        AsksToOpen(l, x, a);
      }
    }
  }

  lemma AsksToOpen(l: Local, x: Sight, a: Act)
    requires Next(l, x, a).l.pc == WantOpen
    ensures Next(l, x, a).l.rw == l.rw && (l.pc == WantOpen || a == CallOpenDB)
  {
    hide Counted;
    if l.pc.HasCount? {
      CountingIsNotAsking(l, x, l.pc.op);
    }
  }

  lemma CountingIsNotAsking(l: Local, x: Sight, op: CountOp)
    ensures Counted(l, x, op).l.pc != WantOpen
  {
  }

  lemma {:induction false} RunStaysRuled(s: State, trace: seq<(Thread, Act)>)
    requires Ruled(s) && KeepsRule(s, trace)
    ensures Ruled(Run(s, trace))
    decreases |trace|
  {
    if trace != [] {
      StepStaysRuled(s, trace[0].0, trace[0].1);
      RunStaysRuled(Step(s, trace[0].0, trace[0].1), trace[1..]);
    }
  }

  /** Under that rule no run ever reaches a cycle of waits among d_openmut, the writer lock and d_countmutex. */
  lemma RuleForbidsCycles(ts: set<Thread>, rdonly: bool, trace: seq<(Thread, Act)>, c: seq<Thread>)
    requires KeepsRule(Init(ts, rdonly), trace)
    ensures !IsCycle(Run(Init(ts, rdonly), trace), c)
  {
    hide Run;
    InitIsGood(ts, rdonly);
    RunKeepsInv(Init(ts, rdonly), trace);
    RunStaysRuled(Init(ts, rdonly), trace);
    CycleIsEmbrace(Run(Init(ts, rdonly), trace));
  }

  ghost predicate Reaches(s: State, r: State) {
    exists trace :: Run(s, trace) == r
  }

  lemma {:induction false} RunAppends(s: State, a: seq<(Thread, Act)>, b: seq<(Thread, Act)>)
    ensures Run(s, a + b) == Run(Run(s, a), b)
    decreases |a|
  {
    if a == [] {
      assert a + b == b;
    } else {
      assert (a + b)[1..] == a[1..] + b;
      RunAppends(Step(s, a[0].0, a[0].1), a[1..], b);
    }
  }

  lemma ReachesOn(s: State, r: State, t: Thread, a: Act)
    requires Reaches(s, r)
    ensures Reaches(s, Step(r, t, a))
  {
    hide Step;
    var trace :| Run(s, trace) == r;
    RunAppends(s, trace, [(t, a)]);
    assert Run(Step(r, t, a), [(t, a)][1..]) == Step(r, t, a);
  }

  /** The other threads' counts are the same. */
  ghost predicate SameElsewhere(r: State, r': State, t: Thread) {
    forall u :: u != t ==> CountOf(r'.roOut, u) == CountOf(r.roOut, u) && CountOf(r'.rwOut, u) == CountOf(r.rwOut, u)
  }

  /** A step that is the given change to the thread, its counters and the locks. */
  lemma StepIs(s: State, r: State, t: Thread, a: Act, d: Delta) returns (r': State)
    requires Reaches(s, r) && t in r.threads && d == Next(r.threads[t], See(r, t), a)
    ensures Reaches(s, r') && r'.threads == r.threads[t := d.l] && r'.rdonly == r.rdonly
    ensures CountOf(r'.roOut, t) == d.ro && CountOf(r'.rwOut, t) == d.rw && SameElsewhere(r, r', t)
    ensures r'.count == Moved(r.count, t, d.count) && r'.writer == Moved(r.writer, t, d.writer)
    ensures r'.open == Moved(r.open, t, d.open)
  {
    hide Reaches, Next;
    ReachesOn(s, r, t, a);
    r' := Step(r, t, a);
  }

  /** With d_countmutex free, a thread takes it, does its counting and releases it in two steps. */
  lemma CountsAlone(s: State, r: State, t: Thread, op: CountOp) returns (r': State)
    requires Reaches(s, r) && t in r.threads && r.threads[t].pc == WantCount(op) && r.count == None
    ensures var d := Counted(r.threads[t].(pc := HasCount(op)), See(r, t), op);
            && Reaches(s, r') && r'.threads == r.threads[t := d.l]
            && CountOf(r'.roOut, t) == d.ro && CountOf(r'.rwOut, t) == d.rw && SameElsewhere(r, r', t)
    ensures r'.count == None && r'.writer == r.writer && r'.open == r.open && r'.rdonly == r.rdonly
  {
    hide Reaches, Counted;
    var x, held := See(r, t), r.threads[t].(pc := HasCount(op));
    r' := StepIs(s, r, t, Go(true), Only(held, x).(count := Take));
    CountingKeepsLocks(held, See(r', t), op);
    CountingLooksAtCounts(held, x, See(r', t), op);
    r' := StepIs(s, r', t, Go(true), Counted(held, See(r', t), op));
  }

  lemma CountingKeepsLocks(l: Local, x: Sight, op: CountOp)
    ensures var d := Counted(l, x, op); d.count == Release && d.writer == Keep && d.open == Keep
  {
  }

  lemma CountingLooksAtCounts(l: Local, x: Sight, y: Sight, op: CountOp)
    requires x.ro == y.ro && x.rw == y.rw
    ensures Counted(l, x, op) == Counted(l, y, op)
  {
  }

  /** With its counts at zero, a thread passes both checks for an RW transaction. */
  lemma PassesChecks(s: State, r: State, t: Thread, l: Local) returns (r': State)
    requires Reaches(s, r) && t in r.threads && r.threads[t] == l && l.pc == WantCount(ReadRO)
    requires r.count == None && CountOf(r.roOut, t) == 0 && CountOf(r.rwOut, t) == 0
    ensures Reaches(s, r') && r'.threads == r.threads[t := l.(pc := WantWriter)]
    ensures r'.count == None && r'.writer == r.writer && r'.open == r.open && r'.rdonly == r.rdonly
    ensures SameElsewhere(r, r', t)
  {
    hide Reaches, Step;
    r' := CountsAlone(s, r, t, ReadRO);
    r' := CountsAlone(s, r', t, ReadRWForRW);
  }

  /** One thread, alone for eight steps, gets its RW transaction. */
  lemma GetsWriter(s: State, r: State, t: Thread) returns (r': State)
    requires Reaches(s, r) && t in r.threads && r.threads[t] == Local(Idle, 0, 0, false, false)
    requires r.count == None && r.writer == None && CountOf(r.roOut, t) == 0 && CountOf(r.rwOut, t) == 0
    ensures Reaches(s, r') && r'.threads == r.threads[t := Local(Idle, 0, 1, false, false)]
    ensures r'.count == None && r'.writer == Some(t) && r'.open == r.open && r'.rdonly == r.rdonly
    ensures SameElsewhere(r, r', t)
  {
    hide Reaches, Step;
    var l := Local(WantCount(ReadRO), 0, 0, false, false);
    r' := StepIs(s, r, t, CallRW, Only(l, See(r, t)));
    r' := PassesChecks(s, r', t, l);
    l := Local(WantCount(IncRW), 0, 1, false, false);
    r' := StepIs(s, r', t, Go(true), Only(l, See(r', t)).(writer := Take));
    r' := CountsAlone(s, r', t, IncRW);
  }

  /** A thread inside MDBEnv::openDB comes as far as waiting for the writer lock. */
  lemma GetsToOpen(s: State, r: State, t: Thread) returns (r': State)
    requires Reaches(s, r) && t in r.threads && r.threads[t] == Local(Idle, 0, 0, false, false)
    requires r.count == None && r.open == None && !r.rdonly
    requires CountOf(r.roOut, t) == 0 && CountOf(r.rwOut, t) == 0
    ensures Reaches(s, r') && r'.threads == r.threads[t := Local(WantWriter, 0, 0, true, false)]
    ensures r'.open == Some(t) && r'.writer == r.writer
  {
    hide Reaches, Step;
    var l := Local(WantOpen, 0, 0, false, false);
    r' := StepIs(s, r, t, CallOpenDB, Only(l, See(r, t)));
    l := Local(WantCount(ReadRO), 0, 0, true, false);
    r' := StepIs(s, r', t, Go(true), Only(l, See(r', t)).(open := Take));
    r' := PassesChecks(s, r', t, l);
  }

  /** Without the rule two threads can lock each other out for good. */
  lemma BreakingTheRuleDeadlocks() returns (s: State, c: seq<Thread>)
    ensures Reaches(Init({0, 1}, false), s) && IsCycle(s, c)
  {
    hide Step;
    var start := Init({0, 1}, false);
    assert Reaches(start, start) by {
      assert Run(start, []) == start;
    }
    var one := GetsWriter(start, start, 0);
    var two := GetsToOpen(start, one, 1);
    s := StepIs(start, two, 0, CallOpenDB, Only(Local(WantOpen, 0, 1, false, false), See(two, 0)));
    c := [0, 1];
  }

  // ----- every call comes to its end -----

  function CountRank(op: CountOp): nat {
    match op
    case DecRW => 2
    case DecRO => 3
    case IncRO => 6
    case IncRW => 6
    case ReadRWForRW => 9
    case ReadRWForRO => 9
    case ReadRO => 11
  }

  /** How many steps a call has left at most, waits not counted. */
  function Rank(pc: Pc): nat {
    match pc
    case Idle => 0
    case Unwind => 1
    case EndRO => 2
    case HasCount(op) => CountRank(op)
    case WantCount(op) => CountRank(op) + 1
    case EndRW => 4
    case InDbiOpen => 5
    case WantWriter => 8
    case StartRO => 8
    case WantOpen => 13
  }

  /** No lock stands in the way of the thread's next step. */
  ghost predicate Unhindered(l: Local, x: Sight) {
    && (l.pc.WantCount? ==> x.countFree)
    && (l.pc == WantWriter ==> x.writerFree)
    && (l.pc == WantOpen ==> x.openFree)
  }

  lemma CountingComesNearer(l: Local, x: Sight, op: CountOp)
    ensures Rank(Counted(l, x, op).l.pc) < CountRank(op)
  {
  }

  lemma StepComesNearer(l: Local, x: Sight, ok: bool)
    requires l.pc != Idle && Unhindered(l, x)
    ensures Rank(GoOn(l, x, ok).l.pc) < Rank(l.pc)
  {
    hide Counted;
    if l.pc.HasCount? {
      CountingComesNearer(l, x, l.pc.op);
    }
  }

  /**
   * A thread inside a call that waits for nobody comes nearer to the end of the call with each of its steps,
   * whatever LMDB answers; steps of other threads do not set it back. A call takes at most 13 steps.
   */
  lemma CallsGoOn(s: State, t: Thread, ok: bool, u: Thread, a: Act)
    requires t in s.threads && s.threads[t].pc != Idle && u != t
    ensures WaitsFor(s, t) == None ==> Rank(Step(s, t, Go(ok)).threads[t].pc) < Rank(s.threads[t].pc) <= 13
    ensures t in Step(s, u, a).threads && Step(s, u, a).threads[t] == s.threads[t]
  {
    hide GoOn, Rank;
    if WaitsFor(s, t) == None {
      StepComesNearer(s.threads[t], See(s, t), ok);
    }
    RankIsBounded(s.threads[t].pc);
  }

  lemma RankIsBounded(pc: Pc)
    ensures Rank(pc) <= 13
    ensures Rank(pc) == 0 <==> pc == Idle
  {
  }

  /** Following the waits from t for n steps leads to u. */
  ghost predicate Behind(s: State, t: Thread, u: Thread, n: nat)
    decreases n
  {
    if n == 0 then t == u else WaitsFor(s, t).Some? && Behind(s, WaitsFor(s, t).value, u, n - 1)
  }

  lemma HolderIsThere(s: State, t: Thread)
    requires Inv(s) && WaitsFor(s, t).Some?
    ensures var u := WaitsFor(s, t).value;
            && u in s.threads && (s.threads[u].pc == Idle ==> s.threads[u].rw > 0)
            && (s.threads[t].pc.WantCount? ==> s.threads[u].pc.HasCount?)
  {
    assert Right(s, t) && Right(s, WaitsFor(s, t).value);
  }

  /**
   * When nobody waits for d_openmut with an RW transaction of its own, the waits of any thread lead, in at
   * most three steps, to a thread that waits for nobody: it goes on with its call, or it is in user code
   * and has an RW transaction that the client has not ended.
   */
  lemma NobodyIsStuck(s: State, t: Thread) returns (u: Thread, n: nat)
    requires Inv(s) && Ruled(s) && t in s.threads && s.threads[t].pc != Idle
    ensures n <= 3 && Behind(s, t, u, n) && u in s.threads && WaitsFor(s, u) == None
    ensures s.threads[u].pc == Idle ==> s.threads[u].rw > 0
  {
    hide Inv, WaitsFor;
    u, n := t, 0;
    if WaitsFor(s, t).Some? {
      var p := WaitsFor(s, t).value;
      HolderIsThere(s, t);
      u, n := p, 1;
      if WaitsFor(s, p).Some? {
        var q := WaitsFor(s, p).value;
        NotForCount(s, t, p);
        HolderIsThere(s, p);
        u, n := q, 2;
        assert Behind(s, p, q, 1);
        if WaitsFor(s, q).Some? {
          var r := WaitsFor(s, q).value;
          NotForCount(s, p, q);
          HolderIsThere(s, q);
          NobodyWaitsThere(s, q);
          NobodyWaitsThere(s, r);
          u, n := r, 3;
          assert Behind(s, q, r, 1) && Behind(s, p, r, 2);
        }
      }
    }
  }

  /** A thread that holds d_countmutex waits for nothing; others wait only for one of the three locks. */
  lemma NobodyWaitsThere(s: State, t: Thread)
    requires t in s.threads
    ensures s.threads[t].pc.HasCount? ==> WaitsFor(s, t) == None
    ensures WaitsFor(s, t).Some? ==>
              s.threads[t].pc.WantCount? || s.threads[t].pc == WantWriter || s.threads[t].pc == WantOpen
  {
  }

  /**
   * In every run that keeps the client's rule a thread is held up only by threads that go on, or by a
   * client's open transaction.
   */
  lemma RuleKeepsMoving(ts: set<Thread>, rdonly: bool, trace: seq<(Thread, Act)>, t: Thread) returns (u: Thread, n: nat)
    requires KeepsRule(Init(ts, rdonly), trace)
    requires var s := Run(Init(ts, rdonly), trace); t in s.threads && s.threads[t].pc != Idle
    ensures var s := Run(Init(ts, rdonly), trace);
            && n <= 3 && Behind(s, t, u, n) && u in s.threads && WaitsFor(s, u) == None
            && (s.threads[u].pc == Idle ==> s.threads[u].rw > 0)
  {
    hide Run, Inv, Ruled, WaitsFor;
    InitIsGood(ts, rdonly);
    RunKeepsInv(Init(ts, rdonly), trace);
    NobodyOpens(ts, rdonly);
    RunStaysRuled(Init(ts, rdonly), trace);
    u, n := NobodyIsStuck(Run(Init(ts, rdonly), trace), t);
  }

  lemma NobodyOpens(ts: set<Thread>, rdonly: bool)
    ensures Ruled(Init(ts, rdonly))
  {
  }

  // ----- what a call does when no other thread is in the way -----

  /** The RO transactions the thread will have when its call is over, if LMDB says yes (ok) or no to each request. */
  function FinalRO(l: Local, ok: bool): int {
    match l.pc
    case StartRO => if l.opening || !ok then l.ro else l.ro + 1
    case EndRO => l.ro - 1
    case InDbiOpen => if l.ro > 0 then l.ro - 1 else l.ro
    case WantCount(op) => CountedRO(l, op, ok)
    case HasCount(op) => CountedRO(l, op, ok)
    case _ => l.ro
  }

  function CountedRO(l: Local, op: CountOp, ok: bool): int {
    match op
    case ReadRWForRO => if l.opening || !ok || l.rw != 0 then l.ro else l.ro + 1
    case IncRO => if l.opening then l.ro - 1 else l.ro
    case DecRO => l.ro - 1
    case _ => l.ro
  }

  /** The depth of its RW transaction then. */
  function FinalRW(l: Local, ok: bool): int {
    match l.pc
    case WantWriter => if l.opening || !ok then l.rw else l.rw + 1
    case InDbiOpen => if l.rw > 0 then l.rw - 1 else l.rw
    case EndRW => l.rw - 1
    case WantCount(op) => CountedRW(l, op, ok)
    case HasCount(op) => CountedRW(l, op, ok)
    case _ => l.rw
  }

  function CountedRW(l: Local, op: CountOp, ok: bool): int {
    match op
    case ReadRO => if l.opening || !ok || l.ro != 0 || l.rw != 0 then l.rw else l.rw + 1
    case ReadRWForRW => if l.opening || !ok || l.rw != 0 then l.rw else l.rw + 1
    case IncRW => if l.opening then l.rw - 1 else l.rw
    case _ => l.rw
  }

  ghost predicate SameEnd(l: Local, l': Local, ok: bool) {
    FinalRO(l', ok) == FinalRO(l, ok) && FinalRW(l', ok) == FinalRW(l, ok)
  }

  lemma CountingKeepsEnd(l: Local, x: Sight, op: CountOp, ok: bool)
    requires Sensible(l, x.rdonly) && CountsRight(l, x.ro, x.rw) && l.pc == HasCount(op)
    ensures SameEnd(l, Counted(l, x, op).l, ok)
    ensures Settled(l) ==> Settled(Counted(l, x, op).l)
  {
  }

  /** What the thread will have does not depend on LMDB's further answers: inside MDBEnv::openDB, or in no call. */
  predicate Settled(l: Local) {
    l.opening || l.pc == WantOpen || l.pc == Idle
  }

  lemma StepKeepsEnd(l: Local, x: Sight, ok: bool, answer: bool)
    requires Sensible(l, x.rdonly) && CountsRight(l, x.ro, x.rw) && Unhindered(l, x)
    requires answer == ok || Settled(l)
    ensures SameEnd(l, GoOn(l, x, answer).l, ok)
    ensures Settled(l) ==> Settled(GoOn(l, x, answer).l)
  {
    hide Counted;
    if l.pc.HasCount? {
      CountingKeepsEnd(l, x, l.pc.op, ok);
    }
  }

  /** A thread's own steps, with LMDB's answers. */
  function Gos(t: Thread, answers: seq<bool>): (trace: seq<(Thread, Act)>)
    ensures |trace| == |answers| && forall i :: 0 <= i < |answers| ==> trace[i] == (t, Go(answers[i]))
  {
    seq(|answers|, i requires 0 <= i < |answers| => (t, Go(answers[i])))
  }

  ghost predicate AllAre(answers: seq<bool>, ok: bool) {
    forall i :: 0 <= i < |answers| ==> answers[i] == ok
  }

  ghost predicate NobodyElseHolds(s: State, t: Thread) {
    s.count in {None, Some(t)} && s.writer in {None, Some(t)} && s.open in {None, Some(t)}
  }

  lemma AloneIsUnhindered(s: State, t: Thread)
    requires Inv(s) && NobodyElseHolds(s, t) && t in s.threads
    ensures Unhindered(s.threads[t], See(s, t))
  {
    assert Right(s, t);
  }

  lemma AloneStep(s: State, t: Thread, ok: bool, answer: bool)
    requires Inv(s) && NobodyElseHolds(s, t) && t in s.threads && (answer == ok || Settled(s.threads[t]))
    ensures var s', l := Step(s, t, Go(answer)), s.threads[t];
            && Inv(s') && NobodyElseHolds(s', t) && SameElsewhere(s, s', t)
            && s'.threads == s.threads[t := s'.threads[t]]
            && SameEnd(l, s'.threads[t], ok) && (Settled(l) ==> Settled(s'.threads[t]))
            && if l.pc == Idle then s'.threads[t] == l else Rank(s'.threads[t].pc) < Rank(l.pc)
  {
    hide Inv, Right, GoOn, Sensible, CountsRight, SameEnd, Unhindered, Rank, Settled;
    StepKeepsInv(s, t, Go(answer));
    AloneIsUnhindered(s, t);
    InvIsRight(s, t);
    StepKeepsEnd(s.threads[t], See(s, t), ok, answer);
    if s.threads[t].pc != Idle {
      StepComesNearer(s.threads[t], See(s, t), answer);
    } else {
      IdleStays(s.threads[t], See(s, t), answer);
    }
  }

  lemma IdleStays(l: Local, x: Sight, ok: bool)
    requires l.pc == Idle
    ensures GoOn(l, x, ok).l == l
  {
  }

  lemma InvIsRight(s: State, t: Thread)
    requires Inv(s) && t in s.threads
    ensures Sensible(s.threads[t], s.rdonly) && CountsRight(s.threads[t], CountOf(s.roOut, t), CountOf(s.rwOut, t))
  {
    assert Right(s, t);
  }

  /** A thread whose call nobody hinders finishes it, with the transactions it should have then. */
  lemma {:induction false} AloneFinishes(s: State, t: Thread, ok: bool, answers: seq<bool>)
    requires Inv(s) && NobodyElseHolds(s, t) && t in s.threads && Rank(s.threads[t].pc) <= |answers|
    requires Settled(s.threads[t]) || AllAre(answers, ok)
    ensures var r := Run(s, Gos(t, answers));
            && Inv(r) && NobodyElseHolds(r, t) && SameElsewhere(s, r, t)
            && t in r.threads && r.threads == s.threads[t := r.threads[t]]
            && r.threads[t].pc == Idle && SameEnd(s.threads[t], r.threads[t], ok)
    decreases |answers|
  {
    hide Inv, Step, SameEnd, Rank, NobodyElseHolds, SameElsewhere, Settled;
    RankIsBounded(s.threads[t].pc);
    if answers != [] {
      var s', rest := Step(s, t, Go(answers[0])), Gos(t, answers[1..]);
      AloneStep(s, t, ok, answers[0]);
      RankIsBounded(s'.threads[t].pc);
      assert Gos(t, answers)[1..] == rest;
      AloneFinishes(s', t, ok, answers[1..]);
      EndsCompose(s.threads[t], s'.threads[t], Run(s', rest).threads[t], ok);
      ElsewhereComposes(s, s', Run(s', rest), t);
    } else {
      NothingElsewhere(s, t);
      EndsCompose(s.threads[t], s.threads[t], s.threads[t], ok);
    }
  }

  lemma EndsCompose(a: Local, b: Local, c: Local, ok: bool)
    ensures SameEnd(a, a, ok)
    ensures SameEnd(a, b, ok) && SameEnd(b, c, ok) ==> SameEnd(a, c, ok)
  {
  }

  lemma ElsewhereComposes(a: State, b: State, c: State, t: Thread)
    requires SameElsewhere(a, b, t) && SameElsewhere(b, c, t)
    ensures SameElsewhere(a, c, t)
  {
  }

  lemma NothingElsewhere(s: State, t: Thread)
    ensures SameElsewhere(s, s, t)
  {
  }

  /** What a call has done to its thread when it is over; ok says whether LMDB begins the transaction. */
  function Done(l: Local, a: Act, ok: bool): Local {
    match a
    case CallRW => if ok && l.ro == 0 && l.rw == 0 then l.(rw := 1) else l
    case CallRO => if ok && l.rw == 0 then l.(ro := l.ro + 1) else l
    case CallChild(begun) => if l.rw > 0 && begun then l.(rw := l.rw + 1) else l
    case CallEndRW => if l.rw > 0 then l.(rw := l.rw - 1) else l
    case CallEndRO => if l.ro > 0 then l.(ro := l.ro - 1) else l
    case CallOpenDB => l
    case Go(_) => l
  }

  lemma CallLeadsTo(l: Local, x: Sight, a: Act, ok: bool)
    requires Sensible(l, x.rdonly) && l.pc == Idle
    ensures var l' := Next(l, x, a).l;
            FinalRO(l', ok) == Done(l, a, ok).ro && FinalRW(l', ok) == Done(l, a, ok).rw
  {
  }

  lemma CallStep(s: State, t: Thread, a: Act)
    requires Inv(s) && NobodyElseHolds(s, t) && t in s.threads && s.threads[t].pc == Idle
    ensures var s' := Step(s, t, a);
            && s'.threads == s.threads[t := Next(s.threads[t], See(s, t), a).l]
            && NobodyElseHolds(s', t) && SameElsewhere(s, s', t)
  {
    hide Next, Inv;
  }

  /** A thread in user code holds no lock but the writer lock, and its counts are right. */
  lemma AtRest(s: State, t: Thread, ok: bool)
    requires Inv(s) && NobodyElseHolds(s, t) && t in s.threads && s.threads[t].pc == Idle
    ensures var l := s.threads[t];
            && l.ro == FinalRO(l, ok) == CountOf(s.roOut, t) && l.rw == FinalRW(l, ok) == CountOf(s.rwOut, t)
            && !l.opening && !l.dbi
            && s.count == None && s.open == None && s.writer == if l.rw > 0 then Some(t) else None
  {
    assert Right(s, t);
  }

  /**
   * Any call of a thread in user code, when no other thread holds a lock: after at most 13 steps of its own
   * it is back, with exactly the transactions and counts the call is for, d_countmutex and d_openmut free
   * and the writer lock held only with an RW transaction. openDB leaves no trace, whatever LMDB answers to
   * its requests; a refused begin changes nothing; other threads and their counts are as before.
   */
  lemma CallReturns(s: State, t: Thread, a: Act, ok: bool, answers: seq<bool>)
    requires Inv(s) && NobodyElseHolds(s, t) && t in s.threads && s.threads[t].pc == Idle
    requires |answers| >= 13 && (a == CallOpenDB || AllAre(answers, ok))
    ensures var r, l := Run(Step(s, t, a), Gos(t, answers)), Done(s.threads[t], a, ok);
            && r.threads == s.threads[t := l]
            && CountOf(r.roOut, t) == l.ro && CountOf(r.rwOut, t) == l.rw && SameElsewhere(s, r, t)
            && r.count == None && r.open == None && r.writer == if l.rw > 0 then Some(t) else None
  {
    hide Inv, Run, SameElsewhere, FinalRO, FinalRW, Sensible, CountsRight;
    var s' := Step(s, t, a);
    StepKeepsInv(s, t, a);
    InvIsRight(s, t);
    AtRest(s, t, ok);
    CallStep(s, t, a);
    CallLeadsTo(s.threads[t], See(s, t), a, ok);
    RankIsBounded(s'.threads[t].pc);
    AloneFinishes(s', t, ok, answers);
    var r := Run(s', Gos(t, answers));
    ElsewhereComposes(s, s', r, t);
    AtRest(r, t, ok);
  }
}
