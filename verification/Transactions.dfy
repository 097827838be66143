/**
 * Transaction objects: opening under the per-thread counters, commit, abort and destruction, for both
 * dynamic types. Whatever sequence of these an object goes through, LMDB sees one end of the transaction,
 * after all its cursors are closed, and one counter goes down by one.
 */
module Transactions {
  import opened CursorTable
  import opened Cursors
  import opened Options

  type Thread = nat

  /** The dynamic type of the object; an RW object may be held through an RO pointer. */
  datatype Kind = RO | RW

  function CountOf(m: map<Thread, int>, t: Thread): int {
    if t in m then m[t] else 0
  }

  /** What mdb_txn_begin answers. */
  datatype BeginRc = BeginOk | MapResized | BeginFailed

  datatype OpenError = Duplicate | UnableToStart

  // ----- opening -----

  /** LMDB begins the transaction at this attempt, after a resized map at every earlier one. */
  ghost predicate BeginsAt(answers: seq<BeginRc>, k: nat) {
    k < |answers| && answers[k] == BeginOk && forall j :: 0 <= j < k ==> answers[j] == MapResized
  }

  class Env {
    var ROtransactionsOut: map<Thread, int>
    var RWtransactionsOut: map<Thread, int>

    constructor ()
      ensures ROtransactionsOut == map[] && RWtransactionsOut == map[]
    {
      ROtransactionsOut, RWtransactionsOut := map[], map[];
    }

    ghost function ROCount(t: Thread): int
      reads this
    {
      CountOf(ROtransactionsOut, t)
    }

    ghost function RWCount(t: Thread): int
      reads this
    {
      CountOf(RWtransactionsOut, t)
    }

    method IncROTX(t: Thread)
      modifies this`ROtransactionsOut
      ensures ROCount(t) == old(ROCount(t)) + 1 && forall u :: u != t ==> ROCount(u) == old(ROCount(u))
    {
      ROtransactionsOut := ROtransactionsOut[t := CountOf(ROtransactionsOut, t) + 1];
    }

    method DecROTX(t: Thread)
      modifies this`ROtransactionsOut
      ensures ROCount(t) == old(ROCount(t)) - 1 && forall u :: u != t ==> ROCount(u) == old(ROCount(u))
    {
      ROtransactionsOut := ROtransactionsOut[t := CountOf(ROtransactionsOut, t) - 1];
    }

    method IncRWTX(t: Thread)
      modifies this`RWtransactionsOut
      ensures RWCount(t) == old(RWCount(t)) + 1 && forall u :: u != t ==> RWCount(u) == old(RWCount(u))
    {
      RWtransactionsOut := RWtransactionsOut[t := CountOf(RWtransactionsOut, t) + 1];
    }

    method DecRWTX(t: Thread)
      modifies this`RWtransactionsOut
      ensures RWCount(t) == old(RWCount(t)) - 1 && forall u :: u != t ==> RWCount(u) == old(RWCount(u))
    {
      RWtransactionsOut := RWtransactionsOut[t := CountOf(RWtransactionsOut, t) - 1];
    }

    /**
     * openROTransaction or openRWTransaction on the given thread; answers are LMDB's, one per attempt.
     * A second RW transaction, or an RO one beside an RW one, is refused without asking LMDB; a resized map
     * is adopted and tried again, twice at most; the matching counter goes up exactly when the transaction
     * begins.
     */
    method OpenTransaction(kind: Kind, t: Thread, answers: seq<BeginRc>) returns (o: Option<OpenError>, resizes: nat)
      requires |answers| == 3
      modifies this
      ensures var taken := if kind == RW then old(ROCount(t)) != 0 || old(RWCount(t)) != 0 else old(RWCount(t)) != 0;
              && (o == Some(Duplicate) <==> taken)
              && (o == None <==> !taken && exists k :: k < 3 && BeginsAt(answers, k))
              && (taken ==> resizes == 0)
              && (!taken ==> forall k :: BeginsAt(answers, k) ==> resizes == k)
              && (!taken && resizes < 2 ==> answers[resizes] != MapResized)
      ensures ROCount(t) == old(ROCount(t)) + if o == None && kind == RO then 1 else 0
      ensures RWCount(t) == old(RWCount(t)) + if o == None && kind == RW then 1 else 0
      ensures forall u :: u != t ==> ROCount(u) == old(ROCount(u)) && RWCount(u) == old(RWCount(u))
      ensures resizes <= 2 && forall i :: 0 <= i < resizes ==> answers[i] == MapResized
    {
      resizes := 0;
      if (kind == RW && CountOf(ROtransactionsOut, t) != 0) || CountOf(RWtransactionsOut, t) != 0 {
        return Some(Duplicate), 0;
      }
      var tries := 0;
      while tries < 3
        invariant 0 <= tries <= 2 && resizes == tries
        invariant forall i :: 0 <= i < tries ==> answers[i] == MapResized
      {
        if answers[tries] != BeginOk {
          if answers[tries] == MapResized && tries < 2 {
            resizes := resizes + 1;
            tries := tries + 1;
            continue;
          }
          assert forall k :: !BeginsAt(answers, k);
          return Some(UnableToStart), resizes;
        }
        break;
      }
      assert BeginsAt(answers, tries);
      if kind == RW {
        IncRWTX(t);
      } else {
        IncROTX(t);
      }
      return None, resizes;
    }
  }

  // ----- ending -----

  datatype EndOp = CommitOp | AbortOp | DestroyOp

  /** What an end does, in the order it does it: the LMDB call and the counter that goes down. */
  datatype Event = CommitCall | AbortCall | DownRO | DownRW

  /** A transaction object as far as its end goes: whether d_txn is not null, and what it has done so far. */
  datatype Obj = Obj(live: bool, events: seq<Event>)

  /** MDBROTransactionImpl::commit and abort. */
  function BaseEnd(o: Obj, commit: bool): Obj {
    if o.live then Obj(false, o.events + [DownRO, if commit then CommitCall else AbortCall]) else o
  }

  /** MDBRWTransactionImpl::commit and abort. */
  function DerivedEnd(o: Obj, commit: bool): Obj {
    if o.live then Obj(false, o.events + [if commit then CommitCall else AbortCall, DownRW]) else o
  }

  /** A virtual call, or destruction: the derived destructor aborts, then the base destructor commits. */
  function After(kind: Kind, o: Obj, op: EndOp): Obj {
    match kind
    case RO => BaseEnd(o, op != AbortOp)
    case RW => if op == DestroyOp then BaseEnd(DerivedEnd(o, false), true) else DerivedEnd(o, op == CommitOp)
  }

  /** A sequence of them on one object. */
  function Lifetime(kind: Kind, o: Obj, ops: seq<EndOp>): Obj
    decreases |ops|
  {
    if ops == [] then o else Lifetime(kind, After(kind, o, ops[0]), ops[1..])
  }

  lemma {:induction false} NothingAfterEnd(kind: Kind, o: Obj, ops: seq<EndOp>)
    requires !o.live
    ensures Lifetime(kind, o, ops) == o
    decreases |ops|
  {
    if ops != [] {
      NothingAfterEnd(kind, o, ops[1..]);
    }
  }

  /** What a whole life adds to what was done: one end and one decrement, in the order of the object's kind. */
  function TheEnd(kind: Kind, calls: seq<EndOp>): seq<Event> {
    var commits := if calls == [] then kind == RO else calls[0] == CommitOp;
    var end := if commits then CommitCall else AbortCall;
    if kind == RO then [DownRO, end] else [end, DownRW]
  }

  /**
   * Whatever commits and aborts an object sees before it is destroyed, in whatever order and number, LMDB
   * sees one end and only the counter of the object's own kind goes down, once. The first explicit call
   * decides which end; without one an RW transaction is aborted and an RO transaction is closed by commit.
   */
  lemma OneEndPerLifetime(kind: Kind, o: Obj, calls: seq<EndOp>)
    requires o.live && DestroyOp !in calls
    ensures Lifetime(kind, o, calls + [DestroyOp]) == Obj(false, o.events + TheEnd(kind, calls))
  {
    var ops := calls + [DestroyOp];
    assert calls != [] ==> calls[0] in calls;
    NothingAfterEnd(kind, After(kind, o, ops[0]), ops[1..]);
  }

  function Times<E(==)>(s: seq<E>, e: E): nat {
    multiset(s)[e]
  }

  /** The calls LMDB sees of these events. */
  function EndCalls(id: nat, events: seq<Event>): seq<Call> {
    if CommitCall in events then [CommitTxn(id)] else if AbortCall in events then [AbortTxn(id)] else []
  }

  /** The events of the second moment that are not among those of the first. */
  function Since(before: seq<Event>, now: seq<Event>): seq<Event> {
    if before <= now then now[|before|..] else []
  }

  lemma EndFacts(id: nat, o: Obj, commit: bool)
    ensures var b := Since(o.events, BaseEnd(o, commit).events);
            && Times(b, DownRO) == (if o.live then 1 else 0) && Times(b, DownRW) == 0
            && EndCalls(id, b) == if o.live then [if commit then CommitTxn(id) else AbortTxn(id)] else []
    ensures var d := Since(o.events, DerivedEnd(o, commit).events);
            && Times(d, DownRW) == (if o.live then 1 else 0) && Times(d, DownRO) == 0
            && EndCalls(id, d) == if o.live then [if commit then CommitTxn(id) else AbortTxn(id)] else []
  {
    assert Since(o.events, o.events) == [];
    var call := if commit then CommitCall else AbortCall;
    assert Since(o.events, o.events + [DownRO, call]) == [DownRO, call];
    assert Since(o.events, o.events + [call, DownRW]) == [call, DownRW];
  }

  lemma NoEvents(id: nat, events: seq<Event>)
    ensures var none := Since(events, events);
            EndCalls(id, none) == [] && Times(none, DownRO) == 0 && Times(none, DownRW) == 0
  {
  }

  lemma TheEndFacts(id: nat, kind: Kind, before: seq<Event>, calls: seq<EndOp>)
    ensures var e := Since(before, before + TheEnd(kind, calls));
            && e == TheEnd(kind, calls)
            && Times(e, DownRO) == (if kind == RO then 1 else 0)
            && Times(e, DownRW) == (if kind == RW then 1 else 0)
            && EndCalls(id, e) == [if CommitCall in TheEnd(kind, calls) then CommitTxn(id) else AbortTxn(id)]
  {
  }

  /** A transaction object with its two cursor registries, on the thread that opened it. */
  class Transaction {
    const kind: Kind
    const id: nat
    const thread: Thread
    const env: Env
    const world: World
    const cursors: Registry
    const rwCursors: Registry
    var live: bool
    ghost var events: seq<Event>

    ghost function State(): Obj
      reads this
    {
      Obj(live, events)
    }

    ghost predicate Valid()
      reads this, world, world.pool, world.regs
    {
      world.Valid({}) && cursors in world.regs && rwCursors in world.regs && cursors != rwCursors
    }

    /** The object after OpenTransaction succeeded. */
    constructor (kind: Kind, id: nat, t: Thread, env: Env, world: World)
      requires world.Valid({})
      modifies world`regs
      ensures Valid() && State() == Obj(true, []) && this.kind == kind && this.id == id && this.thread == t
      ensures this.env == env && this.world == world
      ensures cursors.items == [] && rwCursors.items == []
      ensures world.pool == old(world.pool) && world.log == old(world.log) && old(world.regs) <= world.regs
    {
      hide Linked, Accounted, Good, World.Snap;
      this.kind, this.id, this.thread, this.env, this.world := kind, id, t, env, world;
      var ro := new Registry();
      var rw := new Registry();
      cursors, rwCursors, live, events := ro, rw, true, [];
      new;
      world.AddRegistry(ro);
      world.AddRegistry(rw);
    }

    /** The counters have moved by what the object has done since, and only those of its own thread. */
    twostate predicate Counted()
      reads this, env
    {
      && env.ROCount(thread) == old(env.ROCount(thread)) - Times(Since(old(events), events), DownRO)
      && env.RWCount(thread) == old(env.RWCount(thread)) - Times(Since(old(events), events), DownRW)
      && (forall u :: u != thread ==>
            env.ROCount(u) == old(env.ROCount(u)) && env.RWCount(u) == old(env.RWCount(u)))
    }

    /** MDBROTransactionImpl::commit and abort. */
    method EndBase(commit: bool)
      requires Valid()
      modifies this`live, this`events, env, world`log, cursors, cursors.items
      ensures Valid() && world.pool == old(world.pool) && world.regs == old(world.regs)
      ensures State() == BaseEnd(old(State()), commit) && Counted()
      ensures cursors.items == []
      ensures world.Snap() ==
              Ended(old(world.Snap()), cursors, rwCursors, false, EndCalls(id, Since(old(events), events)))
    {
      hide Linked, Accounted, Drained, Good, World.Snap, Times, EndCalls, Since;
      EndFacts(id, State(), commit);
      world.Lists(cursors);
      world.CloseCursors(cursors);
      world.SnapHasLog();
      if live {
        env.DecROTX(thread);
        events := events + [DownRO];
        TellLmdb(commit);
        live := false;
        assert events == old(events) + [DownRO, if commit then CommitCall else AbortCall];
      } else {
        assert world.log + [] == world.log;
      }
    }

    /** closeRORWCursors. */
    method CloseRORWCursors()
      requires Valid()
      modifies world`log, cursors, cursors.items, rwCursors, rwCursors.items
      ensures Valid() && world.pool == old(world.pool) && world.regs == old(world.regs)
      ensures cursors.items == [] && rwCursors.items == []
      ensures world.Snap() == Drained(Drained(old(world.Snap()), cursors), rwCursors)
    {
      hide Linked, Accounted, Drained, Good, World.Snap;
      world.Lists(cursors);
      world.CloseCursors(cursors);
      world.Lists(cursors);
      world.Lists(rwCursors);
      world.CloseCursors(rwCursors);
      world.Lists(cursors);
    }

    /** MDBRWTransactionImpl::commit and abort. */
    method EndDerived(commit: bool)
      requires Valid()
      modifies this`live, this`events, env, world`log, cursors, cursors.items, rwCursors, rwCursors.items
      ensures Valid() && world.pool == old(world.pool) && world.regs == old(world.regs)
      ensures State() == DerivedEnd(old(State()), commit) && Counted()
      ensures cursors.items == [] && rwCursors.items == []
      ensures world.Snap() == Ended(old(world.Snap()), cursors, rwCursors, true, EndCalls(id, Since(old(events), events)))
    {
      hide Linked, Accounted, Drained, Good, World.Snap, Times, EndCalls, Since;
      EndFacts(id, State(), commit);
      CloseRORWCursors();
      world.SnapHasLog();
      if live {
        TellLmdb(commit);
        env.DecRWTX(thread);
        events := events + [DownRW];
        live := false;
        assert events == old(events) + [if commit then CommitCall else AbortCall, DownRW];
      } else {
        assert world.log + [] == world.log;
      }
    }

    /**
     * commit and abort through a pointer of either type, and destruction. What the object's kind asks for
     * happens, its cursors are closed first, and nothing happens a second time.
     */
    method End(op: EndOp)
      requires Valid()
      modifies this`live, this`events, env, world`log, cursors, cursors.items, rwCursors, rwCursors.items
      ensures Valid() && world.pool == old(world.pool) && world.regs == old(world.regs)
      ensures State() == After(kind, old(State()), op) && Counted()
      ensures world.Snap() ==
              Ended(old(world.Snap()), cursors, rwCursors, kind == RW, EndCalls(id, Since(old(events), events)))
    {
      hide Linked, Accounted, Drained, Good, World.Snap, Times, EndCalls, Since;
      if kind == RO {
        EndBase(op != AbortOp);
      } else if op != DestroyOp {
        EndDerived(op == CommitOp);
      } else {
        EndDerived(false);
        world.Lists(cursors);
        DrainNothing(world.Snap(), cursors);
        assert world.Snap().log + [] == world.Snap().log;
        NoEvents(id, events);
        EndBase(true);
      }
    }

    /** Ending a transaction that has ended, and whose registries are empty, does nothing. */
    method EndAgain(op: EndOp)
      requires Valid() && !live && cursors.items == [] && rwCursors.items == []
      modifies this`live, this`events, env, world`log, cursors, cursors.items, rwCursors, rwCursors.items
      ensures Valid() && world.pool == old(world.pool) && world.regs == old(world.regs)
      ensures State() == After(kind, old(State()), op) == old(State())
      ensures forall u :: env.ROCount(u) == old(env.ROCount(u)) && env.RWCount(u) == old(env.RWCount(u))
      ensures cursors.items == [] && rwCursors.items == []
      ensures world.Snap() == old(world.Snap())
    {
      hide Linked, Accounted, Drained, Good, World.Snap;
      ghost var was := world.Snap();
      world.Lists(cursors);
      world.Lists(rwCursors);
      DrainNothing(was, cursors);
      DrainNothing(was, rwCursors);
      assert was.(log := was.log + []) == was;
      End(op);
      world.Lists(cursors);
      world.Lists(rwCursors);
    }

    /**
     * The life of a transaction object after it was opened: any commits and aborts, then destruction. Its
     * cursors are closed, LMDB sees one end after that, and only the counter of its kind goes down, by one.
     */
    method LiveOut(calls: seq<EndOp>)
      requires Valid() && live && DestroyOp !in calls
      requires kind == RO ==> rwCursors.items == []
      modifies this`live, this`events, env, world`log, cursors, cursors.items, rwCursors, rwCursors.items
      ensures Valid() && State() == Lifetime(kind, old(State()), calls + [DestroyOp])
      ensures State() == Obj(false, old(events) + TheEnd(kind, calls))
      ensures env.ROCount(thread) == old(env.ROCount(thread)) - if kind == RO then 1 else 0
      ensures env.RWCount(thread) == old(env.RWCount(thread)) - if kind == RW then 1 else 0
      ensures forall u :: u != thread ==> env.ROCount(u) == old(env.ROCount(u)) && env.RWCount(u) == old(env.RWCount(u))
      ensures world.Snap() ==
              Ended(old(world.Snap()), cursors, rwCursors, kind == RW,
                    [if CommitCall in TheEnd(kind, calls) then CommitTxn(id) else AbortTxn(id)])
    {
      hide Linked, Accounted, Drained, Good, World.Snap, Ended, TheEnd, Times, EndCalls, Since, After;
      ghost var start, was := State(), world.Snap();
      var ops := calls + [DestroyOp];
      FirstEnd(ops[0]);
      for n := 1 to |ops|
        invariant Valid() && !live && cursors.items == [] && rwCursors.items == []
        invariant world.pool == old(world.pool) && world.regs == old(world.regs)
        invariant world.Snap() == Ended(was, cursors, rwCursors, kind == RW, EndCalls(id, Since(start.events, events)))
        invariant Counted()
        invariant Lifetime(kind, State(), ops[n..]) == Lifetime(kind, start, ops)
      {
        EndAgain(ops[n]);
        assert ops[n..][1..] == ops[n + 1..];
      }
      OneEndPerLifetime(kind, start, calls);
      TheEndFacts(id, kind, start.events, calls);
    }

    method FirstEnd(op: EndOp)
      requires Valid() && live
      requires kind == RO ==> rwCursors.items == []
      modifies this`live, this`events, env, world`log, cursors, cursors.items, rwCursors, rwCursors.items
      ensures Valid() && !live && cursors.items == [] && rwCursors.items == []
      ensures world.pool == old(world.pool) && world.regs == old(world.regs)
      ensures State() == After(kind, old(State()), op) && Counted()
      ensures world.Snap() ==
              Ended(old(world.Snap()), cursors, rwCursors, kind == RW, EndCalls(id, Since(old(events), events)))
    {
      hide Linked, Accounted, Drained, World.Snap, Good, Since, Times;
      ghost var was := world.Snap();
      world.Lists(cursors);
      world.Lists(rwCursors);
      End(op);
      world.Lists(cursors);
      world.Lists(rwCursors);
      EndDrains(was, cursors, rwCursors, kind == RW, EndCalls(id, Since(old(events), events)));
    }

    /**
     * A child transaction: getRWTransaction of an RW object, and getROTransaction, which hands out the same
     * object under its base type. Either way it is an RW object and counts as one; begun is LMDB's answer,
     * which is no while another child lives.
     */
    method OpenChild(childId: nat, begun: bool) returns (child: Option<Transaction>)
      requires Valid() && live && kind == RW
      modifies env, world`regs
      ensures Valid() && world.pool == old(world.pool) && world.log == old(world.log)
      ensures child.Some? <==> begun
      ensures if begun then old(world.regs) <= world.regs else world.regs == old(world.regs)
      ensures env.RWCount(thread) == old(env.RWCount(thread)) + if begun then 1 else 0
      ensures env.ROCount(thread) == old(env.ROCount(thread))
      ensures forall u :: u != thread ==> env.ROCount(u) == old(env.ROCount(u)) && env.RWCount(u) == old(env.RWCount(u))
      ensures child.Some? ==>
                var c := child.value;
                && fresh(c) && c.Valid() && c.State() == Obj(true, [])
                && c.kind == RW && c.id == childId && c.thread == thread
                && c.env == env && c.world == world && c.cursors.items == [] && c.rwCursors.items == []
    {
      if !begun {
        return None;
      }
      env.IncRWTX(thread);
      var c := new Transaction(RW, childId, thread, env, world);
      return Some(c);
    }

    /** mdb_txn_commit or mdb_txn_abort. */
    method TellLmdb(commit: bool)
      requires Valid()
      modifies world`log, this`events
      ensures Valid() && events == old(events) + [if commit then CommitCall else AbortCall]
      ensures world.Snap() == old(world.Snap()).(log := old(world.log) + [if commit then CommitTxn(id) else AbortTxn(id)])
    {
      hide Linked, Accounted;
      ghost var was := world.Snap();
      var call := if commit then CommitTxn(id) else AbortTxn(id);
      EndKeepsGood(was, [call]);
      world.log := world.log + [call];
      events := events + [if commit then CommitCall else AbortCall];
      assert world.Snap() == was.(log := was.log + [call]);
    }
  }
}
