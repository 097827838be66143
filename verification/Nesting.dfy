/**
 * Nested transactions: one writer's stack of views over the committed store. A child starts from its
 * parent's view; commit hands its view to the parent (the root's to the database), abort drops it.
 */
module Nesting {
  import opened Lmdb
  import opened TypedStore
  import opened TypedRuns

  /**
   * The database, or a live transaction on top of its parent. A transaction is clean as long as no
   * operation in it, or in a child it took over, threw or put the indexes wrong; the database is sound
   * as long as only clean transactions were committed to it.
   */
  datatype World =
    | Database(store: Store, sound: bool)
    | Txn(view: Store, readOnly: bool, clean: bool, parent: World)
  {
    function Depth(): nat {
      if Database? then 0 else 1 + parent.Depth()
    }

    /** The tables a reader of this level sees. */
    function Tables(): Store {
      if Database? then store else view
    }

    ghost predicate WellShaped() {
      |Tables().idx| == SLOTS && (Txn? ==> parent.WellShaped())
    }

    /** The database under all transactions. */
    function Root(): (r: World)
      ensures r.Database?
    {
      if Database? then this else parent.Root()
    }
  }

  /** What the client does; level names the transaction it does it to, 0 being the root. */
  datatype Event<!T> =
    | Begin
    | Child(level: nat, readOnly: bool)
    | Do(level: nat, op: Op<T>)
    | Commit
    | Abort

  /** The operation neither throws nor overwrites a record with one that has other index keys. */
  ghost predicate Tidy<T>(sch: Schema<T>, view: Store, op: Op<T>)
    requires |sch.keys| == |view.idx| == SLOTS
  {
    Apply(sch, view, op).1.Pass? && KeepsKeys(sch, Records(sch, view.main), op)
  }

  /**
   * A second root is refused; so is everything but an end to a transaction with a live child
   * (MDB_BAD_TXN), and a read-only view offers neither writes nor children.
   */
  predicate Refused<T>(depth: nat, readOnly: bool, e: Event<T>) {
    match e
    case Begin => depth != 0
    case Child(level, _) => depth == 0 || level != depth - 1 || readOnly
    case Do(level, _) => depth == 0 || level != depth - 1 || readOnly
    case Commit => depth == 0
    case Abort => depth == 0
  }

  ghost function Step<T>(sch: Schema<T>, w: World, e: Event<T>): (r: World)
    requires |sch.keys| == SLOTS && w.WellShaped()
    ensures r.WellShaped()
  {
    if Refused(w.Depth(), w.Txn? && w.readOnly, e) then w
    else
      match e
      case Begin => Txn(w.Tables(), false, true, w)
      case Child(_, readOnly) => Txn(w.Tables(), readOnly, true, w)
      case Do(_, op) => Txn(Apply(sch, w.view, op).0, w.readOnly, w.clean && Tidy(sch, w.view, op), w.parent)
      case Abort => w.parent
      case Commit =>
        match w.parent
        case Database(_, sound) => Database(w.view, sound && w.clean)
        case Txn(_, readOnly, clean, below) =>
          assert w.parent.WellShaped();
          Txn(w.view, readOnly, clean && w.clean, below)
  }

  ghost function Exec<T>(sch: Schema<T>, w: World, es: seq<Event<T>>): (r: World)
    requires |sch.keys| == SLOTS && w.WellShaped()
    ensures r.WellShaped()
    decreases |es|
  {
    if es == [] then w else Exec(sch, Step(sch, w, es[0]), es[1..])
  }

  // ----- what each event does -----

  /**
   * On a live read-write transaction that has no child everything is offered: a child of either flavour
   * starts from its view, and an operation applies to it.
   */
  lemma OffersHappen<T>(sch: Schema<T>, w: World, readOnly: bool, op: Op<T>)
    requires |sch.keys| == SLOTS && w.WellShaped() && w.Txn? && !w.readOnly
    ensures Step(sch, w, Child(w.Depth() - 1, readOnly)) == Txn(w.view, readOnly, true, w)
    ensures var w' := Step(sch, w, Do(w.Depth() - 1, op));
            w'.Txn? && w'.view == Apply(sch, w.view, op).0 && w'.parent == w.parent && !w'.readOnly
  {
    hide Apply, Tidy;
  }

  /** A root begins on the database; the end of a child, or of a root, hands its view to what is below, or drops it. */
  lemma EndsHappen<T>(sch: Schema<T>, w: World)
    requires |sch.keys| == SLOTS && w.WellShaped()
    ensures w.Database? ==> Step(sch, w, Begin) == Txn(w.store, false, true, w)
    ensures w.Txn? ==> Step(sch, w, Abort) == w.parent
    ensures w.Txn? && w.parent.Database? ==>
              Step(sch, w, Commit) == Database(w.view, w.parent.sound && w.clean)
    ensures w.Txn? && w.parent.Txn? ==>
              Step(sch, w, Commit) == Txn(w.view, w.parent.readOnly, w.parent.clean && w.clean, w.parent.parent)
  {
    hide Apply, Tidy;
  }

  /** What is refused changes nothing: a second root, a read-only view's writes, a transaction with a live child. */
  lemma RefusalsHappen<T>(sch: Schema<T>, w: World, level: nat, readOnly: bool, op: Op<T>)
    requires |sch.keys| == SLOTS && w.WellShaped()
    ensures w.Txn? ==> Step<T>(sch, w, Begin) == w
    ensures w.Database? ==> Step<T>(sch, w, Commit) == w && Step<T>(sch, w, Abort) == w
    ensures w.Database? || w.readOnly || level != w.Depth() - 1 ==>
              Step(sch, w, Child(level, readOnly)) == w && Step(sch, w, Do(level, op)) == w
  {
  }

  /** Operations on the transaction at this level. */
  function Dos<T>(level: nat, ops: seq<Op<T>>): (es: seq<Event<T>>)
    ensures |es| == |ops| && forall i :: 0 <= i < |ops| ==> es[i] == Do(level, ops[i])
  {
    seq(|ops|, i requires 0 <= i < |ops| => Do(level, ops[i]))
  }

  ghost predicate AllTidy<T>(sch: Schema<T>, view: Store, ops: seq<Op<T>>)
    requires |sch.keys| == |view.idx| == SLOTS
    decreases |ops|
  {
    ops != [] ==> Tidy(sch, view, ops[0]) && AllTidy(sch, Apply(sch, view, ops[0]).0, ops[1..])
  }

  lemma {:induction false} DosRun<T>(sch: Schema<T>, w: World, ops: seq<Op<T>>)
    requires |sch.keys| == SLOTS && w.WellShaped() && w.Txn? && !w.readOnly
    ensures Exec(sch, w, Dos(w.Depth() - 1, ops)) ==
            Txn(Run(sch, w.view, ops), false, w.clean && AllTidy(sch, w.view, ops), w.parent)
    decreases |ops|
  {
    hide Apply, Tidy;
    var es := Dos(w.Depth() - 1, ops);
    if ops != [] {
      var w' := Step(sch, w, es[0]);
      assert es[1..] == Dos(w'.Depth() - 1, ops[1..]);
      DosRun(sch, w', ops[1..]);
    }
  }

  /**
   * Operations done in a child that then commits are, for its parent and everything under it, the same as
   * the same operations done in the parent.
   */
  lemma CommittedChildIsInline<T>(sch: Schema<T>, w: World, ops: seq<Op<T>>)
    requires |sch.keys| == SLOTS && w.WellShaped() && w.Txn? && !w.readOnly
    ensures Exec(sch, w, [Child(w.Depth() - 1, false)] + Dos(w.Depth(), ops) + [Commit]) ==
            Exec(sch, w, Dos(w.Depth() - 1, ops))
  {
    hide Exec, Run, AllTidy;
    Bracketed(sch, w, Child(w.Depth() - 1, false), Dos(w.Depth(), ops), Commit);
    DosRun(sch, Step(sch, w, Child(w.Depth() - 1, false)), ops);
    DosRun(sch, w, ops);
  }

  /** A root, a child in it, operations in the child, and two commits: the database has had the operations. */
  lemma NestedCommitsArrive<T>(sch: Schema<T>, start: Store, ops: seq<Op<T>>)
    requires |sch.keys| == |start.idx| == SLOTS
    ensures var w := Exec(sch, Database(start, true), [Begin] + ([Child(0, false)] + Dos(1, ops) + [Commit]) + [Commit]);
            w.Database? && w.store == Run(sch, start, ops)
  {
    hide Exec, Run, AllTidy;
    var w, inner := Database(start, true), [Child(0, false)] + Dos(1, ops) + [Commit];
    Bracketed(sch, w, Begin, inner, Commit);
    CommittedChildIsInline(sch, Step(sch, w, Begin), ops);
    DosRun(sch, Step(sch, w, Begin), ops);
  }

  // ----- what should survive, read off the events alone -----

  /**
   * The operations committed all the way up; or, for a live transaction, its own operations and those of
   * the children it has taken over, in order.
   */
  datatype Ledger<!T> =
    | History(ops: seq<Op<T>>)
    | Pending(ops: seq<Op<T>>, readOnly: bool, parent: Ledger<T>)
  {
    function Depth(): nat {
      if History? then 0 else 1 + parent.Depth()
    }

    function Root(): (r: Ledger<T>)
      ensures r.History?
    {
      if History? then this else parent.Root()
    }
  }

  function Enter<T>(l: Ledger<T>, e: Event<T>): Ledger<T> {
    if Refused(l.Depth(), l.Pending? && l.readOnly, e) then l
    else
      match e
      case Begin => Pending([], false, l)
      case Child(_, readOnly) => Pending([], readOnly, l)
      case Do(_, op) => l.(ops := l.ops + [op])
      case Abort => l.parent
      case Commit => l.parent.(ops := l.parent.ops + l.ops)
  }

  function Entries<T>(l: Ledger<T>, es: seq<Event<T>>): Ledger<T>
    decreases |es|
  {
    if es == [] then l else Entries(Enter(l, es[0]), es[1..])
  }

  /** The world is what replaying the ledger gives: the database its history, each view its pending operations. */
  ghost predicate Replays<T>(sch: Schema<T>, start: Store, w: World, l: Ledger<T>)
    requires |sch.keys| == |start.idx| == SLOTS && w.WellShaped()
  {
    match w
    case Database(store, _) => l.History? && store == Run(sch, start, l.ops)
    case Txn(view, readOnly, _, parent) =>
      assert parent.WellShaped();
      && l.Pending? && readOnly == l.readOnly
      && view == Run(sch, parent.Tables(), l.ops)
      && Replays(sch, start, parent, l.parent)
  }

  lemma {:induction false} RunAppends<T>(sch: Schema<T>, s: Store, a: seq<Op<T>>, b: seq<Op<T>>)
    requires |sch.keys| == |s.idx| == SLOTS
    ensures Run(sch, s, a + b) == Run(sch, Run(sch, s, a), b)
    decreases |a|
  {
    if a == [] {
      assert a + b == b;
    } else {
      assert (a + b)[1..] == a[1..] + b;
      RunAppends(sch, Apply(sch, s, a[0]).0, a[1..], b);
    }
  }

  lemma RunNone<T>(sch: Schema<T>, s: Store)
    requires |sch.keys| == |s.idx| == SLOTS
    ensures Run(sch, s, []) == s
  {
  }

  lemma RunOne<T>(sch: Schema<T>, s: Store, op: Op<T>)
    requires |sch.keys| == |s.idx| == SLOTS
    ensures Run(sch, s, [op]) == Apply(sch, s, op).0
  {
    RunNone(sch, Apply(sch, s, op).0);
  }

  lemma {:induction false} SameDepth<T>(sch: Schema<T>, start: Store, w: World, l: Ledger<T>)
    requires |sch.keys| == |start.idx| == SLOTS && w.WellShaped()
    requires Replays(sch, start, w, l)
    ensures w.Depth() == l.Depth()
    ensures w.Root().WellShaped() && Replays(sch, start, w.Root(), l.Root())
  {
    if w.Txn? {
      SameDepth(sch, start, w.parent, l.parent);
    }
  }

  lemma {:induction false} StepReplays<T>(sch: Schema<T>, start: Store, w: World, l: Ledger<T>, e: Event<T>)
    requires |sch.keys| == |start.idx| == SLOTS && w.WellShaped()
    requires Replays(sch, start, w, l)
    ensures Replays(sch, start, Step(sch, w, e), Enter(l, e))
  {
    hide Apply, Run, Tidy;
    SameDepth(sch, start, w, l);
    match e
    case Begin => RunNone(sch, w.Tables());
    case Child(_, _) => RunNone(sch, w.Tables());
    case Do(_, op) =>
      if w.Txn? {
        RunAppends(sch, w.parent.Tables(), l.ops, [op]);
        RunOne(sch, w.view, op);
      }
    case Abort =>
    case Commit =>
      if w.Txn? {
        assert w.parent.WellShaped() && (w.parent.Txn? ==> w.parent.parent.WellShaped());
        RunAppends(sch, if w.parent.Database? then start else w.parent.parent.Tables(), l.parent.ops, l.ops);
      }
  }

  lemma {:induction false} ExecReplays<T>(sch: Schema<T>, start: Store, w: World, l: Ledger<T>, es: seq<Event<T>>)
    requires |sch.keys| == |start.idx| == SLOTS && w.WellShaped()
    requires Replays(sch, start, w, l)
    ensures Replays(sch, start, Exec(sch, w, es), Entries(l, es))
    decreases |es|
  {
    if es != [] {
      StepReplays(sch, start, w, l, es[0]);
      ExecReplays(sch, start, Step(sch, w, es[0]), Enter(l, es[0]), es[1..]);
    }
  }

  /**
   * Over any run of begins, children, operations, commits and aborts, the database holds exactly the
   * operations of transactions committed all the way up, in order, as if nothing else had been done; and
   * every live view is its parent's view plus its own operations and those of its committed children.
   */
  lemma DatabaseIsCommittedHistory<T>(sch: Schema<T>, start: Store, es: seq<Event<T>>)
    requires |sch.keys| == |start.idx| == SLOTS
    ensures var w, l := Exec(sch, Database(start, true), es), Entries(History([]), es);
            && Replays(sch, start, w, l)
            && w.Root().store == Run(sch, start, l.Root().ops)
  {
    RunNone(sch, start);
    ExecReplays(sch, start, Database(start, true), History([]), es);
    SameDepth(sch, start, Exec(sch, Database(start, true), es), Entries(History([]), es));
  }

  // ----- a dropped child leaves no trace -----

  /** The part of the world under a transaction at the given depth. */
  function Under(w: World, depth: nat): World
    requires depth <= w.Depth()
  {
    if w.Depth() == depth then w else Under(w.parent, depth)
  }

  /** The run never ends a transaction at or below the given depth. */
  ghost predicate StaysAbove<T>(sch: Schema<T>, w: World, es: seq<Event<T>>, depth: nat)
    requires |sch.keys| == SLOTS && w.WellShaped()
    decreases |es|
  {
    w.Depth() > depth && (es != [] ==> StaysAbove(sch, Step(sch, w, es[0]), es[1..], depth))
  }

  /** As long as a child lives, whatever is done in it and in its own children, everything under it is untouched. */
  lemma {:induction false} UnderIsUntouched<T>(sch: Schema<T>, w: World, es: seq<Event<T>>, depth: nat)
    requires |sch.keys| == SLOTS && w.WellShaped()
    requires StaysAbove(sch, w, es, depth)
    ensures Exec(sch, w, es).Depth() > depth && Under(Exec(sch, w, es), depth) == Under(w, depth)
    decreases |es|
  {
    if es != [] {
      var w' := Step(sch, w, es[0]);
      UnderIsUntouched(sch, w', es[1..], depth);
      assert Under(w', depth) == Under(w, depth) by {
        if es[0].Commit? && w.Txn? {
          assert Under(w, depth) == Under(w.parent, depth);
        }
      }
    }
  }

  lemma {:induction false} ExecAppends<T>(sch: Schema<T>, w: World, a: seq<Event<T>>, b: seq<Event<T>>)
    requires |sch.keys| == SLOTS && w.WellShaped()
    ensures Exec(sch, w, a + b) == Exec(sch, Exec(sch, w, a), b)
    decreases |a|
  {
    if a == [] {
      assert a + b == b;
    } else {
      assert (a + b)[1..] == a[1..] + b;
      ExecAppends(sch, Step(sch, w, a[0]), a[1..], b);
    }
  }

  lemma Bracketed<T>(sch: Schema<T>, w: World, open: Event<T>, inner: seq<Event<T>>, end: Event<T>)
    requires |sch.keys| == SLOTS && w.WellShaped()
    ensures Exec(sch, w, [open] + inner + [end]) == Step(sch, Exec(sch, Step(sch, w, open), inner), end)
  {
    hide Step;
    assert ([open] + inner + [end])[1..] == inner + [end];
    ExecAppends(sch, Step(sch, w, open), inner, [end]);
    var w2 := Exec(sch, Step(sch, w, open), inner);
    assert Exec(sch, Step(sch, w2, end), [end][1..]) == Step(sch, w2, end);
  }

  /**
   * A transaction that is aborted or dropped leaves the world as it was before it began, whatever was
   * done in it, nested children included.
   */
  lemma DroppedLeavesNoTrace<T>(sch: Schema<T>, w: World, open: Event<T>, inner: seq<Event<T>>)
    requires |sch.keys| == SLOTS && w.WellShaped()
    requires (open.Begin? || open.Child?) && !Refused(w.Depth(), w.Txn? && w.readOnly, open)
    requires StaysAbove(sch, Step(sch, w, open), inner, w.Depth())
    requires Exec(sch, Step(sch, w, open), inner).Depth() == w.Depth() + 1
    ensures Exec(sch, w, [open] + inner + [Abort]) == w
  {
    var w1 := Step(sch, w, open);
    UnderIsUntouched(sch, w1, inner, w.Depth());
    assert Under(w1, w.Depth()) == w;
    Bracketed(sch, w, open, inner, Abort);
  }

  /**
   * A read-only view of a read-write transaction is a child that refuses everything: however it ends,
   * by commit, abort or destruction, its parent is as before.
   */
  lemma ReadOnlyViewChangesNothing<T>(sch: Schema<T>, w: World, tries: seq<Event<T>>, end: Event<T>)
    requires |sch.keys| == SLOTS && w.WellShaped()
    requires w.Txn? && !w.readOnly && (end.Commit? || end.Abort?)
    requires forall i :: 0 <= i < |tries| ==> !tries[i].Commit? && !tries[i].Abort?
    ensures Exec(sch, w, [Child(w.Depth() - 1, true)] + tries + [end]) == w
  {
    hide Exec, Apply, Tidy;
    var open := Child(w.Depth() - 1, true);
    Bracketed(sch, w, open, tries, end);
    AllRefused(sch, Step(sch, w, open), tries);
  }

  lemma {:induction false} AllRefused<T>(sch: Schema<T>, w: World, tries: seq<Event<T>>)
    requires |sch.keys| == SLOTS && w.WellShaped() && w.Txn? && w.readOnly
    requires forall i :: 0 <= i < |tries| ==> !tries[i].Commit? && !tries[i].Abort?
    ensures Exec(sch, w, tries) == w
    decreases |tries|
  {
    if tries != [] {
      AllRefused(sch, w, tries[1..]);
    }
  }

  // ----- index agreement of what is committed -----

  /** This transaction and all those under it are clean, and so is what was committed. */
  ghost predicate AllClean(w: World) {
    match w
    case Database(_, sound) => sound
    case Txn(_, _, clean, parent) => clean && AllClean(parent)
  }

  /** At every level: if all up to there is clean, the tables seen there are rightly indexed. */
  ghost predicate SoundViews<T>(sch: Schema<T>, w: World) {
    (AllClean(w) ==> Indexed(sch, w.Tables())) && (w.Txn? ==> SoundViews(sch, w.parent))
  }

  lemma {:induction false} StepKeepsSound<T(!new)>(sch: Schema<T>, w: World, e: Event<T>)
    requires RoundTrips(sch) && |sch.keys| == SLOTS && w.WellShaped() && SoundViews(sch, w)
    ensures SoundViews(sch, Step(sch, w, e))
  {
    hide Indexed, Apply, Records, KeepsKeys;
    if e.Do? && w.Txn? && AllClean(w) {
      ApplyRefines(sch, w.view, e.op);
    }
  }

  /** Every commit in the run is of a clean transaction: one in which an operation threw is aborted. */
  ghost predicate CommitsAreClean<T>(sch: Schema<T>, w: World, es: seq<Event<T>>)
    requires |sch.keys| == SLOTS && w.WellShaped()
    decreases |es|
  {
    es != [] ==>
      && (es[0].Commit? && w.Txn? ==> w.clean)
      && CommitsAreClean(sch, Step(sch, w, es[0]), es[1..])
  }

  lemma {:induction false} ExecKeepsSound<T(!new)>(sch: Schema<T>, w: World, es: seq<Event<T>>)
    requires RoundTrips(sch) && |sch.keys| == SLOTS && w.WellShaped() && SoundViews(sch, w)
    requires w.Root().sound && CommitsAreClean(sch, w, es)
    ensures Exec(sch, w, es).Root().sound && SoundViews(sch, Exec(sch, w, es))
    decreases |es|
  {
    if es != [] {
      StepKeepsSound(sch, w, es[0]);
      ExecKeepsSound(sch, Step(sch, w, es[0]), es[1..]);
    }
  }

  lemma {:induction false} SoundRoot<T>(sch: Schema<T>, w: World)
    requires SoundViews(sch, w) && w.Root().sound
    ensures Indexed(sch, w.Root().store)
  {
    if w.Txn? {
      SoundRoot(sch, w.parent);
    }
  }

  /**
   * If every transaction in which an operation threw (or overwrote a record with other index keys) is
   * aborted, the database is rightly indexed after every run, and so is the view of every live
   * transaction that is clean with all its ancestors.
   */
  lemma CommittedIsIndexed<T(!new)>(sch: Schema<T>, start: Store, es: seq<Event<T>>)
    requires RoundTrips(sch) && Indexed(sch, start)
    requires CommitsAreClean(sch, Database(start, true), es)
    ensures var w := Exec(sch, Database(start, true), es);
            Indexed(sch, w.Root().store) && SoundViews(sch, w)
  {
    ExecKeepsSound(sch, Database(start, true), es);
    SoundRoot(sch, Exec(sch, Database(start, true), es));
  }

  /**
   * The rule is needed: a transaction of one operation on a right store, committed, leaves the database
   * rightly indexed exactly if the operation was tidy or changed nothing.
   */
  lemma DirtyCommitBreaks<T(!new)>(sch: Schema<T>, start: Store, op: Op<T>)
    requires RoundTrips(sch) && Indexed(sch, start)
    ensures var w := Exec(sch, Database(start, true), [Begin, Do(0, op), Commit]);
            && w.Database?
            && (Indexed(sch, w.store) <==> Tidy(sch, start, op) || Apply(sch, start, op).0 == start)
  {
    hide Apply, Records, KeepsKeys, AllAgree;
    var d := Database(start, true);
    Bracketed(sch, d, Begin, [Do(0, op)], Commit);
    assert [Begin] + [Do(0, op)] + [Commit] == [Begin, Do(0, op), Commit];
    var w1 := Step(sch, d, Begin);
    assert Exec(sch, w1, [Do(0, op)]) == Step(sch, w1, Do(0, op)) by {
      assert Exec(sch, Step(sch, w1, Do(0, op)), []) == Step(sch, w1, Do(0, op));
    }
    ApplyRefines(sch, start, op);
  }
}
