/** Runs of operations on one typed store, against the plain map from id to record. */
module TypedRuns {
  import opened ByteOrder
  import opened IdCodec
  import opened Lmdb
  import opened TypedStore

  datatype Op<!T> = Put(t: T, id: Id) | Modify(id: Id, func: T -> T) | Del(id: Id) | Clear

  function Apply<T>(sch: Schema<T>, s: Store, op: Op<T>): (r: (Store, Outcome))
    requires |sch.keys| == |s.idx| == SLOTS
    ensures |r.0.idx| == SLOTS
  {
    match op
    case Put(t, id) => PutStore(sch, s, t, id)
    case Modify(id, func) => ModifyStore(sch, s, id, func)
    case Del(id) => DelStore(sch, s, id)
    case Clear => ClearStore(sch, s)
  }

  function Run<T>(sch: Schema<T>, s: Store, ops: seq<Op<T>>): (r: Store)
    requires |sch.keys| == |s.idx| == SLOTS
    ensures |r.idx| == SLOTS
    decreases |ops|
  {
    if ops == [] then s else Run(sch, Apply(sch, s, ops[0]).0, ops[1..])
  }

  // ----- the simple store: a map -----

  ghost function Highest<T>(recs: map<Id, T>): (top: Id)
    ensures IsHighest(recs, top)
    decreases |recs|
  {
    if recs == map[] then 0
    else
      var i :| i in recs;
      var rest := Highest(recs - {i});
      assert forall j :: j in recs ==> j == i || j in recs - {i};
      if rest > i then rest else i
  }

  /** What an operation does to the records. */
  ghost function Effect<T>(recs: map<Id, T>, op: Op<T>): map<Id, T> {
    match op
    case Put(t, id) => recs[if id == 0 then (Highest(recs) + 1) % WRAP else id := t]
    case Modify(id, func) => if id in recs then recs[id := func(recs[id])] else recs
    case Del(id) => recs - {id}
    case Clear => map[]
  }

  ghost function Effects<T>(recs: map<Id, T>, ops: seq<Op<T>>): map<Id, T>
    decreases |ops|
  {
    if ops == [] then recs else Effects(Effect(recs, ops[0]), ops[1..])
  }

  /** The operation is one the store can carry out. */
  ghost predicate Accepted<T>(sch: Schema<T>, recs: map<Id, T>, op: Op<T>) {
    match op
    case Put(t, id) => (id == 0 ==> WRAP - 1 !in recs) && KeysFit(sch, t)
    case Modify(id, func) => id in recs && KeysFit(sch, func(recs[id]))
    case Del(_) => true
    case Clear => true
  }

  /** The operation is not a put that overwrites a record with one that has another index key. */
  ghost predicate KeepsKeys<T>(sch: Schema<T>, recs: map<Id, T>, op: Op<T>) {
    op.Put? && op.id != 0 && op.id in recs ==> SameKeys(sch, recs[op.id], op.t)
  }

  // ----- one operation -----

  lemma ChosenIsNext<T>(sch: Schema<T>, m: Main)
    requires Ascending(m)
    ensures ChosenId(m, 0) == (Highest(Records(sch, m)) + 1) % WRAP
  {
    MaxIdIsHighest(sch, m);
    assert MaxId(m) == Highest(Records(sch, m));
  }

  lemma PutRefines<T(!new)>(sch: Schema<T>, s: Store, t: T, id: Id)
    requires RoundTrips(sch) && Indexed(sch, s)
    ensures var recs := Records(sch, s.main);
            PutStore(sch, s, t, id).1.Pass? <==> Accepted(sch, recs, Put(t, id))
    ensures var recs, s' := Records(sch, s.main), PutStore(sch, s, t, id).0;
            Accepted(sch, recs, Put(t, id)) ==>
              && Records(sch, s'.main) == Effect(recs, Put(t, id))
              && (Indexed(sch, s') <==> KeepsKeys(sch, recs, Put(t, id)))
    ensures PutStore(sch, s, t, id).1.Throw? ==>
              (Indexed(sch, PutStore(sch, s, t, id).0) <==> PutStore(sch, s, t, id).0 == s)
  {
    hide PutStore, ChosenId, KeysFit, SameKeys, Records, Highest;
    if id == 0 {
      PutFresh(sch, s, t);
      ChosenIsNext(sch, s.main);
    } else {
      PutGiven(sch, s, t, id);
    }
  }

  /**
   * From a rightly indexed store every operation throws exactly when it is not acceptable; without an
   * exception it has the effect it should on the records and keeps the indexes right, except for a put
   * that overwrites a record and changes an index key, which never does. After an exception the indexes
   * are right exactly if nothing was changed.
   */
  lemma ApplyRefines<T(!new)>(sch: Schema<T>, s: Store, op: Op<T>)
    requires RoundTrips(sch) && Indexed(sch, s)
    ensures Apply(sch, s, op).1.Pass? <==> Accepted(sch, Records(sch, s.main), op)
    ensures Accepted(sch, Records(sch, s.main), op) ==>
              && Records(sch, Apply(sch, s, op).0.main) == Effect(Records(sch, s.main), op)
              && (Indexed(sch, Apply(sch, s, op).0) <==> KeepsKeys(sch, Records(sch, s.main), op))
    ensures !Accepted(sch, Records(sch, s.main), op) ==>
              (Indexed(sch, Apply(sch, s, op).0) <==> Apply(sch, s, op).0 == s)
  {
    hide PutStore, ModifyStore, DelStore, ClearStore, Records, AllAgree;
    match op
    case Put(t, id) => PutRefines(sch, s, t, id);
    case Modify(id, func) => ModifyRefines(sch, s, id, func);
    case Del(id) => DelRefines(sch, s, id);
    case Clear =>
      ClearEmpties(sch, s);
      EmptyIsIndexed(sch);
  }

  // ----- whole runs -----

  ghost predicate NoneThrows<T>(sch: Schema<T>, s: Store, ops: seq<Op<T>>)
    requires |sch.keys| == |s.idx| == SLOTS
    decreases |ops|
  {
    ops != [] ==> var (s', o) := Apply(sch, s, ops[0]); o.Pass? && NoneThrows(sch, s', ops[1..])
  }

  ghost predicate AllKeepKeys<T>(sch: Schema<T>, s: Store, ops: seq<Op<T>>)
    requires |sch.keys| == |s.idx| == SLOTS
    decreases |ops|
  {
    ops != [] ==>
      && KeepsKeys(sch, Records(sch, s.main), ops[0])
      && AllKeepKeys(sch, Apply(sch, s, ops[0]).0, ops[1..])
  }

  /** Every state the run passes through, the first and the last included, is rightly indexed. */
  ghost predicate AlwaysIndexed<T>(sch: Schema<T>, s: Store, ops: seq<Op<T>>)
    requires |sch.keys| == |s.idx| == SLOTS
    decreases |ops|
  {
    Indexed(sch, s) && (ops != [] ==> AlwaysIndexed(sch, Apply(sch, s, ops[0]).0, ops[1..]))
  }

  lemma EmptyIsIndexed<T>(sch: Schema<T>)
    requires |sch.keys| == SLOTS
    ensures Indexed(sch, EMPTY)
    ensures Records(sch, EMPTY.main) == map[]
  {
    forall n | 0 <= n < SLOTS ensures Agrees(sch.keys[n], EMPTY.idx[n], map[]) {
      if sch.keys[n].IndexOn? {
        assert Wanted(sch.keys[n].key, map[]) == {};
      }
    }
  }

  /**
   * A run in which nothing throws keeps every index equal to the index of the main table throughout
   * exactly when no put overwrites a record with changed index keys. Either way the run has exactly the
   * effect of the same operations on a plain map.
   */
  lemma {:induction false} RunRefines<T(!new)>(sch: Schema<T>, s: Store, ops: seq<Op<T>>)
    requires RoundTrips(sch) && Indexed(sch, s)
    requires NoneThrows(sch, s, ops)
    ensures AlwaysIndexed(sch, s, ops) <==> AllKeepKeys(sch, s, ops)
    ensures AllKeepKeys(sch, s, ops) ==> Indexed(sch, Run(sch, s, ops))
    ensures Records(sch, Run(sch, s, ops).main) == Effects(Records(sch, s.main), ops)
    decreases |ops|
  {
    IndexedIsComplete(sch, s);
    RunOnComplete(sch, s, ops);
    if ops != [] {
      ApplyRefines(sch, s, ops[0]);
      if KeepsKeys(sch, Records(sch, s.main), ops[0]) {
        RunRefines(sch, Apply(sch, s, ops[0]).0, ops[1..]);
      }
    }
  }

  /** The same from the empty store: the states a database can get into. */
  lemma ReachableIsIndexed<T(!new)>(sch: Schema<T>, ops: seq<Op<T>>)
    requires sch.Valid() && RoundTrips(sch)
    requires NoneThrows(sch, EMPTY, ops) && AllKeepKeys(sch, EMPTY, ops)
    ensures Indexed(sch, Run(sch, EMPTY, ops))
    ensures Records(sch, Run(sch, EMPTY, ops).main) == Effects(map[], ops)
  {
    EmptyIsIndexed(sch);
    RunRefines(sch, EMPTY, ops);
  }

  /** The failing side is there: putting two records with different keys under one id, with any schema. */
  lemma OverwriteLeavesStale<T(!new)>(sch: Schema<T>, t: T, u: T, id: Id)
    requires sch.Valid() && RoundTrips(sch) && id != 0
    requires KeysFit(sch, t) && KeysFit(sch, u) && !SameKeys(sch, t, u)
    ensures var ops := [Put(t, id), Put(u, id)];
            NoneThrows(sch, EMPTY, ops) && !AllKeepKeys(sch, EMPTY, ops) && !Indexed(sch, Run(sch, EMPTY, ops))
  {
    hide Apply, Records, Indexed, KeysFit, SameKeys;
    var first, second := Put(t, id), Put(u, id);
    var ops := [first, second];
    assert ops[1..] == [second] && [second][1..] == [];
    EmptyIsIndexed(sch);
    ApplyRefines(sch, EMPTY, first);
    var s1 := Apply(sch, EMPTY, first).0;
    ApplyRefines(sch, s1, second);
    var s2 := Apply(sch, s1, second).0;
    assert NoneThrows(sch, s2, []) && Run(sch, s2, []) == s2;
    assert NoneThrows(sch, s1, [second]) && Run(sch, s1, [second]) == s2;
    assert !AllKeepKeys(sch, s1, [second]);
  }

  /** What such a run leaves: one row, two pairs; and after del of the id no row, and the pair nobody removes. */
  lemma StalePairStays<T(!new)>(sch: Schema<T>, t: T, u: T, id: Id, n: nat)
    requires sch.Valid() && RoundTrips(sch) && id != 0 && n < SLOTS && sch.keys[n].IndexOn?
    requires KeysFit(sch, t) && KeysFit(sch, u) && sch.keys[n].key(t) != sch.keys[n].key(u)
    ensures var s, e := Run(sch, EMPTY, [Put(t, id), Put(u, id)]), Entry(sch.keys[n].key(t), IdBytes(id));
            && TablesSound(s) && |s.main| == 1
            && Elems(s.idx[n]) == {e, Entry(sch.keys[n].key(u), IdBytes(id))}
            && DelStore(sch, s, id).1.Pass?
            && DelStore(sch, s, id).0.main == [] && DelStore(sch, s, id).0.idx[n] == [e]
  {
    hide PutStore, DelStore, RowsSound, ChosenId;
    GivenId(EMPTY.main, id);
    EmptyIsSound();
    var k1 := PutAnywhere(sch, EMPTY, t, id);
    var s1 := PutStore(sch, EMPTY, t, id).0;
    GivenId(s1.main, id);
    var k2 := PutAnywhere(sch, s1, u, id);
    var s2 := PutStore(sch, s1, u, id).0;
    TwoPuts(sch, t, u, id);
    var k3 := DelAnywhere(sch, s2, id);
    SmallTables(s2, DelStore(sch, s2, id).0, id, sch.ser(u));
    OneElement(DelStore(sch, s2, id).0.idx[n], Entry(sch.keys[n].key(t), IdBytes(id)));
  }

  lemma EmptyIsSound()
    ensures TablesSound(EMPTY) && AsMap(EMPTY.main) == map[]
    ensures forall n :: 0 <= n < SLOTS ==> Elems(EMPTY.idx[n]) == {}
  {
  }

  lemma TwoPuts<T>(sch: Schema<T>, t: T, u: T, id: Id)
    requires sch.Valid()
    ensures Run(sch, EMPTY, [Put(t, id), Put(u, id)]) == PutStore(sch, PutStore(sch, EMPTY, t, id).0, u, id).0
  {
    hide PutStore;
    var s1 := PutStore(sch, EMPTY, t, id).0;
    assert [Put(t, id), Put(u, id)][1..] == [Put(u, id)] && [Put(u, id)][1..] == [];
    assert Run(sch, s1, [Put(u, id)]) == Run(sch, PutStore(sch, s1, u, id).0, []);
  }

  lemma SmallTables(s: Store, s': Store, id: Id, val: Bytes)
    requires Ascending(s.main) && Ascending(s'.main)
    requires AsMap(s.main) == map[id := val] && AsMap(s'.main) == map[]
    ensures |s.main| == 1 && s'.main == []
  {
    MainSize(s.main);
    MainSize(s'.main);
  }

  lemma OneElement(rows: Index, e: Pair)
    requires RowsSound(rows) && Elems(rows) == {e}
    ensures rows == [e]
  {
    SortedHasNoDuplicates(rows);
    assert rows[0] in Elems(rows);
  }

  // ----- ids, with or without exceptions -----

  lemma PutKeepsIds<T>(sch: Schema<T>, s: Store, t: T, id: Id)
    requires |sch.keys| == |s.idx| == SLOTS && IdsSound(s.main)
    ensures IdsSound(PutStore(sch, s, t, id).0.main)
  {
    hide Broadcast;
    MainPutUpdates(s.main, ChosenId(s.main, id), sch.ser(t), id == 0);
    FreshId(s.main, sch.ser(t));
  }

  lemma DelKeepsIds<T>(sch: Schema<T>, s: Store, id: Id)
    requires |sch.keys| == |s.idx| == SLOTS && IdsSound(s.main)
    ensures IdsSound(DelStore(sch, s, id).0.main)
  {
    hide Broadcast;
    MainDelRemoves(s.main, id);
  }

  lemma {:induction false} ClearKeepsIds<T>(sch: Schema<T>, s: Store)
    requires |sch.keys| == |s.idx| == SLOTS && IdsSound(s.main)
    ensures IdsSound(ClearStore(sch, s).0.main)
    decreases |s.main|
  {
    hide Broadcast;
    if s.main != [] {
      FirstRow(s.main);
      ClearKeepsIds(sch, Store(s.main[1..], Broadcast(sch, s.idx, sch.des(s.main[0].val), s.main[0].key, false, 0).1));
    }
  }

  /** Every operation, whether it throws or not and whatever the indexes hold, keeps the ids sound. */
  lemma ApplyKeepsIds<T>(sch: Schema<T>, s: Store, op: Op<T>)
    requires |sch.keys| == |s.idx| == SLOTS && IdsSound(s.main)
    ensures IdsSound(Apply(sch, s, op).0.main)
  {
    hide PutStore, DelStore, ClearStore, IdsSound;
    match op
    case Put(t, id) => PutKeepsIds(sch, s, t, id);
    case Modify(id, func) =>
      DelKeepsIds(sch, s, id);
      PutKeepsIds(sch, DelStore(sch, s, id).0, func(sch.des(MainGet(s.main, id).1)), id);
    case Del(id) => DelKeepsIds(sch, s, id);
    case Clear => ClearKeepsIds(sch, s);
  }

  lemma {:induction false} RunKeepsIds<T>(sch: Schema<T>, s: Store, ops: seq<Op<T>>)
    requires |sch.keys| == |s.idx| == SLOTS && IdsSound(s.main)
    ensures IdsSound(Run(sch, s, ops).main)
    decreases |ops|
  {
    if ops != [] {
      ApplyKeepsIds(sch, s, ops[0]);
      RunKeepsIds(sch, Apply(sch, s, ops[0]).0, ops[1..]);
    }
  }

  /**
   * From an empty table, over any operations, those that threw included: no record has id 0, and a put
   * without id throws and changes nothing once 2^32 - 1 is stored, and otherwise adds its row above all
   * others and changes none of them.
   */
  lemma AutomaticIdsAreSafe<T>(sch: Schema<T>, ops: seq<Op<T>>, t: T)
    requires sch.Valid()
    ensures var s := Run(sch, EMPTY, ops);
            var ids, id, (s', o) := AsMap(s.main).Keys, ChosenId(s.main, 0), PutStore(sch, s, t, 0);
            && 0 !in ids
            && if WRAP - 1 in ids then s' == s && o == Throw(PuttingData(KeyExist))
               else id != 0 && (forall i :: i in ids ==> i < id) && s'.main == s.main + [Entry(id, sch.ser(t))]
  {
    hide Run, PutStore;
    RunKeepsIds(sch, EMPTY, ops);
    PutFreshId(sch, Run(sch, EMPTY, ops), t);
  }

  // ----- index tables, with or without exceptions -----

  lemma PutKeepsTables<T>(sch: Schema<T>, s: Store, t: T, id: Id)
    requires |sch.keys| == SLOTS && TablesSound(s)
    ensures TablesSound(PutStore(sch, s, t, id).0)
  {
    hide PutStore, TablesSound;
    SoundIds(s);
    if id == 0 && WRAP - 1 in AsMap(s.main) {
      PutFreshId(sch, s, t);
    } else {
      var k := PutAnywhere(sch, s, t, id);
    }
  }

  lemma DelKeepsTables<T>(sch: Schema<T>, s: Store, id: Id)
    requires |sch.keys| == SLOTS && TablesSound(s)
    ensures TablesSound(DelStore(sch, s, id).0)
  {
    hide DelStore, TablesSound;
    SoundIds(s);
    if id in AsMap(s.main) {
      var k := DelAnywhere(sch, s, id);
    } else {
      DelNothing(sch, s, id);
    }
  }

  lemma SoundIds(s: Store)
    requires TablesSound(s)
    ensures Ascending(s.main) && |s.idx| == SLOTS && 0 !in AsMap(s.main)
  {
  }

  lemma {:induction false} ClearKeepsTables<T>(sch: Schema<T>, s: Store)
    requires |sch.keys| == SLOTS && TablesSound(s)
    ensures TablesSound(ClearStore(sch, s).0)
    decreases |s.main|
  {
    hide Broadcast, RowsSound, AsMap, CallsMade;
    if s.main != [] {
      FirstRow(s.main);
      var k := BroadcastStops(sch, s.idx, sch.des(s.main[0].val), s.main[0].key, false, 0);
      ClearKeepsTables(sch, Store(s.main[1..], Broadcast(sch, s.idx, sch.des(s.main[0].val), s.main[0].key, false, 0).1));
    }
  }

  /** Every operation, whether it throws or not, leaves every index sorted, with keys of legal size and whole ids. */
  lemma ApplyKeepsTables<T>(sch: Schema<T>, s: Store, op: Op<T>)
    requires |sch.keys| == SLOTS && TablesSound(s)
    ensures TablesSound(Apply(sch, s, op).0)
  {
    hide PutStore, DelStore, ClearStore, TablesSound;
    SoundIds(s);
    match op
    case Put(t, id) => PutKeepsTables(sch, s, t, id);
    case Modify(id, func) =>
      DelKeepsTables(sch, s, id);
      PutKeepsTables(sch, DelStore(sch, s, id).0, func(sch.des(MainGet(s.main, id).1)), id);
    case Del(id) => DelKeepsTables(sch, s, id);
    case Clear => ClearKeepsTables(sch, s);
  }

  /** So over any run; the empty store is such a store. */
  lemma {:induction false} RunKeepsTables<T>(sch: Schema<T>, s: Store, ops: seq<Op<T>>)
    requires |sch.keys| == SLOTS && TablesSound(s)
    ensures TablesSound(Run(sch, s, ops)) && TablesSound(EMPTY)
    decreases |ops|
  {
    hide Apply;
    if ops != [] {
      ApplyKeepsTables(sch, s, ops[0]);
      RunKeepsTables(sch, Apply(sch, s, ops[0]).0, ops[1..]);
    }
  }

  // ----- runs without exception, stale pairs or not -----

  lemma IndexedIsComplete<T>(sch: Schema<T>, s: Store)
    requires Indexed(sch, s)
    ensures TablesSound(s) && Complete(sch, s)
  {
    forall n | 0 <= n < SLOTS ensures RowsSound(s.idx[n]) {
      forall e | e in s.idx[n] ensures |e.val| == 4 && KeyFits(e.key) {
        assert e in Elems(s.idx[n]);
      }
    }
  }

  /** Pairs of different ids are different. */
  lemma OtherPairs<T>(k: KeyFn<T>, t: T, i: Id, u: T, j: Id)
    requires i != j
    ensures PairOf(k, t, i) * PairOf(k, u, j) == {}
  {
    if IdBytes(i) == IdBytes(j) {
      IdBytesInjective(i, j);
    }
  }

  lemma PutOnComplete<T(!new)>(sch: Schema<T>, s: Store, t: T, id: Id)
    requires |sch.keys| == SLOTS && RoundTrips(sch) && TablesSound(s) && Complete(sch, s)
    requires id == 0 ==> WRAP - 1 !in AsMap(s.main)
    ensures var (s', o), recs := PutStore(sch, s, t, id), Records(sch, s.main);
            && (o.Pass? <==> KeysFit(sch, t))
            && Records(sch, s'.main) == recs[ChosenId(s.main, id) := t]
            && (o.Pass? ==> Complete(sch, s'))
  {
    hide PutStore, RowsSound, ChosenId;
    var k := PutAnywhere(sch, s, t, id);
    var s', to, recs := PutStore(sch, s, t, id).0, ChosenId(s.main, id), Records(sch, s.main);
    RecordsPut(sch, s.main, s'.main, to, sch.ser(t));
    if k == SLOTS {
      forall i | i in Records(sch, s'.main) ensures HasPairs(sch, s'.idx, Records(sch, s'.main)[i], i) {
        forall n | 0 <= n < SLOTS ensures PairOf(sch.keys[n], Records(sch, s'.main)[i], i) <= Elems(s'.idx[n]) {
          assert i != to ==> HasPairs(sch, s.idx, recs[i], i);
        }
      }
    }
  }

  lemma DelOnComplete<T>(sch: Schema<T>, s: Store, id: Id)
    requires |sch.keys| == SLOTS && TablesSound(s) && Complete(sch, s)
    ensures var (s', o) := DelStore(sch, s, id);
            o.Pass? && Records(sch, s'.main) == Records(sch, s.main) - {id} && Complete(sch, s')
  {
    hide DelStore, RowsSound;
    if id in AsMap(s.main) {
      var k := DelAnywhere(sch, s, id);
      var s', recs := DelStore(sch, s, id).0, Records(sch, s.main);
      RecordsDel(sch, s.main, s'.main, id);
      assert HasPairs(sch, s.idx, recs[id], id);
      assert k == SLOTS;
      StaysComplete(sch, s, s', id);
    } else {
      DelNothing(sch, s, id);
      RemoveAbsent(Records(sch, s.main), id);
    }
  }

  /** Removing one record and its pairs leaves the pairs of the others. */
  lemma StaysComplete<T>(sch: Schema<T>, s: Store, s': Store, id: Id)
    requires |sch.keys| == |s.idx| == |s'.idx| == SLOTS && Complete(sch, s)
    requires id in Records(sch, s.main) && Records(sch, s'.main) == Records(sch, s.main) - {id}
    requires CallsMade(sch, s.idx, s'.idx, Records(sch, s.main)[id], id, false, 0, SLOTS)
    ensures Complete(sch, s')
  {
    hide Records, PairOf, Elems;
    var recs := Records(sch, s.main);
    forall i | i in recs && i != id ensures HasPairs(sch, s'.idx, recs[i], i) {
      assert HasPairs(sch, s.idx, recs[i], i);
      forall n | 0 <= n < SLOTS ensures PairOf(sch.keys[n], recs[i], i) <= Elems(s'.idx[n]) {
        PairStays(sch.keys[n], Elems(s.idx[n]), recs[i], i, recs[id], id);
        assert Elems(s'.idx[n]) == ElemsAfter(sch.keys[n], s.idx[n], recs[id], id, false);
      }
    }
  }

  lemma PairStays<T>(k: KeyFn<T>, pairs: set<Pair>, t: T, i: Id, u: T, j: Id)
    requires i != j && PairOf(k, t, i) <= pairs
    ensures PairOf(k, t, i) <= pairs - PairOf(k, u, j)
  {
    hide PairOf;
    OtherPairs(k, t, i, u, j);
    assert forall e :: e in PairOf(k, t, i) && e in PairOf(k, u, j) ==> e in PairOf(k, t, i) * PairOf(k, u, j);
  }

  lemma ModifyOnComplete<T(!new)>(sch: Schema<T>, s: Store, id: Id, func: T -> T)
    requires |sch.keys| == SLOTS && RoundTrips(sch) && TablesSound(s) && Complete(sch, s)
    ensures var (s', o), recs := ModifyStore(sch, s, id, func), Records(sch, s.main);
            && (o.Pass? <==> id in recs && KeysFit(sch, func(recs[id])))
            && (o.Pass? ==> Records(sch, s'.main) == recs[id := func(recs[id])] && Complete(sch, s'))
  {
    hide DelStore, PutStore, KeysFit, Complete, TablesSound;
    var recs := Records(sch, s.main);
    SoundIds(s);
    MainGetReads(s.main, id);
    if id in recs {
      GivenId(DelStore(sch, s, id).0.main, id);
      DelOnComplete(sch, s, id);
      DelKeepsTables(sch, s, id);
      PutOnComplete(sch, DelStore(sch, s, id).0, func(recs[id]), id);
      RemoveThenAdd(recs, id, func(recs[id]));
    }
  }

  /** The pairs of the record in a row of the main table are all there. */
  ghost predicate RowIsIndexed<T>(sch: Schema<T>, idx: seq<Index>, row: Row)
    requires |sch.keys| == |idx| == SLOTS
  {
    HasPairs(sch, idx, sch.des(row.val), row.key)
  }

  /** The pair belongs to the record in one of these rows. */
  ghost predicate IsPairIn<T>(k: KeyFn<T>, sch: Schema<T>, rows: Main, e: Pair) {
    exists i :: 0 <= i < |rows| && e in PairOf(k, sch.des(rows[i].val), rows[i].key)
  }

  /** Deleting the pairs of one row decides nothing about the pairs of another. */
  lemma OtherRow<T>(sch: Schema<T>, idx: seq<Index>, idx': seq<Index>, row: Row, other: Row)
    requires |sch.keys| == |idx| == |idx'| == SLOTS && row.key != other.key
    requires CallsMade(sch, idx, idx', sch.des(row.val), row.key, false, 0, SLOTS)
    ensures RowIsIndexed(sch, idx', other) <==> RowIsIndexed(sch, idx, other)
  {
    forall n | 0 <= n < SLOTS
      ensures PairOf(sch.keys[n], sch.des(other.val), other.key) <= Elems(idx'[n]) <==>
              PairOf(sch.keys[n], sch.des(other.val), other.key) <= Elems(idx[n])
    {
      OtherPairs(sch.keys[n], sch.des(row.val), row.key, sch.des(other.val), other.key);
    }
  }

  lemma FirstTurn<T>(sch: Schema<T>, s: Store)
    requires |sch.keys| == SLOTS && TablesSound(s) && s.main != []
    ensures var (o, idx) := Broadcast(sch, s.idx, sch.des(s.main[0].val), s.main[0].key, false, 0);
            && TablesSound(Store(s.main[1..], idx))
            && (o.Pass? <==> RowIsIndexed(sch, s.idx, s.main[0]))
            && (o.Pass? ==> CallsMade(sch, s.idx, idx, sch.des(s.main[0].val), s.main[0].key, false, 0, SLOTS))
  {
    hide Broadcast, RowsSound, AsMap;
    FirstRow(s.main);
    var k := BroadcastStops(sch, s.idx, sch.des(s.main[0].val), s.main[0].key, false, 0);
  }

  /** The first k rows are indexed, and the next one, if there is one, is not. */
  ghost predicate IndexedUpTo<T>(sch: Schema<T>, idx: seq<Index>, rows: Main, k: nat)
    requires |sch.keys| == |idx| == SLOTS
  {
    && k <= |rows|
    && (forall i :: 0 <= i < k ==> RowIsIndexed(sch, idx, rows[i]))
    && (k < |rows| ==> !RowIsIndexed(sch, idx, rows[k]))
  }

  /** Every index has lost the pairs of the records in these rows, and only those. */
  ghost predicate LosesPairs<T>(sch: Schema<T>, idx: seq<Index>, idx': seq<Index>, rows: Main)
    requires |sch.keys| == |idx| == |idx'| == SLOTS
  {
    forall n, e :: 0 <= n < SLOTS ==> (e in idx'[n] <==> e in idx[n] && !IsPairIn(sch.keys[n], sch, rows, e))
  }

  /**
   * clear on a store in any state takes the rows from the lowest id up, and throws exactly at the first that
   * an index misses. Without a throw the main table is empty and every index has lost the pairs of the
   * records that were there, and only those.
   */
  lemma {:induction false} ClearAnywhere<T>(sch: Schema<T>, s: Store) returns (k: nat)
    requires |sch.keys| == SLOTS && TablesSound(s)
    ensures IndexedUpTo(sch, s.idx, s.main, k)
    ensures var (s', o) := ClearStore(sch, s);
            && s'.main == s.main[k..] && (o.Pass? <==> k == |s.main|)
            && (o.Pass? ==> LosesPairs(sch, s.idx, s'.idx, s.main))
    decreases |s.main|
  {
    hide Broadcast, TablesSound, RowIsIndexed, CallsMade, LosesPairs;
    SoundIds(s);
    k := 0;
    if s.main == [] {
      LosesNothing(sch, s);
    } else {
      FirstTurn(sch, s);
      var (o, idx) := Broadcast(sch, s.idx, sch.des(s.main[0].val), s.main[0].key, false, 0);
      if o.Pass? {
        var s1 := Store(s.main[1..], idx);
        k := ClearAnywhere(sch, s1);
        OneMoreRow(sch, s, idx, k);
        LosesMore(sch, s, idx, ClearStore(sch, s1).0.idx);
        k := k + 1;
      }
    }
  }

  lemma LosesNothing<T>(sch: Schema<T>, s: Store)
    requires |sch.keys| == |s.idx| == SLOTS && s.main == []
    ensures LosesPairs(sch, s.idx, s.idx, s.main)
  {
  }

  lemma OneMoreRow<T>(sch: Schema<T>, s: Store, idx: seq<Index>, k: nat)
    requires |sch.keys| == |s.idx| == |idx| == SLOTS && Ascending(s.main) && s.main != []
    requires RowIsIndexed(sch, s.idx, s.main[0]) && IndexedUpTo(sch, idx, s.main[1..], k)
    requires CallsMade(sch, s.idx, idx, sch.des(s.main[0].val), s.main[0].key, false, 0, SLOTS)
    ensures IndexedUpTo(sch, s.idx, s.main, k + 1)
  {
    hide RowIsIndexed, CallsMade;
    forall i | 0 < i < |s.main|
      ensures RowIsIndexed(sch, idx, s.main[1..][i - 1]) <==> RowIsIndexed(sch, s.idx, s.main[i])
    {
      OtherRow(sch, s.idx, idx, s.main[0], s.main[i]);
    }
  }

  lemma LosesMore<T>(sch: Schema<T>, s: Store, idx: seq<Index>, last: seq<Index>)
    requires |sch.keys| == |s.idx| == |idx| == |last| == SLOTS && s.main != []
    requires CallsMade(sch, s.idx, idx, sch.des(s.main[0].val), s.main[0].key, false, 0, SLOTS)
    ensures LosesPairs(sch, idx, last, s.main[1..]) ==> LosesPairs(sch, s.idx, last, s.main)
  {
    hide IsPairIn, PairOf;
    forall n, e | 0 <= n < SLOTS
      ensures e in idx[n] && !IsPairIn(sch.keys[n], sch, s.main[1..], e) <==>
              e in s.idx[n] && !IsPairIn(sch.keys[n], sch, s.main, e)
    {
      assert e in idx[n] <==> e in Elems(idx[n]);
      assert e in s.idx[n] <==> e in Elems(s.idx[n]);
      FirstOrRest(sch.keys[n], sch, s.main, e);
    }
  }

  lemma FirstOrRest<T>(k: KeyFn<T>, sch: Schema<T>, rows: Main, e: Pair)
    requires rows != []
    ensures IsPairIn(k, sch, rows, e) <==>
            e in PairOf(k, sch.des(rows[0].val), rows[0].key) || IsPairIn(k, sch, rows[1..], e)
  {
    if i :| 0 <= i < |rows| && e in PairOf(k, sch.des(rows[i].val), rows[i].key) {
      assert i > 0 ==> rows[1..][i - 1] == rows[i];
    }
    if i :| 0 <= i < |rows[1..]| && e in PairOf(k, sch.des(rows[1..][i].val), rows[1..][i].key) {
      assert rows[1..][i] == rows[i + 1];
    }
  }

  /** clear of a complete store never throws; the main table is empty then, stale pairs stay. */
  lemma ClearOnComplete<T>(sch: Schema<T>, s: Store)
    requires |sch.keys| == SLOTS && TablesSound(s) && Complete(sch, s)
    ensures var (s', o) := ClearStore(sch, s); o.Pass? && s'.main == []
  {
    hide ClearStore, RowsSound, RowIsIndexed;
    var k := ClearAnywhere(sch, s);
    forall i | 0 <= i < |s.main| ensures RowIsIndexed(sch, s.idx, s.main[i]) {
      RowOfComplete(sch, s, i);
    }
  }

  lemma RowOfComplete<T>(sch: Schema<T>, s: Store, i: nat)
    requires |sch.keys| == |s.idx| == SLOTS && Ascending(s.main) && Complete(sch, s) && i < |s.main|
    ensures RowIsIndexed(sch, s.idx, s.main[i])
  {
    Meaning(s.main, s.main[i]);
    assert Records(sch, s.main)[s.main[i].key] == sch.des(s.main[i].val);
  }

  /**
   * On a store whose indexes miss nothing, even if they hold stale pairs, an operation throws exactly when it
   * is not acceptable; without an exception it has the effect it should on the records, and the indexes still
   * miss nothing.
   */
  lemma ApplyOnComplete<T(!new)>(sch: Schema<T>, s: Store, op: Op<T>)
    requires |sch.keys| == SLOTS && RoundTrips(sch) && TablesSound(s) && Complete(sch, s)
    ensures var (s', o), recs := Apply(sch, s, op), Records(sch, s.main);
            && (o.Pass? <==> Accepted(sch, recs, op))
            && (o.Pass? ==> Records(sch, s'.main) == Effect(recs, op) && Complete(sch, s'))
  {
    hide PutStore, DelStore, ModifyStore, ClearStore, Complete, TablesSound, KeysFit, Highest;
    SoundIds(s);
    match op
    case Put(t, id) =>
      if id != 0 {
        GivenId(s.main, id);
        PutOnComplete(sch, s, t, id);
      } else {
        ChosenIsNext(sch, s.main);
        if WRAP - 1 in AsMap(s.main) {
          PutFreshId(sch, s, t);
        } else {
          PutOnComplete(sch, s, t, 0);
        }
      }
    case Modify(id, func) => ModifyOnComplete(sch, s, id, func);
    case Del(id) => DelOnComplete(sch, s, id);
    case Clear =>
      ClearOnComplete(sch, s);
      NothingIsComplete(sch, ClearStore(sch, s).0);
  }

  lemma NothingIsComplete<T>(sch: Schema<T>, s: Store)
    requires |sch.keys| == |s.idx| == SLOTS && s.main == []
    ensures Records(sch, s.main) == map[] && Complete(sch, s)
  {
  }

  /** A map accepts every operation of the run, in turn. */
  ghost predicate AllAccepted<T>(sch: Schema<T>, recs: map<Id, T>, ops: seq<Op<T>>)
    decreases |ops|
  {
    ops != [] ==> Accepted(sch, recs, ops[0]) && AllAccepted(sch, Effect(recs, ops[0]), ops[1..])
  }

  /**
   * A run throws nothing if and only if a plain map accepts every operation, whatever keys its puts change;
   * its effect on the records is then that of the same operations on the map, and no index misses a record.
   */
  lemma {:induction false} RunOnComplete<T(!new)>(sch: Schema<T>, s: Store, ops: seq<Op<T>>)
    requires |sch.keys| == SLOTS && RoundTrips(sch) && TablesSound(s) && Complete(sch, s)
    ensures NoneThrows(sch, s, ops) <==> AllAccepted(sch, Records(sch, s.main), ops)
    ensures NoneThrows(sch, s, ops) ==>
              && Records(sch, Run(sch, s, ops).main) == Effects(Records(sch, s.main), ops)
              && Complete(sch, Run(sch, s, ops))
    decreases |ops|
  {
    hide Apply, Accepted, Complete, TablesSound, Records;
    SoundIds(s);
    if ops != [] {
      ApplyOnComplete(sch, s, ops[0]);
      if Apply(sch, s, ops[0]).1.Pass? {
        ApplyKeepsTables(sch, s, ops[0]);
        RunOnComplete(sch, Apply(sch, s, ops[0]).0, ops[1..]);
      }
    }
  }

  /** Index tables are a function of the records: however two stores came about, equal records have equal indexes. */
  lemma IndexesAreDetermined<T>(sch: Schema<T>, s: Store, u: Store)
    requires Indexed(sch, s) && Indexed(sch, u)
    requires Records(sch, s.main) == Records(sch, u.main)
    ensures s.idx == u.idx
  {
    forall n | 0 <= n < SLOTS ensures s.idx[n] == u.idx[n] {
      if sch.keys[n].IndexOn? {
        SortedIsCanonical(s.idx[n], u.idx[n]);
      }
    }
  }

  // ----- counting -----

  function KeysOf(rows: Index): set<Bytes> {
    set e | e in rows :: e.key
  }

  lemma {:induction false} MainSize(m: Main)
    requires Ascending(m)
    ensures |AsMap(m)| == |m|
  {
    if m != [] {
      var init, last := m[..|m| - 1], m[|m| - 1];
      MainSize(init);
      if last.key in AsMap(init) { RowUnder(init, last.key); }
      assert AsMap(m).Keys == AsMap(init).Keys + {last.key};
    }
  }

  lemma {:induction false} WantedSize<T>(key: T -> Bytes, recs: map<Id, T>)
    ensures |Wanted(key, recs)| == |recs|
    decreases |recs|
  {
    if recs == map[] {
      assert Wanted(key, recs) == {};
    } else {
      var id :| id in recs;
      WantedDel(key, recs, id);
      WantedSize(key, recs - {id});
      assert recs.Keys == (recs - {id}).Keys + {id};
    }
  }

  /** A set of numbers from 1 to n has at most n elements. */
  lemma {:induction false} AtMost(s: set<Id>, n: nat)
    requires forall i :: i in s ==> 1 <= i <= n
    ensures |s| <= n
  {
    if n == 0 {
      assert s == {};
    } else if n < WRAP {
      AtMost(s - {n}, n - 1);
      assert s <= (s - {n}) + {n};
    } else {
      AtMost(s, n - 1);
    }
  }

  /** Distinct nonzero 32-bit ids bound the table, so no count of it is truncated; every index has its size. */
  lemma SizesAgree<T>(sch: Schema<T>, s: Store, n: nat)
    requires Indexed(sch, s) && n < SLOTS
    ensures |s.main| == |Records(sch, s.main)| < WRAP
    ensures sch.keys[n].IndexOn? ==> |s.idx[n]| == |s.main|
  {
    var recs := Records(sch, s.main);
    MainSize(s.main);
    assert recs.Keys == AsMap(s.main).Keys;
    AtMost(recs.Keys, WRAP - 1);
    if sch.keys[n].IndexOn? {
      SortedHasNoDuplicates(s.idx[n]);
      WantedSize(sch.keys[n].key, recs);
    }
  }

  /** The keys of an index are the keys of the records. */
  lemma IndexKeys<T>(sch: Schema<T>, s: Store, n: nat)
    requires Indexed(sch, s) && n < SLOTS && sch.keys[n].IndexOn?
    ensures var recs := Records(sch, s.main);
            KeysOf(s.idx[n]) == set id | id in recs :: sch.keys[n].key(recs[id])
  {
    var recs, key := Records(sch, s.main), sch.keys[n].key;
    forall k ensures k in KeysOf(s.idx[n]) <==> exists id :: id in recs && key(recs[id]) == k {
      if k in KeysOf(s.idx[n]) {
        var e :| e in s.idx[n] && e.key == k;
        assert e in Wanted(key, recs);
      }
      if id :| id in recs && key(recs[id]) == k {
        assert Entry(k, IdBytes(id)) in Elems(s.idx[n]);
      }
    }
  }

  lemma {:induction false} FewerKeys(rows: Index)
    ensures |KeysOf(rows)| <= |rows|
  {
    if rows != [] {
      FewerKeys(rows[1..]);
      assert rows == [rows[0]] + rows[1..];
      assert KeysOf(rows) == KeysOf(rows[1..]) + {rows[0].key};
    }
  }
}
