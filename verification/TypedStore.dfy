/**
 * The typed store as a value: one main table, four index tables, and what put, modify, del and clear do
 * to them, including the tables an exception leaves behind. The lemmas tie the tables to the plain map
 * from id to record that the store stands for.
 */
module TypedStore {
  import opened ByteOrder
  import opened IdCodec
  import opened Lmdb
  import opened Options

  const SLOTS := 4

  // ----- schema -----

  /** One of the four index parameters: nullindex_t, or keyConv after getMember. */
  datatype KeyFn<!T> = NullIndex | IndexOn(key: T -> Bytes)

  /** serToString, serFromString and the four indexes of a TypedDBI. */
  datatype Schema<!T> = Schema(ser: T -> Bytes, des: Bytes -> T, keys: seq<KeyFn<T>>) {
    ghost predicate Valid() {
      |keys| == SLOTS
    }
  }

  /** What the library asks of a serializer. */
  ghost predicate RoundTrips<T(!new)>(sch: Schema<T>) {
    forall t :: sch.des(sch.ser(t)) == t
  }

  // ----- exceptions -----

  /** The std::runtime_error each call can end in. */
  datatype Error =
    | PuttingData(rc: Rc)
    | GettingData(rc: Rc)
    | DeletingData(rc: Rc)
    | DeletingFromIndex(rc: Rc)
    | CursorGetFailed(rc: Rc)
    | CouldNotModify(id: Id)
    | MissingId
    | WrongLength

  datatype Outcome = Pass | Throw(error: Error) {
    predicate IsFailure() { Throw? }
    function PropagateFailure(): Outcome requires Throw? { this }
  }

  datatype Result<+R> = Ok(value: R) | Threw(error: Error)

  // ----- the tables and the operations on them -----

  datatype Store = Store(main: Main, idx: seq<Index>)

  const EMPTY := Store([], [[], [], [], []])

  /** LMDBIndexOps::put on one index. */
  function PutOne<T>(k: KeyFn<T>, rows: Index, t: T, id: Id): Result<Index> {
    match k
    case NullIndex => Ok(rows)
    case IndexOn(key) =>
      if !KeyFits(key(t)) then Threw(PuttingData(BadValSize)) else Ok(PutPair(rows, Entry(key(t), IdBytes(id))))
  }

  /** LMDBIndexOps::del on one index. */
  function DelOne<T>(k: KeyFn<T>, rows: Index, t: T, id: Id): Result<Index> {
    match k
    case NullIndex => Ok(rows)
    case IndexOn(key) =>
      if key(t) == [] then Threw(DeletingData(BadValSize))
      else
        var (rc, r) := DelPair(rows, Entry(key(t), IdBytes(id)));
        if rc == Success then Ok(r) else Threw(DeletingFromIndex(rc))
  }

  function OneCall<T>(k: KeyFn<T>, rows: Index, t: T, id: Id, put: bool): Result<Index> {
    if put then PutOne(k, rows, t, id) else DelOne(k, rows, t, id)
  }

  /** The calls of insertMacro or clearMacro from slot n on: the first exception stops them. */
  function Broadcast<T>(sch: Schema<T>, idx: seq<Index>, t: T, id: Id, put: bool, n: nat): (r: (Outcome, seq<Index>))
    requires |sch.keys| == |idx| == SLOTS && n <= SLOTS
    ensures |r.1| == SLOTS
    decreases SLOTS - n
  {
    if n == SLOTS then (Pass, idx)
    else
      match OneCall(sch.keys[n], idx[n], t, id, put)
      case Threw(e) => (Throw(e), idx)
      case Ok(rows) => Broadcast(sch, idx[n := rows], t, id, put, n + 1)
  }

  /** MDBGetMaxID. */
  function MaxId(m: Main): Id {
    if m == [] then 0 else m[|m| - 1].key
  }

  /** The id put works with: id 0 asks for the successor of the highest one, in unsigned arithmetic. */
  function ChosenId(m: Main, id: Id): Id {
    if id == 0 then (MaxId(m) + 1) % WRAP else id
  }

  function PutStore<T>(sch: Schema<T>, s: Store, t: T, id: Id): (r: (Store, Outcome))
    requires |sch.keys| == |s.idx| == SLOTS
    ensures |r.0.idx| == SLOTS
  {
    var (rc, main) := MainPut(s.main, ChosenId(s.main, id), sch.ser(t), id == 0);
    if rc != Success then (s, Throw(PuttingData(rc)))
    else
      var (o, idx) := Broadcast(sch, s.idx, t, ChosenId(s.main, id), true, 0);
      (Store(main, idx), o)
  }

  function DelStore<T>(sch: Schema<T>, s: Store, id: Id): (r: (Store, Outcome))
    requires |sch.keys| == |s.idx| == SLOTS
    ensures |r.0.idx| == SLOTS
  {
    var (found, data) := MainGet(s.main, id);
    if found != Success then (s, Pass)
    else
      var (o, idx) := Broadcast(sch, s.idx, sch.des(data), id, false, 0);
      (Store(MainDel(s.main, id).1, idx), o)
  }

  function ModifyStore<T>(sch: Schema<T>, s: Store, id: Id, func: T -> T): (r: (Store, Outcome))
    requires |sch.keys| == |s.idx| == SLOTS
    ensures |r.0.idx| == SLOTS
  {
    var (found, data) := MainGet(s.main, id);
    if found != Success then (s, Throw(CouldNotModify(id)))
    else
      var (s1, o) := DelStore(sch, s, id);
      if o.Throw? then (s1, o) else PutStore(sch, s1, func(sch.des(data)), id)
  }

  /** clear: the first row leaves the indexes, then the main table, until no row is left. */
  function ClearStore<T>(sch: Schema<T>, s: Store): (r: (Store, Outcome))
    requires |sch.keys| == |s.idx| == SLOTS
    ensures |r.0.idx| == SLOTS
    decreases |s.main|
  {
    if s.main == [] then (s, Pass)
    else
      var (o, idx) := Broadcast(sch, s.idx, sch.des(s.main[0].val), s.main[0].key, false, 0);
      if o.Throw? then (Store(s.main, idx), o) else ClearStore(sch, Store(s.main[1..], idx))
  }

  /** get through an index: the id found there and the record of that id, or id 0. */
  function ReadBy<T>(sch: Schema<T>, main: Main, rows: Index, key: Bytes): Result<(Id, Option<T>)> {
    match IndexGet(rows, key)
    case (NotFound, _) => Ok((0, None))
    case (Success, val) =>
      if |val| != 4 then Threw(WrongLength)
      else
        (match MainGet(main, IdOf(val))
         case (Success, data) => Ok((IdOf(val), Some(sch.des(data))))
         case _ => Ok((0, None)))
    case (rc, _) => Threw(GettingData(rc))
  }

  // ----- what the tables mean -----

  /** The record stored under each id. */
  ghost function Records<T>(sch: Schema<T>, m: Main): map<Id, T> {
    map id | id in AsMap(m) :: sch.des(AsMap(m)[id])
  }

  /** The pairs an index must hold: (key of the record, its id) for every record. */
  ghost function Wanted<T>(key: T -> Bytes, recs: map<Id, T>): set<Pair> {
    set id | id in recs :: Entry(key(recs[id]), IdBytes(id))
  }

  ghost predicate Agrees<T>(k: KeyFn<T>, rows: Index, recs: map<Id, T>) {
    match k
    case NullIndex => rows == []
    case IndexOn(key) =>
      && Sorted(rows)
      && Elems(rows) == Wanted(key, recs)
      && forall id :: id in recs ==> KeyFits(key(recs[id]))
  }

  /** Ids ascend and none is 0; every index is exactly the index of the main table. */
  ghost predicate Indexed<T>(sch: Schema<T>, s: Store) {
    && |sch.keys| == |s.idx| == SLOTS
    && Ascending(s.main)
    && 0 !in Records(sch, s.main)
    && AllAgree(sch, s.idx, Records(sch, s.main))
  }

  /** What the ids of the main table satisfy whatever has happened to it: they ascend and none is 0. */
  ghost predicate IdsSound(m: Main) {
    Ascending(m) && 0 !in AsMap(m)
  }

  /** What an index table satisfies whatever has happened to it. */
  ghost predicate RowsSound(rows: Index) {
    Sorted(rows) && forall e :: e in rows ==> |e.val| == 4 && KeyFits(e.key)
  }

  ghost predicate TablesSound(s: Store) {
    |s.idx| == SLOTS && IdsSound(s.main) && forall n :: 0 <= n < SLOTS ==> RowsSound(s.idx[n])
  }

  /** The pair a real index should have for a record; a null index has none. */
  ghost function PairOf<T>(k: KeyFn<T>, t: T, id: Id): set<Pair> {
    match k
    case NullIndex => {}
    case IndexOn(key) => {Entry(key(t), IdBytes(id))}
  }

  /** No index misses a pair of a stored record; it may hold others besides. */
  ghost predicate Complete<T>(sch: Schema<T>, s: Store)
    requires |sch.keys| == |s.idx| == SLOTS
  {
    forall id :: id in Records(sch, s.main) ==> HasPairs(sch, s.idx, Records(sch, s.main)[id], id)
  }

  ghost predicate HasPairs<T>(sch: Schema<T>, idx: seq<Index>, t: T, id: Id)
    requires |sch.keys| == |idx| == SLOTS
  {
    forall n :: 0 <= n < SLOTS ==> PairOf(sch.keys[n], t, id) <= Elems(idx[n])
  }

  ghost predicate AllAgree<T>(sch: Schema<T>, idx: seq<Index>, recs: map<Id, T>)
    requires |sch.keys| == |idx| == SLOTS
  {
    forall n :: 0 <= n < SLOTS ==> Agrees(sch.keys[n], idx[n], recs)
  }

  /** Every real index can hold the record's key: between 1 and 511 bytes. */
  ghost predicate KeysFit<T>(sch: Schema<T>, t: T) {
    forall n :: 0 <= n < |sch.keys| && sch.keys[n].IndexOn? ==> KeyFits(sch.keys[n].key(t))
  }

  /** Two records have the same key in every real index. */
  ghost predicate SameKeys<T>(sch: Schema<T>, t: T, u: T) {
    forall n :: 0 <= n < |sch.keys| && sch.keys[n].IndexOn? ==> sch.keys[n].key(t) == sch.keys[n].key(u)
  }

  // ----- one index -----

  lemma WantedPut<T>(key: T -> Bytes, recs: map<Id, T>, id: Id, t: T)
    requires id in recs ==> key(recs[id]) == key(t)
    ensures Wanted(key, recs[id := t]) == Wanted(key, recs) + {Entry(key(t), IdBytes(id))}
  {
    var recs' := recs[id := t];
    forall e ensures e in Wanted(key, recs') <==> e in Wanted(key, recs) || e == Entry(key(t), IdBytes(id)) {
      if e in Wanted(key, recs) {
        var i :| i in recs && e == Entry(key(recs[i]), IdBytes(i));
        assert i in recs' && e == Entry(key(recs'[i]), IdBytes(i));
      }
      if e == Entry(key(t), IdBytes(id)) {
        assert id in recs' && e == Entry(key(recs'[id]), IdBytes(id));
      }
    }
  }

  lemma WantedDel<T>(key: T -> Bytes, recs: map<Id, T>, id: Id)
    requires id in recs
    ensures Entry(key(recs[id]), IdBytes(id)) in Wanted(key, recs)
    ensures Wanted(key, recs - {id}) == Wanted(key, recs) - {Entry(key(recs[id]), IdBytes(id))}
  {
    var recs' := recs - {id};
    var gone := Entry(key(recs[id]), IdBytes(id));
    forall e ensures e in Wanted(key, recs') <==> e in Wanted(key, recs) && e != gone {
      if e in Wanted(key, recs) && e != gone {
        var i :| i in recs && e == Entry(key(recs[i]), IdBytes(i));
        assert i in recs' && e == Entry(key(recs'[i]), IdBytes(i));
      }
      if e in Wanted(key, recs') {
        var i :| i in recs' && e == Entry(key(recs'[i]), IdBytes(i));
        assert i in recs;
        if e == gone { IdBytesInjective(i, id); }
      }
    }
  }

  /** An index holds at most one pair for an id: the one with the key of that id's record. */
  lemma WantedKey<T>(key: T -> Bytes, recs: map<Id, T>, k: Bytes, id: Id)
    requires Entry(k, IdBytes(id)) in Wanted(key, recs)
    ensures id in recs && k == key(recs[id])
  {
    hide IdBytes;
    var i :| i in recs && Entry(k, IdBytes(id)) == Entry(key(recs[i]), IdBytes(i));
    IdBytesInjective(i, id);
  }

  lemma PutOneAgrees<T>(k: KeyFn<T>, rows: Index, recs: map<Id, T>, t: T, id: Id)
    requires Agrees(k, rows, recs)
    ensures PutOne(k, rows, t, id).Threw? <==> k.IndexOn? && !KeyFits(k.key(t))
    ensures PutOne(k, rows, t, id).Ok? ==>
              (Agrees(k, PutOne(k, rows, t, id).value, recs[id := t]) <==>
               (k.IndexOn? && id in recs ==> k.key(recs[id]) == k.key(t)))
  {
    if k.IndexOn? && KeyFits(k.key(t)) {
      var e := Entry(k.key(t), IdBytes(id));
      PutPairAdds(rows, e);
      if id in recs && k.key(recs[id]) != k.key(t) {
        var stale := Entry(k.key(recs[id]), IdBytes(id));
        assert stale in Wanted(k.key, recs);
        if stale in Wanted(k.key, recs[id := t]) {
          WantedKey(k.key, recs[id := t], stale.key, id);
        }
      } else {
        WantedPut(k.key, recs, id, t);
      }
    }
  }

  lemma DelOneAgrees<T>(k: KeyFn<T>, rows: Index, recs: map<Id, T>, id: Id)
    requires Agrees(k, rows, recs) && id in recs
    ensures DelOne(k, rows, recs[id], id).Ok?
    ensures Agrees(k, DelOne(k, rows, recs[id], id).value, recs - {id})
  {
    if k.IndexOn? {
      var e := Entry(k.key(recs[id]), IdBytes(id));
      WantedDel(k.key, recs, id);
      assert e in Elems(rows);
      DelPairRemoves(rows, e);
    }
  }

  // ----- all indexes -----

  /** Without an exception every index from slot n on sees its call; the earlier ones are left alone. */
  lemma {:induction false} BroadcastReaches<T>(sch: Schema<T>, idx: seq<Index>, t: T, id: Id, put: bool, n: nat)
    requires |sch.keys| == |idx| == SLOTS && n <= SLOTS
    ensures var (o, r) := Broadcast(sch, idx, t, id, put, n);
            && (o.Pass? <==> forall i :: n <= i < SLOTS ==> OneCall(sch.keys[i], idx[i], t, id, put).Ok?)
            && (o.Pass? ==> forall i :: n <= i < SLOTS ==> r[i] == OneCall(sch.keys[i], idx[i], t, id, put).value)
            && forall i :: 0 <= i < n ==> r[i] == idx[i]
    decreases SLOTS - n
  {
    if n < SLOTS {
      var first := OneCall(sch.keys[n], idx[n], t, id, put);
      if first.Ok? {
        var idx' := idx[n := first.value];
        BroadcastReaches(sch, idx', t, id, put, n + 1);
        assert forall i :: n < i < SLOTS ==> idx'[i] == idx[i];
        assert forall i :: n < i < SLOTS ==>
          OneCall(sch.keys[i], idx'[i], t, id, put) == OneCall(sch.keys[i], idx[i], t, id, put);
      }
    }
  }

  lemma BroadcastPutAgrees<T>(sch: Schema<T>, idx: seq<Index>, recs: map<Id, T>, t: T, id: Id)
    requires |sch.keys| == |idx| == SLOTS
    requires AllAgree(sch, idx, recs)
    ensures var (o, r) := Broadcast(sch, idx, t, id, true, 0);
            && (o.Pass? <==> KeysFit(sch, t))
            && (o.Pass? ==> (AllAgree(sch, r, recs[id := t]) <==> id in recs ==> SameKeys(sch, recs[id], t)))
  {
    BroadcastReaches(sch, idx, t, id, true, 0);
    forall n | 0 <= n < SLOTS
      ensures OneCall(sch.keys[n], idx[n], t, id, true).Threw? <==>
              sch.keys[n].IndexOn? && !KeyFits(sch.keys[n].key(t))
      ensures OneCall(sch.keys[n], idx[n], t, id, true).Ok? ==>
                (Agrees(sch.keys[n], OneCall(sch.keys[n], idx[n], t, id, true).value, recs[id := t]) <==>
                 (sch.keys[n].IndexOn? && id in recs ==> sch.keys[n].key(recs[id]) == sch.keys[n].key(t)))
    {
      PutOneAgrees(sch.keys[n], idx[n], recs, t, id);
    }
  }

  lemma BroadcastDelAgrees<T>(sch: Schema<T>, idx: seq<Index>, recs: map<Id, T>, id: Id)
    requires |sch.keys| == |idx| == SLOTS
    requires AllAgree(sch, idx, recs) && id in recs
    ensures var (o, r) := Broadcast(sch, idx, recs[id], id, false, 0);
            o.Pass? && AllAgree(sch, r, recs - {id})
  {
    BroadcastReaches(sch, idx, recs[id], id, false, 0);
    forall n | 0 <= n < SLOTS
      ensures OneCall(sch.keys[n], idx[n], recs[id], id, false).Ok?
      ensures Agrees(sch.keys[n], OneCall(sch.keys[n], idx[n], recs[id], id, false).value, recs - {id})
    {
      DelOneAgrees(sch.keys[n], idx[n], recs, id);
    }
  }

  // ----- the operations -----

  /** The highest id in use, 0 for none. */
  ghost predicate IsHighest<T>(recs: map<Id, T>, top: Id) {
    && (forall i :: i in recs ==> i <= top)
    && (top in recs || (recs == map[] && top == 0))
  }

  lemma MaxIdIsHighest<T>(sch: Schema<T>, m: Main)
    requires Ascending(m)
    ensures IsHighest(Records(sch, m), MaxId(m))
  {
    forall i | i in AsMap(m) ensures m != [] && i <= MaxId(m) {
      RowUnder(m, i);
    }
  }

  lemma RecordsPut<T>(sch: Schema<T>, m: Main, r: Main, id: Id, val: Bytes)
    requires AsMap(r) == AsMap(m)[id := val]
    ensures Records(sch, r) == Records(sch, m)[id := sch.des(val)]
  {
  }

  lemma RecordsDel<T>(sch: Schema<T>, m: Main, r: Main, id: Id)
    requires AsMap(r) == AsMap(m) - {id}
    ensures Records(sch, r) == Records(sch, m) - {id}
  {
  }

  /**
   * put with an id. It throws exactly when an index cannot hold a key, and then leaves a store that is not
   * rightly indexed. Over a stored id it keeps the indexes right exactly when no index key changes.
   */
  lemma PutGiven<T(!new)>(sch: Schema<T>, s: Store, t: T, id: Id)
    requires RoundTrips(sch) && Indexed(sch, s) && id != 0
    ensures PutStore(sch, s, t, id).1.Pass? <==> KeysFit(sch, t)
    ensures KeysFit(sch, t) ==>
              var recs, s' := Records(sch, s.main), PutStore(sch, s, t, id).0;
              && Records(sch, s'.main) == recs[id := t]
              && (Indexed(sch, s') <==> id in recs ==> SameKeys(sch, recs[id], t))
    ensures !KeysFit(sch, t) ==> !Indexed(sch, PutStore(sch, s, t, id).0)
  {
    MainPutUpdates(s.main, id, sch.ser(t), false);
    RecordsPut(sch, s.main, MainPut(s.main, id, sch.ser(t), false).1, id, sch.ser(t));
    BroadcastPutAgrees(sch, s.idx, Records(sch, s.main), t, id);
    UnfitIsNotIndexed(sch, PutStore(sch, s, t, id).0, id);
  }

  /** A record that an index cannot hold makes the indexes wrong, whatever they contain. */
  lemma UnfitIsNotIndexed<T>(sch: Schema<T>, s: Store, id: Id)
    requires id in Records(sch, s.main) && |sch.keys| == SLOTS
    ensures Indexed(sch, s) ==> KeysFit(sch, Records(sch, s.main)[id])
  {
  }

  /**
   * The automatic id: above every stored one, except that after 2^32 - 1 it wraps to 0, and then
   * MDB_APPEND refuses the row.
   */
  lemma FreshId(m: Main, val: Bytes)
    requires Ascending(m)
    ensures var id := ChosenId(m, 0);
            if WRAP - 1 in AsMap(m) then id == 0 && MainPut(m, id, val, true) == (KeyExist, m)
            else
              && id != 0 && MainPut(m, id, val, true) == (Success, m + [Entry(id, val)])
              && forall i :: i in AsMap(m) ==> i < id
  {
    if m != [] {
      Meaning(m, m[|m| - 1]);
    }
    forall i | i in AsMap(m) ensures m != [] && i <= MaxId(m) {
      RowUnder(m, i);
    }
  }

  /**
   * put without an id, whatever state the indexes are in. With 2^32 - 1 stored it throws and changes
   * nothing at all; otherwise its row arrives under a nonzero id above every stored one and no other row
   * changes, even if it then throws.
   */
  lemma PutFreshId<T>(sch: Schema<T>, s: Store, t: T)
    requires |sch.keys| == |s.idx| == SLOTS && Ascending(s.main)
    ensures WRAP - 1 in AsMap(s.main) ==> PutStore(sch, s, t, 0) == (s, Throw(PuttingData(KeyExist)))
    ensures WRAP - 1 !in AsMap(s.main) ==>
              var id := ChosenId(s.main, 0);
              && id != 0 && (forall i :: i in AsMap(s.main) ==> i < id)
              && PutStore(sch, s, t, 0).0.main == s.main + [Entry(id, sch.ser(t))]
  {
    hide Broadcast, MainPut, ChosenId;
    FreshId(s.main, sch.ser(t));
  }

  /**
   * The same from a right store: it throws exactly when the ids are used up or an index cannot hold a key.
   * Otherwise the record is added and the indexes stay right; after a throw they are right only if it
   * changed nothing.
   */
  lemma PutFresh<T(!new)>(sch: Schema<T>, s: Store, t: T)
    requires RoundTrips(sch) && Indexed(sch, s)
    ensures WRAP - 1 in Records(sch, s.main) ==> PutStore(sch, s, t, 0) == (s, Throw(PuttingData(KeyExist)))
    ensures WRAP - 1 !in Records(sch, s.main) ==>
              var recs, id, (s', o) := Records(sch, s.main), ChosenId(s.main, 0), PutStore(sch, s, t, 0);
              && (forall i :: i in recs ==> i < id)
              && (o.Pass? <==> KeysFit(sch, t))
              && (KeysFit(sch, t) <==> Indexed(sch, s'))
              && Records(sch, s'.main) == recs[id := t]
  {
    var recs, id := Records(sch, s.main), ChosenId(s.main, 0);
    FreshId(s.main, sch.ser(t));
    if WRAP - 1 !in recs {
      MainPutUpdates(s.main, id, sch.ser(t), true);
      RecordsPut(sch, s.main, MainPut(s.main, id, sch.ser(t), true).1, id, sch.ser(t));
      BroadcastPutAgrees(sch, s.idx, recs, t, id);
      UnfitIsNotIndexed(sch, PutStore(sch, s, t, 0).0, id);
    }
  }

  /** del never throws; it removes the record, or does nothing when there is none. */
  lemma DelRefines<T>(sch: Schema<T>, s: Store, id: Id)
    requires Indexed(sch, s)
    ensures DelStore(sch, s, id).1.Pass?
    ensures Records(sch, DelStore(sch, s, id).0.main) == Records(sch, s.main) - {id}
    ensures Indexed(sch, DelStore(sch, s, id).0)
  {
    var recs := Records(sch, s.main);
    MainGetReads(s.main, id);
    MainDelRemoves(s.main, id);
    RecordsDel(sch, s.main, MainDel(s.main, id).1, id);
    if id in recs {
      BroadcastDelAgrees(sch, s.idx, recs, id);
    }
  }

  /**
   * modify throws exactly when there is no such record, and then changes nothing, or an index cannot hold a
   * key of the new one, and then leaves a store that is not rightly indexed.
   */
  lemma ModifyRefines<T(!new)>(sch: Schema<T>, s: Store, id: Id, func: T -> T)
    requires RoundTrips(sch) && Indexed(sch, s)
    ensures var recs, (s', o) := Records(sch, s.main), ModifyStore(sch, s, id, func);
            && (o.Pass? <==> id in recs && KeysFit(sch, func(recs[id])))
            && (o.Pass? ==> Records(sch, s'.main) == recs[id := func(recs[id])] && Indexed(sch, s'))
            && (o.Throw? ==> if id in recs then !Indexed(sch, s') else s' == s)
  {
    hide DelStore, PutStore, KeysFit, SameKeys, AllAgree;
    var recs := Records(sch, s.main);
    MainGetReads(s.main, id);
    if id in recs {
      var t := func(recs[id]);
      DelRefines(sch, s, id);
      PutGiven(sch, DelStore(sch, s, id).0, t, id);
      RemoveThenAdd(recs, id, t);
    }
  }

  lemma RemoveThenAdd<K, V>(m: map<K, V>, k: K, v: V)
    ensures (m - {k})[k := v] == m[k := v]
  {
  }

  /** One turn of clear's loop leaves exactly the index of the rows that are left. */
  lemma ClearStep<T>(sch: Schema<T>, s: Store)
    requires Indexed(sch, s) && s.main != []
    ensures var (o, idx) := Broadcast(sch, s.idx, sch.des(s.main[0].val), s.main[0].key, false, 0);
            && o.Pass?
            && Indexed(sch, Store(s.main[1..], idx))
            && Records(sch, s.main[1..]) == Records(sch, s.main) - {s.main[0].key}
  {
    FirstRow(s.main);
    RecordsDel(sch, s.main, s.main[1..], s.main[0].key);
    BroadcastDelAgrees(sch, s.idx, Records(sch, s.main), s.main[0].key);
  }

  lemma FirstRow(m: Main)
    requires Ascending(m) && m != []
    ensures m[0].key in AsMap(m) && AsMap(m)[m[0].key] == m[0].val
    ensures Ascending(m[1..]) && AsMap(m[1..]) == AsMap(m) - {m[0].key}
  {
    Meaning(m, m[0]);
    RemovedRow(m, 0);
    assert m[..0] + m[1..] == m[1..];
  }

  /** clear never throws and empties the main table and every index. */
  lemma {:induction false} ClearEmpties<T>(sch: Schema<T>, s: Store)
    requires Indexed(sch, s)
    ensures ClearStore(sch, s) == (EMPTY, Pass)
    decreases |s.main|
  {
    if s.main == [] {
      forall n | 0 <= n < SLOTS ensures s.idx[n] == [] {
        EmptyIndex(sch.keys[n], s.idx[n], Records(sch, s.main));
      }
      assert s.idx == EMPTY.idx;
    } else {
      ClearStep(sch, s);
      ClearEmpties(sch, Store(s.main[1..],
        Broadcast(sch, s.idx, sch.des(s.main[0].val), s.main[0].key, false, 0).1));
    }
  }

  lemma EmptyIndex<T>(k: KeyFn<T>, rows: Index, recs: map<Id, T>)
    requires Agrees(k, rows, recs) && recs == map[]
    ensures rows == []
  {
    if k.IndexOn? {
      SortedHasNoDuplicates(rows);
      assert Elems(rows) == {};
    }
  }

  // ----- stores in any state -----

  lemma PutOneAdds<T>(k: KeyFn<T>, rows: Index, t: T, id: Id)
    requires RowsSound(rows)
    ensures PutOne(k, rows, t, id).Threw? <==> k.IndexOn? && !KeyFits(k.key(t))
    ensures PutOne(k, rows, t, id).Threw? ==> PutOne(k, rows, t, id) == Threw(PuttingData(BadValSize))
    ensures PutOne(k, rows, t, id).Ok? ==>
              RowsSound(PutOne(k, rows, t, id).value) &&
              Elems(PutOne(k, rows, t, id).value) == Elems(rows) + PairOf(k, t, id)
  {
    if k.IndexOn? && KeyFits(k.key(t)) {
      var e := Entry(k.key(t), IdBytes(id));
      PutPairAdds(rows, e);
      assert forall x :: x in PutPair(rows, e) ==> x in Elems(rows) + {e};
    }
  }

  lemma DelOneRemoves<T>(k: KeyFn<T>, rows: Index, t: T, id: Id)
    requires RowsSound(rows)
    ensures DelOne(k, rows, t, id).Ok? <==> PairOf(k, t, id) <= Elems(rows)
    ensures DelOne(k, rows, t, id).Threw? ==>
              k.IndexOn? &&
              DelOne(k, rows, t, id).error ==
              if k.key(t) == [] then DeletingData(BadValSize) else DeletingFromIndex(NotFound)
    ensures DelOne(k, rows, t, id).Ok? ==>
              RowsSound(DelOne(k, rows, t, id).value) &&
              Elems(DelOne(k, rows, t, id).value) == Elems(rows) - PairOf(k, t, id)
  {
    if k.IndexOn? {
      var e := Entry(k.key(t), IdBytes(id));
      DelPairRemoves(rows, e);
      assert e in PairOf(k, t, id);
      assert forall x :: x in DelPair(rows, e).1 ==> x in Elems(rows) - {e};
    }
  }

  /** What one call asks of its index, and what it makes of it. */
  ghost predicate CallWorks<T>(k: KeyFn<T>, rows: Index, t: T, id: Id, put: bool) {
    if put then k.IndexOn? ==> KeyFits(k.key(t)) else PairOf(k, t, id) <= Elems(rows)
  }

  ghost function ElemsAfter<T>(k: KeyFn<T>, rows: Index, t: T, id: Id, put: bool): set<Pair> {
    if put then Elems(rows) + PairOf(k, t, id) else Elems(rows) - PairOf(k, t, id)
  }

  /** The exception of a call that cannot work: a key of illegal size, or a pair that is not there. */
  ghost function CallError<T>(k: KeyFn<T>, t: T, put: bool): Error {
    if put then PuttingData(BadValSize)
    else if k.IndexOn? && k.key(t) == [] then DeletingData(BadValSize)
    else DeletingFromIndex(NotFound)
  }

  lemma OneCallWorks<T>(k: KeyFn<T>, rows: Index, t: T, id: Id, put: bool)
    requires RowsSound(rows)
    ensures OneCall(k, rows, t, id, put).Ok? <==> CallWorks(k, rows, t, id, put)
    ensures OneCall(k, rows, t, id, put).Threw? ==> OneCall(k, rows, t, id, put).error == CallError(k, t, put)
    ensures OneCall(k, rows, t, id, put).Ok? ==>
              RowsSound(OneCall(k, rows, t, id, put).value) &&
              Elems(OneCall(k, rows, t, id, put).value) == ElemsAfter(k, rows, t, id, put)
  {
    PutOneAdds(k, rows, t, id);
    DelOneRemoves(k, rows, t, id);
  }

  /** Exactly the calls from slot n up to slot k have been made. */
  ghost predicate CallsMade<T>(sch: Schema<T>, idx: seq<Index>, idx': seq<Index>, t: T, id: Id, put: bool, n: nat, k: nat)
    requires |sch.keys| == |idx| == |idx'| == SLOTS
  {
    && (forall i :: n <= i < k && i < SLOTS ==>
          CallWorks(sch.keys[i], idx[i], t, id, put) && Elems(idx'[i]) == ElemsAfter(sch.keys[i], idx[i], t, id, put))
    && (forall i :: 0 <= i < SLOTS && !(n <= i < k) ==> idx'[i] == idx[i])
    && (k < SLOTS ==> !CallWorks(sch.keys[k], idx[k], t, id, put))
  }

  /** The calls go on up to the first that cannot work; the ones before it have their effect, the others none. */
  lemma {:induction false} BroadcastStops<T>(sch: Schema<T>, idx: seq<Index>, t: T, id: Id, put: bool, n: nat)
    returns (k: nat)
    requires |sch.keys| == |idx| == SLOTS && n <= SLOTS
    requires forall i :: 0 <= i < SLOTS ==> RowsSound(idx[i])
    ensures n <= k <= SLOTS
    ensures var (o, r) := Broadcast(sch, idx, t, id, put, n);
            && (o.Pass? <==> k == SLOTS) && (o.Throw? ==> o.error == CallError(sch.keys[k], t, put))
            && (forall i :: 0 <= i < SLOTS ==> RowsSound(r[i]))
            && CallsMade(sch, idx, r, t, id, put, n, k)
    decreases SLOTS - n
  {
    hide RowsSound, CallWorks, ElemsAfter, OneCall, CallError;
    k := n;
    if n < SLOTS {
      OneCallWorks(sch.keys[n], idx[n], t, id, put);
      var first := OneCall(sch.keys[n], idx[n], t, id, put);
      if first.Ok? {
        k := BroadcastStops(sch, idx[n := first.value], t, id, put, n + 1);
      }
    }
  }

  /**
   * put on a store in any state. Unless the append is refused, the row is written, and the indexes up to the
   * first that cannot hold a key get their pair; it throws exactly when there is such an index.
   */
  lemma PutAnywhere<T>(sch: Schema<T>, s: Store, t: T, id: Id) returns (k: nat)
    requires |sch.keys| == SLOTS && TablesSound(s) && (id == 0 ==> WRAP - 1 !in AsMap(s.main))
    ensures k <= SLOTS
    ensures var (s', o) := PutStore(sch, s, t, id);
            && TablesSound(s')
            && AsMap(s'.main) == AsMap(s.main)[ChosenId(s.main, id) := sch.ser(t)]
            && o == (if k == SLOTS then Pass else Throw(PuttingData(BadValSize)))
            && CallsMade(sch, s.idx, s'.idx, t, ChosenId(s.main, id), true, 0, k)
  {
    hide Broadcast, CallsMade, RowsSound, MainPut, ChosenId, IdsSound, AsMap;
    RowArrives(s.main, id, sch.ser(t));
    k := BroadcastStops(sch, s.idx, t, ChosenId(s.main, id), true, 0);
  }

  /** The main table takes the row of a put. */
  lemma RowArrives(m: Main, id: Id, val: Bytes)
    requires IdsSound(m) && (id == 0 ==> WRAP - 1 !in AsMap(m))
    ensures var (rc, r), to := MainPut(m, ChosenId(m, id), val, id == 0), ChosenId(m, id);
            rc == Success && IdsSound(r) && AsMap(r) == AsMap(m)[to := val]
  {
    hide MainPut, ChosenId;
    FreshId(m, val);
    MainPutUpdates(m, ChosenId(m, id), val, id == 0);
    if id != 0 {
      GivenId(m, id);
    }
  }

  lemma GivenId(m: Main, id: Id)
    requires id != 0
    ensures ChosenId(m, id) == id
  {
  }

  /**
   * del of a stored id in any state. The row goes; the indexes lose its record's pairs up to the first that
   * misses one, and it throws exactly when one does.
   */
  lemma DelAnywhere<T>(sch: Schema<T>, s: Store, id: Id) returns (k: nat)
    requires |sch.keys| == SLOTS && TablesSound(s) && id in AsMap(s.main)
    ensures k <= SLOTS
    ensures var (s', o) := DelStore(sch, s, id);
            && TablesSound(s')
            && AsMap(s'.main) == AsMap(s.main) - {id}
            && o == (if k == SLOTS then Pass else Throw(CallError(sch.keys[k], sch.des(AsMap(s.main)[id]), false)))
            && CallsMade(sch, s.idx, s'.idx, sch.des(AsMap(s.main)[id]), id, false, 0, k)
  {
    hide Broadcast, CallsMade, RowsSound;
    MainGetReads(s.main, id);
    MainDelRemoves(s.main, id);
    k := BroadcastStops(sch, s.idx, sch.des(AsMap(s.main)[id]), id, false, 0);
  }

  /** modify in any state: nothing without a record; else what del and put of the new record do, in turn. */
  lemma ModifyAnywhere<T>(sch: Schema<T>, s: Store, id: Id, func: T -> T)
    requires |sch.keys| == |s.idx| == SLOTS && Ascending(s.main)
    ensures var m, (d, gone) := ModifyStore(sch, s, id, func), DelStore(sch, s, id);
            if id !in AsMap(s.main) then m == (s, Throw(CouldNotModify(id)))
            else if gone.Throw? then m == (d, gone)
            else m == PutStore(sch, d, func(sch.des(AsMap(s.main)[id])), id)
  {
    hide DelStore, PutStore;
    MainGetReads(s.main, id);
  }

  lemma DelNothing<T>(sch: Schema<T>, s: Store, id: Id)
    requires |sch.keys| == |s.idx| == SLOTS && Ascending(s.main) && id !in AsMap(s.main)
    ensures DelStore(sch, s, id) == (s, Pass)
  {
    MainGetReads(s.main, id);
  }
}
