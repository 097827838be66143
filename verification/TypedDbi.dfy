/**
 * The typed read-write transaction: put, modify, del and clear keep four indexes by hand; get, size and
 * cardinality read.
 */
module TypedDbi {
  import opened ByteOrder
  import opened IdCodec
  import opened Lmdb
  import opened Options
  import opened TypedStore
  import opened TypedRuns

  class RWTransaction<T(!new)> {
    const sch: Schema<T>
    var main: Main
    var idx: seq<Index>

    ghost predicate Valid()
      reads this
    {
      sch.Valid() && |idx| == SLOTS
    }

    /** The tables this transaction sees. */
    ghost function View(): Store
      reads this
    {
      Store(main, idx)
    }

    constructor (sch: Schema<T>, view: Store)
      requires sch.Valid() && |view.idx| == SLOTS
      ensures Valid() && this.sch == sch && View() == view
    {
      this.sch := sch;
      main, idx := view.main, view.idx;
    }

    // ----- writing -----

    /** LMDBIndexOps::put, or nullindex_t::put. */
    method IndexPut(n: nat, t: T, id: Id) returns (o: Outcome)
      requires Valid() && n < SLOTS
      modifies this`idx
      ensures Valid()
      ensures match PutOne(sch.keys[n], old(idx)[n], t, id)
              case Ok(rows) => o == Pass && idx == old(idx)[n := rows]
              case Threw(e) => o == Throw(e) && idx == old(idx)
    {
      if sch.keys[n].NullIndex? {
        return Pass;
      }
      var key := sch.keys[n].key(t);
      if !KeyFits(key) {
        return Throw(PuttingData(BadValSize));
      }
      idx := idx[n := PutPair(idx[n], Entry(key, IdBytes(id)))];
      return Pass;
    }

    /** LMDBIndexOps::del, or nullindex_t::del. */
    method IndexDel(n: nat, t: T, id: Id) returns (o: Outcome)
      requires Valid() && n < SLOTS
      modifies this`idx
      ensures Valid()
      ensures match DelOne(sch.keys[n], old(idx)[n], t, id)
              case Ok(rows) => o == Pass && idx == old(idx)[n := rows]
              case Threw(e) => o == Throw(e) && idx == old(idx)
    {
      if sch.keys[n].NullIndex? {
        return Pass;
      }
      var key := sch.keys[n].key(t);
      if key == [] {
        return Throw(DeletingData(BadValSize));
      }
      var (rc, rows) := DelPair(idx[n], Entry(key, IdBytes(id)));
      if rc != Success {
        return Throw(DeletingFromIndex(rc));
      }
      idx := idx[n := rows];
      return Pass;
    }

    /** The four calls of insertMacro. */
    method InsertIntoIndexes(t: T, id: Id) returns (o: Outcome)
      requires Valid()
      modifies this`idx
      ensures Valid()
      ensures (o, idx) == Broadcast(sch, old(idx), t, id, true, 0)
    {
      ghost var was := idx;
      assert Broadcast(sch, was, t, id, true, 0) == Broadcast(sch, idx, t, id, true, 0);
      :- IndexPut(0, t, id);
      assert Broadcast(sch, was, t, id, true, 0) == Broadcast(sch, idx, t, id, true, 1);
      :- IndexPut(1, t, id);
      assert Broadcast(sch, was, t, id, true, 0) == Broadcast(sch, idx, t, id, true, 2);
      :- IndexPut(2, t, id);
      assert Broadcast(sch, was, t, id, true, 0) == Broadcast(sch, idx, t, id, true, 3);
      :- IndexPut(3, t, id);
      return Pass;
    }

    /** clearIndex: the four calls of clearMacro. */
    method ClearIndex(id: Id, t: T) returns (o: Outcome)
      requires Valid()
      modifies this`idx
      ensures Valid()
      ensures (o, idx) == Broadcast(sch, old(idx), t, id, false, 0)
    {
      ghost var was := idx;
      assert Broadcast(sch, was, t, id, false, 0) == Broadcast(sch, idx, t, id, false, 0);
      :- IndexDel(0, t, id);
      assert Broadcast(sch, was, t, id, false, 0) == Broadcast(sch, idx, t, id, false, 1);
      :- IndexDel(1, t, id);
      assert Broadcast(sch, was, t, id, false, 0) == Broadcast(sch, idx, t, id, false, 2);
      :- IndexDel(2, t, id);
      assert Broadcast(sch, was, t, id, false, 0) == Broadcast(sch, idx, t, id, false, 3);
      :- IndexDel(3, t, id);
      return Pass;
    }

    /** MDBGetMaxID: 0 for an empty table. */
    method GetMaxId() returns (maxid: Id)
      ensures maxid == MaxId(main)
      ensures Ascending(main) ==> IsHighest(Records(sch, main), maxid)
    {
      maxid := 0;
      var (rc, cursor) := CursorGet(main, Unset, Last);
      if rc == Success {
        maxid := main[cursor.pos].key;
      }
      if Ascending(main) {
        MaxIdIsHighest(sch, main);
      }
    }

    method Put(t: T, id: Id) returns (r: Result<Id>)
      requires Valid()
      modifies this
      ensures Valid()
      ensures View() == PutStore(sch, old(View()), t, id).0
      ensures match PutStore(sch, old(View()), t, id).1
              case Pass => r == Ok(ChosenId(old(main), id))
              case Throw(e) => r == Threw(e)
    {
      hide Broadcast, MainPut, Records, IsHighest;
      var to, append := id, false;
      if id == 0 {
        var top := GetMaxId();
        to, append := (top + 1) % WRAP, true;
      }
      var (rc, rows) := MainPut(main, to, sch.ser(t), append);
      if rc != Success {
        return Threw(PuttingData(rc));
      }
      main := rows;
      var o := InsertIntoIndexes(t, to);
      if o.Throw? {
        return Threw(o.error);
      }
      return Ok(to);
    }

    /** get by id. */
    method Get(id: Id) returns (r: Option<T>)
      ensures r == match MainGet(main, id) { case (Success, data) => Some(sch.des(data)) case _ => None }
      ensures Ascending(main) ==>
                r == if id in Records(sch, main) then Some(Records(sch, main)[id]) else None
    {
      var (rc, data) := MainGet(main, id);
      if Ascending(main) {
        MainGetReads(main, id);
      }
      r := if rc == Success then Some(sch.des(data)) else None;
    }

    method Del(id: Id) returns (o: Outcome)
      requires Valid()
      modifies this
      ensures Valid()
      ensures (View(), o) == DelStore(sch, old(View()), id)
    {
      var t := Get(id);
      if t.None? {
        return Pass;
      }
      main := MainDel(main, id).1;
      o := ClearIndex(id, t.value);
    }

    method Modify(id: Id, func: T -> T) returns (o: Outcome)
      requires Valid()
      modifies this
      ensures Valid()
      ensures (View(), o) == ModifyStore(sch, old(View()), id, func)
    {
      hide PutStore, DelStore, Records;
      var t := Get(id);
      if t.None? {
        return Throw(CouldNotModify(id));
      }
      :- Del(id);
      var r := Put(func(t.value), id);
      match r
      case Threw(e) => return Throw(e);
      case Ok(_) => return Pass;
    }

    /** clear deletes through the cursor it walks with. From a rightly indexed store nothing is left. */
    method Clear() returns (o: Outcome)
      requires Valid()
      modifies this
      ensures Valid()
      ensures (View(), o) == ClearStore(sch, old(View()))
      ensures Indexed(sch, old(View())) ==> o == Pass && View() == EMPTY
    {
      hide Broadcast, Indexed, Records;
      if Indexed(sch, View()) {
        ClearEmpties(sch, View());
      }
      var first, cursor := true, Unset;
      while true
        invariant Valid()
        invariant cursor == if first then Unset else At(0, true)
        invariant ClearStore(sch, View()) == ClearStore(sch, old(View()))
        invariant Indexed(sch, old(View())) ==> Indexed(sch, View())
        decreases |main|
      {
        var (rc, c) := CursorGet(main, cursor, if first then First else Next);
        if rc != Success {
          return Pass;
        }
        first := false;
        var row := main[c.pos];
        if Indexed(sch, View()) {
          ClearStep(sch, View());
        }
        :- ClearIndex(row.key, sch.des(row.val));
        assert main[..0] + main[1..] == main[1..];
        var (_, rows, at) := CursorDel(main, c);
        main, cursor := rows, at;
      }
    }

    // ----- reading -----

    /**
     * get through index n. The first pair under the key decides: its id and record if the id is stored, and
     * id 0 if it is not, or if no pair has the key.
     */
    method GetBy(n: nat, key: Bytes) returns (r: Result<(Id, Option<T>)>)
      requires Valid() && n < SLOTS && sch.keys[n].IndexOn?
      ensures r == ReadBy(sch, main, idx[n], key)
      ensures key == [] ==> r == Threw(GettingData(BadValSize))
      ensures Ascending(main) && r.Ok? && r.value.0 != 0 ==>
                r.value.0 in Records(sch, main) && r.value.1 == Some(Records(sch, main)[r.value.0])
      ensures Sorted(idx[n]) && key != [] && (forall e :: e in idx[n] ==> e.key != key) ==> r == Ok((0, None))
      ensures Sorted(idx[n]) && Ascending(main) && key != [] ==>
                forall p: nat :: IsFirstUnder(idx[n], key, p) ==> r == Answer(Records(sch, main), idx[n][p].val)
      ensures Indexed(sch, View()) ==>
                && (r.Threw? <==> key == [])
                && (r.Ok? ==> FirstMatch(sch.keys[n].key, Records(sch, main), key, r.value.0))
                && (r.Ok? ==> r.value.1 == if r.value.0 == 0 then None else Some(Records(sch, main)[r.value.0]))
    {
      hide Indexed, Records, IndexGet, FirstMatch, IsFirstUnder, Answer, Sorted, Ascending;
      LookupsAnswer(sch, main, idx[n], key);
      if Indexed(sch, View()) {
        LookupsAreRight(sch, View(), n, key);
      }
      var (rc, val) := IndexGet(idx[n], key);
      if rc !in {Success, NotFound} {
        return Threw(GettingData(rc));
      }
      if rc == Success {
        if |val| != 4 {
          return Threw(WrongLength);
        }
        var t := Get(IdOf(val));
        if t.Some? {
          return Ok((IdOf(val), t));
        }
      }
      return Ok((0, None));
    }

    /** Entries in the main table, as a uint32_t. */
    method Size() returns (size: Id)
      requires Valid()
      ensures Ascending(main) ==> size == |AsMap(main)| % WRAP
      ensures Indexed(sch, View()) ==> size == |Records(sch, main)|
    {
      size := |main| % WRAP;
      if Ascending(main) {
        MainSize(main);
      }
      if Indexed(sch, View()) {
        SizesAgree(sch, View(), 0);
      }
    }

    /** Entries in index n, stale ones included, as a uint32_t. */
    method IndexSize(n: nat) returns (size: Id)
      requires Valid() && n < SLOTS && sch.keys[n].IndexOn?
      ensures Sorted(idx[n]) ==> size == |Elems(idx[n])| % WRAP
      ensures Indexed(sch, View()) ==> size == |Records(sch, main)|
    {
      size := |idx[n]| % WRAP;
      if Sorted(idx[n]) {
        SortedHasNoDuplicates(idx[n]);
      }
      if Indexed(sch, View()) {
        SizesAgree(sch, View(), n);
      }
    }

    /** Distinct keys of index n. */
    method Cardinality(n: nat) returns (count: Id)
      requires Valid() && n < SLOTS && sch.keys[n].IndexOn?
      ensures Sorted(idx[n]) ==> count == |KeysOf(idx[n])| % WRAP
      ensures Indexed(sch, View()) ==>
                count == |set id | id in Records(sch, main) :: sch.keys[n].key(Records(sch, main)[id])|
    {
      hide KeysOf, Indexed, Sorted, Records, CursorGet, GroupEnds;
      var rows := idx[n];
      var first, cursor := true, Unset;
      count := 0;
      ghost var seen := 0;
      NoKeys(rows);
      StartOfGroups(rows);
      while true
        invariant seen <= |rows| && GroupEnds(rows, cursor, first, seen)
        invariant Sorted(rows) ==> count == |KeysOf(rows[..seen])| % WRAP
        decreases |rows| - seen
      {
        NextGroup(rows, cursor, first, seen);
        var (rc, c) := CursorGet(rows, cursor, if first then First else NextNoDup);
        if rc != Success {
          break;
        }
        count := (count + 1) % WRAP;
        first := false;
        seen, cursor := NextKey(rows, seen), c;
      }
      assert rows[..|rows|] == rows;
      if Indexed(sch, View()) {
        IndexIsSorted(sch, View(), n);
        SizesAgree(sch, View(), n);
        FewerKeys(rows);
        IndexKeys(sch, View(), n);
      }
    }
  }

  /** Before the first turn, or with the cursor in a run of equal keys; the rest starts with another key. */
  ghost predicate GroupEnds(rows: Index, c: Cursor, first: bool, rest: nat) {
    && (if first then c == Unset && rest == 0
        else c.At? && !c.deleted && c.pos < rest <= |rows| && rest == NextKey(rows, c.pos))
    && (0 < rest < |rows| ==> rows[rest - 1].key != rows[rest].key)
  }

  lemma StartOfGroups(rows: Index)
    ensures GroupEnds(rows, Unset, true, 0)
  {
  }

  lemma NoKeys(rows: Index)
    ensures |KeysOf(rows[..0])| == 0
  {
  }

  lemma IndexIsSorted<T>(sch: Schema<T>, s: Store, n: nat)
    requires Indexed(sch, s) && n < SLOTS && sch.keys[n].IndexOn?
    ensures Sorted(s.idx[n])
  {
  }

  /** A turn of the loop finds the next run of equal keys, which brings exactly one new key, or the end. */
  lemma NextGroup(rows: Index, c: Cursor, first: bool, seen: nat)
    requires seen <= |rows| && GroupEnds(rows, c, first, seen)
    ensures CursorFits(rows, c) && (c.At? ==> !c.deleted)
    ensures CursorGet(rows, c, if first then First else NextNoDup) ==
            if seen < |rows| then (Success, At(seen, false)) else (NotFound, c)
    ensures seen < |rows| ==> GroupEnds(rows, At(seen, false), false, NextKey(rows, seen))
    ensures seen < |rows| && Sorted(rows) ==> |KeysOf(rows[..NextKey(rows, seen)])| == |KeysOf(rows[..seen])| + 1
  {
    hide Sorted, KeysOf;
    if seen < |rows| && Sorted(rows) {
      GroupHasOneKey(rows, seen);
    }
  }

  lemma GroupHasOneKey(rows: Index, p: nat)
    requires Sorted(rows) && p < |rows|
    requires p > 0 ==> rows[p - 1].key != rows[p].key
    ensures |KeysOf(rows[..NextKey(rows, p)])| == |KeysOf(rows[..p])| + 1
  {
    var q := NextKey(rows, p);
    forall i | 0 <= i < p ensures rows[i].key != rows[p].key {
      assert Before(rows[i], rows[p]) && Before(rows[p - 1], rows[p]);
      Irreflexive(rows[p].key);
      if i < p - 1 {
        assert Before(rows[i], rows[p - 1]);
        if rows[i].key == rows[p].key {
          Transitive(rows[i].key, rows[p - 1].key, rows[p].key);
        }
      }
    }
    forall k ensures k in KeysOf(rows[..q]) <==> k in KeysOf(rows[..p]) || k == rows[p].key {
      assert rows[..q] == rows[..p] + rows[p..q];
      assert rows[p..q][0] == rows[p];
      if k in KeysOf(rows[..q]) {
        var e :| e in rows[..q] && e.key == k;
      }
    }
    assert KeysOf(rows[..q]) == KeysOf(rows[..p]) + {rows[p].key};
  }

  /**
   * What a lookup through an index promises: 0 when no record has the key, otherwise the id, among those
   * of all matching records, whose stored bytes come first.
   */
  ghost predicate FirstMatch<T>(keyOf: T -> Bytes, recs: map<Id, T>, key: Bytes, id: Id) {
    && (id == 0 <==> forall i :: i in recs ==> keyOf(recs[i]) != key)
    && (id != 0 ==> id in recs && keyOf(recs[id]) == key)
    && forall i :: i in recs && keyOf(recs[i]) == key && i != id ==> Less(IdBytes(id), IdBytes(i))
  }

  /** The first pair under a key. */
  ghost predicate IsFirstUnder(rows: Index, key: Bytes, p: nat) {
    p < |rows| && rows[p].key == key && forall q :: 0 <= q < p ==> rows[q].key != key
  }

  /** What an id found in an index gives: the record stored under it, or id 0; only four bytes are an id. */
  ghost function Answer<T>(recs: map<Id, T>, val: Bytes): Result<(Id, Option<T>)> {
    if |val| != 4 then Threw(WrongLength)
    else if IdOf(val) in recs then Ok((IdOf(val), Some(recs[IdOf(val)])))
    else Ok((0, None))
  }

  /** In a store in any state, the first pair under a key decides what a lookup returns. */
  lemma LookupsAnswer<T>(sch: Schema<T>, main: Main, rows: Index, key: Bytes)
    ensures key == [] ==> ReadBy(sch, main, rows, key) == Threw(GettingData(BadValSize))
    ensures var r := ReadBy(sch, main, rows, key);
            Ascending(main) && r.Ok? && r.value.0 != 0 ==>
              r.value.0 in Records(sch, main) && r.value.1 == Some(Records(sch, main)[r.value.0])
    ensures Sorted(rows) && key != [] && (forall e :: e in rows ==> e.key != key) ==>
              ReadBy(sch, main, rows, key) == Ok((0, None))
    ensures Sorted(rows) && Ascending(main) && key != [] ==>
              forall p: nat :: IsFirstUnder(rows, key, p) ==>
                ReadBy(sch, main, rows, key) == Answer(Records(sch, main), rows[p].val)
  {
    hide Records, Sorted, Less;
    var p := KeyRank(rows, key);
    if p < |rows| && |rows[p].val| == 4 && Ascending(main) {
      ReadsRecord(sch, main, IdOf(rows[p].val));
    }
    if Sorted(rows) {
      forall q: nat | IsFirstUnder(rows, key, q) ensures q == p {
        SameKeyAtRank(rows, key, q);
      }
    }
  }

  lemma ReadsRecord<T>(sch: Schema<T>, main: Main, id: Id)
    requires Ascending(main)
    ensures if id in Records(sch, main)
            then MainGet(main, id).0 == Success && sch.des(MainGet(main, id).1) == Records(sch, main)[id]
            else MainGet(main, id).0 == NotFound
  {
    MainGetReads(main, id);
  }

  lemma LookupsAreRight<T>(sch: Schema<T>, s: Store, n: nat, key: Bytes)
    requires Indexed(sch, s) && n < SLOTS && sch.keys[n].IndexOn?
    ensures var r, recs := ReadBy(sch, s.main, s.idx[n], key), Records(sch, s.main);
            && (r.Threw? <==> key == [])
            && (r.Ok? ==> FirstMatch(sch.keys[n].key, recs, key, r.value.0))
            && (r.Ok? && r.value.0 != 0 ==> r.value.0 in recs)
            && (r.Ok? ==> r.value.1 == if r.value.0 == 0 then None else Some(recs[r.value.0]))
  {
    hide IndexGet, FirstMatch, Records, AllAgree;
    IndexGetIsFirstMatch(sch, s, n, key);
    var (rc, val) := IndexGet(s.idx[n], key);
    if rc == Success {
      ReadsRecord(sch, s.main, IdOf(val));
    }
  }

  /** Reading through an index refines a scan of all records. */
  lemma IndexGetIsFirstMatch<T>(sch: Schema<T>, s: Store, n: nat, key: Bytes)
    requires Indexed(sch, s) && n < SLOTS && sch.keys[n].IndexOn?
    ensures var (rc, val) := IndexGet(s.idx[n], key);
            && (key == [] <==> rc == BadValSize)
            && (rc != BadValSize ==> rc in {Success, NotFound})
            && (rc == Success ==> |val| == 4 && IdOf(val) != 0 && IdOf(val) in Records(sch, s.main))
            && (key != [] ==> FirstMatch(sch.keys[n].key, Records(sch, s.main), key,
                                         if rc == Success then IdOf(val) else 0))
  {
    var recs, keyOf, rows := Records(sch, s.main), sch.keys[n].key, s.idx[n];
    var (rc, val) := IndexGet(rows, key);
    var p := KeyRank(rows, key);
    if rc == Success {
      assert rows[p] in Elems(rows);
      var id :| id in recs && rows[p] == Entry(keyOf(recs[id]), IdBytes(id));
      IdRoundTrip(id);
      forall i | i in recs && keyOf(recs[i]) == key && i != id ensures Less(IdBytes(id), IdBytes(i)) {
        MatchIsInRows(keyOf, recs, rows, i);
        var q :| 0 <= q < |rows| && rows[q] == Entry(key, IdBytes(i));
        KeyRankSplits(rows, key, q);
        Irreflexive(key);
        if q == p { IdBytesInjective(i, id); }
        assert p < q && Before(rows[p], rows[q]);
      }
    } else if key != [] {
      forall i | i in recs ensures keyOf(recs[i]) != key {
        MatchIsInRows(keyOf, recs, rows, i);
        var q :| 0 <= q < |rows| && rows[q] == Entry(keyOf(recs[i]), IdBytes(i));
        KeyRankSplits(rows, key, q);
        Irreflexive(key);
        if keyOf(recs[i]) == key {
          assert p <= q;
          SameKeyAtRank(rows, key, q);
        }
      }
    }
  }

  lemma MatchIsInRows<T>(keyOf: T -> Bytes, recs: map<Id, T>, rows: Index, i: Id)
    requires Elems(rows) == Wanted(keyOf, recs) && i in recs
    ensures Entry(keyOf(recs[i]), IdBytes(i)) in rows
  {
    assert Entry(keyOf(recs[i]), IdBytes(i)) in Elems(rows);
  }

  /** If a key occurs at all, it occurs at its rank. */
  lemma SameKeyAtRank(rows: Index, key: Bytes, q: nat)
    requires Sorted(rows) && q < |rows| && rows[q].key == key
    ensures KeyRank(rows, key) <= q && rows[KeyRank(rows, key)].key == key
  {
    var p := KeyRank(rows, key);
    Irreflexive(key);
    KeyRankSplits(rows, key, q);
    if p < q {
      assert Before(rows[p], rows[q]);
    }
  }
}
