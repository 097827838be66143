/**
 * The ways to get an iterator (begin, rbegin, find, lower_bound, equal_range, prefix_range) and what the
 * loop `for (; iter != end; ++iter)` over each of them yields.
 */
module Queries {
  import opened ByteOrder
  import opened IdCodec
  import opened Lmdb
  import opened Options
  import opened TypedStore
  import opened TypedRuns
  import opened TypedDbi
  import opened IndexIter

  ghost predicate Queryable<T>(sch: Schema<T>, view: Store, n: nat) {
    sch.Valid() && |view.idx| == SLOTS && n < SLOTS && sch.keys[n].IndexOn?
  }

  ghost predicate Unfiltered<T(!new, 0)>(it: Iter<T>)
    reads it`filter
  {
    forall d :: it.filter(d)
  }

  // ----- making iterators -----

  /** genbegin, for begin and rbegin. */
  method GenBegin<T(!new, 0)>(sch: Schema<T>, view: Store, n: nat, forward: bool) returns (o: Outcome, it: Iter<T>)
    requires Queryable(sch, view, n)
    ensures fresh(it) && it.sch == sch && it.view == view && it.n == n
    ensures !it.oneKey && it.prefix == [] && Unfiltered(it)
    ensures Indexed(sch, view) ==> o.Pass?
    ensures o.Pass? ==> it.Valid() && (it.end <==> view.idx[n] == [])
    ensures o.Pass? && !it.end ==> it.cursor.pos == if forward then 0 else |view.idx[n]| - 1
    ensures if view.idx[n] == [] then o == Pass else it.Opens(view.idx[n][if forward then 0 else |view.idx[n]| - 1], o)
  {
    var rows := view.idx[n];
    var (rc, c) := CursorGet(rows, Unset, if forward then First else Last);
    it := new Iter(sch, view, n, false, [], c);
    if rc != Success {
      return Pass, it;
    }
    o := it.Load();
  }

  /** genfind with MDB_SET or MDB_SET_RANGE, equal_range (oneKey) and prefix_range (prefix). */
  method GenFind<T(!new, 0)>(sch: Schema<T>, view: Store, n: nat, key: Bytes, orAbove: bool, oneKey: bool, prefix: Bytes)
    returns (o: Outcome, it: Iter<T>)
    requires Queryable(sch, view, n)
    requires prefix == [] || (prefix == key && orAbove)
    ensures fresh(it) && it.sch == sch && it.view == view && it.n == n
    ensures it.oneKey == oneKey && it.prefix == prefix && Unfiltered(it)
    ensures key == [] ==> o == Throw(CursorGetFailed(BadValSize))
    ensures Indexed(sch, view) ==> (o.Pass? <==> key != [])
    ensures Sorted(view.idx[n]) && o.Pass? ==>
              var rows, p := view.idx[n], KeyRank(view.idx[n], key);
              && it.Valid()
              && (it.end <==> p == |rows| || (!orAbove && rows[p].key != key))
              && (!it.end ==> it.cursor.pos == p)
    ensures key != [] ==>
              var rows, p := view.idx[n], KeyRank(view.idx[n], key);
              if p == |rows| || (!orAbove && rows[p].key != key) then o == Pass else it.Opens(rows[p], o)
  {
    var rows := view.idx[n];
    var (rc, c) := Seek(rows, key, orAbove);
    it := new Iter(sch, view, n, oneKey, prefix, c);
    if rc !in {Success, NotFound} {
      return Throw(CursorGetFailed(rc)), it;
    }
    if rc == NotFound {
      return Pass, it;
    }
    if Sorted(rows) {
      RankIsAnchored(rows, key, prefix);
    }
    o := it.Load();
  }

  /**
   * A record is put, overwritten by one with another key, and deleted. No operation throws, but the pair of
   * the first record is still there: a lookup of its key finds nothing, and begin and find throw.
   */
  method StalePairDangles<T(!new, 0)>(sch: Schema<T>, t: T, u: T, i: Id, n: nat)
    returns (found: Result<(Id, Option<T>)>, o1: Outcome, o2: Outcome)
    requires sch.Valid() && RoundTrips(sch) && i != 0 && n < SLOTS && sch.keys[n].IndexOn?
    requires KeysFit(sch, t) && KeysFit(sch, u) && sch.keys[n].key(t) != sch.keys[n].key(u)
    ensures found == Ok((0, None)) && o1 == o2 == Throw(MissingId)
  {
    hide Run, PutStore, DelStore, RowsSound, RoundTrips, ReadBy, KeyRank, IsFirstUnder, Answer, AsMap, Ascending, Sorted;
    StalePairStays(sch, t, u, i, n);
    TwoPuts(sch, t, u, i);
    IdRoundTrip(i);
    var key := sch.keys[n].key(t);
    var txn := new RWTransaction(sch, EMPTY);
    var r1 := txn.Put(t, i);
    var r2 := txn.Put(u, i);
    var o := txn.Del(i);
    LonePair(sch, txn.main, txn.idx[n], key, i);
    found := txn.GetBy(n, key);
    var it1, it2;
    o1, it1 := GenBegin(sch, Store(txn.main, txn.idx), n, true);
    o2, it2 := GenFind(sch, Store(txn.main, txn.idx), n, key, false, false, []);
  }

  /** An index with one pair over an empty main table. */
  lemma LonePair<T>(sch: Schema<T>, main: Main, rows: Index, key: Bytes, i: Id)
    requires main == [] && rows == [Entry(key, IdBytes(i))]
    ensures Ascending(main) && AsMap(main) == map[] && Records(sch, main) == map[]
    ensures Sorted(rows) && KeyRank(rows, key) == 0 && IsFirstUnder(rows, key, 0)
    ensures Answer(Records(sch, main), rows[0].val) == Ok((0, None))
  {
    Irreflexive(key);
    IdRoundTrip(i);
  }

  /** Without a filter every entry of a right index passes. */
  lemma UnfilteredPass<T(!new, 0)>(it: Iter<T>)
    requires Queryable(it.sch, it.view, it.n) && Indexed(it.sch, it.view)
    ensures Unfiltered(it) ==> forall q: nat :: q < |it.Rows()| ==> it.Passes(it.filter, q)
  {
    forall q: nat | q < |it.Rows()| ensures it.HasRecord(q) {
      FetchWorks(it.sch, it.view, it.n, q);
    }
  }

  /** What a search for a prefix finds has the prefix, unless nothing has. */
  lemma RankIsAnchored(rows: Index, key: Bytes, prefix: Bytes)
    requires Sorted(rows) && KeyRank(rows, key) < |rows|
    requires prefix == [] || prefix == key
    ensures Anchored(rows, prefix, KeyRank(rows, key))
  {
    var p := KeyRank(rows, key);
    forall i | 0 <= i < |rows| && prefix <= rows[i].key ensures prefix <= rows[p].key {
      if prefix != [] {
        PrefixIsFloor(prefix, rows[i].key);
        KeyRankSplits(rows, key, i);
        KeysAscend(rows, p, i);
        PrefixIsContiguous(prefix, prefix, rows[p].key, rows[i].key);
      }
    }
  }

  // ----- what a loop over an iterator yields -----

  /** What a caller sees at one step: getKey, getID and the record. */
  datatype Item<+T> = Item(key: Bytes, id: Id, rec: T)

  ghost function PairsOf<T>(items: seq<Item<T>>): Index {
    seq(|items|, i requires 0 <= i < |items| => Entry(items[i].key, IdBytes(items[i].id)))
  }

  /** The items are the records with these ids, each once, in index order: by key, then by stored id bytes. */
  ghost predicate Lists<T>(items: seq<Item<T>>, keyOf: T -> Bytes, recs: map<Id, T>, ids: set<Id>) {
    && Sorted(PairsOf(items))
    && (forall i :: 0 <= i < |items| ==>
          && items[i].id in recs
          && items[i].rec == recs[items[i].id]
          && items[i].key == keyOf(items[i].rec))
    && (forall i :: 0 <= i < |items| ==> items[i].id in ids)
    && (forall id :: id in ids ==> exists i :: 0 <= i < |items| && items[i].id == id)
  }

  /** A listing is determined by the ids it lists. */
  lemma ListsIsUnique<T>(a: seq<Item<T>>, b: seq<Item<T>>, keyOf: T -> Bytes, recs: map<Id, T>, ids: set<Id>)
    requires Lists(a, keyOf, recs, ids) && Lists(b, keyOf, recs, ids)
    ensures a == b
  {
    ListedPairs(a, keyOf, recs, ids);
    ListedPairs(b, keyOf, recs, ids);
    SortedIsCanonical(PairsOf(a), PairsOf(b));
    assert |a| == |PairsOf(a)| == |PairsOf(b)| == |b|;
    forall i | 0 <= i < |a| ensures a[i] == b[i] {
      assert PairsOf(a)[i] == PairsOf(b)[i];
      IdBytesInjective(a[i].id, b[i].id);
    }
  }

  lemma ListedPairs<T>(a: seq<Item<T>>, keyOf: T -> Bytes, recs: map<Id, T>, ids: set<Id>)
    requires Lists(a, keyOf, recs, ids)
    ensures ids <= recs.Keys
    ensures Elems(PairsOf(a)) == set id | id in ids && id in recs :: Entry(keyOf(recs[id]), IdBytes(id))
  {
    var ps := PairsOf(a);
    forall e ensures e in ps <==> exists id :: id in ids && id in recs && e == Entry(keyOf(recs[id]), IdBytes(id)) {
      if e in ps {
        var i :| 0 <= i < |ps| && ps[i] == e;
        assert a[i].id in ids;
      }
      if id :| id in ids && id in recs && e == Entry(keyOf(recs[id]), IdBytes(id)) {
        var i :| 0 <= i < |a| && a[i].id == id;
        assert ps[i] == e;
      }
    }
  }

  function Reverse<E>(s: seq<E>): (r: seq<E>)
    ensures |r| == |s|
    ensures forall i :: 0 <= i < |s| ==> r[i] == s[|s| - 1 - i]
  {
    if s == [] then [] else Reverse(s[1..]) + [s[0]]
  }

  /** The item an iterator over index n shows at position p. */
  ghost function ItemAt<T>(sch: Schema<T>, view: Store, n: nat, p: nat): Item<T>
    requires |view.idx| == SLOTS && n < SLOTS && p < |view.idx[n]|
  {
    var e := view.idx[n][p];
    Item(e.key, if |e.val| == 4 then IdOf(e.val) else 0, sch.des(DataOf(view.main, e)))
  }

  /** Items taken from ascending positions are a listing of the ids found there. */
  lemma PositionsList<T>(sch: Schema<T>, view: Store, n: nat, items: seq<Item<T>>, ps: seq<nat>, ids: set<Id>)
    requires Indexed(sch, view) && n < SLOTS && sch.keys[n].IndexOn?
    requires Shown(sch, view, n, items, ps) && InOrder(true, ps)
    requires ids <= Records(sch, view.main).Keys
    requires forall p: nat :: p < |view.idx[n]| ==> (p in ps <==> ItemAt(sch, view, n, p).id in ids)
    ensures Lists(items, sch.keys[n].key, Records(sch, view.main), ids)
  {
    var rows, recs, keyOf := view.idx[n], Records(sch, view.main), sch.keys[n].key;
    forall i | 0 <= i < |items|
      ensures PairsOf(items)[i] == rows[ps[i]]
      ensures items[i].id in recs && items[i].rec == recs[items[i].id] && items[i].key == keyOf(items[i].rec)
      ensures items[i].id in ids
    {
      EntryIsRecord(sch, view, n, ps[i]);
      assert ps[i] in ps;
    }
    forall id | id in ids ensures exists i :: 0 <= i < |items| && items[i].id == id {
      MatchIsInRows(keyOf, recs, rows, id);
      var p :| 0 <= p < |rows| && rows[p] == Entry(keyOf(recs[id]), IdBytes(id));
      IdRoundTrip(id);
      assert p in ps;
      var i :| 0 <= i < |ps| && ps[i] == p;
      assert items[i].id == id;
    }
    IndexIsSorted(sch, view, n);
    assert Sorted(PairsOf(items)) by {
      forall i, j | 0 <= i < j < |items| ensures Before(PairsOf(items)[i], PairsOf(items)[j]) {
        assert Before(rows[ps[i]], rows[ps[j]]);
      }
    }
  }

  /** q lies beyond p in the given direction. */
  predicate Further(forward: bool, p: int, q: int) {
    if forward then p < q else q < p
  }

  /** A loop started at p should yield the entry at q: p itself, then all that is in its range and passes the filter. */
  ghost predicate Due<T(!new, 0)>(it: Iter<T>, forward: bool, p: nat, q: nat)
    reads it`filter
    requires it.n < |it.view.idx| && p < |it.Rows()| && q < |it.Rows()|
  {
    q == p || (Further(forward, p, q) && it.InRange(p, q) && it.Passes(it.filter, q))
  }

  /** The items are what an iterator over index n shows at these positions. */
  ghost predicate Shown<T>(sch: Schema<T>, view: Store, n: nat, items: seq<Item<T>>, ps: seq<nat>)
    requires |view.idx| == SLOTS && n < SLOTS
  {
    |ps| == |items| && forall i :: 0 <= i < |ps| ==> ps[i] < |view.idx[n]| && items[i] == ItemAt(sch, view, n, ps[i])
  }

  /** Each position lies beyond the ones before it. */
  ghost predicate InOrder(forward: bool, ps: seq<nat>) {
    forall i, j :: 0 <= i < j < |ps| ==> Further(forward, ps[i], ps[j])
  }

  lemma ShownMore<T>(sch: Schema<T>, view: Store, n: nat, items: seq<Item<T>>, ps: seq<nat>, at: nat)
    requires |view.idx| == SLOTS && n < SLOTS && Shown(sch, view, n, items, ps) && at < |view.idx[n]|
    ensures Shown(sch, view, n, items + [ItemAt(sch, view, n, at)], ps + [at])
  {
  }

  lemma FewInOrder(forward: bool, p: nat)
    ensures InOrder(forward, []) && InOrder(forward, [] + [p])
  {
  }

  lemma OrderMore(forward: bool, ps: seq<nat>, at: nat, to: nat)
    requires InOrder(forward, ps + [at])
    ensures InOrder(forward, ps)
    ensures Further(forward, at, to) ==> InOrder(forward, ps + [at] + [to])
  {
    assert forall i :: 0 <= i < |ps| ==> ps[i] == (ps + [at])[i];
    forall i | 0 <= i < |ps| ensures Further(forward, ps[i], at) {
      assert Further(forward, (ps + [at])[i], (ps + [at])[|ps|]);
    }
  }

  /**
   * The loop over an iterator, collecting what it yields: the entry it stands on, then, in the given
   * direction, every entry that is in range of that one and passes the filter. It ends early, by an
   * exception, only where the walk comes to a pair whose record is missing, which no right index has.
   */
  method Collect<T(!new, 0)>(it: Iter<T>, forward: bool) returns (o: Outcome, items: seq<Item<T>>, ghost ps: seq<nat>)
    requires it.Valid() && TablesSound(it.view)
    modifies it`cursor, it`key, it`id, it`rec, it`end
    ensures Indexed(it.sch, it.view) ==> o.Pass?
    ensures Shown(it.sch, it.view, it.n, items, ps) && InOrder(forward, ps)
    ensures old(it.end) ==> items == []
    ensures !old(it.end) ==>
              && 0 < |ps| && ps[0] == old(it.cursor.pos)
              && (o.Pass? ==> forall q: nat :: q < |it.Rows()| ==> (q in ps <==> Due(it, forward, old(it.cursor.pos), q)))
              && (o.Throw? ==>
                    var last := ps[|ps| - 1];
                    && o == Throw(MissingId) && last < |it.Rows()| && it.MissesRow(it.filter, forward, last)
                    && forall q: nat :: q < |it.Rows()| ==>
                         (q in ps <==> Due(it, forward, old(it.cursor.pos), q) && !Further(forward, last, q)))
  {
    hide Due, Indexed, ItemAt, Anchored, Sorted, Ascending, TablesSound, Further, InOrder;
    hide Iter.Shows, Iter.Skipped, Iter.Exhausted, Iter.InRange, Iter.Passes, Iter.Dangles, Iter.MissesRow;
    items, ps := [], [];
    if it.end {
      FewInOrder(forward, 0);
      return Pass, items, ps;
    }
    ghost var p := it.cursor.pos;
    StartIsDue(it, forward, p);
    FewInOrder(forward, p);
    while !it.end
      invariant it.Valid()
      invariant Shown(it.sch, it.view, it.n, items, ps)
      invariant if ps == [] then !it.end && it.cursor.pos == p else ps[0] == p
      invariant InOrder(forward, if it.end then ps else ps + [it.cursor.pos])
      invariant !it.end ==>
                  && Due(it, forward, p, it.cursor.pos)
                  && forall q: nat :: q < |it.Rows()| ==>
                       (q in ps <==> Further(forward, q, it.cursor.pos) && Due(it, forward, p, q))
      invariant it.end ==> forall q: nat :: q < |it.Rows()| ==> (q in ps <==> Due(it, forward, p, q))
      decreases if it.end then 0 else if forward then |it.Rows()| - it.cursor.pos else it.cursor.pos + 1
    {
      ghost var at, was := it.cursor.pos, ps;
      ShownItem(it);
      ShownMore(it.sch, it.view, it.n, items, ps, at);
      items := items + [Item(it.key, IdOf(it.id), it.rec)];
      ps := ps + [at];
      SoundIndex(it.view, it.n);
      o := it.GenOperator(forward);
      if o.Throw? {
        NoneYetFurther(it, forward, p, at, was);
        return;
      }
      OrderMore(forward, was, at, if it.end then at else it.cursor.pos);
      if it.end {
        NoneLeft(it, forward, p, at, was);
      } else {
        NextIsDue(it, forward, p, at, it.cursor.pos, was);
      }
    }
    o := Pass;
  }

  lemma ShownItem<T(!new, 0)>(it: Iter<T>)
    requires it.Valid() && !it.end
    ensures |it.id| == 4
    ensures Item(it.key, IdOf(it.id), it.rec) == ItemAt(it.sch, it.view, it.n, it.cursor.pos)
  {
  }

  lemma StartIsDue<T(!new, 0)>(it: Iter<T>, forward: bool, p: nat)
    requires it.n < |it.view.idx| && p < |it.Rows()|
    ensures Due(it, forward, p, p)
    ensures forall q: nat :: q < |it.Rows()| ==> !(Further(forward, q, p) && Due(it, forward, p, q))
  {
  }

  /** ++ goes to the next entry that is due. */
  lemma NextIsDue<T(!new, 0)>(it: Iter<T>, forward: bool, p: nat, at: nat, to: nat, was: seq<nat>)
    requires it.n < |it.view.idx| && p < |it.Rows()| && at < |it.Rows()| && to < |it.Rows()|
    requires Due(it, forward, p, at) && Further(forward, at, to)
    requires forall q: nat :: q < |it.Rows()| ==> (q in was <==> Further(forward, q, at) && Due(it, forward, p, q))
    requires it.InRange(at, to) && it.Passes(it.filter, to) && it.Skipped(it.filter, at, to)
    ensures Due(it, forward, p, to)
    ensures forall q: nat :: q < |it.Rows()| ==>
              (q in was + [at] <==> Further(forward, q, to) && Due(it, forward, p, q))
  {
  }

  lemma SoundIndex(view: Store, n: nat)
    requires TablesSound(view) && n < SLOTS
    ensures Ascending(view.main) && Sorted(view.idx[n]) && forall e :: e in view.idx[n] ==> |e.val| == 4
  {
  }

  lemma NoneYetFurther<T(!new, 0)>(it: Iter<T>, forward: bool, p: nat, at: nat, was: seq<nat>)
    requires it.n < |it.view.idx| && p < |it.Rows()| && at < |it.Rows()|
    requires Due(it, forward, p, at)
    requires forall q: nat :: q < |it.Rows()| ==> (q in was <==> Further(forward, q, at) && Due(it, forward, p, q))
    ensures forall q: nat :: q < |it.Rows()| ==>
              (q in was + [at] <==> Due(it, forward, p, q) && !Further(forward, at, q))
  {
  }

  lemma NoneLeft<T(!new, 0)>(it: Iter<T>, forward: bool, p: nat, at: nat, was: seq<nat>)
    requires it.n < |it.view.idx| && p < |it.Rows()| && at < |it.Rows()|
    requires Due(it, forward, p, at) && it.Exhausted(it.filter, forward, at)
    requires forall q: nat :: q < |it.Rows()| ==> (q in was <==> Further(forward, q, at) && Due(it, forward, p, q))
    ensures forall q: nat :: q < |it.Rows()| ==> (q in was + [at] <==> Due(it, forward, p, q))
  {
  }

  // ----- the loops of the documentation -----

  /** The ids of the records whose key in this index satisfies a condition. */
  ghost function IdsWhere<T>(keyOf: T -> Bytes, recs: map<Id, T>, cond: Bytes -> bool): set<Id> {
    set id | id in recs && cond(keyOf(recs[id]))
  }

  ghost predicate Above(key: Bytes, k: Bytes) {
    !Less(k, key)
  }

  /** Whether an entry's record satisfies a condition on the key can be read off the entry. */
  lemma KeyDecides<T>(sch: Schema<T>, view: Store, n: nat, cond: Bytes -> bool)
    requires Queryable(sch, view, n) && Indexed(sch, view)
    ensures forall p: nat :: p < |view.idx[n]| ==>
              (ItemAt(sch, view, n, p).id in IdsWhere(sch.keys[n].key, Records(sch, view.main), cond) <==>
               cond(view.idx[n][p].key))
  {
    forall p: nat | p < |view.idx[n]|
      ensures ItemAt(sch, view, n, p).id in IdsWhere(sch.keys[n].key, Records(sch, view.main), cond) <==>
              cond(view.idx[n][p].key)
    {
      EntryIsRecord(sch, view, n, p);
    }
  }

  /** Items at exactly the positions whose key satisfies a condition list the records that satisfy it. */
  lemma ConditionLists<T>(sch: Schema<T>, view: Store, n: nat, items: seq<Item<T>>, ps: seq<nat>, cond: Bytes -> bool)
    requires Queryable(sch, view, n) && Indexed(sch, view)
    requires Shown(sch, view, n, items, ps) && InOrder(true, ps)
    requires forall p: nat :: p < |view.idx[n]| ==> (p in ps <==> cond(view.idx[n][p].key))
    ensures Lists(items, sch.keys[n].key, Records(sch, view.main),
                  IdsWhere(sch.keys[n].key, Records(sch, view.main), cond))
  {
    KeyDecides(sch, view, n, cond);
    PositionsList(sch, view, n, items, ps, IdsWhere(sch.keys[n].key, Records(sch, view.main), cond));
  }

  /** begin and ++: every record, once, in index order. */
  method ScanAll<T(!new, 0)>(sch: Schema<T>, view: Store, n: nat) returns (o: Outcome, items: seq<Item<T>>)
    requires Queryable(sch, view, n) && Indexed(sch, view)
    ensures o.Pass?
    ensures Lists(items, sch.keys[n].key, Records(sch, view.main), Records(sch, view.main).Keys)
  {
    hide Indexed, Records, DataOf, Lists, Sorted, TablesSound, Complete, Iter.Passes, Shown, InOrder;
    var it;
    ghost var ps;
    o, it := GenBegin(sch, view, n, true);
    IndexedIsComplete(sch, view);
    o, items, ps := Collect(it, true);
    UnfilteredPass(it);
    ConditionLists(sch, view, n, items, ps, k => true);
    assert IdsWhere(sch.keys[n].key, Records(sch, view.main), k => true) == Records(sch, view.main).Keys;
  }

  /** rbegin and --: the exact reverse. */
  method ScanAllBackwards<T(!new, 0)>(sch: Schema<T>, view: Store, n: nat) returns (o: Outcome, items: seq<Item<T>>)
    requires Queryable(sch, view, n) && Indexed(sch, view)
    ensures o.Pass?
    ensures Lists(Reverse(items), sch.keys[n].key, Records(sch, view.main), Records(sch, view.main).Keys)
  {
    hide Indexed, Records, DataOf, Lists, Sorted, TablesSound, Complete, Iter.Passes, Shown, InOrder;
    var it;
    ghost var ps;
    o, it := GenBegin(sch, view, n, false);
    IndexedIsComplete(sch, view);
    o, items, ps := Collect(it, false);
    UnfilteredPass(it);
    ReversedShown(sch, view, n, items, ps);
    ConditionLists(sch, view, n, Reverse(items), Reverse(ps), k => true);
    assert IdsWhere(sch.keys[n].key, Records(sch, view.main), k => true) == Records(sch, view.main).Keys;
  }

  lemma ReversedShown<T>(sch: Schema<T>, view: Store, n: nat, items: seq<Item<T>>, ps: seq<nat>)
    requires |view.idx| == SLOTS && n < SLOTS && Shown(sch, view, n, items, ps) && InOrder(false, ps)
    ensures Shown(sch, view, n, Reverse(items), Reverse(ps)) && InOrder(true, Reverse(ps))
    ensures forall p :: p in ps ==> p in Reverse(ps)
  {
    forall p | p in ps ensures p in Reverse(ps) {
      var i :| 0 <= i < |ps| && ps[i] == p;
      assert Reverse(ps)[|ps| - 1 - i] == p;
    }
  }

  /** equal_range and ++: exactly the records with that key. */
  method ScanEqual<T(!new, 0)>(sch: Schema<T>, view: Store, n: nat, key: Bytes) returns (o: Outcome, items: seq<Item<T>>)
    requires Queryable(sch, view, n) && Indexed(sch, view)
    ensures if key == [] then o == Throw(CursorGetFailed(BadValSize)) else
              && o.Pass?
              && Lists(items, sch.keys[n].key, Records(sch, view.main),
                       IdsWhere(sch.keys[n].key, Records(sch, view.main), k => k == key))
  {
    hide Indexed, Records, DataOf, Lists, Sorted, TablesSound, Complete, Iter.Passes;
    items := [];
    var it;
    o, it := GenFind(sch, view, n, key, false, true, []);
    if o.Throw? {
      return;
    }
    IndexIsSorted(sch, view, n);
    ghost var ps;
    IndexedIsComplete(sch, view);
    o, items, ps := Collect(it, true);
    UnfilteredPass(it);
    forall p: nat | p < |view.idx[n]| ensures p in ps <==> view.idx[n][p].key == key {
      RankBounds(sch, view, n, key, p);
    }
    ConditionLists(sch, view, n, items, ps, k => k == key);
  }

  lemma RankBounds<T>(sch: Schema<T>, view: Store, n: nat, key: Bytes, p: nat)
    requires Queryable(sch, view, n) && Indexed(sch, view) && p < |view.idx[n]|
    ensures Less(view.idx[n][p].key, key) <==> p < KeyRank(view.idx[n], key)
    ensures view.idx[n][p].key == key ==>
              KeyRank(view.idx[n], key) <= p && view.idx[n][KeyRank(view.idx[n], key)].key == key
  {
    IndexIsSorted(sch, view, n);
    KeyRankSplits(view.idx[n], key, p);
    if view.idx[n][p].key == key {
      SameKeyAtRank(view.idx[n], key, p);
    }
  }

  /**
   * find (or lower_bound) and ++: every record whose key is not below the given one; find first asks that
   * some record has exactly that key. Neither stops at the end of the key, so the loop over find lists the
   * records with the key if and only if there are none or no key lies above it.
   */
  method ScanFrom<T(!new, 0)>(sch: Schema<T>, view: Store, n: nat, key: Bytes, orAbove: bool)
    returns (o: Outcome, items: seq<Item<T>>)
    requires Queryable(sch, view, n) && Indexed(sch, view)
    ensures var keyOf, recs := sch.keys[n].key, Records(sch, view.main);
            if key == [] then o == Throw(CursorGetFailed(BadValSize))
            else if !orAbove && IdsWhere(keyOf, recs, k => k == key) == {} then o.Pass? && items == []
            else o.Pass? && Lists(items, keyOf, recs, IdsWhere(keyOf, recs, k => Above(key, k)))
    ensures var keyOf, recs := sch.keys[n].key, Records(sch, view.main);
            var hits, beyond := IdsWhere(keyOf, recs, k => k == key), IdsWhere(keyOf, recs, k => Less(key, k));
            key != [] && !orAbove ==> (Lists(items, keyOf, recs, hits) <==> hits == {} || beyond == {})
  {
    hide Indexed, Records, DataOf, Lists, Sorted, TablesSound, Complete, Iter.Passes;
    items := [];
    var it;
    o, it := GenFind(sch, view, n, key, orAbove, false, []);
    if o.Throw? {
      return;
    }
    IndexIsSorted(sch, view, n);
    SomeHasKey(sch, view, n, key);
    ghost var ps, missed := [], it.end;
    IndexedIsComplete(sch, view);
    o, items, ps := Collect(it, true);
    UnfilteredPass(it);
    if orAbove || !missed {
      forall p: nat | p < |view.idx[n]| ensures p in ps <==> Above(key, view.idx[n][p].key) {
        RankBounds(sch, view, n, key, p);
      }
      ConditionLists(sch, view, n, items, ps, k => Above(key, k));
      GoesOn(items, sch.keys[n].key, Records(sch, view.main), key);
    } else {
      ListsNothing(items, sch.keys[n].key, Records(sch, view.main));
    }
  }

  /** A listing of all keys from a key on is one of the records with that key exactly if no key lies above it. */
  lemma GoesOn<T>(items: seq<Item<T>>, keyOf: T -> Bytes, recs: map<Id, T>, key: Bytes)
    requires Lists(items, keyOf, recs, IdsWhere(keyOf, recs, k => Above(key, k)))
    ensures Lists(items, keyOf, recs, IdsWhere(keyOf, recs, k => k == key)) <==>
            IdsWhere(keyOf, recs, k => Less(key, k)) == {}
  {
    var hits, beyond := IdsWhere(keyOf, recs, k => k == key), IdsWhere(keyOf, recs, k => Less(key, k));
    Irreflexive(key);
    forall id ensures id in IdsWhere(keyOf, recs, k => Above(key, k)) <==> id in hits || id in beyond {
      if id in recs {
        Total(keyOf(recs[id]), key);
        if Less(key, keyOf(recs[id])) && Less(keyOf(recs[id]), key) { Transitive(key, keyOf(recs[id]), key); }
      }
    }
    if beyond == {} {
      assert hits == IdsWhere(keyOf, recs, k => Above(key, k));
    } else {
      var id :| id in beyond;
      assert id !in hits;
      assert exists i :: 0 <= i < |items| && items[i].id == id;
    }
  }

  lemma ListsNothing<T>(items: seq<Item<T>>, keyOf: T -> Bytes, recs: map<Id, T>)
    requires items == []
    ensures Lists(items, keyOf, recs, {})
  {
  }

  /** Some record has the key exactly when the entry at the key's rank has it. */
  lemma SomeHasKey<T>(sch: Schema<T>, view: Store, n: nat, key: Bytes)
    requires Queryable(sch, view, n) && Indexed(sch, view)
    ensures var rows, p := view.idx[n], KeyRank(view.idx[n], key);
            IdsWhere(sch.keys[n].key, Records(sch, view.main), k => k == key) != {} <==>
            p < |rows| && rows[p].key == key
  {
    var rows, p, keyOf, recs := view.idx[n], KeyRank(view.idx[n], key), sch.keys[n].key, Records(sch, view.main);
    if id :| id in recs && keyOf(recs[id]) == key {
      MatchIsInRows(keyOf, recs, rows, id);
      var q :| 0 <= q < |rows| && rows[q] == Entry(key, IdBytes(id));
      RankBounds(sch, view, n, key, q);
    }
    if p < |rows| && rows[p].key == key {
      KeyDecides(sch, view, n, k => k == key);
      assert ItemAt(sch, view, n, p).id in IdsWhere(keyOf, recs, k => k == key);
    }
  }

  /** Among the records with these ids, none has an entry before that of the given id. */
  ghost predicate IsFirst<T>(id: Id, keyOf: T -> Bytes, recs: map<Id, T>, ids: set<Id>) {
    id in ids && id in recs &&
    forall i :: i in ids && i in recs && i != id ==>
      Before(Entry(keyOf(recs[id]), IdBytes(id)), Entry(keyOf(recs[i]), IdBytes(i)))
  }

  /**
   * prefix_range and ++. The first entry is not checked against the prefix, so the loop yields exactly the
   * records whose key has the prefix if and only if there is one, or no key lies above the prefix either;
   * otherwise it yields one record, without the prefix: the first above it.
   */
  method ScanPrefix<T(!new, 0)>(sch: Schema<T>, view: Store, n: nat, prefix: Bytes)
    returns (o: Outcome, items: seq<Item<T>>)
    requires Queryable(sch, view, n) && Indexed(sch, view)
    ensures var keyOf, recs := sch.keys[n].key, Records(sch, view.main);
            var hits, above := IdsWhere(keyOf, recs, k => prefix <= k), IdsWhere(keyOf, recs, k => Above(prefix, k));
            if prefix == [] then o == Throw(CursorGetFailed(BadValSize)) else
              && o.Pass?
              && (Lists(items, keyOf, recs, hits) <==> hits != {} || above == {})
              && (hits == {} && above != {} ==>
                    && |items| == 1 && !(prefix <= items[0].key)
                    && Lists(items, keyOf, recs, {items[0].id}) && IsFirst(items[0].id, keyOf, recs, above))
  {
    hide Indexed, Records, DataOf, Lists, Sorted, TablesSound, Complete, Iter.Passes, IsFirst, ItemAt;
    items := [];
    var it;
    o, it := GenFind(sch, view, n, prefix, true, false, prefix);
    if o.Throw? {
      return;
    }
    IndexIsSorted(sch, view, n);
    SomeAbove(sch, view, n, prefix);
    ghost var ps, missed := [], it.end;
    IndexedIsComplete(sch, view);
    o, items, ps := Collect(it, true);
    UnfilteredPass(it);
    ghost var rows, p0 := view.idx[n], KeyRank(view.idx[n], prefix);
    if missed || prefix <= rows[p0].key {
      forall p: nat | p < |rows| ensures p in ps <==> prefix <= rows[p].key {
        RankBounds(sch, view, n, prefix, p);
        if prefix <= rows[p].key { PrefixIsFloor(prefix, rows[p].key); }
      }
      ConditionLists(sch, view, n, items, ps, k => prefix <= k);
    } else {
      RankIsAnchored(rows, prefix, prefix);
      assert ps[|ps| - 1] in ps;
      assert items == [ItemAt(sch, view, n, p0)];
      ListsSomething(items, sch.keys[n].key, Records(sch, view.main),
                     IdsWhere(sch.keys[n].key, Records(sch, view.main), k => prefix <= k));
      FirstAbove(sch, view, n, prefix);
    }
  }

  /** The entry at the rank of a key is the first of those not below the key. */
  lemma FirstAbove<T>(sch: Schema<T>, view: Store, n: nat, key: Bytes)
    requires Queryable(sch, view, n) && Indexed(sch, view) && KeyRank(view.idx[n], key) < |view.idx[n]|
    ensures var keyOf, recs := sch.keys[n].key, Records(sch, view.main);
            var item := ItemAt(sch, view, n, KeyRank(view.idx[n], key));
            && IsFirst(item.id, keyOf, recs, IdsWhere(keyOf, recs, k => Above(key, k)))
            && Lists([item], keyOf, recs, {item.id})
            && item.key == view.idx[n][KeyRank(view.idx[n], key)].key
  {
    var rows, p, keyOf, recs := view.idx[n], KeyRank(view.idx[n], key), sch.keys[n].key, Records(sch, view.main);
    var item := ItemAt(sch, view, n, p);
    EntryIsRecord(sch, view, n, p);
    IndexIsSorted(sch, view, n);
    forall i | i in recs && Above(key, keyOf(recs[i])) && i != item.id
      ensures Before(rows[p], Entry(keyOf(recs[i]), IdBytes(i)))
    {
      MatchIsInRows(keyOf, recs, rows, i);
      var q :| 0 <= q < |rows| && rows[q] == Entry(keyOf(recs[i]), IdBytes(i));
      RankBounds(sch, view, n, key, q);
      IdRoundTrip(i);
      assert q != p;
    }
    assert [item][0].id == item.id;
  }

  lemma ListsSomething<T>(items: seq<Item<T>>, keyOf: T -> Bytes, recs: map<Id, T>, ids: set<Id>)
    ensures Lists(items, keyOf, recs, ids) && items != [] ==> ids != {}
  {
    if Lists(items, keyOf, recs, ids) && items != [] {
      assert items[0].id in ids;
    }
  }

  /** Which records have the prefix, or a key above it, seen from the rank of the prefix. */
  lemma SomeAbove<T>(sch: Schema<T>, view: Store, n: nat, prefix: Bytes)
    requires Queryable(sch, view, n) && Indexed(sch, view) && prefix != []
    ensures var keyOf, recs, rows := sch.keys[n].key, Records(sch, view.main), view.idx[n];
            var p := KeyRank(rows, prefix);
            && (IdsWhere(keyOf, recs, k => Above(prefix, k)) != {} <==> p < |rows|)
            && (IdsWhere(keyOf, recs, k => prefix <= k) != {} <==> p < |rows| && prefix <= rows[p].key)
            && (p < |rows| ==> ItemAt(sch, view, n, p).id in IdsWhere(keyOf, recs, k => Above(prefix, k)))
  {
    var keyOf, recs, rows := sch.keys[n].key, Records(sch, view.main), view.idx[n];
    var p := KeyRank(rows, prefix);
    IndexIsSorted(sch, view, n);
    KeyDecides(sch, view, n, k => Above(prefix, k));
    KeyDecides(sch, view, n, k => prefix <= k);
    forall id | id in recs && Above(prefix, keyOf(recs[id])) ensures p < |rows| {
      MatchIsInRows(keyOf, recs, rows, id);
      var q :| 0 <= q < |rows| && rows[q] == Entry(keyOf(recs[id]), IdBytes(id));
      RankBounds(sch, view, n, prefix, q);
    }
    forall id | id in recs && prefix <= keyOf(recs[id]) ensures p < |rows| && prefix <= rows[p].key {
      MatchIsInRows(keyOf, recs, rows, id);
      var q :| 0 <= q < |rows| && rows[q] == Entry(keyOf(recs[id]), IdBytes(id));
      PrefixIsFloor(prefix, rows[q].key);
      RankBounds(sch, view, n, prefix, q);
      RankIsAnchored(rows, prefix, prefix);
    }
  }

  /**
   * begin, then a filter, then ++: the first record is never asked; after it exactly the records that
   * pass are yielded. The filter sees the serialized record.
   */
  method ScanFiltered<T(!new, 0)>(sch: Schema<T>, view: Store, n: nat, filter: Bytes -> bool)
    returns (o: Outcome, items: seq<Item<T>>)
    requires Queryable(sch, view, n) && Indexed(sch, view)
    ensures o.Pass? && (items == [] <==> Records(sch, view.main) == map[])
    ensures items != [] ==>
              && IsFirst(items[0].id, sch.keys[n].key, Records(sch, view.main), Records(sch, view.main).Keys)
              && Lists(items, sch.keys[n].key, Records(sch, view.main),
                       {items[0].id} + PassingIds(view.main, filter))
  {
    hide Indexed, Records, DataOf, Lists, Sorted, TablesSound, Complete, Iter.InRange;
    var it;
    o, it := GenBegin(sch, view, n, true);
    it.filter := filter;
    FirstEntry(sch, view, n);
    ghost var ps;
    IndexedIsComplete(sch, view);
    o, items, ps := Collect(it, true);
    if items != [] {
      ghost var ids := {items[0].id} + PassingIds(view.main, filter);
      forall p: nat | p < |view.idx[n]| ensures p in ps <==> ItemAt(sch, view, n, p).id in ids {
        RestOfIndex(it, p);
        WhoPasses(sch, view, n, p, filter);
        SameItem(sch, view, n, 0, p);
      }
      PassingAreRecords(sch, view, n, filter);
      PositionsList(sch, view, n, items, ps, ids);
    }
  }

  /** The ids whose serialized record passes. */
  ghost function PassingIds(main: Main, filter: Bytes -> bool): set<Id> {
    set id | id in AsMap(main) && filter(AsMap(main)[id])
  }

  lemma FirstEntry<T>(sch: Schema<T>, view: Store, n: nat)
    requires Queryable(sch, view, n) && Indexed(sch, view)
    ensures view.idx[n] == [] <==> Records(sch, view.main) == map[]
    ensures view.idx[n] != [] ==>
              IsFirst(ItemAt(sch, view, n, 0).id, sch.keys[n].key, Records(sch, view.main), Records(sch, view.main).Keys)
  {
    var rows, recs, keyOf := view.idx[n], Records(sch, view.main), sch.keys[n].key;
    forall id | id in recs ensures exists q :: 0 <= q < |rows| && rows[q] == Entry(keyOf(recs[id]), IdBytes(id)) {
      MatchIsInRows(keyOf, recs, rows, id);
    }
    if rows != [] {
      EntryIsRecord(sch, view, n, 0);
      IndexIsSorted(sch, view, n);
      var first := ItemAt(sch, view, n, 0).id;
      forall i | i in recs && i != first ensures Before(rows[0], Entry(keyOf(recs[i]), IdBytes(i))) {
        var q :| 0 <= q < |rows| && rows[q] == Entry(keyOf(recs[i]), IdBytes(i));
        IdRoundTrip(i);
        assert q != 0;
      }
    }
  }

  lemma RestOfIndex<T(!new, 0)>(it: Iter<T>, p: nat)
    requires it.n < |it.view.idx| && p < |it.Rows()|
    requires !it.oneKey && it.prefix == []
    ensures it.InRange(0, p)
  {
  }

  lemma WhoPasses<T>(sch: Schema<T>, view: Store, n: nat, p: nat, filter: Bytes -> bool)
    requires Queryable(sch, view, n) && Indexed(sch, view) && p < |view.idx[n]|
    ensures Fetch(view.main, view.idx[n][p]).Ok?
    ensures filter(DataOf(view.main, view.idx[n][p])) <==>
            ItemAt(sch, view, n, p).id in PassingIds(view.main, filter)
  {
    EntryIsRecord(sch, view, n, p);
    MainGetReads(view.main, ItemAt(sch, view, n, p).id);
  }

  /** Two positions show different ids. */
  lemma SameItem<T>(sch: Schema<T>, view: Store, n: nat, p: nat, q: nat)
    requires Queryable(sch, view, n) && Indexed(sch, view) && p < |view.idx[n]| && q < |view.idx[n]|
    ensures ItemAt(sch, view, n, p).id == ItemAt(sch, view, n, q).id ==> p == q
  {
    EntryIsRecord(sch, view, n, p);
    EntryIsRecord(sch, view, n, q);
    IndexIsSorted(sch, view, n);
    BeforeIsStrictOrder(view.idx[n][p], view.idx[n][p], view.idx[n][p]);
  }

  lemma PassingAreRecords<T>(sch: Schema<T>, view: Store, n: nat, filter: Bytes -> bool)
    requires Queryable(sch, view, n) && Indexed(sch, view)
    ensures PassingIds(view.main, filter) <= Records(sch, view.main).Keys
  {
  }

  /**
   * ++ and then --: when ++ did not reach the end and the entry it left passes the filter (any entry does
   * when no filter is set), the iterator shows the same key, id and record as before.
   */
  method ThereAndBack<T(!new, 0)>(it: Iter<T>) returns (o: Outcome)
    requires it.Valid() && Indexed(it.sch, it.view)
    requires !it.end && it.Passes(it.filter, it.cursor.pos)
    modifies it`cursor, it`key, it`id, it`rec, it`end
    ensures o.Pass?
    ensures !it.end ==>
              && it.cursor == old(it.cursor)
              && it.key == old(it.key) && it.id == old(it.id) && it.rec == old(it.rec)
    ensures it.end ==> it.Exhausted(it.filter, true, old(it.cursor.pos))
  {
    hide Indexed, DataOf, Sorted, Iter.Passes;
    ghost var p := it.cursor.pos;
    IndexIsSorted(it.sch, it.view, it.n);
    o := it.GenOperator(true);
    if !it.end {
      ghost var q := it.cursor.pos;
      assert it.InRange(q, p) by {
        ComesBack(it, p, q);
      }
      o := it.GenOperator(false);
    }
  }

  lemma ComesBack<T(!new, 0)>(it: Iter<T>, p: nat, q: nat)
    requires it.n < |it.view.idx| && p < |it.Rows()| && q < |it.Rows()|
    requires it.InRange(p, q) && Anchored(it.Rows(), it.prefix, p)
    ensures it.InRange(q, p)
  {
  }
}
