/** Iterators over an index: one step of ++ or --, with a key range and a filter. */
module IndexIter {
  import opened ByteOrder
  import opened IdCodec
  import opened Lmdb
  import opened TypedStore
  import opened TypedDbi

  // ----- ranges of an index -----

  /** Equal keys, a common prefix, or (both switched off) the rest of the index. */
  predicate KeyInRange(oneKey: bool, prefix: Bytes, from: Bytes, key: Bytes) {
    (oneKey ==> key == from) && prefix <= key
  }

  /** The entry is in the range it started, or the range is empty. */
  ghost predicate Anchored(rows: Index, prefix: Bytes, p: nat)
    requires p < |rows|
  {
    prefix <= rows[p].key || forall i :: 0 <= i < |rows| ==> !(prefix <= rows[i].key)
  }

  lemma KeysAscend(rows: Index, i: nat, j: nat)
    requires Sorted(rows) && i <= j < |rows|
    ensures !Less(rows[j].key, rows[i].key)
  {
    Irreflexive(rows[i].key);
    if i < j {
      assert Before(rows[i], rows[j]);
      if Less(rows[j].key, rows[i].key) { Transitive(rows[i].key, rows[j].key, rows[i].key); }
    }
  }

  /** Walking away from an anchored entry, what follows an entry out of range is out of range. */
  lemma OutOfRangeStays(rows: Index, oneKey: bool, prefix: Bytes, from: nat, stop: nat, p: nat)
    requires Sorted(rows) && from < |rows| && stop < |rows| && p < |rows|
    requires from < stop <= p || p <= stop < from
    requires Anchored(rows, prefix, from)
    requires !KeyInRange(oneKey, prefix, rows[from].key, rows[stop].key)
    ensures !KeyInRange(oneKey, prefix, rows[from].key, rows[p].key)
  {
    var lo, hi := if from < p then from else p, if from < p then p else from;
    KeysAscend(rows, lo, stop);
    KeysAscend(rows, stop, hi);
    Total(rows[stop].key, rows[from].key);
    if prefix <= rows[p].key {
      PrefixIsContiguous(prefix, rows[lo].key, rows[stop].key, rows[hi].key);
    }
  }

  /** The cursor move of ++ or --: within equal keys when the iterator is limited to one key. */
  function WalkOp(oneKey: bool, forward: bool): CursorOp {
    if oneKey then if forward then NextDup else PrevDup else if forward then Next else Prev
  }

  lemma WalkStep(rows: Index, pos: nat, oneKey: bool, forward: bool)
    requires pos < |rows|
    ensures var q := if forward then pos + 1 else pos - 1;
            CursorGet(rows, At(pos, false), WalkOp(oneKey, forward)) ==
            if 0 <= q < |rows| && (oneKey ==> rows[q].key == rows[pos].key)
            then (Success, At(q, false)) else (NotFound, At(pos, false))
  {
  }

  // ----- what an entry stands for -----

  /** The get on the main table with the id bytes of an index entry. */
  function Fetch(main: Main, e: Pair): Result<Bytes> {
    if |e.val| != 4 then Threw(GettingData(BadValSize))
    else
      match MainGet(main, IdOf(e.val))
      case (Success, data) => Ok(data)
      case _ => Threw(MissingId)
  }

  /** The serialized record a pair points to. */
  function DataOf(main: Main, e: Pair): Bytes {
    match Fetch(main, e)
    case Ok(data) => data
    case Threw(_) => []
  }

  lemma EntryIsRecord<T>(sch: Schema<T>, s: Store, n: nat, p: nat)
    requires Indexed(sch, s) && n < SLOTS && sch.keys[n].IndexOn? && p < |s.idx[n]|
    ensures var e, recs := s.idx[n][p], Records(sch, s.main);
            && |e.val| == 4
            && IdOf(e.val) in recs
            && e == Entry(sch.keys[n].key(recs[IdOf(e.val)]), IdBytes(IdOf(e.val)))
            && Fetch(s.main, e) == Ok(DataOf(s.main, e))
            && sch.des(DataOf(s.main, e)) == recs[IdOf(e.val)]
  {
    var e, recs := s.idx[n][p], Records(sch, s.main);
    assert e in Elems(s.idx[n]);
    var id :| id in recs && e == Entry(sch.keys[n].key(recs[id]), IdBytes(id));
    IdRoundTrip(id);
    MainGetReads(s.main, id);
  }

  /** The get finds the row of the entry's id, if there is one; only four bytes are an id. */
  lemma FetchFinds(main: Main, e: Pair)
    requires Ascending(main)
    ensures Fetch(main, e) ==
            if |e.val| != 4 then Threw(GettingData(BadValSize))
            else if IdOf(e.val) in AsMap(main) then Ok(AsMap(main)[IdOf(e.val)])
            else Threw(MissingId)
  {
    if |e.val| == 4 {
      MainGetReads(main, IdOf(e.val));
    }
  }

  lemma FetchWorks<T>(sch: Schema<T>, s: Store, n: nat, p: nat)
    requires Indexed(sch, s) && n < SLOTS && sch.keys[n].IndexOn? && p < |s.idx[n]|
    ensures Fetch(s.main, s.idx[n][p]).Ok?
  {
    EntryIsRecord(sch, s, n, p);
  }

  // ----- iter_t -----

  /** An iterator over index n of a transaction whose tables nobody writes meanwhile. */
  class Iter<T(!new, 0)> {
    const sch: Schema<T>
    const view: Store
    const n: nat
    const oneKey: bool
    const prefix: Bytes
    var filter: Bytes -> bool
    var cursor: Cursor
    var key: Bytes
    var id: Bytes
    var rec: T
    var end: bool

    ghost function Rows(): Index
      requires n < |view.idx|
    {
      view.idx[n]
    }

    /** The iterator is at an entry of a real index, or at the end. */
    ghost predicate Placed()
      reads this`cursor, this`end
    {
      && sch.Valid() && |view.idx| == SLOTS && n < SLOTS && sch.keys[n].IndexOn?
      && (!end ==> cursor.At? && !cursor.deleted && cursor.pos < |Rows()|)
    }

    ghost predicate Valid()
      reads this
    {
      Placed() && (!end ==> Anchored(Rows(), prefix, cursor.pos) && Shows())
    }

    /** The fields hold the entry under the cursor and its record. */
    ghost predicate Shows()
      reads this
      requires n < |view.idx| && cursor.At? && cursor.pos < |Rows()|
    {
      var e := Rows()[cursor.pos];
      key == e.key && id == e.val && Fetch(view.main, e).Ok? && rec == sch.des(DataOf(view.main, e))
    }

    ghost predicate InRange(from: nat, p: nat)
      requires n < |view.idx| && from < |Rows()| && p < |Rows()|
    {
      KeyInRange(oneKey, prefix, Rows()[from].key, Rows()[p].key)
    }

    /** The entry has a record. */
    ghost predicate HasRecord(p: nat)
      requires n < |view.idx| && p < |Rows()|
    {
      Fetch(view.main, Rows()[p]).Ok?
    }

    ghost predicate Passes(f: Bytes -> bool, p: nat)
      requires n < |view.idx| && p < |Rows()|
    {
      HasRecord(p) && f(DataOf(view.main, Rows()[p]))
    }

    /** Every entry strictly between p and q is in range, and has a record that fails the filter. */
    ghost predicate Skipped(f: Bytes -> bool, p: nat, q: nat)
      requires n < |view.idx| && p < |Rows()| && q < |Rows()|
    {
      forall i: nat :: p < i < q || q < i < p ==> InRange(p, i) && HasRecord(i) && !Passes(f, i)
    }

    /** Everything further on in that direction that is in range has a record that fails the filter. */
    ghost predicate Exhausted(f: Bytes -> bool, forward: bool, p: nat)
      requires n < |view.idx| && p < |Rows()|
    {
      forall i: nat :: i < |Rows()| && (if forward then p < i else i < p) && InRange(p, i) ==>
        HasRecord(i) && !Passes(f, i)
    }

    /** The constructors with end = true, before anything is read. */
    constructor (sch: Schema<T>, view: Store, n: nat, oneKey: bool, prefix: Bytes, cursor: Cursor)
      requires sch.Valid() && |view.idx| == SLOTS && n < SLOTS && sch.keys[n].IndexOn?
      ensures Valid() && end
      ensures this.sch == sch && this.view == view && this.n == n
      ensures this.oneKey == oneKey && this.prefix == prefix && this.cursor == cursor
      ensures forall d :: filter(d)
    {
      this.sch, this.view, this.n := sch, view, n;
      this.oneKey, this.prefix, this.cursor := oneKey, prefix, cursor;
      filter, key, id, end := d => true, [], [], true;
    }

    /** Reading a pair shows the record stored under its id, or throws when none is. */
    ghost predicate Opens(e: Pair, o: Outcome)
      reads this`rec, this`end
    {
      Ascending(view.main) && |e.val| == 4 ==>
        if IdOf(e.val) in AsMap(view.main)
        then o == Pass && !end && rec == sch.des(AsMap(view.main)[IdOf(e.val)])
        else o == Throw(MissingId)
    }

    /** The rest of the constructors: read what is under the cursor. */
    method Load() returns (o: Outcome)
      requires Valid() && CursorFits(Rows(), cursor)
      modifies this`cursor, this`key, this`id, this`rec, this`end
      ensures o.Pass? ==> Placed() && (end <==> old(cursor).At? && old(cursor).pos == |Rows()|)
      ensures o.Pass? && !end ==> Shows()
      ensures o.Pass? && !end ==> old(cursor).At? && cursor.pos == old(cursor).pos
      ensures Indexed(sch, view) && old(cursor).At? ==> o.Pass?
      ensures old(cursor).Unset? ==> o == Throw(CursorGetFailed(Inval))
      ensures old(cursor).At? && old(cursor).pos < |Rows()| ==> Opens(Rows()[old(cursor).pos], o)
    {
      hide Fetch, Less, Indexed, Sorted, Ascending;
      end := false;
      var rows := view.idx[n];
      var (rc, c) := CursorGet(rows, cursor, GetCurrent);
      if rc == NotFound {
        end := true;
        return Pass;
      }
      if rc != Success {
        return Throw(CursorGetFailed(rc));
      }
      cursor, key, id := c, rows[c.pos].key, rows[c.pos].val;
      if Indexed(sch, view) {
        FetchWorks(sch, view, n, c.pos);
      }
      if Ascending(view.main) {
        FetchFinds(view.main, rows[c.pos]);
      }
      match Fetch(view.main, rows[c.pos])
      case Threw(e) => return Throw(e);
      case Ok(data) =>
        rec := sch.des(data);
        return Pass;
    }

    /** The next entry in the given direction continues the range of the one at p, as far as one move shows. */
    ghost predicate Continues(p: nat, q: int)
      requires n < |view.idx| && p < |Rows()|
    {
      && 0 <= q < |Rows()|
      && (oneKey ==> Rows()[q].key == Rows()[p].key)
      && (prefix != [] ==> prefix <= Rows()[q].key)
    }

    /** One pass of the retry loop: move, test the prefix, fetch the record, ask the filter. */
    method TryNext(forward: bool) returns (o: Outcome, again: bool)
      requires Placed() && !end
      modifies this`cursor, this`key, this`id, this`rec, this`end
      ensures o.Pass? ==>
                var p, q := old(cursor.pos), if forward then old(cursor.pos) + 1 else old(cursor.pos) - 1;
                && Placed()
                && end == !Continues(p, q)
                && (end ==> !again)
                && (!end ==> cursor.pos == q && HasRecord(q) && again == !Passes(filter, q))
                && (!end && !again ==> Shows())
      ensures o.Throw? ==>
                var p, q := old(cursor.pos), if forward then old(cursor.pos) + 1 else old(cursor.pos) - 1;
                Continues(p, q) && Fetch(view.main, Rows()[q]) == Threw(o.error)
      ensures Indexed(sch, view) ==> o.Pass?
    {
      hide Fetch, Indexed, CursorGet, WalkOp;
      again := false;
      var rows := view.idx[n];
      var (rc, c) := CursorGet(rows, cursor, WalkOp(oneKey, forward));
      WalkStep(rows, cursor.pos, oneKey, forward);
      if rc == NotFound {
        end := true;
        return Pass, false;
      }
      if rc != Success {
        return Throw(CursorGetFailed(rc)), false;
      }
      cursor, key, id := c, rows[c.pos].key, rows[c.pos].val;
      if prefix != [] && !(prefix <= key) {
        end := true;
        return Pass, false;
      }
      if Indexed(sch, view) {
        FetchWorks(sch, view, n, c.pos);
      }
      match Fetch(view.main, rows[c.pos])
      case Threw(e) => return Throw(e), false;
      case Ok(data) =>
        if !filter(data) {
          return Pass, true;
        }
        rec := sch.des(data);
        return Pass, false;
    }

    /** The walk from p skips what fails the filter and then comes to an entry in range without a record. */
    ghost predicate Dangles(f: Bytes -> bool, forward: bool, p: nat, e: Error)
      requires n < |view.idx| && p < |Rows()|
    {
      exists q: nat :: q < |Rows()| && (if forward then p < q else q < p) &&
        InRange(p, q) && Skipped(f, p, q) && Fetch(view.main, Rows()[q]) == Threw(e)
    }

    /**
     * ++ and --. The nearest position in the given direction that is in range and passes the filter;
     * everything skipped is in range and fails it; the end only when everything further on in range fails.
     * It throws exactly when the walk comes to an entry in range whose record is missing, which a rightly
     * indexed store does not have.
     */
    method GenOperator(forward: bool) returns (o: Outcome)
      requires Valid() && !end
      modifies this`cursor, this`key, this`id, this`rec, this`end
      ensures o.Pass? ==> Valid()
      ensures Indexed(sch, view) ==> o.Pass?
      ensures o.Pass? && !end ==>
                var p, q := old(cursor.pos), cursor.pos;
                && (if forward then p < q else q < p)
                && InRange(p, q) && Passes(filter, q) && Skipped(filter, p, q)
      ensures Sorted(Rows()) && o.Pass? && end ==> Exhausted(filter, forward, old(cursor.pos))
      ensures o.Throw? ==> Dangles(filter, forward, old(cursor.pos), o.error)
      ensures Sorted(Rows()) && o.Pass? ==> forall e :: !Dangles(filter, forward, old(cursor.pos), e)
      ensures Ascending(view.main) && (forall e :: e in Rows() ==> |e.val| == 4) ==>
                && (o.Throw? ==> o == Throw(MissingId) && MissesRow(filter, forward, old(cursor.pos)))
                && (o.Pass? && !end ==>
                      |id| == 4 && IdOf(id) in AsMap(view.main) && rec == sch.des(AsMap(view.main)[IdOf(id)]))
    {
      hide Shows, DataOf, Fetch, Indexed, Sorted, InRange, Anchored;
      hide Skipped, Exhausted, Passes, HasRecord, Dangles, MissesRow;
      ghost var p, f := cursor.pos, filter;
      var again := true;
      SkippedNone(f, p);
      while again
        invariant Placed() && Anchored(Rows(), prefix, p)
        invariant !end ==> if forward then p <= cursor.pos else cursor.pos <= p
        invariant !end ==> Skipped(f, p, cursor.pos) && (oneKey ==> Rows()[cursor.pos].key == Rows()[p].key)
        invariant !end && cursor.pos != p ==> InRange(p, cursor.pos) && Anchored(Rows(), prefix, cursor.pos)
        invariant !end && cursor.pos != p ==> HasRecord(cursor.pos) && again == !Passes(f, cursor.pos)
        invariant !again && !end ==> cursor.pos != p && Shows()
        invariant again ==> !end
        invariant end && Sorted(Rows()) ==> Exhausted(f, forward, p)
        decreases again, if end then 0 else if forward then |Rows()| - cursor.pos else cursor.pos
      {
        ghost var q: int := cursor.pos;
        o, again := TryNext(forward);
        if o.Throw? {
          ghost var stop := if forward then q + 1 else q - 1;
          StaysInRange(p, stop);
          SkippedMore(f, forward, p, q);
          WalkDangles(f, forward, p, stop, o.error);
          return o;
        }
        if end {
          NothingBeyond(f, forward, p, q, if forward then q + 1 else q - 1);
        } else {
          StaysInRange(p, cursor.pos);
          SkippedMore(f, forward, p, q);
        }
      }
      if end {
        if Sorted(Rows()) {
          EndIsSound(f, forward, p);
        }
      } else {
        StopIsSound(f, forward, p, cursor.pos);
        ShownRecord();
      }
      return Pass;
    }

    /** The walk from p comes to an entry in range whose id is not in the main table. */
    ghost predicate MissesRow(f: Bytes -> bool, forward: bool, p: nat)
      requires n < |view.idx| && p < |Rows()|
    {
      exists q: nat :: q < |Rows()| && (if forward then p < q else q < p) && InRange(p, q) && Skipped(f, p, q) &&
        |Rows()[q].val| == 4 && IdOf(Rows()[q].val) !in AsMap(view.main)
    }

    lemma WalkDangles(f: Bytes -> bool, forward: bool, p: nat, q: nat, e: Error)
      requires n < |view.idx| && p < |Rows()| && q < |Rows()| && (if forward then p < q else q < p)
      requires InRange(p, q) && Skipped(f, p, q) && Fetch(view.main, Rows()[q]) == Threw(e)
      ensures Dangles(f, forward, p, e)
      ensures Ascending(view.main) && |Rows()[q].val| == 4 ==> e == MissingId && MissesRow(f, forward, p)
    {
      if Ascending(view.main) {
        FetchFinds(view.main, Rows()[q]);
      }
    }

    /** Past an entry that fails or passes, no missing record is met before it or instead of it. */
    lemma StopIsSound(f: Bytes -> bool, forward: bool, p: nat, q: nat)
      requires n < |view.idx| && p < |Rows()| && q < |Rows()| && (if forward then p < q else q < p)
      requires Skipped(f, p, q) && Passes(f, q)
      ensures forall e :: !Dangles(f, forward, p, e)
    {
    }

    lemma EndIsSound(f: Bytes -> bool, forward: bool, p: nat)
      requires n < |view.idx| && p < |Rows()| && Exhausted(f, forward, p)
      ensures forall e :: !Dangles(f, forward, p, e)
    {
    }

    lemma ShownRecord()
      requires n < |view.idx| && cursor.At? && cursor.pos < |Rows()| && Shows()
      ensures Ascending(view.main) && |Rows()[cursor.pos].val| == 4 ==>
                |id| == 4 && IdOf(id) in AsMap(view.main) && rec == sch.des(AsMap(view.main)[IdOf(id)])
    {
      if Ascending(view.main) {
        FetchFinds(view.main, Rows()[cursor.pos]);
      }
    }

    lemma StaysInRange(p: nat, q: nat)
      requires n < |view.idx| && p < |Rows()| && q < |Rows()|
      requires oneKey ==> Rows()[q].key == Rows()[p].key
      requires prefix == [] || prefix <= Rows()[q].key
      ensures InRange(p, q) && Anchored(Rows(), prefix, q)
    {
    }

    lemma SkippedNone(f: Bytes -> bool, p: nat)
      requires n < |view.idx| && p < |Rows()|
      ensures Skipped(f, p, p)
    {
    }

    lemma SkippedMore(f: Bytes -> bool, forward: bool, p: nat, q: nat)
      requires n < |view.idx| && p < |Rows()| && q < |Rows()|
      requires if forward then p <= q < |Rows()| - 1 else 0 < q <= p
      requires Skipped(f, p, q) && (q != p ==> InRange(p, q) && HasRecord(q) && !Passes(f, q))
      ensures Skipped(f, p, if forward then q + 1 else q - 1)
    {
    }

    /** Where the walk from p stops, next to q, the range is over in that direction. */
    lemma NothingBeyond(f: Bytes -> bool, forward: bool, p: nat, q: nat, stop: int)
      requires n < |view.idx| && p < |Rows()| && q < |Rows()|
      requires if forward then p <= q && stop == q + 1 else q <= p && stop == q - 1
      requires Skipped(f, p, q) && (q != p ==> InRange(p, q) && HasRecord(q) && !Passes(f, q))
      requires Anchored(Rows(), prefix, p)
      requires oneKey ==> Rows()[q].key == Rows()[p].key
      requires !Continues(q, stop)
      ensures Sorted(Rows()) ==> Exhausted(f, forward, p)
    {
      if Sorted(Rows()) {
        forall i: nat | i < |Rows()| && (if forward then stop <= i else i <= stop) ensures !InRange(p, i) {
          OutOfRangeStays(Rows(), oneKey, prefix, p, stop, i);
        }
      }
    }
  }
}
