/**
 * The part of LMDB the library stands on: two kinds of sorted table and a cursor, as values.
 * An index table (MDB_DUPSORT) is ordered by key bytes, then data bytes; the main table
 * (MDB_INTEGERKEY) by numeric id. B-tree pages, maps and files are not part of this model.
 */
module Lmdb {
  import opened ByteOrder
  import opened IdCodec

  datatype Rc = Success | NotFound | KeyExist | BadValSize | Inval

  datatype Entry<+K, +V> = Entry(key: K, val: V)

  type Pair = Entry<Bytes, Bytes>

  type Row = Entry<Id, Bytes>

  type Index = seq<Pair>

  type Main = seq<Row>

  const MAX_KEY := 511

  predicate KeyFits(key: Bytes) {
    1 <= |key| <= MAX_KEY
  }

  function Elems<E>(s: seq<E>): set<E> {
    set e | e in s
  }

  // ----- index tables -----

  predicate Before(a: Pair, b: Pair) {
    Less(a.key, b.key) || (a.key == b.key && Less(a.val, b.val))
  }

  ghost predicate Sorted(s: Index) {
    forall i, j :: 0 <= i < j < |s| ==> Before(s[i], s[j])
  }

  lemma BeforeIsStrictOrder(a: Pair, b: Pair, c: Pair)
    ensures !Before(a, a)
    ensures Before(a, b) && Before(b, c) ==> Before(a, c)
    ensures Before(a, b) || a == b || Before(b, a)
    ensures !(Before(a, b) && Before(b, a))
  {
    Irreflexive(a.key);
    Irreflexive(a.val);
    Total(a.key, b.key);
    Total(a.val, b.val);
    if Less(a.key, b.key) && Less(b.key, c.key) { Transitive(a.key, b.key, c.key); }
    if Less(a.val, b.val) && Less(b.val, c.val) { Transitive(a.val, b.val, c.val); }
    if Less(a.key, b.key) && Less(b.key, a.key) { Transitive(a.key, b.key, a.key); }
    if Less(a.val, b.val) && Less(b.val, a.val) { Transitive(a.val, b.val, a.val); }
  }

  /** How many leading entries lie before e. */
  function Rank(s: Index, e: Pair): (p: nat)
    ensures p <= |s|
    ensures forall i :: 0 <= i < p ==> Before(s[i], e)
    ensures p < |s| ==> !Before(s[p], e)
  {
    if s == [] || !Before(s[0], e) then 0 else 1 + Rank(s[1..], e)
  }

  /** mdb_put of a duplicate: an entry already there stays as it is. */
  function PutPair(s: Index, e: Pair): Index {
    var p := Rank(s, e);
    if p < |s| && s[p] == e then s else s[..p] + [e] + s[p..]
  }

  /** mdb_del of one (key, data) pair. */
  function DelPair(s: Index, e: Pair): (Rc, Index) {
    var p := Rank(s, e);
    if p < |s| && s[p] == e then (Success, s[..p] + s[p + 1..]) else (NotFound, s)
  }

  lemma AfterRank(s: Index, e: Pair, i: nat)
    requires Sorted(s) && Rank(s, e) <= i < |s|
    ensures s[i] == e ==> i == Rank(s, e)
    ensures s[i] == e || Before(e, s[i])
  {
    var p := Rank(s, e);
    BeforeIsStrictOrder(s[p], e, e);
    BeforeIsStrictOrder(e, s[p], s[i]);
    if i > p {
      assert Before(s[p], s[i]);
    }
  }

  lemma PutPairAdds(s: Index, e: Pair)
    requires Sorted(s)
    ensures Sorted(PutPair(s, e))
    ensures Elems(PutPair(s, e)) == Elems(s) + {e}
  {
    var p := Rank(s, e);
    var r := PutPair(s, e);
    if !(p < |s| && s[p] == e) {
      forall i, j | 0 <= i < j < |r| ensures Before(r[i], r[j]) {
        if i == p {
          AfterRank(s, e, j - 1);
          if s[j - 1] == e { assert false; }
        }
        if p < i { assert r[i] == s[i - 1] && r[j] == s[j - 1]; }
      }
      InsertionAdds(s, p, e);
    } else {
      assert e in s;
    }
  }

  lemma DelPairRemoves(s: Index, e: Pair)
    requires Sorted(s)
    ensures DelPair(s, e).0 == if e in s then Success else NotFound
    ensures Sorted(DelPair(s, e).1)
    ensures Elems(DelPair(s, e).1) == Elems(s) - {e}
  {
    var p := Rank(s, e);
    BeforeIsStrictOrder(e, e, e);
    if p < |s| && s[p] == e {
      RemovalDrops(s, p);
      OnlyOnce(s, p);
    } else if e in s {
      var k :| 0 <= k < |s| && s[k] == e;
      AfterRank(s, e, k);
    }
  }

  lemma OnlyOnce(s: Index, p: nat)
    requires Sorted(s) && p < |s|
    ensures s[p] !in s[..p] + s[p + 1..]
  {
    var r := s[..p] + s[p + 1..];
    BeforeIsStrictOrder(s[p], s[p], s[p]);
    forall k | 0 <= k < |r| ensures r[k] != s[p] {
      assert k < p ==> Before(s[k], s[p]);
      assert k >= p ==> Before(s[p], s[k + 1]);
    }
  }

  lemma RemovalDrops<E>(s: seq<E>, p: nat)
    requires p < |s|
    ensures forall x :: x in s <==> x in s[..p] + s[p + 1..] || x == s[p]
  {
    assert s == s[..p] + [s[p]] + s[p + 1..];
  }

  /** A sorted table is determined by the pairs it holds. */
  lemma {:induction false} SortedIsCanonical(s: Index, t: Index)
    requires Sorted(s) && Sorted(t) && Elems(s) == Elems(t)
    ensures s == t
  {
    assert s != [] ==> s[0] in Elems(t);
    assert t != [] ==> t[0] in Elems(s);
    if s != [] && t != [] {
      assert s[0] in Elems(t) && t[0] in Elems(s);
      BeforeIsStrictOrder(s[0], t[0], s[0]);
      assert s[0] == t[0];
      forall x ensures x in s[1..] <==> x in t[1..] {
        TailExcludesHead(s, x);
        TailExcludesHead(t, x);
        assert x in s <==> x in Elems(t);
      }
      SortedIsCanonical(s[1..], t[1..]);
      assert s == [s[0]] + s[1..] && t == [t[0]] + t[1..];
    }
  }

  lemma TailExcludesHead(s: Index, x: Pair)
    requires Sorted(s) && s != []
    ensures x in s[1..] <==> x in s && x != s[0]
  {
    BeforeIsStrictOrder(s[0], s[0], s[0]);
    assert s == [s[0]] + s[1..];
    if x in s[1..] {
      var k :| 0 <= k < |s[1..]| && s[1..][k] == x;
      assert Before(s[0], s[k + 1]);
    }
  }

  /** A sorted table holds each pair once. */
  lemma {:induction false} SortedHasNoDuplicates(s: Index)
    requires Sorted(s)
    ensures |Elems(s)| == |s|
  {
    if s != [] {
      SortedHasNoDuplicates(s[1..]);
      forall x ensures x in Elems(s) <==> x in Elems(s[1..]) + {s[0]} {
        TailExcludesHead(s, x);
      }
      TailExcludesHead(s, s[0]);
      assert Elems(s) == Elems(s[1..]) + {s[0]};
    }
  }

  // ----- the main table -----

  ghost predicate Ascending(m: Main) {
    forall i, j :: 0 <= i < j < |m| ==> m[i].key < m[j].key
  }

  /** How many leading rows have an id below the given one. */
  function MainRank(m: Main, id: Id): (p: nat)
    ensures p <= |m|
    ensures forall i :: 0 <= i < p ==> m[i].key < id
    ensures p < |m| ==> id <= m[p].key
  {
    if m == [] || m[0].key >= id then 0 else 1 + MainRank(m[1..], id)
  }

  /** mdb_put; with append it refuses an id that does not exceed the last one (MDB_APPEND). */
  function MainPut(m: Main, id: Id, val: Bytes, append: bool): (Rc, Main) {
    if append then
      if m != [] && id <= m[|m| - 1].key then (KeyExist, m) else (Success, m + [Entry(id, val)])
    else
      var p := MainRank(m, id);
      if p < |m| && m[p].key == id
      then (Success, m[p := Entry(id, val)])
      else (Success, m[..p] + [Entry(id, val)] + m[p..])
  }

  /** mdb_get. */
  function MainGet(m: Main, id: Id): (Rc, Bytes) {
    var p := MainRank(m, id);
    if p < |m| && m[p].key == id then (Success, m[p].val) else (NotFound, [])
  }

  /** mdb_del of an id. */
  function MainDel(m: Main, id: Id): (Rc, Main) {
    var p := MainRank(m, id);
    if p < |m| && m[p].key == id then (Success, m[..p] + m[p + 1..]) else (NotFound, m)
  }

  /** What a main table means: the value stored under each id. */
  ghost function AsMap(m: Main): map<Id, Bytes> {
    if m == [] then map[]
    else
      var last := m[|m| - 1];
      AsMap(m[..|m| - 1])[last.key := last.val]
  }

  lemma {:induction false} Meaning(m: Main, row: Row)
    requires Ascending(m)
    ensures row in m <==> row.key in AsMap(m) && AsMap(m)[row.key] == row.val
  {
    if m != [] {
      var init, last := m[..|m| - 1], m[|m| - 1];
      assert m == init + [last];
      Meaning(init, row);
      if row in init {
        var k :| 0 <= k < |init| && init[k] == row;
        assert m[k].key < last.key;
      }
    }
  }

  lemma RowUnder(m: Main, id: Id)
    requires Ascending(m) && id in AsMap(m)
    ensures Entry(id, AsMap(m)[id]) in m
  {
    Meaning(m, Entry(id, AsMap(m)[id]));
  }

  /** mdb_get finds exactly what the table means. */
  lemma MainGetReads(m: Main, id: Id)
    requires Ascending(m)
    ensures MainGet(m, id) == if id in AsMap(m) then (Success, AsMap(m)[id]) else (NotFound, [])
  {
    var q := MainRank(m, id);
    if id in AsMap(m) {
      RowUnder(m, id);
      var p :| 0 <= p < |m| && m[p] == Entry(id, AsMap(m)[id]);
      assert !(p < q);
      assert !(q < p);
    } else if q < |m| {
      Meaning(m, m[q]);
    }
  }

  /** A table with the right rows has the right meaning. */
  lemma Means(m: Main, want: map<Id, Bytes>)
    requires Ascending(m)
    requires forall row :: row in m ==> row.key in want && want[row.key] == row.val
    requires forall i :: i in want ==> Entry(i, want[i]) in m
    ensures AsMap(m) == want
  {
    forall i: Id ensures i in AsMap(m) <==> i in want
                 ensures i in want ==> i in AsMap(m) && AsMap(m)[i] == want[i]
    {
      if i in AsMap(m) { RowUnder(m, i); }
      if i in want { Meaning(m, Entry(i, want[i])); }
    }
  }

  /** MDB_APPEND accepts exactly the ids above every stored one; a refused put changes nothing. */
  lemma MainPutUpdates(m: Main, id: Id, val: Bytes, append: bool)
    requires Ascending(m)
    ensures var (rc, r) := MainPut(m, id, val, append);
            && Ascending(r)
            && (rc == Success ==> AsMap(r) == AsMap(m)[id := val])
            && (rc == Success && append ==> forall i :: i in AsMap(m) ==> i < id)
            && (rc != Success ==> rc == KeyExist && r == m && append && exists i :: i in AsMap(m) && id <= i)
  {
    var (rc, r) := MainPut(m, id, val, append);
    if append {
      forall i | i in AsMap(m) ensures m != [] && i <= m[|m| - 1].key {
        RowUnder(m, i);
      }
      if rc != Success {
        assert m[|m| - 1].key in AsMap(m);
      } else {
        assert m[..|m|] + [Entry(id, val)] + m[|m|..] == r;
        InsertedRow(m, |m|, id, val);
      }
    } else {
      var p := MainRank(m, id);
      if p < |m| && m[p].key == id {
        ReplacedRow(m, p, id, val);
      } else {
        InsertedRow(m, p, id, val);
      }
    }
  }

  lemma InsertedRow(m: Main, p: nat, id: Id, val: Bytes)
    requires Ascending(m) && p <= |m|
    requires forall i :: 0 <= i < p ==> m[i].key < id
    requires p < |m| ==> id < m[p].key
    ensures Ascending(m[..p] + [Entry(id, val)] + m[p..])
    ensures AsMap(m[..p] + [Entry(id, val)] + m[p..]) == AsMap(m)[id := val]
  {
    hide AsMap;
    var r := m[..p] + [Entry(id, val)] + m[p..];
    assert Ascending(r);
    InsertionAdds(m, p, Entry(id, val));
    forall row | row in m ensures row.key != id {
      var k :| 0 <= k < |m| && m[k] == row;
      assert k >= p ==> m[p].key <= m[k].key;
    }
    MeansUpdated(m, r, Entry(id, val));
  }

  lemma InsertionAdds<E>(s: seq<E>, p: nat, e: E)
    requires p <= |s|
    ensures forall x :: x in s[..p] + [e] + s[p..] <==> x in s || x == e
  {
    assert s == s[..p] + s[p..];
  }

  lemma MeansUpdated(m: Main, r: Main, row: Row)
    requires Ascending(m) && Ascending(r)
    requires forall x :: x in r <==> x in m || x == row
    requires forall x :: x in m ==> x.key != row.key
    ensures AsMap(r) == AsMap(m)[row.key := row.val]
  {
    hide AsMap;
    var want := AsMap(m)[row.key := row.val];
    forall x | x in r ensures x.key in want && want[x.key] == x.val {
      Meaning(m, x);
    }
    forall i | i in want ensures Entry(i, want[i]) in r {
      Meaning(m, Entry(i, want[i]));
    }
    Means(r, want);
  }

  lemma ReplacedRow(m: Main, p: nat, id: Id, val: Bytes)
    requires Ascending(m) && p < |m| && m[p].key == id
    ensures Ascending(m[p := Entry(id, val)])
    ensures AsMap(m[p := Entry(id, val)]) == AsMap(m)[id := val]
  {
    hide AsMap;
    var r := m[p := Entry(id, val)];
    var want := AsMap(m)[id := val];
    forall row | row in r ensures row.key in want && want[row.key] == row.val {
      Meaning(m, row);
    }
    forall i | i in want ensures Entry(i, want[i]) in r {
      Meaning(m, Entry(i, want[i]));
      assert r[p] == Entry(id, val);
      if i != id {
        var k :| 0 <= k < |m| && m[k] == Entry(i, want[i]);
        assert r[k] == m[k];
      }
    }
    Means(r, want);
  }

  lemma MainDelRemoves(m: Main, id: Id)
    requires Ascending(m)
    ensures var (rc, r) := MainDel(m, id);
            && Ascending(r)
            && AsMap(r) == AsMap(m) - {id}
            && rc == (if id in AsMap(m) then Success else NotFound)
  {
    hide AsMap;
    var p := MainRank(m, id);
    MainGetReads(m, id);
    if p < |m| && m[p].key == id {
      RemovedRow(m, p);
    } else {
      RemoveAbsent(AsMap(m), id);
    }
  }

  lemma RemoveAbsent<K, V>(m: map<K, V>, k: K)
    requires k !in m
    ensures m - {k} == m
  {
  }

  lemma RemovedRow(m: Main, p: nat)
    requires Ascending(m) && p < |m|
    ensures Ascending(m[..p] + m[p + 1..])
    ensures AsMap(m[..p] + m[p + 1..]) == AsMap(m) - {m[p].key}
  {
    WithoutRow(m, p);
    RemovalDrops(m, p);
    RowAddedBack(m[..p] + m[p + 1..], m, m[p]);
  }

  lemma RowAddedBack(r: Main, m: Main, row: Row)
    requires Ascending(r) && Ascending(m)
    requires forall x :: x in r ==> x.key != row.key
    requires forall x :: x in m <==> x in r || x == row
    ensures AsMap(r) == AsMap(m) - {row.key}
  {
    MeansUpdated(r, m, row);
    if row.key in AsMap(r) { RowUnder(r, row.key); }
    AddThenRemove(AsMap(r), row.key, row.val);
  }

  lemma AddThenRemove<K, V>(m: map<K, V>, k: K, v: V)
    requires k !in m
    ensures m[k := v] - {k} == m
  {
  }

  lemma WithoutRow(m: Main, p: nat)
    requires Ascending(m) && p < |m|
    ensures Ascending(m[..p] + m[p + 1..])
    ensures forall x :: x in m[..p] + m[p + 1..] ==> x.key != m[p].key
  {
    var r := m[..p] + m[p + 1..];
    forall x | x in r ensures x.key != m[p].key {
      var k :| 0 <= k < |r| && r[k] == x;
      assert k < p ==> m[k].key < m[p].key;
      assert k >= p ==> m[p].key < m[k + 1].key;
    }
  }

  // ----- cursors -----

  /** A position; after a delete through the cursor it stands on whatever moved into place. */
  datatype Cursor = Unset | At(pos: nat, deleted: bool)

  datatype CursorOp = First | Last | Next | Prev | NextDup | PrevDup | NextNoDup | GetCurrent

  predicate CursorFits<E>(rows: seq<E>, c: Cursor) {
    c.At? ==> if c.deleted then c.pos <= |rows| else c.pos < |rows|
  }

  /** The first position after p whose key differs from the key at p. */
  function NextKey<K(==), V>(rows: seq<Entry<K, V>>, p: nat): (q: nat)
    requires p < |rows|
    ensures p < q <= |rows|
    ensures forall i :: p <= i < q ==> rows[i].key == rows[p].key
    ensures q < |rows| ==> rows[q].key != rows[p].key
    decreases |rows| - p
  {
    if p + 1 == |rows| || rows[p + 1].key != rows[p].key then p + 1 else NextKey(rows, p + 1)
  }

  /** Stay where the cursor is and report MDB_NOTFOUND, or move to an existing position. */
  function MoveTo<E>(rows: seq<E>, c: Cursor, p: int, ok: bool): (r: (Rc, Cursor)) {
    if 0 <= p < |rows| && ok then (Success, At(p, false)) else (NotFound, c)
  }

  /** mdb_cursor_get for the moves that do not search. */
  function CursorGet<K(==), V>(rows: seq<Entry<K, V>>, c: Cursor, op: CursorOp): (r: (Rc, Cursor))
    requires CursorFits(rows, c)
    requires c.At? && c.deleted ==> op in {First, Last, Next, GetCurrent}
    ensures r.0 == Success ==> r.1.At? && !r.1.deleted && r.1.pos < |rows|
    ensures r.0 != Success ==> r.1 == c
  {
    match op
    case First => MoveTo(rows, c, 0, true)
    case Last => MoveTo(rows, c, |rows| - 1, true)
    case GetCurrent => if c.Unset? then (Inval, c) else MoveTo(rows, c, c.pos, true)
    case Next =>
      if c.Unset? then MoveTo(rows, c, 0, true)
      else MoveTo(rows, c, if c.deleted then c.pos else c.pos + 1, true)
    case Prev =>
      if c.Unset? then MoveTo(rows, c, |rows| - 1, true) else MoveTo(rows, c, c.pos - 1, true)
    case NextDup =>
      if c.Unset? then MoveTo(rows, c, 0, true)
      else MoveTo(rows, c, c.pos + 1, c.pos + 1 < |rows| && rows[c.pos + 1].key == rows[c.pos].key)
    case PrevDup =>
      if c.Unset? then MoveTo(rows, c, |rows| - 1, true)
      else MoveTo(rows, c, c.pos - 1, c.pos >= 1 && rows[c.pos - 1].key == rows[c.pos].key)
    case NextNoDup =>
      if c.Unset? then MoveTo(rows, c, 0, true) else MoveTo(rows, c, NextKey(rows, c.pos), true)
  }

  /** mdb_cursor_del. */
  function CursorDel<E>(rows: seq<E>, c: Cursor): (Rc, seq<E>, Cursor)
    requires CursorFits(rows, c)
  {
    if c.At? && !c.deleted
    then (Success, rows[..c.pos] + rows[c.pos + 1..], At(c.pos, true))
    else (Inval, rows, c)
  }

  /** How many leading entries have a key below the given one. */
  function KeyRank(s: Index, key: Bytes): (p: nat)
    ensures p <= |s|
    ensures forall i :: 0 <= i < p ==> Less(s[i].key, key)
    ensures p < |s| ==> !Less(s[p].key, key)
  {
    if s == [] || !Less(s[0].key, key) then 0 else 1 + KeyRank(s[1..], key)
  }

  /** mdb_cursor_get with MDB_SET, or with MDB_SET_RANGE when orAbove. An empty key is refused. */
  function Seek(s: Index, key: Bytes, orAbove: bool): (r: (Rc, Cursor))
    ensures r.0 == Success ==> r.1.At? && !r.1.deleted && r.1.pos < |s|
  {
    if key == [] then (BadValSize, Unset)
    else
      var p := KeyRank(s, key);
      MoveTo(s, Unset, p, p < |s| && (orAbove || s[p].key == key))
  }

  /** mdb_get on an index: the first of the key's duplicates. */
  function IndexGet(s: Index, key: Bytes): (Rc, Bytes) {
    var (rc, c) := Seek(s, key, false);
    if rc == Success then (Success, s[c.pos].val) else (rc, [])
  }

  /** From the rank of a key on, no key lies below it. */
  lemma KeyRankSplits(s: Index, key: Bytes, i: nat)
    requires Sorted(s) && i < |s|
    ensures Less(s[i].key, key) <==> i < KeyRank(s, key)
  {
    var p := KeyRank(s, key);
    if p < i {
      assert Before(s[p], s[i]);
      if Less(s[i].key, key) && s[p].key != s[i].key {
        Transitive(s[p].key, s[i].key, key);
      }
    }
  }
}
