/**
 * Who owns which LMDB cursor handle: cursor objects (C), the registries of transactions (R) that point
 * back at them, and the calls LMDB has seen, as values. Every operation of a cursor object and the drain
 * at the end of a transaction is a function on this table.
 */
module CursorTable {
  import opened Options

  /** What LMDB sees. */
  datatype Call =
    | OpenCursor(handle: nat)
    | CloseCursor(handle: nat)
    | CommitTxn(txn: nat)
    | AbortTxn(txn: nat)

  /** A cursor object that is not empty: its registry and its handle. */
  datatype Slot<+R> = Slot(reg: R, handle: nat)

  datatype Table<!C(==), !R(==)> = Table(
    own: map<C, Option<Slot<R>>>,
    items: map<R, seq<C>>,
    log: seq<Call>,
    issued: nat)

  predicate Distinct<E(==)>(s: seq<E>) {
    forall i, j :: 0 <= i < j < |s| ==> s[i] != s[j]
  }

  // ----- std::vector operations -----

  function IndexOf<E(==)>(s: seq<E>, e: E): (i: nat)
    ensures i <= |s|
    ensures i < |s| ==> s[i] == e
    ensures i == |s| <==> e !in s
  {
    if s == [] || s[0] == e then 0 else 1 + IndexOf(s[1..], e)
  }

  /** move_from: b in the place of a, or at the end when a is not there. */
  function Succeeded<E(==)>(s: seq<E>, a: E, b: E): seq<E> {
    if a in s then s[IndexOf(s, a) := b] else s + [b]
  }

  /** The erase in close. */
  function Without<E(==)>(s: seq<E>, e: E): seq<E> {
    if e in s then s[..IndexOf(s, e)] + s[IndexOf(s, e) + 1..] else s
  }

  lemma SucceededElements<E>(s: seq<E>, a: E, b: E)
    requires Distinct(s) && b !in s
    ensures Distinct(Succeeded(s, a, b))
    ensures forall x :: x in Succeeded(s, a, b) <==> x == b || (x in s && x != a)
  {
    var r, k := Succeeded(s, a, b), IndexOf(s, a);
    forall x ensures x in r <==> x == b || (x in s && x != a) {
      if x in s && x != a {
        var i :| 0 <= i < |s| && s[i] == x;
        assert r[i] == x;
      }
      if x == b {
        assert r[k] == b;
      }
    }
  }

  lemma WithoutElements<E>(s: seq<E>, e: E)
    requires Distinct(s)
    ensures Distinct(Without(s, e))
    ensures forall x :: x in Without(s, e) <==> x in s && x != e
  {
    if e in s {
      var k := IndexOf(s, e);
      assert s == s[..k] + [e] + s[k + 1..];
      forall x | x in Without(s, e) ensures x != e {
        var i :| 0 <= i < |Without(s, e)| && Without(s, e)[i] == x;
        assert x == s[if i < k then i else i + 1];
      }
    }
  }

  // ----- the invariant -----

  /**
   * A cursor that owns a handle is in the registry it points to, once, unless a drain has just taken it
   * out (loose); nothing else is in a registry.
   */
  ghost predicate Linked<C, R>(t: Table<C, R>, loose: set<C>) {
    && (forall c :: c in t.own && t.own[c].Some? ==>
          t.own[c].value.reg in t.items && (c in t.items[t.own[c].value.reg] <==> c !in loose))
    && (forall r :: r in t.items ==> Distinct(t.items[r]))
    && (forall r, c :: r in t.items && c in t.items[r] ==> c in t.own && t.own[c].Some? && t.own[c].value.reg == r)
  }

  /** No handle is closed twice. */
  ghost predicate ClosedOnce(log: seq<Call>) {
    forall i, j :: 0 <= i < j < |log| && log[i].CloseCursor? ==> log[i] != log[j]
  }

  ghost predicate Owns<C, R>(t: Table<C, R>, c: C, h: nat) {
    c in t.own && t.own[c].Some? && t.own[c].value.handle == h
  }

  /** Every handle that was issued and not closed has exactly one owner, and no handle was closed twice. */
  ghost predicate Accounted<C, R>(t: Table<C, R>) {
    && (forall c, h: nat :: c in t.own && Owns(t, c, h) ==> h < t.issued && CloseCursor(h) !in t.log)
    && (forall c, d, h: nat :: c in t.own && d in t.own && Owns(t, c, h) && Owns(t, d, h) ==> c == d)
    && (forall h: nat :: h < t.issued ==> CloseCursor(h) in t.log || exists c :: c in t.own && Owns(t, c, h))
    && (forall h: nat :: CloseCursor(h) in t.log ==> h < t.issued)
    && ClosedOnce(t.log)
  }

  // ----- the operations -----

  /** mdb_cursor_open and the registering constructor, for a new cursor object. */
  function Opened<C, R>(t: Table<C, R>, c: C, r: R): Table<C, R>
    requires r in t.items
  {
    Table(t.own[c := Some(Slot(r, t.issued))],
          t.items[r := t.items[r] + [c]],
          t.log + [OpenCursor(t.issued)],
          t.issued + 1)
  }

  /** The registry a cursor points to, if any, is there. */
  predicate Homed<C, R>(t: Table<C, R>, c: C) {
    c in t.own && (t.own[c].Some? ==> t.own[c].value.reg in t.items)
  }

  /** The move constructor (dst is new) and move assignment: dst takes the place of src, whatever it held itself. */
  function Moved<C, R>(t: Table<C, R>, src: C, dst: C): Table<C, R>
    requires Homed(t, src)
  {
    match t.own[src]
    case None => t.(own := t.own[dst := None])
    case Some(slot) =>
      t.(own := t.own[dst := Some(slot)][src := None],
         items := t.items[slot.reg := Succeeded(t.items[slot.reg], src, dst)])
  }

  /** close, which destruction also runs: nothing for an empty cursor. */
  function Closed<C, R>(t: Table<C, R>, c: C): Table<C, R> {
    if c in t.own && t.own[c].Some? && t.own[c].value.reg in t.items then
      var slot := t.own[c].value;
      t.(own := t.own[c := None],
         items := t.items[slot.reg := Without(t.items[slot.reg], c)],
         log := t.log + [CloseCursor(slot.handle)])
    else t
  }

  ghost predicate Good<C, R>(t: Table<C, R>, loose: set<C>) {
    Linked(t, loose) && Accounted(t)
  }

  lemma OpenKeepsGood<C, R>(t: Table<C, R>, c: C, r: R)
    requires Good(t, {}) && c !in t.own && r in t.items
    ensures Good(Opened(t, c, r), {})
  {
    OpenLinks(t, c, r);
    OpenAccounts(t, c, r);
  }

  lemma OpenLinks<C, R>(t: Table<C, R>, c: C, r: R)
    requires Linked(t, {}) && c !in t.own && r in t.items
    ensures Linked(Opened(t, c, r), {})
  {
    var t' := Opened(t, c, r);
    assert forall q :: q in t.items && q != r ==> t'.items[q] == t.items[q];
    assert forall d :: d in t'.items[r] <==> d in t.items[r] || d == c;
  }

  lemma OpenAccounts<C, R>(t: Table<C, R>, c: C, r: R)
    requires Accounted(t) && c !in t.own && r in t.items
    ensures Accounted(Opened(t, c, r))
  {
    var t' := Opened(t, c, r);
    assert forall d, h: nat :: Owns(t', d, h) <==> Owns(t, d, h) || (d == c && h == t.issued);
    assert forall h: nat :: CloseCursor(h) in t'.log <==> CloseCursor(h) in t.log;
    forall h: nat | h < t'.issued && CloseCursor(h) !in t'.log ensures exists d :: d in t'.own && Owns(t', d, h) {
      if h == t.issued {
        assert Owns(t', c, h);
      } else {
        var d :| d in t.own && Owns(t, d, h);
        assert Owns(t', d, h);
      }
    }
  }

  /** A move keeps the table good exactly when its target owns no handle; moving a cursor to itself is no exception. */
  lemma MoveKeepsGood<C, R>(t: Table<C, R>, src: C, dst: C)
    requires Good(t, {}) && src in t.own
    ensures Good(Moved(t, src, dst), {}) <==> (dst in t.own ==> t.own[dst] == None)
  {
    hide Linked, Accounted, Moved;
    LinkedIsHomed(t, src);
    if dst in t.own && t.own[dst].Some? {
      MoveOntoLiveLoses(t, src, dst);
      LostIsNotAccounted(Moved(t, src, dst), t.own[dst].value.handle);
    } else if src == dst {
      assert Moved(t, src, dst) == t by { MoveOfNothing(t, src); }
    } else {
      MoveLinks(t, src, dst);
      MoveAccounts(t, src, dst);
    }
  }

  lemma LinkedIsHomed<C, R>(t: Table<C, R>, c: C)
    requires Linked(t, {}) && c in t.own
    ensures Homed(t, c)
  {
  }

  lemma MoveOfNothing<C, R>(t: Table<C, R>, c: C)
    requires c in t.own && t.own[c] == None
    ensures Moved(t, c, c) == t
  {
    assert t.own[c := None] == t.own;
  }

  /** A handle that is open and has no owner: nothing will ever close it. */
  ghost predicate Lost<C, R>(t: Table<C, R>, h: nat) {
    h < t.issued && CloseCursor(h) !in t.log && forall c :: c in t.own ==> !Owns(t, c, h)
  }

  lemma LostIsNotAccounted<C, R>(t: Table<C, R>, h: nat)
    requires Lost(t, h)
    ensures !Accounted(t)
  {
  }

  /** What the target of a move held is lost. */
  lemma MoveOntoLiveLoses<C, R>(t: Table<C, R>, src: C, dst: C)
    requires Accounted(t) && Homed(t, src) && dst in t.own && t.own[dst].Some?
    ensures Lost(Moved(t, src, dst), t.own[dst].value.handle)
  {
    var t', h := Moved(t, src, dst), t.own[dst].value.handle;
    assert Owns(t, dst, h);
    forall c | c in t'.own ensures !Owns(t', c, h) {
      if Owns(t', c, h) {
        assert Owns(t, if c == dst then src else c, h);
      }
    }
  }

  lemma MoveLinks<C, R>(t: Table<C, R>, src: C, dst: C)
    requires Linked(t, {}) && src in t.own && src != dst
    requires dst in t.own ==> t.own[dst] == None
    ensures Linked(Moved(t, src, dst), {})
  {
    if t.own[src].Some? {
      SucceededElements(t.items[t.own[src].value.reg], src, dst);
    }
  }

  lemma MoveAccounts<C, R>(t: Table<C, R>, src: C, dst: C)
    requires Accounted(t) && src in t.own && src != dst
    requires dst in t.own ==> t.own[dst] == None
    requires t.own[src].Some? ==> t.own[src].value.reg in t.items
    ensures Accounted(Moved(t, src, dst))
  {
    var t' := Moved(t, src, dst);
    assert forall d, h: nat :: Owns(t', d, h) <==> if d == dst then Owns(t, src, h) else d != src && Owns(t, d, h);
    forall h: nat | h < t.issued && CloseCursor(h) !in t.log ensures exists c :: c in t'.own && Owns(t', c, h) {
      var c :| c in t.own && Owns(t, c, h);
      assert Owns(t', if c == src then dst else c, h);
    }
  }

  lemma CloseKeepsGood<C, R>(t: Table<C, R>, c: C, loose: set<C>)
    requires Good(t, loose) && c in t.own
    ensures Good(Closed(t, c), loose - {c})
  {
    CloseLinks(t, c, loose);
    CloseAccounts(t, c);
  }

  lemma CloseLinks<C, R>(t: Table<C, R>, c: C, loose: set<C>)
    requires Linked(t, loose) && c in t.own
    ensures Linked(Closed(t, c), loose - {c})
  {
    if t.own[c].Some? {
      WithoutElements(t.items[t.own[c].value.reg], c);
    }
  }

  lemma CloseAccounts<C, R>(t: Table<C, R>, c: C)
    requires Accounted(t) && c in t.own
    requires t.own[c].Some? ==> t.own[c].value.reg in t.items
    ensures Accounted(Closed(t, c))
  {
    if t.own[c].Some? {
      var t', g := Closed(t, c), t.own[c].value.handle;
      assert Owns(t, c, g);
      assert forall d, h: nat :: Owns(t', d, h) <==> d != c && Owns(t, d, h);
      assert forall h: nat :: CloseCursor(h) in t'.log <==> CloseCursor(h) in t.log || h == g;
      forall h: nat | h < t.issued && CloseCursor(h) !in t'.log ensures exists d :: d in t'.own && Owns(t', d, h) {
        var d :| d in t.own && Owns(t, d, h);
        assert Owns(t', d, h);
      }
    }
  }

  // ----- the drain at the end of a transaction -----

  function CloseAll<C, R>(t: Table<C, R>, cs: seq<C>): Table<C, R>
    decreases |cs|
  {
    if cs == [] then t else CloseAll(Closed(t, cs[0]), cs[1..])
  }

  /** closeROCursors, closeRWCursors: swap the registry away, then close what was in it. */
  function Drained<C, R>(t: Table<C, R>, r: R): Table<C, R> {
    if r in t.items then CloseAll(t.(items := t.items[r := []]), t.items[r]) else t
  }

  /** The calls that close these cursors, in this order. */
  ghost function Closings<C, R>(t: Table<C, R>, cs: seq<C>): seq<Call>
    requires forall i :: 0 <= i < |cs| ==> cs[i] in t.own && t.own[cs[i]].Some?
  {
    seq(|cs|, i requires 0 <= i < |cs| => CloseCursor(t.own[cs[i]].value.handle))
  }

  function SetOf<E>(s: seq<E>): set<E> {
    set e | e in s
  }

  /** The rest of a drain: the cursors of a registry that no longer lists them. */
  ghost predicate Swapped<C, R>(t: Table<C, R>, r: R, cs: seq<C>) {
    && Linked(t, SetOf(cs))
    && Distinct(cs) && r in t.items && t.items[r] == []
    && forall i :: 0 <= i < |cs| ==> cs[i] in t.own && t.own[cs[i]].Some? && t.own[cs[i]].value.reg == r
  }

  lemma SwapOut<C, R>(t: Table<C, R>, r: R)
    requires Linked(t, {}) && r in t.items
    ensures Swapped(t.(items := t.items[r := []]), r, t.items[r])
  {
  }

  /** Since the registry was swapped away, closing its cursors finds nothing in it to erase. */
  lemma CloseSwapped<C, R>(t: Table<C, R>, r: R, cs: seq<C>)
    requires Swapped(t, r, cs) && cs != []
    ensures Closed(t, cs[0]).items == t.items
    ensures Swapped(Closed(t, cs[0]), r, cs[1..])
  {
    CloseLinks(t, cs[0], SetOf(cs));
    assert SetOf(cs) - {cs[0]} == SetOf(cs[1..]);
  }

  lemma {:induction false} CloseAllSwapped<C, R>(t: Table<C, R>, r: R, cs: seq<C>)
    requires Swapped(t, r, cs)
    ensures var t' := CloseAll(t, cs);
            && Linked(t', {}) && t'.items == t.items && t'.issued == t.issued
            && t'.log == t.log + Closings(t, cs)
            && t'.own.Keys == t.own.Keys
            && forall c :: c in t.own ==> t'.own[c] == if c in cs then None else t.own[c]
    decreases |cs|
  {
    if cs == [] {
      assert SetOf(cs) == {};
    } else {
      CloseSwapped(t, r, cs);
      CloseAllSwapped(Closed(t, cs[0]), r, cs[1..]);
      assert Closings(t, cs) == [CloseCursor(t.own[cs[0]].value.handle)] + Closings(Closed(t, cs[0]), cs[1..]);
    }
  }

  lemma {:induction false} CloseAllAccounts<C, R>(t: Table<C, R>, r: R, cs: seq<C>)
    requires Swapped(t, r, cs) && Accounted(t)
    ensures Accounted(CloseAll(t, cs))
    decreases |cs|
  {
    if cs != [] {
      CloseSwapped(t, r, cs);
      CloseAccounts(t, cs[0]);
      CloseAllAccounts(Closed(t, cs[0]), r, cs[1..]);
    }
  }

  /**
   * A drain leaves the registry empty, every cursor that was in it empty and its handle closed, in
   * registry order; other cursors and other registries are as before, and the table is good.
   */
  lemma DrainEmpties<C, R>(t: Table<C, R>, r: R)
    requires Good(t, {}) && r in t.items
    ensures var t', cs := Drained(t, r), t.items[r];
            && Good(t', {})
            && t'.items == t.items[r := []] && t'.issued == t.issued
            && t'.log == t.log + Closings(t, cs)
            && t'.own.Keys == t.own.Keys
            && forall c :: c in t.own ==> t'.own[c] == if c in cs then None else t.own[c]
  {
    var s := t.(items := t.items[r := []]);
    SwapOut(t, r);
    CloseAllSwapped(s, r, t.items[r]);
    assert forall c, h: nat :: Owns(s, c, h) <==> Owns(t, c, h);
    CloseAllAccounts(s, r, t.items[r]);
    assert Closings(s, t.items[r]) == Closings(t, t.items[r]);
  }

  /** The end of a transaction: its registries are drained one after the other, and only then LMDB ends it. */
  function Ended<C, R>(t: Table<C, R>, ro: R, rw: R, both: bool, ends: seq<Call>): Table<C, R> {
    var d := if both then Drained(Drained(t, ro), rw) else Drained(t, ro);
    d.(log := d.log + ends)
  }

  lemma EndKeepsGood<C, R>(t: Table<C, R>, ends: seq<Call>)
    requires Good(t, {}) && forall i :: 0 <= i < |ends| ==> !ends[i].CloseCursor?
    ensures Good(t.(log := t.log + ends), {})
  {
    var s := t.(log := t.log + ends);
    assert forall c, h: nat :: Owns(s, c, h) <==> Owns(t, c, h);
    assert forall h: nat :: CloseCursor(h) in s.log <==> CloseCursor(h) in t.log;
  }

  /** A registry that lists nothing is drained without effect. */
  lemma DrainNothing<C, R>(t: Table<C, R>, r: R)
    requires r in t.items && t.items[r] == []
    ensures Drained(t, r) == t
  {
    assert t.items[r := []] == t.items;
  }

  /**
   * At the end of a transaction every cursor taken from it, however often moved, is empty and its handle
   * is closed, once, before LMDB ends the transaction; all other cursors and registries are as before.
   */
  lemma EndDrains<C, R>(t: Table<C, R>, ro: R, rw: R, both: bool, ends: seq<Call>)
    requires Good(t, {}) && ro in t.items && rw in t.items && ro != rw
    requires forall i :: 0 <= i < |ends| ==> !ends[i].CloseCursor?
    ensures var t', gone := Ended(t, ro, rw, both, ends), if both then t.items[ro] + t.items[rw] else t.items[ro];
            && Good(t', {})
            && t'.items == (if both then t.items[ro := []][rw := []] else t.items[ro := []])
            && t'.log == t.log + Closings(t, gone) + ends
            && t'.issued == t.issued
            && t'.own.Keys == t.own.Keys
            && forall c :: c in t.own ==> t'.own[c] == if c in gone then None else t.own[c]
  {
    hide Good, Drained, Closings;
    DrainEmpties(t, ro);
    GoodLists(t, ro);
    GoodLists(t, rw);
    var d := Drained(t, ro);
    if both {
      DrainEmpties(d, rw);
      GoodLists(d, rw);
      ClosingsJoin(t, d, t.items[ro], t.items[rw]);
      EndKeepsGood(Drained(d, rw), ends);
    } else {
      EndKeepsGood(d, ends);
    }
  }

  lemma ClosingsJoin<C, R>(t: Table<C, R>, d: Table<C, R>, a: seq<C>, b: seq<C>)
    requires forall c :: c in a + b ==> c in t.own && t.own[c].Some?
    requires forall c :: c in b ==> c in d.own && d.own[c] == t.own[c]
    ensures Closings(t, a + b) == Closings(t, a) + Closings(d, b)
  {
  }

  ghost predicate ListedAreOwned<C, R>(t: Table<C, R>, r: R)
    requires r in t.items
  {
    forall c :: c in t.items[r] ==> c in t.own && t.own[c].Some? && t.own[c].value.reg == r
  }

  lemma GoodLists<C, R>(t: Table<C, R>, r: R)
    requires Good(t, {}) && r in t.items
    ensures ListedAreOwned(t, r)
  {
  }

  // ----- whole runs -----

  datatype Act<+C, +R> =
    | NewRegistry(r: R)
    | NewEmpty(c: C)
    | Open(c: C, r: R)
    | Move(src: C, dst: C)
    | Close(c: C)
    | Destroy(c: C)
    | Drain(r: R)

  /** One act of a client. An act whose objects do not exist (or exist already) is not possible and changes nothing. */
  ghost function Perform<C, R>(t: Table<C, R>, a: Act<C, R>): Table<C, R> {
    match a
    case NewRegistry(r) => if r in t.items then t else t.(items := t.items[r := []])
    case NewEmpty(c) => if c in t.own then t else t.(own := t.own[c := None])
    case Open(c, r) => if c in t.own || r !in t.items then t else Opened(t, c, r)
    case Move(src, dst) => if !Homed(t, src) then t else Moved(t, src, dst)
    case Close(c) => if c !in t.own then t else Closed(t, c)
    case Destroy(c) => if c !in t.own then t else var s := Closed(t, c); s.(own := s.own - {c})
    case Drain(r) => if r !in t.items then t else Drained(t, r)
  }

  /** The act does not move onto a cursor that still owns a handle. */
  ghost predicate Spares<C, R>(t: Table<C, R>, a: Act<C, R>) {
    a.Move? && Homed(t, a.src) && a.dst in t.own ==> t.own[a.dst] == None
  }

  /** The calls a run of acts has added to the log. */
  ghost predicate Logs<C, R>(t: Table<C, R>, t': Table<C, R>, calls: seq<Call>) {
    t'.log == t.log + calls
  }

  /** The cursors other than c, and the registries other than r, are as before. */
  ghost predicate OthersStay<C, R>(t: Table<C, R>, t': Table<C, R>, cs: set<C>, rs: set<R>) {
    && (forall c :: c in t.own && c !in cs ==> c in t'.own && t'.own[c] == t.own[c])
    && (forall r :: r in t.items && r !in rs ==> r in t'.items && t'.items[r] == t.items[r])
  }

  /** A possible open gives the cursor a new handle and the last place in the registry. */
  lemma OpenHappens<C, R>(t: Table<C, R>, c: C, r: R)
    requires c !in t.own && r in t.items
    ensures var t' := Perform(t, Open(c, r));
            && c in t'.own && t'.own[c] == Some(Slot(r, t.issued)) && t'.issued == t.issued + 1
            && r in t'.items && t'.items[r] == t.items[r] + [c]
            && Logs(t, t', [OpenCursor(t.issued)]) && OthersStay(t, t', {c}, {r})
  {
  }

  /** A move hands over handle and place, and leaves the source empty. */
  lemma MoveHappens<C, R>(t: Table<C, R>, src: C, dst: C)
    requires Linked(t, {}) && src in t.own && src != dst && (dst in t.own ==> t.own[dst] == None)
    ensures var t' := Perform(t, Move(src, dst));
            && dst in t'.own && t'.own[dst] == t.own[src] && src in t'.own && t'.own[src] == None
            && Logs(t, t', []) && t'.issued == t.issued
            && match t.own[src] {
                 case None => OthersStay(t, t', {src, dst}, {})
                 case Some(slot) =>
                   && OthersStay(t, t', {src, dst}, {slot.reg}) && slot.reg in t'.items
                   && |t'.items[slot.reg]| == |t.items[slot.reg]|
                   && forall i :: 0 <= i < |t.items[slot.reg]| ==>
                        t'.items[slot.reg][i] == if t.items[slot.reg][i] == src then dst else t.items[slot.reg][i]
               }
  {
    assert t.log + [] == t.log;
  }

  /** A close takes the cursor out of its registry and closes its handle; closing an empty cursor does nothing. */
  lemma CloseHappens<C, R>(t: Table<C, R>, c: C)
    requires Linked(t, {}) && c in t.own
    ensures var t' := Perform(t, Close(c));
            && c in t'.own && t'.own[c] == None && t'.issued == t.issued
            && match t.own[c] {
                 case None => t' == t
                 case Some(slot) =>
                   && Logs(t, t', [CloseCursor(slot.handle)]) && OthersStay(t, t', {c}, {slot.reg})
                   && slot.reg in t'.items && c !in t'.items[slot.reg]
                   && exists i :: 0 <= i < |t.items[slot.reg]| && t.items[slot.reg][i] == c &&
                        t'.items[slot.reg] == t.items[slot.reg][..i] + t.items[slot.reg][i + 1..]
               }
  {
    if t.own[c].Some? {
      WithoutElements(t.items[t.own[c].value.reg], c);
    } else {
      assert t.own[c := None] == t.own;
    }
  }

  /** Destruction is a close after which the cursor is gone. */
  lemma DestroyHappens<C, R>(t: Table<C, R>, c: C)
    requires c in t.own
    ensures var t' := Perform(t, Close(c)); Perform(t, Destroy(c)) == t'.(own := t'.own - {c})
  {
  }

  /** A drain of a registry leaves it empty and closes exactly its cursors, in its order. */
  lemma DrainHappens<C, R>(t: Table<C, R>, r: R)
    requires Good(t, {}) && r in t.items
    ensures var t', cs := Perform(t, Drain(r)), t.items[r];
            && r in t'.items && t'.items[r] == [] && t'.issued == t.issued
            && (forall c :: c in cs ==> c in t.own && t.own[c].Some? && c in t'.own && t'.own[c] == None)
            && |t'.log| == |t.log| + |cs| && t.log <= t'.log
            && (forall i :: 0 <= i < |cs| ==> t'.log[|t.log| + i] == CloseCursor(HandleOf(t, cs[i])))
            && OthersStay(t, t', SetOf(cs), {r})
  {
    hide Good, Drained;
    DrainEmpties(t, r);
    GoodLists(t, r);
  }

  /** The handle a cursor owns; 0 stands for none. */
  ghost function HandleOf<C, R>(t: Table<C, R>, c: C): nat {
    if c in t.own && t.own[c].Some? then t.own[c].value.handle else 0
  }

  lemma NewKeepsGood<C, R>(t: Table<C, R>, a: Act<C, R>)
    requires Good(t, {}) && (a.NewRegistry? || a.NewEmpty?)
    ensures Good(Perform(t, a), {})
  {
    hide Opened, Moved, Closed, Drained, Homed;
    var s := Perform(t, a);
    assert forall d, h: nat :: Owns(s, d, h) <==> Owns(t, d, h);
    assert Accounted(s) by { hide Linked, Perform; }
  }

  lemma ForgetKeepsGood<C, R>(t: Table<C, R>, c: C)
    requires Good(t, {}) && c in t.own && t.own[c] == None
    ensures Good(t.(own := t.own - {c}), {})
  {
    var s := t.(own := t.own - {c});
    assert forall d, h: nat :: Owns(s, d, h) <==> Owns(t, d, h);
  }

  lemma PerformKeepsGood<C, R>(t: Table<C, R>, a: Act<C, R>)
    requires Good(t, {})
    ensures Good(Perform(t, a), {}) <==> Spares(t, a)
  {
    hide Linked, Accounted, Closed, Moved, Opened, Drained;
    match a
    case NewRegistry(r) => NewKeepsGood(t, a);
    case NewEmpty(c) => NewKeepsGood(t, a);
    case Open(c, r) => if c !in t.own && r in t.items { OpenKeepsGood(t, c, r); }
    case Move(src, dst) => if Homed(t, src) { MoveKeepsGood(t, src, dst); }
    case Close(c) => if c in t.own { CloseKeepsGood(t, c, {}); assert {} - {c} == {}; }
    case Destroy(c) => if c in t.own { DestroyKeepsGood(t, c); }
    case Drain(r) => if r in t.items { DrainEmpties(t, r); }
  }

  lemma DestroyKeepsGood<C, R>(t: Table<C, R>, c: C)
    requires Good(t, {}) && c in t.own
    ensures Good(Perform(t, Destroy(c)), {})
  {
    CloseKeepsGood(t, c, {});
    assert {} - {c} == {};
    ForgetKeepsGood(Closed(t, c), c);
  }

  ghost function Performs<C, R>(t: Table<C, R>, acts: seq<Act<C, R>>): Table<C, R>
    decreases |acts|
  {
    if acts == [] then t else Performs(Perform(t, acts[0]), acts[1..])
  }

  ghost predicate AllSpare<C, R>(t: Table<C, R>, acts: seq<Act<C, R>>)
    decreases |acts|
  {
    acts != [] ==> Spares(t, acts[0]) && AllSpare(Perform(t, acts[0]), acts[1..])
  }

  /** Every table the run passes through, the first and the last included, is good. */
  ghost predicate AlwaysGood<C, R>(t: Table<C, R>, acts: seq<Act<C, R>>)
    decreases |acts|
  {
    Good(t, {}) && (acts != [] ==> AlwaysGood(Perform(t, acts[0]), acts[1..]))
  }

  /**
   * Over a run of a client every live handle has exactly one owner, registered exactly once, and no handle
   * is closed twice, if and only if no move goes onto a cursor that still owns a handle.
   */
  lemma {:induction false} RunKeepsGood<C, R>(t: Table<C, R>, acts: seq<Act<C, R>>)
    requires Good(t, {})
    ensures AlwaysGood(t, acts) <==> AllSpare(t, acts)
    ensures AllSpare(t, acts) ==> Good(Performs(t, acts), {})
    decreases |acts|
  {
    hide Good, Perform, Spares;
    if acts != [] {
      PerformKeepsGood(t, acts[0]);
      if Spares(t, acts[0]) {
        RunKeepsGood(Perform(t, acts[0]), acts[1..]);
      }
    }
  }

  // ----- a handle that is lost stays open -----

  lemma ClosedKeepsLost<C, R>(t: Table<C, R>, c: C, h: nat)
    requires Lost(t, h)
    ensures Lost(Closed(t, c), h)
  {
    var t' := Closed(t, c);
    if t' != t {
      assert !Owns(t, c, h);
      assert forall d :: d in t'.own && Owns(t', d, h) ==> Owns(t, d, h);
    }
  }

  lemma {:induction false} CloseAllKeepsLost<C, R>(t: Table<C, R>, cs: seq<C>, h: nat)
    requires Lost(t, h)
    ensures Lost(CloseAll(t, cs), h)
    decreases |cs|
  {
    hide Lost, Closed;
    if cs != [] {
      ClosedKeepsLost(t, cs[0], h);
      CloseAllKeepsLost(Closed(t, cs[0]), cs[1..], h);
    }
  }

  lemma MovedKeepsLost<C, R>(t: Table<C, R>, src: C, dst: C, h: nat)
    requires Lost(t, h) && Homed(t, src)
    ensures Lost(Moved(t, src, dst), h)
  {
    var t' := Moved(t, src, dst);
    forall c | c in t'.own ensures !Owns(t', c, h) {
      assert !Owns(t, if c == dst then src else c, h);
    }
  }

  lemma PerformKeepsLost<C, R>(t: Table<C, R>, a: Act<C, R>, h: nat)
    requires Lost(t, h)
    ensures Lost(Perform(t, a), h)
  {
    hide CloseAll, Moved;
    match a
    case NewRegistry(_) => assert forall c :: Owns(Perform(t, a), c, h) ==> Owns(t, c, h);
    case NewEmpty(_) => assert forall c :: Owns(Perform(t, a), c, h) ==> Owns(t, c, h);
    case Open(_, _) => assert forall c :: Owns(Perform(t, a), c, h) ==> Owns(t, c, h);
    case Move(src, dst) => if Homed(t, src) { MovedKeepsLost(t, src, dst, h); }
    case Close(c) => ClosedKeepsLost(t, c, h);
    case Destroy(c) =>
      ClosedKeepsLost(t, c, h);
      assert forall d :: Owns(Perform(t, a), d, h) ==> Owns(Closed(t, c), d, h);
    case Drain(r) =>
      if r in t.items {
        var s := t.(items := t.items[r := []]);
        assert forall c :: Owns(s, c, h) ==> Owns(t, c, h);
        CloseAllKeepsLost(s, t.items[r], h);
      }
  }

  lemma {:induction false} RunKeepsLost<C, R>(t: Table<C, R>, acts: seq<Act<C, R>>, h: nat)
    requires Lost(t, h)
    ensures Lost(Performs(t, acts), h)
    decreases |acts|
  {
    hide Lost, Perform;
    if acts != [] {
      PerformKeepsLost(t, acts[0], h);
      RunKeepsLost(Perform(t, acts[0]), acts[1..], h);
    }
  }

  /** A move onto a cursor that owns a handle: whatever follows, that handle is never closed. */
  lemma MoveOntoLiveLeaks<C, R>(t: Table<C, R>, src: C, dst: C, acts: seq<Act<C, R>>)
    requires Good(t, {}) && Homed(t, src) && dst in t.own && t.own[dst].Some?
    ensures CloseCursor(t.own[dst].value.handle) !in Performs(Moved(t, src, dst), acts).log
  {
    hide Linked, Accounted, Moved;
    MoveOntoLiveLoses(t, src, dst);
    RunKeepsLost(Moved(t, src, dst), acts, t.own[dst].value.handle);
  }

  // ----- a cursor is closed before its transaction ends -----

  /** Whoever owns the handle is a cursor of that registry. */
  ghost predicate HomeIs<C, R>(t: Table<C, R>, h: nat, r: R) {
    forall c :: c in t.own && Owns(t, c, h) ==> t.own[c].value.reg == r
  }

  lemma PerformKeepsHome<C, R>(t: Table<C, R>, a: Act<C, R>, h: nat, r: R)
    requires Good(t, {}) && Spares(t, a) && h < t.issued && HomeIs(t, h, r)
    ensures h < Perform(t, a).issued && HomeIs(Perform(t, a), h, r)
  {
    hide Linked, Accounted, Drained, Succeeded, Without;
    if a.Drain? && a.r in t.items {
      DrainEmpties(t, a.r);
    }
  }

  lemma {:induction false} RunKeepsHome<C, R>(t: Table<C, R>, acts: seq<Act<C, R>>, h: nat, r: R)
    requires Good(t, {}) && AllSpare(t, acts) && h < t.issued && HomeIs(t, h, r)
    ensures h < Performs(t, acts).issued && HomeIs(Performs(t, acts), h, r)
    decreases |acts|
  {
    if acts != [] {
      PerformKeepsHome(t, acts[0], h, r);
      PerformKeepsGood(t, acts[0]);
      RunKeepsHome(Perform(t, acts[0]), acts[1..], h, r);
    }
  }

  ghost predicate ClosesNothing(ends: seq<Call>) {
    forall i :: 0 <= i < |ends| ==> !ends[i].CloseCursor?
  }

  /** Among these calls the handle is closed exactly once, and before the last ones. */
  ghost predicate ClosedOnceBefore(log: seq<Call>, h: nat, last: nat) {
    exists i :: 0 <= i < |log| - last && log[i] == CloseCursor(h) &&
      forall j :: 0 <= j < |log| && j != i ==> log[j] != CloseCursor(h)
  }

  /**
   * A cursor opened on either registry of a transaction, whatever moves, closes, destructions and other
   * transactions' ends follow, has its handle closed exactly once, and before LMDB is told to end that
   * transaction. An RO transaction drains one registry, an RW transaction both.
   */
  lemma TakenIsClosedAtEnd<C, R>(t: Table<C, R>, c: C, r: R, acts: seq<Act<C, R>>,
                                 ro: R, rw: R, both: bool, ends: seq<Call>)
    requires Good(t, {}) && c !in t.own && r in t.items && AllSpare(Opened(t, c, r), acts)
    requires ro != rw && (r == ro || (both && r == rw)) && ClosesNothing(ends)
    requires var s := Performs(Opened(t, c, r), acts); ro in s.items && rw in s.items
    ensures var e := Ended(Performs(Opened(t, c, r), acts), ro, rw, both, ends);
            && |ends| <= |e.log| && e.log[|e.log| - |ends|..] == ends
            && ClosedOnceBefore(e.log, t.issued, |ends|)
  {
    hide Good, Ended, Opened, Perform, Spares, HomeIs, ClosedOnceBefore;
    OpenKeepsGood(t, c, r);
    OpenIsHome(t, c, r);
    RunKeepsGood(Opened(t, c, r), acts);
    RunKeepsHome(Opened(t, c, r), acts, t.issued, r);
    EndClosesHome(Performs(Opened(t, c, r), acts), r, ro, rw, both, ends, t.issued);
  }

  lemma OpenIsHome<C, R>(t: Table<C, R>, c: C, r: R)
    requires Good(t, {}) && c !in t.own && r in t.items
    ensures var t' := Opened(t, c, r);
            HomeIs(t', t.issued, r) && t.issued < t'.issued
  {
    assert forall d :: d in t.own ==> !Owns(t, d, t.issued);
  }

  lemma EndClosesHome<C, R>(s: Table<C, R>, r: R, ro: R, rw: R, both: bool, ends: seq<Call>, h: nat)
    requires Good(s, {}) && ro in s.items && rw in s.items && ro != rw && (r == ro || (both && r == rw))
    requires HomeIs(s, h, r) && h < s.issued && ClosesNothing(ends)
    ensures var e := Ended(s, ro, rw, both, ends);
            |ends| <= |e.log| && e.log[|e.log| - |ends|..] == ends && ClosedOnceBefore(e.log, h, |ends|)
  {
    hide Good, Drained, Ended, HomeIs;
    EndDrains(s, ro, rw, both, ends);
    var e := Ended(s, ro, rw, both, ends);
    NoOwnerLeft(s, e, r, h);
    GoodClosesOnce(e);
    var i :| 0 <= i < |e.log| && e.log[i] == CloseCursor(h);
    assert forall j :: |e.log| - |ends| <= j < |e.log| ==> e.log[j] == ends[j - (|e.log| - |ends|)];
    assert forall j :: 0 <= j < |e.log| && j != i ==> e.log[j] != CloseCursor(h);
  }

  lemma GoodClosesOnce<C, R>(t: Table<C, R>)
    requires Good(t, {})
    ensures ClosedOnce(t.log)
  {
  }

  /** Once its registry is drained nobody owns the handle, so it has been closed. */
  lemma NoOwnerLeft<C, R>(s: Table<C, R>, e: Table<C, R>, r: R, h: nat)
    requires Good(s, {}) && Good(e, {}) && r in s.items && HomeIs(s, h, r) && h < s.issued == e.issued
    requires e.own.Keys == s.own.Keys
    requires forall c :: c in s.own ==> e.own[c] == None || (e.own[c] == s.own[c] && c !in s.items[r])
    ensures CloseCursor(h) in e.log
  {
    forall c | c in e.own ensures !Owns(e, c, h) {
      if Owns(e, c, h) {
        assert Owns(s, c, h);
      }
    }
  }

  /** When no registry lists a cursor any more, every handle ever opened has been closed, exactly once. */
  lemma NoneLeaks<C, R>(t: Table<C, R>, h: nat)
    requires Good(t, {})
    requires forall r :: r in t.items ==> t.items[r] == []
    requires h < t.issued
    ensures exists i :: 0 <= i < |t.log| && t.log[i] == CloseCursor(h) &&
              forall j :: 0 <= j < |t.log| && j != i ==> t.log[j] != CloseCursor(h)
  {
    assert forall c :: !Owns(t, c, h);
    assert CloseCursor(h) in t.log;
    var i :| 0 <= i < |t.log| && t.log[i] == CloseCursor(h);
    assert forall j :: 0 <= j < |t.log| && j != i ==> t.log[j] != CloseCursor(h);
  }
}
