/**
 * MDBGenCursor as an object: it edits the vector of raw pointers its transaction keeps, on construction,
 * move and close. Each operation is tied to its function on the ownership table.
 */
module Cursors {
  import opened CursorTable
  import opened Options

  /** A transaction's std::vector of pointers to its cursors. */
  class Registry {
    var items: seq<Cursor>

    constructor ()
      ensures items == []
    {
      items := [];
    }
  }

  /** LMDB as the cursors use it, and all cursor objects and registries there are. */
  class World {
    ghost var pool: set<Cursor>
    ghost var regs: set<Registry>
    var log: seq<Call>
    var issued: nat

    constructor ()
      ensures Valid({}) && pool == {} && regs == {} && log == [] && issued == 0
    {
      pool, regs, log, issued := {}, {}, [], 0;
    }

    /** The ownership table of this moment. */
    ghost function Snap(): Table<Cursor, Registry>
      reads this, pool, regs
    {
      Table(map c | c in pool :: c.Content(), map r | r in regs :: r.items, log, issued)
    }

    /** A cursor has both its pointers or neither, and the table is good, but for the cursors a drain took out. */
    ghost predicate Valid(loose: set<Cursor>)
      reads this, pool, regs
    {
      (forall c :: c in pool ==> (c.handle.Some? <==> c.registry != null)) && Good(Snap(), loose)
    }

    /** The table entry by entry. */
    lemma SnapIs()
      ensures var t := Snap();
              && t.own.Keys == pool && t.items.Keys == regs && t.log == log && t.issued == issued
              && (forall c :: c in pool ==> t.own[c] == c.Content())
              && (forall r :: r in regs ==> t.items[r] == r.items)
    {
    }

    lemma Lists(r: Registry)
      requires r in regs
      ensures r in Snap().items && Snap().items[r] == r.items
    {
    }

    lemma Knows(c: Cursor, loose: set<Cursor>)
      requires Valid(loose) && c in pool
      ensures Snap().own[c] == c.Content()
      ensures c.registry != null ==> c.registry in regs && (c in c.registry.items <==> c !in loose)
    {
    }

    lemma SnapHasLog()
      ensures Snap().log == log
    {
    }

    /** A transaction object brings its registry. */
    method AddRegistry(r: Registry)
      requires Valid({}) && r !in regs && r.items == []
      modifies this`regs
      ensures Valid({}) && Snap() == Perform(old(Snap()), NewRegistry(r))
      ensures pool == old(pool) && regs == old(regs) + {r}
    {
      ghost var was := Snap();
      regs := regs + {r};
      NewKeepsGood(was, NewRegistry(r));
      assert Snap() == Perform(was, NewRegistry(r));
    }

    /** One turn of the drain: the next cursor is closed although its registry no longer lists it. */
    method CloseNext(r: Registry, c: Cursor, ghost rest: seq<Cursor>)
      requires rest != [] && rest[0] == c
      requires Swapped(Snap(), r, rest) && Valid(SetOf(rest))
      requires c in pool
      modifies this`log, c, r
      ensures Snap() == Closed(old(Snap()), c)
      ensures Swapped(Snap(), r, rest[1..]) && Valid(SetOf(rest[1..]))
      ensures issued == old(issued)
    {
      hide Linked, Accounted, Swapped, Closed;
      ghost var was := Snap();
      CloseSwapped(was, r, rest);
      SwappedFacts(was, r, rest);
      SwappedFacts(Closed(was, c), r, rest[1..]);
      Knows(c, SetOf(rest));
      assert c.registry == r;
      c.Close(this, SetOf(rest));
    }

    /** The swap at the start of a drain. */
    method SwapAway(r: Registry) returns (buf: seq<Cursor>)
      requires Valid({}) && r in regs
      modifies r
      ensures buf == old(r.items)
      ensures Snap() == old(Snap()).(items := old(Snap()).items[r := []])
      ensures Swapped(Snap(), r, buf) && Valid(SetOf(buf))
    {
      hide Linked, Accounted, Swapped;
      ghost var was := Snap();
      buf := r.items;
      r.items := [];
      StartDrain(was, was.(items := was.items[r := []]), r);
      assert Snap() == was.(items := was.items[r := []]);
    }

    /** closeROCursors, closeRWCursors: swap the vector away, so that close does not edit what is being walked. */
    method CloseCursors(r: Registry)
      requires Valid({}) && r in regs
      modifies this`log, r, r.items
      ensures Valid({}) && pool == old(pool) && regs == old(regs)
      ensures Snap() == Perform(old(Snap()), Drain(r))
      ensures r.items == [] && issued == old(issued)
    {
      hide Linked, Accounted, Swapped, Closed, World.Valid, World.Snap;
      Lists(r);
      var buf := SwapAway(r);
      ghost var swapped := Snap();
      SwappedFacts(swapped, r, buf);
      SnapIs();
      for n := 0 to |buf|
        invariant pool == old(pool) && regs == old(regs) && issued == old(issued)
        invariant Swapped(Snap(), r, buf[n..]) && Valid(SetOf(buf[n..]))
        invariant forall i :: n <= i < |buf| ==> buf[i] in pool
        invariant CloseAll(Snap(), buf[n..]) == CloseAll(swapped, buf)
      {
        assert buf[n..][1..] == buf[n + 1..];
        CloseNext(r, buf[n], buf[n..]);
      }
      SwappedFacts(Snap(), r, []);
      Lists(r);
      assert SetOf(buf[|buf|..]) == {};
    }

  }

  class Cursor {
    var registry: Registry?
    var handle: Option<nat>

    ghost function Content(): Option<Slot<Registry>>
      reads this
    {
      if registry != null && handle.Some? then Some(Slot(registry, handle.value)) else None
    }

    /** The default constructor. */
    constructor (w: World)
      requires w.Valid({})
      modifies w`pool
      ensures w.Valid({}) && w.pool == old(w.pool) + {this}
      ensures w.Snap() == Perform(old(w.Snap()), NewEmpty(this))
    {
      hide Linked, Accounted;
      registry, handle := null, None;
      new;
      ghost var was := w.Snap();
      w.pool := w.pool + {this};
      NewKeepsGood(was, NewEmpty(this));
      assert w.Snap() == was.(own := was.own[this := None]);
    }

    /** mdb_cursor_open, then the registering constructor: getROCursor and getRWCursor. */
    constructor Open(w: World, r: Registry)
      requires w.Valid({}) && r in w.regs
      modifies w`pool, w`log, w`issued, r
      ensures w.Valid({}) && w.pool == old(w.pool) + {this}
      ensures w.Snap() == Opened(old(w.Snap()), this, r)
      ensures registry == r && handle == Some(old(w.issued)) && w.issued == old(w.issued) + 1
      ensures r.items == old(r.items) + [this] && w.log == old(w.log) + [OpenCursor(old(w.issued))]
    {
      hide Linked, Accounted, World.Snap;
      registry, handle := r, Some(w.issued);
      new;
      ghost var was := w.Snap();
      w.SnapIs();
      r.items := r.items + [this];
      w.log, w.issued := w.log + [OpenCursor(w.issued)], w.issued + 1;
      w.pool := w.pool + {this};
      OpenKeepsGood(was, this, r);
      SnapOpened(w, this, r, was);
    }

    /** move_from: take the place of src in the registry, or join it when src is not there. */
    method TakePlace(src: Cursor)
      modifies registry
      ensures registry != null ==> registry.items == Succeeded(old(registry.items), src, this)
      ensures registry != null && src !in old(registry.items) ==> registry.items == old(registry.items) + [this]
      ensures registry != null && src in old(registry.items) ==>
                exists i :: 0 <= i < |old(registry.items)| && old(registry.items)[i] == src &&
                  registry.items == old(registry.items)[i := this]
    {
      if registry == null {
        return;
      }
      var i := IndexOf(registry.items, src);
      if i < |registry.items| {
        registry.items := registry.items[i := this];
      } else {
        registry.items := registry.items + [this];
      }
    }

    /** The move constructor. */
    constructor Move(w: World, src: Cursor)
      requires w.Valid({}) && src in w.pool
      modifies w`pool, src, src.registry
      ensures w.Valid({}) && w.pool == old(w.pool) + {this} && this != src
      ensures w.Snap() == Moved(old(w.Snap()), src, this)
      ensures registry == old(src.registry) && handle == old(src.handle)
      ensures src.registry == null && src.handle == None
    {
      hide Linked, Accounted, Succeeded, World.Snap;
      registry, handle := src.registry, src.handle;
      new;
      ghost var was := w.Snap();
      w.SnapIs();
      w.Knows(src, {});
      TakePlace(src);
      src.registry, src.handle := null, None;
      w.pool := w.pool + {this};
      MoveKeepsGood(was, src, this);
      SnapMoved(w, src, this, was);
    }

    /**
     * Move assignment. A handle the target owns is not closed but overwritten, so ownership stays right
     * exactly when the target owns none; a cursor assigned to itself is emptied.
     */
    method MoveAssign(w: World, src: Cursor)
      requires w.Valid({}) && src in w.pool && this in w.pool
      modifies this, src, src.registry
      ensures w.Valid({}) <==> old(handle) == None
      ensures w.Snap() == Moved(old(w.Snap()), src, this)
      ensures this != src ==> registry == old(src.registry) && handle == old(src.handle)
      ensures src.registry == null && src.handle == None
    {
      hide Linked, Accounted, Succeeded, World.Snap;
      ghost var was := w.Snap();
      w.SnapIs();
      w.Knows(src, {});
      w.Knows(this, {});
      registry := src.registry;
      handle := src.handle;
      TakePlace(src);
      src.registry, src.handle := null, None;
      MoveKeepsGood(was, src, this);
      SnapMoved(w, src, this, was);
    }

    /** The find and erase in close. */
    method Leave()
      requires registry != null
      modifies registry
      ensures registry.items == Without(old(registry.items), this)
      ensures this in old(registry.items) ==> OneErased(old(registry.items), this, registry.items)
    {
      var i := IndexOf(registry.items, this);
      if i < |registry.items| {
        registry.items := registry.items[..i] + registry.items[i + 1..];
      }
    }

    /** close, which destruction also runs. Closing an empty cursor does nothing. */
    method Close(w: World, ghost loose: set<Cursor>)
      requires w.Valid(loose) && this in w.pool
      modifies w`log, this, registry
      ensures w.Valid(loose - {this})
      ensures w.Snap() == Closed(old(w.Snap()), this)
      ensures registry == null && handle == None
      ensures w.log == old(w.log) + if old(handle).Some? then [CloseCursor(old(handle).value)] else []
      ensures old(registry) != null && this in old(registry.items) ==>
                OneErased(old(registry.items), this, old(registry).items)
    {
      hide Linked, Accounted, World.Snap, Without, OneErased;
      ghost var was := w.Snap();
      w.SnapIs();
      w.Knows(this, loose);
      if registry != null {
        Leave();
        registry := null;
      }
      if handle.Some? {
        w.log := w.log + [CloseCursor(handle.value)];
        handle := None;
      }
      CloseKeepsGood(was, this, loose);
      SnapClosed(w, this, was);
    }
  }

  /** The second vector is the first without one occurrence of e. */
  ghost predicate OneErased<E>(s: seq<E>, e: E, r: seq<E>) {
    exists i :: 0 <= i < |s| && s[i] == e && r == s[..i] + s[i + 1..]
  }

  lemma SnapOpened(w: World, c: Cursor, r: Registry, was: Table<Cursor, Registry>)
    requires c !in was.own && r in was.items
    requires w.pool == was.own.Keys + {c} && w.regs == was.items.Keys
    requires w.log == was.log + [OpenCursor(was.issued)] && w.issued == was.issued + 1
    requires c.Content() == Some(Slot(r, was.issued))
    requires forall d :: d in was.own ==> d.Content() == was.own[d]
    requires forall q :: q in was.items ==> q.items == if q == r then was.items[q] + [c] else was.items[q]
    ensures w.Snap() == Opened(was, c, r)
  {
    assert w.Snap().items == Opened(was, c, r).items;
    assert w.Snap().own == Opened(was, c, r).own;
  }

  lemma SnapMoved(w: World, src: Cursor, dst: Cursor, was: Table<Cursor, Registry>)
    requires Homed(was, src)
    requires w.pool == was.own.Keys + {dst} && w.regs == was.items.Keys && w.log == was.log && w.issued == was.issued
    requires src.Content() == None && (src != dst ==> dst.Content() == was.own[src])
    requires forall c :: c in was.own && c != src && c != dst ==> c.Content() == was.own[c]
    requires forall r :: r in was.items ==>
               r.items == if was.own[src].Some? && r == was.own[src].value.reg
                          then Succeeded(was.items[r], src, dst) else was.items[r]
    ensures w.Snap() == Moved(was, src, dst)
  {
    hide Succeeded;
    assert w.Snap().items == Moved(was, src, dst).items;
    assert w.Snap().own == Moved(was, src, dst).own;
  }

  lemma SnapClosed(w: World, c: Cursor, was: Table<Cursor, Registry>)
    requires Homed(was, c) && c.Content() == None
    requires w.pool == was.own.Keys && w.regs == was.items.Keys && w.issued == was.issued
    requires w.log == was.log + if was.own[c].Some? then [CloseCursor(was.own[c].value.handle)] else []
    requires forall d :: d in was.own && d != c ==> d.Content() == was.own[d]
    requires forall r :: r in was.items ==>
               r.items == if was.own[c].Some? && r == was.own[c].value.reg then Without(was.items[r], c) else was.items[r]
    ensures w.Snap() == Closed(was, c)
  {
    hide Without;
    assert was.log + [] == was.log;
    assert w.Snap().items == Closed(was, c).items;
    assert w.Snap().own == Closed(was, c).own;
  }

  lemma StartDrain(t: Table<Cursor, Registry>, s: Table<Cursor, Registry>, r: Registry)
    requires Good(t, {}) && r in t.items && s == t.(items := t.items[r := []])
    ensures Swapped(s, r, t.items[r]) && Good(s, SetOf(t.items[r]))
  {
    SwapOut(t, r);
    assert forall c, h: nat :: Owns(s, c, h) <==> Owns(t, c, h);
  }

  lemma SwappedFacts(t: Table<Cursor, Registry>, r: Registry, cs: seq<Cursor>)
    requires Swapped(t, r, cs)
    ensures Linked(t, SetOf(cs)) && r in t.items && t.items[r] == []
    ensures forall i :: 0 <= i < |cs| ==> cs[i] in t.own && t.own[cs[i]].Some? && t.own[cs[i]].value.reg == r
  {
  }
}
