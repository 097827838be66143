/** Byte strings and the order LMDB keeps them in: bytewise, a proper prefix first. */
module ByteOrder {

  type byte = b: int | 0 <= b < 256

  type Bytes = seq<byte>

  /** LMDB's default comparison (memcmp over the common length, then the length), as "strictly below". */
  predicate Less(a: Bytes, b: Bytes) {
    if b == [] then false
    else if a == [] then true
    else if a[0] != b[0] then a[0] < b[0]
    else Less(a[1..], b[1..])
  }

  lemma {:induction false} Irreflexive(a: Bytes)
    ensures !Less(a, a)
  {
    if a != [] {
      Irreflexive(a[1..]);
    }
  }

  lemma {:induction false} Transitive(a: Bytes, b: Bytes, c: Bytes)
    requires Less(a, b) && Less(b, c)
    ensures Less(a, c)
  {
    if a != [] && a[0] == b[0] == c[0] {
      Transitive(a[1..], b[1..], c[1..]);
    }
  }

  lemma {:induction false} Total(a: Bytes, b: Bytes)
    ensures Less(a, b) || a == b || Less(b, a)
  {
    if a != [] && b != [] && a[0] == b[0] {
      Total(a[1..], b[1..]);
      assert a == [a[0]] + a[1..] && b == [b[0]] + b[1..];
    }
  }

  /** No string with prefix p sorts below p: a seek to p cannot overshoot the strings it should find. */
  lemma {:induction false} PrefixIsFloor(p: Bytes, a: Bytes)
    requires p <= a
    ensures !Less(a, p)
  {
    if p != [] {
      PrefixIsFloor(p[1..], a[1..]);
    }
  }

  /** The strings with a given prefix are contiguous: whatever lies between two of them has it too. */
  lemma {:induction false} PrefixIsContiguous(p: Bytes, a: Bytes, b: Bytes, c: Bytes)
    requires p <= a && p <= c
    requires !Less(b, a) && !Less(c, b)
    ensures p <= b
  {
    if p != [] {
      assert b != [];
      assert b[0] == p[0];
      PrefixIsContiguous(p[1..], a[1..], b[1..], c[1..]);
      assert b == [b[0]] + b[1..] && p == [p[0]] + p[1..];
    }
  }

  /** Below a common head the order of the tails decides. */
  lemma {:induction false} CommonHead(h: Bytes, a: Bytes, b: Bytes)
    ensures Less(h + a, h + b) <==> Less(a, b)
  {
    if h == [] {
      assert h + a == a && h + b == b;
    } else {
      CommonHead(h[1..], a, b);
      assert (h + a)[1..] == h[1..] + a && (h + b)[1..] == h[1..] + b;
    }
  }

  /** Heads of equal length that differ decide the order, whatever follows them. */
  lemma {:induction false} HeadDecides(g: Bytes, h: Bytes, a: Bytes, b: Bytes)
    requires |g| == |h| && g != h
    ensures Less(g + a, h + b) <==> Less(g, h)
  {
    assert (g + a)[1..] == g[1..] + a && (h + b)[1..] == h[1..] + b;
    if g[0] == h[0] {
      assert g == [g[0]] + g[1..] && h == [h[0]] + h[1..];
      HeadDecides(g[1..], h[1..], a, b);
    }
  }
}
