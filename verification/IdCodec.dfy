/** The 32-bit ids of the main table and their byte forms, as memcpy and htonl produce them on a little-endian host. */
module IdCodec {
  import opened ByteOrder

  const WRAP := 0x1_0000_0000

  type Id = i: int | 0 <= i < 0x1_0000_0000

  /** MDBInVal of a uint32_t: the host's four bytes, least significant first. */
  function IdBytes(i: Id): (b: Bytes)
    ensures |b| == 4
  {
    [i % 256, i / 256 % 256, i / 65536 % 256, i / 16777216]
  }

  /** MDBOutVal::get<uint32_t> on four bytes. */
  function IdOf(b: Bytes): Id
    requires |b| == 4
  {
    var b0: int, b1: int, b2: int, b3: int := b[0], b[1], b[2], b[3];
    b0 + 256 * b1 + 65536 * b2 + 16777216 * b3
  }

  /** The number four bytes spell with the most significant byte first. */
  function BigEndian(b: Bytes): Id
    requires |b| == 4
  {
    var b0: int, b1: int, b2: int, b3: int := b[0], b[1], b[2], b[3];
    16777216 * b0 + 65536 * b1 + 256 * b2 + b3
  }

  /** The four bytes of htonl(i): most significant first. */
  function NetworkBytes(i: Id): (b: Bytes)
    ensures |b| == 4
  {
    [i / 16777216, i / 65536 % 256, i / 256 % 256, i % 256]
  }

  lemma IdRoundTrip(i: Id)
    ensures IdOf(IdBytes(i)) == i
  {
    assert i / 256 == i / 256 % 256 + 256 * (i / 65536);
    assert i / 65536 == i / 65536 % 256 + 256 * (i / 16777216);
  }

  lemma BytesRoundTrip(b: Bytes)
    requires |b| == 4
    ensures IdBytes(IdOf(b)) == b
  {
    var i := IdOf(b);
    var b1: int, b2: int, b3: int := b[1], b[2], b[3];
    assert i / 256 == b1 + 256 * b2 + 65536 * b3;
    assert i / 65536 == b2 + 256 * b3;
    assert i / 16777216 == b3;
  }

  lemma IdBytesInjective(i: Id, j: Id)
    requires IdBytes(i) == IdBytes(j)
    ensures i == j
  {
    IdRoundTrip(i);
    IdRoundTrip(j);
  }

  /** Four bytes compare like the number they spell most significant byte first. */
  lemma FourByteOrder(a: Bytes, b: Bytes)
    requires |a| == |b| == 4
    ensures Less(a, b) <==> BigEndian(a) < BigEndian(b)
  {
    assert Less(a, b) <==> a[0] < b[0] || (a[0] == b[0] && Less(a[1..], b[1..]));
    assert Less(a[1..], b[1..]) <==> a[1] < b[1] || (a[1] == b[1] && Less(a[2..], b[2..])) by {
      assert a[1..][1..] == a[2..] && b[1..][1..] == b[2..];
    }
    assert Less(a[2..], b[2..]) <==> a[2] < b[2] || (a[2] == b[2] && Less(a[3..], b[3..])) by {
      assert a[2..][1..] == a[3..] && b[2..][1..] == b[3..];
    }
    assert Less(a[3..], b[3..]) <==> a[3] < b[3] by {
      assert a[3..][1..] == [] && b[3..][1..] == [];
    }
  }

  /** Network byte order is the numeric order. */
  lemma NetworkOrderIsNumeric(i: Id, j: Id)
    ensures Less(NetworkBytes(i), NetworkBytes(j)) <==> i < j
    ensures NetworkBytes(i) == NetworkBytes(j) ==> i == j
  {
    FourByteOrder(NetworkBytes(i), NetworkBytes(j));
    NetworkValue(i);
    NetworkValue(j);
  }

  lemma NetworkValue(i: Id)
    ensures BigEndian(NetworkBytes(i)) == i
  {
    assert i / 256 == i / 256 % 256 + 256 * (i / 65536);
    assert i / 65536 == i / 65536 % 256 + 256 * (i / 16777216);
  }

  /**
   * The order of ids stored as duplicates, and of an index on a uint32_t field: numeric order of the
   * byte-swapped values, not of the values.
   */
  lemma StoredOrderIsSwapped(i: Id, j: Id)
    ensures Less(IdBytes(i), IdBytes(j)) <==> BigEndian(IdBytes(i)) < BigEndian(IdBytes(j))
  {
    FourByteOrder(IdBytes(i), IdBytes(j));
  }

  /** 256 is stored before 1: a scan of a uint32_t index is not numerically sorted. */
  lemma StoredOrderIsNotNumeric()
    ensures Less(IdBytes(256), IdBytes(1))
  {
    StoredOrderIsSwapped(256, 1);
  }
}
