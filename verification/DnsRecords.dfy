/** The example database of DNS records: three indexes, one of them a composite key in network byte order. */
module DnsRecords {
  import opened ByteOrder
  import opened IdCodec
  import opened Lmdb
  import opened TypedStore
  import opened TypedRuns
  import opened TypedDbi
  import opened Queries

  datatype DNSResourceRecord = DNSResourceRecord(
    qname: Bytes, qtype: bv16, domain_id: Id, content: Bytes, ttl: bv32, ordername: Bytes, auth: bool)

  function CompoundKey(rr: DNSResourceRecord): Bytes {
    NetworkBytes(rr.domain_id) + rr.ordername
  }

  /** compound::operator(). */
  method Compound(rr: DNSResourceRecord) returns (ret: Bytes)
    ensures ret == CompoundKey(rr)
    ensures |ret| == 4 + |rr.ordername| && BigEndian(ret[..4]) == rr.domain_id && ret[4..] == rr.ordername
  {
    var id := NetworkBytes(rr.domain_id);
    ret := id;
    ret := ret + rr.ordername;
    NetworkValue(rr.domain_id);
    assert ret[..4] == id;
  }

  /** The order by number of the domain, then by ordername bytes. */
  predicate DomainThenName(a: DNSResourceRecord, b: DNSResourceRecord) {
    a.domain_id < b.domain_id || (a.domain_id == b.domain_id && Less(a.ordername, b.ordername))
  }

  /** Byte order of the composite keys is that order. */
  lemma CompoundKeepsOrder(a: DNSResourceRecord, b: DNSResourceRecord)
    ensures Less(CompoundKey(a), CompoundKey(b)) <==> DomainThenName(a, b)
  {
    if a.domain_id == b.domain_id {
      CommonHead(NetworkBytes(a.domain_id), a.ordername, b.ordername);
    } else {
      NetworkOrderIsNumeric(a.domain_id, b.domain_id);
      HeadDecides(NetworkBytes(a.domain_id), NetworkBytes(b.domain_id), a.ordername, b.ordername);
    }
  }

  lemma CompoundIsInjective(a: DNSResourceRecord, b: DNSResourceRecord)
    requires CompoundKey(a) == CompoundKey(b)
    ensures a.domain_id == b.domain_id && a.ordername == b.ordername
  {
    assert CompoundKey(a)[..4] == NetworkBytes(a.domain_id) && CompoundKey(b)[..4] == NetworkBytes(b.domain_id);
    assert CompoundKey(a)[4..] == a.ordername && CompoundKey(b)[4..] == b.ordername;
    NetworkOrderIsNumeric(a.domain_id, b.domain_id);
  }

  /** The keys with a domain's four bytes as prefix are exactly the keys of that domain's records. */
  lemma DomainIsPrefix(d: Id, rr: DNSResourceRecord)
    ensures NetworkBytes(d) <= CompoundKey(rr) <==> rr.domain_id == d
  {
    assert CompoundKey(rr)[..4] == NetworkBytes(rr.domain_id);
    NetworkOrderIsNumeric(d, rr.domain_id);
  }

  /** A listing of the composite index is sorted by domain number, then by ordername. */
  lemma ListingIsSortedByDomain(items: seq<Item<DNSResourceRecord>>, recs: map<Id, DNSResourceRecord>, ids: set<Id>,
                                i: nat, j: nat)
    requires Lists(items, CompoundKey, recs, ids) && i < j < |items|
    ensures DomainThenName(items[i].rec, items[j].rec) ||
            (items[i].rec.domain_id == items[j].rec.domain_id && items[i].rec.ordername == items[j].rec.ordername)
  {
    assert Before(PairsOf(items)[i], PairsOf(items)[j]);
    CompoundKeepsOrder(items[i].rec, items[j].rec);
    if CompoundKey(items[i].rec) == CompoundKey(items[j].rec) {
      CompoundIsInjective(items[i].rec, items[j].rec);
    }
  }

  /** The indexes of the example: name, domain id in host bytes, composite key; the fourth is unused. */
  function Keys(): seq<KeyFn<DNSResourceRecord>> {
    [IndexOn((rr: DNSResourceRecord) => rr.qname),
     IndexOn((rr: DNSResourceRecord) => IdBytes(rr.domain_id)),
     IndexOn(CompoundKey),
     NullIndex]
  }

  /** Which records the example's store can hold: LMDB's key limits on the name and the ordername. */
  lemma WhichFit(sch: Schema<DNSResourceRecord>, rr: DNSResourceRecord)
    requires sch.keys == Keys()
    ensures KeysFit(sch, rr) <==> 1 <= |rr.qname| <= 511 && |rr.ordername| <= 507
  {
    assert KeyFits(IdBytes(rr.domain_id));
    assert sch.keys[0].key(rr) == rr.qname;
    assert |sch.keys[2].key(rr)| == 4 + |rr.ordername|;
  }

  // ----- two loops that list what they should not -----

  type RR = DNSResourceRecord

  /** The store after one put of a record without id into an empty database. */
  lemma OneRecord(sch: Schema<RR>, a: RR)
    requires sch.keys == Keys() && RoundTrips(sch) && KeysFit(sch, a)
    ensures var s := PutStore(sch, EMPTY, a, 0).0;
            s == Run(sch, EMPTY, [Put(a, 0)]) && Indexed(sch, s) && s.main == [Entry(1, sch.ser(a))] &&
            Records(sch, s.main) == map[1 := a]
  {
    hide PutStore, Indexed, KeysFit;
    EmptyIsIndexed(sch);
    PutFresh(sch, EMPTY, a);
    PutFreshId(sch, EMPTY, a);
    assert Run(sch, Apply(sch, EMPTY, Put(a, 0)).0, []) == Apply(sch, EMPTY, Put(a, 0)).0;
  }

  lemma TwoRecords(sch: Schema<RR>, a: RR, b: RR)
    requires sch.keys == Keys() && RoundTrips(sch) && KeysFit(sch, a) && KeysFit(sch, b)
    ensures var s := Run(sch, EMPTY, [Put(a, 0), Put(b, 0)]);
            Indexed(sch, s) && Records(sch, s.main) == map[1 := a, 2 := b]
  {
    hide PutStore, Indexed, KeysFit, Records;
    OneRecord(sch, a);
    var s := PutStore(sch, EMPTY, a, 0).0;
    PutFresh(sch, s, b);
    assert WRAP - 1 !in map[1 := a];
    assert [Put(a, 0), Put(b, 0)][1..] == [Put(b, 0)];
    assert Run(sch, s, [Put(b, 0)]) == PutStore(sch, s, b, 0).0 by {
      assert Run(sch, PutStore(sch, s, b, 0).0, []) == PutStore(sch, s, b, 0).0;
    }
  }

  /**
   * The documentation's loop over domain 4, on a database that also has a record of domain 5: it yields
   * both records.
   */
  method FindFourYieldsFive(sch: Schema<RR>, four: RR, five: RR, view: Store) returns (o: Outcome, items: seq<Item<RR>>)
    requires sch.keys == Keys() && RoundTrips(sch) && KeysFit(sch, four) && KeysFit(sch, five)
    requires four.domain_id == 4 && five.domain_id == 5
    requires view == Run(sch, EMPTY, [Put(four, 0), Put(five, 0)])
    ensures o == Pass && items == [Item(IdBytes(4), 1, four), Item(IdBytes(5), 2, five)]
  {
    hide Indexed, Records, KeysFit, Run, Lists;
    TwoRecords(sch, four, five);
    o, items := ScanFrom(sch, view, 1, IdBytes(4), false);
    FromFourOn(sch.keys[1].key, four, five);
    FourThenFive(sch.keys[1].key, four, five);
    ListsIsUnique(items, [Item(IdBytes(4), 1, four), Item(IdBytes(5), 2, five)],
                  sch.keys[1].key, map[1 := four, 2 := five], {1, 2});
  }

  lemma FourBelowFive()
    ensures Less(IdBytes(4), IdBytes(5)) && !Less(IdBytes(5), IdBytes(4)) && !Less(IdBytes(4), IdBytes(4))
  {
    Irreflexive(IdBytes(4));
  }

  lemma FromFourOn(keyOf: RR -> Bytes, four: RR, five: RR)
    requires keyOf(four) == IdBytes(4) && keyOf(five) == IdBytes(5)
    ensures var recs := map[1 := four, 2 := five];
            && IdsWhere(keyOf, recs, k => k == IdBytes(4)) != {}
            && IdsWhere(keyOf, recs, k => Above(IdBytes(4), k)) == {1, 2}
  {
    hide IdBytes, Less;
    FourBelowFive();
    assert 1 in IdsWhere(keyOf, map[1 := four, 2 := five], k => k == IdBytes(4));
  }

  lemma FourThenFive(keyOf: RR -> Bytes, four: RR, five: RR)
    requires keyOf(four) == IdBytes(4) && keyOf(five) == IdBytes(5)
    ensures Lists([Item(IdBytes(4), 1, four), Item(IdBytes(5), 2, five)], keyOf, map[1 := four, 2 := five], {1, 2})
  {
    hide IdBytes, Less;
    var items := [Item(IdBytes(4), 1, four), Item(IdBytes(5), 2, five)];
    FourBelowFive();
    assert Before(PairsOf(items)[0], PairsOf(items)[1]);
    assert items[0].id == 1 && items[1].id == 2;
  }

  /** A database with one record, named "b": a loop over the prefix "a" yields it. */
  method PrefixYieldsOther(sch: Schema<RR>, rr: RR, view: Store) returns (o: Outcome, items: seq<Item<RR>>)
    requires sch.keys == Keys() && RoundTrips(sch) && KeysFit(sch, rr)
    requires rr.qname == [98] && view == Run(sch, EMPTY, [Put(rr, 0)])
    ensures o == Pass && items == [Item([98], 1, rr)]
  {
    hide Indexed, KeysFit, Run, Records;
    OneRecord(sch, rr);
    assert sch.keys[0].key(rr) == rr.qname;
    assert Less([97], [98]) && !Less([98], [97]);
    assert 1 in IdsWhere(sch.keys[0].key, map[1 := rr], k => Above([97], k));
    o, items := ScanPrefix(sch, view, 0, [97]);
  }
}
