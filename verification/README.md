# lmdb-safe, modelled and verified in Dafny

lmdb-safe wraps LMDB so that its rules are hard to break, and lmdb-typed puts an object store with up to
four derived indexes on top. This project models both and proves what they are for. `dafny verify
dfyconfig.toml` checks all of it.

LMDB itself is foreign code. The part the library stands on is written down as values: sorted tables, a
cursor with a position, a writer lock (`Lmdb.dfy`). What the library does is modelled in its own form:
transactions, iterators, cursors and transaction objects are classes whose methods update fields, each tied
to a function on values, and the results are lemmas about those functions. Interleavings and nesting are
state machines over their steps.

| file | what it models |
|---|---|
| `Options.dfy`, `ByteOrder.dfy`, `IdCodec.dfy` | an optional value; byte strings and their order; 32-bit ids in host and network byte order |
| `Lmdb.dfy` | the main table (ids, ascending), index tables (key bytes, then id bytes), put, get, del, cursor moves |
| `TypedStore.dfy`, `TypedRuns.dfy` | put, modify, del, clear on a main table and four indexes; one operation and whole runs against a plain map from id to record |
| `TypedDbi.dfy` | the typed read-write transaction as a class |
| `IndexIter.dfy`, `Queries.dfy` | the index iterator as a class; what a loop over begin, rbegin, find, lower_bound, equal_range, prefix_range yields |
| `DnsRecords.dfy` | the example schema and its composite key |
| `Nesting.dfy` | nested transactions as a stack of views |
| `CursorTable.dfy`, `Cursors.dfy` | who owns which cursor handle, as values and as objects with a registry of back pointers |
| `Transactions.dfy` | opening under the per-thread counters; commit, abort, destruction of both kinds of object |
| `Threads.dfy` | threads interleaved at every lock |

Main results:

- A run of put, modify, del and clear in which nothing throws keeps every index equal to the index of the
  main table throughout exactly when no put overwrites a record with changed index keys
  (`TypedRuns.RunRefines`). Which operations throw is known exactly, and the indexes are right after an
  exception exactly if it left nothing changed (`TypedRuns.ApplyRefines`).
- Whatever keys the puts of a run change, it throws nothing if and only if a plain map accepts every
  operation; it then has the map's effect and no index misses a record, though stale pairs may stay
  (`TypedRuns.RunOnComplete`).
- Over any run, exceptions included, id 0 is never stored, an automatic put either refuses because 2^32 - 1
  is taken or adds its row above all others (`TypedRuns.AutomaticIdsAreSafe`), and every index stays sorted
  (`TypedRuns.RunKeepsTables`). What put, del and clear do to such a store, and what a lookup or an iterator
  does at a stale pair, is stated for every store (`TypedStore.PutAnywhere`, `TypedStore.DelAnywhere`,
  `TypedRuns.ClearAnywhere`, `TypedDbi.RWTransaction.GetBy`, `IndexIter.Iter.GenOperator`).
- Each kind of loop over an index yields exactly the records it should, once each, in index order
  (`Queries.Scan...`). `prefix_range` does so if and only if some key has the prefix or no key lies above it;
  a loop over `find` if and only if no key has the given value or none lies above it.
- The database holds exactly the operations of transactions committed all the way up
  (`Nesting.DatabaseIsCommittedHistory`), operations of a committed child count as their parent's own
  (`Nesting.CommittedChildIsInline`), and the database is rightly indexed if every transaction in which an operation
  threw is aborted (`Nesting.CommittedIsIndexed`); that rule is needed (`Nesting.DirtyCommitBreaks`).
- Over a run of opens, moves, closes and drains every live handle has one owner, registered once, and no
  handle is closed twice, if and only if no move goes onto a cursor that still owns a handle
  (`CursorTable.RunKeepsGood`). Then a cursor opened on either registry of a transaction is closed exactly
  once, before LMDB ends the transaction (`CursorTable.TakenIsClosedAtEnd`); otherwise the overwritten handle
  is never closed (`CursorTable.MoveOntoLiveLeaks`).
- A transaction object ends its LMDB transaction once, after its cursors are closed, and takes its own
  counter down once, whatever is done to it (`Transactions.Transaction.LiveOut`).
- In every interleaving the counters are right and waits form a cycle exactly when one thread opens a
  database handle while holding an RW transaction and the thread inside `openDB` waits for the writer lock
  (`Threads.CountersAreRight`, `Threads.CycleIsEmbrace`). If clients avoid that, whoever waits is at most
  three waits behind a thread that goes on, or behind a client's own open transaction
  (`Threads.RuleKeepsMoving`); and a call that nobody hinders is over after at most 13 steps, with exactly
  the effect it is for (`Threads.CallReturns`).

Assumptions. The host is little-endian (ids are stored as four bytes, least significant first). Strings are
byte strings. A serializer is a pair of functions with `des(ser(t)) == t`. An unset filter is the filter that
lets everything pass. LMDB refuses an empty key everywhere and a key over 511 bytes on put, both with
`MDB_BADVALSIZE`, which the wrapper turns into an exception.

Where documentation and code differ, the model follows the code:

- README.md:332-339 shows `find<1>(4)` with `++` as a loop over the records with `domain_id` 4. The iterator
  `find` makes is not limited to one key, so the loop goes on to the end of the index
  (`DnsRecords.FindFourYieldsFive`; exactly when it is right: `Queries.ScanFrom`); `equal_range` is the loop
  the text describes (`Queries.ScanEqual`).
- The comment at lmdb-typed.hh:516 calls `prefix_range` an equal range. Its first entry is not compared with
  the prefix, so a prefix nobody has can yield one record without it (`DnsRecords.PrefixYieldsOther`);
  typed-test.cc:59-60 relies on that.
- Move assignment of a cursor (lmdb-safe.hh:365-373) does not close the handle its target owns
  (`CursorTable.MoveOntoLiveLeaks`).

## Model

| member | source | states |
|---|---|---|
| `ByteOrder.PrefixIsContiguous` | lmdb-typed.hh:360-362 | whatever lies between two strings with a prefix has it, so stopping at the first key without the prefix loses nothing |
| `ByteOrder.PrefixIsFloor` | lmdb-typed.hh:527-532 | no string with a prefix lies below the prefix, so seeking the prefix overshoots none |
| `IdCodec.IdRoundTrip` | lmdb-safe.hh:118-126 | reading a uint32_t from the bytes written for an id gives the id back |
| `IdCodec.BytesRoundTrip` | lmdb-safe.hh:174-182 | writing the id read from four bytes gives the bytes back |
| `IdCodec.NetworkOrderIsNumeric` | typed-example.cc:48-49 | byte order of htonl values is numeric order, and the encoding is injective |
| `IdCodec.StoredOrderIsSwapped` | lmdb-typed.hh:74-78 | byte order of ids and uint32_t keys as stored is the order of the byte-swapped numbers |
| `IdCodec.StoredOrderIsNotNumeric` | lmdb-typed.hh:74-78 | 256 is stored before 1: that order is not numeric |
| `Lmdb.PutPairAdds` | lmdb-typed.hh:102-105 | a put into an index keeps it sorted and adds exactly the pair |
| `Lmdb.DelPairRemoves` | lmdb-safe.hh:535-542 | a del of a pair keeps the index sorted, removes exactly the pair, and reports whether it was there |
| `Lmdb.SortedIsCanonical` | lmdb-typed.hh:183 | a sorted index is determined by the set of its pairs |
| `Lmdb.MainPutUpdates` | lmdb-safe.hh:523-532 | a put maps the id to the value; with MDB_APPEND it succeeds only above every stored id, and a refused put changes nothing |
| `Lmdb.MainGetReads` | lmdb-safe.hh:259-270 | get finds exactly what the table maps the id to |
| `Lmdb.MainDelRemoves` | lmdb-safe.hh:544-551 | del removes exactly the id and reports whether it was there |
| `TypedStore.PutOneAgrees` | lmdb-typed.hh:102-105 | putting a record into a right index throws exactly on a key it cannot hold; the index is right for the updated records exactly when the id was free or its key is unchanged |
| `TypedStore.DelOneAgrees` | lmdb-typed.hh:107-112 | deleting a stored record from a right index never throws and leaves the right index of the others |
| `TypedStore.BroadcastReaches` | lmdb-typed.hh:600-605 | the four calls succeed exactly when each would, each then hits its own index, and none before the start slot changes |
| `TypedStore.MaxIdIsHighest` | lmdb-typed.cc:3-12 | MDBGetMaxID is the highest id in use, 0 for none |
| `TypedStore.FreshId` | lmdb-typed.hh:593-598 | the automatic id is nonzero, above every stored one and appended; or 2^32 - 1 is stored, it wraps to 0 and the append is refused |
| `TypedStore.PutFreshId` | lmdb-typed.hh:591-608 | put without id, whatever the indexes hold: with 2^32 - 1 stored it throws and changes nothing; else its row is added above all others, even if it then throws |
| `TypedStore.PutFresh` | lmdb-typed.hh:591-608 | put without id on a right store: it throws exactly when 2^32 - 1 is stored or an index cannot hold a key; the record is added in the second case too, and then the store is not right |
| `TypedStore.PutGiven` | lmdb-typed.hh:591-608 | put with an id: throws exactly on a bad key, and leaves a store that is not right; over a stored id the indexes stay right exactly when no index key changes |
| `TypedStore.DelRefines` | lmdb-typed.hh:623-631 | del never throws on a right store, removes the record if there is one, and keeps the indexes right |
| `TypedStore.ModifyRefines` | lmdb-typed.hh:611-620 | modify throws exactly when the record is missing, changing nothing, or a new key does not fit, leaving a store that is not right; else the record is replaced and all indexes are right |
| `TypedStore.ClearStep` | lmdb-typed.hh:639-645 | each turn of clear leaves exactly the index of the rows that are left |
| `TypedStore.ClearEmpties` | lmdb-typed.hh:634-646 | clear of a right store does not throw and leaves main table and all indexes empty |
| `TypedStore.BroadcastStops` | lmdb-typed.hh:600-605 | on indexes in any state the calls go on up to the first that cannot work; those before it have their effect, the others none, and its exception is the right one |
| `TypedStore.PutAnywhere` | lmdb-typed.hh:591-608 | put on a store in any state: the row is written, the indexes before the first that cannot hold a key get their pair, and it throws exactly when there is such an index |
| `TypedStore.DelAnywhere` | lmdb-typed.hh:623-631 | del of a stored id in any state: the row goes, the indexes before the first that misses the pair lose it, and it throws exactly when there is such an index |
| `TypedStore.ModifyAnywhere` | lmdb-typed.hh:611-620 | modify in any state: "Could not modify" and no change without a record, else del and then put of the new record |
| `TypedRuns.ApplyRefines` | lmdb-typed.hh:591-646 | from a right store an operation throws exactly when it is not acceptable to the plain map, and then leaves a right store exactly if it changed nothing; otherwise it has the map's effect, and stays right exactly unless it overwrites with changed keys |
| `TypedRuns.RunRefines` | lmdb-typed.hh:591-678 | over any run without exception: right at every step if and only if no put overwrites with changed keys; either way the effect of the run on a map |
| `TypedRuns.ReachableIsIndexed` | lmdb-typed.hh:591-678 | the same for every state reached from the empty store |
| `TypedRuns.OverwriteLeavesStale` | lmdb-typed.hh:591-608 | putting two records with different keys under one id throws nothing and leaves the indexes wrong |
| `TypedRuns.StalePairStays` | lmdb-typed.hh:591-631 | it leaves one row and two pairs; del of the id leaves no row and the pair of the first record |
| `TypedRuns.ApplyKeepsTables` | lmdb-typed.hh:591-646 | every operation, throwing or not, leaves every index sorted, with keys of 1 to 511 bytes and ids of 4 bytes |
| `TypedRuns.RunKeepsTables` | lmdb-typed.hh:591-646 | the same over any run, from the empty store in particular |
| `TypedRuns.ClearAnywhere` | lmdb-typed.hh:634-646 | clear in any state: rows go from the lowest id up, it throws exactly at the first that an index misses; else every index has lost the pairs of the records there were, and only those |
| `TypedRuns.ApplyOnComplete` | lmdb-typed.hh:591-646 | if no index misses a record, stale pairs or not: an operation throws exactly when a map does not accept it; else it has the map's effect and no index misses a record |
| `TypedRuns.RunOnComplete` | lmdb-typed.hh:591-678 | a run throws nothing if and only if a map accepts every operation; its effect is then the map's and no index misses a record |
| `TypedRuns.ApplyKeepsIds` | lmdb-typed.hh:591-646 | every operation, throwing or not and whatever the indexes hold, keeps the ids ascending and nonzero |
| `TypedRuns.RunKeepsIds` | lmdb-typed.hh:591-646 | the same over any run |
| `TypedRuns.AutomaticIdsAreSafe` | lmdb-typed.hh:591-608 | after any operations on an empty store, exceptions included: no id 0; a put without id refuses and changes nothing once 2^32 - 1 is stored, else adds its row above all others and changes none |
| `TypedRuns.IndexesAreDetermined` | lmdb-typed.hh:183-187 | two right stores with equal records have equal index tables, however they came about |
| `TypedRuns.SizesAgree` | lmdb-typed.hh:204-219 | main table and real indexes have as many entries as there are records, fewer than 2^32 |
| `TypedRuns.IndexKeys` | lmdb-typed.hh:244-257 | the keys found in an index are the keys of the records |
| `TypedDbi.RWTransaction.IndexPut` | lmdb-typed.hh:102-105 | one index gets the pair, or nothing changes and it throws; a null index ignores the call |
| `TypedDbi.RWTransaction.IndexDel` | lmdb-typed.hh:107-112 | one index loses the pair, or nothing changes and it throws; a null index ignores the call |
| `TypedDbi.RWTransaction.InsertIntoIndexes` | lmdb-typed.hh:600-605 | the four puts in order, stopped by the first exception, with what that leaves behind |
| `TypedDbi.RWTransaction.ClearIndex` | lmdb-typed.hh:670-678 | the four deletes in order, stopped by the first exception, with what that leaves behind |
| `TypedDbi.RWTransaction.GetMaxId` | lmdb-typed.cc:3-12 | the highest id in use, 0 for none |
| `TypedDbi.RWTransaction.Put` | lmdb-typed.hh:591-608 | the new tables and the returned id or exception, in every state |
| `TypedDbi.RWTransaction.Get` | lmdb-typed.hh:222-230 | the record of the id, or none |
| `TypedDbi.RWTransaction.Del` | lmdb-typed.hh:623-631 | the new tables and outcome, in every state |
| `TypedDbi.RWTransaction.Modify` | lmdb-typed.hh:611-620 | the new tables and outcome, in every state |
| `TypedDbi.RWTransaction.Clear` | lmdb-typed.hh:634-646 | the loop that deletes through its own cursor ends, with the tables and outcome of clear; a right store ends empty |
| `TypedDbi.RWTransaction.GetBy` | lmdb-typed.hh:234-242 | in any state: the first pair under the key decides, with the record stored under its id, or id 0 if there is none; on a right store a nonzero id exactly when some record has the key, the first of them in stored id order; throws on an empty key |
| `TypedDbi.LookupsAnswer` | lmdb-typed.hh:234-242 | the same as a statement about the tables: a nonzero id comes with its record, id 0 when no pair has the key or the first one has no row |
| `TypedDbi.IndexGetIsFirstMatch` | lmdb-typed.hh:234-242 | the first pair under a key stands for the match a scan of all records would put first |
| `TypedDbi.RWTransaction.Size` | lmdb-typed.hh:205-210 | the number of ids in the main table, as a uint32_t; on a right store the number of records, not truncated |
| `TypedDbi.RWTransaction.IndexSize` | lmdb-typed.hh:213-219 | the number of pairs in the index, stale ones included, as a uint32_t; on a right store the number of records, not truncated |
| `TypedDbi.RWTransaction.Cardinality` | lmdb-typed.hh:246-257 | the number of distinct index keys among the records, not truncated |
| `IndexIter.OutOfRangeStays` | lmdb-typed.hh:353-362 | once an iterator meets an entry out of range, everything further on is out of range |
| `IndexIter.EntryIsRecord` | lmdb-typed.hh:311-315 | every index entry of a right store leads to its record, so "Missing id" cannot occur |
| `IndexIter.Iter.constructor` | lmdb-typed.hh:270-279 | an iterator that starts at the end |
| `IndexIter.FetchFinds` | lmdb-typed.hh:364-367 | the get behind an entry finds the row of its id, "Missing id" exactly when there is none |
| `IndexIter.Iter.Load` | lmdb-typed.hh:281-293 | the iterator shows the entry under its cursor and the record stored under its id, or throws "Missing id" exactly when there is none; no exception on a right store |
| `IndexIter.Iter.TryNext` | lmdb-typed.hh:353-371 | one pass of the retry loop: end exactly when the next entry leaves the range, again exactly when it fails the filter |
| `IndexIter.Iter.GenOperator` | lmdb-typed.hh:348-389 | ++ and -- end at the nearest entry in range that passes, all skipped ones are in range and fail, end means everything further on in range fails; it throws exactly when the walk comes to an entry in range without record |
| `Queries.GenBegin` | lmdb-typed.hh:420-444 | the first or last entry with its record, or end exactly for an empty index; "Missing id" exactly when the entry has no record |
| `Queries.GenFind` | lmdb-typed.hh:467-533 | the first entry at or above the key (or with the key) with its record, or end exactly when there is none; throws on an empty key, and "Missing id" when the entry has no record |
| `Queries.RankIsAnchored` | lmdb-typed.hh:527-532 | the entry a prefix search finds has the prefix unless no entry has |
| `Queries.StalePairDangles` | lmdb-typed.hh:234-293 | put, put over it with another key, del, none of which throws: then a lookup of the first key gives id 0, and begin and find throw "Missing id" |
| `Queries.Collect` | typed-example.cc:79-82 | the loop yields its start and then exactly the entries in its range that pass, in order, and terminates; over stale pairs it does so up to the first entry in range without record |
| `Queries.ListsIsUnique` | lmdb-typed.hh:382-389 | a listing in index order is determined by the ids listed |
| `Queries.ScanAll` | lmdb-typed.hh:434-438 | begin and ++ list every record once, by key and then stored id |
| `Queries.ScanAllBackwards` | lmdb-typed.hh:440-444 | rbegin and -- yield the exact reverse |
| `Queries.ScanEqual` | lmdb-typed.hh:498-514 | equal_range and ++ list exactly the records with the key |
| `Queries.ScanFrom` | lmdb-typed.hh:484-494 | find or lower_bound and ++ list every record with a key not below the given one; find lists none when no record has the key, and lists the records with the key if and only if there are none or no key lies above |
| `Queries.ScanPrefix` | lmdb-typed.hh:517-533 | prefix_range and ++ list exactly the records with the prefix if and only if there is one or no key lies above the prefix; otherwise exactly one record, without the prefix: the first above it |
| `Queries.ScanFiltered` | lmdb-typed.hh:321-380 | with a filter set after begin: the first record unasked, then exactly those whose serialized form passes |
| `Queries.ThereAndBack` | lmdb-typed.hh:382-389 | -- after a ++ that did not reach the end shows the same key, id and record again |
| `DnsRecords.Compound` | typed-example.cc:43-53 | the composite key, whose first four bytes give the domain id and whose rest is the ordername |
| `DnsRecords.CompoundKeepsOrder` | typed-example.cc:43-53 | byte order of composite keys is order by domain number, then ordername |
| `DnsRecords.CompoundIsInjective` | typed-example.cc:43-53 | equal composite keys mean equal domain id and ordername |
| `DnsRecords.DomainIsPrefix` | typed-example.cc:43-53 | a domain's four bytes are a prefix of exactly that domain's keys |
| `DnsRecords.ListingIsSortedByDomain` | typed-example.cc:57-61 | any listing of the composite index is sorted by domain number, then ordername |
| `DnsRecords.WhichFit` | typed-example.cc:57-61 | which records the example store can hold: name of 1 to 511 bytes, ordername of at most 507 |
| `DnsRecords.FindFourYieldsFive` | README.md:332-339 | the documented loop over domain 4, with a record each of domains 4 and 5, yields both |
| `DnsRecords.PrefixYieldsOther` | typed-test.cc:59-60 | with one record, named "b", a loop over the prefix "a" yields that record |
| `Nesting.OffersHappen` | lmdb-safe.cc:323-337 | a live read-write transaction without child offers children of both flavours, which start from its view, and operations, which apply to it |
| `Nesting.EndsHappen` | lmdb-safe.cc:194-219 | commit hands the view to the parent or the database, abort drops it |
| `Nesting.RefusalsHappen` | lmdb-safe.cc:162-166 | a second root, a write through a read-only view, and work below a live child change nothing |
| `Nesting.CommittedChildIsInline` | lmdb-safe.cc:323-332 | operations in a child that commits are the same, for everything under it, as operations in the parent |
| `Nesting.NestedCommitsArrive` | test-basic.cc:171-199 | operations in a child, committed twice, are in the database |
| `Nesting.StepReplays` | lmdb-safe.cc:194-219 | after each begin, child, operation, commit and abort every view is what replaying the surviving operations gives |
| `Nesting.DatabaseIsCommittedHistory` | lmdb-safe.cc:189-219 | over any run the database holds exactly the operations committed all the way up, in order |
| `Nesting.UnderIsUntouched` | lmdb-safe.cc:323-332 | while a child lives, whatever happens in it leaves everything under it alone |
| `Nesting.DroppedLeavesNoTrace` | lmdb-safe.cc:189-219 | a transaction aborted or dropped leaves the world as before it began, nested children included |
| `Nesting.ReadOnlyViewChangesNothing` | lmdb-safe.cc:334-337 | the RO view of an RW transaction leaves its parent as it was, however it ends |
| `Nesting.StepKeepsSound` | lmdb-safe.cc:194-219 | at each step, a level that is clean with all below it sees rightly indexed tables |
| `Nesting.CommittedIsIndexed` | lmdb-typed.hh:591-678 | if transactions in which an operation threw are aborted, the database is rightly indexed after every run |
| `Nesting.DirtyCommitBreaks` | lmdb-typed.hh:591-678 | a committed transaction of one operation leaves the database rightly indexed exactly if the operation neither threw nor overwrote with changed keys, or changed nothing |
| `CursorTable.OpenKeepsGood` | lmdb-safe.hh:327-332 | the registering constructor keeps ownership and registries right |
| `CursorTable.MoveKeepsGood` | lmdb-safe.hh:335-373 | a move keeps them right exactly when the target owns no handle, self-move included |
| `CursorTable.CloseKeepsGood` | lmdb-safe.hh:458-473 | close keeps them right, also for a cursor a drain has taken out of its registry |
| `CursorTable.CloseSwapped` | lmdb-safe.cc:257-262 | after the swap close finds nothing to erase, so the walk is not disturbed |
| `CursorTable.DrainEmpties` | lmdb-safe.cc:255-263 | a drain empties the registry and every cursor in it, closes their handles in order, and touches nothing else |
| `CursorTable.EndDrains` | lmdb-safe.cc:194-219 | at the end of a transaction both registries' cursors are empty and closed, all before LMDB ends it, others untouched |
| `CursorTable.OpenHappens` | lmdb-safe.hh:327-332 | an open gives the cursor a new handle and the last place in the registry, and touches nothing else |
| `CursorTable.MoveHappens` | lmdb-safe.hh:335-373 | a move onto an empty or new cursor hands over handle and place, leaves the source empty, and touches nothing else |
| `CursorTable.CloseHappens` | lmdb-safe.hh:458-473 | a close takes the cursor out of its registry and closes its handle, or does nothing, and touches nothing else |
| `CursorTable.DrainHappens` | lmdb-safe.cc:255-263 | a drain as an act of a client empties the registry and closes exactly its cursors, in its order |
| `Cursors.World.SwapAway` | lmdb-safe.cc:258-259 | the registry is empty, its cursors still own their handles, and everything else is as before |
| `CursorTable.PerformKeepsGood` | lmdb-safe.hh:327-373 | a client act keeps: one owner per open handle, that owner in its registry exactly once, nothing else there, no handle closed twice; exactly unless it moves onto a cursor that owns a handle |
| `CursorTable.RunKeepsGood` | lmdb-safe.hh:327-373 | over any run of acts: right at every step if and only if no move goes onto a cursor that owns a handle |
| `CursorTable.MoveOntoLiveLeaks` | lmdb-safe.hh:365-373 | after a move onto a cursor that owns a handle that handle is never closed, whatever follows |
| `CursorTable.TakenIsClosedAtEnd` | lmdb-safe.cc:194-219 | a cursor opened on either registry of a transaction, of either kind, whatever else happens, has its handle closed exactly once, before LMDB ends that transaction |
| `CursorTable.NoneLeaks` | lmdb-safe.hh:458-473 | when no registry lists a cursor any more, every handle ever opened was closed exactly once |
| `Cursors.World.CloseCursors` | lmdb-safe.cc:255-263 | the swap and the loop have the effect of a drain on the ownership table |
| `Cursors.Cursor.constructor` | lmdb-safe.hh:320-325 | an empty cursor |
| `Cursors.Cursor.Open` | lmdb-safe.hh:327-332 | a new handle, owned and registered at the end of the registry |
| `Cursors.Cursor.TakePlace` | lmdb-safe.hh:335-349 | this cursor stands in the registry where the source stood, or at the end |
| `Cursors.Cursor.Move` | lmdb-safe.hh:354-361 | the new cursor takes handle and place, the source is empty |
| `Cursors.Cursor.MoveAssign` | lmdb-safe.hh:365-373 | the target takes handle and place, the source is empty; ownership stays right exactly when the target owned no handle; a cursor moved to itself is emptied |
| `Cursors.Cursor.Close` | lmdb-safe.hh:458-473 | out of the registry, handle closed, cursor empty |
| `Transactions.Env.IncROTX` | lmdb-safe.cc:46-50 | this thread's RO count goes up by one, no other changes |
| `Transactions.Env.DecROTX` | lmdb-safe.cc:52-56 | this thread's RO count goes down by one, no other changes |
| `Transactions.Env.IncRWTX` | lmdb-safe.cc:58-62 | this thread's RW count goes up by one, no other changes |
| `Transactions.Env.DecRWTX` | lmdb-safe.cc:64-68 | this thread's RW count goes down by one, no other changes |
| `Transactions.Env.OpenTransaction` | lmdb-safe.cc:162-182 | for RW and, by the same loop, RO (229-253): refused exactly beside a transaction of this thread that excludes it; begun exactly when LMDB begins it at one of three attempts with a resized map at each earlier one, adopted each time; the matching count goes up exactly then |
| `Transactions.NothingAfterEnd` | lmdb-safe.cc:194-219 | once d_txn is null nothing more is told to LMDB and no counter moves |
| `Transactions.OneEndPerLifetime` | lmdb-safe.cc:189-297 | what the bodies of commit, abort and the destructors do to d_txn makes any calls, then destruction, one LMDB end and one decrement of the own counter; without a call an RW transaction is aborted |
| `Transactions.Transaction.OpenChild` | lmdb-safe.cc:323-337 | a child, also one handed out as RO view, is an RW object on the same thread and counts as one; a refused child changes no counter, cursor or registry |
| `Transactions.Transaction.EndBase` | lmdb-safe.cc:277-297 | RO commit and abort: cursors drained, then the end, the RO counter down once |
| `Transactions.Transaction.CloseRORWCursors` | lmdb-safe.hh:503-506 | both registries drained, one after the other |
| `Transactions.Transaction.EndDerived` | lmdb-safe.cc:194-219 | RW commit and abort: both registries drained, then the end, the RW counter down once |
| `Transactions.Transaction.End` | lmdb-safe.cc:189-297 | commit, abort or destruction by dynamic type, also through a base pointer |
| `Transactions.Transaction.LiveOut` | lmdb-safe.cc:189-297 | a whole life: its cursors closed, then one end, and only the counter of its kind, of its own thread, down by one |
| `Threads.NextIsGood` | lmdb-safe.cc:46-79 | every step of a thread keeps its counters, its locks and its position consistent, and takes only free locks |
| `Threads.StepKeepsInv` | lmdb-safe.cc:46-79 | no step of one thread disturbs another thread's counters or locks |
| `Threads.CountersAreRight` | lmdb-safe.cc:46-79 | in every interleaving: never both kinds at once, counts equal live transactions up to the step between an LMDB call and its count, nobody waits for the writer lock it holds |
| `Threads.OneDbiOpenAtATime` | lmdb-safe.cc:131-153 | at most one thread is between mdb_dbi_open inside openDB, whether it succeeds or not, and the end of that transaction |
| `Threads.CycleIsEmbrace` | lmdb-safe.cc:131-153 | waits form a cycle if and only if a thread with an RW transaction waits for d_openmut while its holder waits for the writer lock |
| `Threads.RuleForbidsCycles` | lmdb-safe.cc:131-153 | if no thread calls openDB while holding an RW transaction, no run reaches a cycle of waits |
| `Threads.NobodyIsStuck` | lmdb-safe.cc:131-153 | then the waits of any thread lead in at most three steps to one that waits for nobody, inside a call or in user code with an RW transaction of its own |
| `Threads.RuleKeepsMoving` | lmdb-safe.cc:131-153 | the same after every run that keeps the rule |
| `Threads.CallsGoOn` | lmdb-safe.cc:131-297 | a thread in a call that waits for nobody comes nearer to its end with each own step, whatever LMDB answers; steps of others do not set it back |
| `Threads.CallReturns` | lmdb-safe.cc:131-297 | begin, child, end and openDB, unhindered, are over after at most 13 steps with exactly their effect on the transactions and counts of the thread; d_countmutex and d_openmut are free again, and openDB leaves no trace |
| `Threads.BreakingTheRuleDeadlocks` | lmdb-safe.cc:131-153 | without that rule a run of two threads reaches one |

## Left out

- Queries.Collect: the iterator's tables do not change while it is used; iterators over tables that are written meanwhile are not modelled.
- IndexIter.Iter.GenOperator: starts from an iterator that is not at the end; ++ past the end is not modelled.
- Transactions.Transaction.End: commit of the LMDB transaction succeeds, and the object ends on the thread that opened it; otherwise the counters are outside their protocol.
- Nesting.StepReplays: a parent is ended only after its children; ending a parent with a live child is not modelled.
- Threads.StepKeepsInv: the retries after a resized map are one step here; they are modelled in Transactions.Env.OpenTransaction.
- Queries.GenFind: find, lower_bound, equal_range and prefix_range share one method, as their bodies differ only in the cursor operation and the iterator's range.
- `getMDBEnv`, the process-wide registry of environments: its `stat` is outside its lock, so its claim needs assumptions about the file system.
- `iter_t::del`: it deletes one raw entry and does not maintain the indexes.
- Iterators over the main table, and filters on them (the value such a filter is given is never filled): no key order of their own, so they would add an easy case.
- Putting, getting or iterating through a transaction that has ended: the wrapper's checks for a null transaction.
- `MDBRWTransactionImpl::clear` (mdb_drop) and the plain get and put of lmdb-safe on user tables.
- Conversions of values other than uint32_t and byte strings, and zero-copy views: values are byte sequences.
- Boost serialization: any pair of functions that round-trips; keyConv of other arithmetic types is any function to bytes.
- LMDB's pages, map size, files, full maps and cross-process locks.
- The example programs' main functions and printing.
