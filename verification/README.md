# Verified models of the browser engine's stateful cores

This Dafny project models the parts of the engine whose correctness rests on
state, order or arithmetic, and proves what they are for.

The main part is the IndexedDB engine (`crates/pool/src/idb.rs`), in layers that
rest on each other:

- `Bytes`, `Doubles`, `Keys`, `KeyCodec`: keys, their order, and the byte encoding
  they are stored in. Doubles are 64-bit patterns. `KeyOrder`: the order and ranges
  in the standard's words.
- `Ranges`, `SortedSets`: key ranges, their translation to index entries, sorted sets.
- `Values`, `Injection`: stored values as trees, key paths, generated keys put into values.
  `ValueKeys`: which keys a value has, and which an index takes from it.
- `Engine`, `Operations`, `Schema`: the data by id, every operation, its undo log.
- `Spec`: the database as the standard has it, by name, with indexes that are only
  views of the records. The engine refines it. `Puts`, `Changes`: what puts, deletions
  and schema changes do to it.
- `Transactions`, `Isolation`, `Guarantees`, `UniqueIndexes`: interleaved transactions
  over whole runs. `Endings`: the same under the locks, where ending a transaction takes two.
- `Cursors`, `CursorEngine`, `Reads`: cursors in four directions, reads and counts.
  `CursorTargets`, `Found`: where cursors land and what reads find, record by record.
- `Slots`, `StoreMethods`, `StoreVectors`, `Database`: the engine as it updates its
  vectors in place, every method proved against the layers above.

The other parts stand alone:

- `HintTable` (on `Powers`): the header map of `crates/net/src/client_hints.rs`, an
  open-addressing table with triangular probing. `HintStore`: the hints an origin asked for.
- `Wildcard`: the URL patterns of `crates/cdp/src/server.rs`.
- `Json`, `DomTree`, `DomText`, `DomScripts`, `DomSerializer`, `DomPage`: the JSON
  writer of parsed documents in `crates/dom/src/lib.rs`. `DomLaws`: what is written of
  each kind of node. `Texts`: trimming and lower case.
- `Pools`, `PoolMethods`: the worker pool of `crates/pool/src/lib.rs`.
- `KeyedLists`, `ImportMaps`: `crates/core/src/importmap.rs`. `ImportLaws`: matching and
  parsing in the words of the HTML Standard.
- `Canvas`: pixel copies of `crates/pool/src/canvas.rs`.

`dafny verify dfyconfig.toml` checks everything.

## Where the code differs from what is said of it

- The error for a used-up key generator (section 2.11 of Indexed Database API 3.0,
  idb.rs:1165) never comes: `2^53 + 1` is no double, so the generator stays at `2^53`
  and hands it out again (`Guarantees.GeneratorGetsStuck`).
- `end` lets go of the transaction table (idb.rs:760) before it locks the data to play the
  log back (idb.rs:765). Between the two `begin` admits a transaction on the same stores,
  although an aborted transaction is to leave no trace (idb.rs:6-7): a reader then sees a
  store change under it, and a committed write of the newcomer can be rolled back. Where
  nobody overtakes a rollback in this way isolation holds (`Endings.OrderlyRunsAreIsolated`), and for
  every writer and every transaction that conflicts with it there is a run in which
  overtaking loses it (`Endings.OvertakingBreaks`).
- Two concurrent steps can undo a pinned worker id: the lookup and the count of
  `register_context` are separate, and a drain between them gives the slot to another
  worker (`Pools.RaceLosesPin`). `Pools.PinsHold` says exactly when an id holds.
- Merging import maps is not associative when one map has two scopes that resolve to one
  prefix and the second one says something new (`ImportMaps.MergeAssociativeExactly`).
  An import of that key then resolves differently, whatever the URLs
  (`ImportMaps.ResolveNotices`), and three documents that parse to such maps are easily
  written: two scope keys that join to one prefix (`ImportMaps.ParsedMapsDiffer`).
- `index_bounds` turns one range that a store accepts into one that makes the BTree panic,
  a single key excluded below and included above (`Ranges.HalfOpenPointPanics`).
  `IDBKeyRange.bound` rejects that range (crates/stealth/src/indexeddb.js:138-139).
- The comment at importmap.rs:10 says the longest key comes first. The list is sorted in
  descending order of its keys, which is not by length; for the keys that apply to one
  specifier it comes to the same (`ImportMaps.LongestKeyWins`).
- The comment at canvas.rs:773 says `draw_image` is source-over. The code replaces the
  pixels, transparent ones included. For a pixel the two agree exactly when the old alpha
  times the new transparency is at most 127, so that nothing would show through
  (`Canvas.ReplaceIsOver`, for a whole picture `Canvas.DrawIsSourceOver`); a transparent
  picture erases what it is drawn on (`Canvas.TransparentErases`).
- The comments at lib.rs:293-295 and lib.rs:326-327 of the pool promise a thread other than
  those to avoid, or the least loaded one where there is no choice (lib.rs:309-310). The
  code returns an id to avoid exactly when every other worker is busy and either a new
  worker is spawned into a drained slot that has such an id, or the pool is full and the
  first of its least loaded workers has (`Pools.AvoidIsKept`). So with two workers, loads
  1 and 2 and the first one to avoid, it returns the first (`Pools.FullPoolFallsBack`), and
  a drained worker's id can come back (`Pools.DrainedSlotReused`).

## Model

| member | source | states |
|---|---|---|
| Keys.OrderTheorem | crates/pool/src/idb.rs:46-109 | byte order of two encodings is the key order of section 2.4 (number < date < string < binary < array, arrays element by element); -0 and 0 encode alike, no other two keys do |
| Keys.CompareTransitive | crates/pool/src/idb.rs:28-37 | the key order is transitive through all five kinds and through nesting |
| KeyOrder.StringsByUnit | crates/pool/src/idb.rs:93-96 | one string is before another exactly when at the first difference it ends or has the smaller code unit |
| KeyOrder.ArraysByItem | crates/pool/src/idb.rs:101-107 | the same of arrays, whose items compare as keys |
| Keys.PrefixFree | crates/pool/src/idb.rs:63-109 | no key's encoding is a proper prefix of another's |
| Keys.SplitUnique | crates/pool/src/idb.rs:1289-1292 | an index entry, key then primary key, can be cut in one way only |
| Keys.EncodingsDecide | crates/pool/src/idb.rs:83-109 | whatever follows two different encodings, the order of the whole is the order of the encodings; after equal ones it is the order of what follows |
| Keys.RoundTrip | crates/pool/src/idb.rs:111-163 | decoding an encoding followed by anything gives the key, up to -0, and stops where it ended |
| Keys.SplitRecovers | crates/pool/src/idb.rs:165-169 | the length of the first encoding in an entry gives the key and the primary key back |
| KeyCodec.EncodeKey | crates/pool/src/idb.rs:77-109 | the buffer filled byte by byte holds the encoding |
| KeyCodec.DecodeKey | crates/pool/src/idb.rs:111-163 | the walk over the bytes decodes as the recursive decoder does, failures included |
| KeyCodec.SplitEntry | crates/pool/src/idb.rs:1289-1292 | cutting at the measured length is the split of the entry |
| Ranges.IndexBoundsExact | crates/pool/src/idb.rs:1265-1287 | an entry lies in the translated byte bounds exactly when its key lies in the key range, for open, closed and missing ends and any primary key |
| KeyOrder.LowerByKeys | crates/pool/src/idb.rs:1246-1263 | an encoded lower bound admits the keys from its own on in the order of keys, itself when closed |
| KeyOrder.UpperByKeys | crates/pool/src/idb.rs:1246-1263 | and an encoded upper bound those up to its own |
| Ranges.IndexBoundsPanic | crates/pool/src/idb.rs:1265-1287 | the translated bounds make the BTree panic exactly when the key range does or is one key excluded below and included above |
| Ranges.OrderedNeverPanics | crates/stealth/src/indexeddb.js:133-141 | no range the page can build makes a store or an index panic |
| Ranges.HalfOpenPointPanics | crates/pool/src/idb.rs:1265-1287 | a concrete range that a store accepts and an index does not |
| Ranges.TighterLowerMeets | crates/pool/src/idb.rs:1665-1673 | the tighter of two lower bounds admits what both admit |
| Ranges.TighterUpperMeets | crates/pool/src/idb.rs:1675-1683 | the tighter of two upper bounds admits what both admit |
| Ranges.BoundsEmptyIsExact | crates/pool/src/idb.rs:1685-1694 | bounds called empty hold nothing, and every range that would panic is called empty |
| Values.IndexKeysEncoded | crates/pool/src/idb.rs:366-392 | the index keys of a value are encodings of keys, ascending and each once; which keys they are is said by the next rows |
| ValueKeys.MultiEntryKeys | crates/pool/src/idb.rs:368-385 | a multi-entry index over an array has a key exactly when some own item of the array converts to it |
| ValueKeys.SingleEntryKeys | crates/pool/src/idb.rs:383-391 | in every other case an index has exactly the key that its key path yields, if any |
| ValueKeys.TagsAreFound | crates/pool/src/idb.rs:366-392 | so every item that is a key is in a multi-entry index, and a plain index over the same array has the whole array or nothing |
| ValueKeys.KeyAtPathExactly | crates/pool/src/idb.rs:342-364 | the key a path yields, for none, one and several paths; nothing, as opposed to no key, exactly for a path that leads nowhere |
| ValueKeys.KeyExactly | crates/pool/src/idb.rs:172-242 | a value converts to a key exactly when the key stands for it, nested arrays item by item, and has no NaN |
| ValueKeys.IndexIsDecimal | crates/pool/src/idb.rs:217-219 | the items of an array are at the decimals of their numbers, without leading zeros |
| ValueKeys.PathIsCut | crates/pool/src/idb.rs:318 | a path has exactly the parts without dots that joined by dots give it back |
| ValueKeys.PathsCompose | crates/pool/src/idb.rs:308-340 | a path leads where its end leads from where its beginning leads |
| ValueKeys.OnePart | crates/pool/src/idb.rs:318-338 | one part leads to a length, of strings and arrays, or to an own property, and nowhere else |
| Engine.ReplaceKeepsInv | crates/pool/src/idb.rs:775-797 | taking a record's entries out and putting another's in keeps every index equal to the entries of the records |
| Engine.ReplaceUndone | crates/pool/src/idb.rs:799-811 | playing a record's undo entry back restores records and every index |
| Operations.PutUnwinds | crates/pool/src/idb.rs:1149-1216 | a put keeps the index invariant and its log, played backwards, restores the store, generator included |
| Puts.PreparedExactly | crates/pool/src/idb.rs:1063-1127 | exactly which calls fail with DataError, and that what is let through carries the value as given, with its key when known |
| Puts.PutStoresValue | crates/pool/src/idb.rs:1161-1213 | under the key reported stands the value given; where a key is injected, one with that key at the key path and all other paths as they were |
| Puts.PutUnderKey | crates/pool/src/idb.rs:1149-1173 | the key reported is the one that came with the value, or the generator's number |
| Puts.DatabaseStoresValue | crates/pool/src/idb.rs:1135-1217 | the same of the database by name, with all other records of the store kept |
| Puts.PutRefusedExactly | crates/pool/src/idb.rs:1182-1204 | where unique indexes are unique, KeyExists exactly for a key that is there under noOverwrite, NotUnique exactly when storing anyway would give a unique index one key for two records |
| Puts.GeneratedIsNext | crates/pool/src/idb.rs:1164-1171 | a generated key takes one number, also when the put fails afterwards |
| Puts.SuccessiveNumbers | crates/pool/src/idb.rs:1164-1171 | n generated keys take n successive numbers |
| Puts.ExplicitMovesGenerator | crates/pool/src/idb.rs:1150-1162 | an explicit key moves the generator only as a number at or above it in a store with a generator, to the least whole number above, at most 2^53 |
| Operations.RemoveUnwinds | crates/pool/src/idb.rs:1432-1439 | a deletion of any number of records is undone by its log, one entry after the other |
| Operations.StoreOpUnwinds | crates/pool/src/idb.rs:1424-1439 | put, delete and clear: the invariant after, and the log as exact inverse |
| Changes.DeleteTakesRange | crates/pool/src/idb.rs:1432-1439 | a range deletion takes exactly the records with a key in the range |
| Changes.DeleteBetween | crates/pool/src/idb.rs:1432-1439 | between two keys those are the keys from the first up to, but not with, the second in the order of keys |
| Changes.RenameBack | crates/pool/src/idb.rs:916-923 | a store renamed and renamed back is the database as it was |
| Changes.CreateThenDelete | crates/pool/src/idb.rs:893-915 | so is one created and deleted |
| Changes.RenameIndexBack | crates/pool/src/idb.rs:981-991 | the same of an index renamed and renamed back |
| Changes.CreateThenDeleteIndex | crates/pool/src/idb.rs:924-980 | and of one created and deleted |
| Schema.OpUndoable | crates/pool/src/idb.rs:879-995 | every data and schema operation keeps the invariant and is exactly undone by the entries it logs |
| Schema.RollbackIsExact | crates/pool/src/idb.rs:756-856 | for any sequence of operations of a transaction, its log played backwards restores version, stores, records with their stored index keys, generators and indexes |
| Spec.ScanIsExact | crates/pool/src/idb.rs:1185-1201 | the scan of a unique index for entries starting with a key finds another primary key exactly when another record has that very index key |
| Spec.OpRefines | crates/pool/src/idb.rs:879-1217 | every operation changes records, schema and generator as the standard's database does, with the same outcome |
| Transactions.RollIsLocal | crates/pool/src/idb.rs:799-856 | playing back a read-write transaction's log changes no store outside its scope |
| Transactions.AdmitsExactly | crates/pool/src/idb.rs:733-746 | a transaction waits exactly for a version change, as a version change for any other, and for one that shares a store unless both read |
| Isolation.StepKeepsSafe | crates/pool/src/idb.rs:713-769 | begin, operation, commit and abort keep conflicting transactions apart and every live log able to undo its transaction among the others |
| Isolation.RunsAreIsolated | crates/pool/src/idb.rs:713-873 | after any interleaving the data is what the operations of the transactions not aborted give when run alone in that order; no two live transactions are one a version change, nor do two share a store unless both are readers |
| Guarantees.IndexIsView | crates/pool/src/idb.rs:775-797 | an index holds exactly the key and primary key pairs its definition takes from the records |
| Guarantees.HitHasRecord | crates/pool/src/idb.rs:1366-1397 | the primary key cut off any index entry names a record that has the index key, so no lookup of a hit fails |
| Guarantees.PutIsAllOrNothing | crates/pool/src/idb.rs:1149-1216 | a put that fails changes no record, no index and no definition anywhere, a generator at most |
| Guarantees.PutStoresOne | crates/pool/src/idb.rs:1149-1216 | a put that succeeds changes one record, new under noOverwrite, and no other; what it holds is said by Puts.PutStoresValue |
| Guarantees.GeneratedKeysAreFresh | crates/pool/src/idb.rs:1149-1171 | in every reachable state, across explicit keys, failed puts, deletes and aborts, a generated key is new while the generator is below 2^53 |
| Guarantees.SaturatedGeneratorRepeats | crates/pool/src/idb.rs:1164-1171 | at 2^53 the generator stays, and its next key is taken |
| Guarantees.GeneratorGetsStuck | crates/pool/src/idb.rs:1149-1184 | an allowed run from an empty database that ends with a generated key already present |
| UniqueIndexes.OpKeepsHonest | crates/pool/src/idb.rs:936-970 | where no unique index is bad, an operation makes one bad exactly when it is an index creation that reports ConstraintError |
| UniqueIndexes.CreationReports | crates/pool/src/idb.rs:936-970 | an index creation leaves its index with a shared key exactly when it reports so |
| UniqueIndexes.OpCovers | crates/pool/src/idb.rs:879-1217 | whatever indexes are bad already, followed by name through renames and deletions, no operation makes any other index bad |
| UniqueIndexes.UniqueIndexesStayUnique | crates/pool/src/idb.rs:936-1201 | in every reachable state a unique index with one key for two records is one whose own creation told its caller so and was not aborted, under the name it has now; every other unique index of every store is unique |
| UniqueIndexes.RunReplays | crates/pool/src/idb.rs:713-970 | what the callers of the surviving index creations were told is what the serial run says, whatever was aborted since |
| Guarantees.ReadsAreStable | crates/pool/src/idb.rs:725-736 | while a transaction is live, nobody else's step changes a store in its scope |
| Endings.TurnsAreSteps | crates/pool/src/idb.rs:713-873 | under the locks, a run in which nobody begins over stores still to be rolled back is a run of the transaction system, an abort happening when its log is played back |
| Endings.OrderlyRunsAreIsolated | crates/pool/src/idb.rs:713-873 | so in every such run, however the two halves of `end` fall among other calls, the data is serial and the index invariant holds |
| Endings.OrderlyReadsAreStable | crates/pool/src/idb.rs:713-873 | and while a transaction is in the table nobody else's turn changes a store in its scope |
| Endings.OvertakingBreaks | crates/pool/src/idb.rs:713-769 | for every writer and every transaction conflicting with it, a run in which the second begins between the halves of the first one's abort and reads or commits what the rollback then takes away |
| Cursors.AheadOfRow | crates/pool/src/idb.rs:1446-1565 | from any row on, exactly the later rows are ahead, in all four directions |
| Cursors.SkipIsSteps | crates/pool/src/idb.rs:1528-1563 | skipping n + 1 rows is one step and then skipping n |
| Cursors.IterateIsComplete | crates/pool/src/idb.rs:1446-1565 | stepping until there is none yields every row ahead once, in order |
| Cursors.RowsOfRange | crates/pool/src/idb.rs:1446-1565 | a fresh cursor visits every entry whose key is in the range, ascending or descending; the unique directions one entry per key, that of its lowest primary key |
| Cursors.FirstOfKey | crates/pool/src/idb.rs:1548-1557 | every key in an index has a lowest entry, so a unique cursor leaves no key out |
| CursorTargets.KeysFromTarget | crates/pool/src/idb.rs:1459-1480 | on a store, continue with a key leaves exactly the rows from the first one not before that key, in both directions |
| CursorTargets.ContinueLandsOnKey | crates/pool/src/idb.rs:1464-1476 | so it lands on the record of that key when there is one ahead |
| CursorTargets.RecordsOfRange | crates/pool/src/idb.rs:1459-1482 | a fresh cursor over a store visits every record in the range, ascending or descending |
| CursorTargets.AheadFromTarget | crates/pool/src/idb.rs:1484-1565 | on an index, a target leaves exactly the rows from the first one not before it, in four directions, with a primary key or without |
| CursorTargets.ContinueFrom | crates/pool/src/idb.rs:1446-1565 | the same for continue with a key on either kind of cursor |
| CursorEngine.BoundsAreExact | crates/pool/src/idb.rs:1484-1527 | position and target turned into byte bounds admit exactly the entries past the one and at the other |
| CursorEngine.Walk | crates/pool/src/idb.rs:1533-1564 | the pass with its skip counter and last key lands on the row that so many others precede |
| CursorEngine.IndexCursorNext | crates/pool/src/idb.rs:1484-1565 | the step on an index is the cursor step, and no range it builds panics |
| CursorEngine.StoreCursorNext | crates/pool/src/idb.rs:1459-1483 | the step on a store lands on the record key that so many eligible ones precede |
| Reads.HitsAreSorted | crates/pool/src/idb.rs:1366-1397 | index hits come by key and then by primary key, in the order of section 2.4 |
| Found.GetIsLookup | crates/pool/src/idb.rs:1331-1351 | get finds the record of the key, or nothing |
| Found.StoreReadFindsAll | crates/pool/src/idb.rs:1331-1359 | an unlimited read of a store finds each record in the range once, in order or in reverse |
| Found.IndexReadFindsAll | crates/pool/src/idb.rs:1361-1386 | an unlimited read of an index finds each record once under each key the index takes from it, with its own value, and nothing else |
| Found.IndexReadInOrder | crates/pool/src/idb.rs:1366-1386 | its hits come in the order of their entries, or in reverse |
| Found.ElementIsFound | crates/pool/src/idb.rs:366-392 | a record is found under every item of an array that a multi-entry index is on |
| Found.LimitCuts | crates/pool/src/idb.rs:1311-1315 | limit 0 cuts nothing, any other the rows beyond it |
| Reads.ReadRow | crates/pool/src/idb.rs:1331-1386 | at most the asked number of hits, in either direction, each with the record of its primary key, as the standard's store has them |
| Reads.CountRow | crates/pool/src/idb.rs:1341-1379 | the number of records or derived index entries in the range |
| Reads.CollectRows | crates/pool/src/idb.rs:1622-1648 | the prefetched rows are the rows ahead after the skipped ones, none missed and none repeated |
| Injection.KeyValueRoundTrip | crates/pool/src/idb.rs:251-267 | a key turned into a value is read as that key again, nested arrays included |
| Injection.WalkPath | crates/pool/src/idb.rs:308-340 | the walk along a path yields what the path means |
| Injection.WalkCanInject | crates/pool/src/idb.rs:1018-1033 | the check walks to the first missing property or the last object |
| Injection.WalkInject | crates/pool/src/idb.rs:1036-1056 | the walk that makes missing objects succeeds exactly when the check said so, and leaves the injected value |
| Injection.InjectedIsFound | crates/pool/src/idb.rs:1018-1056 | where a path yields nothing, injecting makes it yield the value exactly when the check said it could, and otherwise changes nothing |
| Injection.OtherPathsKept | crates/pool/src/idb.rs:1036-1056 | a path that neither extends nor is a prefix of the injected one yields what it did, exactly when it is not the length of an array the injection lengthens |
| Injection.InjectionIsLocal | crates/stealth/src/indexeddb.js:73-75 | for every key path an object store can have, no other path notices the injection |
| Injection.IndexPathLengthens | crates/pool/src/idb.rs:1036-1056 | outside those key paths the length of an array can change |
| Injection.WrittenUnderOwnKey | crates/pool/src/idb.rs:1084-1217 | the value a put writes has at the store's key path the key it is written under |
| Injection.RecordsUnderOwnKeys | crates/pool/src/idb.rs:1058-1217 | in every reachable state the records of a store with a key path sit under the keys their values have there |
| StoreMethods.ReplaceRecord | crates/pool/src/idb.rs:775-811 | the loops over a record's keys and the indexes do what replacing a record means |
| StoreMethods.UniqueClash | crates/pool/src/idb.rs:1187-1201 | the scan that stops at the first entry not starting with the key finds a clash exactly when there is one |
| StoreMethods.PutRow | crates/pool/src/idb.rs:1149-1216 | generator, checks and writes in the code's order give the put's effect; on an error the row is as before but for the generator |
| StoreMethods.DeleteRow | crates/pool/src/idb.rs:1432-1439 | the collected keys removed one by one, with the log in that order |
| StoreMethods.ClearRow | crates/pool/src/idb.rs:1424-1431 | records taken out at once, every index emptied, one undo entry |
| StoreMethods.BuildIndex | crates/pool/src/idb.rs:940-966 | the entries of a new index, and a duplicate found exactly when two records share a key |
| StoreMethods.RollRow | crates/pool/src/idb.rs:799-856 | one undo entry played back on a row of the vector |
| StoreVectors.RollbackLog | crates/pool/src/idb.rs:765-768 | the log played last entry first, whatever order the vectors end up in |
| StoreVectors.DataOp | crates/pool/src/idb.rs:480-487 | a data operation on the first store of a name |
| StoreVectors.SchemaOp | crates/pool/src/idb.rs:879-995 | a version-change operation on the store vector, with its log |
| Database.Database.constructor | crates/pool/src/idb.rs:520-527 | a new database is where an empty history leads |
| Database.Database.Begin | crates/pool/src/idb.rs:713-752 | 0 exactly when a transaction in the table is a version change, or any is there beside a new version change, or one shares a store with the new one and they are not both readers; the object stays on an isolated run exactly when no pending rollback is overtaken |
| Database.Database.ReleaseTx | crates/pool/src/idb.rs:756-764 | out of the table, with the log when there is something to play back |
| Database.Database.PlayBackLog | crates/pool/src/idb.rs:765-769 | the log played back on the vectors, whatever ran since the release |
| Database.Database.End | crates/pool/src/idb.rs:756-769 | both halves with nothing between: one step of the run that RunsAreIsolated speaks of |
| Database.Database.StorePut | crates/pool/src/idb.rs:1135-1217 | a put is one turn of the run, with the outcome of the specification; the record under the key reported holds the value given, all others as before; a failed put moves generators at most |
| Database.Database.DeleteRecords | crates/pool/src/idb.rs:1412-1440 | a range or everything deleted, one turn of the run |
| Database.Database.ChangeSchema | crates/pool/src/idb.rs:879-995 | a schema change is one turn of the run, with its outcome |
| Database.Database.Read | crates/pool/src/idb.rs:1301-1409 | what is read is what the standard's database holds, and the errors come exactly when transaction, store or index is gone; without a limit an index yields every record under every key it takes from it |
| Database.Database.CountRecords | crates/pool/src/idb.rs:1341-1379 | the count is that of the standard's database |
| Database.Database.Cursor | crates/pool/src/idb.rs:1580-1663 | the prefetched rows of the standard's database, 1 to 1024 of them |
| HintTable.TrianglesDistinct | crates/net/src/client_hints.rs:307-316 | the first 2^k triangular numbers differ modulo 2^k |
| HintTable.EverySlotProbed | crates/net/src/client_hints.rs:307-316 | as many probes as there are slots visit every slot |
| HintTable.Place | crates/net/src/client_hints.rs:307-316 | the loop ends, in the first free slot on the name's way, and changes no other slot |
| HintTable.PlaceKeepsReachable | crates/net/src/client_hints.rs:307-316 | after a placement probing still finds every name |
| HintTable.Grow | crates/net/src/client_hints.rs:328-334 | the doubled table, filled in slot order, holds the same names |
| HintTable.BlinkMapOrder | crates/net/src/client_hints.rs:318-338 | whatever the hash, the result is every distinct name once, in the slot order of the table the insertions make, which has 8 slots or more, a power of two, over twice the names and, past 8, at most four times |
| HintTable.CollisionsKeepOrder | crates/net/src/client_hints.rs:307-338 | four names of hash 0 keep their order through the growth that the fourth causes |
| HintStore.Parse | crates/net/src/client_hints.rs:112-123 | the header's parts folded in order |
| HintStore.PartsJoin | crates/net/src/client_hints.rs:112-123 | a header is cut at its commas and at nothing else |
| HintStore.ParseIsHints | crates/net/src/client_hints.rs:105-123 | exactly the known hints among the parts, beyond those always sent, each once |
| HintStore.JoinRoundTrip | crates/net/src/client_hints.rs:180-186 | hints joined with commas are parsed back as they were |
| HintStore.Store.Set | crates/net/src/client_hints.rs:188-198 | an origin's hints replaced by any list, or forgotten with an empty one; lists that headers give stay such |
| HintStore.Store.Restore | crates/net/src/client_hints.rs:180-186 | every saved origin parsed again, the others untouched |
| HintStore.SaveAndRestore | crates/net/src/client_hints.rs:172-186 | a snapshot restored into a new store gives every origin its hints back exactly when all of them are such as headers give |
| Wildcard.FromIsMeaning | crates/cdp/src/server.rs:2880-2883 | matching by recursion is cutting the text into one piece per token |
| Wildcard.MeansStar | crates/cdp/src/server.rs:2889-2894 | a star stands for any run of characters, in front of any pattern |
| Wildcard.MeansOneCharacter | crates/cdp/src/server.rs:2895-2900 | a question mark stands for exactly one character |
| Wildcard.MeansLiteral | crates/cdp/src/server.rs:2895-2900 | any other character, and one after a backslash, stands for itself |
| Wildcard.MeansLastBackslash | crates/cdp/src/server.rs:2895-2900 | a backslash alone stands for itself |
| Wildcard.EarliestIsEnough | crates/cdp/src/server.rs:2889-2894 | remembering only the last star loses nothing: an earlier star need not be tried again |
| Wildcard.WildcardMatch | crates/cdp/src/server.rs:2883-2916 | the loop ends and returns true exactly when the text can be cut to fit the pattern |
| Wildcard.EscapedMeansItself | crates/cdp/src/server.rs:2880-2882 | a text with its special characters escaped matches itself only |
| Wildcard.FromParams | crates/cdp/src/server.rs:2855-2873 | the request-stage patterns, with the defaults for what is missing |
| Wildcard.Pauses | crates/cdp/src/server.rs:2875-2878 | every request without patterns, otherwise those that some pattern of the right type means |
| Wildcard.DefaultPausesAll | crates/cdp/src/server.rs:2855-2868 | the default URL pattern matches every URL |
| Json.TextRoundTrip | crates/dom/src/lib.rs:187-212 | parsing the compact text of a value gives the value back (RFC 8259, strings by section 7) |
| DomTree.TreeRoundTrip | crates/dom/src/lib.rs:289-362 | the JSON of a tree determines the tree |
| DomText.OneMoreNode | crates/dom/src/lib.rs:366-380 | a comma goes before all but the first node that has something to say |
| DomText.ElementText | crates/dom/src/lib.rs:289-331 | the literals and pieces written for an element make the text of its JSON |
| DomSerializer.PushJsonStr | crates/dom/src/lib.rs:187-212 | copying unescaped runs whole writes the JSON string |
| DomSerializer.SerializeComment | crates/dom/src/lib.rs:382-398 | a comment, or the processing instruction between two NULs |
| DomLaws.CommentKept | crates/dom/src/lib.rs:382-398 | a comment is an instruction exactly when it is NUL, target, NUL, data with no NUL in the target |
| DomLaws.ElementKept | crates/dom/src/lib.rs:289-362 | what is kept of an element: name, foreign namespace, every attribute in place, children or template contents |
| DomLaws.NothingDropped | crates/dom/src/lib.rs:366-380 | a list without documents and instruction nodes is kept whole, in order |
| Json.TextSpelled | crates/dom/src/lib.rs:187-212 | brackets, braces, commas and colons of the text, without white space |
| Json.EscapesSpelled | crates/dom/src/lib.rs:187-212 | exactly quotes, backslashes and control characters are escaped, the short way where there is one |
| DomSerializer.Serialize | crates/dom/src/lib.rs:217-363 | appends the text of the kept tree or nothing, and logs the node's scripts in order |
| DomSerializer.SerializeChildren | crates/dom/src/lib.rs:366-380 | appends the kept children with the right commas despite what is truncated |
| DomPage.SerializeDocument | crates/dom/src/lib.rs:149-172 | the first element is the root, what stands before and after it are lists, and the script lists are those of the whole document |
| DomPage.NodeReadsBack | crates/dom/src/lib.rs:217-363 | parsing what is written for a node gives exactly the tree with dropped nodes left out |
| DomPage.ListReadsBack | crates/dom/src/lib.rs:149-172 | parsing a written list gives exactly the trees of the kept nodes, in order |
| DomPage.PageReadsBack | crates/dom/src/lib.rs:149-172 | the three texts of a page, parsed, hold the trees of the document's kept children in order |
| DomPage.TagsOfNodes | crates/dom/src/lib.rs:217-363 | the script elements the serializer meets are the script tags of the written trees, in preorder |
| DomPage.ScriptsMatchElements | crates/dom/src/lib.rs:149-288 | one script and one mode for every script tag in the text read back, in the order of the tags, each from the element its tag was written for; inline code is the text in the tag |
| DomScripts.ModeExactly | crates/dom/src/lib.rs:234-250 | when a script runs on arrival, after parsing or at once, from its type, source, async and defer |
| DomScripts.ScriptExactly | crates/dom/src/lib.rs:259-288 | which script elements are import maps, skipped, modules and classic scripts, external and inline |
| DomPage.FirstBaseHref | crates/dom/src/lib.rs:108-126 | the explicit stack finds the first base in tree order |
| DomLaws.FirstBaseInOrder | crates/dom/src/lib.rs:108-126 | that is the address of the first node, of all nodes in tree order, that is a base with one |
| Pools.PoolStaysSafe | crates/pool/src/lib.rs:137-217 | in every state of every interleaving there are 1 to max workers, slot i holds worker i, and each counter is the number of guards on it |
| Pools.DrainedIsIdle | crates/pool/src/lib.rs:191-217 | a worker that is closed has no guard on its counter |
| Pools.PickIsLeastLoaded | crates/pool/src/lib.rs:272-291 | a pick names a live worker no busier than any other, and a busy one only in a full pool |
| Pools.PickExactly | crates/pool/src/lib.rs:272-291 | a pick takes the first least loaded worker when it is idle or the pool is full, and spawns one otherwise |
| Pools.AvoidExactly | crates/pool/src/lib.rs:293-324 | a pick that avoids ids takes the first least loaded of the others when it is idle, else spawns a worker while there is room, else takes the first least loaded of all |
| Pools.DrainExactly | crates/pool/src/lib.rs:191-217 | a worker is closed exactly when no guard counts on it and another lives |
| Pools.AvoidIsKept | crates/pool/src/lib.rs:293-324 | an id to avoid is returned exactly when every other worker is busy and the slot to spawn into has such an id, or, in a full pool, the first least loaded worker has |
| Pools.FullPoolFallsBack | crates/pool/src/lib.rs:304-318 | a run of a full pool that returns the id to avoid although another worker is live |
| Pools.DrainedSlotReused | crates/pool/src/lib.rs:304-318 | a run in which a new worker gets the id to avoid |
| Pools.PinsHold | crates/pool/src/lib.rs:349-367 | a guard's id names the worker it counts on exactly when no drain closed a worker of that id between the guard's lookup and its count |
| Pools.PinnedIdsHold | crates/pool/src/lib.rs:349-367 | with registration in one step a pinned id names the same worker for as long as its guard lives |
| Pools.RaceLosesPin | crates/pool/src/lib.rs:349-367 | a run in which an id comes to name another worker under a live guard |
| PoolMethods.IsolatePool.PickWorker | crates/pool/src/lib.rs:272-291 | the search and spawn loops are one step of the transition system |
| PoolMethods.IsolatePool.PickWorkerAvoiding | crates/pool/src/lib.rs:293-324 | the same among workers not avoided, with the fallback |
| PoolMethods.IsolatePool.SpawnWorker | crates/pool/src/lib.rs:134-181 | the first drained slot is reused, or the vector grows |
| PoolMethods.IsolatePool.RegisterContext | crates/pool/src/lib.rs:349-367 | lookup and count with nothing in between |
| PoolMethods.IsolatePool.Dispatch | crates/pool/src/lib.rs:369-388 | a job for a drained id goes nowhere, and a context's job goes to the worker its guard counts on unless the pin was lost |
| PoolMethods.IsolatePool.MaybeDrain | crates/pool/src/lib.rs:191-217 | an idle worker's slot is emptied while another is live |
| PoolMethods.IsolatePool.DropGuard | crates/pool/src/lib.rs:447-454 | the count goes down, and the slot is looked at exactly when the guard was the last on its counter |
| KeyedLists.SameGroups | crates/core/src/importmap.rs:26-28 | a list in descending key order is determined by the values of each key |
| KeyedLists.GroupSorted | crates/core/src/importmap.rs:26-28 | the sort is stable: every key keeps its values in order |
| ImportMaps.SpecifierMap | crates/core/src/importmap.rs:30-46 | the members in descending key order; a prefix maps to a prefix or to an error |
| ImportLaws.MembersExactly | crates/core/src/importmap.rs:30-46 | the entries are exactly those of the members with a key: its URL if it is one, and the address or an error |
| ImportLaws.ScopesExactly | crates/core/src/importmap.rs:56-61 | the scopes are exactly those of the members whose prefix joins the base and whose value is an object |
| ImportLaws.PathsAreJoined | crates/core/src/importmap.rs:19-24 | specifiers that start like a path are joined to the base, all others parsed alone |
| ImportMaps.ParseMap | crates/core/src/importmap.rs:50-64 | no map for a base that is no URL, malformed JSON or a value that is no object; otherwise imports and scopes in descending key order |
| ImportMaps.MatchIn | crates/core/src/importmap.rs:91-106 | the loop gives the answer of the first entry that applies |
| ImportMaps.LongestKeyWins | crates/core/src/importmap.rs:91-106 | in an ordered list that is the longest key that applies, and there is none exactly when no key applies |
| ImportLaws.LongestFitWins | crates/core/src/importmap.rs:91-105 | the answer is that of the longest key that is the specifier or a slash-ended prefix of it, prefixes not for URLs of other schemes |
| ImportLaws.AnswerExactly | crates/core/src/importmap.rs:93-102 | an entry gives its address, or the rest joined to it as long as that stays below it |
| ImportMaps.ResolveSpecifier | crates/core/src/importmap.rs:110-128 | scopes, imports and the URL itself tried in the code's order |
| ImportMaps.LongestScopeWins | crates/core/src/importmap.rs:110-128 | the scope with the longest prefix among those that know the specifier decides, and without one the imports |
| ImportLaws.UnmappedIsUrl | crates/core/src/importmap.rs:110-128 | without a map, or with one in which nothing fits, an import loads its URL |
| ImportMaps.MergeMaps | crates/core/src/importmap.rs:67-88 | the push-and-sort loops give the merge |
| ImportMaps.MergeIsLeftBiased | crates/core/src/importmap.rs:67-88 | imports are a left-biased union; the scopes of a prefix all join the earlier map's first one |
| ImportMaps.MergeKeepsOrder | crates/core/src/importmap.rs:67-88 | every level stays in order |
| ImportMaps.MergeAssociative | crates/core/src/importmap.rs:67-88 | merging three maps either way gives the same map, when the middle one says nothing new in a second scope of a prefix |
| ImportMaps.MergeAssociativeExactly | crates/core/src/importmap.rs:67-88 | that condition is exact: a map that fails it is merged differently with some other two |
| ImportMaps.ResolveIgnoresGrouping | crates/core/src/importmap.rs:67-128 | under that condition no import depends on how three maps were grouped |
| ImportMaps.ResolveNotices | crates/core/src/importmap.rs:67-128 | without it, for all URLs and any other address in the third map, an import from that prefix resolves to the middle map's address or to the third's, by the grouping |
| ImportMaps.ParsedMapsDiffer | crates/core/src/importmap.rs:50-128 | three documents, one with two scope keys that join to one prefix, whose parsed maps show this |
| Canvas.OverFits | crates/pool/src/canvas.rs:903-913 | source-over of premultiplied pixels never exceeds a byte nor sixteen bits, so the clamp does nothing |
| Canvas.Composite | crates/pool/src/canvas.rs:899-914 | the written pixel is source-over and premultiplied; the fallback to the old pixel is never taken |
| Canvas.OverNearest | crates/pool/src/canvas.rs:903-913 | each channel written is the source's plus the nearest whole number to the old one's part that shows through |
| Canvas.PremultipliedNearest | crates/pool/src/canvas.rs:808-817 | each colour written is the nearest whole number to that colour times its alpha |
| Canvas.NearestIsFloor | crates/pool/src/canvas.rs:888-894 | the source column and row of a place are its own scaled to the source's side and rounded down |
| Canvas.SourceIsNearest | crates/pool/src/canvas.rs:883-898 | which source place is shown where, and that nothing is shown off the source |
| Canvas.EnlargedInBlocks | crates/pool/src/canvas.rs:883-898 | enlarged k by l times, every source pixel is shown as a block of that size |
| Canvas.CopyRow | crates/pool/src/canvas.rs:888-915 | the inner loop copies the targeted pixels of a row, every index in range |
| Canvas.Blit | crates/pool/src/canvas.rs:831-919 | every targeted pixel in bounds is source-over of its nearest source pixel, every other one unchanged, and the canvas stays premultiplied |
| Canvas.DrawImage | crates/pool/src/canvas.rs:775-822 | every targeted pixel in bounds is its nearest source pixel premultiplied, every other one unchanged |
| Canvas.ReplaceIsOver | crates/pool/src/canvas.rs:808-817 | replacing a pixel is source-over exactly when the old alpha times the new transparency is at most 127 |
| Canvas.DrawIsSourceOver | crates/pool/src/canvas.rs:771-822 | a picture drawn is the picture drawn source-over exactly when this holds at every place it covers |
| Canvas.TransparentErases | crates/pool/src/canvas.rs:771-822 | a transparent picture on an opaque canvas, where the two differ |
| Canvas.OwnSizeIsExact | crates/pool/src/canvas.rs:883-898 | drawn at its own size, a picture is copied place for place |

## Left out

IndexedDB engine:

- The V8 side: argument decoding, exceptions, partitions, tickets, the bytes of a structured clone. Stored values are trees; sharing and cycles inside a value, and what serializing again drops from dates and buffers, are not modelled.
- Injection.WalkInject: changes a tree by plugging the changed part back in, where the code changes one object in place; with no sharing inside a value the result is the same.
- Database.Database.StorePut: that the store is in the transaction's scope, the mode allows writing and names are unique is required of the caller, as the page-facing objects check it (idb.rs:3-7). NotUnique does not carry the index name. Transaction ids count per database, where the code counts over all of them.
- Database.Database.DeleteRecords: requires a range on which the BTree does not panic, as the page-facing objects guarantee.
- Wrap-around of `next_id`, of the version and of transaction ids is not modelled.
- A record's index keys are a map by index id, where the code has a vector whose order nothing observes; nested stores and indexes are replaced in their vector instead of changed through a reference; the order of the indexes in a store that an abort brings back is arbitrary.

Other parts:

- HintTable.BlinkMapOrder: the hash is a parameter, so `rapidhash` and the captured header orders are not part of it.
- HintStore.Store.Restore: goes through the saved origins in any order, as a hash map does; the lock and header values are left out.
- Json.TextRoundTrip: numbers, true and false, which no tree has, and `\u` escapes of surrogates are not read by the parser.
- DomPage.SerializeDocument: takes the document's children from the HTML parser; quirks mode, doctype tuple, `install_script` and the two variants for fragments and `DOMParser` are not modelled.
- Pools.PoolStaysSafe: each load is read once in a pick, where the code reads the atomics several times; what runs in a job, channels, thread joins, the semaphore and shutdown are left out.
- ImportMaps.SpecifierMap: JSON objects arrive as lists of members, with what is no string or no object marked; URL parsing and joining are parameters.
- Canvas.Blit: sizes and positions arrive rounded; canvases are found by the caller, and drawing a canvas on itself is refused before. `put_image_data` and `get_image_data` are left out, and so is overflow of 64-bit products.
- Network, TLS, CDP dispatch, rasterisation, audio, layout and packaging: wrappers, tables or floating-point code.
