# FlowDB: verified model

A Dafny model of FlowDB, an LSM key-value engine with a JSON document layer, and proofs of what
its parts promise. `dafny verify dfyconfig.toml` checks everything.

The model follows the program's own structure.

- **Document layer.** `Json`, `Encoding` and `Keyspace` give values, the order-preserving codec
  and the key layouts. `Store` and `Database` give every operation as one atomic batch on the map
  of live keys; `PrimaryKeys` and `Paths` say which values share a key and where a path leads;
  `Committing`, `Indexing`, `Runs`, `Effects` and `Acceptance` prove what the operations keep and
  do, and when they are refused. `Helpers`, `JsonDb` and `Transactions` are the source's loops and
  objects, proved against those functions. `Lookup`, `LookupMeaning`, `Query`, `QueryMeaning`,
  `PlanCounts`, `InPlans` and `Planner` cover index lookups and planned queries, `Reading`,
  `ReadYourWrites` and `GeneratedKeys` what a transaction sees and which keys it generates.
  `SmallRuns`, `MissedDocuments` and `Witnesses` build the runs in which a promise fails.
- **Durability.** `Wal` is the log codec and its segments, `Manifest` the manifest log and its
  snapshot, `Durability` the write and flush path as a machine that may fail or crash between any
  two steps, `GroupCommit` the commit protocol over any number of threads.
- **Reading.** `LatestWins`, `Memtable` and `MemoryReads` relate the memtables to the map of last
  writes. `RecordOrder`, `ScanMerge`, `Scan` and `ScanBuild` are the merging scan iterator. `SstCodec`,
  `SstFile`, `Bloom`, `BlockIndex`, `PointRead` and `Straddling` are SST files and the point-read
  fast path.
- `Bytes`, `BigEndian`, `FxHash`, `Record` and `Seqs` are shared foundations.

## Assumptions

- Documents are modelled as values: a stored cell holds the decoded document, a primary key, a
  counter or a definition, where the program stores their serialised bytes. Arrays and objects
  carry the text the serialiser prints for them, which holds no NUL byte (section 7 of RFC 8259).
- Indexed strings and query bounds contain no NUL byte (`Store.RowsClean`, `Encoding.NulFree`;
  `Witnesses.NulBreaksIndex` shows what goes wrong otherwise). `put_auto` is given objects, and
  key paths without dots. Equality filters and keys do not meet the two float zeros.
- The document layer treats each operation as one atomic step on the map of live keys, as
  `Memtable` justifies for a memory-resident engine; `commit` and `create_index` do not take the
  write lock (`src/jsondb/db.rs:64`), so the claims are about serial runs.
- Sequence numbers enter the log in increasing order, and the counter chosen at open exceeds all
  earlier ones. `src/engine.rs:365-373` derives it from the largest SST id only, so this is a
  hypothesis (`Durability.Opened`), not a consequence. Runs contain at most one crash. A failed
  manifest append leaves no entry, and a write is acknowledged once an fsync has covered it.
- Point reads assume each (key, timestamp) pair once per SST, no range deletes, and no key shared
  by adjacent blocks; compression is a pair of functions of which the second undoes the first.
- A 64-bit word of the Bloom filter is the set of its one-bits; a binary heap is a multiset whose
  `pop` yields any greatest element; walking a hash map yields its keys in any order.

## Findings

Where a promised property does not hold of the code, the model keeps the code and states exactly
when it does hold.

- Group commit can lose a wake-up: a submission pushed after the leader's last empty check, whose
  owner loses the CAS before the release, waits for ever (`GroupCommit.LostWakeup`); exactly then
  (`GroupCommit.StuckExactly`).
- A flush that fails before it is logged drops its table from memory. Its acknowledged records
  are lost at a crash exactly when a later flush has been logged since (`Durability.LostExactly`,
  reached in `Durability.FailedFlushHappens`).
- The search order of `MemTables` returns an overwritten value exactly when two frozen tables hold
  the pair and the active one does not (`LatestWins.SearchExact`, `LatestWins.StaleRead`). This is
  a property of that interface alone: the engine never has two frozen tables
  (`MemoryReads.NoStaleRead`).
- A reader that runs while a flush is between its pop and the index update misses the records of
  that table and, without failed flushes, nothing else (`MemoryReads.MissedDuringFlush`, reached
  in `MemoryReads.ReaderMisses`); `MemoryReads.MissedExactly` is the condition with failures.
- An index-driven query drops documents that lack an unfiltered field of the chosen index
  (`Query.PlanExact`, reached in `MissedDocuments.PlanDropsDocument`). With an `In` filter on the
  first field it also reads every index whose name extends the chosen one's and returns documents
  once per entry (`InPlans.InPlanExact`, reached in `Witnesses.DocumentReturnedTwice`), out of
  order when the entries are (`InPlans.InPlanOrderedExactly`, `Witnesses.AnswerOutOfOrder`).
- After n `put_auto` calls on one store in one transaction the next generated key repeats one of
  theirs exactly when n is at least two (`GeneratedKeys.ReusedExactly`, reached in
  `GeneratedKeys.KeyReused`).
- A key-range query passes over blocks that may hold a match exactly when its upper end consists
  of 255-bytes and can be matched (`BlockIndex.CompleteExactly`, `BlockIndex.PrunedBlock`), and an unrestricted scan of the memtables stops at "~"
  (`Memtable.MemTables.ScanMemory`, `Memtable.ScanDropsKey`).
- A point read misses a stored record exactly when some key ends one block and begins the next
  (`Straddling.PointReadExactly`).
- A full scan ignores deletes that have been flushed: a stored put is answered whatever deletes are
  stored beside it, exactly when no range delete covers it (`ScanBuild.FullScanExactly`,
  `ScanBuild.FlushedDeleteIgnored`).
- A scan whose bounds are not an inclusive start with an end asks for every key
  (`Record.OtherBoundsDropped`).
- Primary keys are not unique across kinds: a string that spells a number or a boolean has its key,
  exactly as `PrimaryKeys.KeysMeetExactly` says (reached in `Witnesses.StringReplacesNumber`).
- A commit is refused for a unique value that the transaction itself frees
  (`Acceptance.CommitAcceptedExactly`, reached in `Witnesses.CommitRefused`).
- `create_index` accepts a unique index over documents that already clash
  (`Effects.NewIndexUniqueExactly`, reached in `Witnesses.UniqueIndexBroken`).

## Model

| member | source | states |
|---|---|---|
| Runs.RunKeepsConsistent | src/jsondb/helpers.rs:11-162 | after every serial run of create store, enable auto-increment, create_index, put, delete, put_auto and commit (failed ones included), the live index keys are exactly the keys of every value row of every live document, each mapping to its primary key |
| Runs.RunKeepsUnique | src/jsondb/transaction.rs:426-463 | a unique index without two documents of the same encoded value has none after any such run |
| Runs.StepKeepsConsistent | src/jsondb/db.rs:433-511 | every single operation, successful or refused, keeps all indexes exact |
| Runs.StepKeepsUnique | src/jsondb/helpers.rs:61-77 | every single operation keeps the uniqueness of every unique index that had it, and keeps that index in place |
| Runs.PutAutoKeeps | src/jsondb/db.rs:484-511 | put_auto keeps indexes exact and unique indexes unique, and leaves the schema alone |
| Runs.InjectedKey | src/jsondb/db.rs:497-505 | the generated key is found under the store's key path and encodes to its decimal text |
| Runs.InjectKeepsRest | src/jsondb/db.rs:497-505 | every other field of the object reads as before, and what is not an object stays as it is |
| Store.UpdateKeepsConsistent | src/jsondb/helpers.rs:11-138 | one put or delete of a document keeps the index exact |
| Store.UpdateEffect | src/jsondb/helpers.rs:38-93 | the batch of a put or delete, applied in order, removes exactly the stale index keys, writes exactly the new ones and the document, and changes nothing else, also where old and new keys coincide |
| Store.UpdateLive | src/jsondb/helpers.rs:51-55 | after a put or delete exactly the named document reads differently |
| Store.OwnerUnique | src/jsondb/encoding.rs:50-83 | an index key belongs to one document of one store only |
| Store.KeysOfMember | src/jsondb/helpers.rs:37-49 | the index keys of a document are the keys of its rows, index by index |
| Store.ExtractIndexValues | src/jsondb/helpers.rs:143-162 | the loop yields one row, one row per element of a multi-entry array, or none when a field is missing |
| Database.PutKeeps | src/jsondb/helpers.rs:11-93 | an accepted put keeps indexes exact and unique indexes unique |
| Database.StoredRowIsTaken | src/jsondb/helpers.rs:61-77 | a stored document that shares a row of a unique index makes the check fail |
| Effects.UniqueCheckExact | src/jsondb/helpers.rs:61-77 | the unique check refuses a document if and only if another live document shares an encoded value of a unique index |
| Effects.PutReadsBack | src/jsondb/db.rs:433-451 | a put is read back under its key; no other document and no schema entry changes |
| Effects.DeleteReadsBack | src/jsondb/db.rs:468-479 | a delete removes its document and nothing else |
| Effects.PutFound | src/jsondb/db.rs:433-451 | by key values: a put is found under every key that meets its own and changes what is found under no other key |
| Effects.DeleteFound | src/jsondb/db.rs:468-479 | by key values: a delete removes what is found under the keys that meet its own and under no other |
| PrimaryKeys.KeysMeetExactly | src/jsondb/encoding.rs:187-206 | two values share a primary key if and only if they are the same integer, boolean, null or string, print the same text, or one is a string or a float text that spells the other |
| PrimaryKeys.PlainKeysDiffer | src/jsondb/encoding.rs:187-206 | different integers, booleans and null have different keys, and so have different strings |
| PrimaryKeys.IntKeySpells | src/jsondb/encoding.rs:197 | the key of an integer is its usual decimal notation: no leading zero, a minus sign exactly for negative ones, and no other text |
| Witnesses.StringReplacesNumber | src/jsondb/encoding.rs:187-206 | a run in which the document put under the number 5 is replaced by the one put under the string "5" |
| Effects.PutAutoReadsBack | src/jsondb/db.rs:484-511 | the document is stored under the successor of the last counter value and the counter moves on in the same batch |
| Acceptance.PutAcceptedExactly | src/jsondb/db.rs:433-451 | a put is refused for an unknown store, a missing or unusable key, or a clash in a unique index with another live document, each with its error, and for nothing else |
| Acceptance.DeleteAcceptedExactly | src/jsondb/db.rs:468-479 | a delete is refused for an unknown store or an unusable key only |
| Acceptance.PutAutoAcceptedExactly | src/jsondb/db.rs:484-511 | put_auto is refused for an unknown store, a store without the flag, an unreadable counter or a clash, each with its error, and for nothing else |
| Acceptance.CommitAcceptedExactly | src/jsondb/transaction.rs:384-482 | a commit is refused if and only if a buffered document clashes with another buffered one or with one stored before, even one the transaction itself deletes or changes |
| Witnesses.CommitRefused | src/jsondb/transaction.rs:384-482 | a run after which a commit that deletes a document and puts another with its unique value is refused, while the same delete and put succeed one after the other |
| Acceptance.CreateStoreExactly | src/jsondb/db.rs:120-154 | a store is created under a valid name with a key path and starts plain and empty; creating it again changes nothing with the same key path and is refused with another |
| Acceptance.EnableAutoExactly | src/jsondb/db.rs:325-389 | enabling auto-increment sets that flag of a known store and nothing else |
| Acceptance.CreateIndexAcceptedExactly | src/jsondb/db.rs:197-248 | an index is created exactly on a known store, under a valid name that no other index of it has, with non-empty key paths |
| Effects.NewIndexUniqueExactly | src/jsondb/db.rs:197-248 | creating a unique index succeeds whatever the documents hold, and the index is unique if and only if no two live documents meet in it |
| Witnesses.UniqueIndexBroken | src/jsondb/db.rs:197-248 | a run with two documents that meet in a field, after which create_index with the unique flag succeeds and the new index is not unique |
| Committing.CommitIsSerial | src/jsondb/transaction.rs:384-482 | a commit, although it reads every old document before writing, gives the engine that its puts and deletes give one after the other, each reading what the ones before it left; it keeps the index exact and touches no counter or definition |
| Committing.CommitKeeps | src/jsondb/transaction.rs:372-492 | a successful commit leaves exactly the overlay of buffer and store, with exact indexes |
| Committing.CommitOrderIrrelevant | src/jsondb/transaction.rs:384-482 | the result does not depend on the order in which the write buffer is walked |
| Committing.CommitKeepsUnique | src/jsondb/transaction.rs:426-463 | uniqueness survives a commit: buffered against buffered, buffered against stored, stored against stored |
| Committing.ConsistentDetermined | src/jsondb/helpers.rs:143-162 | a consistent database is determined by its documents, schema and counters: the index carries no information of its own |
| Indexing.CreateIndexEffect | src/jsondb/db.rs:197-248 | create_index adds exactly one entry per row of every live document and the new definition |
| Indexing.CreateIndexKeeps | src/jsondb/db.rs:197-248 | backfilling keeps every index exact, the new one included, and changes no document |
| Helpers.BuildPutBatch | src/jsondb/helpers.rs:11-93 | the nested loops build the batch of the specification, or report corruption or a unique violation |
| Helpers.BuildDeleteBatch | src/jsondb/helpers.rs:96-138 | the loops build the batch that retracts every entry and removes the document |
| Helpers.ValueTaken | src/jsondb/helpers.rs:63-74 | the scan of the unique check meets an entry of another document |
| JsonDb.JsonDB.Put | src/jsondb/db.rs:433-451 | the object moves by the specified step and returns the value of the key path, or the specified error, whatever the document; indexes stay exact when indexed strings hold no NUL byte |
| JsonDb.JsonDB.Delete | src/jsondb/db.rs:468-479 | the object moves by the specified step; indexes stay exact |
| JsonDb.JsonDB.PutAuto | src/jsondb/db.rs:484-511 | the object moves by the specified step, whatever the document; for admissible ones indexes stay exact and the document is then found under the number that is returned |
| JsonDb.JsonDB.CreateIndex | src/jsondb/db.rs:197-248 | one batch of definition and backfill, by the specified step; indexes stay exact |
| JsonDb.JsonDB.CreateObjectStore | src/jsondb/db.rs:120-154 | idempotent for the same key path, refused for another |
| JsonDb.JsonDB.EnableAutoIncrement | src/jsondb/db.rs:332-339 | the definition is rewritten with auto-increment on |
| JsonDb.JsonDB.Get | src/jsondb/db.rs:454-465 | the stored document or none; unknown stores, bad keys and corrupted slots are errors |
| JsonDb.JsonDB.Scan | src/jsondb/db.rs:530-543 | all documents of the store, each once |
| JsonDb.JsonDB.Count | src/jsondb/db.rs:514-527 | their number |
| JsonDb.JsonDB.GetByIndex | src/jsondb/db.rs:546-581 | the specified lookup for every probe; with exact indexes and a NUL-free probe of at most the index's fields, exactly the documents whose fields encode like it, each once |
| JsonDb.JsonDB.RangeByIndex | src/jsondb/db.rs:586-640 | the specified lookup for all bounds; with exact indexes and single NUL-free bounds, exactly the documents whose first indexed field encodes into [start, end), each once |
| Lookup.GetByIndexExact | src/jsondb/db.rs:546-581 | in every consistent state an exact lookup returns the matching documents, all of them, each once; multi-entry and composite indexes included |
| Lookup.RangeByIndexExact | src/jsondb/db.rs:586-640 | a range lookup returns the documents in [start, end), all of them, each once |
| LookupMeaning.GetByFields | src/jsondb/db.rs:546-581 | a composite index asked for an array: the documents that have every field of the index, the leading ones with the values of the array, each once |
| LookupMeaning.GetByField | src/jsondb/db.rs:546-581 | asked for a single value: the documents whose first field has it and that have the other fields, each once |
| LookupMeaning.GetByElement | src/jsondb/db.rs:546-581 | a multi-entry index: the documents whose field is an array with such an element or that value itself, each once however many elements match |
| LookupMeaning.GetByRange | src/jsondb/db.rs:586-640 | a range lookup: the documents that have every field of the index, the first one not before the start and before the end, each once |
| LookupMeaning.MeetExactly | src/jsondb/helpers.rs:143-162 | two documents meet in an index if and only if both have every field of it, each with the same value |
| Lookup.BoundMeansField | src/record.rs:531-551 | no index key equals an encoded bound, so the end that turns inclusive inside the engine gains nothing |
| Encoding.PrefixFree | src/jsondb/encoding.rs:132-179 | an encoded value followed by the separator is never a prefix of another one |
| Encoding.ValueOrder | src/jsondb/encoding.rs:132-179 | byte order of encodings is tag order, then integer order, total order of floats, byte order of text |
| Encoding.FloatOrder | src/jsondb/encoding.rs:152-166 | the adjusted bits of two non-NaN floats compare like the numbers, negative zero below positive zero |
| Encoding.RowOrder | src/jsondb/encoding.rs:264-280 | byte order of separator-terminated composites is field-by-field order |
| Encoding.RowCut | src/jsondb/encoding.rs:264-280 | a terminated composite can be cut off unambiguously, whatever follows it |
| Encoding.EncodeCompositeValue | src/jsondb/encoding.rs:271-280 | the loop joins the encodings by separators |
| Encoding.EqualEncodings | src/jsondb/encoding.rs:132-179 | equal JSON values encode equally, except for the two float zeros |
| Keyspace.DocKeyInjective | src/jsondb/encoding.rs:33-48 | document keys tell store and primary key |
| Keyspace.IdxKeyInjective | src/jsondb/encoding.rs:50-83 | index keys tell store, index, row and primary key |
| Json.ExtractField | src/jsondb/encoding.rs:223-241 | the cursor loop follows the dotted path through objects and arrays |
| Paths.DottedPath | src/jsondb/encoding.rs:223-241 | a path through a dot is followed in two steps |
| Paths.FieldName | src/jsondb/encoding.rs:223-241 | a name leads to the field of that name in an object and nowhere in a scalar |
| Paths.ElementNumber | src/jsondb/encoding.rs:223-241 | a decimal number leads to the array element of that position, or nowhere beyond the end |
| Paths.NoElement | src/jsondb/encoding.rs:223-241 | a segment with anything but digits after an optional plus sign leads nowhere in an array |
| Bytes.PrefixRangeMeansPrefix | src/record.rs:554-566 | for a prefix with a byte below 255, the range from it to its increment is the set of its extensions |
| Bytes.PrefixRangeExact | src/record.rs:554-566 | and for no other prefix |
| Bytes.IncrementPrefixBytes | src/record.rs:554-566 | the popping loop computes the increment |
| Record.FilterKeepsRange | src/record.rs:531-570 | the key filter of a scan range accepts the requested keys and at most the exclusive end itself |
| Record.FilterKeepsRangeExact | src/record.rs:531-570 | that holds for all keys if and only if the range is not an all-255 start scanned to its own increment |
| Record.OtherBoundsDropped | src/record.rs:531-551 | every other pair of bounds is dropped and the scan asks for all keys; that is what was requested if and only if there is no upper bound and none, or the empty key, below |
| QueryMeaning.QueryAnswers | src/jsondb/query.rs:119-232 | a query that no index serves, or whose chosen index starts with an equality or a range and has an entry for every document asked for, returns once each live document that has every filtered field, with a value equal to the one asked for, not before the start and before the end, or in the place of a listed one, and nothing else; ordered, no later field is before an earlier one, or the reverse |
| QueryMeaning.InQueryAnswers | src/jsondb/query.rs:361-380 | a query led by an In filter returns each live document asked for once per entry in the indexes read, and nothing that is not asked for |
| QueryMeaning.FilterAsks | src/jsondb/query.rs:260-278 | what one filter accepts, in terms of the field and the order of values |
| QueryMeaning.OrderIsValueOrder | src/jsondb/query.rs:208-219 | the comparison used for sorting is the order of values, null for a missing field |
| Query.PlanExact | src/jsondb/query.rs:119-232 | with an equality or range on the index's first field and no limit, the plan returns the documents of a full scan plus filters, each as often, if and only if every document asked for has an entry in the chosen index; always in the requested order |
| PlanCounts.NarrowPlanExact | src/jsondb/query.rs:119-232 | with an equality or range on the first field of the chosen index, which may be multi-entry, and any filter values, each document asked for comes once per distinct row of it that the plan scans, and the answer is the reference's if and only if that is one for each |
| Query.PlanPreservesMeaning | src/jsondb/query.rs:119-232 | in particular when every field of the chosen index has a filter |
| MissedDocuments.PlanDropsDocument | src/jsondb/query.rs:119-232 | a run from the empty database after which the plan returns nothing and the full scan with the same filter returns a document |
| MissedDocuments.PlanMisses | src/jsondb/query.rs:119-232 | whenever the only document passes the filters without an entry in the chosen index, the plan returns nothing and the reference returns it |
| InPlans.InPlanExact | src/jsondb/query.rs:361-380 | with an In filter on the index's first field the plan returns each document asked for once per distinct entry it has in the indexes, multi-entry ones included, whose names extend the chosen one's; so it answers like the reference if and only if each has exactly one |
| Witnesses.DocumentReturnedTwice | src/jsondb/query.rs:361-380 | a run with two indexes on one field, the second name extending the first, after which an In query returns the only document twice |
| InPlans.InPlanOrderedExactly | src/jsondb/query.rs:205-232 | when the in-memory sort is skipped the answer is in the requested order if and only if the entries of the documents asked for, over all indexes read, come in the order of the field; otherwise always |
| InPlans.InPlanOrdered | src/jsondb/query.rs:361-380 | in particular when no other index's name extends the chosen one's |
| InPlans.KeysByName | src/jsondb/encoding.rs:50-83 | keys of two indexes of a store compare like the names of the indexes |
| Witnesses.AnswerOutOfOrder | src/jsondb/query.rs:205-232 | a run with two documents after which an In query ordered by the field returns them out of order |
| InPlans.BaseMeansName | src/jsondb/query.rs:361-367 | the index prefix without its separator leads exactly to the indexes whose names extend the given one |
| Query.BoundsCover | src/jsondb/query.rs:321-380 | no key of an accepted row falls outside the planned bounds |
| Query.BestIsBest | src/jsondb/query.rs:282-301 | the chosen index has the highest score and is the first that has it; no choice means no index matches |
| Query.IndexOrder | src/jsondb/query.rs:129-141 | walking index keys yields documents in the order of the first indexed field, so the skipped sort is not missed |
| Query.FilteredFieldsCover | src/jsondb/query.rs:304-319 | with a filter on every field, every document asked for has an entry |
| Planner.ScoreIndex | src/jsondb/query.rs:304-319 | the loop counts the leading fields that have a filter |
| Planner.ChooseIndex | src/jsondb/query.rs:282-301 | the loop keeps the first index of the highest positive score |
| Planner.BuildIndexScan | src/jsondb/query.rs:321-380 | the nested loops compute the trimmed prefix and the upper bound |
| Planner.ApplyFilters | src/jsondb/query.rs:206-209 | one retain pass per filter keeps the documents that pass all of them |
| Planner.CollectQuery | src/jsondb/query.rs:119-232 | collect, without limit and offset, computes the specified result, which `QueryMeaning.QueryAnswers` describes over the documents |
| ReadYourWrites.ViewIsCommitted | src/jsondb/transaction.rs:94-112 | document by document, a transaction sees what the database holds after its commit |
| ReadYourWrites.ScanIsCommitted | src/jsondb/transaction.rs:124-185 | scan and count answer, up to order, as after the commit |
| ReadYourWrites.LookUpIsCommitted | src/jsondb/transaction.rs:188-248 | a single-field index lookup answers, up to order, as after the commit |
| GeneratedKeys.ReusedExactly | src/jsondb/transaction.rs:333-369 | n calls of put_auto on one store in one transaction, from counter c, buffer and store their documents under c+1 to c+n; after the commit the next generated key is c+2, so it repeats a key of that transaction if and only if n is at least two |
| GeneratedKeys.NextPutOverwrites | src/jsondb/transaction.rs:345-356 | and then the next put_auto on the database overwrites the second document of the transaction |
| GeneratedKeys.KeyReused | src/jsondb/transaction.rs:345-356 | a run from the empty database where this happens with two documents |
| GeneratedKeys.AutoAllKeys | src/jsondb/transaction.rs:333-369 | the buffer holds exactly the generated keys with their documents, and one counter record |
| GeneratedKeys.NextKeyAfterCommit | src/jsondb/transaction.rs:377-382 | after a commit the next generated key is the successor of the recorded counter value |
| ReadYourWrites.NulSharesKey | src/jsondb/encoding.rs:50-83 | with a NUL byte in an indexed string two documents can own the same index key |
| Witnesses.NulBreaksIndex | src/jsondb/helpers.rs:38-93 | a run and one more accepted put, of a string that ends in NUL, after which an index key of the first document leads to the second |
| Transactions.Transaction.Put | src/jsondb/transaction.rs:74-91 | the document is buffered under its own key, whose value is returned; or nothing changes and the error says why |
| Transactions.Transaction.Delete | src/jsondb/transaction.rs:115-121 | a deletion is buffered, or nothing changes |
| Transactions.Transaction.PutAuto | src/jsondb/transaction.rs:333-369 | the buffer changes as specified: the first use reads the engine's counter and records it, later uses count on in memory without a record; buffered documents stay filed under their keys |
| Transactions.Transaction.Get | src/jsondb/transaction.rs:94-112 | the buffered write if there is one, otherwise the stored document |
| Transactions.Transaction.Scan | src/jsondb/transaction.rs:157-185 | all visible documents, each once |
| Transactions.Transaction.Count | src/jsondb/transaction.rs:124-154 | their number |
| Transactions.Transaction.GetByIndex | src/jsondb/transaction.rs:188-248 | exactly the visible documents whose field encodes like the value, each once: stored, overwritten or new |
| Transactions.Transaction.Commit | src/jsondb/transaction.rs:372-492 | all or nothing; the database becomes what the specification makes of it for every walk of the buffer, and stays consistent; a second commit does nothing |
| Transactions.CommitBatch | src/jsondb/transaction.rs:372-482 | the loop over the buffer collects the records of every slot, or refuses exactly when some slot is refused |
| Transactions.SlotRecords | src/jsondb/transaction.rs:384-482 | one buffered write: retract, write, assert, checked against engine and buffer |
| Transactions.BufferRowTaken | src/jsondb/transaction.rs:441-462 | another buffered document of the store has the row |
| Transactions.LookUpStored | src/jsondb/transaction.rs:215-228 | what the index says, corrected by the buffer |
| Transactions.AddBufferedMatches | src/jsondb/transaction.rs:229-247 | the buffered documents with the value that are not in the answer yet |
| Transactions.FaithfulComparison | src/jsondb/transaction.rs:222-241 | comparing JSON values is comparing encodings, and equal key values make equal primary keys |
| Wal.TornTailRecovery | src/wal.rs:247-268 | decoding any byte prefix of an encoded log yields exactly the records whose encodings fit in it |
| Wal.LogRoundTrip | src/wal.rs:298-430 | the whole log decodes to the records written |
| Wal.RoundTripExact | src/wal.rs:327-430 | one record round-trips, whatever follows, if and only if its lengths fit their fields and it has no empty range end |
| Wal.DecodedIsEncoded | src/wal.rs:355-430 | whatever decodes, with an operation byte the writer uses, is byte for byte the encoding of what it decodes to |
| Wal.DecodeCut | src/wal.rs:355-430 | a torn record decodes to nothing; a whole one advances by its encoded size |
| Wal.SizeIsExact | src/wal.rs:298-309 | encoded_size is the number of bytes written |
| Wal.SkipAgrees | src/wal.rs:139-171 | skip_record advances like decode_record wherever decoding succeeds |
| Wal.MaxSeqCovers | src/wal.rs:120-137 | the maximum found by skipping is at least every decodable sequence number |
| Wal.MaxSeqIsAttained | src/wal.rs:120-171 | on a whole log the scanned maximum is the greatest sequence number in it |
| Wal.FindMaxSeqInSegment | src/wal.rs:120-137 | the loop computes that maximum |
| Wal.TruncateKeepsNewer | src/wal.rs:270-292 | truncation never drops a segment with a decodable record above its argument |
| Wal.TruncateExactly | src/wal.rs:270-292 | truncation drops exactly the segments with a known maximum not above its argument, and leaves a fresh one when none remains |
| Wal.WriteExactly | src/wal.rs:219-245 | a write extends the last segment, which is followed by a fresh one exactly when it is full |
| Wal.ReplayExact | src/wal.rs:247-268 | replay yields exactly the decodable records above the given sequence number, in sequence order |
| Wal.ReopenedCovers | src/wal.rs:75-118 | a reopened segment's recorded maximum covers its records |
| Wal.ReplaySegment | src/wal.rs:247-268 | the cursor loop over one segment |
| Wal.Writer.Write | src/wal.rs:219-245 | appends to the last segment, raises its maximum, rolls over at the size limit |
| Wal.Writer.Truncate | src/wal.rs:270-292 | keeps exactly the segments that survive, and never ends without one |
| Wal.Writer.Replay | src/wal.rs:247-268 | all segments, filtered and sorted |
| FxHash.FxHash64 | src/bloom.rs:126-143 | the loop over eight-byte words and the padded rest |
| FxHash.HashStreams | src/bloom.rs:126-143 | whole words can be hashed first and the rest afterwards |
| Manifest.SnapshotBisimulates | src/manifest.rs:171-219 | replaying a snapshot followed by any well-formed entries gives the state those entries lead to, up to the order of active ids |
| Manifest.SnapshotReplays | src/manifest.rs:171-219 | replaying a snapshot gives the state it was taken of, up to the order of active ids, whatever order the map is walked in |
| Manifest.ApplyKeepsInv | src/manifest.rs:236-280 | tables, block lists and the duplicate-free active ids keep naming the same ids |
| Manifest.ApplyEquiv | src/manifest.rs:236-280 | entries keep equivalent states equivalent |
| Manifest.ReplayKeepsInv | src/manifest.rs:111-136 | replay of well-formed entries establishes the invariant |
| Manifest.CompactionExactly | src/manifest.rs:251-270 | after a compaction entry exactly the removed tables are gone, except those it adds; an added table has its last info and its last block list, every other one keeps both, and the last flushed number stays |
| Manifest.DeleteExactly | src/manifest.rs:246-250 | a delete entry of either kind takes away exactly its table |
| Manifest.OthersExactly | src/manifest.rs:236-280 | a flush entry sets exactly its table, a Bloom entry only the filter of a known table, a checkpoint no table; the last flushed number never goes back |
| Manifest.SnapshotLines | src/manifest.rs:171-205 | the loop writes one line per table |
| Manifest.Log.Open | src/manifest.rs:111-136 | the state is the replay of the file; well-formed lines establish the invariant |
| Manifest.Log.ApplyEntry | src/manifest.rs:236-280 | every kind of entry changes maps and id list, field by field, to the state that `Manifest.CompactionExactly`, `Manifest.DeleteExactly` and `Manifest.OthersExactly` describe |
| Manifest.Log.ForgetSst | src/manifest.rs:246-250 | an id leaves both maps and, through retain, the list |
| Manifest.Log.Append | src/manifest.rs:138-153 | file and state move together; well-formed entries keep them equivalent |
| Manifest.Log.Snapshot | src/manifest.rs:171-219 | the file shrinks to one line per table and a checkpoint; reopening still gives the same state |
| Manifest.Log.MaybeSnapshot | src/manifest.rs:161-169 | taking or not taking a snapshot changes no state |
| Durability.LostExactly | src/write_worker.rs:108-220 | after any run from a freshly opened engine, with failures at any step of a flush and unsynced writes in any table, an acknowledged unexpired record is recovered from whatever a crash leaves on disk if and only if it is not in a table whose flush failed before a later flush was logged; equivalently, it is in an SST the manifest names or above the last flushed sequence number |
| Durability.CrashSafety | src/write_worker.rs:108-220 | in runs without failed flushes every acknowledged unexpired record survives a crash between any two steps |
| Durability.SurvivesExactly | src/engine.rs:334-344 | an acknowledged record survives a crash if and only if it is in a named SST or above the last flushed sequence number |
| Durability.StepKeeps | src/write_worker.rs:78-220 | every write, fsync, flush step, failure and snapshot keeps the invariant behind that |
| Durability.OpenedInv | src/engine.rs:334-344 | it holds right after replay at open |
| Durability.FailedFlushHappens | src/write_worker.rs:108-220 | from a fresh engine a loss is reachable: a flush fails after its pop, a second one is logged |
| MemoryReads.NoStaleRead | src/write_worker.rs:108-111 | in every reachable state of the engine at most one table is frozen, so a search of the memtables gives the last write they hold |
| MemoryReads.MissedExactly | src/write_worker.rs:108-196 | at any moment of any run a reader misses an unexpired write exactly when it is in the table of the flush under way, between its pop and the index update; in a table whose flush failed before it was logged; or in an SST whose flush failed after it was logged and before the index update |
| MemoryReads.MissedDuringFlush | src/write_worker.rs:108-196 | without failed flushes it misses exactly the table of the flush under way |
| MemoryReads.ReaderMisses | src/write_worker.rs:108-196 | a run from a fresh engine after which an acknowledged, unexpired record is not found |
| MemoryReads.RunKeepsIndex | src/write_worker.rs:150-196 | along every run the SSTs of the manifest are the indexed ones, those whose flush failed after it was logged, and the one being flushed, and the latter two share no record with any other |
| MemoryReads.RunKeepsReads | src/write_worker.rs:108-111 | every step keeps at most one frozen table and the order of what the memtables hold |
| GroupCommit.SafeOverRuns | src/write_worker.rs:278-339 | for any number of threads and any interleaving: one leader at most; every submission in exactly one of queued, in flight, done; Ok only for what is in log and memtable, and for everybody whose group did not fail; WAL order is queue order and the memtable follows it; a leader that has drained finds itself done |
| GroupCommit.OkExactly | src/write_worker.rs:319-337 | over every run a call is signalled and returns Ok if and only if the group it was processed in did not fail; so without a failed group every call that returns returns Ok |
| GroupCommit.FailsItsGroup | src/write_worker.rs:319-327 | a failure fails exactly the members of the group being processed |
| GroupCommit.TakesAll | src/write_worker.rs:308-317 | a leader takes everything that is queued, in order of arrival |
| GroupCommit.StepKeeps | src/write_worker.rs:278-339 | every step of every thread keeps the invariant |
| GroupCommit.ProcessedOnce | src/write_worker.rs:78-106 | no submission is logged or inserted twice |
| GroupCommit.StrandedOnlyInWindow | src/write_worker.rs:288-308 | a submission is queued with no leader only if its owner has not tried the CAS, or pushed after the leader's last empty check and lost the CAS before the release |
| GroupCommit.StuckExactly | src/write_worker.rs:278-302 | a reachable state is stuck if and only if there is no leader and every call has returned or is such a stranded one |
| GroupCommit.LostWakeup | src/write_worker.rs:288-308 | such a state is reachable with two threads |
| LatestWins.SearchExact | src/memtable.rs:396-414 | a point read gives the last write if and only if the pair is in the active table or in at most one frozen table |
| LatestWins.StaleRead | src/memtable.rs:396-414 | used on its own, with two frozen tables of the same pair, it returns the overwritten value |
| LatestWins.LatestIsNewest | src/memtable.rs:40-50 | with increasing sequence numbers, last written means highest sequence number |
| Memtable.MemTable.Insert | src/memtable.rs:29-34 | the record is appended; with increasing sequence numbers the point index keeps pointing at the newest |
| Memtable.MemTable.Get | src/memtable.rs:40-50 | the newest record of the pair, by the index or by the linear search |
| Memtable.MemTable.QueryTable | src/memtable.rs:66-87 | the matching unexpired records |
| Memtable.MemTable.SortTable | src/memtable.rs:155-163 | a permutation in (key, timestamp, newest first) order, with the index cleared |
| Memtable.MemTables.WriteBatch | src/engine.rs:1083-1095 | a batch is numbered consecutively and becomes the end of what has been written |
| Memtable.MemTables.Freeze | src/memtable.rs:230-242 | freezing changes where records are and no answer |
| Memtable.MemTables.Get | src/memtable.rs:396-414 | the source's search order, passing over expired records; nothing expired is returned, and the last write when nothing expires and at most one table is frozen |
| Memtable.FoundAlive | src/memtable.rs:396-414 | what the search finds has not expired |
| Memtable.MemTables.PointRead | src/engine.rs:1055-1064 | what that search finds unless it is a delete; without expiry and range deletes a look-up in the map of last writes |
| Memtable.MemTables.QueryAll | src/memtable.rs:262-309 | the matching records of all tables |
| Memtable.MemTables.ScanMemory | src/engine.rs:1158-1174 | a memory-resident scan yields, in order, exactly the puts that are the last unexpired write of a matching pair and lie under no range tombstone, for any number of frozen tables; an unrestricted scan stops at "~" |
| Memtable.ScanDropsKey | src/engine.rs:1158-1174 | the written key 127 is found by a point read and dropped by an unrestricted scan |
| Memtable.ScanIsLatest | src/engine.rs:1292-1301 | merging the hits of a scan yields the last unexpired writes |
| Scan.ScanIterator.Drain | src/engine.rs:1434-1492 | the iterator yields, in strictly ascending (key, timestamp) order, a newest record of each pair present, except deletes and records under a range tombstone |
| Scan.ScanIterator.Next | src/engine.rs:1437-1492 | the next record of that answer, or none when all sources are used up |
| Scan.ScanIterator.NextFast | src/engine.rs:1438-1459 | the single-source loop |
| Scan.ScanIterator.NextMerged | src/engine.rs:1461-1491 | the heap loop |
| Scan.ScanIterator.AdvanceSource | src/engine.rs:1350-1363 | takes the next record of a source and puts its successor on the heap |
| ScanBuild.BothPaths | src/engine.rs:1434-1492 | on one source without tombstones fast path and heap yield the same sequence |
| ScanBuild.ScanAll | src/engine.rs:1149-1348 | a whole scan over memtable results and blocks answers as `ScanBuild.ScanExactly` states |
| ScanBuild.ScanExactly | src/engine.rs:1156-1340 | each answer is a put that is offered, that is a memtable result or an unexpired stored record asked for by key and time, under no range delete, and older than no other offered record of its pair; a pair is answered where nothing but puts is offered that is not older |
| ScanBuild.BoundedScan | src/engine.rs:1372-1430 | what a bounded scan answers from the blocks is stored, a put, alive and asked for; and such a put is answered when nothing else is known of its pair and no range delete covers it |
| ScanBuild.FullScanExactly | src/engine.rs:1202-1251 | in a full scan a stored live put unknown to the memtables is answered, or another put of its pair, if and only if no range delete covers it: stored deletes make no difference |
| ScanBuild.FlushedDeleteIgnored | src/engine.rs:1202-1251 | a block with a put and its delete, and a full scan that answers with the put |
| ScanBuild.Build | src/engine.rs:1149-1348 | sources, tombstones and heap as specified |
| ScanBuild.FilterSstBlock | src/engine.rs:1372-1432 | live matching records without sequence number; range deletes become tombstones |
| ScanBuild.FilterFullBlock | src/engine.rs:1232-1247 | live puts; range deletes become tombstones |
| ScanBuild.SourcesHold | src/engine.rs:1292-1348 | a scan sees the memtable results and the filtered block records, nothing else |
| ScanMerge.AbsorbKeeps | src/engine.rs:1461-1491 | consuming a least head keeps the winners right |
| ScanMerge.GreatestIsLeast | src/engine.rs:1136-1145 | the entry the heap yields stands for a record that comes before all that remain |
| ScanMerge.WinnersDetermined | src/engine.rs:1434-1492 | the answer is unique unless two records of one pair share a sequence number |
| SstFile.FileRoundTrip | src/sstable.rs:405-500 | opening a written file finds every block offset, and reading all blocks in order returns the records with sequence number zero |
| SstFile.WriteSst | src/sstable.rs:186-249 | the file and block list of the chunks, for any block size |
| SstFile.SstStreamWriter.WriteRecord | src/sstable.rs:292-300 | the record is taken in and full blocks are written out |
| SstFile.SstStreamWriter.Finish | src/sstable.rs:304-316 | the same file and block list as the batch writer's, and a filter over the same keys |
| SstFile.KeyFilterOf | src/sstable.rs:196-204 | the filter holds exactly the keys of the records |
| SstFile.Open | src/sstable.rs:405-424 | the header walk |
| SstFile.OpenRecovers | src/sstable.rs:405-424 | it recovers where every block starts |
| SstFile.BlockReadsBack | src/sstable.rs:470-500 | a block reads back without sequence numbers |
| SstFile.ChunksJoin | src/sstable.rs:206-206 | cutting into blocks loses nothing and keeps the order |
| SstFile.BlockSummary | src/sstable.rs:205-245 | index entry and header of a block give its first and last key and the least and greatest timestamp and expiry in it |
| SstFile.ExpiredExactly | src/block_meta_index.rs:44-46 | a block counts as expired if and only if each of its records is |
| SstCodec.RecordsRoundTrip | src/sstable.rs:91-180 | a block's contents decode to the records without sequence numbers |
| SstCodec.StorableExact | src/sstable.rs:91-180 | a record comes back if and only if its lengths fit and it has no empty range end |
| SstCodec.HeaderRoundTrip | src/sstable.rs:28-81 | a block header reads back |
| SstCodec.EncodeAll | src/sstable.rs:91-112 | the appending loop |
| SstCodec.DecodeAll | src/sstable.rs:117-180 | the cursor loop |
| PointRead.GetBytes | src/engine.rs:1055-1077 | Bloom check, block search and in-block search find a live record if and only if a search of all stored records would |
| PointRead.BinarySearchBlock | src/block_meta_index.rs:150-171 | a block that spans the key, and none only if there is none |
| PointRead.FindInRecords | src/engine.rs:643-665 | binary search finds a live record of the pair exactly when there is one |
| PointRead.SearchSst | src/block_meta_index.rs:112-135 | one SST is searched as a linear search would |
| PointRead.SingleSstPoint | src/block_meta_index.rs:137-148 | with exactly one SST the block the halving arrives at unless it has expired; otherwise none |
| PointRead.FlushedWellCut | src/sstable.rs:186-249 | flushed files meet the hypotheses exactly when no key ends one block and begins the next |
| Straddling.PointReadExactly | src/block_meta_index.rs:150-171 | over flushed files of live records, looking into one block answers every point read like a search of the whole file if and only if no key ends one block and begins the next |
| Straddling.StraddledIsMissed | src/block_meta_index.rs:150-171 | whatever block the search arrives at, one of the two records around a straddled cut is not in it |
| Straddling.StraddlingKeyMissed | src/block_meta_index.rs:150-171 | the smallest file in which a stored record is missed |
| Bloom.BloomFilter.Insert | src/bloom.rs:87-97 | the filter stands for one key more |
| Bloom.BloomFilter.MayContain | src/bloom.rs:99-121 | yes for every inserted key after any further inserts; no exactly when some bit of the key belongs to no inserted key |
| Bloom.FromKeys | src/bloom.rs:45-51 | a filter for exactly the given keys |
| BlockIndex.BlockMetaIndex.AddSst | src/block_meta_index.rs:68-83 | the plain list gains the blocks, and with a new id the three maps keep agreeing |
| BlockIndex.BlockMetaIndex.RemoveSst | src/block_meta_index.rs:97-110 | the three maps lose exactly the blocks of the SST |
| BlockIndex.BlockMetaIndex.CollectByKey | src/block_meta_index.rs:192-223 | exactly the unexpired overlapping blocks the walk reaches, as often as in the plain list, by minimum key |
| BlockIndex.CompleteExactly | src/block_meta_index.rs:192-223 | a query by key passes over no block that may hold a match if and only if its upper end can be incremented or cannot be matched |
| BlockIndex.KeptExactly | src/block_meta_index.rs:192-223 | for a filter with an upper end a block is kept if and only if its key interval holds a key that matches |
| BlockIndex.PrunedBlock | src/block_meta_index.rs:192-223 | an index with one block, whose only key matches the prefix 255, and a query for that prefix that collects nothing |
| BlockIndex.IncrementPrefix | src/block_meta_index.rs:257-267 | the popping loop and its sentinel |

## Left out

- Limits and offsets of queries: early termination runs before the filters (`src/jsondb/query.rs:178-201`).
- Compaction, and newest-wins across several SSTs or for duplicate pairs inside one SST.
- Range deletes in the document layer, `delete_index` and `delete_object_store`, and the removal of indexes by `apply_store`.
- Time-bucket pruning of blocks (`collect_time_set`): blocks are bucketed by their minimum timestamp only.
- `Transaction::range_by_index`: it skips buffered updates of stored documents.
- Snapshot isolation and optimistic concurrency control, of which the transaction code has no mechanism; concurrency of `commit` and `create_index` with other writers.
- More than one crash, and segments that are appended to after torn bytes (`src/wal.rs:93-103`).
- Writes acknowledged without fsync: the crash theorem is about records that a sync has covered; a failed WAL write counts as having written nothing.
- The file system, memory mapping, lz4, serde JSON text, block cache, readers' error logging, statistics, garbage collection, `get_latest`, configuration and the wall clock beyond a given `now`.
- Byte accounting of memtables (`should_flush`, back-pressure): freezing and flushing may happen at any time.
- Flushing sorts the table inside `freeze`; `Durability` keeps the unsorted records, since it only asks which records are where.
- Transactions.Transaction.Commit: the kind of error is not specified, because it depends on the order in which the hash map is walked.
- Transactions.Transaction.GetByIndex: composite and multi-entry indexes are not covered, because the code compares the first field only.
- Scan.ScanIterator.Next: returns the whole internal record, of which the program hands out key, timestamp, expiry and value.
- Planner.CollectQuery: limit and offset are not modelled, as said above.
- Multi-entry indexes in range lookups: such an index returns a document once per matching element (for planned queries `PlanCounts.NarrowPlanExact` says so).
- PointRead.FindInRecords: blocks that hold one pair twice are not covered, because the binary search then picks any of the two.
