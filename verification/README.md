# A verified model of the oracle node

The node keeps a versioned key/value store. Oracle files arrive as batches of inserts, updates and
deletes at increasing slots, and chain rollbacks take batches back. This project models how the node
holds that state, how it publishes and ingests it, and how it keeps account of the chain, and proves
the properties the service rests on. Where the code meets a promise only under a condition, the
condition is stated as one side of an if-and-only-if, on all inputs.

**The store** (`OperationLog`, `BatchOrder`, `VersionedStore`, `BatchWrites`, `TrieAgreement`,
`TrieFailure`, `StoreInvariant`, `RollbackUndo`, `StoreRuns`, `StoreHistory`, `Database`). The
tables are maps and sequences; the log is their join. The live state is held four ways: the key
table maintained by a row trigger, the replay of the operation log, the as-of query, and the
in-memory trie. One invariant ties them together; every batch and every rollback keeps it; after
every run the store is that of the surviving batches alone, and the past that the as-of query
reports does not change. What a failing batch does is settled exactly. `Database` is the object with
its loops, proved to take the specified steps.

**Numbers and canonical JSON** (`Arithmetic`, `Numbers`, `CanonicalJson`). Numeric text, in the
grammar of section 6 of RFC 8259 with an optional leading plus, becomes a fraction in lowest terms.
The number a text denotes is defined on its own, as a real number by place value. The canonical
encoding is shown to be idempotent, readable, and to identify exactly the documents it should.

**Diff, publish, ingest** (`Hex`, `TrieDiff`, `Publisher`, `Validation`, `Consumer`, `EndToEnd`,
`OtherState`). The producer diffs a snapshot against the live state; the consumer rebuilds entries
from the payload. From any reachable store both reach the same map, hence the same root, exactly
when they were there already, or the snapshot is not empty and the file the payload refers to is
stored (the null root standing for the empty state alone). What a payload does at any other state is
settled too.

**Event-driven state** (`Cursor`, `BlockAccounting`, `BlockRuns`, `EventLaws`, `ChainStore`,
`RestartReplay`, `Processor`, `RestartBreaker`, `PendingTransactions`). Block accounting is compared with an account
of the chain that knows nothing of the bookkeeping maps; the cursor and the store with the retained
chain; the restart breaker with a record that never forgets; the pending table with the disjointness
of inputs.

Hash and root functions are parameters and stay arbitrary. Iteration over a Go map is modelled as a
choice of any remaining key, so the results hold for every iteration order.

`dafny verify dfyconfig.toml` checks the whole project.

## Where the code falls short of a promise

Each of these is a proved if-and-only-if or a concrete case in the table below.

- Two batches at one slot: the rollback orders rows without the trie id, the as-of query with it
  (`AppendKeepsTies`, `SharedSlotBreaksRollback`).
- A repeated (type, sequence, key): the tables keep the first entry, the trie the last
  (`TrieTracksLog`, `RepeatedInsertDisagrees`).
- A batch that fails half-way stays in the in-memory trie until the next reload, unless the entries
  before the failing one put everything back (`FailsExactlyWhen`, `FailedBatchLeaves`,
  `FailureIsExact`, `FailedBatchDiverges`, `RollbackPops`).
- The exponent -9223372036854775808 wraps when negated (`RatIsExact`, `WrappedExponentExample`).
- A string that spells a fraction collides with the number (`FractionStringCollides`).
- Duplicate key hashes in a snapshot can lose a reversion (`PatchReachesSnapshot`,
  `CollidingSnapshotReverts`).
- A payload taken for genesis deletes nothing (`ProducerConsumerAgree`), and a null new root is
  skipped, so an emptied snapshot never reaches the store (`NullRootIsSkipped`,
  `ConsumerReachesSnapshot`).
- The file of a skipped payload is never stored, and the next payload refers to it: it is not ingested
  (`EmptySnapshotBlocksNext`).
- A payload whose validation fails is ingested all the same (`ConsumedAtOtherState`).
- Collection below slot 129600 wraps and forgets every block, the current one included
  (`CollectionKeepsWindow`). The configured limit of 50 cursor entries keeps 51
  (`PruningKeepsFiftyOne`).
- Cursor and store are rolled back by slot alone, so what belongs to another block at the slot itself
  stays (`FaithfulExactlyWithoutForks`, `StoreRewindIsFaithful`).
- The rollback detected at start-up goes to the configured start slot instead of the block's
  (`OfflineRewindOrders`, `OfflineStoreRewind`), and the position a restart names is not moved by
  rollbacks (`LastFinishedIsNewest`, `RestartPointStranded`).
- A restart threshold below one makes every request a full reset (`HistoryStaysBelowThreshold`).
- The comment on numeric strings asks for exactly a JSON number; the code also takes spaces around it and
  a leading plus (`NumericIsSpacedNumber`).

## Model

| member | source | states |
|---|---|---|
| OperationLog.AsOfPickIsLast | internal/database/operation.go:347-371 | In a log in slot order whose rows ascend in the query's order, the DISTINCT ON of the as-of query picks, for every key and slot, the row inserted last at or before the slot |
| OperationLog.RollbackPickIsLast | internal/database/models.go:171-189 | The rollback's ordering, which has no trie-id tie-break, picks the row inserted last for every key and cutoff if and only if ties inside a slot are resolved in insertion order |
| OperationLog.PickIsMaximum | internal/database/models.go:172-188 | The row that DISTINCT ON keeps is a maximum of the rollback ordering among the rows of its key |
| OperationLog.ReplayLookup | internal/database/operation.go:381-388 | What replaying the log says about a key is the effect of the last row of that key |
| BatchOrder.StableSortIsStable | internal/database/operation.go:124-132 | The batch sort yields an ordered permutation that keeps the order inside every (type, sequence) group |
| BatchOrder.ExecutionOrder | internal/database/operation.go:124-132 | In the sorted batch inserts run before updates and updates before deletes; inside a type the sequence numbers do not decrease |
| BatchWrites.EmitAppendsRows | internal/database/operation.go:209-292 | The emission loop appends to the log exactly one row per distinct (type, sequence, key), in execution order |
| BatchWrites.BatchRowsAscend | internal/database/operation.go:124-165 | Within a batch, execution order is the queries' order: of two rows of one key the later has the greater operation by (rank, sequence), even when the key occurs under several types |
| BatchWrites.EmitKeepsKeys | internal/database/models.go:69-105 | Firing the row trigger for each emitted row leaves the key table equal to the replay of the rows, keeps the flags coherent and every referenced value stored |
| TrieAgreement.LastRowIsFirstOfGroup | internal/database/operation.go:247-256 | The row that decides a key comes from the first entry naming the key's last operation: repeated (type, sequence, key) entries after the first are dropped |
| TrieAgreement.TrieTracksLog | internal/database/operation.go:169-256 | After a committed batch the in-memory trie equals the replay of the batch's rows if and only if repeated entries carry the value of the first one |
| TrieAgreement.RepeatedInsertDisagrees | internal/database/operation.go:170-198 | Two inserts of one key under one sequence number with different values make the trie and the tables disagree |
| TrieFailure.FailsExactlyWhen | internal/database/operation.go:169-207 | The trie loop gets through a batch if and only if every inserted or updated value can be hashed and every delete finds its key live at that point, told from the entries and the trie before |
| TrieFailure.UnchangedExactlyWhen | internal/database/operation.go:169-207 | Entries that execute leave the trie as it was if and only if the last one for each key puts back what the trie held |
| TrieFailure.FailedBatchLeaves | internal/database/operation.go:169-207 | A failed batch leaves in the trie what the entries before the first failing one did, and so leaves it alone if and only if those put everything back |
| StoreInvariant.FiltersAgree | internal/database/operation.go:317 | In every sound state the current-state filter, both trie loaders' filter and the active-object filter select the same keys with the same values |
| StoreInvariant.AppendKeepsTies | internal/database/models.go:180-188 | Appending a batch at the newest slot keeps ties resolved if and only if the batch does not step back on a key it shares with that slot |
| StoreInvariant.LaterSlotAdmissible | internal/database/models.go:180-188 | A batch at a slot greater than every stored one always meets that guard |
| StoreInvariant.BatchExtendsLog | internal/database/operation.go:134-292 | The log after a batch is the log before it followed by the batch's rows |
| StoreInvariant.BatchKeepsInvariant | internal/database/operation.go:61-296 | A committed batch in slot order keeps the whole store invariant if and only if it meets the tie guard |
| RollbackUndo.UpdatesPartitionAffected | internal/database/models.go:190-213 | The two key updates of the rollback cover the affected keys and share none |
| RollbackUndo.RestoredKey | internal/database/models.go:190-213 | After a rollback every key holds what the surviving log last did to it, with coherent flags and its identity unchanged |
| RollbackUndo.CollectionIsSafe | internal/database/models.go:249-262 | Value collection removes no value that a surviving operation row or a restored key refers to |
| RollbackUndo.CollectionIsExact | internal/database/models.go:249-262 | The values removed are exactly those that no key and no operation row referred to when the statement began; the others keep their text |
| RollbackUndo.RollbackIsUndo | internal/database/models.go:122-266 | From any sound state a rollback keeps the invariant, leaves the log rows at or before the cutoff, the live keys that replaying them gives, the same key rows otherwise, and exactly the files at or before the cutoff |
| RollbackUndo.RollbackTwice | internal/database/models.go:122-266 | Two rollbacks leave the files, operations, keys and log that one rollback to the smaller slot leaves |
| RollbackUndo.AsOfIsLive | internal/database/operation.go:334-389 | The as-of query at a slot is the live map just after the last row at or before it |
| RollbackUndo.ViewsCoincide | internal/database/operation.go:310-389 | At any slot not below the newest, the as-of query, the replay of the log, the current-state map and the trie loader give one map |
| RollbackUndo.SharedSlotBreaksRollback | internal/database/models.go:180-188 | Concrete log with two batches at one slot: the as-of query finds the insert, the rollback's ordering restores the delete |
| StoreRuns.IngestPushes | internal/database/operation.go:41-299 | A new file that executes is applied, and the store then represents the earlier batches followed by it |
| StoreRuns.PushedTrie | internal/database/operation.go:169-207 | After a committed batch the in-memory trie is the live key map if and only if repeated entries agree |
| StoreRuns.RollbackPops | internal/database/rollback.go:15-24 | A rollback leaves the store representing exactly the batches at or before the slot, whatever the in-memory trie held |
| StoreRuns.RunRepresentsHistory | internal/database/operation.go:41-299 | After every run of files, replays and rollbacks in which each new file commits and may follow, or fails harmlessly, the store represents exactly the batches that survive |
| StoreRuns.FourViewsAgree | internal/database/operation.go:310-389 | After every such run, harmless failures included, the key table, the replayed log, the as-of query at any slot not below the newest and the in-memory trie are one map |
| StoreRuns.UndoneAsIfNeverApplied | internal/database/models.go:122-266 | After every such run, harmless failures included, the log (ids aside), live keys, trie and files are those of a run that only ever applied the surviving batches |
| StoreRuns.IngestAnswers | internal/database/operation.go:41-75 | The outcome of every file, told from its fields and the stored rows: each missing field in the order of the guards, already stored exactly when a complete file has its CID in some row, duplicate exactly when its CID is in none and its transaction id in one; only an applied file changes the tables, and only a trie failure may leave anything else changed |
| StoreRuns.AppliedAddsRow | internal/database/operation.go:100-122 | An applied file adds exactly one trie row, with the CID, slot, transaction, root, previous file and previous root of the batch |
| StoreRuns.ReplayIsHarmless | internal/database/operation.go:62-75 | Every stored file that is ingested again is reported as already stored and changes nothing, and new files after them leave the same store as without the replay |
| StoreRuns.FailedBatchDiverges | internal/database/operation.go:169-207 | Concrete case of a harmful failure: an insert goes through, a delete misses its key, and the trie keeps a key the tables do not have |
| StoreRuns.FailureIsExact | internal/database/operation.go:61-207 | A new file is rejected by the trie if and only if its sorted entries are not executable on the live map; the tables then stay, and the store goes on representing the same batches if and only if the entries before the failing one put everything back |
| StoreHistory.RunKeepsTables | internal/database/operation.go:41-299 | After every run whose committed files come in slot order and meet the tie guard, whatever other files fail and however, the tables keep their invariant and hold exactly the stored batches |
| StoreHistory.TableViewsAgree | internal/database/operation.go:310-389 | After every such run the key table, the replayed log, the as-of query and the trie that would be loaded agree, and the in-memory trie is theirs again after any rollback |
| StoreHistory.AsOfIsKeptHistory | internal/database/operation.go:334-389 | The as-of query at a slot is the live map of the stored batches at or before it |
| StoreHistory.PastIsStable | internal/database/operation.go:334-389 | Whatever a run goes on to do with files that commit at later slots, files that fail or are stored already, and rollbacks to the slot or later, the as-of answer for the slot stays what it was, which is the live key map of the store as it was at that slot |
| StoreHistory.CleanIsOrdered | internal/database/operation.go:41-299 | Clean runs are among those runs, and store what their history says |
| DatabaseObject.Database.constructor | internal/database/trie.go:26-50 | Opening a database loads the trie of its live rows |
| DatabaseObject.Database.LoadTrieFromDB | internal/database/trie.go:26-50 | The reload empties the trie and sets every live row, in any order |
| DatabaseObject.Database.DeleteTrieEntry | internal/database/trie.go:63-71 | Removes the key, and reports an error exactly when it was absent |
| DatabaseObject.Database.ApplyToTrie | internal/database/operation.go:169-207 | The trie loop is the specified fold, stopping at the first entry that fails |
| DatabaseObject.Database.CreateOperations | internal/database/operation.go:134-165 | One operation row per (type, sequence), in order of first use |
| DatabaseObject.Database.EmitRows | internal/database/operation.go:209-292 | The emission loop writes key, value and operation-key rows and fires the trigger as specified |
| DatabaseObject.Database.StoreBatch | internal/database/operation.go:61-296 | The transaction: tables as specified if every entry succeeds, unchanged otherwise; the trie changed either way |
| DatabaseObject.Database.ApplyOracleFile | internal/database/operation.go:41-299 | Takes the ingest step; answers AlreadyStored exactly when a complete file has its CID in some trie row and DuplicateTxId exactly when only its transaction id is stored; leaves the tables alone unless it applies |
| DatabaseObject.Database.Rollback | internal/database/rollback.go:15-24 | The SQL rollback followed by the trie reload |
| DatabaseObject.Database.GetCurrentStateMap | internal/database/operation.go:310-330 | The result is the filtered key table, and in a sound state the replay of the log |
| Numbers.ScanDecidesGrammar | internal/database/trie.go:138-140 | The number pattern accepts exactly the texts of the JSON grammar with an optional leading plus, and splits them in one way |
| Numbers.NumberShape | internal/database/trie.go:138-140 | Read off the characters: a number ends in a digit, has one right after its sign, a leading zero stands alone, and only digits, signs, point and exponent letter occur |
| Numbers.GrammarIsWide | internal/database/trie.go:138-140 | Every combination of signs, exponent letter, fraction and exponent is accepted |
| Numbers.ComputePow10 | internal/database/trie.go:310-320 | The multiplication loop yields the power of ten, and 1 for n <= 0 |
| Numbers.ParseFindsParts | internal/database/trie.go:256-304 | The text surgery finds sign, digits, decimals and exponent of every well-formed number, and fails exactly when the exponent is outside 64 bits |
| Numbers.RatIsExact | internal/database/trie.go:298-307 | The fraction is in lowest terms, and equals the number the text denotes if and only if the exponent does not wrap when negated |
| Numbers.RatIsRead | internal/database/trie.go:298-307 | On every text that is read the fraction is, in lowest terms, the number read, which is the number denoted if and only if the exponent does not wrap |
| Numbers.FractionStringDecides | internal/database/trie.go:243-253 | A text is normalised exactly when, trimmed, it is a number whose exponent fits, and then to that number's fraction |
| Numbers.SpacesAroundAreTrimmed | internal/database/trie.go:244 | Spaces before and after a text do not change what trimming leaves |
| Numbers.NumericIsSpacedNumber | internal/database/trie.go:243-253 | The texts that normalise are exactly the numbers between spaces, and all of those give the fraction of the number |
| Numbers.SameFractionSameNumber | internal/database/trie.go:243-308 | Two numeric texts get the same fraction string if and only if they are read as the same number, all spellings of zero included; where no exponent wraps that is the number they denote |
| Numbers.FractionTextInjective | internal/database/trie.go:252 | Different fractions print differently |
| Numbers.PrintedWithoutZeros | internal/database/trie.go:252 | Printed numerators and denominators have no leading zero |
| Numbers.FractionTextNotNumeric | internal/database/trie.go:233-241 | A fraction string is not itself numeric, so a second normalisation leaves it alone |
| Numbers.WrappedExponentExample | internal/database/trie.go:302-304 | 1e-9223372036854775808 becomes "1/1", because negating that exponent wraps |
| Arithmetic.SetFracReduces | internal/database/trie.go:306 | Reduction keeps the number and reaches lowest terms with a positive denominator |
| Arithmetic.LowestTermsUnique | internal/database/trie.go:306 | A rational has one representation in lowest terms |
| CanonicalJson.NormaliseTwice | internal/database/trie.go:159-225 | Normalising is idempotent and leaves no bare number |
| CanonicalJson.CanonicalRoundTrip | internal/database/trie.go:145-225 | Decoding canonical bytes gives the normalised tree, and encoding that gives the same bytes |
| CanonicalJson.TrailingTextRefused | internal/database/operation.go:172-177 | Canonical bytes followed by anything do not decode |
| CanonicalJson.ScalarBytes | internal/database/trie.go:161-187 | The literals by their text; a number, and a string that reads as one, as its fraction in quotes; any other string as itself in quotes; a number that does not read fails |
| CanonicalJson.EscapesMarks | internal/database/trie.go:181-187 | Quoting puts a backslash before quotes and backslashes and changes nothing else |
| CanonicalJson.CompoundBytes | internal/database/trie.go:189-219 | Elements and members stand between brackets or braces, separated by commas alone, and members come in code order whatever order they were met in |
| CanonicalJson.CanonicalInjective | internal/database/trie.go:159-225 | Two encodable trees get the same bytes if and only if their normalised trees are equal |
| CanonicalJson.CanonicalIdentifies | internal/database/trie.go:111-124 | Any two encodable values get the same bytes if and only if they are the same document, up to spellings of the numbers as read, member order, and fraction strings standing for numbers; where no text holds a wrapping exponent, numbers count as denoted |
| CanonicalJson.FractionStringCollides | internal/database/trie.go:179-187 | The string "3/2" and the number 1.5 get the same bytes |
| CanonicalJson.SortedListingUnique | internal/database/trie.go:203-207 | Sorting the keys gives one listing, whatever order they were collected in |
| CanonicalJson.StringLessIsCodeOrder | internal/database/trie.go:207 | The comparison that sorts keys is code order: a proper prefix first, otherwise the smaller character where the two first differ |
| CanonicalJson.CollectSortedKeys | internal/database/trie.go:203-207 | Collecting an object's keys in any order and sorting them lists every key once, each before every later one in code order |
| CanonicalJson.EncodeCanonical | internal/database/trie.go:159-225 | The recursive writer succeeds exactly on encodable trees and then appends the printed normalised tree to the buffer |
| CanonicalJson.EncodeArray | internal/database/trie.go:189-199 | The array branch, separators included |
| CanonicalJson.EncodeObject | internal/database/trie.go:201-219 | The object branch: succeeds exactly when every member encodes, and then appends the members in the order of CollectSortedKeys |
| CanonicalJson.Canonicalize | internal/database/trie.go:145-157 | Encoding into a fresh buffer gives the canonical bytes or the failure |
| Hex.HexRoundTrip | internal/strategy/chain_event_processor_strategy.go:63-72 | A digest's hex text is read back, with or without trimming a 0x prefix |
| Hex.EncodedDigits | internal/database/trie.go:126-136 | Every byte becomes two lower-case digits, the high half first |
| Hex.DigestTexts | internal/strategy/chain_event_processor_strategy.go:63-72 | The texts that name a digest are exactly those of sixty-four hex digits after at most one prefix, 0x or 0X, which makes no difference |
| Hex.CaseDoesNotMatter | internal/strategy/chain_event_processor_strategy.go:70-72 | Upper-case and lower-case digits decode alike |
| Hex.PaddedKeepsFront | internal/strategy/chain_event_processor_strategy.go:56 | A short key is filled with zeros at the end and a long one cut |
| TrieDiff.PairsAreMembers | internal/strategy/chain_event_processor_strategy.go:373-409 | The pairs of a snapshot are exactly the hashes of the members, that can be hashed, of objects with a non-empty string id |
| TrieDiff.PatchReachesSnapshot | internal/strategy/chain_event_processor_strategy.go:472-495 | Applying insertions, updates and deletions turns the live map into the snapshot map if and only if no live key is listed with a new value and later again with its current one |
| TrieDiff.DistinctNeverReverts | internal/strategy/chain_event_processor_strategy.go:387-407 | With pairwise distinct key hashes that never happens |
| TrieDiff.LateReversionExample | internal/strategy/chain_event_processor_strategy.go:401-406 | With a duplicate key hash it does: the update is kept and the reversion dropped |
| TrieDiff.CollidingSnapshotReverts | internal/database/trie.go:106-109 | A snapshot of two objects whose joined names collide loses the reversion in this way |
| TrieDiff.DiffIsMinimal | internal/strategy/chain_event_processor_strategy.go:373-416 | The three key lists are duplicate-free and disjoint, together they are the keys on which the two maps differ, and their number is the number of those keys |
| TrieDiff.EditOrderIrrelevant | internal/strategy/chain_event_processor_strategy.go:472-495 | Changes to distinct keys give the same map in every order |
| TrieDiff.PatchInAnyOrder | internal/strategy/chain_event_processor_strategy.go:472-495 | The whole patch, applied in any order, gives the snapshot map |
| Publisher.DiffTrieOpsCore | internal/strategy/chain_event_processor_strategy.go:373-416 | The diff loops compute the specified insertions and updates, and list each stale key once |
| Publisher.MemoryTrie.ApplyTrieOperations | internal/strategy/chain_event_processor_strategy.go:472-495 | The scratch trie ends at the patched map |
| Publisher.Publish | internal/strategy/chain_event_processor_strategy.go:1001-1049 | The payload carries the diff against the live state and the roots of the scratch trie before and after the patch |
| Consumer.PairsOrderIrrelevant | internal/strategy/chain_event_processor_strategy.go:426-460 | The key and value hashes of a snapshot do not depend on the order of its members |
| Consumer.CanonicalTextHash | internal/strategy/chain_event_processor_strategy.go:1433-1458 | Hashing the canonical text again gives the hash of the original value |
| Consumer.RawCellsMatch | internal/strategy/chain_event_processor_strategy.go:1411-1460 | The raw map holds, for each key hash of the snapshot, an object, key and text that hash to what the snapshot holds |
| Consumer.ListedExactly | internal/strategy/chain_event_processor_strategy.go:1481-1531 | Entries for published keys: one for each key that decodes to a digest of the snapshot, with its object, member and text, and no other, numbered without a gap |
| Consumer.DeletesExactly | internal/strategy/chain_event_processor_strategy.go:1533-1558 | Delete entries: one for each key that decodes to a digest in the key table, with the object and member of its row, and no other, numbered without a gap |
| Consumer.GenesisInsertsEverything | internal/strategy/chain_event_processor_strategy.go:1466-1480 | With an empty or null previous root every cell is inserted once whatever the payload lists; otherwise the lists decide |
| Consumer.ConsumeAnswers | internal/strategy/chain_event_processor_strategy.go:1293-1590 | What the step answers and stores, told from its arguments: nothing to do, no previous file, or one new row with the datum's CID, the slot and transaction of the event, the payload's root, and its previous file and root unless empty or null |
| Consumer.BuildEntries | internal/strategy/chain_event_processor_strategy.go:1462-1558 | Entry building, on the genesis branch in any map order |
| Consumer.ConsumePayload | internal/strategy/chain_event_processor_strategy.go:1293-1590 | Takes the consume step; answers NothingToDo exactly for a null root or file and NoPreviousFile exactly when the previous file is named and in no row; an applied file adds exactly one row, at the slot and transaction given, with its other fields written out; the validation only reports |
| EndToEnd.FoldRealises | internal/database/operation.go:169-207 | Entries that each move one distinct key from its old to its new value take the trie from one state to the other |
| EndToEnd.IncrementalRealises | internal/strategy/chain_event_processor_strategy.go:1480-1558 | The entries rebuilt from a published payload realise the change from live state to snapshot, and are in execution order already |
| EndToEnd.GenesisRealises | internal/strategy/chain_event_processor_strategy.go:1466-1479 | The genesis entries lead to the live state overlaid with the snapshot: they delete nothing |
| EndToEnd.IngestReachesTarget | internal/strategy/chain_event_processor_strategy.go:1560-1590 | Ingesting the payload at the producer's live state commits and leaves key table and trie at the target |
| EndToEnd.ProducerConsumerAgree | internal/strategy/chain_event_processor_strategy.go:1001-1049 | After the consume step the live map and trie are the snapshot, which is the producer's scratch trie and has the published root, if and only if the payload did not reach the ingest (null root or file, or previous file not stored) and they were already, or it did and was not taken for genesis while live keys remain to be deleted |
| EndToEnd.NullRootIsSkipped | internal/strategy/chain_event_processor_strategy.go:1293-1298 | The published root is null exactly for an empty snapshot; the consume step then leaves the store as it is, which is right if and only if it was empty already |
| EndToEnd.ConsumerReachesSnapshot | internal/strategy/chain_event_processor_strategy.go:1293-1590 | If only the empty state has the null root, the consume step leaves the store at the snapshot if and only if it was there before, or the snapshot is not empty and the previous file is stored or none is referred to |
| EndToEnd.EmptySnapshotBlocksNext | internal/strategy/chain_event_processor_strategy.go:1293-1357 | A first, empty snapshot is skipped and its file is not stored, so the next snapshot, which refers to that file, is not ingested although it is not empty |
| EndToEnd.AgreementFromAnyRun | internal/strategy/chain_event_processor_strategy.go:1411-1590 | After any clean run, consuming a snapshot with distinct key hashes published at the live state and announced at a later slot leaves the store at the snapshot under the published root, if and only if it was there before, or the snapshot is not empty and the previous file is stored or none is referred to |
| EndToEnd.IngestedFileIsUndone | internal/database/rollback.go:15-24 | After the consume step at a slot, a rollback to before that slot brings back the log, live keys and trie the payload was published from |
| EndToEnd.IngestedFileSurvives | internal/database/rollback.go:15-24 | A rollback to that slot or later keeps the file, the log, the live keys and the trie as the step left them |
| OtherState.FoldAtOtherState | internal/database/operation.go:169-207 | Entries built from a payload published at another state execute if and only if the deletions of known keys find them live, and then reach the snapshot if and only if every key the payload leaves alone has its snapshot value already; for genesis, if no other key is live |
| OtherState.ConsumedAtOtherState | internal/strategy/chain_event_processor_strategy.go:1359-1590 | The same through the consume step, with the tables and the store invariant: what happens when a payload whose validation fails is ingested all the same |
| Validation.DecodeState | internal/strategy/chain_event_processor_strategy.go:447-461 | The conversion from hex, in any map order, is the identity on states produced from the database |
| Validation.DiffTrieOpsFromHexState | internal/strategy/chain_event_processor_strategy.go:442-469 | The hex-keyed diff agrees with the byte-keyed one on such states |
| Validation.CompareMaps | internal/strategy/chain_event_processor_strategy.go:196-303 | The three lists of a comparison are exact, and all empty if and only if the maps are equal |
| Validation.ValidateTrieOperations | internal/strategy/chain_event_processor_strategy.go:196-303 | On a state produced from the database the report is valid if and only if the published insertions, updates and deletions are those of the recomputed diff, and its lists name exactly the keys that differ |
| Validation.ValidOperationsReachSnapshot | internal/strategy/chain_event_processor_strategy.go:196-303 | Operations with a valid report take the previous state to the snapshot |
| Validation.GetStateFromDB | internal/strategy/chain_event_processor_strategy.go:150-192 | The previous state is empty for no reference or a null one, otherwise the as-of state, in hex, at the slot of a stored file with that CID; it fails exactly when there is none |
| Validation.PublishedValidates | internal/strategy/chain_event_processor_strategy.go:150-303 | What the producer publishes at the live state validates at the state the consumer looks up for the referenced file, when that is the newest stored one: the looked-up state is the live one |
| CursorTable.PruningKeepsFiftyOne | internal/database/cursor.go:32-44 | Pruning keeps ids from max - 50 on: with no gaps, the newest 51 points |
| CursorTable.IdsStayConsecutive | internal/database/cursor.go:24-46 | Adding points, pruned or not, leaves no gap in the ids |
| CursorTable.AddedPointLeads | internal/database/cursor.go:24-46 | A point newer than all kept ones becomes the head; pruning only shortens the tail |
| CursorTable.RewindDropsHead | internal/database/rollback.go:6-12 | A cursor rollback removes from the head exactly the points above the slot |
| CursorTable.CursorObject.AddCursorPoint | internal/database/cursor.go:24-46 | Inserts the row, then prunes when drawn |
| CursorTable.CursorObject.GetCursorPoints | internal/database/cursor.go:48-64 | The loop returns the points newest first |
| BlockAccounting.StepIsExact | internal/strategy/chain_event_processor_strategy.go:636-771 | Handling any fitting event without an error has exactly the database effects the chain calls for, and leaves the two maps saying what the chain says |
| EventLaws.FailsExactlyAt | internal/strategy/chain_event_processor_strategy.go:305-323 | A processor that has not failed fails exactly at a transaction that errs or whose block is not counted, or at the end of a block, not processed before, whose work breaks; the position to restart from stays |
| EventLaws.FailureStopsForGood | internal/strategy/chain_event_processor_strategy.go:699-771 | From the failing event on, whatever else arrives, transactions and rollbacks do nothing |
| EventLaws.EffectsOfEvent | internal/strategy/chain_event_processor_strategy.go:636-771 | The database work of any event in any state, in order |
| EventLaws.RestartAsked | internal/strategy/chain_event_processor_strategy.go:910-941 | In any state: when a restart is asked for and at which position, and what becomes of the mismatch count and of that position |
| EventLaws.ProcessedBlockIsSkipped | internal/strategy/chain_event_processor_strategy.go:821-851 | The end of a block already processed adds its cursor point and nothing else |
| EventLaws.ProcessedAfter | internal/strategy/chain_event_processor_strategy.go:590-604 | The processed blocks after any event: the finished one added, those a rollback undoes gone, and after work at the tip only those in the finality window |
| EventLaws.CountsAfter | internal/strategy/chain_event_processor_strategy.go:636-754 | The transaction counts after any event: set by a block, taken down by a transaction, gone at the end of a block and past a rollback, and collected outside the window |
| EventLaws.BarMoves | internal/strategy/chain_event_processor_strategy.go:782-808 | The progress bar appears with a status event short of a tip beyond the start slot, goes with one that reports the tip, and raises the start slot as it appears |
| EventLaws.OpeningShows | internal/strategy/chain_event_processor_strategy.go:651-672 | Only the first block event can find an offline rollback: it rewinds cursor and store to the start slot before anything else and makes its own slot the start slot |
| EventLaws.OfflineBlockOrders | internal/strategy/chain_event_processor_strategy.go:651-672 | Through that event the cursor stays in order if and only if no kept point lies between its slot and the start slot |
| BlockRuns.EventIsExact | internal/strategy/chain_event_processor_strategy.go:636-771 | The same at every event of every good stream |
| BlockRuns.OncePerCompletion | internal/strategy/chain_event_processor_strategy.go:724-752 | Over any good stream, rollbacks included, cursor points and block steps are the completed blocks, one of each per completion and in order |
| BlockRuns.FinalisedExactlyOnce | internal/strategy/chain_event_processor_strategy.go:644-692 | Without rollbacks every announced block, with or without transactions, gets one cursor point and one block step, in order; only the last may still be open |
| BlockRuns.CollectionKeepsWindow | internal/strategy/chain_event_processor_strategy.go:889-890 | At the tip, collection keeps exactly the blocks inside the finality window if and only if the current slot is at least 129600; below that the subtraction wraps |
| BlockRuns.FailureStopsAllButBlocks | internal/strategy/chain_event_processor_strategy.go:699-766 | After a failure transaction and rollback events change nothing, while a block event still writes exactly when it has no transactions or opens with the offline rollback |
| BlockRuns.FailureLasts | internal/strategy/chain_event_processor_strategy.go:853-858 | The failed state is never left |
| BlockRuns.RestartAfterThreeMismatches | internal/strategy/chain_event_processor_strategy.go:910-941 | A restart is requested exactly when an event brings the third or a later root mismatch in a row, and it names the block finished just before |
| BlockRuns.LastFinishedIsNewest | internal/strategy/chain_event_processor_strategy.go:929-933 | The block a restart would name is on the retained chain, and its newest, if and only if no rollback since it was finished went past it: rollbacks do not move that position |
| BlockRuns.RestartPointStranded | internal/strategy/chain_event_processor_strategy.go:929-933 | Concrete stream after which a restart would name a block that a rollback removed |
| BlockRuns.StartSlotMoves | internal/strategy/chain_event_processor_strategy.go:651-672 | The start slot goes up only with the status event that brings up the progress bar, to the cursor's slot, and down only with the offline rollback, to the block's slot |
| BlockRuns.StartSlotRaisedOncePerBar | internal/strategy/chain_event_processor_strategy.go:782-808 | Over any stream the start slot is raised at most once per progress bar: between two raises a status event reports the tip |
| BlockRuns.RewindIsFaithful | internal/database/rollback.go:6-12 | A cursor rollback follows the chain's if and only if no kept point lies at the slot with another hash; it empties the list exactly when it goes past every kept point |
| BlockRuns.CursorIsFaithful | internal/database/cursor.go:24-64 | Over any good stream whose rollbacks name no point beside a kept one, with any prunings, the cursor lists the retained blocks newest first without a gap, and is not empty right after a block was finished |
| BlockRuns.FaithfulExactlyWithoutForks | internal/database/cursor.go:24-64 | That condition is exact: over a good stream the cursor stays faithful at every event if and only if no rollback names a point beside a kept one |
| BlockRuns.ForkedPointStays | internal/database/rollback.go:6-12 | Concrete stream where a rollback to the same slot under another hash leaves the point of the removed block in the cursor |
| BlockRuns.ResumeSlotsDescend | internal/database/cursor.go:48-64 | Slots strictly decrease along the list |
| BlockRuns.OfflineRewindOrders | internal/strategy/chain_event_processor_strategy.go:651-672 | The rollback detected at start-up, which goes to the start slot and not to the block's, keeps the list in order if and only if no kept point lies between the two |
| BlockRuns.OfflineRewindKeepsHead | internal/strategy/chain_event_processor_strategy.go:651-672 | When the start slot is that of the newest cursor point, the branch leaves that point in place and the list out of order |
| ChainStore.StoreRewindIsFaithful | internal/strategy/chain_event_processor_strategy.go:1612-1622 | The store rollback of a rollback event leaves exactly the files of the retained chain if and only if no stored file belongs to a block at the slot with another hash |
| ChainStore.OfflineStoreRewind | internal/strategy/chain_event_processor_strategy.go:651-672 | The store rollback at start-up leaves exactly the files of the blocks before the first one if and only if no stored file lies between that block's slot and the start slot |
| ChainStore.OfflineBlockKeeps | internal/strategy/chain_event_processor_strategy.go:651-672 | The same through the block event that finds the offline rollback |
| ChainStore.ArrivalIsAnswered | internal/database/operation.go:62-75 | A file that arrives as it should is never an error: already stored if it is one of the held files, applied otherwise |
| ChainStore.FailedLeavesStore | internal/strategy/chain_event_processor_strategy.go:699-771 | A failed processor leaves the store alone, unless a block event finds the offline rollback |
| ChainStore.StoreHoldsRetainedChain | internal/strategy/chain_event_processor_strategy.go:636-771 | Over any good stream with its files, whose rollbacks name no point beside the block of a stored file, the store represents exactly the files of the blocks on the retained chain |
| RestartReplay.ReplayKeepsUp | internal/actors/strategy_manager.go:515 | Over any good stream that replays the chain a store that runs ahead of it holds exactly its files, each of a block on the chain or still ahead |
| RestartReplay.LevelIsCaughtUp | internal/database/operation.go:62-75 | Such a store holds exactly the files of the retained chain again if and only if no file is past the newest complete block, save of the block being received |
| RestartReplay.RestartCatchesUp | internal/actors/strategy_manager.go:506-545 | After a restart that sets cursor and processor back but not the store, any good stream of replayed blocks, new blocks and rollbacks leaves a store that holds exactly the files of the retained chain if and only if it is level with it |
| ProcessorObject.ChainEventProcessor.GarbageCollectOldBlocks | internal/strategy/chain_event_processor_strategy.go:590-604 | Both deleting loops leave exactly the entries at or above the cutoff |
| ProcessorObject.ChainEventProcessor.ProcessBlockEvent | internal/strategy/chain_event_processor_strategy.go:821-851 | Skips a processed block, otherwise marks it and does the work at the tip |
| ProcessorObject.ChainEventProcessor.ReceiveBlock | internal/strategy/chain_event_processor_strategy.go:636-693 | Takes the specified step for a block event |
| ProcessorObject.ChainEventProcessor.ReceiveTransaction | internal/strategy/chain_event_processor_strategy.go:699-754 | Takes the specified step; a failed processor ignores the event, an error or an uncounted block fails it, and any other transaction but the last takes the count down |
| ProcessorObject.ChainEventProcessor.ReceiveRollback | internal/strategy/chain_event_processor_strategy.go:1612-1675 | Four deleting loops together leave exactly the entries that survive the rollback |
| RestartBreaker.BreakerRefinesUnboundedHistory | internal/actors/strategy_manager.go:377-504 | With a clock that never goes back, a full reset is chosen exactly when the accepted requests since the last full reset still inside the window, this one included, number at least the threshold, although old records are dropped eagerly |
| RestartBreaker.HistoryStaysBelowThreshold | internal/actors/strategy_manager.go:468-492 | After a handled request fewer records than the threshold remain if and only if the threshold is at least one |
| RestartBreaker.PartialRestartsAreRare | internal/actors/strategy_manager.go:405-432 | Whenever a request has been accepted, the last threshold-many accepted since the last full reset span more than the window up to its check |
| RestartBreaker.StrategyManager.CleanupOldRestartRecords | internal/actors/strategy_manager.go:405-416 | The rebuilding loop keeps exactly the records strictly after the cutoff, in order |
| RestartBreaker.StrategyManager.HandleIndexerRestartRequest | internal/actors/strategy_manager.go:434-504 | Takes the specified decision and leaves the specified history |
| PendingTransactions.PendingNeverShareInputs | internal/strategy/chain_event_processor_strategy.go:1093-1167 | In every reachable table distinct pending transactions have disjoint inputs |
| PendingTransactions.CheckIsNeeded | internal/strategy/globals.go:59-71 | Recording without the check keeps inputs disjoint if and only if no other pending transaction holds one of them |
| PendingTransactions.AttemptRecords | internal/strategy/chain_event_processor_strategy.go:1079-1167 | A submission adds the accepted hash, with the inputs of the transaction sent last and the height, exactly when no check finds a conflict and the last answer accepts; otherwise the table is unchanged |
| PendingTransactions.ConfirmRemoves | internal/strategy/globals.go:73-80 | A confirmation removes its transaction and no other |
| PendingTransactions.AcceptedStays | internal/strategy/chain_event_processor_strategy.go:1093-1167 | After any run an accepted transaction, neither confirmed, replaced nor expired since, is in the table, and every attempt on one of its inputs leaves the table as it is |
| PendingTransactions.CleanupIsExact | internal/strategy/globals.go:82-98 | Cleanup at a height leaves exactly the entries submitted at most the allowed number of blocks before, and repeating it changes nothing |
| PendingTransactions.PendingTransactionTable.CheckInputConflicts | internal/strategy/globals.go:44-56 | Reports a conflict exactly when some input is pending, and names a transaction that holds one |
| PendingTransactions.PendingTransactionTable.CleanupOldPendingTransactions | internal/strategy/globals.go:82-98 | The deleting loop removes and returns exactly the expired entries |
| PendingTransactions.PendingTransactionTable.SubmitAndRecord | internal/strategy/chain_event_processor_strategy.go:1079-1167 | The table gains the accepted hash with the submitted or rebuilt inputs and the height exactly when the checks find no conflict and the last answer accepts, and is unchanged otherwise |

## Left out

- The Merkle Patricia Forestry library, Blake2b and CBOR: root and hashes are arbitrary functions. An
  absent key makes the store's trie report an error on delete, as the library does; the library itself
  is not part of this model.
- JSON string escaping is reduced to the quote and the backslash; Unicode and HTML escapes of the
  standard encoder are not modelled, and characters compare by code.
- The decoder model covers canonical text (no white space, no bare numbers), which is all that the
  consumer puts into an entry; decoding a number through a 64-bit float is not modelled.
- `oracle_file` and `trie` rows are one row in the model, as they are created and deleted together.
  `object`, `object_in_file` and the first-seen and last-seen columns are not modelled: the rollback
  recomputes those columns from rows it is deleting, so nothing exact holds of them.
- Complete collection of unused values: the collection reads the state before the statement, so the
  values a rollback itself orphans stay until a later one.
- Creation, update and confirmation times, fees and library names; a deletion time is a flag.
- Transactions, advisory locks, connection errors and error returns of the database; SQL statements are
  functions of one snapshot of the tables, and the rows of a batch appear together at its commit.
- The sort reorders the caller's entry slice in place; in the model it returns a sequence.
- A snapshot item is a list of fields in iteration order; a received snapshot is the published one in
  any order of members.
- Block hashes are bytes; the branch for a hash text that is not hex is not modelled, as the texts come
  from the block library.
- A value mismatch in a validation report is recorded by its key; the wording of the message is not modelled.
- The timestamp-ordered object query, cost statistics and pagination are plain SQL aggregates.
- Looking up an object id by its drum id, generating ids, cloud storage, wallet, transaction building
  and submission, provider clients, the HTTP interface, configuration loading, metrics and logging.
- Actors: spawning, poisoning and message delivery. The processor handles one event at a time.
- Processor, cursor and store are joined by their effects: the processor returns the database calls it
  makes, and the runs apply them to the cursor table and to the store.
- DatabaseObject.Database.ApplyOracleFile: does not model a database error inside the transaction, because
  connection errors are outside the model.
- Consumer.ConsumePayload: does not model the search for output, datum and redeemer, nor the read from
  cloud storage, that precede it, because they decode ledger formats and reach the network.
