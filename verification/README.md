# A verified model of Scharnhorst's transactional core

Scharnhorst is a deterministic simulation engine. Rules propose diffs, a journal collects them for the open tick,
and a commit applies them to columnar tables, publishes the result to readers and records what was done. This project
models that write path and the mechanisms around it in Dafny and proves what they keep and what they do not.

- **Write path.** `Tables`, `VersionedTables` and `Stores` hold tables as batches per tick with a map from row ids to
  positions. `TableRefinement` proves when that storage is a plain map from row ids to rows, `StoredValues` what it stores,
  by reading it back as JSON, and `TableIndexes` when the key index inside it finds a row. `StoreRollback` says what a
  rollback undoes, `StoreRetries` when the batch applies again. `QueryEngines` stages and publishes views. `Journals` is
  the commit, statement by statement, proved to be one transition of the whole world; `JournalRuns` proves atomicity,
  conservation and replay over all runs, `JournalRetries` which failed commits can succeed when retried, and
  `JournalReports` what commits report and what reads answer after them.
- **Columns and indexes.** `Columns` (bit-packed validity), `Batches` (grouped patching), `ReadViews` (merged batches and
  rebased positions), `KeyIndexes` (hot and cold layers) and `PrefetchCaches` (stamps for a recency list) each prove a
  fast form equal to a simple one.
- **Numbers.** `FixedPoints` (half-even rescaling, equality and order across scales, hashing), `Modifiers` (the error of
  a chain of multipliers), `ModifierLaws` (whole numbers, orders of multipliers) and `OperatorLaws` (when arithmetic and
  aggregation succeed, and with what).
- **Languages.** `SqlGrammar`, `SqlParsers`, `SqlRoundTrip`, `SqlLayout`, `SqlLanguage`, `SqlErrors` and `SqlDiffs` (the
  debug journal's SQL), `SemicolonScans` (the read path's statement guard), `Migrations` (the schema walk), `Expressions`,
  `ExpressionMeanings`, `ExpressionLaws`, `Evaluators` and `EffectLaws` (rule expressions and effects). `Machine` and
  `Texts` hold what these share.

Code that updates fields or runs loops is a class or a method, proved against a function on plain values; the laws are
lemmas about those functions. Errors are `Result` or `Option` values. What the program cannot decide by itself (whether
the save journal accepts a record, a diff's hash, the order in which a hash map is visited) is a parameter or an
arbitrary choice.

## What the proofs found

These properties do not hold of the code as one might expect; each has the condition under which it
does, most a concrete witness too.

- A position names a batch but no tick (`store.rs:1425-1448`). Inserting at a new tick while older rows are live makes
  those rows read as others: `CrossTickInsertWitness`. An insert is safe exactly under `InsertSafe`.
- A commit publishes only the batches of its own tick (`journal.rs:250-253`), while an update patches a row where it lies.
  So a reader finds exactly the rows located in the committed tick (`CommitPublishesRows`), and a table whose rows are
  older is published empty, even when it has just been updated (`UpdatedOldRowsVanish`).
- A rollback restores batches, not positions or the key index (`store.rs:1156-1169`). What it leaves can be read off the
  batch (`RollbackLeaves`), and it restores the tables exactly when the batch lands every row and index entry where it was
  (`RollbackRestoresIff`); updates always do. Otherwise replaying the commit records does not reproduce the tables at that
  point (`ReplayReproducesTablesIff`).
- A failed commit is promised to be ready for retry. Once its batch has applied, the first retry decides for all:
  a retry succeeds exactly if the batch suits the positions its first application left, the diffs can be encoded, the
  tables published and the record appended (`RetrySucceedsIff`); if it does not suit, no commit succeeds ever after
  unless the batch is cleared (`UnsuitedCommitIsStuck`). One insert does not suit, nor does any batch that leaves a row
  the opposite of what its first use asks (`UnbalancedDoesNotSuit`), but a batch that is balanced in every row need not
  suit either: deleting and inserting a row twice is stuck (`BalancedStuckWitness`). After deleting and inserting it once
  and rolling that back, the row reads as another (`MovedRowWitness`).
  The repository's own description of the journal system also says that store mutations are not rolled back at all; the
  code rolls back versions, and the model follows the code.
- `cmp` answers Equal when aligning two scales overflows (`fixed_point.rs:184`), so it disagrees with `eq` exactly there.
- `canonical_form` keeps the scale of zero (`fixed_point.rs:154`), so equal zeros of different scales hash differently.
- A cache at capacity evicts a row even when the inserted row is already resident (`cache.rs:119-135`), with the condition
  `OverwriteKeepsAllIff`; a prefetch can push out rows it lists (`PrefetchKeepsAllIff`, `ResidentLostIff`); and a cache of
  capacity 0 holds one row.
- Integer columns are read at scale 0, where modifiers are rounded to whole numbers (`evaluator.rs:464-471`,
  `IntegerColumnAggregate`): a multiplier of 1.5 acts as 2 (`OneAndAHalfWitness`), and a single multiplier acts at its own
  value exactly if the cell is 0 or the multiplier is whole (`ColumnMultiplierActsIff`).
- A signed column takes the integers up to 1025 above the maximum of i64 and stores the maximum for them
  (`store.rs:1615-1632`); every other value that is no double reads back as itself (`ReadsBackIff`).
- Multipliers are truncated one by one, so their order matters (`MulOrderMatters`), by at most the sum of the two error
  bounds (`OrdersDifferBy`).
- The key index of a table is written by inserts alone. A deleted row's entry stays (`DeletedRowStaysIndexed`), an update
  of the key cell does not move it (`UpdateCarriesIff`), and an inserted null or truncated fraction is indexed under a
  text that its row does not hold (`InsertFindsIff`).
- An update evaluated twice in a tick submits the same diff twice: effects read the published state.

## Model

| member | source | states |
|---|---|---|
| `FixedPoints.PowerCutoffs` | scharnhorst_core/src/fixed_point.rs:61-149 | which powers of ten the checked i64 and i128 powers can hold: exponents up to 18 and up to 38 |
| `FixedPoints.RescaleDownCorrect` | scharnhorst_core/src/fixed_point.rs:61-100 | lowering the scale succeeds exactly when the gap is at most 18, and the new raw value is the nearest one, ties going to the even value, for both signs |
| `FixedPoints.RescaleUpCorrect` | scharnhorst_core/src/fixed_point.rs:61-76 | raising the scale succeeds exactly when the scale is unchanged, or the gap is at most 18 and the scaled raw value fits, and keeps the value |
| `FixedPoints.HalfEvenUnique` | scharnhorst_core/src/fixed_point.rs:77-99 | half-even rounding leaves one possible answer, so the previous two rows fix the result |
| `FixedPoints.RescaleMonotone` | scharnhorst_core/src/fixed_point.rs:61-100 | rescaling two numbers of one scale keeps their order |
| `FixedPoints.RescaleRoundTrip` | scharnhorst_core/src/fixed_point.rs:61-100 | a successful rescale up, followed by the rescale back, returns the original number |
| `FixedPoints.CmpNormalizedIsValueOrder` | scharnhorst_core/src/fixed_point.rs:112-149 | the comparison gives the order of the two rationals whenever the aligning multiplication does not overflow, also where the power of ten itself overflows; it gives no answer otherwise |
| `FixedPoints.EqIsValueEquality` | scharnhorst_core/src/fixed_point.rs:162-166 | eq holds exactly when the two numbers denote the same rational, at all scales |
| `FixedPoints.CmpIsValueOrderIff` | scharnhorst_core/src/fixed_point.rs:182-186 | cmp gives the order of the rationals exactly when aligning the scales does not overflow |
| `FixedPoints.CmpAgreesWithEqIff` | scharnhorst_core/src/fixed_point.rs:162-186 | cmp answers Equal in agreement with eq exactly when alignment does not overflow |
| `FixedPoints.OverflowNeedsWideGap` | scharnhorst_core/src/fixed_point.rs:112-149 | alignment overflows only for scale gaps from 20 to 38 |
| `FixedPoints.CmpOverflowWitness` | scharnhorst_core/src/fixed_point.rs:182-186 | two concrete numbers of different value that cmp calls Equal |
| `FixedPoints.ValueOrderTransitive` | scharnhorst_core/src/fixed_point.rs:182-186 | the order of the rationals is transitive |
| `FixedPoints.CmpTotalOrder` | scharnhorst_core/src/fixed_point.rs:182-186 | on scales 0 to 19 cmp is a total order: antisymmetric, transitive, and Equal exactly for equal values |
| `FixedPoints.CanonicalForm` | scharnhorst_core/src/fixed_point.rs:151-160 | the loop that strips trailing zeros computes the specified canonical pair |
| `FixedPoints.CanonicalMeaning` | scharnhorst_core/src/fixed_point.rs:151-160 | the canonical pair has the same value, and no trailing zero is left unless the scale is 0 |
| `FixedPoints.HashAgreesWithEqIff` | scharnhorst_core/src/fixed_point.rs:162-180 | equal numbers have equal canonical pairs and so equal hashes, exactly unless both are zero with different scales; unequal numbers never share a pair |
| `OperatorLaws.AddIff` | scharnhorst_core/src/fixed_point.rs:188-199 | a sum exists exactly if the scales are equal and it fits i64 |
| `OperatorLaws.SubIff` | scharnhorst_core/src/fixed_point.rs:201-212 | a difference is exactly the number that added back gives the minuend |
| `OperatorLaws.MulIff` | scharnhorst_core/src/fixed_point.rs:214-231 | a product exists exactly if the scales are equal and at most 18 and the integer product fits; it is that product without the digits below the scale, towards zero |
| `OperatorLaws.DivIff` | scharnhorst_core/src/fixed_point.rs:233-253 | exactly when a quotient exists, for divisors of either sign, and that it is the truncated one |
| `Modifiers.ModifierRegistry.Register` | scharnhorst_rules/src/modifier.rs:71-78 | a modifier is appended to its own field and to no other |
| `Modifiers.ModifierRegistry.ClearField` | scharnhorst_rules/src/modifier.rs:80-83 | clearing a field forgets its modifiers and no others |
| `Modifiers.AddPhaseExact` | scharnhorst_rules/src/modifier.rs:98-108 | a successful run of Add modifiers adds exactly the sum of their rescaled raw values and keeps the scale |
| `Modifiers.MulStepError` | scharnhorst_rules/src/modifier.rs:44-56 | one multiplication is less than one raw unit away from the exact rational product |
| `Modifiers.ExactProductSpread` | scharnhorst_rules/src/modifier.rs:98-121 | a deviation carried through later multipliers is scaled by exactly their magnitudes |
| `Modifiers.MulPhaseError` | scharnhorst_rules/src/modifier.rs:98-121 | after a chain of multipliers the raw result is at most the sum, over the steps, of the product of the later magnitudes away from the exact product |
| `Modifiers.MulPhaseErrorBelowCount` | scharnhorst_rules/src/modifier.rs:98-121 | with multipliers of magnitude at most 1 the deviation is below the number of multipliers |
| `Modifiers.AggregateError` | scharnhorst_rules/src/modifier.rs:98-121 | aggregation without override: every modifier rescales, the scale is kept, additions are exact and the whole result is within the multiplication bound |
| `Modifiers.LastOverrideWins` | scharnhorst_rules/src/modifier.rs:98-121 | an override registered last is the result, unless an addition or multiplication before it fails |
| `OperatorLaws.FoldIff` | scharnhorst_rules/src/modifier.rs:98-108 | a phase ends at a number exactly if a chain of running values leads there, each addition exact and in range, each product in range and truncated |
| `OperatorLaws.AggregateIff` | scharnhorst_rules/src/modifier.rs:98-121 | so exactly when an aggregation succeeds and with what: the end of the multiplying chain after the adding one, or the value of the last override |
| `Modifiers.KindsCommute` | scharnhorst_rules/src/modifier.rs:98-121 | modifiers of different kinds may be registered in either order |
| `Modifiers.MulOrderMatters` | scharnhorst_rules/src/modifier.rs:98-121 | two multipliers whose order changes the result |
| `ModifierLaws.WholeNumberAggregate` | scharnhorst_rules/src/modifier.rs:98-121 | at scale 0 any list without override aggregates to exactly the base plus the rounded additions, times the product of the rounded multipliers |
| `ModifierLaws.RoundsToItselfIff` | scharnhorst_core/src/fixed_point.rs:61-100 | rescaling to scale 0 keeps the value exactly if the number is whole |
| `ModifierLaws.MultiplierActsIff` | scharnhorst_rules/src/modifier.rs:98-121 | one multiplier acts on a whole number at its own value exactly if the number is 0 or the multiplier is whole |
| `ModifierLaws.ExactMultipliersCommute` | scharnhorst_rules/src/modifier.rs:98-121 | two multipliers commute if either would be exact as the first of the two |
| `ModifierLaws.ExactProductIgnoresOrder` | scharnhorst_rules/src/modifier.rs:98-121 | the exact product is the same for every order of the multipliers |
| `ModifierLaws.OrdersDifferBy` | scharnhorst_rules/src/modifier.rs:98-121 | two orders of the same multipliers end at most the sum of their error bounds apart |
| `Columns.PatchOptions` | scharnhorst_arrow_store/src/store.rs:1949-1985 | the plain patch loop gives the patched cells |
| `Columns.PatchPrimitive` | scharnhorst_arrow_store/src/store.rs:1884-1947 | patching values and bit-packed validity in place denotes the same optional cells as the plain loop, for any bitmap, trailing bits, repeated and out-of-range targets |
| `Columns.PatchCellsAt` | scharnhorst_arrow_store/src/store.rs:1949-1985 | a patched cell is the row of the source that the last patch for its place names, or the old cell if no patch does |
| `Columns.PackBitsAt` | scharnhorst_arrow_store/src/store.rs:1884-1947 | the packed bitmap: bit i of byte i/8 is the i-th flag |
| `Batches.FractionsConvert` | scharnhorst_arrow_store/src/store.rs:1615-1667 | a fraction is dropped by signed columns and refused by unsigned ones |
| `Batches.RowToBatch` | scharnhorst_arrow_store/src/store.rs:1750-1765 | a JSON row becomes a one-row batch exactly when every cell converts and no required cell is null, and the batch holds the converted row |
| `Batches.UpdatePatch` | scharnhorst_arrow_store/src/store.rs:1767-1790 | the one-row patch of an update |
| `Batches.NullPatch` | scharnhorst_arrow_store/src/versioned_table.rs:228-248 | the one-row patch of a deletion: null where the field allows it, the old cell elsewhere |
| `Batches.PatchOneRow` | scharnhorst_arrow_store/src/store.rs:1845-1861 | patching one row replaces that row and no other |
| `Batches.GroupByBatch` | scharnhorst_arrow_store/src/store.rs:487-501 | locations are bucketed by batch, each bucket in list order |
| `Batches.BucketsAgree` | scharnhorst_arrow_store/src/store.rs:1534-1548 | a batch patched with its bucket is what patching the locations one by one in list order makes of it |
| `Batches.PatchGrouped` | scharnhorst_arrow_store/src/store.rs:487-501 | patching bucket by bucket, in any order of the buckets, equals patching location by location; it fails exactly when some batch would become malformed |
| `StoredValues.ConvertIff` | scharnhorst_arrow_store/src/store.rs:1556-1691 | exactly which JSON values a column of each type takes, and that the cell it stores reads back as the value, a double as its whole part |
| `StoredValues.ReadsBackIff` | scharnhorst_arrow_store/src/store.rs:1556-1691 | every null, flag, text or integer that a column takes reads back as itself, exactly unless it is an integer above i64 in a signed column, which is stored as the maximum |
| `StoredValues.AbsRowIff` | scharnhorst_arrow_store/src/store.rs:1750-1765 | exactly which JSON rows a schema takes, and that the stored row stands for the given values column by column, null where none is given |
| `KeyIndexes.PrimaryKeyIndex.Insert` | scharnhorst_arrow_store/src/index.rs:58-75 | insert acts on both layers as specified and keeps them in agreement |
| `KeyIndexes.PrimaryKeyIndex.LookupLatest` | scharnhorst_arrow_store/src/index.rs:82-85 | lookup_latest reads the hot layer |
| `KeyIndexes.PrimaryKeyIndex.RemoveKey` | scharnhorst_arrow_store/src/index.rs:87-92 | remove_key drops a key from both layers and returns its history |
| `KeyIndexes.InsertKeepsLayers` | scharnhorst_arrow_store/src/index.rs:58-75 | inserting keeps hot and cold layers in agreement |
| `KeyIndexes.LatestOfPosition` | scharnhorst_arrow_store/src/index.rs:13-19 | the latest entry of a history is the last one of greatest tick |
| `KeyIndexes.LookupsAfterRun` | scharnhorst_arrow_store/src/index.rs:58-92 | after any inserts and removals both layers answer for a key as the list of its surviving entries says, the hot layer with the last-inserted entry of maximal tick |
| `KeyIndexes.VisitLatest` | scharnhorst_arrow_store/src/store.rs:664-685 | for every visiting order of the ticks the surviving latest entry is the last of the newest tick that has the key |
| `KeyIndexes.LatestLocationUnique` | scharnhorst_arrow_store/src/store.rs:664-685 | there is one such entry |
| `KeyIndexes.BuildPrimaryKeyIndex` | scharnhorst_arrow_store/src/store.rs:664-685 | the built index maps each key that occurs to its latest location and no other key, whatever order the ticks are visited in |
| `VersionedTables.VersionedTable.Locate` | scharnhorst_arrow_store/src/store.rs:1262-1300 | a row is found by its batch index in the latest tick that has so many batches; each failure has its own error |
| `VersionedTables.VersionedTable.ApplyPatch` | scharnhorst_arrow_store/src/store.rs:1516-1550 | a patch changes one batch of one tick |
| `VersionedTables.VersionedTable.ApplyUpdate` | scharnhorst_arrow_store/src/store.rs:1262-1332 | update acts on the table as the specification does |
| `VersionedTables.VersionedTable.ApplyDelete` | scharnhorst_arrow_store/src/store.rs:1334-1392 | delete acts on the table as the specification does |
| `VersionedTables.VersionedTable.ApplyInsert` | scharnhorst_arrow_store/src/store.rs:1394-1451 | insert acts on the table as the specification does |
| `VersionedTables.VersionedTable.ApplyReplace` | scharnhorst_arrow_store/src/store.rs:1453-1514 | replace acts on the table as the specification does, also when a row fails part-way |
| `TableRefinement.UpdateRefines` | scharnhorst_arrow_store/src/store.rs:1262-1332 | update fails exactly when the map update does; otherwise it changes one cell of one row, keeps the placement invariant, positions and index |
| `StoredValues.UpdateStores` | scharnhorst_arrow_store/src/store.rs:1262-1332 | an update succeeds exactly if the row is live and the first column of that name takes the value; then that cell reads back as the value and nothing else has changed; the error says which of the two is missing |
| `StoredValues.LocateErrors` | scharnhorst_arrow_store/src/store.rs:1262-1300 | which fault is reported, in a table in any state: no such row, no tick with its batch, or an offset beyond the batch |
| `StoredValues.InsertStores` | scharnhorst_arrow_store/src/store.rs:1394-1451 | a safe insert succeeds exactly if the schema resolves, the id is new and the schema takes the values; then the new row stands for them and the old rows stay |
| `StoredValues.DeleteWipes` | scharnhorst_arrow_store/src/store.rs:1334-1392 | a delete also wipes the cells of the row where it lay, as far as they are nullable |
| `StoredValues.ReplaceStores` | scharnhorst_arrow_store/src/store.rs:1453-1514 | a safe replacement succeeds exactly if there are rows, the schema takes each and each has an id of its own: its primary key, as a number or its digits, or its place; it leaves exactly rows that stand for them |
| `StoredValues.ReplaceErrors` | scharnhorst_arrow_store/src/store.rs:1453-1514 | a replacement reports a duplicate exactly for the first row that repeats an id after good rows only |
| `StoredValues.ReplacePositions` | scharnhorst_arrow_store/src/store.rs:1453-1514 | the position map a replacement leaves, also when it fails part-way: the ids of every row looked at, the faulty one included, each at the place of its first row |
| `TableRefinement.DeleteRefines` | scharnhorst_arrow_store/src/store.rs:1334-1392 | delete removes exactly one row from the map |
| `TableRefinement.InsertPlacedIff` | scharnhorst_arrow_store/src/store.rs:1394-1451 | a successful insert leaves every row readable where the position map points exactly when no later tick hides the new batch and no row already uses its batch index |
| `TableRefinement.InsertRefines` | scharnhorst_arrow_store/src/store.rs:1394-1451 | a safe insert adds exactly one row to the map and keeps the invariant |
| `TableRefinement.ReplacePlacedIff` | scharnhorst_arrow_store/src/store.rs:1453-1514 | after a replacement every row is found in the replacing tick exactly when no later tick has batches |
| `TableRefinement.ReplaceRefines` | scharnhorst_arrow_store/src/store.rs:1453-1514 | a safe replacement leaves exactly the given rows under their ids; an invalid or repeated id, or a row the schema refuses, fails it, as on the map |
| `TableRefinement.RunRefinesMap` | scharnhorst_arrow_store/src/store.rs:1262-1514 | storage refines a map from row ids to rows: over any safe run of diffs both fail together, or reading through the position map gives exactly the map |
| `TableRefinement.DisciplineIsSafe` | scharnhorst_arrow_store/src/store.rs:1425-1448 | inserting at the latest tick, or into a table without rows, and replacing at that tick or later are safe |
| `TableRefinement.DisciplinedRunIsSafe` | scharnhorst_arrow_store/src/store.rs:1262-1514 | so every run that keeps to that discipline refines the map, and ends with every row in range of the latest tick |
| `TableRefinement.CrossTickInsertWitness` | scharnhorst_arrow_store/src/store.rs:1425-1448 | inserting at a newer tick makes an older row read as the new one |
| `TableIndexes.InsertLocatesIff` | scharnhorst_arrow_store/src/store.rs:1394-1451 | after a safe insert the latest entry of its key is where its row is found exactly if the key had no entry of a later tick |
| `TableIndexes.InsertFindsIff` | scharnhorst_arrow_store/src/store.rs:1394-1451 | and that row carries the key exactly if its stored key cell reads as the JSON value it was indexed under |
| `StoredValues.KeyTextIsCellText` | scharnhorst_arrow_store/src/store.rs:1425-1448 | a value is indexed under the text of its cell if it reads back as itself and is not null; a null is indexed under a text that its row does not hold |
| `TableIndexes.LocatesKeptIff` | scharnhorst_arrow_store/src/store.rs:1262-1514 | exactly when a safe diff leaves a key locating its row: every update, the delete of another row, an insert that does not write the key at this tick or later, and a replacement that puts the row where the entry points |
| `TableIndexes.DeletedRowStaysIndexed` | scharnhorst_arrow_store/src/store.rs:1334-1392 | a deleted row keeps its latest entry, which points at a row that is no longer live |
| `TableIndexes.UpdateCarriesIff` | scharnhorst_arrow_store/src/store.rs:1262-1332 | an update leaves the index alone, and a row carries its key afterwards exactly unless the update writes another value into its key cell |
| `TableIndexes.OtherRowCarries` | scharnhorst_arrow_store/src/store.rs:1334-1451 | inserting or deleting one row leaves the key another row carries alone |
| `Stores.ArrowStore.CreateTable` | scharnhorst_arrow_store/src/store.rs:269-302 | a new table is created empty, an existing one refused |
| `Stores.ArrowStore.AdvanceToSimulation` | scharnhorst_arrow_store/src/store.rs:1061-1069 | the store enters simulation once, where commits are allowed and tables can no longer be created; a second time is an error |
| `Stores.ArrowStore.ApplyDispatched` | scharnhorst_arrow_store/src/store.rs:1177-1256 | a diff reaches the table it names |
| `Stores.ArrowStore.ApplyUntilError` | scharnhorst_arrow_store/src/store.rs:1075-1137 | diffs apply in order up to the first error |
| `Stores.ArrowStore.ApplyDiffs` | scharnhorst_arrow_store/src/store.rs:1075-1137 | a failing batch has the versions of all touched tables restored |
| `Stores.ArrowStore.SaveTableVersions` | scharnhorst_arrow_store/src/store.rs:1139-1154 | the saved versions are those of the named tables |
| `Stores.ArrowStore.RestoreTableVersions` | scharnhorst_arrow_store/src/store.rs:1156-1169 | restoring puts the versions back and leaves positions and index alone |
| `Stores.ArrowStore.GenerateSnapshot` | scharnhorst_arrow_store/src/store.rs:549-594 | a snapshot of all tables is stored and the generation counter wraps at the machine word |
| `JournalReports.BatchErrorIff` | scharnhorst_arrow_store/src/store.rs:1075-1137 | a batch stops at its first failing diff, with that diff's error or for want of its table, and leaves what the diffs up to it have done |
| `StoreRollback.RollbackRestoresVersions` | scharnhorst_arrow_store/src/store.rs:1120-1169 | after a rollback the batches of every tick of every table are as before |
| `StoreRollback.UpdatesRollBackCompletely` | scharnhorst_arrow_store/src/store.rs:1120-1169 | a batch of updates is undone completely |
| `StoreRollback.RollbackLeaves` | scharnhorst_arrow_store/src/store.rs:1120-1169 | exactly what a rollback leaves of a table, for any batch however far it got: the old batches with the positions and index that the applied diffs, and a replacement that failed, landed in |
| `StoreRollback.RollbackRestoresIff` | scharnhorst_arrow_store/src/store.rs:1120-1169 | a rollback restores the tables exactly when those diffs land every row and every index entry where it was |
| `StoreRollback.AppliedBatchRestoresIff` | scharnhorst_arrow_store/src/store.rs:1156-1169 | for a batch that applies this is read off the batch: the k-th insert lands in the k-th new batch of the tick, a delete removes, a replacement starts afresh |
| `StoreRollback.IndexRestoredIff` | scharnhorst_arrow_store/src/store.rs:1156-1169 | the key index is restored exactly when no insert into the table carries its key column |
| `StoreRollback.RowAfterBatch` | scharnhorst_arrow_store/src/store.rs:1262-1514 | when a batch applies, every row was live or dead as its first use asks, and is live afterwards as its last insert, delete or replacement says |
| `StoreRollback.LiveRowsRestoredIff` | scharnhorst_arrow_store/src/store.rs:1156-1169 | after a rollback the set of live rows is the old one exactly when the last effect on every row is what the row was before |
| `StoreRollback.UnmetStaysUnmet` | scharnhorst_arrow_store/src/store.rs:1075-1137 | a batch that cannot meet the first use of some row fails, and its rollback leaves it so |
| `StoreRollback.UnbalancedRetryFails` | scharnhorst_arrow_store/src/store.rs:1156-1169 | an applied batch that leaves some row the opposite of what its first use asks fails when applied again after its rollback, at any tick; RetryAppliesIff has the exact condition |
| `StoreRollback.MovedRowWitness` | scharnhorst_arrow_store/src/store.rs:1156-1169 | deleting and inserting one row is balanced for every row, and after the rollback that row has the position of another |
| `StoreRollback.InsertRetryWitness` | scharnhorst_arrow_store/src/store.rs:1156-1169 | an insert that is rolled back and retried is refused as a duplicate |
| `StoreRetries.DiffAlike` | scharnhorst_arrow_store/src/store.rs:1177-1256 | on tables of one shape, a diff that succeeds on the one succeeds on the other exactly if it suits its positions, and leaves them of one shape |
| `StoreRetries.BatchAlike` | scharnhorst_arrow_store/src/store.rs:1075-1137 | a batch that applies to some tables applies to tables of the same shape exactly when each of its diffs suits the positions it meets |
| `StoreRetries.LandedTwice` | scharnhorst_arrow_store/src/store.rs:1156-1169 | landing the same diffs a second time, from where the first time left the rows, moves nothing |
| `StoreRetries.RetryAppliesIff` | scharnhorst_arrow_store/src/store.rs:1075-1169 | exactly when a rolled-back batch applies again: every insert meets an absent row, every update and delete a row that is located, with the positions the first application left |
| `StoreRetries.SuitingStays` | scharnhorst_arrow_store/src/store.rs:1075-1169 | a batch that applies again leaves the same positions after every further rollback, so it goes on applying |
| `StoreRetries.UnsuitedStays` | scharnhorst_arrow_store/src/store.rs:1075-1169 | a batch that does not suit stays so after every further attempt, with any diffs submitted behind it |
| `StoreRetries.BalancedStuckWitness` | scharnhorst_arrow_store/src/store.rs:1156-1169 | deleting and inserting a row twice is balanced for every row, applies, and never applies again |
| `ReadViews.BatchOffsets` | scharnhorst_query/src/unified_read.rs:189-200 | the running offsets are the sums of the earlier row counts |
| `ReadViews.RebasePositionMap` | scharnhorst_query/src/unified_read.rs:189-210 | the loop computes the rebased map, in whatever order the rows are visited |
| `ReadViews.RebasedIsInjective` | scharnhorst_query/src/unified_read.rs:189-210 | exactly the rows whose position is in range survive a merge, and distinct rows keep distinct positions |
| `ReadViews.ConcatRow` | scharnhorst_query/src/unified_read.rs:34-60 | the concatenated batch holds each original row at its base plus its offset |
| `ReadViews.NewView` | scharnhorst_query/src/unified_read.rs:27-69 | a view merges its batches and rebases the map together, or does neither |
| `ReadViews.MergesIff` | scharnhorst_query/src/unified_read.rs:34-60 | exactly when a view has merged its batches into one: there are several, of one schema, and their rows can be counted; otherwise batches and map are as given |
| `ReadViews.ViewReadsOriginal` | scharnhorst_query/src/unified_read.rs:27-69 | every row reads the same through the view as through the original batches and map |
| `ReadViews.ViewShowsRowsOfTick` | scharnhorst_query/src/unified_read.rs:27-69 | a view of a tick shows a row that no later tick holds exactly if it is located in that tick, whatever else the table holds |
| `ReadViews.BuildPositionMap` | scharnhorst_query/src/unified_read.rs:177-187 | without a given map the rows are numbered through the batches in order |
| `QueryEngines.QueryEngine.BeginIngest` | scharnhorst_query/src/engine.rs:945-991 | begin stages an empty ingest and captures what readers see, unless one is active |
| `QueryEngines.QueryEngine.IngestSnapshot` | scharnhorst_query/src/engine.rs:275-335 | a view goes into the staged ingest, or straight into the cache if there is none; ticks must agree |
| `QueryEngines.QueryEngine.StoreWorldSnapshot` | scharnhorst_query/src/engine.rs:351-397 | publishing moves the staged views, tick and snapshot in at once |
| `QueryEngines.QueryEngine.Rollback` | scharnhorst_query/src/engine.rs:911-943 | rollback puts back what begin captured and drops the staging |
| `QueryEngines.QueryEngine.Read` | scharnhorst_query/src/engine.rs:215-257 | a read succeeds exactly if its tick is zero or the published one and every table is cached, and then gives the cached views |
| `QueryEngines.ReadIff` | scharnhorst_query/src/engine.rs:215-257 | the same with the errors: a stale tick is reported first, with the published tick, then the first table that is missing |
| `QueryEngines.StepsKeepFiled` | scharnhorst_query/src/engine.rs:275-397 | whatever the engine does, its cached and staged views stay filed under their own names, which the two rows above rely on |
| `QueryEngines.DirectIngestIsRead` | scharnhorst_query/src/engine.rs:317-335 | without a staged ingest a view is readable at its tick at once, and every other tick but zero is refused |
| `QueryEngines.CollectedViews` | scharnhorst_query/src/engine.rs:229-257 | a read of several tables fails exactly when one is missing and otherwise returns exactly those |
| `QueryEngines.StampedReads` | scharnhorst_query/src/engine.rs:215-257 | any successful read at a nonzero tick of a stamped cache returns only views of that tick |
| `QueryEngines.StagingIsInvisible` | scharnhorst_query/src/engine.rs:297-316 | staging a view changes nothing a reader can see |
| `QueryEngines.IngestAllStages` | scharnhorst_query/src/engine.rs:275-335 | staging a list of views succeeds exactly when all their tables are registered, and stages the last view of each name |
| `QueryEngines.PublicationIsAtomic` | scharnhorst_query/src/engine.rs:275-397 | begin, ingest all, store: either everything is published or the engine is as before, and no ingest stays active |
| `Journals.Journal.SubmitCommand` | scharnhorst_journal/src/journal.rs:95-127 | a command is taken in order, if the journal is open and the tick is the current one |
| `Journals.Journal.SubmitDiff` | scharnhorst_journal/src/journal.rs:142-163 | a diff is taken in order while the journal is open |
| `Journals.Journal.SubmitBatch` | scharnhorst_journal/src/journal.rs:166-176 | a batch is taken in order |
| `Journals.Journal.ClearPending` | scharnhorst_journal/src/journal.rs:369-383 | clearing drops what is pending and nothing else, while open |
| `Journals.Journal.ApplyDiffsAndHash` | scharnhorst_journal/src/journal.rs:401-421 | apply, snapshot, then hash; a diff that cannot be encoded is found after the snapshot is taken |
| `Journals.StateHashJoins` | scharnhorst_journal/src/journal.rs:401-421 | the state hash of joined batches is the wrapping sum of their hashes |
| `Journals.StateHashIgnoresOrder` | scharnhorst_journal/src/journal.rs:401-421 | batches with the same diffs in any order have the same state hash |
| `Journals.StateHashIsSum` | scharnhorst_journal/src/journal.rs:401-421 | there is a state hash exactly if every diff can be encoded, and it is the integer sum of the diffs' hashes modulo 2^64 |
| `Journals.Journal.PublishTables` | scharnhorst_journal/src/journal.rs:241-285 | all tables are staged and published, or the visible engine is unchanged |
| `Journals.Journal.Publish` | scharnhorst_journal/src/journal.rs:241-285 | a failed publication leaves the whole engine as it was |
| `Journals.Journal.Record` | scharnhorst_journal/src/journal.rs:309-337 | the record is appended to a history of at most 1024 and the tick advances, stopping below the sentinel |
| `Journals.Journal.CommitTick` | scharnhorst_journal/src/journal.rs:194-337 | the step-by-step commit with its undo paths is one transition of the whole world, for every failure point |
| `Journals.CommitCases` | scharnhorst_journal/src/journal.rs:209-312 | that transition in terms of the two stages it is carried out in |
| `JournalReports.CommitReports` | scharnhorst_journal/src/journal.rs:309-337 | a successful commit returns its tick, the numbers of its diffs and commands and the sum of their hashes, and records the tick, the diffs, the commands and that hash |
| `JournalReports.CommitErrors` | scharnhorst_journal/src/journal.rs:194-312 | why a commit fails: of journal open, simulation, every diff applies, every diff can be encoded, tables published, record appended, the first that does not hold |
| `JournalReports.HistoryAndTick` | scharnhorst_journal/src/journal.rs:309-337 | over any run the history holds the newest 1024 records, and the open tick is the number of records up to the last tick before the sentinel |
| `JournalReports.RunKeepsHashes` | scharnhorst_journal/src/journal.rs:194-337 | over any run every record carries the hash of its diffs, and the records' hashes add up to the hash of all committed diffs |
| `JournalReports.RunCountsSnapshots` | scharnhorst_arrow_store/src/store.rs:549-594 | over any run the store's generation counts the snapshots taken, those of failed commits included, modulo the machine word |
| `JournalRuns.FailedCommitIsAtomic` | scharnhorst_journal/src/journal.rs:209-312 | a failed commit leaves tick, phase, history, pending diffs and commands, engine, and the versions of every table as before; all of the tables if the batch is updates only |
| `JournalRuns.FailedCommitRestoresIff` | scharnhorst_journal/src/journal.rs:209-312 | a failed commit leaves the tables as they were exactly when the diffs of its batch that left a trace cancel out |
| `JournalRuns.UndoneRetryLikeFirstTime` | scharnhorst_journal/src/journal.rs:209-312 | then, and always for updates alone, a retry after a failed append ends as a first-time success does |
| `JournalRuns.UnbalancedCommitIsStuck` | scharnhorst_journal/src/journal.rs:209-312 | if a commit fails after its batch applied and the batch is unbalanced in some row, no later commit of any run succeeds, whatever is submitted besides; RetrySucceedsIff has the exact condition |
| `JournalRuns.StepKeepsAccounts` | scharnhorst_journal/src/journal.rs:142-337 | every submit and every commit, successful or not, keeps the accounts of the next row |
| `JournalRuns.RunKeepsAccounts` | scharnhorst_journal/src/journal.rs:142-337 | over any interleaving: committed diffs in order followed by the pending ones are exactly the submitted ones, the same for commands; ticks are consecutive; history is the newest min(n, 1024) records |
| `JournalRetries.RunKeepsUniform` | scharnhorst_journal/src/journal.rs:194-337 | over any run every batch keeps its table's schema |
| `JournalRetries.RetrySucceedsIff` | scharnhorst_journal/src/journal.rs:209-312 | after a commit failed although its batch applied, and after any number of failed retries, a retry succeeds exactly if the batch suits the positions its first application left, its diffs can be encoded, the tables can be published and the save journal takes the record |
| `JournalRetries.UnsuitedCommitIsStuck` | scharnhorst_journal/src/journal.rs:209-312 | if the batch does not suit those positions, no later commit of any run succeeds, whatever is submitted besides |
| `JournalRetries.UnbalancedDoesNotSuit` | scharnhorst_journal/src/journal.rs:209-312 | a batch that leaves some row the opposite of what its first use asks does not suit them |
| `JournalRuns.CommittedSnapshotStays` | scharnhorst_journal/src/journal.rs:194-337 | after any run the store's snapshot of every committed tick is what that commit produced |
| `JournalRuns.RunKeepsSnapshotsLogged` | scharnhorst_journal/src/journal.rs:194-337 | over any run a snapshot belongs to a committed tick or to the open one, where a failed commit can leave it |
| `JournalRuns.RunKeepsTicks` | scharnhorst_journal/src/journal.rs:194-337 | over any run no table has a version later than the last committed tick |
| `JournalRuns.RunKeepsEngine` | scharnhorst_journal/src/journal.rs:194-337 | over any run, between commits no ingest is staged, every cached view carries the last committed tick, and the cache is the views of the last snapshot, whose batches are still those of the store |
| `JournalRuns.RunShowsRows` | scharnhorst_journal/src/journal.rs:194-337 | at every moment of every run a reader gets exactly the rows of the last commit that are located in its tick |
| `JournalRuns.CommitPublishesRows` | scharnhorst_journal/src/journal.rs:241-285 | after a commit, reading a row through the engine gives it exactly if it is located in the committed tick, and as the table has it |
| `JournalRuns.RunPublishesRows` | scharnhorst_journal/src/journal.rs:194-337 | the same for every commit of every run, for all rows |
| `JournalReports.CommittedTablesAreRead` | scharnhorst_journal/src/journal.rs:241-285 | in every run, right after a successful commit, reading any of the store's tables at the committed tick succeeds with exactly its rows located there, and any other tick but zero is refused |
| `JournalReports.RunReads` | scharnhorst_journal/src/journal.rs:194-337 | at every moment of every run that has committed, reading any tables at the last committed tick succeeds with exactly the rows of that commit located in it |
| `JournalRuns.UpdatedOldRowsVanish` | scharnhorst_journal/src/journal.rs:241-285 | a commit of updates alone publishes a table without batches at the committed tick as empty, though its rows are live |
| `JournalRuns.ReplayReproducesTablesIff` | scharnhorst_journal/src/journal.rs:194-337 | replaying the commit records reproduces the tables after every event of a run exactly when every failed commit of the run is undone |
| `JournalRuns.ReplayReproducesTables` | scharnhorst_journal/src/journal.rs:194-337 | so replay reproduces the tables at the end of such a run |
| `JournalRuns.ReplayWitness` | scharnhorst_journal/src/journal.rs:194-337 | without that condition a failed insert leaves tables that no replay reproduces |
| `PrefetchCaches.PrefetchCache.Get` | scharnhorst_rules/src/cache.rs:98-108 | get answers from the cache and moves the entry to most recent |
| `PrefetchCaches.PromotedAt` | scharnhorst_rules/src/cache.rs:98-108 | a read row goes to the recent end and the others keep their order |
| `PrefetchCaches.PrefetchCache.EvictLru` | scharnhorst_rules/src/cache.rs:190-201 | the scan for the least stamp removes exactly the least recent entry |
| `PrefetchCaches.PrefetchCache.Insert` | scharnhorst_rules/src/cache.rs:119-135 | an insert at capacity evicts the least recent entry first; size stays within max(1, capacity) |
| `PrefetchCaches.PrefetchCache.Prefetch` | scharnhorst_rules/src/cache.rs:154-188 | prefetch reads one view and caches it for the listed rows that are absent, in order; other entries keep theirs; a failed read changes nothing |
| `PrefetchCaches.PrefetchCache.SetTick` | scharnhorst_rules/src/cache.rs:78-83 | a new tick empties the cache |
| `PrefetchCaches.InsertedSize` | scharnhorst_rules/src/cache.rs:119-135 | an insert leaves the row resident and between one and max(1, capacity) rows in the cache |
| `PrefetchCaches.EncodesOneList` | scharnhorst_rules/src/cache.rs:98-201 | distinct stamps stand for one recency list |
| `PrefetchCaches.InsertAtCapacity` | scharnhorst_rules/src/cache.rs:119-135 | inserting an absent row at capacity removes exactly the least recent one |
| `PrefetchCaches.OverwriteAtCapacity` | scharnhorst_rules/src/cache.rs:119-135 | overwriting a resident row at capacity evicts another row all the same, unless the row was the least recent |
| `PrefetchCaches.OverwriteKeepsAllIff` | scharnhorst_rules/src/cache.rs:119-135 | for any list and capacity an overwrite keeps all rows exactly when there is room to spare or the row is the least recent |
| `PrefetchCaches.PrefetchClosedForm` | scharnhorst_rules/src/cache.rs:154-188 | for any capacity, prefetching absent rows leaves exactly the newest ones that fit |
| `PrefetchCaches.PrefetchLeavesAllResident` | scharnhorst_rules/src/cache.rs:154-188 | at most capacity absent rows are all resident after a prefetch |
| `PrefetchCaches.PrefetchLeavesNewest` | scharnhorst_rules/src/cache.rs:154-188 | for any capacity and any listed rows, resident, absent or repeated, a prefetch leaves the newest of the old and the missed rows |
| `PrefetchCaches.ResidentLostIff` | scharnhorst_rules/src/cache.rs:154-188 | a resident row that is not missed is lost exactly when more rows are missed than its place in the list allows |
| `PrefetchCaches.PrefetchKeepsAllIff` | scharnhorst_rules/src/cache.rs:154-188 | all resident and all listed rows stay exactly when there is room for the absent ones |
| `PrefetchCaches.PrefetchResidentWitness` | scharnhorst_rules/src/cache.rs:154-188 | a prefetch of two rows, one resident, that leaves the resident one out |
| `Migrations.MigrationPipeline.Register` | scharnhorst_save/src/migration.rs:68-70 | steps are kept in registration order |
| `Migrations.MigrationPipeline.Apply` | scharnhorst_save/src/migration.rs:73-117 | the loop ends and its outcome is right about the first-match walk: target reached within the number of steps, a dead end, a failing step, or a revisited version |
| `Migrations.ReachingIsShort` | scharnhorst_save/src/migration.rs:73-117 | a walk that reaches the target takes at most as many steps as are registered |
| `Migrations.LongWalkRevisits` | scharnhorst_save/src/migration.rs:96-102 | a longer walk has revisited a version, by the pigeonhole principle |
| `Migrations.RevisitsForEver` | scharnhorst_save/src/migration.rs:73-117 | a walk that revisits a version never ends |
| `Migrations.WaysAreExclusive` | scharnhorst_save/src/migration.rs:73-117 | reaching the target, a dead end and a revisit exclude one another |
| `Migrations.ApplySucceedsIff` | scharnhorst_save/src/migration.rs:73-117 | whatever the steps do, migration succeeds exactly when the walk reaches the target with every step succeeding, and returns exactly the tables so produced |
| `Migrations.FirstMatchIsFirst` | scharnhorst_save/src/migration.rs:81-85 | of several steps from one version the one registered first is taken |
| `Migrations.MigrateAllIff` | scharnhorst_save/src/migration.rs:87-93 | a step succeeds with some tables exactly if they are, place by place, what it makes of the old ones, and fails exactly if it fails on one |
| `Migrations.TablesAfterIff` | scharnhorst_save/src/migration.rs:78-103 | so the walk takes each table through the composition of its steps |
| `Migrations.ApplyMigratesEach` | scharnhorst_save/src/migration.rs:73-117 | migration succeeds with some tables exactly if the walk reaches the target and its composed steps take every table to the one at its place |
| `Migrations.FailsAtIff` | scharnhorst_save/src/migration.rs:87-93 | a step is reported as failing exactly if it is the first of the walk to fail on some table |
| `Migrations.ApplyDecidesTheWalk` | scharnhorst_save/src/migration.rs:73-117 | with steps that never fail, success, no path and cycle are reported exactly when the walk reaches the target, meets a dead end, or revisits a version |
| `SqlParsers.Tokenizer.SkipWhitespace` | scharnhorst_journal/src/sql_parser.rs:401-410 | skips exactly the leading spaces; the position never moves back or past the end |
| `SqlParsers.Tokenizer.EnsureFinished` | scharnhorst_journal/src/sql_parser.rs:412-421 | accepts exactly when only spaces are left; the position never moves back or past the end |
| `SqlParsers.Tokenizer.ConsumeKeyword` | scharnhorst_journal/src/sql_parser.rs:430-449 | takes a keyword in either case that no word character follows; the position never moves back or past the end |
| `SqlParsers.Tokenizer.NextIdentifier` | scharnhorst_journal/src/sql_parser.rs:463-485 | takes the longest identifier; the position never moves back or past the end |
| `SqlParsers.Tokenizer.NextComparisonOp` | scharnhorst_journal/src/sql_parser.rs:488-513 | takes the longest operator; the position never moves back or past the end |
| `SqlParsers.Tokenizer.NextValue` | scharnhorst_journal/src/sql_parser.rs:516-542 | takes a value by its first character; the position never moves back or past the end |
| `SqlParsers.Tokenizer.ParseStringLiteral` | scharnhorst_journal/src/sql_parser.rs:545-585 | takes a literal up to its closing quote, doubled quotes undone; the position never moves back or past the end |
| `SqlParsers.Tokenizer.ParseNumber` | scharnhorst_journal/src/sql_parser.rs:618-650 | takes sign, digits and one dot, and parses them in the i64 range; the position never moves back or past the end |
| `SqlParsers.Tokenizer.NextParenList` | scharnhorst_journal/src/sql_parser.rs:653-691 | takes a parenthesised list of identifiers; the position never moves back or past the end |
| `SqlParsers.Tokenizer.NextParenValues` | scharnhorst_journal/src/sql_parser.rs:694-732 | takes a parenthesised list of values; the position never moves back or past the end |
| `SqlParsers.Parse` | scharnhorst_journal/src/sql_parser.rs:88-110 | the tokenizer-driven parser reads exactly what the grammar reads |
| `SqlParsers.ParseUpdate` | scharnhorst_journal/src/sql_parser.rs:177-226 | UPDATE, with the error of the first part that is missing |
| `SqlParsers.ParseInsert` | scharnhorst_journal/src/sql_parser.rs:229-279 | INSERT, with the error of the first part that is missing |
| `SqlParsers.ParseDelete` | scharnhorst_journal/src/sql_parser.rs:282-308 | DELETE, with the error of the first part that is missing |
| `SqlRoundTrip.DoubledReads` | scharnhorst_journal/src/sql_parser.rs:545-585 | a literal with its quotes doubled ends where its text does and reads as the text |
| `SqlRoundTrip.ValueReads` | scharnhorst_journal/src/sql_parser.rs:516-650 | every value reads back from its text, whatever stands apart after it |
| `SqlRoundTrip.RoundTrip` | scharnhorst_journal/src/sql_parser.rs:88-110 | every statement over valid identifiers and values parses from its text to itself, all input consumed |
| `SqlRoundTrip.ParsedIsStatement` | scharnhorst_journal/src/sql_parser.rs:88-110 | whatever parses is such a statement |
| `SqlRoundTrip.NormalForm` | scharnhorst_journal/src/sql_parser.rs:88-110 | so rendering a parsed text is a normal form with the same meaning |
| `SqlLayout.BodyIsDoubled` | scharnhorst_journal/src/sql_parser.rs:545-585 | the body of a literal is exactly its text with the quotes doubled |
| `SqlLayout.AcceptedIsLayout` | scharnhorst_journal/src/sql_parser.rs:88-110 | an accepted text is exactly the tokens of its statement with space between and after them, up to keyword case, numeral spelling, quote, and a comma before a closing parenthesis |
| `SqlLanguage.LayoutIsAccepted` | scharnhorst_journal/src/sql_parser.rs:88-110 | every layout of a well-formed statement is accepted and denotes it |
| `SqlLanguage.LanguageIs` | scharnhorst_journal/src/sql_parser.rs:88-110 | so a text is accepted as a statement exactly if the statement is well-formed and the text lays it out: the language, and what each of its texts means |
| `SqlErrors.UpdateError` | scharnhorst_journal/src/sql_parser.rs:177-226 | UPDATE is refused exactly for the first part of its script that is missing, and for nothing else |
| `SqlErrors.InsertError` | scharnhorst_journal/src/sql_parser.rs:229-279 | INSERT is refused for the first part missing up to its values, then for unequal counts, then for what follows |
| `SqlErrors.DeleteError` | scharnhorst_journal/src/sql_parser.rs:282-308 | DELETE is refused exactly for the first part of its script that is missing |
| `SqlErrors.FirstMissingIff` | scharnhorst_journal/src/sql_parser.rs:177-308 | the first missing part is the one before which all parts are there |
| `SqlErrors.BlankIsEmpty` | scharnhorst_journal/src/sql_parser.rs:88-110 | a blank text is refused as empty |
| `SqlErrors.FirstWordDecides` | scharnhorst_journal/src/sql_parser.rs:88-110 | any other text is read by the script of its first word, in letters of either case, and refused for that word if it is no verb |
| `SqlDiffs.StatementToDiff` | scharnhorst_journal/src/sql_parser.rs:116-172 | the diff a statement stands for, or the first reason it stands for none |
| `SqlDiffs.InsertToDiff` | scharnhorst_journal/src/sql_parser.rs:135-165 | the loop over columns: the last row-naming column gives the id, a repeated column keeps its last value |
| `SqlDiffs.MeansOnce` | scharnhorst_journal/src/sql_parser.rs:116-172 | a statement stands for one diff or one error |
| `SqlDiffs.ConditionRowIff` | scharnhorst_journal/src/sql_parser.rs:357-392 | a condition picks a row exactly if it equates a row-picking column with a number no less than zero, and its error is the first of these it lacks |
| `SqlDiffs.RowColumns` | scharnhorst_journal/src/sql_parser.rs:357-392 | which columns name an inserted row and which pick one, in letters of either case |
| `SqlDiffs.JsonRoundTrip` | scharnhorst_journal/src/sql_parser.rs:51-64 | a JSON value written in SQL is read back as the same JSON value |
| `SqlDiffs.UpdateRoundTrip` | scharnhorst_journal/src/sql_parser.rs:116-134 | an update written as SQL comes back as the same diff |
| `SqlDiffs.DeleteRoundTrip` | scharnhorst_journal/src/sql_parser.rs:167-171 | a delete written as SQL comes back as the same diff |
| `SqlDiffs.InsertRoundTripIff` | scharnhorst_journal/src/sql_parser.rs:135-165 | an insert written as SQL, columns in any order, comes back exactly when the last row-naming column holds its id and the others some id |
| `SqlDiffs.PickingIsWider` | scharnhorst_journal/src/sql_parser.rs:357-376 | columns that name an inserted row are among those that pick one, not the other way round: `province_id` picks a row but cannot insert one |
| `SemicolonScans.StripTrailingSemicolon` | scharnhorst_query/src/engine.rs:843-883 | the scan with its look-ahead for doubled quotes accepts exactly the texts in which only blanks follow an unquoted semicolon, and returns the text before it |
| `SemicolonScans.StrippedOnce` | scharnhorst_query/src/engine.rs:843-883 | that fixes the answer |
| `SemicolonScans.StrippedIsSingle` | scharnhorst_query/src/engine.rs:843-883 | what is returned holds no unquoted semicolon, so scanning it again changes nothing |
| `SemicolonScans.LiteralsHideSeparators` | scharnhorst_query/src/engine.rs:843-883 | a literal in quotes of either kind, whatever it holds, neither adds nor hides a statement separator around it |
| `Expressions.Sorted` | scharnhorst_rules/src/evaluator.rs:629-631 | argument names in ascending order, each once |
| `ExpressionMeanings.EvalIsMeaning` | scharnhorst_rules/src/evaluator.rs:324-346 | evaluation is exactly a relation with a rule for each form of expression and each way it fails: every expression means its value or its error, and nothing else |
| `OperatorLaws.CompareFixedIff` | scharnhorst_rules/src/evaluator.rs:789-798 | numbers compare by value exactly as long as aligning their scales does not overflow; where it does, `!=`, `<=` and `>=` hold and no other |
| `OperatorLaws.CompareStringIff` | scharnhorst_rules/src/evaluator.rs:808-817 | texts compare by the place where they part |
| `OperatorLaws.ComparedIff` | scharnhorst_rules/src/evaluator.rs:552-568 | values of one kind compare, all others are a type mismatch; truth values know equality only |
| `OperatorLaws.ComputedIff` | scharnhorst_rules/src/evaluator.rs:570-598 | arithmetic is on numbers only, each operator with its own operation, and remainders are not supported |
| `OperatorLaws.MinMaxIff` | scharnhorst_rules/src/evaluator.rs:155-200 | min and max choose the lesser and the greater of their two numbers, unless aligning the scales overflows |
| `OperatorLaws.DefaultsAre` | scharnhorst_rules/src/evaluator.rs:67-221 | each default function under its name, with its number of arguments |
| `ExpressionLaws.NestedChainsFlatten` | scharnhorst_rules/src/evaluator.rs:518-550 | nested And and Or flatten, with the same errors and short circuits |
| `ExpressionLaws.DeMorgan` | scharnhorst_rules/src/evaluator.rs:507-550 | De Morgan's laws hold exactly, errors and short circuits included |
| `ExpressionLaws.ChainDecides` | scharnhorst_rules/src/evaluator.rs:518-550 | And is true exactly when all items are, false exactly when a false item follows only true ones; Or likewise |
| `ExpressionLaws.Locality` | scharnhorst_rules/src/evaluator.rs:324-346 | a value depends on the variables the expression mentions and on no others |
| `ExpressionLaws.CallIsArithmetic` | scharnhorst_rules/src/evaluator.rs:570-646 | a two-argument call of add, sub, mul or div is the operator on its arguments in the order of their names, errors included |
| `ExpressionLaws.LessOrEqualIff` | scharnhorst_rules/src/evaluator.rs:552-568 | on numbers `<=` is `<` or `=` exactly when aligning the scales does not overflow |
| `ExpressionLaws.IntegerColumnAggregate` | scharnhorst_rules/src/evaluator.rs:464-471 | without an override, an integer column evaluates to exactly the cell plus the rounded additions, times the product of the rounded multipliers |
| `ExpressionLaws.ColumnMultiplierActsIff` | scharnhorst_rules/src/evaluator.rs:464-471 | a single multiplier acts on an integer column at its own value exactly if the cell is 0 or the multiplier is a whole number |
| `ExpressionLaws.OneAndAHalfWitness` | scharnhorst_rules/src/evaluator.rs:464-471 | a multiplier of 1.5 doubles an integer column |
| `Evaluators.Evaluator.EvaluateEffect` | scharnhorst_rules/src/evaluator.rs:371-415 | evaluating an effect changes only variables and pending diffs, as specified |
| `Evaluators.Evaluator.SubmitDiff` | scharnhorst_rules/src/evaluator.rs:353-359 | a diff is appended while the journal is open |
| `EffectLaws.LeavesSubmit` | scharnhorst_rules/src/evaluator.rs:371-407 | an update effect submits the written value for the scope's row, an insert effect the written row, both in an open journal only; a binding submits nothing |
| `EffectLaws.WrittenRowIff` | scharnhorst_rules/src/evaluator.rs:389-403 | a row is written exactly if each of its columns is, each with its own value; otherwise the first column that is not gives the error |
| `EffectLaws.CannotWriteIff` | scharnhorst_rules/src/evaluator.rs:831-861 | a value cannot be written exactly if some number in it, however deep, cannot |
| `EffectLaws.WrittenReadsBack` | scharnhorst_rules/src/evaluator.rs:831-861 | a flag, a text or a row id, written, stored in a column for its kind and read by an expression, comes back |
| `Evaluators.EffectIsItsLeaves` | scharnhorst_rules/src/evaluator.rs:408-414 | however sequences nest, an effect does exactly what its flattening does |
| `Evaluators.SameLeavesSameEffect` | scharnhorst_rules/src/evaluator.rs:408-414 | effects with the same flattening are interchangeable |
| `Evaluators.LeavesStop` | scharnhorst_rules/src/evaluator.rs:371-415 | a list of effects runs up to the first that fails, and exactly the diffs and bindings of those before it remain |
| `Evaluators.EffectStops` | scharnhorst_rules/src/evaluator.rs:371-415 | the same for every nested effect |
| `Evaluators.EffectSucceedsIff` | scharnhorst_rules/src/evaluator.rs:371-415 | an effect succeeds exactly when none of its leaves fails in its turn |
| `Evaluators.RepeatedUpdate` | scharnhorst_rules/src/evaluator.rs:371-388 | effects do not see the diffs submitted before them: repeating an update submits the same diff twice |
| `Evaluators.UnmentionedBindingCommutes` | scharnhorst_rules/src/evaluator.rs:371-415 | binding a variable that an update does not mention and the update fail alike in both orders, and end alike exactly unless the update fails and the binding is new |

## Left out

- StoreRollback.IndexRestoredIff: for an index with history, as every table's is; without it the landed index decides.
- JournalRetries.RetrySucceedsIff: for tables whose batches all have their table's schema, as new tables do and every
  run keeps it (`RunKeepsUniform`). The same holds of UnsuitedCommitIsStuck and RetryAppliesIff.
- StoredValues.InsertStores: for inserts that are safe in the sense of InsertSafe; RunRefinesMap covers no others either,
  and CrossTickInsertWitness shows why.
- StoredValues.ReplaceErrors: tells duplicates from schema errors, not the schema errors from one another.
- OperatorLaws.MinMaxIff: where aligning the scales overflows, min gives its first number and max its second.
- EffectLaws.WrittenReadsBack: for signed, boolean and text columns, whose cells the query layer hands over unchanged.
- ModifierLaws.ExactMultipliersCommute: sufficient; the two truncated products can also agree by chance.
- ExpressionLaws.ColumnMultiplierActsIff: for one multiplier; several are covered by IntegerColumnAggregate.
- JournalRuns.RunShowsRows: for runs that start from a store without versions later than tick 0.
- JournalRuns.RunPublishesRows: for runs that start from a store without versions later than the open tick.
- PrefetchCaches.PrefetchCache.Get: the recency list is tied to the entries below saturation of the access counter.
- Locks, lock poisoning, atomics and real concurrency: the commit path is sequential, and one caller is modelled. The
  path on which a poisoned lock leaves the journal in the Committing phase is not modelled.
- Floats: `try_from_f64`, `to_f64` and Float64 columns. A JSON number that is no 64-bit integer is the exact value of its
  double; reading that double from text is not modelled. A float column's rounded value, and the JSON number an effect
  writes, are parameters. A float literal in SQL keeps its text without a value, so what an integer column makes of it, and
  the infinite ones that become JSON null, are not modelled.
- Text is ASCII: UTF-8 offsets in the tokenizer, Unicode white space and case are not modelled.
- JSON text and its hash: the state hash takes each diff's hash, or the failure to encode it, as a parameter.
- Arrow arrays, IPC and DataFusion: columns are sequences of optional cells; concatenation fails exactly when schemas
  differ or the row count exceeds the machine word.
- Schema inference from batches or keys, drop_table, rebuild_table, append_batches, mutation modes, partitions,
  truncate_before, checkpoints and snapshot files. Tables are made by create_table with a specification.
- ForeignKeyIndex: it has the same methods as the primary key index.
- VersionedTables.VersionedTable: holds the key index as a value rather than as an object of its own.
- The save journal: appending is a yes or no of the environment, and its own state after a failure is not modelled.
- Error messages: errors are told apart by kind and main argument, not by their text.
- Parsing fixed-point numbers from text, negating them and making them from whole numbers.
- Expressions.Eval: evaluates the entries of a map in name order; the code visits a hash map, which can only change which
  of several errors is reported. The same holds for the columns of an inserted row.
- Relation jumps, scope stack, pinning in the cache, custom function registration and the resolution of columns through
  the query engine: the column's cell in the current row is a parameter.
- Migrations: relations and the new manifest's other fields are copied unchanged and not modelled.
- The executing side of read SQL, inspector panels, telemetry, Bevy synchronisation, the scheduler, content loading,
  tiering and lifecycle enums.
