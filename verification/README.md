# uni5db: a model of the storage layout, scans and transactions

uni5db puts SQL on top of a byte-ordered key/value store. This project models the chain in which rows become
bytes, predicates become key ranges and slow scans become fast ones, and proves that the meaning survives every
step. `dafny verify dfyconfig.toml` checks all of it.

## What is modelled

- **Bytes and values** (`Bytes`, `Floats`, `FloatRounding`, `Values`, `Cursor`). Bytes are integers 0..255, lengths written `as u32`
  are reduced modulo 2^32. Floats are bit patterns; `Value32` and `Value64` give each pattern its exact number
  (scaled to an integer), and the casts `f32 as f64`, `i64 as f32`, `i64 as f64` are defined on the bits, with
  round-to-nearest-even. `PartialCmp` is `ColumnValue::partial_cmp` arm by arm.
- **Tuples and rows** (`TupleCodec`, `FixedColumns`, `RowFormat`, `RowRoundTrip`, `RowProjection`,
  `RowMapProjection`, `FastNumericDecode`, `SlotOffsets`, `RowEncoder`, `RowDecoder`, `OldRows`). The three row formats: v2 tagged list, v3 directory, v4 null
  bitmap + fixed region + variable directory; the older two also from the writing side. The encoder and the decoders are loops over a buffer and a cursor,
  proved against functions on byte sequences; the theorems are about those functions.
- **Keys** (`KeyCodec`, `Keys`, `OlapCodec`). Key encoding of every value kind, row, version and index keys, ranges,
  chunk and statistics records.
- **Predicates and pushdown** (`Predicates`, `CompareMeaning`, `PredicateMeaning`, `Pushdown`). What comparisons and
  predicates say of a row's values; primary-key predicates become a byte range and a residual.
- **Aggregation** (`SlotComparison`, `FastPredicates`, `GroupKeys`, `Aggregates`, `FloatAggregates`, `Grouping`,
  `AggregateScan`, `AggregateAgreement`, `AggregateReduce`, `AggregateValues`, `AggregateAnswer`). The key-counting scan,
  the general scan and the two-phase slot scan with its one reused buffer, what each aggregate means, and what the
  whole scan answers over stored rows. Float addition, division and narrowing are parameters (`FloatOps`) of
  which two facts are used: adding to a zero is exact, and casting an f32 up and down again gives it back.
- **Top-N** (`OrderLaws`, `TopNOrder`, `TopNHeap`, `TopNTies`, `TopNPlan`, `TopNScan`, `TopNAgreement`, `KeyOrder`,
  `KeyScan`, `TopNDispatch`, `TopNAnswer`, `TopNWitnesses`). The bounded heap, its comparator, the slot-compiled scan and
  the key-ordered scan with early exit, and what the chosen one answers in terms of the rows' values.
- **Zone maps** (`Filters`, `FilterMeaning`, `ZoneMaps`, `ZoneMeaning`, `ChunkPruning`, `NegatedBetween`, `OlapRefresh`).
  Three-valued filters, chunk building and pruning.
- **Transactions** (`KvMaps`, `ScanMeaning`, `Transactions`, `TransactionRuns`). The in-memory store and its transactions with
  savepoints, the engine's transaction, and whole runs against an operation log.
- **Decimals and days** (`Decimal`, `NumericText`, `NumericOrder`, `Calendar`). NUMERIC texts from the writing side, their comparison, exact and as an order;
  civil dates and day numbers.

## Where the code does not do what one would expect

Each of these is a lemma with a concrete input, an exact condition, or both, over the code as it is.

- The slots of the fast numeric projector are computed from the current column count. Over all rows written under a
  schema, a slot is right exactly when its column was stored and the current count needs a null bitmap of the same
  length (`SlotOffsets.SlotRightExactly`). So an appended column is read as a value where the general decoder says
  NULL (`FastNumericDecode.AppendedColumnMisread`), and a ninth column shifts every stored one: a stored 1 shows as
  256 (`SlotOffsets.ShiftedSlotWrong`, `NinthColumnShifts`).
- A key comparison with a literal of another variant is pushed down by its tag byte: `pk >= 3::bigint` on an INT4 key
  keeps no row at all (`Pushdown.MismatchedLiteralLosesRow`), and a NULL literal keeps all of them
  (`Pushdown.NullLiteralKeepsRow`). `Pushdown.ComparisonPushdownExact` gives the exact condition.
- Comparing slots does not always decide as comparing values: `=` compares variants in the general path, some variants
  have no order there, and INT4 is rounded before it is compared with REAL. For every column type, operator and literal
  `SlotComparison.LiteralAgreesExactly` says exactly when the two paths agree on the whole column
  (`SlotComparison.IntAgainstDoubleDiffers` and `RoundedNeighbour` are inputs where they do not).
- In the general path SUM over INT2 stays at its first value and AVG over INT2 is NULL; SUM of one INT4 is an INT4
  while the fast path gives INT8, and SUM of one FLOAT4 a FLOAT4 against a FLOAT8; SUM over no value is NULL while the
  fast path gives 0; SUM of values that are all -0 is -0 while the fast path gives 0.
  `FloatAggregates.ColumnAgreesExactly` says, for integer and float columns, exactly when the two paths agree.
- `NormalizedDecimal::cmp_abs` adds a digit count to a scale without checking: for exponents beyond `i64` the order is
  not that of the numbers (`Decimal.OverflowWitness`, `Decimal.CmpExactIffExponentFits`), although it stays a total
  preorder (`NumericOrder.NumericLaws`).
- NUMERIC texts that do not parse are compared as bytes. A column stores what `parse::<f64>` accepts
  (`src/sql/values/scalar_parsers.rs:55-67`), so 1e99999999999999999999, whose exponent is no i64, is among them, and
  9 < 10 < 1e99999999999999999999 < 9 (`NumericOrder.NumericTextCycle`). The order is transitive on a set of NUMERIC
  values exactly when no such text lies, as bytes, after one number and before another that is no greater
  (`TopNOrder.NumericOrderExactly`, `NumericOrder.NumericTextsExactly`).
- The Top-N order of a float column is transitive exactly on sets with no NaN beside two different numbers
  (`TopNOrder.NaNOrderExactly`, `NaNBreaksTheOrder`). The zone of a float column bounds its numbers exactly when the
  column does not begin with a NaN, or has no number (`ZoneMaps.FloatZoneBoundsExactly`, `NaNZone`).
- Pruning under `NOT BETWEEN` loses rows: a load differs from the unpruned one exactly when it reaches a chunk whose
  zone admits values at or above the lower limit and none at or below the upper one, and that holds a value
  (`NegatedBetween.NegatedBetweenLosesExactly`, `ChunkPruning.NegatedBetweenWitness`).
- The engine's scan cuts the base scan at `limit` before it applies pending deletes
  (`TransactionRuns.DeleteLosesRow`). `TransactionRuns.LimitedScanExact` gives the exact condition in terms of the
  pending writes and the base entries, before any scan.
- Text keys are length-prefixed and not in text order (`KeyCodec.TextKeyOrder`, `TextKeysNotInTextOrder`), and the planner
  takes the scan along the key for ORDER BY on any primary key: rows b and aa come out in that order
  (`TopNWitnesses.TextKeysMisorder`). For keys of every orderable kind that scan is right, up to ties, exactly when among
  the matching rows a shorter string key is also the smaller one, and a NUMERIC key whose text comes first is no greater;
  for other kinds always (`KeyScan.KeyScanExactly`).

## Model

| member | source | states |
|---|---|---|
| Reader.Cursor.constructor | src/storage_layout/cursor.rs:12-14 | a new reader stands at the first byte |
| Reader.Cursor.Unsigned | src/storage_layout/cursor.rs:20-45 | the reader returns the big-endian number at its position and advances past it, or fails without one |
| Reader.Cursor.Signed | src/storage_layout/cursor.rs:47-72 | the same for two's complement |
| Reader.Cursor.BytesSegment | src/storage_layout/cursor.rs:92-96 | the length-prefixed bytes at the position, or failure when they are cut short |
| Reader.Cursor.SkipBytes | src/storage_layout/cursor.rs:98-104 | moves exactly as far as asked, or fails |
| TupleCodec.DecodeTupleValue | src/storage_layout/tuple_codec.rs:300-333 | the recursive reader returns the decoding of the bytes at its position, stops right behind it, and terminates on every input because bytes are used up |
| TupleCodec.SkipTupleValue | src/storage_layout/tuple_codec.rs:349-368 | the skipping reader stops where the skip function says, and terminates on every input |
| TupleCodec.TupleRoundTrip | src/storage_layout/tuple_codec.rs:230-333 | wherever an encoded value stands in a byte string, decoding there gives the value back and stops right behind it, arrays at any depth included |
| TupleCodec.SkipAgrees | src/storage_layout/tuple_codec.rs:300-368 | on arbitrary bytes, whenever a value decodes, skipping ends at the same position |
| TupleCodec.NumericAgrees | src/storage_layout/tuple_codec.rs:335-347 | on arbitrary bytes, whenever a value decodes, the numeric decoder gives its numeric view, and fails exactly when it has none |
| FixedColumns.DecodeFixedVariant | src/storage_layout/tuple_codec.rs:139-191 | bytes of the column's width always decode, to a value of the column's own variant |
| FixedColumns.FixedRoundTrip | src/storage_layout/tuple_codec.rs:127-191 | a fixed-width field gives back exactly the values of its column's own variant, and no other value |
| FixedColumns.FixedNumericAgrees | src/storage_layout/tuple_codec.rs:193-228 | the numeric decoder of a field gives the numeric view of the decoded field, and fails exactly when there is none |
| FixedColumns.SumsOfPrefix | src/storage_layout/tuple_codec.rs:93-125 | appending columns moves no fixed offset and no variable position |
| FixedColumns.FixedOffsets | src/storage_layout/tuple_codec.rs:93-109 | the loop's running offset of a fixed column is the total width of the fixed columns before it |
| FixedColumns.VariablePositions | src/storage_layout/tuple_codec.rs:111-125 | the loop's position of a variable column is the number of variable columns before it |
| FixedColumns.NullBitmapBits | src/storage_layout/row_codec.rs:56-60 | after i columns, bit k of the bitmap is set exactly when column k is NULL and already written |
| RowEncoder.EncodeRowRecord | src/storage_layout/row_codec.rs:24-84 | the loop that writes bits, fields and directory entries at computed offsets builds the specified record for every schema and row |
| RowRoundTrip.EncodedRegions | src/storage_layout/row_codec.rs:24-84 | null bitmap, fixed fields, directory and payload stand exactly at the region starts of the layout |
| RowRoundTrip.EncodedLayout | src/storage_layout/fast_row_decode.rs:256-303 | the layout that the decoder recomputes from an encoded row, under the writing schema or any extension, is the writer's |
| RowRoundTrip.RowSurvivesSchemaGrowth | src/storage_layout/fast_row_decode.rs:256-435 | a row written under a schema decodes, under any schema that appends columns, to the same values with NULL for missing and appended columns; with nothing appended this is the round trip |
| RowRoundTrip.ReencodePreservesRow | src/storage_layout/row_codec.rs:300-323 | rewriting a v2 or v3 row into v4 keeps the decoded row and its versions, and a second rewrite does nothing |
| RowRoundTrip.ReencodeSkips | src/storage_layout/row_codec.rs:300-323 | a readable record is left alone exactly when it is v4 already or a tombstone |
| OldRows.TaggedRecordRead | src/storage_layout/fast_row_decode.rs:17-46 | a v2 record written as header and tagged list reads as that header, and binds exactly the written ids, each to the value of its last entry |
| OldRows.DirectoryRecordRead | src/storage_layout/fast_row_decode.rs:48-101 | the same for a v3 record written as header, directory of id, offset and length, and payload |
| OldRows.OldRowsRead | src/storage_layout/row_codec.rs:97-114 | under any schema with distinct names both decode, column by column, to the value of the last entry with the column's id, NULL without one |
| OldRows.LeftAloneExactly | src/storage_layout/row_codec.rs:300-323 | rewriting leaves a written v2 or v3 record alone exactly when it has no entry and its xmax is not 0 |
| OldRows.TombstoneLeftAlone | src/storage_layout/row_codec.rs:86-94 | a written tombstone reads as its versions and no value, and is left alone unless its version is 0 |
| RowDecoder.ReadHeader | src/storage_layout/fast_row_decode.rs:48-76 | the header fields read in order are those of the format, with failure on a short header |
| RowDecoder.DecodeLegacyRaw | src/storage_layout/fast_row_decode.rs:17-46 | the v2 loop collects the tagged list of the record and rejects trailing bytes |
| RowDecoder.DecodeFastRaw | src/storage_layout/fast_row_decode.rs:151-171 | the v3 loop collects every directory entry's value or fails |
| RowDecoder.DecodeRowRecord | src/storage_layout/row_codec.rs:96-113 | on every byte string the version dispatch and the column loop yield the specified row or fail |
| RowDecoder.NewProjector | src/storage_layout/row_codec.rs:178-210 | the projector's table answers, for every column id, the output position that a search of the requested columns gives |
| RowDecoder.DecodeProjectedValues | src/storage_layout/row_codec.rs:396-438 | on every byte string the projected decoder yields the specified projection or fails |
| RowDecoder.DecodeProjectedLegacy | src/storage_layout/row_codec.rs:412-437 | the v2 loop that decodes wanted entries and skips the others yields the specified projection |
| RowDecoder.DecodeFastNumericSlots | src/storage_layout/row_codec.rs:358-384 | the buffer ends up as specified: requested slots of a v4 row filled and the rest untouched, or all slots reset and refilled for the older formats; failure exactly when specified |
| RowDecoder.DecodeNumericLegacy | src/storage_layout/fast_row_decode.rs:173-195 | the same for the v2 list |
| RowDecoder.DecodeNumericFast | src/storage_layout/fast_row_decode.rs:197-244 | the same for v3, including giving up the direct path for the search |
| RowProjection.LegacyProjection | src/storage_layout/row_codec.rs:412-437 | on arbitrary v2 bytes, skipping unwanted entries ends at the same position and shows the values of the full decode |
| RowProjection.FastProjection | src/storage_layout/fast_row_decode.rs:123-149 | on arbitrary v3 bytes, whenever every entry decodes, the wanted ones show the same values |
| RowProjection.FixedProjection | src/storage_layout/fast_row_decode.rs:350-369 | on arbitrary v4 bytes, whenever every column decodes, the wanted ones are the same |
| RowProjection.ProjectionAgrees | src/storage_layout/row_codec.rs:96-176 | on every byte string in any of the three formats where the full decode succeeds, the projected decode succeeds with the projection of the full row |
| RowMapProjection.DecodeProjectedRow | src/storage_layout/row_codec.rs:115-156 | on every byte string in any of the three formats the map-producing projected decoder yields the specified map or fails |
| RowMapProjection.RowProjectionAgrees | src/storage_layout/row_codec.rs:115-156 | on every byte string where the full decode succeeds, the map holds for every projected column what the full row holds, and no other column |
| FastNumericDecode.FixedSlotAgrees | src/storage_layout/fast_row_decode.rs:451-476 | on arbitrary v4 bytes that the precomputed offsets fit, a slot is the numeric view of the generally decoded column |
| FastNumericDecode.AppendedColumnMisread | src/storage_layout/row_codec.rs:237-280 | a column appended after the row was written is NULL to the general decoder and never NULL to its slot, while its bit falls into the stored bitmap |
| SlotOffsets.SlotRightExactly | src/storage_layout/row_codec.rs:237-280 | for any schema and extension, a fast column's slot is right in every row written under the schema exactly when the column was stored and both column counts need a bitmap of the same length |
| SlotOffsets.ShiftedSlotWrong | src/storage_layout/fast_row_decode.rs:451-476 | when the current count needs a longer bitmap, every stored fast column is misread in a row that is NULL everywhere else |
| SlotOffsets.NinthColumnShifts | src/storage_layout/row_codec.rs:237-280 | eight INT2 columns holding 1 and NULLs: with a ninth column appended the first slot shows 256 |
| FastNumericDecode.NumericLegacyAgrees | src/storage_layout/fast_row_decode.rs:173-195 | on v2 bytes the numeric slots show the projected values and the reader stops at the same position |
| FastNumericDecode.SearchAgrees | src/storage_layout/fast_row_decode.rs:232-243 | on v3 bytes with distinct entry ids, the directory search fills the slots with the views of the projected values |
| FastNumericDecode.DirectAgrees | src/storage_layout/fast_row_decode.rs:202-230 | when the direct path succeeds it gives the same slots, and it never reports a failure that the projection does not have |
| FastNumericDecode.DirectIsSearch | src/storage_layout/fast_row_decode.rs:197-244 | whenever the search succeeds, the direct path either gives up or gives the very slots of the search |
| FastNumericDecode.FastDecodeAgrees | src/storage_layout/row_codec.rs:358-384 | in every format, fast slots equal the numeric views of the projected values; v4 fills exactly the requested slots |
| KeyCodec.Ordered32Embeds | src/storage_layout/tuple_codec.rs:376-394 | the sign-flipped bits of an f32 are ordered as the numbers, with -0 below +0, and can be undone |
| KeyCodec.Ordered64Embeds | src/storage_layout/tuple_codec.rs:396-414 | the same for f64 |
| KeyCodec.EncodeKeyValue | src/storage_layout/olap_stats.rs:98-149 | the appending encoder builds the specified key, arrays nested to any depth |
| KeyCodec.KeyPrefixFree | src/storage_layout/olap_stats.rs:98-149 | equal bytes that begin with two encoded values begin with the same value, up to string kind, and go on the same: no encoding is a proper prefix of another |
| KeyCodec.KeyInjective | src/storage_layout/olap_stats.rs:98-149 | two values have the same key exactly when they differ at most in string kind |
| KeyCodec.IntKeyOrder | src/storage_layout/olap_stats.rs:104-115 | byte order of integer keys is signed order, both directions |
| KeyCodec.FloatKeyOrder | src/storage_layout/olap_stats.rs:116-123 | byte order of float keys is numeric order with -0 below +0, both directions |
| KeyCodec.TextKeyOrder | src/storage_layout/olap_stats.rs:124-134 | byte order of text keys is shorter texts first, and text order only among texts of one length |
| KeyCodec.TextKeysNotInTextOrder | src/storage_layout/olap_stats.rs:124-134 | aa sorts before b as text and after it as a key |
| KeyCodec.KeyRoundTrip | src/storage_layout/olap_stats.rs:151-326 | decoding a key followed by any bytes under a type it belongs to gives the value and the exact key length |
| KeyCodec.KeyItemsRoundTrip | src/storage_layout/olap_stats.rs:268-285 | the same for the items of an array key, anywhere in a byte string |
| KeyCodec.DecodeArrayItems | src/storage_layout/olap_stats.rs:268-285 | the offset loop reads the specified items or fails |
| Keys.IncrementPrefix | src/storage_layout/tuple_codec.rs:432-442 | the loop that increments the last byte below 255 finds the specified upper bound, or none |
| Keys.PrefixRangeExact | src/storage_layout/tuple_codec.rs:432-442 | the range from a prefix to its successor holds exactly the keys that start with the prefix, also when there is no successor |
| Keys.RowKeyRoundTrip | src/storage_layout/keys.rs:84-171 | the primary key is recovered from its row key |
| Keys.RowVersionKeyRoundTrip | src/storage_layout/keys.rs:98-154 | primary key and version are recovered from a version key |
| Keys.VersionScanIsOneRow | src/storage_layout/keys.rs:109-122 | a version scan holds a version key exactly when table, epoch and primary key agree |
| Keys.VersionKeyOrder | src/storage_layout/keys.rs:90-107 | version keys sort by key ascending, and among versions of one row newest first |
| Keys.IndexScanIsOneValue | src/storage_layout/keys.rs:216-254 | an index scan for a value holds exactly the entries of that value, and yields each entry's primary key; for other entries decoding fails |
| Keys.RangeBetweenExact | src/storage_layout/keys.rs:183-214 | a row key lies in the range exactly when its key lies within both bounds, inclusive or exclusive |
| Keys.RangeBetweenStaysInTable | src/storage_layout/keys.rs:183-214 | no bound lets the range leave the table's keys |
| OlapCodec.DecodeZoneBound | src/storage_layout/tuple_codec.rs:37-46 | an optional bound is read as encoded or the read fails |
| OlapCodec.DecodeZoneMaps | src/storage_layout/tuple_codec.rs:31-55 | the zone loop reads the specified list or fails |
| OlapCodec.ChunkMetaRoundTrip | src/storage_layout/olap_stats.rs:24-49 | chunk metadata decodes to what was encoded, and any trailing byte is rejected |
| OlapCodec.ColumnChunkRoundTrip | src/storage_layout/olap_stats.rs:51-75 | the same for the values of a column chunk |
| OlapCodec.StatsRoundTrip | src/storage_layout/olap_stats.rs:77-96 | the same for table statistics |
| CompareMeaning.IntegersCompare | src/kv_engine_store/projected_aggregate.rs:111-123 | integers compare as numbers; across widths only the order operators do, and no two are equal |
| CompareMeaning.DoublesCompare | src/kv_engine_store/projected_aggregate.rs:111-123 | doubles compare as the numbers their bits denote |
| CompareMeaning.StringsCompare | src/kv_engine_store/projected_aggregate.rs:111-123 | texts, dates, timestamps, UUIDs and byte strings compare byte by byte, for every operator |
| CompareMeaning.ComplementExactly | src/kv_engine_store/projected_aggregate.rs:111-123 | nothing compares with NULL; of two values that compare, exactly one of an operator and its complement holds |
| PredicateMeaning.MatchesExactly | src/kv_engine_store/projected_aggregate.rs:71-109 | a predicate holds, or fails, exactly as the comparisons under its NOTs, ANDs and ORs say of the row's values |
| PredicateMeaning.PredicateLaws | src/kv_engine_store/projected_aggregate.rs:71-109 | NOT NOT is nothing, NOT goes through AND and OR, and a row satisfies exactly one of a predicate and its NOT |
| PredicateMeaning.IntegerPredicates | src/kv_engine_store/projected_aggregate.rs:71-109 | on an INT8 column every comparison is that of numbers, NULL fails them all, BETWEEN is both its bounds and NOT BETWEEN takes NULL |
| Pushdown.PrimaryKeyBounds.constructor | src/datafusion_bridge/physical_predicates.rs:80-85 | new bounds restrict nothing |
| Pushdown.PrimaryKeyBounds.TightenLower | src/datafusion_bridge/physical_predicates.rs:101-113 | the lower bound becomes the tighter one where the two compare and is kept where they do not; the upper one stays |
| Pushdown.PrimaryKeyBounds.TightenUpper | src/datafusion_bridge/physical_predicates.rs:115-127 | the upper bound becomes the tighter one where the two compare and is kept where they do not; the lower one stays |
| Pushdown.PrimaryKeyBounds.Apply | src/datafusion_bridge/physical_predicates.rs:87-99 | the bounds change as the comparison demands |
| Pushdown.CollectPrimaryKeyBounds | src/datafusion_bridge/physical_predicates.rs:166-199 | the recursive collector leaves the specified bounds, residual and flag |
| Pushdown.PlanPrimaryKeyRange | src/datafusion_bridge/physical_predicates.rs:130-164 | the plan is the specified one: a range with residual when a bound was used, the filters otherwise |
| Pushdown.AppliedMeaning | src/datafusion_bridge/physical_predicates.rs:87-127 | a key is inside the tightened bounds exactly when it was inside before and satisfies the comparison |
| Pushdown.CollectMeaning | src/datafusion_bridge/physical_predicates.rs:166-199 | collecting a filter, nested ANDs included, keeps exactly its meaning in bounds and residual |
| Pushdown.PushdownPreserves | src/datafusion_bridge/physical_predicates.rs:130-199 | for every filter list over an integer key's own literals, MySQL integer types included, a row satisfies all filters exactly when its row key is in the planned range and the residual holds |
| Pushdown.PlannedScanIsFullScan | src/datafusion_bridge/physical_planner.rs:326-336 | over every table, scanning the planned range and filtering by the residual gives the rows of the full filtered scan, in order, also with the fallback range |
| Pushdown.OneComparisonPlan | src/datafusion_bridge/physical_predicates.rs:166-199 | one comparison on the key is planned as a range with no residual, and the range decides it by key bytes, whatever the literal |
| Pushdown.ComparisonPushdownExact | src/datafusion_bridge/physical_predicates.rs:87-199 | one pushed-down comparison is right for every stored key exactly when the literal is of the key's variant, or the operator is =, or least and greatest key already compare as the range does |
| Pushdown.MismatchedLiteralLosesRow | src/datafusion_bridge/physical_predicates.rs:166-199 | INT4 key 5 satisfies `>= 3` with an INT8 literal and lies outside the planned range |
| Pushdown.NullLiteralKeepsRow | src/datafusion_bridge/physical_predicates.rs:166-199 | a comparison with NULL is never true, but its range keeps the row |
| GroupKeys.GroupKeyFaithful | src/kv_engine_store/projected_aggregate.rs:139-192 | two value tuples have the same group key exactly when they differ at most in string kind, nested arrays included |
| GroupKeys.FastGroupKeyFaithful | src/kv_engine_store/fast_numeric_eval.rs:237-273 | two slot tuples have the same fast group key exactly when they are equal, single and composite forms together |
| GroupKeys.BuildTypedGroupKey | src/kv_engine_store/projected_aggregate.rs:139-186 | the appending loop builds the specified group key |
| GroupKeys.BuildGroupBody | src/kv_engine_store/projected_aggregate.rs:142-192 | the bytes appended for one value are the specified ones |
| GroupKeys.BuildCompositeKey | src/kv_engine_store/fast_numeric_eval.rs:254-272 | the composite loop appends the tagged slots in order |
| GroupKeys.BuildFastGroupKey | src/kv_engine_store/fast_numeric_eval.rs:237-273 | one slot keys by itself, several by the composite |
| SlotComparison.CompareAgrees | src/kv_engine_store/fast_numeric_plan.rs:458-486 | for a literal that satisfies the exact condition, comparing slots decides as comparing values, through the widening and rounding casts |
| SlotComparison.LiteralAgreesExactly | src/kv_engine_store/fast_numeric_plan.rs:458-486 | for every fast column type, operator and literal with a slot, the two comparisons agree on all values of the column exactly under a condition on type, operator and literal |
| SlotComparison.EqualityAgreesExactly | src/kv_engine_store/fast_numeric_plan.rs:473-486 | the same for = and <>, float literals on integer columns included |
| SlotComparison.OrderAgreesExactly | src/kv_engine_store/fast_numeric_plan.rs:473-486 | the same for the four order operators, with NaN, rounding of INT4 to REAL and unordered variants |
| SlotComparison.IntAgainstDoubleDiffers | src/types/column_value.rs:62-97 | every positive INT4 is greater than 0.0 in the fast path and not in the general one |
| SlotComparison.RoundedNeighbour | src/types/column_value.rs:62-97 | 16777217 is greater than 16777216::real in the fast path and equal to it in the general one |
| FastPredicates.FilterAgrees | src/kv_engine_store/fast_numeric_eval.rs:10-66 | a filter tree evaluated on slots decides as on the row when the slots it needs hold the row's values and each literal satisfies the exact condition |
| FastPredicates.FiltersAgree | src/kv_engine_store/projected_aggregate.rs:65-123 | the same for the whole filter list |
| FastPredicates.CollectFilterSlots | src/kv_engine_store/fast_numeric_plan.rs:488-523 | the collector adds exactly the slots that the filter reads, or rejects it |
| Aggregates.CountStarMeaning | src/kv_engine_store/projected_aggregate.rs:194-206 | COUNT(*) is the number of rows in i64 in both paths |
| Aggregates.CountMeaning | src/kv_engine_store/fast_numeric_eval.rs:119-129 | COUNT(column) is the number of its non-null values in both paths |
| Aggregates.ExtremumMeaning | src/kv_engine_store/fast_numeric_eval.rs:162-191 | MIN and MAX are the least and greatest non-null value, NULL over none, and the slot shows the same value |
| Aggregates.FastSumMeaning | src/kv_engine_store/fast_numeric_eval.rs:130-150 | the fast SUM is the sum of the non-null integers in i64 |
| Aggregates.GeneralSumMeaning | src/kv_engine_store/projected_aggregate.rs:277-306 | the general SUM of integers is NULL, the first value or the i64 sum, by type and count |
| Aggregates.AvgMeaning | src/kv_engine_store/fast_numeric_eval.rs:151-161 | both AVGs keep the float sum in order and the count, except that the general one never counts an INT2 |
| Aggregates.AggregateAgreesExactly | src/kv_engine_store/fast_numeric_eval.rs:207-235 | over any integer rows, the finished results of the two paths are equal exactly under a condition on operator, type and input values |
| FloatAggregates.FloatCountMeaning | src/kv_engine_store/fast_numeric_eval.rs:119-129 | COUNT(column) over a float column is the number of its non-null values in both paths |
| FloatAggregates.FloatExtremumMeaning | src/kv_engine_store/fast_numeric_eval.rs:162-191 | MIN and MAX over a float column are the least and greatest non-null value, NULL over none, and the slot shows the same value |
| FloatAggregates.FastFloatSumMeaning | src/kv_engine_store/fast_numeric_eval.rs:130-150 | the fast SUM over floats adds all non-null values in order, starting from 0 |
| FloatAggregates.GeneralFloatSumMeaning | src/kv_engine_store/projected_aggregate.rs:277-306 | the general SUM over floats is NULL, the first value as it is, or the others added to it in order |
| FloatAggregates.FloatAvgMeaning | src/kv_engine_store/fast_numeric_eval.rs:151-161 | both AVGs over floats keep the same sum in order and the same count |
| FloatAggregates.StartsAgree | src/kv_engine_store/projected_aggregate.rs:277-306 | starting a sum from 0 or from the first value gives the same unless all values are -0 |
| FloatAggregates.FloatAgreesExactly | src/kv_engine_store/fast_numeric_eval.rs:207-235 | over any NaN-free float rows, COUNT, AVG, MIN and MAX agree, and SUM exactly when there are enough values and not all are -0 |
| FloatAggregates.ColumnAgreesExactly | src/kv_engine_store/fast_numeric_eval.rs:207-235 | over any integer or NaN-free float rows, the finished results of the two paths are equal exactly under a condition on operator, type and input values |
| Grouping.GroupRowsExact | src/kv_engine_store/aggregate_scan.rs:79-137 | grouping by faithful keys leaves one entry per distinct tuple, holding the fold over that tuple's rows in order |
| Grouping.GroupCount | src/kv_engine_store/aggregate_scan.rs:79-188 | there are as many groups as distinct tuples |
| Grouping.SizesAddUp | src/kv_engine_store/aggregate_scan.rs:79-188 | the sizes of all groups sum to the number of rows |
| AggregateAgreement.FastRecord | src/kv_engine_store/fast_numeric_plan.rs:98-147 | whatever the reused buffer held, the first phase decides the filters as the general path does and the second leaves every slot it will read holding this record's value |
| AggregateAgreement.FirstPhase | src/kv_engine_store/fast_numeric_plan.rs:103-125 | filters on freshly filled filter slots decide as on the row |
| AggregateAgreement.SecondPhase | src/kv_engine_store/fast_numeric_plan.rs:130-143 | aggregates read only filled slots, so a stale one cannot matter |
| AggregateAgreement.FastGroupedScan | src/kv_engine_store/fast_numeric_plan.rs:182-303 | over all stored records and any initial buffer, the two-phase grouped scan is grouping of the matching rows |
| AggregateAgreement.FastUngroupedScan | src/kv_engine_store/fast_numeric_plan.rs:77-180 | over all stored records and any initial buffer, the two-phase scan folds the matching rows |
| AggregateAgreement.GeneralGroupedScan | src/kv_engine_store/aggregate_scan.rs:79-188 | the general grouped scan is grouping of the matching rows |
| AggregateAgreement.GeneralUngroupedScan | src/kv_engine_store/fast_numeric_plan.rs:305-391 | the general scan folds the matching rows |
| AggregateAgreement.ResultsAgree | src/kv_engine_store/fast_numeric_eval.rs:207-235 | the finished aggregates of any rows agree exactly when each single aggregate does |
| AggregateAgreement.GroupKeysFaithful | src/kv_engine_store/fast_numeric_eval.rs:237-288 | over integer and NaN-free float columns both kinds of group key tell any two group tuples apart, 0 and -0 included |
| AggregateAgreement.UngroupedScansAgree | src/kv_engine_store/fast_numeric_plan.rs:77-180 | both ungrouped scans succeed, the general one with each aggregate's meaning over the matching rows, and their results are equal exactly under the condition on the aggregates |
| AggregateAgreement.GroupedScansAgree | src/kv_engine_store/fast_numeric_plan.rs:182-303 | both grouped scans have one row per distinct group, and the same set of rows exactly when in every group every aggregate comes out the same |
| AggregateAgreement.CountsAddUp | src/kv_engine_store/aggregate_scan.rs:79-188 | the COUNT(*) values of all groups sum to the number of matching rows |
| AggregateReduce.BuildFastPlan | src/kv_engine_store/fast_numeric_plan.rs:25-75 | the plan builder accepts exactly the specified plans and computes their slot lists |
| AggregateReduce.ApplyFastAggregates | src/kv_engine_store/fast_numeric_eval.rs:106-194 | every state advances by its own aggregate |
| AggregateReduce.ApplyProjectedAggregates | src/kv_engine_store/projected_aggregate.rs:194-275 | every state advances by its own aggregate |
| AggregateReduce.ReduceUngroupedFast | src/kv_engine_store/fast_numeric_plan.rs:77-180 | the record loop over the reused buffer ends in the states of the specified scan or fails with it |
| AggregateReduce.ReduceGroupedFast | src/kv_engine_store/fast_numeric_plan.rs:182-303 | the same for the group map |
| AggregateReduce.UpdateFastGroup | src/kv_engine_store/fast_numeric_plan.rs:243-262 | a record goes to the group of its key, a new one beginning at the initial states |
| AggregateReduce.ReduceUngroupedProjected | src/kv_engine_store/fast_numeric_plan.rs:305-391 | the general record loop ends in the states of the specified scan or fails with it |
| AggregateReduce.ReduceGroupedProjected | src/kv_engine_store/aggregate_scan.rs:79-188 | the same for the group map |
| AggregateReduce.UpdateGeneralGroup | src/kv_engine_store/aggregate_scan.rs:103-135 | a row goes to the group of its key, a new one beginning at the initial states |
| AggregateReduce.CountShortcut | src/kv_engine_store/aggregate_scan.rs:332-371 | for any stream of records, counting keys without reading them gives the counts of the general scan whenever every key reads back as a value; over stored rows it always does, and the counts are those of the values (AggregateAnswer.CountAnswers) |
| AggregateReduce.ExecuteAggregateScan | src/kv_engine_store/aggregate_scan.rs:25-188 | the dispatch counts keys, scans values or scans slots; over stored rows its output means what AggregateAnswer.OutputAnswers says |
| AggregateReduce.FastOutputAgrees | src/kv_engine_store/aggregate_scan.rs:25-188 | choosing the fast scan leaves the set of output rows as the general scan gives it exactly when every aggregate comes out the same in every group |
| AggregateValues.GeneralMeans | src/kv_engine_store/projected_aggregate.rs:194-275 | over any rows of values of the column's kind: COUNT is the number of rows or of values that are not NULL, in 64 bits; MIN and MAX a value that none is beyond, NULL without any; SUM and AVG the wrapped sum, or the doubles added in row order, and their quotient, with the exceptions stated |
| AggregateValues.FastMeans | src/kv_engine_store/fast_numeric_eval.rs:106-194 | the same for aggregates computed on slots |
| AggregateAnswer.RecordRead | src/kv_engine_store/projected_aggregate.rs:19-61 | what is read of a stored row, from its key, from its value or from both, are the row's own values in the required columns |
| AggregateAnswer.RegularKeys | src/kv_engine_store/projected_aggregate.rs:139-192 | group keys tell apart any two groups of values of the columns' kinds, arrays included |
| AggregateAnswer.CountAnswers | src/kv_engine_store/aggregate_scan.rs:332-371 | when only keys are counted, COUNT(*) and COUNT(column) are the numbers of matching rows and of their values that are not NULL |
| AggregateAnswer.GeneralAnswers | src/kv_engine_store/aggregate_scan.rs:79-188 | the scan of values or of keys alone answers, for every group of the matching stored rows, what its aggregates mean |
| AggregateAnswer.FastAnswers | src/kv_engine_store/fast_numeric_plan.rs:77-303 | so does the scan of slots, its SUM being the number or the doubles added to 0 |
| AggregateAnswer.OutputAnswers | src/kv_engine_store/aggregate_scan.rs:25-188 | over every table of stored rows and every plan, whichever way the scan takes: without groups one row, with groups exactly one for each distinct group of the rows that satisfy the filters, and every aggregate answers what it means over the stored values of those rows |
| TopNHeap.Candidates.constructor | src/datafusion_bridge/table_provider_scans.rs:31-34 | the heap begins empty |
| TopNHeap.Candidates.SiftUp | src/datafusion_bridge/table_provider_topn.rs:290-309 | the swap loop leaves the specified vector |
| TopNHeap.Candidates.SiftDown | src/datafusion_bridge/table_provider_topn.rs:311-347 | the swap loop leaves the specified vector |
| TopNHeap.Candidates.Push | src/datafusion_bridge/table_provider_topn.rs:349-373 | a push appends below the window, replaces the root by a better candidate at the window, and changes nothing otherwise |
| TopNHeap.SiftedUpIsHeap | src/datafusion_bridge/table_provider_topn.rs:290-309 | sifting up mends a heap that is broken only at one node |
| TopNHeap.SiftedDownIsHeap | src/datafusion_bridge/table_provider_topn.rs:311-347 | sifting down mends a heap that is broken only below one node |
| TopNHeap.PushedBest | src/datafusion_bridge/table_provider_topn.rs:349-373 | every push keeps a heap whose candidates are no worse than any discarded one, nothing lost and nothing invented |
| TopNHeap.KeptBest | src/datafusion_bridge/table_provider_topn.rs:349-373 | the same after any stream of pushes, with length min(n, window) |
| TopNHeap.SortedUnique | src/datafusion_bridge/table_provider_scans.rs:130-143 | without ties there is only one sorted order, so the sort used does not matter |
| TopNHeap.TopNExact | src/datafusion_bridge/table_provider_scans.rs:130-143 | sort, skip and take of the kept candidates equals sort, skip and take of the whole stream |
| TopNTies.TopNUpToTies | src/datafusion_bridge/table_provider_scans.rs:130-143 | for every stream, tied candidates or not, the page of the kept candidates is drawn from the stream and ties, position by position, with the page of the sorted stream |
| TopNTies.SortedTies | src/datafusion_bridge/table_provider_scans.rs:130-143 | any two sorted arrangements of one stream tie position by position |
| TopNHeap.MappedTopN | src/datafusion_bridge/table_provider_topn.rs:164-263 | heap, sort and page commute with any change of representation that respects the comparison |
| TopNOrder.PartialCmpLaws | src/types/column_value.rs:62-97 | on NaN-free values of one stored kind, all NUMERIC texts that parse included, the comparison is total, antisymmetric and transitive |
| NumericOrder.NumericLaws | src/types/column_value.rs:99-211 | the comparison is a total preorder on all texts that parse, also where the exponent arithmetic wraps |
| NumericOrder.NumericTextCycle | src/types/column_value.rs:99-104 | the text 1e99999999999999999999 makes a cycle: 9 before 10 before it before 9 |
| NumericOrder.NumericTextsExactly | src/types/column_value.rs:99-104 | on any set of texts the comparison is transitive exactly when none that does not parse lies, as bytes, after one number and before another that is no greater |
| TopNOrder.NumericOrderExactly | src/datafusion_bridge/table_provider_topn.rs:32-67 | the same for any set of values of a NUMERIC column, in either direction and NULL placement |
| TopNOrder.TopNIsTotal | src/datafusion_bridge/table_provider_topn.rs:32-67 | with direction, NULL placement and tie-break by a primary key of any orderable kind, or without a key, it is a total preorder on candidates |
| TopNOrder.NaNBreaksTheOrder | src/datafusion_bridge/table_provider_topn.rs:32-67 | with a NaN two candidates tie with it but not with each other |
| TopNOrder.NaNOrderExactly | src/datafusion_bridge/table_provider_topn.rs:32-67 | on any set of float values, in either direction and NULL placement, the order is transitive exactly when the set has no NaN beside two different numbers |
| TopNOrder.FastTopNAgrees | src/datafusion_bridge/table_provider_topn.rs:73-136 | comparing slot candidates gives what comparing value candidates gives, for order columns and keys of any fast type |
| TopNPlan.CompiledMatches | src/datafusion_bridge/table_provider_topn.rs:501-670 | a compiled predicate decides every slot row as the predicate does |
| TopNPlan.CompiledSlots | src/datafusion_bridge/table_provider_topn.rs:501-691 | a predicate compiles exactly when its slots can be collected, and then reads exactly those |
| TopNPlan.RequiredColumns | src/datafusion_bridge/table_provider_topn.rs:550-609 | the required columns are distinct fast columns with the order column and the key among them |
| TopNPlan.CandidateSlotsCovered | src/datafusion_bridge/table_provider_topn.rs:550-609 | the candidate slots hold the slots of order column and key |
| TopNPlan.FilterSlotsCovered | src/datafusion_bridge/table_provider_topn.rs:550-691 | the filter slots hold every slot that the filters read |
| TopNPlan.WholeFilterMatches | src/datafusion_bridge/table_provider_topn.rs:550-609 | the one compiled filter holds exactly when all filters do |
| TopNScan.ExecuteTopNScan | src/datafusion_bridge/table_provider_scans.rs:20-220 | the scan returns the selected page of the matching stream or fails with its decode; what that page is in terms of the rows' values is TopNAnswer.HeapAnswers |
| TopNScan.ExecuteTopNFastScan | src/datafusion_bridge/table_provider_scans.rs:222-381 | the slot scan over one reused buffer returns the selected page of its stream or fails with it; it selects the same records (TopNAgreement.FastTopNSelectsTheSame) |
| TopNScan.ExecutePrimaryKeyOrderedScan | src/datafusion_bridge/table_provider_scans.rs:383-456 | the early-exit scan, which decodes the output columns of each row into a map first, returns the page of the first matching rows in scan order or fails with a decode |
| TopNScan.GeneralStreamExact | src/datafusion_bridge/table_provider_scans.rs:20-220 | decoding only the scanned columns yields the candidates of exactly the rows that satisfy the filters |
| TopNScan.StreamStrict | src/datafusion_bridge/table_provider_scans.rs:130-143 | primary keys of any orderable kind that never compare as equal leave no ties |
| TopNScan.TopNScanExact | src/datafusion_bridge/table_provider_scans.rs:20-220 | over every table of ranked rows whose keys, of any orderable kind, never compare as equal, the Top-N scan returns sort, skip and take of all matching rows |
| TopNScan.TopNScanUpToTies | src/datafusion_bridge/table_provider_scans.rs:20-220 | over every table of ranked rows, with a primary key of any orderable kind or without one, the Top-N scan returns matching rows that tie position by position with sort, skip and take |
| TopNWitnesses.EqualKeysSwap | src/datafusion_bridge/table_provider_topn.rs:349-373 | rows with NUMERIC keys 1 and 1.0 that tie come out of the heap in the other order than out of a stable sort |
| TopNAgreement.FilterPhase | src/datafusion_bridge/table_provider_scans.rs:250-269 | the compiled filter on freshly filled filter slots decides as the filters on the decoded row |
| TopNAgreement.CandidatePhase | src/datafusion_bridge/table_provider_scans.rs:276-307 | the candidate built from slots is the numeric view of the general candidate |
| TopNAgreement.FastStreamExact | src/datafusion_bridge/table_provider_scans.rs:222-381 | for any buffer content, the slot scan's candidates are the views of the matching rows' candidates |
| TopNAgreement.FastTopNSelectsTheSame | src/datafusion_bridge/table_provider_scans.rs:222-381 | the fast Top-N selects the records of the general Top-N, in the same order, ties included, for keys of any fast type |
| KeyScan.OrderedRowsExact | src/datafusion_bridge/table_provider_scans.rs:383-456 | stopping early loses none of the first n matching rows |
| KeyOrder.KeyBytesOrder | src/storage_layout/olap_stats.rs:98-149 | byte order of the keys of any orderable kind: numbers by value with -0 before 0, booleans, and strings and NUMERIC texts shorter first |
| KeyOrder.StepsUpExactly | src/datafusion_bridge/table_provider_scans.rs:383-456 | the key that comes first is no greater exactly under a condition that numbers and booleans always meet, strings of one length always, and strings of two lengths when the shorter is the smaller |
| KeyOrder.DistinctNeverTie | src/types/column_value.rs:62-97 | two different keys of any kind but FLOAT4, FLOAT8 and NUMERIC never compare as equal |
| KeyScan.KeyScanSortedExactly | src/datafusion_bridge/table_provider_scans.rs:383-456 | the rows visited along the key, in either direction, are sorted exactly when every pair of matching keys meets that condition |
| KeyScan.ScanOrderIsSorted | src/datafusion_bridge/table_provider_scans.rs:383-456 | scanning keys that meet the condition and never compare as equal, forward or in reverse, yields the matching rows as sorting does |
| KeyScan.PrimaryKeyScanExact | src/datafusion_bridge/table_provider_scans.rs:383-456 | for keys of every orderable kind that meet the condition and never compare as equal, integers always, the early-exit scan returns the page that sorting all matching rows gives, in both directions |
| KeyScan.PrimaryKeyScanUpToTies | src/datafusion_bridge/table_provider_scans.rs:383-456 | the same up to ties for keys that may compare as equal |
| KeyScan.KeyScanExactly | src/datafusion_bridge/table_provider_scans.rs:383-456 | a scan along the key that fetches all rows is right up to ties exactly when every pair of matching keys meets the condition |
| TopNWitnesses.TextKeysMisorder | src/datafusion_bridge/physical_planner.rs:505 | in a table with text keys b and aa, ORDER BY the key LIMIT 2 answers b, aa |
| TopNDispatch.Execute | src/datafusion_bridge/table_provider_scans.rs:20-26 | the dispatch runs the key-ordered, the slot or the general scan; what comes out in terms of the rows' values is TopNAnswer.OutputAnswers |
| TopNDispatch.OutputIsSortedPage | src/datafusion_bridge/table_provider_scans.rs:20-456 | over every table in key order whose keys never compare as equal, whichever scan is chosen, the output is sort, skip and take of all rows that satisfy the filters; along the key, for keys that meet the condition |
| TopNDispatch.OutputUpToTies | src/datafusion_bridge/table_provider_scans.rs:20-456 | over every table, with a key of any orderable kind or without one, whichever scan is chosen, the output ties position by position with sort, skip and take |
| TopNAnswer.BeforeIsLess | src/datafusion_bridge/table_provider_topn.rs:32-67 | the comparator puts one record before another exactly when its order column's value comes first, in the direction and with NULL on the side asked for, or they do not differ there and its key is less; and it is antisymmetric |
| TopNAnswer.HeapAnswers | src/datafusion_bridge/table_provider_scans.rs:20-220 | the bounded heap scan returns a right answer: of the matching rows the first min(skip, n) come before it, it has the smaller of fetch and what remains, it is in order, and no row left out belongs before it |
| TopNAnswer.KeyScanAnswers | src/datafusion_bridge/table_provider_scans.rs:383-456 | so does the early-exit scan along the key, for keys that meet the condition |
| TopNAnswer.OutputAnswers | src/datafusion_bridge/table_provider_scans.rs:20-456 | over every table, with ties or without, whichever scan is chosen, the output is a right answer by the values of the decoded rows alone |
| ZoneMaps.ZoneMapsForRows | src/core/server/olap_refresh.rs:10-31 | the nested loops leave, per column, the zone of its values |
| ZoneMaps.UpdateZones | src/core/server/olap_refresh.rs:24-29 | one row moves the zone of every column by its own value and no other |
| ZoneMaps.ZoneBounds | src/core/server/row_write.rs:845-864 | a zone bounds every value of its column, or counts it as NULL, for every stored kind with a total order, NUMERIC texts that parse included |
| ZoneMeaning.ZoneHolds | src/core/server/row_write.rs:845-864 | a zone counts the NULLs of its column, up to the largest u64, and its bounds are values of the column |
| ZoneMeaning.IntegerZone | src/core/server/row_write.rs:845-864 | the zone of an INT8 column holds its least and its greatest number, and none exactly when all values are NULL |
| ZoneMaps.NaNZone | src/core/server/row_write.rs:845-864 | a NaN that is the first non-NULL value of a column stays both bounds, whatever follows |
| ZoneMaps.FloatZoneBoundsExactly | src/core/server/row_write.rs:845-864 | the zone of a float column bounds all its numbers exactly when its first non-NULL value is not a NaN or it has no number |
| ZoneMaps.LiteralMonotone | src/types/column_value.rs:62-97 | values of one type in order compare in order with any literal, of any variant, or not at all |
| ZoneMaps.ComparisonKept | src/datafusion_bridge/table_provider_scans.rs:904-950 | a zone that bounds a satisfying value admits the comparison |
| ZoneMaps.ReversedComparison | src/datafusion_bridge/physical_predicates.rs:63-72 | swapping the sides and reversing the operator keeps the outcome |
| ChunkPruning.MatchingRowKeepsChunk | src/datafusion_bridge/table_provider_scans.rs:722-950 | for every filter tree without NOT BETWEEN, a bounded row for which the three-valued filter is true keeps its chunk |
| ChunkPruning.NegatedBetweenLosesAll | src/datafusion_bridge/table_provider_scans.rs:847-864 | every non-null row of a chunk so skipped satisfies the filter |
| ChunkPruning.NegatedBetweenWitness | src/datafusion_bridge/table_provider_scans.rs:847-864 | one row with 10 is lost under NOT BETWEEN 1 AND 5 |
| ChunkPruning.LoadRowsFromChunks | src/datafusion_bridge/table_provider_scans.rs:576-635 | the chunk loop with pruning, filter and limit returns the specified rows or fails; in terms of the rows' values they are those of FilterMeaning.LoadReturnsWantedRows |
| ChunkPruning.SkippedChunkLoadsNothing | src/datafusion_bridge/table_provider_scans.rs:820-828 | a chunk that pruning skips would have added no row |
| ChunkPruning.PrunedLoadIsFullLoad | src/datafusion_bridge/table_provider_scans.rs:576-635 | over all chunks with bounding zones the pruned load equals the unpruned load, with and without a limit |
| NegatedBetween.LoadIsFront | src/datafusion_bridge/table_provider_scans.rs:576-635 | pruned or not, a load is the front part, up to the limit, of the matching rows of the chunks it reads |
| NegatedBetween.PruningLosesExactly | src/datafusion_bridge/table_provider_scans.rs:576-635 | for any filters, zones and chunks, pruning changes a load only when the load reaches a skipped chunk with matching rows; without a limit, or when all matching rows differ, it does so whenever that happens |
| NegatedBetween.NegatedBetweenLosesExactly | src/datafusion_bridge/table_provider_scans.rs:847-864 | under one NOT BETWEEN over chunks with bounding zones, the pruned load differs from the unpruned one exactly when it reaches a chunk whose zone lies beyond the limits and that holds a non-NULL value; with a limit, for matching rows that all differ |
| NegatedBetween.EqualRowsHideLoss | src/datafusion_bridge/table_provider_scans.rs:576-635 | with a limit of one row, a second chunk with an equal row hides the loss |
| OlapRefresh.BuildChunk | src/core/server/olap_refresh.rs:63-93 | a chunk stores its rows column by column with their zones |
| OlapRefresh.RefreshChunks | src/core/server/olap_refresh.rs:33-118 | the loop cuts the rows into numbered chunks of at most 1024 |
| OlapRefresh.ChunkHolds | src/core/server/olap_refresh.rs:33-118 | a refresh makes as many chunks as the rows need at 1024 each; chunk i has the number i + 1, the number of its rows, and under every column's id the values of exactly its rows in order |
| OlapRefresh.ChunkRowIsRow | src/datafusion_bridge/table_provider_scans.rs:613-625 | a row read back from a stored chunk is the row that was chunked, on the needed columns |
| OlapRefresh.FullLoadIsFilter | src/datafusion_bridge/table_provider_scans.rs:576-635 | for every chunk size the unpruned load is filtering the rows in order up to the limit; what the filters decide is FilterMeaning.EvaluatesExactly |
| OlapRefresh.RowWithinZones | src/core/server/olap_refresh.rs:10-31 | every chunked row is bounded by the zones computed for its chunk |
| OlapRefresh.PrunedLoadIsFilter | src/core/server/olap_refresh.rs:33-118 | chunking all rows and loading them with pruning equals filtering them directly, under any limit |
| FilterMeaning.EvaluatesExactly | src/datafusion_bridge/table_provider_scans.rs:722-806 | a filter evaluates to true, to false or to unknown exactly as its comparisons and tests say of the row's values, NOT taken down to them |
| FilterMeaning.NegationLaws | src/datafusion_bridge/table_provider_scans.rs:722-806 | in all three truth values NOT NOT is nothing and NOT goes through AND and OR |
| FilterMeaning.NotComparison | src/datafusion_bridge/table_provider_scans.rs:722-806 | NOT of a comparison of values that compare is the complementary comparison; with a NULL both are unknown |
| FilterMeaning.TestsDecide | src/datafusion_bridge/table_provider_scans.rs:722-806 | IS [NOT] NULL, TRUE and FALSE decide from the stored value, NULL included |
| FilterMeaning.LoadReturnsWantedRows | src/datafusion_bridge/table_provider_scans.rs:576-635 | chunking a table and loading it with pruning returns, in order and up to the limit, exactly the rows of whose values every filter is true |
| FilterMeaning.NotComparisonLoads | src/datafusion_bridge/table_provider_scans.rs:576-635 | under NOT (n op k) on an INT8 column: the rows whose number stands to k as the complement of op says, and none with NULL |
| KvMaps.OverlayInRange | src/mem_store.rs:577-663 | restricting base and pending writes to a range and overlaying is overlaying and restricting |
| KvMaps.ListEntries | src/mem_store.rs:599-613 | a map is listed in key order, forward or reverse, every entry once |
| KvMaps.ListingUnique | src/mem_store.rs:599-613 | there is only one such list |
| KvMaps.TakeOfFilter | src/kv_engine_store/transaction.rs:106-182 | filtering before taking n changes the first n entries exactly when one of them is filtered out |
| ScanMeaning.ListsExactly | src/mem_store.rs:599-613 | a listing is exactly the entries of the map, their keys ascending or descending: up to some place equal, and there ending or with the smaller byte |
| ScanMeaning.ReverseListing | src/mem_store.rs:599-613 | a reverse listing is the forward one backwards |
| ScanMeaning.PrefixListing | src/mem_store.rs:641-663 | scanning the range of a prefix lists exactly the keys that begin with it |
| ScanMeaning.LimitedListing | src/mem_store.rs:599-613 | a limited listing has as many entries as there are up to the limit, and every key left out comes after all of them |
| Transactions.MemoryKvStore.constructor | src/mem_store.rs:563-569 | a new store is empty |
| Transactions.MemoryKvStore.Put | src/mem_store.rs:690-696 | one key changes |
| Transactions.MemoryKvStore.Delete | src/mem_store.rs:718-721 | one key goes |
| Transactions.MemoryKvStore.WriteBatch | src/kv_engine_store/transaction.rs:184-210 | a batch of writes is applied in order |
| Transactions.MemoryKvStore.Get | src/mem_store.rs:706-708 | the stored value, if any |
| Transactions.MemoryKvStore.BeginTransaction | src/mem_store.rs:759-768 | a transaction begins with a snapshot of the store and no writes |
| Transactions.CollectRange | src/mem_store.rs:599-613 | the first `limit` entries of the merged view, in key order or reverse |
| Transactions.OverlayPending | src/mem_store.rs:577-597 | the loop over pending writes leaves the base overlaid with those in range |
| Transactions.MemoryTransaction.constructor | src/mem_store.rs:759-768 | snapshot taken, nothing pending, no savepoints |
| Transactions.MemoryTransaction.Put | src/mem_store.rs:772-778 | the state steps as the operation log's put |
| Transactions.MemoryTransaction.PutBatch | src/mem_store.rs:780-786 | the state steps as a batch; a batch is its puts in order (TransactionRuns.BatchIsPuts) |
| Transactions.MemoryTransaction.Delete | src/mem_store.rs:788-791 | the state steps as the log's delete |
| Transactions.MemoryTransaction.Get | src/mem_store.rs:793-798 | own writes first, then the shared store |
| Transactions.MemoryTransaction.SnapshotGet | src/mem_store.rs:800-805 | own writes first, then the snapshot |
| Transactions.MemoryTransaction.ScanRange | src/mem_store.rs:641-827 | the first `limit` entries of the fully merged map in range, whatever is deleted |
| Transactions.MemoryTransaction.SnapshotScanRange | src/mem_store.rs:665-839 | the same over the snapshot |
| Transactions.MemoryTransaction.Commit | src/mem_store.rs:841-855 | the loop leaves the shared store overlaid with exactly the pending map |
| Transactions.MemoryTransaction.Savepoint | src/mem_store.rs:861-868 | the current writes are remembered under the lower-cased name; which names are then the same is Transactions.LowerExactly |
| Transactions.MemoryTransaction.RollbackToSavepoint | src/mem_store.rs:870-880 | the latest savepoint of the name is restored and kept, later ones dropped; fails exactly when there is none |
| Transactions.MemoryTransaction.ReleaseSavepoint | src/mem_store.rs:882-890 | the latest savepoint of the name and later ones are dropped; fails exactly when there is none |
| Transactions.LowerExactly | src/mem_store.rs:861-890 | two names are lower-cased to one exactly when they are equally long and at each place the same or an ASCII letter in the other case |
| Transactions.KvEngineTransaction.constructor | src/kv_engine_store/store.rs:357-360 | nothing pending |
| Transactions.KvEngineTransaction.Put | src/kv_engine_store/transaction.rs:14-20 | the key's pending write is replaced |
| Transactions.KvEngineTransaction.Delete | src/kv_engine_store/transaction.rs:30-36 | the key's pending write becomes a delete |
| Transactions.KvEngineTransaction.Get | src/kv_engine_store/transaction.rs:38-53 | own writes first, then the table |
| Transactions.KvEngineTransaction.ScanRange | src/kv_engine_store/transaction.rs:106-182 | the first `limit` entries of the pending writes over the truncated base scan |
| Transactions.BatchOf | src/kv_engine_store/transaction.rs:184-210 | the loop over the pending writes builds a batch that overlays exactly them on any table |
| Transactions.KvEngineTransaction.Commit | src/kv_engine_store/transaction.rs:184-210 | the batch built from the pending map is written, so the table is overlaid with exactly that map, which is emptied |
| Transactions.KvEngineTransaction.Rollback | src/kv_engine_store/transaction.rs:212-215 | nothing stays pending |
| TransactionRuns.RunIsExplained | src/mem_store.rs:772-891 | for every run of operations interleaved with other commits, pending writes are the replay of the surviving operations, each savepoint the replay up to its mark, and the snapshot that of the beginning |
| TransactionRuns.FoundByName | src/mem_store.rs:870-890 | after any run, a name finds the last savepoint whose name as typed is the same but for case, if there is one |
| TransactionRuns.OwnWritesRead | src/mem_store.rs:772-805 | a transaction reads what it put, and nothing where it deleted, over any base; other keys do not change |
| TransactionRuns.BatchIsPuts | src/mem_store.rs:780-786 | a batch is its puts in order |
| TransactionRuns.SnapshotReadsAreStable | src/mem_store.rs:665-805 | a snapshot read depends on the begin snapshot and the transaction's own operations alone |
| TransactionRuns.SnapshotScansAreStable | src/mem_store.rs:665-839 | so does a snapshot scan, with any range, limit and direction: its result is the listing of the begin snapshot under the own operations |
| TransactionRuns.RollbackRestores | src/mem_store.rs:861-880 | after any stretch of operations that stays above the savepoint and leaves no newer one of its name, in any case, rolling back restores writes and savepoints |
| TransactionRuns.RollbackRepeats | src/mem_store.rs:870-880 | and it can be done again after another stretch |
| TransactionRuns.ReleaseKeepsWrites | src/mem_store.rs:882-890 | releasing changes no pending write |
| TransactionRuns.ReleaseForgets | src/mem_store.rs:882-890 | releasing what a stretch began with leaves its writes, and exactly the savepoints that were there before |
| TransactionRuns.CommitIsExact | src/mem_store.rs:841-855 | after any run, a committed key holds the replayed write if there is one, and the other transactions' value otherwise |
| TransactionRuns.EngineScanIsFiltered | src/kv_engine_store/transaction.rs:106-182 | the engine's scan is the merged view without the base entries it never read, cut at the limit |
| TransactionRuns.LimitedScanExact | src/kv_engine_store/transaction.rs:106-182 | for every base, pending map and limit, a limited scan is right exactly when nothing without a pending write is left unread, or the pending puts before the first such entry and the entries read without a delete fill the limit, forward and reverse |
| TransactionRuns.UnlimitedScanExact | src/kv_engine_store/transaction.rs:106-182 | an unlimited scan is the merged view |
| TransactionRuns.NoDeletesNoLoss | src/kv_engine_store/transaction.rs:106-182 | with no pending delete among the entries read, a limited scan is the first `limit` entries of the merged view |
| TransactionRuns.DeleteLosesRow | src/kv_engine_store/transaction.rs:106-182 | two stored keys, the first deleted: a scan with limit 1 finds nothing although the second key is there |
| Decimal.ParseLoop | src/types/column_value.rs:114-174 | the parser accepts and reads exactly the specified texts |
| Decimal.ScanMantissa | src/types/column_value.rs:133-152 | the byte loop collects digits and counts those behind the one allowed point |
| Decimal.NormalizeLoop | src/types/column_value.rs:154-173 | the stripping loops leave the specified record, or fail when the scale underflows |
| Decimal.CmpAbsLoop | src/types/column_value.rs:176-194 | comparing digit by digit with missing digits as zero is comparing padded digit strings |
| Decimal.NormalizePreservesValue | src/types/column_value.rs:154-173 | the normalized record denotes the number of the text exactly |
| Decimal.StripTrailingSome | src/types/column_value.rs:164-167 | stripping trailing zeros fails exactly when the scale would underflow i64 |
| Decimal.CmpIsExact | src/types/column_value.rs:176-211 | comparing normalized records is comparing sign·digits·10^-scale |
| Decimal.NormalFormUnique | src/types/column_value.rs:154-173 | two normalized records denote the same number exactly when they are equal |
| Decimal.CmpExactIffExponentFits | src/types/column_value.rs:176-194 | a record compares exactly with every other exactly when its digit count minus scale fits i64 |
| Decimal.OverflowWitness | src/types/column_value.rs:176-194 | 1e9223372036854775807 comes out less than 1 |
| Decimal.NumericCmpIsExact | src/types/column_value.rs:99-104 | two texts that parse compare as their numbers, and are equal exactly when their normal forms are |
| NumericText.WrittenParses | src/types/column_value.rs:114-174 | a number written with any sign, digits, point, fraction and exponent, and blanks around it, parses exactly when its scale, also without trailing zeros, fits i64, and then as sign·digits·10^-scale |
| NumericText.WrittenCompare | src/types/column_value.rs:99-211 | two such texts with fitting exponents compare as the numbers written, negative ones included |
| Decimal.CommonScale | src/types/column_value.rs:99-104 | any three texts that parse with fitting exponents compare as three integers over one scale |
| Floats.WidenExact | src/types/column_value.rs:72-82 | widening an f32 keeps its number, subnormals included |
| Floats.WidenOrder | src/types/column_value.rs:72-82 | widening keeps the order of numbers, infinities included |
| Floats.IntToFloatMonotone | src/types/column_value.rs:72-82 | converting an i64 to either float, with rounding, never reverses an order |
| FloatRounding.RoundStops32 | src/types/column_value.rs:72-82 | rounding an i64 to f32 never takes it past a float that lies on its way |
| FloatRounding.RoundStops64 | src/types/column_value.rs:72-82 | the same for f64 |
| FloatRounding.RoundShiftNearest | src/types/column_value.rs:72-82 | no multiple of a power of two is nearer than the rounded one, and of two equally near the even one is taken |
| FloatRounding.RoundsToNearest32 | src/types/column_value.rs:72-82 | an i64 becomes the nearest f32: no other is nearer |
| FloatRounding.RoundsToNearest64 | src/types/column_value.rs:72-82 | an i64 becomes the nearest f64 |
| FloatRounding.NarrowsWhenFloat | src/types/column_value.rs:72-82 | if any f32 widens to the number of a double, the double's own narrowing does |
| FloatRounding.NarrowWidened | src/types/column_value.rs:72-82 | an f32 that is not a NaN, cast to f64 and back, is the same bits, -0 included |
| Calendar.DayNumberStep | src/sql/json.rs:344-362 | the next valid day, by month lengths and leap years, has the next day number, for every year, negative ones included |
| Calendar.EpochIsDayZero | src/sql/json.rs:344-352 | 1970-01-01 is day 0 |
| Calendar.DayNumberMonotone | src/sql/json.rs:344-352 | day numbers order valid dates as the calendar does and tell them apart |
| Calendar.CivilRoundTrip | src/sql/values/default_expr.rs:71-83 | turning a date into its day number and back gives the date |
| Calendar.EveryDayHasDate | src/sql/json.rs:344-362 | every integer is the day number of a valid date |
| Calendar.DaysRoundTrip | src/sql/values/default_expr.rs:71-83 | turning any day number into a date gives a valid date with that number |

## Left out

- Error texts and SQLSTATE codes: every error is one `Err`.
- Async, locks, poisoned locks and profiling: each method is one atomic step, and `try_read` in the overlay succeeds.
- The `kv_engine` database and its log are not part of this model: a table is a map, and a cursor the full list of its entries in order.
- Compiling DataFusion expressions into predicates and plans, Arrow output and refetching the selected Top-N rows: plans are inputs, a candidate is identified with its record.
- Parameters of SQL types (lengths, precisions): only what `fixed_width` and the decoders distinguish is kept.
- Failure of `Vec::with_capacity` for absurd counts in corrupted input.
- Overflow panics of debug builds: i64 arithmetic wraps, as in release builds; years and day numbers in `Calendar` are unbounded.
- `parse::<f64>` of NUMERIC literals is a parameter of the slot predicates.
- NaN in float columns aggregated on slots, and under MIN and MAX: the agreement of the aggregate scans and the answers of the slot scan are stated for NaN-free values. The rounding of float additions is not modelled; both paths do the same additions in the same order.
- NaN in the scans over float columns: what it does to one order and one zone is exact, the pages and loads that come out are not described.
- Text primary keys in pushdown: their keys are not in text order.
- Groups come out of the scans in an unspecified order: outputs are sets of rows.
- `sort_by` is a stable insertion sort; without ties any sort gives the same, and with ties any sort the same up to ties.
- `MemoryKvStore.aggregate_scan` with its joined-text group keys, `visit_range`, `scan_prefix`, `multi_get`, and keys of catalog, chunks and statistics: easier than what is modelled.
- `is_row_visible` is called nowhere else in the repository.
- Storing chunks through transactions in the refresh, and its per-column statistics entries.
- The legacy cell format in `src/codec.rs`, the catalog, SQL functions, wire protocols.
- Lengths and counts of 2^32 and more in the round trips: `as u32` cuts them off, so values are assumed to fit.
- TopNScan.TopNScanExact: keys that compare as equal, as the NUMERIC keys 1 and 1.0 or the float keys -0 and 0 do, are left to `TopNScan.TopNScanUpToTies` (`TopNWitnesses.EqualKeysSwap`). Order column and key are of kinds on which the comparator is total: no NaN, NUMERIC texts that parse, and no JSON or array column, whose values do not compare at all.
- NegatedBetween.NegatedBetweenLosesExactly: with a limit the matching rows must differ, because an equal row further on can hide the loss (`EqualRowsHideLoss`).
- AggregateAgreement.GroupedScansAgree: NaN-free values in the columns read, and filter literals on which the two paths agree by `SlotComparison.LiteralAgreesExactly`.
- AggregateAnswer.OutputAnswers: values are of their columns' kinds, MIN and MAX are asked of kinds with a total order, lengths in keys fit, and on the slot path the slots can be read and the filter literals agree (`SlotOffsets.SlotRightExactly`, `SlotComparison.LiteralAgreesExactly`).
- TopNAnswer.OutputAnswers: order column and key are of the kinds of `TopNScan.TopNScanExact`, and along the key their bytes follow the order (`KeyScan.KeyScanExactly`).
