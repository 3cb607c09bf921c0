# Verified models of the Auron native engine

Dafny models of the parts of the engine whose results depend on many steps being right together, and
proofs of what they are for. Each module follows one component; `dafny verify dfyconfig.toml` checks
all of them.

| module | component |
|---|---|
| `SortedAgg` | aggregation of clustered input, with staging, lazy updates and flushes inside a batch |
| `HashAgg` | the hash aggregation driver and its table: spills, early flushes, partial skipping |
| `AggAgreement` | the two aggregations against each other, and where each row goes in a whole run |
| `Calendar`, `FlinkDateTime` | day numbers of the hybrid Julian/Gregorian calendar; format tokenizer and lenient scanner |
| `BitArray`, `BloomFilter` | the bit array and the Bloom filter on it: insert, look up, merge, shrink, serialise |
| `MemManager`, `MemLocks` | the memory manager's accounting, and its locks as an interleaving machine |
| `WeakCache` | the caches of join hash maps and Bloom filters behind weak references |
| `NativeRuntime` | producer, consumer and finalize over a channel of capacity one |
| `SparkHash` | row hashes computed column by column |
| `MapBuilder` | columnar map building with a key policy |
| `JsonPath` | JSON path parsing and evaluation |
| `DecimalRounding` | decimal rounding and change of precision in 128 bits |
| `LocalTime` | local dates and times, month lengths, months between two instants |
| `Seqs`, `MachineInts`, `Records` | sequences and chunking; two's-complement and truncating integer operators; keys and records |

Code that works step by step is modelled by methods with loops, and objects that change in place by
classes; both are proved against functions on values, and the properties are proved about those. The
concurrent protocols are state machines whose runs are all finite sequences of enabled steps. Integer
widths, wrap-around and truncating division are written out wherever a result depends on them; the
workspace builds without overflow checks (Cargo.toml:117-133), so arithmetic wraps.

Parameters rather than models: the aggregate functions (key, initial accumulator, update, merge, with the
laws of a commutative monoid where partial results are merged), the hash function, the JSON parsers
and printer, the zone's offset at an instant, what the operating system reports about memory, and the
moments at which the memory manager or the cardinality check signals the aggregation table.

## Where the code falls short

These were expected to hold and do not; for each, the exact condition under which the property does
hold, and a witness.

- `shrink_to_fit` can lose items: sizes below 64 are rounded up to a word while bits are folded below
  it, and the new size need not divide the old one. Condition: `BloomFilter.SafeToShrinkExactly`;
  witnesses: `BloomFilter.LostBelowWord`, `BloomFilter.LostFromWord`. It panics where its product wraps
  above 2^63, as it does for the negative hash count a serialised filter may carry
  (`BloomFilter.NegativeCountPanics`).
- A hash count is read back by the filter below 2^31 and from 2^64 - 2^31 on, and not between. Condition:
  `BloomFilter.FilterRoundTrip`; witness: `BloomFilter.CountLost`.
- Every forced spill leaves both global memory counters one too high for good, because the amount
  reported is not recorded. Condition: `MemManager.UpdateBalanced`; witness:
  `MemManager.ForcedSpillDrifts`. The difference of the two counters stays exact.
- `set_spillable` overlapping an update or a deregistration of the same consumer can block both for ever.
  Condition for callers: `MemLocks.DisciplineLive`; on states: `MemLocks.RunDeadlocksExactly`; witnesses:
  `MemLocks.DeadlockReachable`.
- A deregistration overlapping an update of the same consumer can make the update's assert fail.
  Condition: `MemLocks.DisciplineExactly`; witness: `MemLocks.AssertFails`.
- One day more is not one day later when the day field steps over October 15, 1582 from a month that the
  two calendars start on different days. Condition: `Calendar.DayCarry`; witness:
  `Calendar.DayCarryFails`.
- A digit literal right after a date-time field is swallowed by the field. Condition:
  `FlinkDateTime.RoundTrip`; witness: `FlinkDateTime.DigitSwallowed`.
- A zoned timestamp is hashed in a flat column and panics behind a dictionary. Condition:
  `SparkHash.DictionaryKeepsRows`; witness: `SparkHash.ZonedDictionary`.
- One-shot and two-step JSON evaluation differ where the fallback is on and answers for a text that neither
  library parses, and where only the second library serialises what the first parsed. Condition:
  `JsonPath.TwoStepsAreOne`; witnesses: `JsonPath.FallbackDiffers`, `JsonPath.TwoStepsDiffer`.
- Dropping 38 digits rounds values from 2^126 on to zero, dropping more rounds by a wrapped power of ten,
  and from 128 on divides by zero. Condition: `DecimalRounding.RoundingAtEveryScale`; witnesses:
  `DecimalRounding.RoundingWhole`, `DecimalRounding.MisroundedIsNotZero`.
- Raising the scale of a decimal can wrap back into range. Condition:
  `DecimalRounding.ChangePrecisionByTypes`; witness: `DecimalRounding.UpscaleLost`.
- Local days beyond 32 bits are narrowed. Condition: `LocalTime.LocalDateIsFloor`; witness:
  `LocalTime.DayNarrowed`.

## Model

| member | source | states |
|---|---|---|
| `SortedAgg.ExecuteSorted` | native-engine/datafusion-ext-plans/src/agg_exec.rs:342-408 | for every batching of the input and every batch size from 1 up, the records sent are the maximal runs of equal keys of the whole input, in order, each folded over exactly its rows, cut so that every batch but the last holds exactly `batchSize` records |
| `SortedAgg.RunsAreGroups` | native-engine/datafusion-ext-plans/src/agg_exec.rs:325-410 | when equal keys are adjacent the runs are GROUP BY: one record per key of the input, no other key, the accumulator folded over all rows of the key in input order |
| `SortedAgg.RunsSnoc` | native-engine/datafusion-ext-plans/src/agg_exec.rs:373-392 | one more row extends the last run or opens a new one, so runs may be built row by row across batch boundaries |
| `SortedAgg.StageBatch` | native-engine/datafusion-ext-plans/src/agg_exec.rs:361-403 | a batch read from a correct staging area leaves a correct one: sent records, staged keys and lazily applied accumulators together are the runs of everything read |
| `SortedAgg.PushRow` | native-engine/datafusion-ext-plans/src/agg_exec.rs:372-393 | one row keeps that invariant, also when the staging area is full and is flushed in the middle of the batch |
| `SortedAgg.FlushStep` | native-engine/datafusion-ext-plans/src/agg_exec.rs:376-388 | flushing a full staging area sends exactly the complete runs and leaves room for the row that opened the next one |
| `SortedAgg.PendingSnoc` | native-engine/datafusion-ext-plans/src/agg_exec.rs:376-402 | postponing the update of a row until its slice is applied changes nothing but the slot of that row |
| `SortedAgg.UpdateBatchSlice` | native-engine/datafusion-ext-plans/src/agg/agg_ctx.rs:265-393 | the in-place update of a slice of a batch gives the accumulators that applying the pending rows one at a time gives |
| `SortedAgg.EnsureSize` | native-engine/datafusion-ext-plans/src/agg/acc.rs:91-108 | the accumulators grow, with fresh ones, to one past the largest slot used and never shrink |
| `Seqs.ChunkingUnique` | native-engine/datafusion-ext-plans/src/agg_exec.rs:346-407 | records and batch size determine how the records are cut into batches |
| `HashAgg.ExecuteHash` | native-engine/datafusion-ext-plans/src/agg_exec.rs:234-276 | for every placement of spills, early flushes and the skip signal, merging the records sent gives the groups of the whole input; while aggregation is not given up no key is sent twice |
| `HashAgg.EachRowOnce` | native-engine/datafusion-ext-plans/src/agg_exec.rs:238-270 | records that account for the rows hold every row exactly as often as it was read |
| `AggAgreement.ExecuteProvenance` | native-engine/datafusion-ext-plans/src/agg_exec.rs:234-276 | conservation over every run of the driver: for every placement of spills, early flushes and the skip signal, the records sent hold every input row exactly as often as it was read, each in a record of its own key |
| `AggAgreement.SameRecords` | native-engine/datafusion-ext-plans/src/agg_exec.rs:211-410 | on clustered input a hash aggregation that sends every key once sends exactly the records of the sorted aggregation |
| `AggAgreement.BothWays` | native-engine/datafusion-ext-plans/src/agg_exec.rs:211-410 | the two operators, run on one clustered input with any batching and any spills, send the same records equally often |
| `AggAgreement.TotalIsFold` | native-engine/datafusion-ext-plans/src/agg_exec.rs:211-410 | the total of a key under hashing is the fold over the rows of the key under sorting |
| `HashAgg.SentOnceIsComplete` | native-engine/datafusion-ext-plans/src/agg_exec.rs:249-270 | a key sent once carries the complete accumulator of its group |
| `HashAgg.ProvenanceLawful` | native-engine/datafusion-ext-plans/src/agg_exec.rs:238-270 | collecting the rows themselves is a lawful aggregate, so the conservation result applies to every run |
| `HashAgg.AggTable.constructor` | native-engine/datafusion-ext-plans/src/agg/agg_table.rs:78-97 | a new table holds no group |
| `HashAgg.AggTable.ProcessInputBatch` | native-engine/datafusion-ext-plans/src/agg/agg_table.rs:99-135 | whatever is signalled afterwards, the groups held are those held before plus those of the batch |
| `HashAgg.AggTable.UpdateBatch` | native-engine/datafusion-ext-plans/src/agg/agg_table.rs:520-539 | updating through the key index is inserting or updating the rows one by one in the list of records, and keeps keys distinct and the index exact |
| `HashAgg.AggTable.AddBatch` | native-engine/datafusion-ext-plans/src/agg/agg_table.rs:635-668 | the groups held become those held before plus those of the batch, without grouping: one record more per row |
| `HashAgg.AggTable.Spill` | native-engine/datafusion-ext-plans/src/agg/agg_table.rs:323-353 | spilling moves records without changing the groups held |
| `HashAgg.AggTable.Output` | native-engine/datafusion-ext-plans/src/agg/agg_table.rs:145-304 | the table ends up empty; the records sent stand for exactly the groups held, each key once, with or without spills |
| `HashAgg.OutputInMem` | native-engine/datafusion-ext-plans/src/agg/agg_table.rs:164-208 | sending the slices of a table from the back and truncating it sends every record once |
| `HashAgg.OutputMerged` | native-engine/datafusion-ext-plans/src/agg/agg_table.rs:210-304 | merging the spills bucket by bucket sends every key of any spill once, with the merge of all its accumulators |
| `HashAgg.MergeSpills` | native-engine/datafusion-ext-plans/src/agg/agg_table.rs:254-282 | merging one bucket of all spills is merging that bucket of their concatenation |
| `HashAgg.MergeBucketAcc` | native-engine/datafusion-ext-plans/src/agg/agg_table.rs:254-282 | after a bucket is merged, keys of the bucket carry the merge of everything that was spilled for them and other keys are untouched |
| `HashAgg.UpsertRowsAcc` | native-engine/datafusion-ext-plans/src/agg/agg_table.rs:520-539 | after a batch every key carries its old accumulator merged with the total of its rows |
| `HashAgg.LiftSum` | native-engine/datafusion-ext-plans/src/agg/agg_ctx.rs:579-613 | rows passed through unaggregated merge to the totals of their keys |
| `Calendar.NumberIncreases` | native-engine/datafusion-ext-functions/src/flink_datetime.rs:334-374 | one existing date is before another exactly when its day number is smaller, across the change of calendar |
| `Calendar.DateOf` | native-engine/datafusion-ext-functions/src/flink_datetime.rs:334-374 | every integer is the day number of an existing date |
| `Calendar.DateOfNumber` | native-engine/datafusion-ext-functions/src/flink_datetime.rs:334-374 | numbering the existing dates is a bijection onto the integers |
| `Calendar.TomorrowIsNext` | native-engine/datafusion-ext-functions/src/flink_datetime.rs:334-374 | the day after an existing date has the next number and no existing date lies between |
| `Calendar.SkippedDates` | native-engine/datafusion-ext-functions/src/flink_datetime.rs:345-350 | the ten dates that do not exist in October 1582 are exactly the 5th to the 14th, and each is read as the date ten days later |
| `Calendar.GregorianMonth` | native-engine/datafusion-ext-functions/src/flink_datetime.rs:358-365 | first days of successive months differ by the Gregorian month length, leap years by the 4/100/400 rule, for all years |
| `Calendar.JulianMonth` | native-engine/datafusion-ext-functions/src/flink_datetime.rs:369-374 | first days of successive months differ by the Julian month length |
| `Calendar.Located` | native-engine/datafusion-ext-functions/src/flink_datetime.rs:345-350 | the cutover test on the Gregorian number picks the calendar the date belongs to |
| `Calendar.MonthCarry` | native-engine/datafusion-ext-functions/src/flink_datetime.rs:342-343 | twelve months more are one year more, whatever the month field holds |
| `Calendar.DayCarry` | native-engine/datafusion-ext-functions/src/flink_datetime.rs:334-354 | one day more is 86400 seconds later if and only if the day does not step over the cutover, or the two calendars start the month on the same day |
| `Calendar.DayCarryFails` | native-engine/datafusion-ext-functions/src/flink_datetime.rs:345-350 | the day after the 14th of October 1582 comes out nine days earlier |
| `Calendar.TimeCarry` | native-engine/datafusion-ext-functions/src/flink_datetime.rs:352-353 | hours carry into minutes and minutes into seconds without exception |
| `Calendar.SecondLater` | native-engine/datafusion-ext-functions/src/flink_datetime.rs:353 | one second more is one second later, whatever the fields hold |
| `Calendar.DaysExactly` | native-engine/datafusion-ext-functions/src/flink_datetime.rs:352 | an existing date lies n days from the first of January 1970, counting one day after the other in either direction, exactly for n its day number less that of the epoch |
| `Calendar.NormalizeIs` | native-engine/datafusion-ext-functions/src/flink_datetime.rs:334-354 | an existing date n days from the first of January 1970, before it or after, and any time of day normalise to 86400 n + 3600 h + 60 m + s |
| `Calendar.StepsNumber` | native-engine/datafusion-ext-functions/src/flink_datetime.rs:358-374 | n days after an existing date comes the existing date whose number is n larger |
| `Calendar.NormalizeFits` | native-engine/datafusion-ext-functions/src/flink_datetime.rs:334-354 | no 32-bit fields overflow any 64-bit intermediate value, and no zone offset of at most a day makes the result the failure sentinel |
| `FlinkDateTime.ParseFormat` | native-engine/datafusion-ext-functions/src/flink_datetime.rs:162-194 | a format is accepted exactly when it is the rendering of some tokens, and these are returned; a dangling percent sign is the last byte behind a rendering, and an unsupported specifier is the byte behind the percent sign behind one |
| `FlinkDateTime.RenderInjective` | native-engine/datafusion-ext-functions/src/flink_datetime.rs:162-194 | different token lists have different renderings, so the tokenizer inverts rendering both ways |
| `FlinkDateTime.ScanNumber` | native-engine/datafusion-ext-functions/src/flink_datetime.rs:299-326 | the wrapping accumulation returns the true signed decimal value modulo 2^32 for any number of digits, never leaves its window and always advances |
| `FlinkDateTime.ScanDigits` | native-engine/datafusion-ext-functions/src/flink_datetime.rs:306-315 | after any number of digits the 64-bit accumulator is the true value modulo 2^64 |
| `FlinkDateTime.WrapStep` | native-engine/datafusion-ext-functions/src/flink_datetime.rs:313 | wrapping after each digit is wrapping once at the end |
| `FlinkDateTime.Narrow` | native-engine/datafusion-ext-functions/src/flink_datetime.rs:320-325 | narrowing the wrapped value, negated or not, is narrowing the true one |
| `FlinkDateTime.ParseField` | native-engine/datafusion-ext-functions/src/flink_datetime.rs:257-285 | a field skips blanks and reads its canonical width before another field and greedily otherwise |
| `FlinkDateTime.ParseDatetime` | native-engine/datafusion-ext-functions/src/flink_datetime.rs:240-292 | the loop over positions is the recursive reading of the tokens, followed by normalisation and the offset |
| `FlinkDateTime.UnixTimestamp` | native-engine/datafusion-ext-functions/src/flink_datetime.rs:85-88 | the value of a row is the failure sentinel if and only if there are no tokens or parsing failed, and otherwise the normalised fields less the offset of that local time |
| `FlinkDateTime.TimestampOfText` | native-engine/datafusion-ext-functions/src/flink_datetime.rs:55-92 | end to end in ASCII bytes: the text of an existing date, n days from the first of January 1970, and a time of day, read with "%Y-%m-%d %H:%M:%S" in UTC, is 86400 n + 3600 h + 60 m + s |
| `FlinkDateTime.FormatBytes` | native-engine/datafusion-ext-functions/src/flink_datetime.rs:162-194 | the bytes of that format stand for year, month, day, hour, minute and second with their separators |
| `FlinkDateTime.TextParses` | native-engine/datafusion-ext-functions/src/flink_datetime.rs:240-292 | the digits of such a text, byte by byte, are read as the fields they show |
| `FlinkDateTime.DefaultIsEpoch` | native-engine/datafusion-ext-functions/src/flink_datetime.rs:205-216 | the fields that no token sets are those of the epoch |
| `FlinkDateTime.AdjacentFields` | native-engine/datafusion-ext-functions/src/flink_datetime.rs:257-285 | eight digits without separators are a year of four, a month of two and a day of two |
| `FlinkDateTime.BlanksAndSign` | native-engine/datafusion-ext-functions/src/flink_datetime.rs:257-326 | a space and a tab before a field are skipped, and a hyphen negates it |
| `FlinkDateTime.RoundTrip` | native-engine/datafusion-ext-functions/src/flink_datetime.rs:240-292 | printing in-range fields at canonical width and parsing returns them, with defaults for absent kinds, before any suffix that does not extend a final field, if and only if no digit literal directly follows a field |
| `FlinkDateTime.DigitSwallowed` | native-engine/datafusion-ext-functions/src/flink_datetime.rs:257-285 | a year printed before a literal zero does not parse |
| `FlinkDateTime.TakenFields` | native-engine/datafusion-ext-functions/src/flink_datetime.rs:205-229 | the fields returned are those of the printed kinds and the defaults elsewhere |
| `FlinkDateTime.ScanPrinted` | native-engine/datafusion-ext-functions/src/flink_datetime.rs:257-285 | a printed field is read back in both width modes |
| `FlinkDateTime.ScanOverrun` | native-engine/datafusion-ext-functions/src/flink_datetime.rs:257-285 | a digit literal right after a greedy field is swallowed by it |
| `BitArray.SparkBitArray.WithNumBits` | native-engine/datafusion-ext-commons/src/spark_bit_array.rs:34-45 | a new array has the bits asked for rounded up to whole words, none of them on |
| `BitArray.SparkBitArray.Set` | native-engine/datafusion-ext-commons/src/spark_bit_array.rs:64-70 | exactly one bit is turned on |
| `BitArray.SparkBitArray.Get` | native-engine/datafusion-ext-commons/src/spark_bit_array.rs:72-79 | membership in the set of bits on |
| `BitArray.SparkBitArray.PutAll` | native-engine/datafusion-ext-commons/src/spark_bit_array.rs:82-88 | the bits on become the union |
| `BitArray.SparkBitArray.Intersect` | native-engine/datafusion-ext-commons/src/spark_bit_array.rs:90-96 | the bits on become the intersection |
| `BitArray.SparkBitArray.TrueCount` | native-engine/datafusion-ext-commons/src/spark_bit_array.rs:106-111 | the sum of the population counts of the words is the number of bits on |
| `BitArray.TrueBitsDetermine` | native-engine/datafusion-ext-commons/src/spark_bit_array.rs:64-96 | arrays of one length with the same bits on are the same words |
| `BitArray.BitWeight` | native-engine/datafusion-ext-commons/src/spark_bit_array.rs:64-79 | bit k of a word is the binary digit of weight 2^k |
| `BitArray.BitsByte` | native-engine/datafusion-ext-commons/src/spark_bit_array.rs:56-62 | by position: the length in four bytes, then eight bytes for each word, each number most significant byte first |
| `BitArray.BitsRoundTrip` | native-engine/datafusion-ext-commons/src/spark_bit_array.rs:47-62 | reading inverts writing for every array whose length fits 31 bits, before any further bytes |
| `BitArray.BitsRoundTripBack` | native-engine/datafusion-ext-commons/src/spark_bit_array.rs:47-62 | writing what was read gives the bytes that were read |
| `BloomFilter.ProbeInRange` | native-engine/datafusion-ext-commons/src/spark_bloom_filter.rs:90-97 | every probe is a bit of the array for every size, also where the bit size wraps to the smallest 32-bit integer, and at every legal size it is the hash modulo the bit size |
| `BloomFilter.ProbeExactly` | native-engine/datafusion-ext-commons/src/spark_bloom_filter.rs:90-97 | round i probes exactly one bit: t, or -1 - t when t is negative, modulo the bit count, for the 32-bit t that is h1 + i h2 modulo 2^32 |
| `BloomFilter.ProbesExactly` | native-engine/datafusion-ext-commons/src/spark_bloom_filter.rs:92-97 | the probes of an item are these bits for the rounds 1 to k, k read as a 32-bit integer |
| `BloomFilter.FoundExactly` | native-engine/datafusion-ext-commons/src/spark_bloom_filter.rs:116-146 | an item is found exactly when all these bits are on |
| `BloomFilter.OtherItemRejected` | native-engine/datafusion-ext-commons/src/spark_bloom_filter.rs:87-129 | in 64 bits with two rounds the hashes 5 and 7 turn on the bits 12 and 19, and the hashes 5 and 9 are not found |
| `BloomFilter.SparkBloomFilter.constructor` | native-engine/datafusion-ext-commons/src/spark_bloom_filter.rs:54-60 | a new filter has no false negative, vacuously, and no bit on |
| `BloomFilter.SparkBloomFilter.Put` | native-engine/datafusion-ext-commons/src/spark_bloom_filter.rs:87-113 | the bits on grow by exactly those the item is sent to in the rounds 1 to k, by h1 + i h2 modulo 2^32 with h2 seeded by h1, and every item put in so far is still found |
| `BloomFilter.SparkBloomFilter.Contains` | native-engine/datafusion-ext-commons/src/spark_bloom_filter.rs:116-146 | true exactly when every bit the item is sent to is on, stated over h1 + i h2 modulo 2^32, hence for every item put in |
| `BloomFilter.SparkBloomFilter.MightContainLongs` | native-engine/datafusion-ext-commons/src/spark_bloom_filter.rs:149-177 | bit i of the packed answer is on exactly when every bit that value i is sent to is on |
| `BloomFilter.SparkBloomFilter.PutAll` | native-engine/datafusion-ext-commons/src/spark_bloom_filter.rs:179-182 | everything in either filter is found in the merged one |
| `BloomFilter.SparkBloomFilter.ShrinkToFit` | native-engine/datafusion-ext-commons/src/spark_bloom_filter.rs:184-204 | the array becomes the folded one of the next power of two, or stays; it panics, with nothing changed, exactly when the wrapped product is above 2^63; nothing is lost on the filters where shrinking is safe |
| `BloomFilter.SafeToShrinkExactly` | native-engine/datafusion-ext-commons/src/spark_bloom_filter.rs:184-204 | no positive answer is lost if and only if: nothing shrinks; or nothing is probed; or, below 64 bits, no bit on lies in the part of its word that is folded away; or, from 64 bits, each bit moved one old length on folds onto a bit that is on |
| `BloomFilter.ShrinkBelowWord` | native-engine/datafusion-ext-commons/src/spark_bloom_filter.rs:190-203 | the same, below 64 bits, for every size |
| `BloomFilter.ShrinkFromWord` | native-engine/datafusion-ext-commons/src/spark_bloom_filter.rs:190-203 | the same, from 64 bits |
| `BloomFilter.ShrinkToDivisor` | native-engine/datafusion-ext-commons/src/spark_bloom_filter.rs:190-203 | no positive answer is lost when the new size is at least 64 and divides the old one |
| `BloomFilter.ShrunkenSizeFacts` | native-engine/datafusion-ext-commons/src/spark_bloom_filter.rs:190-192 | the new size is a power of two and at least twice the hash count times the bits on while that is at most 2^63, and zero exactly when the wrapped product is above |
| `BloomFilter.NegativeCountPanics` | native-engine/datafusion-ext-commons/src/spark_bloom_filter.rs:190-197 | a filter with any bit on and a negative hash count, as a serialised one may carry, gets a size of zero |
| `BloomFilter.LostBelowWord` | native-engine/datafusion-ext-commons/src/spark_bloom_filter.rs:190-203 | one bit on out of 128 and one hash function: a positive answer is lost |
| `BloomFilter.LostFromWord` | native-engine/datafusion-ext-commons/src/spark_bloom_filter.rs:190-203 | one bit on out of 192 and 33 hash functions: a positive answer is lost |
| `BloomFilter.Fold` | native-engine/datafusion-ext-commons/src/spark_bloom_filter.rs:197-202 | the rebuilding loop turns on exactly the old bits modulo the new size |
| `BloomFilter.Build` | native-engine/datafusion-ext-commons/src/spark_bloom_filter.rs:54-113 | a filter built from items has exactly the probes of all of them on |
| `BloomFilter.BuildMerged` | native-engine/datafusion-ext-commons/src/spark_bloom_filter.rs:87-182 | building from xs and merging a filter built from ys is building from xs followed by ys, word for word |
| `BloomFilter.FilterRoundTrip` | native-engine/datafusion-ext-commons/src/spark_bloom_filter.rs:62-80 | a written filter is read back if and only if its hash count survives the narrowing to 32 bits; the bits always are |
| `BloomFilter.FilterBytes` | native-engine/datafusion-ext-commons/src/spark_bloom_filter.rs:75-80 | by position: the bytes 0, 0, 0, 1, the hash count in four bytes, most significant first, and the bits |
| `BloomFilter.CountLost` | native-engine/datafusion-ext-commons/src/spark_bloom_filter.rs:62-80 | a hash count of 2^31 comes back as 2^64 - 2^31 |
| `MemManager.Manager.constructor` | native-engine/auron-memmgr/src/lib.rs:46-60 | a new manager is balanced with no drift |
| `MemManager.Manager.RegisterConsumer` | native-engine/auron-memmgr/src/lib.rs:82-107 | the balance holds with one more consumer of no memory |
| `MemManager.Manager.DeregisterConsumer` | native-engine/auron-memmgr/src/lib.rs:109-141 | both asserts hold, the search finds the consumer, and the balance holds for the others |
| `MemManager.Manager.SetSpillable` | native-engine/auron-memmgr/src/lib.rs:232-248 | the assert holds and the balance holds after the flag changed |
| `MemManager.Manager.UpdateConsumer` | native-engine/auron-memmgr/src/lib.rs:250-394 | the balance holds after each of the three updates, a forced spill adding one to the drift; both asserts hold; a forced spill panics exactly on an unspillable consumer and spills otherwise; an unforced update of a spillable consumer from a nonzero amount acts exactly when it grows, ends above 16 MiB, and the total exceeds the managed memory or the consumer its share of it or the process its limit, all read off the sums over the consumers; it spills exactly when it also exceeds an eighth of its share |
| `MemManager.DecideExactly` | native-engine/auron-memmgr/src/lib.rs:359-394 | that decision over any balanced counters, with managed memory the total less direct memory less the memory of the unspillable consumers, cut at zero |
| `MemManager.Manager.Account` | native-engine/auron-memmgr/src/lib.rs:317-346 | the accounting of an update: the balance is kept, both asserts hold, and the amounts reported and recorded differ by one on a forced spill only |
| `MemManager.UpdateBalanced` | native-engine/auron-memmgr/src/lib.rs:250-346 | total_used is the sum of mem_used plus the number of forced spills, and mem_spillables the sum over spillable consumers plus the same number, after every update |
| `MemManager.ForcedSpillDrifts` | native-engine/auron-memmgr/src/lib.rs:286-347 | one forced spill of an idle consumer leaves both totals at one while nobody uses memory |
| `MemManager.DeregisterBalanced` | native-engine/auron-memmgr/src/lib.rs:109-141 | the same after a consumer leaves |
| `MemManager.SetSpillableBalanced` | native-engine/auron-memmgr/src/lib.rs:232-248 | the same after a flag change |
| `MemManager.RegisterBalanced` | native-engine/auron-memmgr/src/lib.rs:99-107 | the same after a consumer is added |
| `MemManager.UnspillableMemory` | native-engine/auron-memmgr/src/lib.rs:359-360 | total_used minus mem_spillables is exactly the memory of the unspillable consumers, whatever the drift |
| `MemLocks.RunSafe` | native-engine/auron-memmgr/src/lib.rs:99-163 | in every interleaving in which deregistrations are alone on their consumers, in any number of threads and with updates and set_spillable of one consumer overlapping at will, the counters are right up to the drift and no assert fires |
| `MemLocks.DisciplineExactly` | native-engine/auron-memmgr/src/lib.rs:99-163 | no assert fires in any run allowed by a discipline if and only if the discipline keeps deregistrations alone on their consumers |
| `MemLocks.AssertFails` | native-engine/auron-memmgr/src/lib.rs:326-346 | otherwise, even where set_spillable overlaps nothing, a run from the initial state takes an update to a failing assert: it takes off the bytes that a deregistration took off before it |
| `MemLocks.RunDeadlockFree` | native-engine/auron-memmgr/src/lib.rs:99-163 | in every interleaving in which set_spillable overlaps no update before its wait and no deregistration of its consumer, whatever else overlaps, some call in progress can go on in every state |
| `MemLocks.DisciplineLive` | native-engine/auron-memmgr/src/lib.rs:232-248 | no state of any run allowed by a discipline is deadlocked if and only if the discipline keeps set_spillable from overlapping updates and deregistrations of its consumer |
| `MemLocks.RunDisciplined` | native-engine/auron-memmgr/src/lib.rs:99-163 | what is observed when calls start holds in every state of the run |
| `MemLocks.RunDeadlocksExactly` | native-engine/auron-memmgr/src/lib.rs:99-163 | in every run, overlapping calls on one consumer included: calls wait for nobody but one another if and only if a set_spillable is crossed with an update or a deregistration of its consumer; while none is, some call in progress can go on; crossed calls are blocked in every later state |
| `MemLocks.DeadlockedExactly` | native-engine/auron-memmgr/src/lib.rs:232-248 | in any state whatever, a set of calls waiting for one another exists if and only if a crossed pair does |
| `MemLocks.StuckIsDeadlocked` | native-engine/auron-memmgr/src/lib.rs:326-357 | when a call is in progress and none can go on, some calls wait for nobody but one another |
| `MemLocks.RunCrossedStays` | native-engine/auron-memmgr/src/lib.rs:232-248 | no step, no failed assert and no new call ever parts a crossed pair |
| `MemLocks.DeadlockReachable` | native-engine/auron-memmgr/src/lib.rs:232-248 | wherever nothing keeps them from overlapping: a run from the initial state to any update, and to a deregistration, crossed with set_spillable on one consumer |
| `MemLocks.AssertsNeverFire` | native-engine/auron-memmgr/src/lib.rs:326-346 | every assert a call is about to evaluate holds, and the division is by at least one, though other calls on the same consumer are in flight |
| `MemLocks.FlagIsCounted` | native-engine/auron-memmgr/src/lib.rs:326-357 | where a call uses the spillable flag it holds the lock under which the flag and the counters change together |
| `MemLocks.InvStep` | native-engine/auron-memmgr/src/lib.rs:99-163 | every lock, unlock and body step keeps the invariant |
| `MemLocks.CountedStep` | native-engine/auron-memmgr/src/lib.rs:326-357 | every body step keeps the counters right |
| `WeakCache.RunSafe` | native-engine/datafusion-ext-plans/src/broadcast_join_exec.rs:656-691 | in every interleaving of callers, drops and clears, all live objects handed out for one id are the same object, and a caller builds only while none of its id is alive |
| `WeakCache.InvStep` | native-engine/datafusion-ext-plans/src/broadcast_join_exec.rs:656-691 | every step keeps the invariant behind that |
| `WeakCache.OneLiveObject` | native-engine/datafusion-ext-exprs/src/bloom_filter_might_contain.rs:192-217 | two live objects of one id are equal |
| `WeakCache.RetainKeepsAll` | native-engine/datafusion-ext-exprs/src/bloom_filter_might_contain.rs:219-223 | `retain` never drops a slot, because the table entry itself is an owner of it |
| `WeakCache.HitIsTheLiveObject` | native-engine/datafusion-ext-plans/src/broadcast_join_exec.rs:675-678 | a cache hit returns the live object of the id |
| `WeakCache.HitHasTheRightId` | native-engine/datafusion-ext-plans/src/broadcast_join_exec.rs:675-678 | and that object was built for the id asked for |
| `WeakCache.BuildIsShared` | native-engine/datafusion-ext-plans/src/broadcast_join_exec.rs:679-685 | a successful build is handed to its caller, and the next caller for the id, whoever it is, is given the same object |
| `WeakCache.WaitersProgress` | native-engine/datafusion-ext-plans/src/broadcast_join_exec.rs:664-691 | a caller can take its next action, unless it wants a slot that another caller of the same id has locked, and then that caller can take its next action |
| `WeakCache.FailedBuildIsRetried` | native-engine/datafusion-ext-plans/src/broadcast_join_exec.rs:679-690 | after a failed or uncached build the next caller for the id, whoever it is, gets the same slot and builds again; it is given no stale object and is not locked out |
| `NativeRuntime.RunSafe` | native-engine/auron/src/rt.rs:142-304 | in every interleaving of producer, consumer and finalize the batches received are a prefix of those produced, in order; at most one terminal message is sent and nothing after it; the end is received only behind all batches; and no send fails before the finalizing flag is set, so neither unexpected-error branch is reached; at most one message is under way |
| `NativeRuntime.InvStep` | native-engine/auron/src/rt.rs:142-304 | every step keeps the invariant behind that |
| `NativeRuntime.NothingAfterTerminal` | native-engine/auron/src/rt.rs:195-239 | after a terminal message the producer sends nothing |
| `NativeRuntime.ErrorIsReceived` | native-engine/auron/src/rt.rs:209-239 | in every run in which the task runs on and nobody finalizes, a stream error is the last message the consumer takes |
| `NativeRuntime.EndIsReceived` | native-engine/auron/src/rt.rs:195-205 | in such a run the end of the stream is the last message taken, behind all batches |
| `NativeRuntime.ProducerAlive` | native-engine/auron/src/rt.rs:174-205 | in such a run the producer exits only behind a terminal message |
| `NativeRuntime.SendReturnsAfterFinalize` | native-engine/auron/src/rt.rs:287-304 | once the receiver is dropped a blocked send can return and the producer is done after at most two steps |
| `NativeRuntime.ReceiveProgress` | native-engine/auron/src/rt.rs:253-285 | producer and consumer never wait for each other |
| `NativeRuntime.DisconnectedMeansOver` | native-engine/auron/src/rt.rs:253-285 | a receive fails only when everything sent has been received and the producer has exited |
| `SparkHash.CreateHashes` | native-engine/datafusion-ext-commons/src/spark_hash.rs:46-59 | the in-place pass over the columns panics exactly when some column does; otherwise every row gets the left fold of the hash function over its non-null leaf byte strings in order, for nested lists, maps, structs and dictionaries |
| `SparkHash.HashArray` | native-engine/datafusion-ext-commons/src/spark_hash.rs:61-247 | one column is folded into all hashes in place, or panics exactly when some cell holds a value of an unsupported type or dictionary keys are unsigned |
| `SparkHash.HashLeaves` | native-engine/datafusion-ext-commons/src/spark_hash.rs:68-128 | the loops with and without nulls agree with the fold; nulls leave the hash alone |
| `SparkHash.HashOne` | native-engine/datafusion-ext-commons/src/spark_hash.rs:250-390 | walking a nested layout folds exactly the leaves of the cell it stands for; it panics if and only if the cell holds, at any depth, a non-null value of an unsupported type |
| `SparkHash.HashItems` | native-engine/datafusion-ext-commons/src/spark_hash.rs:355-377 | the same for the elements of a list and the alternating keys and values of a map, stopping at the first panic |
| `SparkHash.HashFields` | native-engine/datafusion-ext-commons/src/spark_hash.rs:378-386 | the same for the fields of a struct |
| `SparkHash.HashRows` | native-engine/datafusion-ext-commons/src/spark_hash.rs:211-246 | the same row by row, through a dictionary or over a nested column |
| `SparkHash.FoldConcat` | native-engine/datafusion-ext-commons/src/spark_hash.rs:46-59 | hashing a concatenation is hashing its second part from the hash of its first |
| `SparkHash.SignedAgree` | native-engine/datafusion-ext-commons/src/spark_hash.rs:88-108 | numbers are hashed as the same bytes exactly when they agree modulo the width |
| `SparkHash.EncodedValue` | native-engine/datafusion-ext-commons/src/spark_hash.rs:132-210 | a number is hashed as four, eight or sixteen little-endian bytes by its kind, reading back modulo the width; truth values as four bytes reading one and zero; other data as itself |
| `SparkHash.StandsExactly` | native-engine/datafusion-ext-commons/src/spark_hash.rs:88-128 | length and value determine these bytes |
| `SparkHash.HashColumn` | native-engine/datafusion-ext-commons/src/spark_hash.rs:46-128 | a table of one flat column: a null row keeps the seed, every other row is the hash of any bytes of the right length and value |
| `SparkHash.PartsByPosition` | native-engine/datafusion-ext-commons/src/spark_hash.rs:355-386 | part j of a list cell is element j of its range, parts 2j and 2j + 1 of a map cell are key j and value j, part j of a struct cell is field j of the row |
| `SparkHash.DictionaryKeepsRows` | native-engine/datafusion-ext-commons/src/spark_hash.rs:228-247 | for dictionaries of lists, maps, structs and flat values: encoding a column of a table changes no row and no panic unless the dictionary refers to a zoned timestamp, and then the encoded column panics where the plain one does not |
| `SparkHash.HashBothWays` | native-engine/datafusion-ext-commons/src/spark_hash.rs:46-247 | hashing a table with a column as a dictionary and with the column it stands for gives the same hashes and the same panics, unless the dictionary refers to a zoned timestamp; then the former panics |
| `SparkHash.GatherDecodes` | native-engine/datafusion-ext-commons/src/spark_hash.rs:236-246 | the column a dictionary stands for, nested children copied into fresh offsets, holds in every row the cell its index refers to |
| `SparkHash.DictionaryOfDictionary` | native-engine/datafusion-ext-commons/src/spark_hash.rs:236-246 | a dictionary of dictionaries panics if and only if it refers to a key that is not null |
| `SparkHash.ZonedDictionary` | native-engine/datafusion-ext-commons/src/spark_hash.rs:322-330 | one zoned timestamp in a dictionary panics; behind a null key, or null itself, it does not |
| `MapBuilder.MapFromEntries` | native-engine/datafusion-ext-functions/src/spark_map.rs:592-657 | fails exactly when some row is rejected; otherwise offsets, validity and the flat arrays decode to the result of every row, null rows being empty ranges |
| `MapBuilder.BuildRow` | native-engine/datafusion-ext-functions/src/spark_map.rs:609-647 | a null entry makes the row null unless a null key, or a repeated key under EXCEPTION, comes before it; otherwise the row holds its keys once each |
| `MapBuilder.Dedup` | native-engine/datafusion-ext-functions/src/spark_map.rs:467-516 | under LAST_WIN keys are unique, in order of first occurrence, with their last values; EXCEPTION succeeds exactly on distinct keys and then changes nothing |
| `MapBuilder.LastWinsUnique` | native-engine/datafusion-ext-functions/src/spark_map.rs:615-641 | that description leaves one possible result |
| `MapBuilder.LastWinsSnoc` | native-engine/datafusion-ext-functions/src/spark_map.rs:628-640 | overwriting through the index table, or appending, keeps it |
| `MapBuilder.PushMapRows` | native-engine/datafusion-ext-functions/src/spark_map.rs:649-656 | appending a row shows exactly that row and leaves the others as they were |
| `MapBuilder.PushNullRows` | native-engine/datafusion-ext-functions/src/spark_map.rs:593-597 | appending a null row is an empty range and leaves the others as they were |
| `JsonPath.RoundTrip` | native-engine/datafusion-ext-functions/src/spark_get_json_object.rs:285-301 | printing any matchers with legal names, with blanks after a dot, with or without a dot before a bracket, with plus sign and leading zeros or without, and parsing it returns the matchers |
| `JsonPath.PathsExactly` | native-engine/datafusion-ext-functions/src/spark_get_json_object.rs:285-301 | a text is accepted with certain matchers if and only if it is a printing of them, in some choice of blanks, dots, stars, plus signs and leading zeros |
| `JsonPath.NameRoundTrip` | native-engine/datafusion-ext-functions/src/spark_get_json_object.rs:399-470 | a child name reads back if and only if it is legal |
| `JsonPath.TryNew` | native-engine/datafusion-ext-functions/src/spark_get_json_object.rs:285-301 | the loop over the characters is the recursive parse of the path |
| `JsonPath.ParseMatcher` | native-engine/datafusion-ext-functions/src/spark_get_json_object.rs:399-470 | the loops over characters and a position read one matcher exactly as the path grammar says, and reject what it rejects |
| `JsonPath.RestIsSuffix` | native-engine/datafusion-ext-functions/src/spark_get_json_object.rs:399-470 | a parser step consumes a prefix of its input and nothing else |
| `JsonPath.Evaluate` | native-engine/datafusion-ext-functions/src/spark_get_json_object.rs:321-359 | the loop over the matchers is their composition |
| `JsonPath.EvalConcat` | native-engine/datafusion-ext-functions/src/spark_get_json_object.rs:321-359 | evaluating a path p followed by q is evaluating q on the result of p |
| `JsonPath.GetPut` | native-engine/datafusion-ext-functions/src/spark_get_json_object.rs:472-528 | for every document and every position of names and indices, evaluating the path of the position on the document with a value put there gives the value |
| `JsonPath.GetPutElsewhere` | native-engine/datafusion-ext-functions/src/spark_get_json_object.rs:472-528 | a path that parts from the position gives what it gave before, unless it parts by a name where the position has an index, which asks every element of the array |
| `JsonPath.ChildOfOne` | native-engine/datafusion-ext-functions/src/spark_get_json_object.rs:472-512 | a member asked of a one-element array: the member of an object in an array, the elements of a member that is an array, nothing where it is missing, null or an empty array, or the element is no object |
| `JsonPath.NothingInside` | native-engine/datafusion-ext-functions/src/spark_get_json_object.rs:472-528 | values without parts have no members and no elements, objects no elements, and an index past the end finds nothing |
| `JsonPath.ScalarText` | native-engine/datafusion-ext-functions/src/spark_get_json_object.rs:376-388 | the text of a document that is a string, a number, a truth value or null |
| `JsonPath.IndexLimit` | native-engine/datafusion-ext-functions/src/spark_get_json_object.rs:399-470 | a printed index is accepted exactly below 2^64 |
| `JsonPath.NullAbsorbs` | native-engine/datafusion-ext-functions/src/spark_get_json_object.rs:472-528 | no path finds anything in null |
| `JsonPath.ChildDistributes` | native-engine/datafusion-ext-functions/src/spark_get_json_object.rs:472-528 | the members of the elements of a concatenated array are the concatenation of the members |
| `JsonPath.TwoStepsAreOne` | native-engine/datafusion-ext-functions/src/spark_get_json_object.rs:93-179 | one call of get_json_object equals parse_json followed by get_parsed_json_object if and only if the path is illegal, or the second library is not needed to serialise what the first parsed and the fallback does not answer for both |
| `JsonPath.TwoStepsWithoutChances` | native-engine/datafusion-ext-functions/src/spark_get_json_object.rs:34-36 | in particular always, when serialising cannot fail and the fallback is off |
| `JsonPath.TwoStepsDiffer` | native-engine/datafusion-ext-functions/src/spark_get_json_object.rs:303-319 | a library that parses and cannot serialise makes them differ |
| `JsonPath.FallbackDiffers` | native-engine/datafusion-ext-functions/src/spark_get_json_object.rs:93-116 | any text that neither library parses and the fallback answers for is answered by the two-step way alone |
| `DecimalRounding.RoundingExactly` | native-engine/datafusion-ext-functions/src/spark_bround.rs:219-247 | up to 38 dropped digits a decimal of at most 38 digits is rounded to the nearest multiple, with the tie rule of the function, if and only if fewer than 38 digits are dropped or it is below 2^126 |
| `DecimalRounding.RoundingAtEveryScale` | native-engine/datafusion-ext-functions/src/spark_bround.rs:219-247 | at every scale: all decimals of at most 38 digits are rounded right if and only if at most 37 digits are dropped |
| `DecimalRounding.WrongPastWidth` | native-engine/datafusion-ext-functions/src/spark_round.rs:193-212 | from 39 dropped digits on some decimal is rounded wrong by both functions |
| `DecimalRounding.MisroundedIsNotZero` | native-engine/datafusion-ext-functions/src/spark_round.rs:193-212 | that decimal is named: zero for a negative wrapped factor, the factor itself, or a little over half of it; each comes out as the factor |
| `DecimalRounding.DividesByZero` | native-engine/datafusion-ext-functions/src/spark_bround.rs:223-224 | both functions divide by zero if and only if 128 digits or more are dropped |
| `DecimalRounding.RoundingLaws` | native-engine/datafusion-ext-functions/src/spark_round.rs:193-212 | below 38 dropped digits both functions are monotone, odd and idempotent |
| `DecimalRounding.HalfUpMeaning` | native-engine/datafusion-ext-functions/src/spark_round.rs:193-212 | the exact half-up rounding is a nearest multiple, of two the one further from zero |
| `DecimalRounding.HalfEvenMeaning` | native-engine/datafusion-ext-functions/src/spark_bround.rs:219-247 | the exact half-even rounding is a nearest multiple, of two the even one |
| `DecimalRounding.HalfUpUnique` | native-engine/datafusion-ext-functions/src/spark_round.rs:193-212 | at most one multiple is the half-up rounding |
| `DecimalRounding.HalfEvenUnique` | native-engine/datafusion-ext-functions/src/spark_bround.rs:219-247 | at most one multiple is the half-even rounding |
| `DecimalRounding.Monotone` | native-engine/datafusion-ext-functions/src/spark_round.rs:193-212 | both exact roundings follow the order of the values |
| `DecimalRounding.Odd` | native-engine/datafusion-ext-functions/src/spark_round.rs:193-212 | both exact roundings commute with negation |
| `DecimalRounding.Idempotent` | native-engine/datafusion-ext-functions/src/spark_round.rs:193-212 | rounding again changes nothing |
| `DecimalRounding.RoundingExact` | native-engine/datafusion-ext-functions/src/spark_round.rs:193-212 | up to 37 dropped digits nothing wraps |
| `DecimalRounding.RoundingWhole` | native-engine/datafusion-ext-functions/src/spark_round.rs:193-212 | at 38 dropped digits the results are exact if and only if the value is below 2^126 |
| `DecimalRounding.ChangePrecision` | native-engine/datafusion-ext-functions/src/spark_check_overflow.rs:87-127 | the answer is the nearest number at the new scale, or none when it does not fit the precision, if and only if, downwards, fewer than 38 digits are dropped or the value is below 2^126, and upwards, the exact product is not within the range of the precision of a nonzero multiple of 2^128 |
| `DecimalRounding.RangeIs` | native-engine/datafusion-ext-functions/src/spark_check_overflow.rs:121-125 | up to 38 digits the range of a precision is the numbers of that many digits |
| `DecimalRounding.ChangePrecisionByTypes` | native-engine/datafusion-ext-functions/src/spark_check_overflow.rs:87-127 | by the types alone: every value of the type is converted right if and only if, upwards, its digits and the new ones are at most 38 together, and downwards, fewer than 38 are dropped or it has fewer than 38 |
| `DecimalRounding.UnsafeUp` | native-engine/datafusion-ext-functions/src/spark_check_overflow.rs:111-126 | where they are more than 38 together, the multiple of the power of ten nearest to 2^128 is converted wrong |
| `DecimalRounding.UpscaleLost` | native-engine/datafusion-ext-functions/src/spark_check_overflow.rs:111-126 | 38 digits raised by one digit of scale can come back as a small number instead of an overflow |
| `DecimalRounding.DownscaleLost` | native-engine/datafusion-ext-functions/src/spark_check_overflow.rs:100-110 | 38 dropped digits from 2^126 on: one unit is rounded to zero |
| `LocalTime.DateAndTime` | native-engine/datafusion-ext-functions/src/spark_dates.rs:213-345 | for every 64-bit instant, before 1970 too, in any zone, day times 86400 plus hours, minutes and seconds is the floor of the local seconds, if and only if the day fits 32 bits |
| `LocalTime.TimeOfDay` | native-engine/datafusion-ext-functions/src/spark_dates.rs:313-345 | for every 64-bit instant in any zone, hours, minutes and seconds are in range and are the position of the local second in its day |
| `LocalTime.LocalDateIsFloor` | native-engine/datafusion-ext-functions/src/spark_dates.rs:213-228 | the truncating formula is the floor of the local days exactly when that fits 32 bits |
| `LocalTime.DayNarrowed` | native-engine/datafusion-ext-functions/src/spark_dates.rs:213-228 | 2^31 days after 1970 the date comes out 2^31 days before |
| `LocalTime.LocalIsComputed` | native-engine/datafusion-ext-functions/src/spark_dates.rs:201-210 | adding the offset never wraps, because the offset is zero wherever the date library does not reach |
| `LocalTime.DaysInMonthIsDifference` | native-engine/datafusion-ext-functions/src/spark_dates.rs:141-151 | month lengths, computed with truncated remainders for years of either sign, are the differences of successive first days of the date-time parser |
| `LocalTime.CivilDate` | native-engine/datafusion-ext-functions/src/spark_dates.rs:104-110 | every day number has a Gregorian date |
| `LocalTime.CivilOrder` | native-engine/datafusion-ext-functions/src/spark_dates.rs:104-110 | one date is before another exactly when its number is smaller, and dates with one number are equal |
| `LocalTime.DateAtDays` | native-engine/datafusion-ext-functions/src/spark_dates.rs:158-169 | the date of an instant is as many days from the first of January 1970 as the instant has whole days |
| `LocalTime.WithinAMonth` | native-engine/datafusion-ext-functions/src/spark_dates.rs:158-198 | months between two UTC instants lie strictly within one of the month difference, and equal it if and only if the days of the month agree or both are last days |
| `LocalTime.WholeExactly` | native-engine/datafusion-ext-functions/src/spark_dates.rs:176-183 | months are whole exactly between equal days of the month or between days followed by a first |
| `LocalTime.LastIsBeforeFirst` | native-engine/datafusion-ext-functions/src/spark_dates.rs:178-179 | the last day of a month is the one whose tomorrow is a first |
| `LocalTime.FractionOfMonth` | native-engine/datafusion-ext-functions/src/spark_dates.rs:185-192 | otherwise the fraction times 2678400 is the difference of the seconds since the beginnings of the two months |
| `LocalTime.OneDay` | native-engine/datafusion-ext-functions/src/spark_dates.rs:158-198 | one day later in the same month is 1/31 |
| `LocalTime.OneMonth` | native-engine/datafusion-ext-functions/src/spark_dates.rs:172-174 | the following month, over the turn of the year too, is one month away |
| `LocalTime.MonthsAdd` | native-engine/datafusion-ext-functions/src/spark_dates.rs:172-174 | month differences add up |
| `LocalTime.Antisymmetric` | native-engine/datafusion-ext-functions/src/spark_dates.rs:158-198 | exchanging the instants negates the result |
| `LocalTime.NeverNegative` | native-engine/datafusion-ext-functions/src/spark_dates.rs:158-198 | the result is never negative when the first instant is not before the second |

## Left out

- SortedAgg.ExecuteSorted: a batch size of zero, for which the loop would flush before every new key.
- SortedAgg.UpdateBatchSlice: filters on single aggregates are part of the abstract update.
- HashAgg.ExecuteHash: errors other than the two skip signals end the stream and are not modelled; the order in which keys leave the radix queue inside a bucket is the order of the spills.
- HashAgg.AggTable.Spill: the byte format of spill files and the sorting of records into buckets inside them; a spill is the list of its records and a bucket the records of its keys.
- FlinkDateTime.UnixTimestamp: the zone database; offsets are an arbitrary function of the local time of at most a day. Null rows pass through.
- BloomFilter.FilterRoundTrip: arrays of 2^31 words or more, whose written length cannot be read back.
- MemManager.Manager.UpdateConsumer: amounts are unbounded naturals, so the casts to isize from 2^63 bytes on are not modelled; the spill itself, the wait and its timeout are in `MemLocks` as nondeterministic steps.
- MemLocks.RunSafe: the read-only calls `mem_used`, `total_used` and `mem_used_percent`, which hold one lock at a time, are not modelled; where a deregistration overlaps another call on its consumer, a failed assert may leave the counters anywhere.
- MemLocks.RunDeadlockFree: does not claim fairness; some call can go on, not every call in turn.
- WeakCache.RunSafe: the per-expression once-cell of the Bloom filter expression is part of the caller.
- NativeRuntime.RunSafe: memory order weaker than sequential consistency, panics inside the stream's own code, and metrics; the consumer calls next_batch and finalize from one thread.
- SparkHash.CreateHashes: the bodies of murmur3 and xxhash64, and a column whose length is not that of the buffer, which the program asserts it is.
- MapBuilder.MapFromEntries: offsets are unbounded, so more than 2^31 - 1 entries in one column are not modelled.
- MapBuilder.Dedup: the regular expressions that split the text of str_to_map.
- JsonPath.TwoStepsAreOne: the evaluators of the two libraries have the same branches (spark_get_json_object.rs:472-528 and 530-588) and are one function here; the fallback's own evaluator is a parameter.
- DecimalRounding.ChangePrecision: scales more than 38 apart, which Spark's decimal types cannot be; the power of ten would wrap.
- DecimalRounding.RoundingExactly: value by value only up to 38 dropped digits; past that `DecimalRounding.RoundingAtEveryScale` and `DecimalRounding.MisroundedIsNotZero` speak of all values together.
- LocalTime.WithinAMonth: months between in a zone other than UTC, and the final rounding to eight decimals in floating point; results are exact reals.
- map_concat and map_from_arrays: the columnar form and the EXCEPTION policy of map_from_entries again, so only easy members.
- Aggregation without grouping, float rounding, and scalar against array rounding of decimals, whose branches differ.
- JNI bridge, configuration, planner and protobuf conversion, file systems, spill compression, logging and metrics: foreign calls and I/O.
- Joins, sorting, window, generate and parquet operators.
