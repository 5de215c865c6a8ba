# EngineRace in Dafny

A model of the storage engine in `EngineRace.java`, with proofs. The engine is a key-value store with fixed-size keys (8 bytes, a Java `long`) and values (4096 bytes). Its pieces:

- **Key logs.** Every `write` appends a 12-byte key record `(key, off)` to one of 64 key logs. The log is chosen by the key's top six bits (`keyFileHash`).
- **Value files.** The value goes into slot `off` of one of 128 blocks of one of 256 value files. The file is the key's top eight bits (`valueFileHash`). The block is bits 49 to 54 (`valueBlockHash`). `off` comes from a per-(file, block) counter (`valueOffsets`).
- **Recovery.** `open` rebuilds an in-memory index from the key logs:
  - load every shard into the parallel arrays `keys`/`offs`;
  - sort them with an in-place max-heap sort (ascending key; for equal keys the larger `off` first);
  - collapse runs of equal keys, keeping the first entry of each run (`handleDuplicate`);
  - reset the slot counters.
- **Reads.** `read` locates the key by binary search (`getKey`) and copies the value slot. `range` with empty bounds walks the index in runs of entries that share a (file, block), reading each block into a buffer and handing each visited entry to a visitor. The model takes that block read to succeed; see `## Left out` for what the source does instead.

The model's modules follow the program:

| module | what it holds |
|---|---|
| `Types` | Java's `long`, `int` and byte as newtypes; the unsigned bit pattern `>>>` shifts |
| `Layout` | the constants, the three hash functions, the slot position formula |
| `Codec` | big-endian `putLong`/`putInt`/`getLong`/`getInt`, the 12-byte record, `long2bytes` |
| `Entries` | the index as a sequence of `(key, off)` entries, the sort order, the duplicate collapse as a function, and what an index built from a set of key records means (`IndexFor`) |
| `HeapSort` | `swap`, `shiftDown`, `heapSort` on the two arrays, in place |
| `Compact` | `handleDuplicate` on the two arrays, in place, and a repaired version |
| `Recovery` | the key logs decoded into records; the sequential shard load |
| `Lookup` | what `getKey` answers on an index, as a function |
| `Slots` | which slots the records and the index name, and the counters that lie above them |
| `Scan` | the visits `range` makes, as functions |
| `Engine` | the engine object (class `EngineRace`) with `open`, `write`, `read`, `range` |
| `Scenarios` | client runs of the engine that exhibit the defects below and their repairs |

Files and memory-mapped buffers are modelled as data:
- `keyLogs`: the 64 key log files, as byte sequences.
- `values`: the value slots, as a map from (value file, byte position) to the 4096 bytes stored there. A slot never written reads as zeros, as a fresh mapped file does.
- `keyOffsets`: the write cursors of the key logs, an array.
- `valueOffsets`: the slot counters, a map from (file, block) to the next slot. It is empty before the first `open`, since the Java array holds `null` there, and `open` replaces it whole.

Keys are compared as signed 64-bit integers, as Java compares `long`. The hashes read the unsigned bit pattern, as `>>>` does. `Util.bytes2long` is not part of this model; it is taken to be the big-endian decode `DecodeLong`.

The code's own tie-break means duplicates resolve in a definite way:
- A key always lands in the same (file, block).
- So its records' offsets come from one counter.
- So the largest `off` among a key's records is the one written last since that counter was reset.

Two writes of one key therefore never land in different blocks, and the tie-break of the sort (larger `off` first) keeps the later of them as long as the counter of that block only grows. A slot, once claimed, is meant never to be handed out again; the code as written breaks this at every `open`, which resets the counters (see `## Findings`). With the repaired `open`, a counter is never reset below a slot in use, and `Scenarios.WriteThenReopenRead` proves that a `write`, then `open`, then `read` of the key returns the value written.

## Model

All source cells name the one source file, `EngineRace.java`.

| member | source | states |
|---|---|---|
| Types.Unsigned64 | engine_java/src/main/java/com/alibabacloud/polar_race/engine/common/EngineRace.java:293-309 | the bit pattern `>>>` shifts: a number in `[0, 2^64)` congruent to the key modulo `2^64` |
| Layout.ConstantsAgree | engine_java/src/main/java/com/alibabacloud/polar_race/engine/common/EngineRace.java:22-44 | `VALUE_LEN == 1 << SHIFT_NUM`, `BLOCK_SIZE == MAX_NUM_PER_BLOCK * VALUE_LEN`, `FILE_SIZE == BLOCK_NUM * BLOCK_SIZE`, a record is a key plus four bytes |
| Layout.UShr | engine_java/src/main/java/com/alibabacloud/polar_race/engine/common/EngineRace.java:295-307 | defines `k >>> n` for a shift by `2^n`: the unsigned bit pattern of the key divided by `2^n` |
| Layout.SlotPosition | engine_java/src/main/java/com/alibabacloud/polar_race/engine/common/EngineRace.java:213 | defines where slot `off` of block `b` starts: `b * BLOCK_SIZE + (off << 12)`, the one formula both `write` (213) and `read` (230) use |
| Layout.KeyFileHash | engine_java/src/main/java/com/alibabacloud/polar_race/engine/common/EngineRace.java:293-297 | every key maps to one of the 64 key logs |
| Layout.ValueFileHash | engine_java/src/main/java/com/alibabacloud/polar_race/engine/common/EngineRace.java:299-303 | every key maps to one of the 256 value files |
| Layout.ValueBlockHash | engine_java/src/main/java/com/alibabacloud/polar_race/engine/common/EngineRace.java:306-309 | every key maps to a block below 64, so only half of the 128 blocks are ever used |
| Layout.ShardOfFile | engine_java/src/main/java/com/alibabacloud/polar_race/engine/common/EngineRace.java:293-303 | the key log of a key is its value file divided by four |
| Layout.SlotInBlock | engine_java/src/main/java/com/alibabacloud/polar_race/engine/common/EngineRace.java:213 | a slot `off < 2160` of block `b` lies inside block `b` and inside the file, and its position fits a Java `int` |
| Layout.SlotsDisjoint | engine_java/src/main/java/com/alibabacloud/polar_race/engine/common/EngineRace.java:213 | two different (block, slot) pairs occupy non-overlapping byte ranges |
| Codec.EncodeLong | engine_java/src/main/java/com/alibabacloud/polar_race/engine/common/EngineRace.java:207 | defines `putLong`: the eight bytes of the key, most significant first, two's complement for negative keys |
| Codec.DecodeLong | engine_java/src/main/java/com/alibabacloud/polar_race/engine/common/EngineRace.java:141 | defines `getLong` (and `Util.bytes2long` at 199): the signed `long` whose bit pattern the eight bytes spell |
| Codec.EncodeInt | engine_java/src/main/java/com/alibabacloud/polar_race/engine/common/EngineRace.java:207 | defines `putInt`: the four big-endian bytes of an `int` |
| Codec.DecodeInt | engine_java/src/main/java/com/alibabacloud/polar_race/engine/common/EngineRace.java:142 | defines `getInt`: the signed `int` four big-endian bytes spell |
| Codec.EncodeRecord | engine_java/src/main/java/com/alibabacloud/polar_race/engine/common/EngineRace.java:207 | defines the 12-byte key record `putLong(key).putInt(off)`, and states its length is 12 |
| Codec.DecodeRecord | engine_java/src/main/java/com/alibabacloud/polar_race/engine/common/EngineRace.java:141-142 | defines the record `getLong()` then `getInt()` read at a byte offset of a key log |
| Codec.FromToBytes | engine_java/src/main/java/com/alibabacloud/polar_race/engine/common/EngineRace.java:207 | decoding the `n` big-endian bytes of a number below `256^n` gives it back |
| Codec.ToFromBytes | engine_java/src/main/java/com/alibabacloud/polar_race/engine/common/EngineRace.java:141-142 | encoding the number a byte string spells gives the byte string back |
| Codec.DecodeEncodeLong | engine_java/src/main/java/com/alibabacloud/polar_race/engine/common/EngineRace.java:141 | `getLong` of the eight bytes `putLong` wrote returns the same `long`, negative ones included |
| Codec.EncodeDecodeLong | engine_java/src/main/java/com/alibabacloud/polar_race/engine/common/EngineRace.java:199 | every eight bytes are the encoding of the key they decode to |
| Codec.DecodeEncodeInt | engine_java/src/main/java/com/alibabacloud/polar_race/engine/common/EngineRace.java:142 | `getInt` after `putInt` returns the same `int` |
| Codec.EncodeDecodeInt | engine_java/src/main/java/com/alibabacloud/polar_race/engine/common/EngineRace.java:142 | every four bytes are the encoding of the `int` they decode to |
| Codec.DecodeEncodeRecord | engine_java/src/main/java/com/alibabacloud/polar_race/engine/common/EngineRace.java:207 | a record `putLong(key).putInt(off)` placed after any prefix decodes, at the prefix's length, to `(key, off)` |
| Codec.EncodeDecodeRecord | engine_java/src/main/java/com/alibabacloud/polar_race/engine/common/EngineRace.java:141-142 | every 12 bytes are the encoding of the record they decode to |
| Codec.EncodeLongByte | engine_java/src/main/java/com/alibabacloud/polar_race/engine/common/EngineRace.java:271-276 | byte `i` of a key's encoding is `(key >>> 8*(7-i)) & 0xFF` |
| Codec.Long2Bytes | engine_java/src/main/java/com/alibabacloud/polar_race/engine/common/EngineRace.java:271-276 | the array holds exactly the big-endian encoding of the key afterwards |
| Codec.FileHashFromKeyBytes | engine_java/src/main/java/com/alibabacloud/polar_race/engine/common/EngineRace.java:299-303 | the value file of a key is the first byte of its encoding |
| Codec.ShardHashFromKeyBytes | engine_java/src/main/java/com/alibabacloud/polar_race/engine/common/EngineRace.java:293-297 | the key log of a key is the top six bits of the first byte of its encoding |
| Codec.BlockHashFromKeyBytes | engine_java/src/main/java/com/alibabacloud/polar_race/engine/common/EngineRace.java:306-309 | the block of a key is bits one to six of the second byte of its encoding |
| Entries.Le | engine_java/src/main/java/com/alibabacloud/polar_race/engine/common/EngineRace.java:354-357 | defines the order `shiftDown` compares by: ascending signed key and, for equal keys, the larger `off` first |
| Entries.Dedup | engine_java/src/main/java/com/alibabacloud/polar_race/engine/common/EngineRace.java:185-195 | defines the collapse as a function: keep an entry exactly when its key differs from the previous entry's |
| Entries.IndexFor | engine_java/src/main/java/com/alibabacloud/polar_race/engine/common/EngineRace.java:153-157 | defines what the index built from a set of key records is meant to be: strictly increasing keys, only records, every recorded key present with an offset at least each of its records' |
| Entries.DedupBounds | engine_java/src/main/java/com/alibabacloud/polar_race/engine/common/EngineRace.java:185-195 | collapsing keeps at most all entries and, on non-empty input, at least one, ending with the last key |
| Entries.DedupKeepsOnlyRunStarts | engine_java/src/main/java/com/alibabacloud/polar_race/engine/common/EngineRace.java:188-191 | every kept entry is the first entry of a run of equal keys of the input |
| Entries.DedupKeepsRunStarts | engine_java/src/main/java/com/alibabacloud/polar_race/engine/common/EngineRace.java:188-191 | the first entry of every run is kept |
| Entries.DedupStrictlyIncreasing | engine_java/src/main/java/com/alibabacloud/polar_race/engine/common/EngineRace.java:185-195 | on keys in non-decreasing order, the kept keys strictly increase |
| Entries.RunStartOf | engine_java/src/main/java/com/alibabacloud/polar_race/engine/common/EngineRace.java:188 | every entry belongs to a run whose first entry has its key |
| Entries.IndexEntriesAreRecords | engine_java/src/main/java/com/alibabacloud/polar_race/engine/common/EngineRace.java:153-157 | every entry the collapse keeps from a rearrangement of the records is a record |
| Entries.IndexCoversRecords | engine_java/src/main/java/com/alibabacloud/polar_race/engine/common/EngineRace.java:153-157 | after the sort, the collapse keeps, for every record, its key with an offset at least the record's: the largest offset of each key survives |
| Entries.IndexOfSorted | engine_java/src/main/java/com/alibabacloud/polar_race/engine/common/EngineRace.java:153-157 | sorting then collapsing the records yields an index for them (`IndexFor`): strictly increasing keys, only records, every key with its largest offset |
| Entries.StrictKeysUnique | engine_java/src/main/java/com/alibabacloud/polar_race/engine/common/EngineRace.java:311-326 | in a strictly increasing index each key sits at one position |
| HeapSort.Swap | engine_java/src/main/java/com/alibabacloud/polar_race/engine/common/EngineRace.java:366-373 | positions `i` and `j` of both arrays are exchanged and nothing else changes |
| HeapSort.RootIsMax | engine_java/src/main/java/com/alibabacloud/polar_race/engine/common/EngineRace.java:350-364 | the root of a heap is the largest entry of the heap in the sort order |
| HeapSort.SiftStop | engine_java/src/main/java/com/alibabacloud/polar_race/engine/common/EngineRace.java:357-358 | the `break` of `shiftDown`: once the hole is no smaller than its larger child, the range is a heap |
| HeapSort.SiftSwap | engine_java/src/main/java/com/alibabacloud/polar_race/engine/common/EngineRace.java:360-362 | swapping the hole with its larger child moves the one heap violation down to the child |
| HeapSort.ChildChosen | engine_java/src/main/java/com/alibabacloud/polar_race/engine/common/EngineRace.java:354-356 | the child `shiftDown` picks is the larger of the two in the sort order, equal keys ranking the smaller `off` higher |
| HeapSort.ShiftDown | engine_java/src/main/java/com/alibabacloud/polar_race/engine/common/EngineRace.java:350-364 | with the heap property broken only at `k`, afterwards `[k, end]` is a heap and `[0, end]` is a permutation with the rest untouched |
| HeapSort.ExtractBound | engine_java/src/main/java/com/alibabacloud/polar_race/engine/common/EngineRace.java:339-340 | after `swap(keyNum, 0)` the old root sits at `keyNum` and is no smaller than every entry before it |
| HeapSort.ExtractSorted | engine_java/src/main/java/com/alibabacloud/polar_race/engine/common/EngineRace.java:338-341 | the sorted tail grows by one: `[keyNum, n)` is sorted after an extraction step |
| HeapSort.ExtractKeeps | engine_java/src/main/java/com/alibabacloud/polar_race/engine/common/EngineRace.java:338-341 | one extraction step keeps the invariant of the second loop (heap below, sorted and larger tail, permutation) |
| HeapSort.SortedFromTail | engine_java/src/main/java/com/alibabacloud/polar_race/engine/common/EngineRace.java:338-342 | when the second loop ends, the whole prefix is sorted |
| HeapSort.BuildHeap | engine_java/src/main/java/com/alibabacloud/polar_race/engine/common/EngineRace.java:334-337 | the first loop makes `[0, end]` a heap, permuting only that range |
| HeapSort.ExtractMax | engine_java/src/main/java/com/alibabacloud/polar_race/engine/common/EngineRace.java:339-340 | one round of the second loop moves the largest heap entry to the front of the sorted tail |
| HeapSort.HeapSort | engine_java/src/main/java/com/alibabacloud/polar_race/engine/common/EngineRace.java:333-342 | the first `startKeyNum` entries end sorted (ascending signed key, larger `off` first among equal keys), they are a permutation of what was there, and entries from `startKeyNum` on are untouched |
| Compact.CompactReads | engine_java/src/main/java/com/alibabacloud/polar_race/engine/common/EngineRace.java:188 | the loop compares original entries: writes at `maxnum <= i` never reach `i` or the key at `i - 1` |
| Compact.CompactKeep | engine_java/src/main/java/com/alibabacloud/polar_race/engine/common/EngineRace.java:188-192 | copying a run start to `maxnum` extends the compacted prefix |
| Compact.CompactSkip | engine_java/src/main/java/com/alibabacloud/polar_race/engine/common/EngineRace.java:188 | skipping a repeated key keeps the compacted prefix |
| Compact.HandleDuplicate | engine_java/src/main/java/com/alibabacloud/polar_race/engine/common/EngineRace.java:185-195 | for `keyNum > 0`: returns `1 <= m <= keyNum`, the first `m` entries are the run starts of the input prefix, the rest is untouched; for `keyNum == 0` it returns 1 and changes nothing |
| Compact.CompactIndex | engine_java/src/main/java/com/alibabacloud/polar_race/engine/common/EngineRace.java:185-195 | the repaired collapse: the first `count` entries are the run starts of the input prefix, for every `keyNum` including 0 |
| Recovery.Records | engine_java/src/main/java/com/alibabacloud/polar_race/engine/common/EngineRace.java:129-149 | defines the records of all key logs in shard order, each log read 12 bytes at a time |
| Recovery.DecodeLog | engine_java/src/main/java/com/alibabacloud/polar_race/engine/common/EngineRace.java:139-143 | a key log of `size` bytes yields `size / 12` records |
| Recovery.RecordsLength | engine_java/src/main/java/com/alibabacloud/polar_race/engine/common/EngineRace.java:134 | the records of all logs number the sum of `size / 12`, the count `CURRENT_KEY_NUM` accumulates |
| Recovery.RecordsPlacement | engine_java/src/main/java/com/alibabacloud/polar_race/engine/common/EngineRace.java:133-142 | record `j` of shard `i` sits at position `prefix_i + j` of the combined records |
| Recovery.PrefixCountBound | engine_java/src/main/java/com/alibabacloud/polar_race/engine/common/EngineRace.java:133-134 | shard `i`'s region `[prefix_i, prefix_i + size_i / 12)` lies inside the total |
| Recovery.LoadStep | engine_java/src/main/java/com/alibabacloud/polar_race/engine/common/EngineRace.java:140-142 | one round of the inner loop writes the next decoded record at `n` |
| Recovery.ShardLoaded | engine_java/src/main/java/com/alibabacloud/polar_race/engine/common/EngineRace.java:129-149 | after shard `i` the filled prefix is the records of shards `0..i` |
| Recovery.LoadShards | engine_java/src/main/java/com/alibabacloud/polar_race/engine/common/EngineRace.java:128-149 | returns the sum of `size_i / 12`, the arrays' prefix of that length is the records of all shards in shard order, and the rest is untouched |
| Recovery.DecodeLogAppend | engine_java/src/main/java/com/alibabacloud/polar_race/engine/common/EngineRace.java:207-209 | a record appended to a log of whole records decodes as one more record at the end |
| Recovery.AppendSplit | engine_java/src/main/java/com/alibabacloud/polar_race/engine/common/EngineRace.java:209 | appending to shard `s` inserts the record after shard `s`'s records in the combined records |
| Recovery.RecordsAppend | engine_java/src/main/java/com/alibabacloud/polar_race/engine/common/EngineRace.java:209 | appending a record to one log adds exactly that record to the multiset of records |
| Recovery.RecordsAppendMember | engine_java/src/main/java/com/alibabacloud/polar_race/engine/common/EngineRace.java:209 | after the append the records are the old ones plus the new record |
| Recovery.AppendKeepsWhole | engine_java/src/main/java/com/alibabacloud/polar_race/engine/common/EngineRace.java:209 | appending 12 bytes keeps every log a whole number of records |
| Lookup.LookupOff | engine_java/src/main/java/com/alibabacloud/polar_race/engine/common/EngineRace.java:311-326 | the reference for `getKey`: the offset of the index entry with the key, -1 when there is none |
| Lookup.LookupFound | engine_java/src/main/java/com/alibabacloud/polar_race/engine/common/EngineRace.java:311-326 | on a strictly increasing index, a key at position `j` is answered with `offs[j]` |
| Lookup.LookupMissing | engine_java/src/main/java/com/alibabacloud/polar_race/engine/common/EngineRace.java:325 | a key absent from the index is answered with -1 |
| Lookup.LookupHit | engine_java/src/main/java/com/alibabacloud/polar_race/engine/common/EngineRace.java:322 | an answer other than -1 is the offset of an index entry with that key |
| Lookup.IndexedLatest | engine_java/src/main/java/com/alibabacloud/polar_race/engine/common/EngineRace.java:153-157 | on an index built from the records, a key is answered with the largest offset any of its records names |
| Slots.NextSlotAbove | engine_java/src/main/java/com/alibabacloud/polar_race/engine/common/EngineRace.java:204 | every entry names a slot below the counter resumed for its block |
| Slots.NextSlotBounded | engine_java/src/main/java/com/alibabacloud/polar_race/engine/common/EngineRace.java:44 | with every slot below 2160, no resumed counter passes 2160 |
| Slots.OffsInRangePermuted | engine_java/src/main/java/com/alibabacloud/polar_race/engine/common/EngineRace.java:153 | the sort keeps every slot in range |
| Slots.DedupSubset | engine_java/src/main/java/com/alibabacloud/polar_race/engine/common/EngineRace.java:185-195 | the collapse keeps only entries of its input |
| Slots.OffsInRangeCompacted | engine_java/src/main/java/com/alibabacloud/polar_race/engine/common/EngineRace.java:157 | the collapse keeps every slot in range |
| Slots.OffsInRangeFilled | engine_java/src/main/java/com/alibabacloud/polar_race/engine/common/EngineRace.java:139-143 | loading in-range records keeps every slot of the arrays in range |
| Slots.SlotPositionsDiffer | engine_java/src/main/java/com/alibabacloud/polar_race/engine/common/EngineRace.java:213 | two slots of a file start at the same position exactly when they are the same (block, slot) |
| Slots.NextSlot | engine_java/src/main/java/com/alibabacloud/polar_race/engine/common/EngineRace.java:204 | defines the counter a block needs so that its next slot is unused: one past the largest slot the entries name there, 0 when none |
| Slots.NextSlots | engine_java/src/main/java/com/alibabacloud/polar_race/engine/common/EngineRace.java:65 | one counter for each of the 256 by 128 blocks: one past the largest slot the entries name there |
| Slots.NextSlotStep | engine_java/src/main/java/com/alibabacloud/polar_race/engine/common/EngineRace.java:204 | one more entry raises its own block's counter past its slot and leaves the others |
| Slots.NextSlotsStep | engine_java/src/main/java/com/alibabacloud/polar_race/engine/common/EngineRace.java:204 | the same for the whole table: one counter raised, the others unchanged |
| Slots.AllBelowNextSlot | engine_java/src/main/java/com/alibabacloud/polar_race/engine/common/EngineRace.java:153-157 | counters resumed from an index lie above every slot the index names and every slot its records name |
| Slots.ClaimedPositionUnused | engine_java/src/main/java/com/alibabacloud/polar_race/engine/common/EngineRace.java:204 | below the counters, the slot a write of `k` claims is not the position of any entry |
| Scan.Walk | engine_java/src/main/java/com/alibabacloud/polar_race/engine/common/EngineRace.java:246-260 | defines the visits the nested loops of `range` make from index `i`: a run from `i`, then the walk from one past the run's end |
| Scan.RunEnd | engine_java/src/main/java/com/alibabacloud/polar_race/engine/common/EngineRace.java:255 | the inner loop stops at the first index at or after `i` outside the head's (file, block), and everything before it is inside |
| Scan.RunVisits | engine_java/src/main/java/com/alibabacloud/polar_race/engine/common/EngineRace.java:255-259 | a run's visits are its indices in order, each with the head's key |
| Scan.FullScan | engine_java/src/main/java/com/alibabacloud/polar_race/engine/common/EngineRace.java:246-260 | the intended walk: every index once, in order, with its own key |
| Scan.WalkIndices | engine_java/src/main/java/com/alibabacloud/polar_race/engine/common/EngineRace.java:246-260 | the walk visits strictly increasing indices, all below the index size |
| Scan.WalkReportsRunHead | engine_java/src/main/java/com/alibabacloud/polar_race/engine/common/EngineRace.java:250-257 | every visit reads an entry in the run of some head and reports that head's key |
| Scan.SkipsAfterRun | engine_java/src/main/java/com/alibabacloud/polar_race/engine/common/EngineRace.java:246-259 | the index right after a run, when there is one, is never visited |
| Scan.FullScanOrdered | engine_java/src/main/java/com/alibabacloud/polar_race/engine/common/EngineRace.java:246-260 | the full scan of a strictly increasing index reports each entry's own key, keys strictly increasing |
| Scan.WalkSkipsSecondBlock | engine_java/src/main/java/com/alibabacloud/polar_race/engine/common/EngineRace.java:246-260 | on two keys in different value files the walk visits only the first; the full scan visits both |
| Scan.WalkRepeatsRunHeadKey | engine_java/src/main/java/com/alibabacloud/polar_race/engine/common/EngineRace.java:257 | on keys 0 and 1 of one block the walk reports key 0 twice; the full scan reports 0 and 1 |
| Engine.Zeros | engine_java/src/main/java/com/alibabacloud/polar_race/engine/common/EngineRace.java:167 | a slot nobody wrote reads as 4096 zero bytes |
| Engine.SlotValue | engine_java/src/main/java/com/alibabacloud/polar_race/engine/common/EngineRace.java:229-231 | defines the 4096 bytes `read` copies from a file at a position: the stored value, zeros where nothing was written |
| Engine.ValueAt | engine_java/src/main/java/com/alibabacloud/polar_race/engine/common/EngineRace.java:222-233 | defines what `read` answers for an indexed key: the slot value at the position of the offset the index gives |
| Engine.BuildFacts | engine_java/src/main/java/com/alibabacloud/polar_race/engine/common/EngineRace.java:128-157 | load, sort and collapse in sequence yield an index for the records, with every slot in range |
| Engine.BuildIndex | engine_java/src/main/java/com/alibabacloud/polar_race/engine/common/EngineRace.java:128-157 | the repaired build: the first `count` entries are an index for the records of the key logs, for every input including empty logs |
| Engine.BuildIndexAsWritten | engine_java/src/main/java/com/alibabacloud/polar_race/engine/common/EngineRace.java:128-157 | the build as written: an index for the records when there is at least one, and a count of 1 over untouched arrays when there is none |
| Engine.WriteElsewhere | engine_java/src/main/java/com/alibabacloud/polar_race/engine/common/EngineRace.java:212-214 | storing a value at a position no index entry names leaves what every indexed key reads unchanged |
| Engine.WriteStep | engine_java/src/main/java/com/alibabacloud/polar_race/engine/common/EngineRace.java:204-214 | a write keeps the logs whole with in-range slots, adds exactly its record, and, when the counters lay above every slot in use, they still do and every indexed key reads the same value |
| Engine.WalkRun | engine_java/src/main/java/com/alibabacloud/polar_race/engine/common/EngineRace.java:255-260 | the inner loop ends where the run ends and adds the run's visits |
| Engine.WalkIndex | engine_java/src/main/java/com/alibabacloud/polar_race/engine/common/EngineRace.java:246-261 | the nested loops of `range` make exactly the visits `Walk` describes |
| Engine.ScanIndex | engine_java/src/main/java/com/alibabacloud/polar_race/engine/common/EngineRace.java:246-261 | the repaired loop makes exactly the visits of the full scan |
| Engine.ZeroSlotCounters | engine_java/src/main/java/com/alibabacloud/polar_race/engine/common/EngineRace.java:172-176 | a counter of 0 for every one of the 256 by 128 blocks and no other entry |
| Engine.ResumeSlotCounters | engine_java/src/main/java/com/alibabacloud/polar_race/engine/common/EngineRace.java:172-176 | the repaired reset: every counter one past the largest slot the index names in its block |
| Engine.OpenFacts | engine_java/src/main/java/com/alibabacloud/polar_race/engine/common/EngineRace.java:153-176 | counters resumed from a new index lie above every slot the index and the key records name |
| Engine.EngineRace.IndexInRange | engine_java/src/main/java/com/alibabacloud/polar_race/engine/common/EngineRace.java:44 | the index names in-range slots only |
| Engine.EngineRace.IndexIsPrefix | engine_java/src/main/java/com/alibabacloud/polar_race/engine/common/EngineRace.java:102 | the index is the first `CURRENT_KEY_NUM` entries of the arrays |
| Engine.EngineRace.constructor | engine_java/src/main/java/com/alibabacloud/polar_race/engine/common/EngineRace.java:48-65 | the engine before `open`: zeroed arrays, empty index, the directory's key logs and 4096-byte values, no counters (`valueOffsets` empty) |
| Engine.EngineRace.OpenCursors | engine_java/src/main/java/com/alibabacloud/polar_race/engine/common/EngineRace.java:121-126 | every cursor is set to the size of its key log |
| Engine.EngineRace.OpenAsWritten | engine_java/src/main/java/com/alibabacloud/polar_race/engine/common/EngineRace.java:105-183 | `open` as written: cursors at the log ends, an index for the records when there are any (one phantom entry when there are none), every slot counter 0 |
| Engine.EngineRace.Open | engine_java/src/main/java/com/alibabacloud/polar_race/engine/common/EngineRace.java:105-183 | the repaired `open`: an index for the records of the key logs, and counters resumed above every slot in use (`Fresh`) |
| Engine.EngineRace.ClaimedSlotUnused | engine_java/src/main/java/com/alibabacloud/polar_race/engine/common/EngineRace.java:204 | after the repaired `open`, the slot a write claims is not named by any record or index entry |
| Engine.EngineRace.Write | engine_java/src/main/java/com/alibabacloud/polar_race/engine/common/EngineRace.java:198-218 | exactly one slot counter goes up by 1 and one cursor by 12; the record `(key, old counter)` is appended to the key's log; the value is stored at the claimed slot; with counters above every slot in use they stay so and every indexed key reads the same value |
| Engine.EngineRace.Put | engine_java/src/main/java/com/alibabacloud/polar_race/engine/common/EngineRace.java:200-214 | the same, for a key already decoded to a `long` |
| Engine.EngineRace.GetKey | engine_java/src/main/java/com/alibabacloud/polar_race/engine/common/EngineRace.java:311-326 | the binary search answers `offs[j]` when `keys[j]` is the key within the index, and -1 when no index key is |
| Engine.EngineRace.Read | engine_java/src/main/java/com/alibabacloud/polar_race/engine/common/EngineRace.java:222-233 | NOT_FOUND when the index lacks the key, otherwise the 4096 bytes at the slot the index names, at the same position `write` uses; every answer is 4096 bytes long |
| Engine.EngineRace.Range | engine_java/src/main/java/com/alibabacloud/polar_race/engine/common/EngineRace.java:237-269 | NOT_SUPPORTED exactly when a bound is non-empty; otherwise the visits of `Walk` |
| Engine.EngineRace.RangeFullScan | engine_java/src/main/java/com/alibabacloud/polar_race/engine/common/EngineRace.java:244-267 | the repaired `range`: NOT_SUPPORTED exactly when a bound is non-empty; otherwise every index entry once, with its own key |
| Scenarios.EmptyLogs | engine_java/src/main/java/com/alibabacloud/polar_race/engine/common/EngineRace.java:121-126 | a directory with 64 empty key logs |
| Scenarios.Filled | engine_java/src/main/java/com/alibabacloud/polar_race/engine/common/EngineRace.java:31 | a value of 4096 equal bytes |
| Scenarios.NoRecords | engine_java/src/main/java/com/alibabacloud/polar_race/engine/common/EngineRace.java:130 | empty key logs hold no records |
| Scenarios.IndexOfOne | engine_java/src/main/java/com/alibabacloud/polar_race/engine/common/EngineRace.java:153-157 | an index built from a single record is that record |
| Scenarios.OneRecord | engine_java/src/main/java/com/alibabacloud/polar_race/engine/common/EngineRace.java:207-209 | one record appended to empty logs is the only record |
| Scenarios.AppendedIsLatest | engine_java/src/main/java/com/alibabacloud/polar_race/engine/common/EngineRace.java:204-209 | with counters above all records, the appended record names the largest slot of its key |
| Scenarios.ReadsLatest | engine_java/src/main/java/com/alibabacloud/polar_race/engine/common/EngineRace.java:222-233 | on an index built from the records, a key whose record names its largest slot reads that slot's value |
| Scenarios.SmallKeys | engine_java/src/main/java/com/alibabacloud/polar_race/engine/common/EngineRace.java:293-309 | keys 0 and 1 decode from their encodings and share key log 0 and block 0 of value file 0 |
| Scenarios.OpenEmpty | engine_java/src/main/java/com/alibabacloud/polar_race/engine/common/EngineRace.java:105-183 | the repaired `open` over an empty directory: an empty index and all counters 0 |
| Scenarios.KeyZeroWritten | engine_java/src/main/java/com/alibabacloud/polar_race/engine/common/EngineRace.java:198-218 | writing key 0 into an empty engine stores it in slot 0 of block 0 and records `(0, 0)` |
| Scenarios.OpenEmptyAsWritten | engine_java/src/main/java/com/alibabacloud/polar_race/engine/common/EngineRace.java:105-183 | `open` as written over an empty directory: all counters 0 |
| Scenarios.KeyZeroWrittenAsWritten | engine_java/src/main/java/com/alibabacloud/polar_race/engine/common/EngineRace.java:198-218 | after `open` as written, writing key 0 stores it in slot 0 of block 0 and records `(0, 0)` |
| Scenarios.PhantomKeyAfterEmptyOpen | engine_java/src/main/java/com/alibabacloud/polar_race/engine/common/EngineRace.java:185-195 | `open` as written over an empty directory, then `read` of key 0: zero bytes instead of NOT_FOUND |
| Scenarios.EmptyOpenFindsNothing | engine_java/src/main/java/com/alibabacloud/polar_race/engine/common/EngineRace.java:225-228 | the repaired `open` over an empty directory, then `read` of key 0: NOT_FOUND |
| Scenarios.FilledDiffer | engine_java/src/main/java/com/alibabacloud/polar_race/engine/common/EngineRace.java:31 | two values of different bytes differ |
| Scenarios.ReopenedAsWritten | engine_java/src/main/java/com/alibabacloud/polar_race/engine/common/EngineRace.java:172-176 | with both opens as written, the reopened engine indexes `(0, 0)` but sets block 0's counter back to 0 |
| Scenarios.Reopened | engine_java/src/main/java/com/alibabacloud/polar_race/engine/common/EngineRace.java:172-176 | reopening with the repaired `open` indexes `(0, 0)` and resumes block 0's counter at 1 |
| Scenarios.SlotReuseAfterReopen | engine_java/src/main/java/com/alibabacloud/polar_race/engine/common/EngineRace.java:172-176 | write key 0, reopen as written, write key 1, read key 0: key 1's value, not key 0's |
| Scenarios.ReopenKeepsValue | engine_java/src/main/java/com/alibabacloud/polar_race/engine/common/EngineRace.java:172-176 | the same run with the repaired `open`: key 0's own value |
| Scenarios.WriteRecorded | engine_java/src/main/java/com/alibabacloud/polar_race/engine/common/EngineRace.java:198-218 | a write's record is among the records, names the largest slot of its key, and that slot holds the value |
| Scenarios.WriteThenReopen | engine_java/src/main/java/com/alibabacloud/polar_race/engine/common/EngineRace.java:105-218 | after a write and the repaired `open`, the index holds the key and it reads the value written |
| Scenarios.WriteThenReopenRead | engine_java/src/main/java/com/alibabacloud/polar_race/engine/common/EngineRace.java:105-233 | `write`, the repaired `open`, then `read` of the same key answers the value written |

## Left out

- Files, directories, `RandomAccessFile`, `FileChannel`, memory mapping and the swallowed `IOException`s of `open` (lines 107-182): the key logs and value files are the fields `keyLogs` and `values`. An I/O failure is not modelled.
- The threads and `CountDownLatch` of recovery (lines 127-150): the shards are loaded one after another (`Recovery.LoadShards`). Their regions are disjoint, so the result is the same.
- The atomics of `keyOffsets` and `valueOffsets` (lines 56, 65): the counters are plain fields, and concurrent writes are not modelled.
- The `FastThreadLocal` buffers, logging and timing (lines 67-100, 152-159): they have no effect on the state modelled.
- Engine.EngineRace.Range: `Walk` is the visit sequence of the loops at lines 246-260 with the block read of lines 253-256 taken to succeed; a visit is the key reported and the index whose slot is read, and the bytes handed to the visitor are not modelled. As written, the source never reaches a visit: the buffer of line 98 is filled by the inner `read` at line 254 and never flipped, so the `get` at line 256 into the 4096-byte `valueBytes` at offset `offs[i] << 12` throws (an out-of-bounds offset when `offs[i] > 0`, an underflow when `offs[i] == 0`), and the catch at lines 262-264 answers IO_ERROR. Since `open` as written always leaves at least one index entry, `range` as written answers IO_ERROR with no visit after every `open`.
- `close` (lines 280-291): it only releases file handles.
- `Util.bytes2long`, the visitor and the exception types are not part of this model. `bytes2long` is taken to be the big-endian decode; a `null` bound of `range` is modelled as an empty one.
- Engine.EngineRace.Write: requires a value of exactly 4096 bytes, the length every slot holds.
- Engine.EngineRace.Write: requires `WriteAllowed`: the key's block has a slot below 2160 left, and its key log stays below `2^31` bytes. The source checks neither. A slot past 2160 would spill into the next block and an `int` cursor would wrap.
- Engine.EngineRace.Write: requires an engine that was opened. Before `open` the Java counters are `null` and `write` would throw `NullPointerException`.
- Engine.EngineRace.Write: the key-log write at the cursor is modelled as an append. The cursor always equals the log's size (`LogsValid`).
- Engine.EngineRace.Open: requires at most `KEY_NUM` records in all, the capacity of the index arrays, and every key log below `2^31` bytes, so that `(int) channel.size()` at line 125 is exact.
- Recovery.LoadShards: requires every key log to hold a whole number of 12-byte records (`WholeRecords`), and so do `Engine.EngineRace.Open` and `OpenAsWritten` through `Valid`. A torn log (a size not a multiple of 12, as a crash in the middle of an append leaves) is not modelled. On one, the source's shard thread runs `getLong`/`getInt` past the end of the mapped buffer at lines 141-142; with 8 to 11 trailing bytes `getLong` first stores a partial key into `keys[temp + size / 12]`, the first cell of the next shard's region, and then `getInt` throws. The thread dies before `countDown` at line 144, so `await` at line 150 blocks and `open` never returns.
- Engine.EngineRace.constructor: requires every record of the key logs to name a slot in `[0, 2160)` (`OffsInRange`). The source reads a log naming any other slot; such a log cannot come from `write` under its own precondition, and this model does not say what `read` answers on one.
- Engine.EngineRace.OpenAsWritten: the same preconditions as `Open`.
- Engine.EngineRace.constructor: `keys` and `offs` are `static` in Java and shared by every engine object; here each engine owns its arrays.
- Engine.EngineRace.GetKey: `(l + r) >> 1` is modelled as `(l + r) / 2`; with at most `KEY_NUM` entries the sum cannot overflow.
- `Types.i64`: keys and offsets are bounded newtypes, so Java's wrap-around never arises in the modelled paths. The 32-bit cast in `swap` (line 372) is exact for values that came from `offs`.

## Findings

| source | as written | input that shows it | evidently intended | confidence | as-written member | corrected member |
|---|---|---|---|---|---|---|
| engine_java/src/main/java/com/alibabacloud/polar_race/engine/common/EngineRace.java:185-195 | `handleDuplicate` starts `maxnum` at 1, so over an empty directory the index holds one entry: the zeroed `keys[0]`/`offs[0]` | open an empty directory, then `read` key 0: the zero bytes of slot 0 come back instead of NOT_FOUND | return 0 when `keyNum == 0` | not executed | Compact.HandleDuplicate, Engine.EngineRace.OpenAsWritten, Scenarios.PhantomKeyAfterEmptyOpen | Compact.CompactIndex, Engine.EngineRace.Open, Scenarios.EmptyOpenFindsNothing |
| engine_java/src/main/java/com/alibabacloud/polar_race/engine/common/EngineRace.java:246-260 | after the inner `while` leaves index `i` at the first entry of the next block, the `for` loop's `++i` skips it; and every visit reports the run's first key (`key`), not `keys[i]` | with the block read taken to succeed (as written it throws, see `## Left out`): index `[(0, 0), (2^56, 0)]`: only the first entry is visited; index `[(0, 0), (1, 1)]`: key 0 is reported twice | every entry visited once, each with its own key | not executed | Scan.Walk, Engine.EngineRace.Range, Scan.WalkSkipsSecondBlock, Scan.WalkRepeatsRunHeadKey | Scan.FullScan, Engine.EngineRace.RangeFullScan, Scan.FullScanOrdered |
| engine_java/src/main/java/com/alibabacloud/polar_race/engine/common/EngineRace.java:172-176 | `open` resets every slot counter to 0, so the first write into a block after reopening claims a slot an indexed key still names | write key 0, reopen, write key 1 (same block), read key 0: key 1's value comes back | resume each counter above the slots already in use | not executed | Engine.EngineRace.OpenAsWritten, Scenarios.SlotReuseAfterReopen | Engine.ResumeSlotCounters, Engine.EngineRace.Open, Scenarios.ReopenKeepsValue, Scenarios.WriteThenReopenRead |
