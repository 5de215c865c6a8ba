/**
 * The engine object. The directory's contents are two fields: the 64 key logs (`keyLogs`)
 * and the value slots written so far (`values`, keyed by value file and byte position;
 * a slot never written reads as zeros, as a fresh mapped file does). `open` rebuilds the
 * in-memory index from the key logs, `write` claims a slot and appends a key record,
 * `read` and `range` consult only the index built at the last `open`.
 */
module Engine {
  import opened Types
  import opened Layout
  import opened Codec
  import opened Entries
  import opened HeapSort
  import opened Compact
  import opened Recovery
  import opened Scan
  import opened Lookup
  import opened Slots

  /** The bytes of a value slot nobody wrote. */
  function Zeros(): (z: seq<u8>)
    ensures |z| == VALUE_LEN && forall i :: 0 <= i < |z| ==> z[i] == 0
  {
    seq(VALUE_LEN, _ => 0)
  }

  /** The 4096 bytes `read` copies out of value file `f` from byte `pos` on. */
  function SlotValue(values: map<(int, int), seq<u8>>, f: int, pos: int): seq<u8> {
    if (f, pos) in values then values[(f, pos)] else Zeros()
  }

  /** The largest key-log size `(int) channel.size()` keeps exact, plus one. */
  const TWO_31: int := 0x8000_0000

  /** The three phases of the index build, as facts about the arrays' contents. */
  lemma BuildFacts(recs: seq<Entry>, s0: seq<Entry>, z1: seq<Entry>, z2: seq<Entry>, z3: seq<Entry>,
                   total: int, count: int)
    requires |z1| == |s0| && 0 <= total <= |z1| && OffsInRange(recs) && OffsInRange(s0)
    requires z1[..total] == recs && z1[total..] == s0[total..]
    requires PermutedPrefix(z2, z1, total) && Sorted(z2[..total])
    requires |z3| == |z2| && 0 <= count <= total
    requires z3[..count] == Dedup(z2[..total]) && z3[count..] == z2[count..]
    ensures IndexFor(z3[..count], recs) && OffsInRange(z3)
  {
    OffsInRangeFilled(z1, s0, recs);
    OffsInRangePermuted(z2, z1, total);
    OffsInRangeCompacted(z3, z2, total, count);
    IndexOfSorted(recs, z2[..total]);
  }

  /**
   * Lines 128-159 with `handleDuplicate`'s result repaired: load, sort and compact the
   * key records into the index, of size `count`, which is empty when there are none.
   */
  method BuildIndex(keys: array<i64>, offs: array<i32>, logs: seq<seq<u8>>) returns (count: int)
    requires keys.Length == offs.Length && WholeRecords(logs) && RecordCount(logs) <= keys.Length
    requires OffsInRange(Records(logs)) && OffsInRange(Zip(keys[..], offs[..]))
    modifies keys, offs
    ensures 0 <= count <= keys.Length
    ensures IndexFor(Zip(keys[..], offs[..])[..count], Records(logs))
    ensures OffsInRange(Zip(keys[..], offs[..]))
  {
    ghost var s0 := Zip(keys[..], offs[..]);
    var total := LoadShards(keys, offs, logs);
    ghost var z1 := Zip(keys[..], offs[..]);
    HeapSort.HeapSort(keys, offs, total);
    ghost var z2 := Zip(keys[..], offs[..]);
    count := CompactIndex(keys, offs, total);
    BuildFacts(Records(logs), s0, z1, z2, Zip(keys[..], offs[..]), total, count);
  }

  /**
   * Lines 128-159 as written: with records, the same index; without any, size 1 and the
   * arrays untouched, so their first entry shows through.
   */
  method BuildIndexAsWritten(keys: array<i64>, offs: array<i32>, logs: seq<seq<u8>>) returns (count: int)
    requires keys.Length == offs.Length && WholeRecords(logs) && RecordCount(logs) <= keys.Length
    requires OffsInRange(Records(logs)) && OffsInRange(Zip(keys[..], offs[..]))
    modifies keys, offs
    ensures RecordCount(logs) > 0 ==> 0 <= count <= keys.Length
    ensures RecordCount(logs) > 0 ==> IndexFor(Zip(keys[..], offs[..])[..count], Records(logs))
    ensures RecordCount(logs) == 0 ==> count == 1 && Zip(keys[..], offs[..]) == old(Zip(keys[..], offs[..]))
    ensures OffsInRange(Zip(keys[..], offs[..]))
  {
    ghost var s0 := Zip(keys[..], offs[..]);
    var total := LoadShards(keys, offs, logs);
    ghost var z1 := Zip(keys[..], offs[..]);
    HeapSort.HeapSort(keys, offs, total);
    ghost var z2 := Zip(keys[..], offs[..]);
    count := HandleDuplicate(keys, offs, total);
    if total > 0 {
      BuildFacts(Records(logs), s0, z1, z2, Zip(keys[..], offs[..]), total, count);
    } else {
      assert z1 == s0 && z2 == z1;
    }
  }

  /** What `read` answers for key `k` when the index `idx` holds it: the bytes of its slot. */
  function ValueAt(values: map<(int, int), seq<u8>>, idx: seq<Entry>, k: i64): seq<u8> {
    SlotValue(values, ValueFileHash(k), SlotPosition(ValueBlockHash(k), LookupOff(idx, k)))
  }

  /**
   * Storing a value at a position no entry of the index names leaves what every indexed
   * key reads unchanged.
   */
  lemma WriteElsewhere(values: map<(int, int), seq<u8>>, idx: seq<Entry>, pos: (int, int), v: seq<u8>)
    requires forall e :: e in idx ==>
      (ValueFileHash(e.key), SlotPosition(ValueBlockHash(e.key), e.off as int)) != pos
    ensures forall k :: LookupOff(idx, k) != -1 ==> ValueAt(values[pos := v], idx, k) == ValueAt(values, idx, k)
  {
    forall k | LookupOff(idx, k) != -1
      ensures ValueAt(values[pos := v], idx, k) == ValueAt(values, idx, k)
    {
      var j := LookupHit(idx, k);
      assert idx[j] in idx;
    }
  }

  /**
   * One write as a step on values: slot `ctr[BlockOf(k)]` is claimed, the record of `k`
   * and that slot is appended to `k`'s key log and `v` is stored at the slot's position.
   * The logs stay whole and in range and their records gain exactly the new one; when no
   * counter pointed at a slot in use none does afterwards, and every key of the index
   * reads what it read before.
   */
  lemma WriteStep(logs: seq<seq<u8>>, ctr: map<(int, int), int>, values: map<(int, int), seq<u8>>,
                  idx: seq<Entry>, k: i64, v: seq<u8>)
    requires |logs| == THREAD_NUM && WholeRecords(logs) && OffsInRange(Records(logs)) && OffsInRange(idx)
    requires BlockOf(k) in ctr && 0 <= ctr[BlockOf(k)] < MAX_NUM_PER_BLOCK
    ensures var e := Entry(k, ctr[BlockOf(k)] as i32);
      var logs' := logs[KeyFileHash(k) := logs[KeyFileHash(k)] + EncodeRecord(e)];
      WholeRecords(logs') && OffsInRange(Records(logs'))
      && forall r :: r in Records(logs') <==> r in Records(logs) || r == e
    ensures var e := Entry(k, ctr[BlockOf(k)] as i32);
      var logs' := logs[KeyFileHash(k) := logs[KeyFileHash(k)] + EncodeRecord(e)];
      var ctr' := ctr[BlockOf(k) := ctr[BlockOf(k)] + 1];
      var values' := values[(ValueFileHash(k), SlotPosition(ValueBlockHash(k), ctr[BlockOf(k)])) := v];
      Below(Records(logs), ctr) && Below(idx, ctr) ==>
        Below(Records(logs'), ctr') && Below(idx, ctr')
        && forall k' :: LookupOff(idx, k') != -1 ==> ValueAt(values', idx, k') == ValueAt(values, idx, k')
  {
    var e := Entry(k, ctr[BlockOf(k)] as i32);
    var logs' := logs[KeyFileHash(k) := logs[KeyFileHash(k)] + EncodeRecord(e)];
    RecordsAppendMember(logs, KeyFileHash(k), e);
    AppendKeepsWhole(logs, KeyFileHash(k), e);
    if Below(Records(logs), ctr) && Below(idx, ctr) {
      ClaimedPositionUnused(idx, ctr, k);
      BelowAfterClaim(Records(logs), Records(logs'), idx, ctr, e);
      WriteElsewhere(values, idx, (ValueFileHash(k), SlotPosition(ValueBlockHash(k), ctr[BlockOf(k)])), v);
    }
  }

  /**
   * Lines 238-261: the index walk of `range` over the first `n` keys of `keys`, whose
   * entries are `idx`. The for-loop's `++i` follows the inner loop, which already left
   * `i` at the first entry outside the run.
   */
  method WalkIndex(keys: array<i64>, n: int, ghost idx: seq<Entry>) returns (visits: seq<Visit>)
    requires 0 <= n <= keys.Length && |idx| == n
    requires forall j :: 0 <= j < n ==> idx[j].key == keys[j]
    ensures visits == Walk(idx, 0)
  {
    visits := [];
    ghost var total := Walk(idx, 0);
    var i := 0;
    while i < n
      invariant 0 <= i <= n + 1
      invariant visits + Walk(idx, i) == total
      decreases n - i
    {
      var key := keys[i];
      ghost var e := RunEnd(idx, i, key);
      RunEntry(idx, visits, i, key, e, total);
      visits, i := WalkRun(keys, n, idx, i, visits);
      i := i + 1;
      RunExit(idx, visits, e, i, total);
    }
  }

  /**
   * Lines 243-259: the inner loop of the walk, from head `i`: one visit, reported with the
   * head's key, for every following index in the head's (value file, block).
   */
  method WalkRun(keys: array<i64>, n: int, ghost idx: seq<Entry>, i: int, pre: seq<Visit>)
    returns (visits: seq<Visit>, end: int)
    requires 0 <= i < n <= keys.Length && |idx| == n
    requires forall j :: 0 <= j < n ==> idx[j].key == keys[j]
    ensures end == RunEnd(idx, i, keys[i])
    ensures visits == pre + RunVisits(keys[i], i, end)
  {
    var key := keys[i];
    var blockHash := ValueBlockHash(key);
    var hash := ValueFileHash(key);
    ghost var e := RunEnd(idx, i, key);
    visits := pre;
    end := i;
    while end < n && ValueFileHash(keys[end]) == hash && ValueBlockHash(keys[end]) == blockHash
      invariant i <= end <= e
      invariant visits == pre + RunVisits(key, i, end)
      decreases n - end
    {
      assert end < e;
      RunVisitsSnoc(key, i, end);
      visits := visits + [Visit(key, end)];
      end := end + 1;
    }
    assert end < n ==> idx[end].key == keys[end];
  }

  /** The walk as evidently intended: every one of the first `n` entries once, with its own key. */
  method ScanIndex(keys: array<i64>, n: int, ghost idx: seq<Entry>) returns (visits: seq<Visit>)
    requires 0 <= n <= keys.Length && |idx| == n
    requires forall j :: 0 <= j < n ==> idx[j].key == keys[j]
    ensures visits == FullScan(idx)
  {
    visits := [];
    var i := 0;
    while i < n
      invariant 0 <= i <= n
      invariant visits == FullScan(idx)[..i]
      decreases n - i
    {
      var key := keys[i];
      var blockHash := ValueBlockHash(key);
      var hash := ValueFileHash(key);
      ghost var head := i;
      while i < n && ValueFileHash(keys[i]) == hash && ValueBlockHash(keys[i]) == blockHash
        invariant head <= i <= n && (i == head ==> keys[i] == key)
        invariant visits == FullScan(idx)[..i]
        decreases n - i
      {
        assert FullScan(idx)[..i + 1] == FullScan(idx)[..i] + [Visit(keys[i], i)];
        visits := visits + [Visit(keys[i], i)];
        i := i + 1;
      }
    }
    assert FullScan(idx)[..n] == FullScan(idx);
  }

  /** Lines 172-176: a fresh counter table, every slot counter of every block at 0. */
  method ZeroSlotCounters() returns (ctr: map<(int, int), int>)
    ensures ctr == NextSlots([])
  {
    ctr := map[];
    var i := 0;
    while i < FILE_COUNT
      invariant 0 <= i <= FILE_COUNT
      invariant forall p :: p in ctr <==> IsBlock(p) && p.0 < i
      invariant forall p :: p in ctr ==> ctr[p] == 0
    {
      var j := 0;
      while j < BLOCK_NUM
        invariant 0 <= j <= BLOCK_NUM
        invariant forall p :: p in ctr <==> IsBlock(p) && (p.0 < i || (p.0 == i && p.1 < j))
        invariant forall p :: p in ctr ==> ctr[p] == 0
      {
        ctr := ctr[(i, j) := 0];
        j := j + 1;
      }
      i := i + 1;
    }
    NextSlotsEmpty(ctr);
  }

  /**
   * What `open` should do after zeroing the counters: raise each block's counter past the
   * largest slot the first `n` index entries name in it.
   */
  method ResumeSlotCounters(keys: array<i64>, offs: array<i32>, n: int, ctr0: map<(int, int), int>)
    returns (ctr: map<(int, int), int>)
    requires keys.Length == offs.Length && 0 <= n <= keys.Length
    requires ctr0 == NextSlots([])
    ensures ctr == NextSlots(Zip(keys[..n], offs[..n]))
  {
    ghost var idx := Zip(keys[..n], offs[..n]);
    ctr := ctr0;
    var j := 0;
    assert idx[..0] == [];
    while j < n
      invariant 0 <= j <= n
      invariant ctr == NextSlots(idx[..j])
    {
      var f := ValueFileHash(keys[j]);
      var b := ValueBlockHash(keys[j]);
      assert idx[j] == Entry(keys[j], offs[j]);
      NextSlotsStep(idx, j);
      if ctr[(f, b)] <= offs[j] as int {
        ctr := ctr[(f, b) := offs[j] as int + 1];
      }
      j := j + 1;
    }
    assert idx[..j] == idx;
  }

  /**
   * The state `open` leaves: an index built from the records and counters resumed from
   * the index keep every slot in use below its block's counter.
   */
  lemma OpenFacts(idx: seq<Entry>, recs: seq<Entry>, ctr: map<(int, int), int>)
    requires IndexFor(idx, recs) && ctr == NextSlots(idx)
    ensures StrictlyIncreasing(idx) && Below(recs, ctr) && Below(idx, ctr)
    ensures forall p :: p in ctr <==> IsBlock(p)
    ensures forall p :: p in ctr ==> 0 <= ctr[p]
  {
    AllBelowNextSlot(idx, recs);
  }

  class EngineRace {
    /** `keys`/`offs`: the index arrays, of capacity `KEY_NUM`. */
    const keys: array<i64>
    const offs: array<i32>
    /** `CURRENT_KEY_NUM`: the size of the index. */
    var currentKeyNum: int
    /**
     * `valueOffsets[f][b]`: the next free slot of block `b` of value file `f`, one counter
     * per (value file, block) pair; `open` replaces the whole table.
     */
    var valueOffsets: map<(int, int), int>
    /** `keyOffsets[s]`: the write cursor of key log `s`. */
    const keyOffsets: array<int>
    /** The contents of the 64 key log files `<s>.key`. */
    var keyLogs: seq<seq<u8>>
    /** The value slots written into the files `<f>.data`: (file, byte position) to value. */
    var values: map<(int, int), seq<u8>>
    /** Whether `open` ran. */
    ghost var isOpen: bool

    /** The index: the first `currentKeyNum` entries of the arrays. */
    ghost function Index(): seq<Entry>
      reads this`currentKeyNum, keys, offs
      requires keys.Length == offs.Length && 0 <= currentKeyNum <= keys.Length
    {
      Zip(keys[..currentKeyNum], offs[..currentKeyNum])
    }

    /** The index arrays: full capacity, in-range slots, strictly increasing index keys. */
    ghost predicate IndexValid()
      reads this`currentKeyNum, keys, offs
    {
      keys.Length == KEY_NUM && offs.Length == KEY_NUM
      && 0 <= currentKeyNum <= KEY_NUM
      && OffsInRange(Zip(keys[..], offs[..]))
      && StrictlyIncreasing(Index())
    }

    /** The key logs: 64 of them, whole records with in-range slots, each cursor at its log's end. */
    ghost predicate LogsValid()
      reads this`keyLogs, keyOffsets
    {
      keyOffsets.Length == THREAD_NUM
      && |keyLogs| == THREAD_NUM && WholeRecords(keyLogs)
      && (forall s :: 0 <= s < THREAD_NUM ==> keyOffsets[s] == |keyLogs[s]|)
      && OffsInRange(Records(keyLogs))
    }

    /** The slot counters: one for each of the 256 by 128 blocks, none negative. */
    ghost predicate CountersValid()
      reads this`valueOffsets
    {
      (forall p :: p in valueOffsets <==> IsBlock(p))
      && (forall p :: p in valueOffsets ==> 0 <= valueOffsets[p])
    }

    /** Every stored slot holds a whole value of 4096 bytes. */
    ghost predicate ValuesValid()
      reads this`values
    {
      forall p :: p in values ==> |values[p]| == VALUE_LEN
    }

    ghost predicate Valid()
      reads this, keys, offs, keyOffsets
    {
      IndexValid() && LogsValid() && ValuesValid() && (isOpen ==> CountersValid())
    }

    /**
     * No slot counter points at a slot a key record or the index already names, so the
     * next write of every block claims an unused slot.
     */
    ghost predicate Fresh()
      reads this, keys, offs, keyOffsets
      requires Valid()
    {
      Below(Records(keyLogs), valueOffsets) && Below(Index(), valueOffsets)
    }

    /** The bytes `read` returns for key `k` when the index holds it. */
    ghost function ValueOf(k: i64): seq<u8>
      reads this`currentKeyNum, this`values, keys, offs
      requires keys.Length == offs.Length && 0 <= currentKeyNum <= keys.Length
    {
      ValueAt(values, Index(), k)
    }

    /** The index names in-range slots only. */
    lemma IndexInRange()
      requires Valid()
      ensures OffsInRange(Index())
    {
      ZipPrefix(keys[..], offs[..], currentKeyNum);
      assert keys[..][..currentKeyNum] == keys[..currentKeyNum];
      assert offs[..][..currentKeyNum] == offs[..currentKeyNum];
      forall e | e in Index() ensures e in Zip(keys[..], offs[..]) {
      }
    }

    /** The index is the prefix of the arrays' zip. */
    lemma IndexIsPrefix()
      requires keys.Length == offs.Length && 0 <= currentKeyNum <= keys.Length
      ensures Index() == Zip(keys[..], offs[..])[..currentKeyNum]
    {
      ZipPrefix(keys[..], offs[..], currentKeyNum);
      assert keys[..][..currentKeyNum] == keys[..currentKeyNum];
      assert offs[..][..currentKeyNum] == offs[..currentKeyNum];
    }

    /**
     * The engine over a directory whose key logs and value files hold `logs` and `data`,
     * before `open`: an empty index, zeroed arrays and no slot counters yet (the Java
     * table holds `null` until `open`).
     */
    constructor (logs: seq<seq<u8>>, data: map<(int, int), seq<u8>>)
      requires |logs| == THREAD_NUM && WholeRecords(logs) && OffsInRange(Records(logs))
      requires forall p :: p in data ==> |data[p]| == VALUE_LEN
      ensures Valid() && !isOpen
      ensures keyLogs == logs && values == data && currentKeyNum == 0
      ensures valueOffsets == map[]
      ensures fresh(keys) && fresh(offs) && fresh(keyOffsets)
      ensures forall j :: 0 <= j < KEY_NUM ==> keys[j] == 0 && offs[j] == 0
    {
      keys := new i64[KEY_NUM](_ => 0);
      offs := new i32[KEY_NUM](_ => 0);
      valueOffsets := map[];
      keyOffsets := new int[THREAD_NUM](s requires 0 <= s < THREAD_NUM => |logs[s]|);
      currentKeyNum := 0;
      keyLogs := logs;
      values := data;
      isOpen := false;
      new;
      assert forall e :: e in Zip(keys[..], offs[..]) ==> e == Entry(0, 0);
    }

    /** Lines 121-126: each key log's cursor starts at the log's size. */
    method OpenCursors()
      requires keyOffsets.Length == THREAD_NUM && |keyLogs| == THREAD_NUM
      modifies keyOffsets
      ensures forall s :: 0 <= s < THREAD_NUM ==> keyOffsets[s] == |keyLogs[s]|
    {
      var i := 0;
      while i < THREAD_NUM
        invariant 0 <= i <= THREAD_NUM
        invariant forall s :: 0 <= s < i ==> keyOffsets[s] == |keyLogs[s]|
      {
        keyOffsets[i] := |keyLogs[i]|;
        i := i + 1;
      }
    }

    /**
     * `open` with its two defects repaired: the index of the key logs (strictly
     * increasing keys, one entry per recorded key, with that key's largest slot), empty
     * when there are no records, and slot counters resumed past every slot in use.
     */
    method Open()
      requires Valid()
      requires RecordCount(keyLogs) <= KEY_NUM
      requires forall s :: 0 <= s < THREAD_NUM ==> |keyLogs[s]| < TWO_31
      modifies this`currentKeyNum, this`valueOffsets, this`isOpen, keys, offs, keyOffsets
      ensures Valid() && Fresh() && isOpen
      ensures IndexFor(Index(), Records(keyLogs))
      ensures valueOffsets == NextSlots(Index())
    {
      OpenCursors();
      var count := BuildIndex(keys, offs, keyLogs);
      var ctr := ZeroSlotCounters();
      ctr := ResumeSlotCounters(keys, offs, count, ctr);
      currentKeyNum, valueOffsets, isOpen := count, ctr, true;
      IndexIsPrefix();
      OpenFacts(Index(), Records(keyLogs), valueOffsets);
    }

    /**
     * `open` as written: the same load and sort, `handleDuplicate` taken as the index size
     * even for no records (leaving one stale entry visible), and every slot counter reset
     * to 0 although the logs may name those slots.
     */
    method OpenAsWritten()
      requires Valid()
      requires RecordCount(keyLogs) <= KEY_NUM
      requires forall s :: 0 <= s < THREAD_NUM ==> |keyLogs[s]| < TWO_31
      modifies this`currentKeyNum, this`valueOffsets, this`isOpen, keys, offs, keyOffsets
      ensures Valid() && isOpen
      ensures RecordCount(keyLogs) > 0 ==> IndexFor(Index(), Records(keyLogs))
      ensures RecordCount(keyLogs) == 0 ==>
        currentKeyNum == 1 && Zip(keys[..], offs[..]) == old(Zip(keys[..], offs[..]))
      ensures valueOffsets == NextSlots([])
    {
      OpenCursors();
      var count := BuildIndexAsWritten(keys, offs, keyLogs);
      var ctr := ZeroSlotCounters();
      currentKeyNum, valueOffsets, isOpen := count, ctr, true;
      IndexIsPrefix();
    }

    /** The next slot of the block of key `k`: the one a write of `k` claims. */
    ghost function ClaimedSlot(k: i64): int
      reads this`valueOffsets
      requires CountersValid()
    {
      valueOffsets[BlockOf(k)]
    }

    /** What `write` leaves unchecked: a free slot in the key's block and room in its key log's cursor. */
    ghost predicate WriteAllowed(k: i64)
      reads this, keys, offs, keyOffsets
      requires Valid() && isOpen
    {
      valueOffsets[BlockOf(k)] < MAX_NUM_PER_BLOCK
      && |keyLogs[KeyFileHash(k)]| + KEY_AND_OFF_LEN < TWO_31
    }

    /**
     * `write`: claim the next slot `off` of the key's (value file, block), append the
     * record `(key, off)` at the cursor of the key's shard, and store the value in the
     * slot. Exactly one slot counter goes up by one and one cursor by 12; the index is
     * untouched. When no counter pointed at a slot in use, none does afterwards, and every
     * key the index holds still reads the same value.
     */
    method Write(key: seq<u8>, value: seq<u8>)
      requires Valid() && isOpen && |key| == KEY_LEN && |value| == VALUE_LEN
      requires WriteAllowed(DecodeLong(key))
      modifies this`valueOffsets, this`keyLogs, this`values, keyOffsets
      ensures Valid()
      ensures valueOffsets == old(valueOffsets)[BlockOf(DecodeLong(key)) := old(valueOffsets[BlockOf(DecodeLong(key))]) + 1]
      ensures forall s :: 0 <= s < THREAD_NUM ==>
        keyOffsets[s] == old(keyOffsets[s]) + if s == KeyFileHash(DecodeLong(key)) then KEY_AND_OFF_LEN else 0
      ensures keyLogs == old(keyLogs)[KeyFileHash(DecodeLong(key)) :=
        old(keyLogs)[KeyFileHash(DecodeLong(key))] + EncodeRecord(Entry(DecodeLong(key), old(valueOffsets[BlockOf(DecodeLong(key))]) as i32))]
      ensures values == old(values)[(ValueFileHash(DecodeLong(key)),
        SlotPosition(ValueBlockHash(DecodeLong(key)), old(valueOffsets[BlockOf(DecodeLong(key))]))) := value]
      ensures old(Fresh()) ==> Fresh()
      ensures old(Fresh()) ==> forall k :: LookupOff(Index(), k) != -1 ==> ValueOf(k) == old(ValueOf(k))
    {
      Put(DecodeLong(key), value);
    }

    /** `write` once the key is decoded to `numkey`. */
    method Put(numkey: i64, value: seq<u8>)
      requires Valid() && isOpen && |value| == VALUE_LEN
      requires WriteAllowed(numkey)
      modifies this`valueOffsets, this`keyLogs, this`values, keyOffsets
      ensures Valid()
      ensures valueOffsets == old(valueOffsets[BlockOf(numkey) := valueOffsets[BlockOf(numkey)] + 1])
      ensures forall s :: 0 <= s < THREAD_NUM ==>
        keyOffsets[s] == old(keyOffsets[s]) + if s == KeyFileHash(numkey) then KEY_AND_OFF_LEN else 0
      ensures keyLogs == old(keyLogs)[KeyFileHash(numkey) :=
        old(keyLogs)[KeyFileHash(numkey)] + EncodeRecord(Entry(numkey, old(valueOffsets[BlockOf(numkey)]) as i32))]
      ensures values == old(values)[(ValueFileHash(numkey),
        SlotPosition(ValueBlockHash(numkey), old(valueOffsets[BlockOf(numkey)]))) := value]
      ensures old(Fresh()) ==> Fresh()
      ensures old(Fresh()) ==> forall k :: LookupOff(Index(), k) != -1 ==> ValueOf(k) == old(ValueOf(k))
    {
      var keyHash := KeyFileHash(numkey);
      var blockHash := ValueBlockHash(numkey);
      var fileHash := ValueFileHash(numkey);
      IndexInRange();
      WriteStep(keyLogs, valueOffsets, values, Index(), numkey, value);
      var off := valueOffsets[(fileHash, blockHash)];
      var at := keyOffsets[keyHash];
      keyOffsets[keyHash] := at + KEY_AND_OFF_LEN;
      assert keyLogs[keyHash][..at] == keyLogs[keyHash];
      valueOffsets := valueOffsets[(fileHash, blockHash) := off + 1];
      keyLogs := keyLogs[keyHash := keyLogs[keyHash][..at] + EncodeRecord(Entry(numkey, off as i32))];
      values := values[(fileHash, SlotPosition(blockHash, off)) := value];
    }

    /**
     * With no counter pointing at a slot in use, the slot a write of `k` claims sits at a
     * value position no key record and no index entry names.
     */
    lemma ClaimedSlotUnused(k: i64)
      requires Valid() && isOpen && Fresh() && WriteAllowed(k)
      ensures forall e :: e in Records(keyLogs) ==>
        (ValueFileHash(e.key), SlotPosition(ValueBlockHash(e.key), e.off as int))
        != (ValueFileHash(k), SlotPosition(ValueBlockHash(k), ClaimedSlot(k)))
      ensures forall e :: e in Index() ==>
        (ValueFileHash(e.key), SlotPosition(ValueBlockHash(e.key), e.off as int))
        != (ValueFileHash(k), SlotPosition(ValueBlockHash(k), ClaimedSlot(k)))
    {
      IndexInRange();
      ClaimedPositionUnused(Records(keyLogs), valueOffsets, k);
      ClaimedPositionUnused(Index(), valueOffsets, k);
    }

    /**
     * `getKey`: binary search of the index for `numkey`, answering the entry's offset or -1;
     * the same answer as the linear lookup.
     */
    method GetKey(numkey: i64) returns (off: int)
      requires Valid()
      ensures off == LookupOff(Index(), numkey)
      ensures forall j :: 0 <= j < currentKeyNum && keys[j] == numkey ==> off == offs[j] as int
      ensures (forall j :: 0 <= j < currentKeyNum ==> keys[j] != numkey) ==> off == -1
    {
      ghost var idx := Index();
      assert forall j :: 0 <= j < currentKeyNum ==> idx[j] == Entry(keys[j], offs[j]);
      var l := 0;
      var r := currentKeyNum - 1;
      while l <= r
        invariant 0 <= l <= currentKeyNum && -1 <= r < currentKeyNum && l <= r + 1
        invariant forall j :: 0 <= j < l ==> keys[j] < numkey
        invariant forall j :: r < j < currentKeyNum ==> keys[j] > numkey
        decreases r - l
      {
        // `(l + r) >> 1` on non-negative ints
        var mid := (l + r) / 2;
        var num := keys[mid];
        if num < numkey {
          assert forall j :: 0 <= j < mid ==> idx[j].key < idx[mid].key;
          l := mid + 1;
        } else if num > numkey {
          assert forall j :: mid < j < currentKeyNum ==> idx[mid].key < idx[j].key;
          r := mid - 1;
        } else {
          LookupFound(idx, numkey, mid);
          StrictKeysUniqueAll(idx, mid);
          return offs[mid] as int;
        }
      }
      LookupMissing(idx, numkey);
      return -1;
    }

    /**
     * `read`: NOT_FOUND for a key the index does not hold, otherwise the 4096 bytes of the
     * slot at the same position `write` used.
     */
    method Read(key: seq<u8>) returns (r: Result<seq<u8>>)
      requires Valid() && |key| == KEY_LEN
      ensures LookupOff(Index(), DecodeLong(key)) == -1 ==> r == Err(NotFound)
      ensures LookupOff(Index(), DecodeLong(key)) != -1 ==> r == Ok(ValueOf(DecodeLong(key)))
      ensures r.Ok? ==> |r.value| == VALUE_LEN
    {
      var numkey := DecodeLong(key);
      var fileHash := ValueFileHash(numkey);
      var blockHash := ValueBlockHash(numkey);
      var off := GetKey(numkey);
      if off == -1 {
        return Err(NotFound);
      }
      return Ok(SlotValue(values, fileHash, SlotPosition(blockHash, off)));
    }

    /**
     * `range` as written: NOT_SUPPORTED unless both bounds are empty (a null bound is
     * modelled as an empty one); otherwise the visits of the index walk.
     */
    method Range(lower: seq<u8>, upper: seq<u8>) returns (r: Result<seq<Visit>>)
      requires Valid()
      ensures (|lower| >= 1 || |upper| >= 1) <==> r == Err(NotSupported)
      ensures |lower| < 1 && |upper| < 1 ==> r == Ok(Walk(Index(), 0))
    {
      if |lower| < 1 && |upper| < 1 {
        var visits := WalkIndex(keys, currentKeyNum, Index());
        return Ok(visits);
      }
      return Err(NotSupported);
    }

    /**
     * `range` as evidently intended: the same block-by-block walk, but every index entry
     * is visited once, in order, with its own key.
     */
    method RangeFullScan(lower: seq<u8>, upper: seq<u8>) returns (r: Result<seq<Visit>>)
      requires Valid()
      ensures (|lower| >= 1 || |upper| >= 1) <==> r == Err(NotSupported)
      ensures |lower| < 1 && |upper| < 1 ==> r == Ok(FullScan(Index()))
    {
      if |lower| < 1 && |upper| < 1 {
        var visits := ScanIndex(keys, currentKeyNum, Index());
        return Ok(visits);
      }
      return Err(NotSupported);
    }
  }
}
