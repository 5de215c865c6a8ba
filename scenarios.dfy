/**
 * Client runs of the engine: sequences of `open`, `write` and `read` on a directory,
 * each with the answer the last `read` gives. They show two defects of `open` as written
 * (a phantom key over an empty directory, a slot handed out twice after reopening) and
 * that the repaired `open` answers as intended.
 */
module Scenarios {
  import opened Types
  import opened Layout
  import opened Codec
  import opened Entries
  import opened Recovery
  import opened Lookup
  import opened Slots
  import opened Engine

  /** An empty directory: 64 key logs holding no records. */
  function EmptyLogs(): (logs: seq<seq<u8>>)
    ensures |logs| == THREAD_NUM && forall s :: 0 <= s < |logs| ==> logs[s] == []
  {
    seq(THREAD_NUM, _ => [])
  }

  /** A value of 4096 copies of byte `b`. */
  function Filled(b: u8): (v: seq<u8>)
    ensures |v| == VALUE_LEN && forall i :: 0 <= i < |v| ==> v[i] == b
  {
    seq(VALUE_LEN, _ => b)
  }

  /** Empty key logs hold no records. */
  lemma {:induction false} NoRecords(logs: seq<seq<u8>>)
    requires forall s :: 0 <= s < |logs| ==> logs[s] == []
    ensures Records(logs) == [] && RecordCount(logs) == 0
    decreases |logs|
  {
    if |logs| > 0 {
      NoRecords(logs[..|logs| - 1]);
    }
  }

  /** An index built from records that are all one entry `e` is exactly `[e]`. */
  lemma IndexOfOne(index: seq<Entry>, records: seq<Entry>, e: Entry)
    requires IndexFor(index, records) && forall r :: r in records <==> r == e
    ensures index == [e]
  {
    assert Covers(index, e);
    assert forall j :: 0 <= j < |index| ==> index[j] == e by {
      forall j | 0 <= j < |index| ensures index[j] == e {
        assert index[j] in records;
      }
    }
    assert |index| > 1 ==> index[0].key < index[1].key;
  }

  /** One record appended to empty logs: one record in all, and it is the only one. */
  lemma OneRecord(s: int, e: Entry)
    requires 0 <= s < THREAD_NUM
    ensures var logs := EmptyLogs()[s := EmptyLogs()[s] + EncodeRecord(e)];
      RecordCount(logs) == 1 && (forall r :: r in Records(logs) <==> r == e)
      && forall t :: 0 <= t < THREAD_NUM ==> |logs[t]| <= KEY_AND_OFF_LEN
  {
    var logs := EmptyLogs()[s := EmptyLogs()[s] + EncodeRecord(e)];
    NoRecords(EmptyLogs());
    RecordsAppendMember(EmptyLogs(), s, e);
    RecordsAppend(EmptyLogs(), s, e);
    assert |multiset(Records(logs))| == 1;
    RecordsLength(logs);
  }

  /**
   * Appending the record `e` of key `k` and slot `ctr[BlockOf(k)]` to logs whose records
   * all lie below the counters: one record more, and `e` names the largest slot of `k`.
   */
  lemma AppendedIsLatest(logs: seq<seq<u8>>, ctr: map<(int, int), int>, k: i64)
    requires |logs| == THREAD_NUM && WholeRecords(logs) && Below(Records(logs), ctr)
    requires BlockOf(k) in ctr && 0 <= ctr[BlockOf(k)] < MAX_NUM_PER_BLOCK
    ensures var e := Entry(k, ctr[BlockOf(k)] as i32);
      var logs' := logs[KeyFileHash(k) := logs[KeyFileHash(k)] + EncodeRecord(e)];
      RecordCount(logs') == RecordCount(logs) + 1 && e in Records(logs')
      && forall r :: r in Records(logs') && r.key == k ==> r.off <= e.off
  {
    var e := Entry(k, ctr[BlockOf(k)] as i32);
    var logs' := logs[KeyFileHash(k) := logs[KeyFileHash(k)] + EncodeRecord(e)];
    RecordsAppendMember(logs, KeyFileHash(k), e);
    assert e in Records(logs');
    forall r | r in Records(logs') && r.key == k
      ensures r.off <= e.off
    {
      if r != e {
        assert r in Records(logs);
      }
    }
    assert RecordCount(logs') == RecordCount(logs) + 1 by {
      RecordsAppend(logs, KeyFileHash(k), e);
      RecordsLength(logs);
      RecordsLength(logs');
      assert |multiset(Records(logs'))| == |multiset(Records(logs))| + 1;
    }
  }

  /**
   * On an index built from the records, a key whose record `e` names its largest slot
   * reads the value in that slot.
   */
  lemma ReadsLatest(values: map<(int, int), seq<u8>>, index: seq<Entry>, records: seq<Entry>, e: Entry, v: seq<u8>)
    requires IndexFor(index, records) && e in records && 0 <= e.off
    requires forall r :: r in records && r.key == e.key ==> r.off <= e.off
    requires SlotValue(values, ValueFileHash(e.key), SlotPosition(ValueBlockHash(e.key), e.off as int)) == v
    ensures LookupOff(index, e.key) != -1 && ValueAt(values, index, e.key) == v
  {
    IndexedLatest(index, records, e);
  }

  /** Keys 0 and 1 share key log 0 and block 0 of value file 0. */
  lemma SmallKeys()
    ensures |EncodeLong(0)| == KEY_LEN && DecodeLong(EncodeLong(0)) == 0
    ensures |EncodeLong(1)| == KEY_LEN && DecodeLong(EncodeLong(1)) == 1
    ensures KeyFileHash(0) == 0 && KeyFileHash(1) == 0
    ensures BlockOf(0) == (0, 0) && BlockOf(1) == (0, 0)
  {
    DecodeEncodeLong(0);
    DecodeEncodeLong(1);
  }

  /** A new engine over an empty directory, opened with the repaired `open`. */
  method OpenEmpty() returns (engine: EngineRace)
    ensures fresh(engine) && fresh(engine.keys) && fresh(engine.offs) && fresh(engine.keyOffsets)
    ensures engine.Valid() && engine.isOpen && engine.Fresh()
    ensures engine.Index() == [] && engine.keyLogs == EmptyLogs() && engine.values == map[]
    ensures engine.valueOffsets == NextSlots([])
  {
    NoRecords(EmptyLogs());
    engine := new EngineRace(EmptyLogs(), map[]);
    engine.Open();
    EmptyIndex(engine.Index(), 0);
  }

  /** The opened empty engine after writing value `Filled(1)` under key 0. */
  method KeyZeroWritten() returns (engine: EngineRace)
    ensures fresh(engine) && fresh(engine.keys) && fresh(engine.offs) && fresh(engine.keyOffsets)
    ensures engine.Valid() && engine.isOpen
    ensures engine.values == map[(0, 0) := Filled(1)]
    ensures RecordCount(engine.keyLogs) == 1 && forall r :: r in Records(engine.keyLogs) <==> r == Entry(0, 0)
    ensures forall s :: 0 <= s < THREAD_NUM ==> |engine.keyLogs[s]| <= KEY_AND_OFF_LEN
  {
    engine := OpenEmpty();
    SmallKeys();
    engine.Write(EncodeLong(0), Filled(1));
    OneRecord(0, Entry(0, 0));
  }

  /** A new engine over an empty directory, opened with `open` as written. */
  method OpenEmptyAsWritten() returns (engine: EngineRace)
    ensures fresh(engine) && fresh(engine.keys) && fresh(engine.offs) && fresh(engine.keyOffsets)
    ensures engine.Valid() && engine.isOpen
    ensures engine.keyLogs == EmptyLogs() && engine.values == map[]
    ensures engine.valueOffsets == NextSlots([])
  {
    NoRecords(EmptyLogs());
    engine := new EngineRace(EmptyLogs(), map[]);
    engine.OpenAsWritten();
  }

  /** The empty engine opened with `open` as written, after writing `Filled(1)` under key 0. */
  method KeyZeroWrittenAsWritten() returns (engine: EngineRace)
    ensures fresh(engine) && fresh(engine.keys) && fresh(engine.offs) && fresh(engine.keyOffsets)
    ensures engine.Valid() && engine.isOpen
    ensures engine.values == map[(0, 0) := Filled(1)]
    ensures RecordCount(engine.keyLogs) == 1 && forall r :: r in Records(engine.keyLogs) <==> r == Entry(0, 0)
    ensures forall s :: 0 <= s < THREAD_NUM ==> |engine.keyLogs[s]| <= KEY_AND_OFF_LEN
  {
    engine := OpenEmptyAsWritten();
    SmallKeys();
    engine.Write(EncodeLong(0), Filled(1));
    OneRecord(0, Entry(0, 0));
  }

  /**
   * `open` as written over an empty directory: `handleDuplicate(0)` answers 1, so the
   * index holds the zeroed first array entry, key 0 at slot 0, and reading key 0, which
   * nobody wrote, answers the zero bytes of slot 0 instead of NOT_FOUND.
   */
  method PhantomKeyAfterEmptyOpen() returns (r: Result<seq<u8>>)
    ensures r == Ok(Zeros())
  {
    NoRecords(EmptyLogs());
    var engine := new EngineRace(EmptyLogs(), map[]);
    ghost var z := Zip(engine.keys[..], engine.offs[..]);
    assert z[0] == Entry(0, 0);
    engine.OpenAsWritten();
    assert engine.Index() == [Entry(0, 0)] by {
      assert engine.Index()[0] == Zip(engine.keys[..], engine.offs[..])[0];
    }
    SmallKeys();
    r := engine.Read(EncodeLong(0));
  }

  /** The repaired `open` over an empty directory: an empty index, so key 0 is NOT_FOUND. */
  method EmptyOpenFindsNothing() returns (r: Result<seq<u8>>)
    ensures r == Err(NotFound)
  {
    var engine := OpenEmpty();
    SmallKeys();
    r := engine.Read(EncodeLong(0));
  }

  /** A value of ones and a value of twos differ. */
  lemma FilledDiffer()
    ensures Filled(1) != Filled(2)
  {
    assert Filled(1)[0] != Filled(2)[0];
  }

  /** The empty engine with key 0 written, both opens being `open` as written. */
  method ReopenedAsWritten() returns (engine: EngineRace)
    ensures fresh(engine) && fresh(engine.keys) && fresh(engine.offs) && fresh(engine.keyOffsets)
    ensures engine.Valid() && engine.isOpen
    ensures engine.Index() == [Entry(0, 0)] && engine.values == map[(0, 0) := Filled(1)]
    ensures engine.valueOffsets[(0, 0)] == 0
    ensures forall s :: 0 <= s < THREAD_NUM ==> |engine.keyLogs[s]| <= KEY_AND_OFF_LEN
  {
    engine := KeyZeroWrittenAsWritten();
    engine.OpenAsWritten();
    IndexOfOne(engine.Index(), Records(engine.keyLogs), Entry(0, 0));
  }

  /** The empty engine with key 0 written, reopened with the repaired `open`. */
  method Reopened() returns (engine: EngineRace)
    ensures fresh(engine) && fresh(engine.keys) && fresh(engine.offs) && fresh(engine.keyOffsets)
    ensures engine.Valid() && engine.isOpen && engine.Fresh()
    ensures engine.Index() == [Entry(0, 0)] && engine.values == map[(0, 0) := Filled(1)]
    ensures engine.valueOffsets[(0, 0)] == 1
    ensures forall s :: 0 <= s < THREAD_NUM ==> |engine.keyLogs[s]| <= KEY_AND_OFF_LEN
  {
    engine := KeyZeroWritten();
    engine.Open();
    IndexOfOne(engine.Index(), Records(engine.keyLogs), Entry(0, 0));
    SmallKeys();
    assert NextSlot([Entry(0, 0)], 0, 0) == 1;
  }

  /**
   * Open an empty directory, write key 0, reopen (both opens as written), write key 1
   * and read key 0: the reset counters hand slot 0 of block 0 to key 1 as well, so key 0
   * reads key 1's value.
   */
  method SlotReuseAfterReopen() returns (r: Result<seq<u8>>)
    ensures r == Ok(Filled(2)) && r != Ok(Filled(1))
  {
    var engine := ReopenedAsWritten();
    SmallKeys();
    engine.Write(EncodeLong(1), Filled(2));
    r := engine.Read(EncodeLong(0));
    FilledDiffer();
  }

  /**
   * The same run with the repaired `open`: the counter of block 0 resumes at 1, key 1
   * takes slot 1 and key 0 still reads its own value.
   */
  method ReopenKeepsValue() returns (r: Result<seq<u8>>)
    ensures r == Ok(Filled(1)) && r != Ok(Filled(2))
  {
    var engine := Reopened();
    SmallKeys();
    engine.Write(EncodeLong(1), Filled(2));
    r := engine.Read(EncodeLong(0));
    FilledDiffer();
  }

  /**
   * A `write` into an engine whose counters lie above every slot in use: its record `e`
   * is recorded, names the largest slot any record of its key names, and that slot holds
   * the value.
   */
  method WriteRecorded(engine: EngineRace, key: seq<u8>, value: seq<u8>) returns (ghost e: Entry)
    requires engine.Valid() && engine.isOpen && engine.Fresh()
    requires |key| == KEY_LEN && |value| == VALUE_LEN && engine.WriteAllowed(DecodeLong(key))
    requires RecordCount(engine.keyLogs) < KEY_NUM
    requires forall s :: 0 <= s < THREAD_NUM ==> |engine.keyLogs[s]| < TWO_31
    modifies engine`valueOffsets, engine`keyLogs, engine`values, engine.keyOffsets
    ensures engine.Valid() && engine.isOpen
    ensures RecordCount(engine.keyLogs) <= KEY_NUM
    ensures forall s :: 0 <= s < THREAD_NUM ==> |engine.keyLogs[s]| < TWO_31
    ensures e.key == DecodeLong(key) && e in Records(engine.keyLogs) && 0 <= e.off
    ensures forall r :: r in Records(engine.keyLogs) && r.key == e.key ==> r.off <= e.off
    ensures SlotValue(engine.values, ValueFileHash(e.key), SlotPosition(ValueBlockHash(e.key), e.off as int)) == value
  {
    ghost var k := DecodeLong(key);
    ghost var ctr0 := engine.valueOffsets;
    e := Entry(k, ctr0[BlockOf(k)] as i32);
    AppendedIsLatest(engine.keyLogs, ctr0, k);
    engine.Write(key, value);
  }

  /**
   * With the repaired `open`, a value written and then reopened is what the key reads:
   * the new record names the largest slot of its key, so the rebuilt index points at it.
   */
  method WriteThenReopen(engine: EngineRace, key: seq<u8>, value: seq<u8>)
    requires engine.Valid() && engine.isOpen && engine.Fresh()
    requires |key| == KEY_LEN && |value| == VALUE_LEN && engine.WriteAllowed(DecodeLong(key))
    requires RecordCount(engine.keyLogs) < KEY_NUM
    requires forall s :: 0 <= s < THREAD_NUM ==> |engine.keyLogs[s]| < TWO_31
    modifies engine`currentKeyNum, engine`valueOffsets, engine`isOpen, engine`keyLogs, engine`values
    modifies engine.keys, engine.offs, engine.keyOffsets
    ensures engine.Valid() && engine.isOpen
    ensures LookupOff(engine.Index(), DecodeLong(key)) != -1 && engine.ValueOf(DecodeLong(key)) == value
  {
    ghost var e := WriteRecorded(engine, key, value);
    engine.Open();
    ReadsLatest(engine.values, engine.Index(), Records(engine.keyLogs), e, value);
  }

  /** `write`, then `open`, then `read` of the same key: the value written. */
  method WriteThenReopenRead(engine: EngineRace, key: seq<u8>, value: seq<u8>) returns (r: Result<seq<u8>>)
    requires engine.Valid() && engine.isOpen && engine.Fresh()
    requires |key| == KEY_LEN && |value| == VALUE_LEN && engine.WriteAllowed(DecodeLong(key))
    requires RecordCount(engine.keyLogs) < KEY_NUM
    requires forall s :: 0 <= s < THREAD_NUM ==> |engine.keyLogs[s]| < TWO_31
    modifies engine`currentKeyNum, engine`valueOffsets, engine`isOpen, engine`keyLogs, engine`values
    modifies engine.keys, engine.offs, engine.keyOffsets
    ensures r == Ok(value)
  {
    WriteThenReopen(engine, key, value);
    r := engine.Read(key);
  }
}
