/**
 * The shard-load phase of `open`: every key log is decoded, record by record, into its
 * own region of the parallel index arrays. Shard `i`'s region starts where the records of
 * the shards before it end, so the regions are disjoint and together form a prefix.
 */
module Recovery {
  import opened Types
  import opened Layout
  import opened Codec
  import opened Entries

  /** The records of one key log, in file order; a trailing partial record is not one. */
  function DecodeLog(log: seq<u8>): (r: seq<Entry>)
    ensures |r| == |log| / KEY_AND_OFF_LEN
  {
    seq(|log| / KEY_AND_OFF_LEN, j requires 0 <= j < |log| / KEY_AND_OFF_LEN =>
      DecodeRecord(log, KEY_AND_OFF_LEN * j))
  }

  /** The records of all key logs, shard after shard. */
  function Records(logs: seq<seq<u8>>): seq<Entry>
    decreases |logs|
  {
    if |logs| == 0 then [] else Records(logs[..|logs| - 1]) + DecodeLog(logs[|logs| - 1])
  }

  /** The number of whole records in all key logs: the sum of `size / 12`. */
  function RecordCount(logs: seq<seq<u8>>): nat
    decreases |logs|
  {
    if |logs| == 0 then 0 else RecordCount(logs[..|logs| - 1]) + |logs[|logs| - 1]| / KEY_AND_OFF_LEN
  }

  /** Every key log holds whole records only. */
  predicate WholeRecords(logs: seq<seq<u8>>) {
    forall i :: 0 <= i < |logs| ==> |logs[i]| % KEY_AND_OFF_LEN == 0
  }

  /** `s` starts with `c` and agrees with `s0` after it. */
  predicate FilledWith(s: seq<Entry>, s0: seq<Entry>, c: seq<Entry>) {
    |s| == |s0| && |c| <= |s| && s[..|c|] == c && s[|c|..] == s0[|c|..]
  }

  lemma FillStep(s: seq<Entry>, s0: seq<Entry>, c: seq<Entry>, e: Entry)
    requires FilledWith(s, s0, c) && |c| < |s|
    ensures FilledWith(s[|c| := e], s0, c + [e])
  {
    var t := s[|c| := e];
    assert t[..|c| + 1] == s[..|c|] + [e];
    assert t[|c| + 1..] == s[|c| + 1..];
  }

  /** The number of records is the sum of the shard sizes over 12. */
  lemma {:induction false} RecordsLength(logs: seq<seq<u8>>)
    ensures |Records(logs)| == RecordCount(logs)
    decreases |logs|
  {
    if |logs| > 0 {
      RecordsLength(logs[..|logs| - 1]);
    }
  }

  lemma PrefixStep(logs: seq<seq<u8>>, i: int)
    requires 0 <= i < |logs|
    ensures Records(logs[..i + 1]) == Records(logs[..i]) + DecodeLog(logs[i])
  {
    assert logs[..i + 1][..i] == logs[..i];
  }

  /** The records of two runs of shards, one after the other. */
  lemma {:induction false} RecordsConcat(a: seq<seq<u8>>, b: seq<seq<u8>>)
    ensures Records(a + b) == Records(a) + Records(b)
    decreases |b|
  {
    if |b| == 0 {
      assert a + b == a;
    } else {
      var b' := b[..|b| - 1];
      RecordsConcat(a, b');
      assert (a + b)[..|a + b| - 1] == a + b';
    }
  }

  /** Shard `i`'s records start right after the records of shards `0 .. i-1`. */
  lemma RecordsSplit(logs: seq<seq<u8>>, i: int)
    requires 0 <= i < |logs|
    ensures Records(logs) == Records(logs[..i]) + DecodeLog(logs[i]) + Records(logs[i + 1..])
  {
    assert logs == logs[..i + 1] + logs[i + 1..];
    RecordsConcat(logs[..i + 1], logs[i + 1..]);
    PrefixStep(logs, i);
  }

  /**
   * The load's placement: record `j` of shard `i` lands at position `prefix_i + j`, where
   * `prefix_i` counts the records of the shards before `i`.
   */
  lemma RecordsPlacement(logs: seq<seq<u8>>, i: int, j: int)
    requires 0 <= i < |logs| && 0 <= j < |logs[i]| / KEY_AND_OFF_LEN
    ensures |Records(logs)| == RecordCount(logs) && RecordCount(logs[..i]) + j < RecordCount(logs)
    ensures Records(logs)[RecordCount(logs[..i]) + j] == DecodeRecord(logs[i], KEY_AND_OFF_LEN * j)
  {
    RecordsSplit(logs, i);
    RecordsLength(logs);
    RecordsLength(logs[..i]);
  }

  /** The records of the shards before `i`, plus shard `i`'s, are among all records. */
  lemma PrefixCountBound(logs: seq<seq<u8>>, i: int)
    requires 0 <= i < |logs|
    ensures RecordCount(logs[..i]) + |logs[i]| / KEY_AND_OFF_LEN <= RecordCount(logs)
  {
    RecordsSplit(logs, i);
    RecordsLength(logs);
    RecordsLength(logs[..i]);
  }

  /** A record inside `log` decodes the same after anything is appended to `log`. */
  lemma DecodeRecordExtend(log: seq<u8>, x: seq<u8>, at: int)
    requires 0 <= at && at + KEY_AND_OFF_LEN <= |log|
    ensures DecodeRecord(log + x, at) == DecodeRecord(log, at)
  {
    assert (log + x)[at..at + KEY_LEN] == log[at..at + KEY_LEN];
    assert (log + x)[at + KEY_LEN..at + KEY_AND_OFF_LEN] == log[at + KEY_LEN..at + KEY_AND_OFF_LEN];
  }

  /** Appending one encoded record to a whole-record log adds that record at its end. */
  lemma DecodeLogAppend(log: seq<u8>, e: Entry)
    requires |log| % KEY_AND_OFF_LEN == 0
    ensures DecodeLog(log + EncodeRecord(e)) == DecodeLog(log) + [e]
  {
    var log' := log + EncodeRecord(e);
    var n := |log| / KEY_AND_OFF_LEN;
    assert |log| == KEY_AND_OFF_LEN * n;
    assert |log'| == KEY_AND_OFF_LEN * (n + 1);
    var d, d' := DecodeLog(log), DecodeLog(log');
    assert |d'| == n + 1;
    forall j | 0 <= j < n
      ensures d'[j] == d[j]
    {
      DecodeRecordExtend(log, EncodeRecord(e), KEY_AND_OFF_LEN * j);
    }
    DecodeEncodeRecord(log, e, []);
    assert log + EncodeRecord(e) + [] == log';
    assert d'[n] == e;
    assert d' == d + [e];
  }

  /** The records after appending to shard `s`, as three pieces. */
  lemma AppendSplit(logs: seq<seq<u8>>, s: int, e: Entry)
    requires 0 <= s < |logs| && |logs[s]| % KEY_AND_OFF_LEN == 0
    ensures Records(logs[s := logs[s] + EncodeRecord(e)])
      == Records(logs[..s]) + (DecodeLog(logs[s]) + [e]) + Records(logs[s + 1..])
  {
    var logs' := logs[s := logs[s] + EncodeRecord(e)];
    RecordsSplit(logs', s);
    assert logs'[..s] == logs[..s];
    assert logs'[s + 1..] == logs[s + 1..];
    DecodeLogAppend(logs[s], e);
  }

  /**
   * Appending a record to shard `s` adds exactly that record to the records of all shards:
   * the key log is append-only and nothing recorded before is lost.
   */
  lemma RecordsAppend(logs: seq<seq<u8>>, s: int, e: Entry)
    requires 0 <= s < |logs| && |logs[s]| % KEY_AND_OFF_LEN == 0
    ensures multiset(Records(logs[s := logs[s] + EncodeRecord(e)])) == multiset(Records(logs)) + multiset{e}
  {
    RecordsSplit(logs, s);
    AppendSplit(logs, s, e);
    var a, b, c := Records(logs[..s]), DecodeLog(logs[s]), Records(logs[s + 1..]);
    assert multiset(a + (b + [e]) + c) == multiset(a) + multiset(b) + multiset{e} + multiset(c);
  }

  /** After appending to shard `s`, a record is recorded iff it was before or it is the new one. */
  lemma RecordsAppendMember(logs: seq<seq<u8>>, s: int, e: Entry)
    requires 0 <= s < |logs| && |logs[s]| % KEY_AND_OFF_LEN == 0
    ensures forall r :: r in Records(logs[s := logs[s] + EncodeRecord(e)]) <==> r in Records(logs) || r == e
  {
    var logs' := logs[s := logs[s] + EncodeRecord(e)];
    RecordsAppend(logs, s, e);
    forall r
      ensures r in Records(logs') <==> r in Records(logs) || r == e
    {
      assert r in Records(logs') <==> r in multiset(Records(logs'));
      assert r in Records(logs) <==> r in multiset(Records(logs));
    }
  }

  /** One more record keeps every log whole and every recorded slot in range. */
  lemma AppendKeepsWhole(logs: seq<seq<u8>>, s: int, e: Entry)
    requires 0 <= s < |logs| && WholeRecords(logs)
    ensures WholeRecords(logs[s := logs[s] + EncodeRecord(e)])
  {
  }

  /** One step of the inner load loop: record `k` of `log` goes to the next free position. */
  lemma LoadStep(s: seq<Entry>, s0: seq<Entry>, done: seq<Entry>, log: seq<u8>, k: int)
    requires 0 <= k < |log| / KEY_AND_OFF_LEN && |done| + k < |s|
    requires FilledWith(s, s0, done + DecodeLog(log)[..k])
    ensures FilledWith(s[|done| + k := DecodeRecord(log, KEY_AND_OFF_LEN * k)], s0, done + DecodeLog(log)[..k + 1])
  {
    var e := DecodeRecord(log, KEY_AND_OFF_LEN * k);
    assert DecodeLog(log)[..k + 1] == DecodeLog(log)[..k] + [e];
    FillStep(s, s0, done + DecodeLog(log)[..k], e);
    assert done + DecodeLog(log)[..k] + [e] == done + DecodeLog(log)[..k + 1];
  }

  /** After the inner loop, shard `i` is loaded and the prefix covers shards `0 .. i`. */
  lemma ShardLoaded(s: seq<Entry>, s0: seq<Entry>, logs: seq<seq<u8>>, i: int)
    requires 0 <= i < |logs|
    requires FilledWith(s, s0, Records(logs[..i]) + DecodeLog(logs[i])[..|logs[i]| / KEY_AND_OFF_LEN])
    ensures FilledWith(s, s0, Records(logs[..i + 1]))
    ensures RecordCount(logs[..i + 1]) == RecordCount(logs[..i]) + |logs[i]| / KEY_AND_OFF_LEN
  {
    PrefixStep(logs, i);
    assert DecodeLog(logs[i])[..|logs[i]| / KEY_AND_OFF_LEN] == DecodeLog(logs[i]);
    assert logs[..i + 1][..i] == logs[..i];
  }

  /**
   * The shard-load loop: shard by shard, the records of every non-empty log are decoded
   * with `getLong`/`getInt` into the next free positions, `total` growing by `size / 12`
   * per shard. The loaded prefix is the records of all logs in shard order; the rest of
   * the arrays is untouched.
   */
  method LoadShards(keys: array<i64>, offs: array<i32>, logs: seq<seq<u8>>) returns (total: int)
    requires keys.Length == offs.Length
    requires WholeRecords(logs) && RecordCount(logs) <= keys.Length
    modifies keys, offs
    ensures total == RecordCount(logs)
    ensures Zip(keys[..], offs[..])[..total] == Records(logs)
    ensures Zip(keys[..], offs[..])[total..] == old(Zip(keys[..], offs[..]))[total..]
  {
    ghost var s0 := Zip(keys[..], offs[..]);
    total := 0;
    var i := 0;
    while i < |logs|
      invariant 0 <= i <= |logs|
      invariant total == RecordCount(logs[..i]) == |Records(logs[..i])|
      invariant FilledWith(Zip(keys[..], offs[..]), s0, Records(logs[..i]))
    {
      PrefixCountBound(logs, i);
      ghost var done := Records(logs[..i]);
      var size := |logs[i]|;
      var temp := total;
      if size != 0 {
        total := total + size / KEY_AND_OFF_LEN;
        var start := 0;
        var n := temp;
        ghost var k := 0;
        while start < size
          invariant 0 <= k <= size / KEY_AND_OFF_LEN && start == KEY_AND_OFF_LEN * k
          invariant n == temp + k
          invariant FilledWith(Zip(keys[..], offs[..]), s0, done + DecodeLog(logs[i])[..k])
        {
          var at := start;
          start := start + KEY_AND_OFF_LEN;
          var e := DecodeRecord(logs[i], at);
          LoadStep(Zip(keys[..], offs[..]), s0, done, logs[i], k);
          ZipUpdate(keys[..], offs[..], n, e);
          keys[n] := e.key;
          offs[n] := e.off;
          n := n + 1;
          k := k + 1;
        }
      }
      ShardLoaded(Zip(keys[..], offs[..]), s0, logs, i);
      RecordsLength(logs[..i + 1]);
      i := i + 1;
    }
    assert logs[..i] == logs;
  }
}
