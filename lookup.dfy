/**
 * What getKey computes, as a reference definition independent of the binary search: the
 * offset of the first index entry carrying the key, or -1 when no entry does.
 */
module Lookup {
  import opened Types
  import opened Entries

  function LookupOff(index: seq<Entry>, k: i64): int
    decreases |index|
  {
    if |index| == 0 then -1
    else if index[0].key == k then index[0].off as int
    else LookupOff(index[1..], k)
  }

  /** On a strictly increasing index, the entry carrying the key gives the offset. */
  lemma {:induction false} LookupFound(index: seq<Entry>, k: i64, j: int)
    requires StrictlyIncreasing(index) && 0 <= j < |index| && index[j].key == k
    ensures LookupOff(index, k) == index[j].off as int
    decreases |index|
  {
    if j > 0 {
      assert index[0].key < index[j].key;
      assert index[1..][j - 1] == index[j];
      LookupFound(index[1..], k, j - 1);
    }
  }

  /** Without an entry carrying the key the lookup answers -1. */
  lemma {:induction false} LookupMissing(index: seq<Entry>, k: i64)
    requires forall j :: 0 <= j < |index| ==> index[j].key != k
    ensures LookupOff(index, k) == -1
    decreases |index|
  {
    if |index| > 0 {
      assert forall j :: 0 <= j < |index[1..]| ==> index[1..][j] == index[j + 1];
      LookupMissing(index[1..], k);
    }
  }

  /** Any answer other than -1 is the offset of an entry carrying the key. */
  lemma {:induction false} LookupHit(index: seq<Entry>, k: i64) returns (j: int)
    requires LookupOff(index, k) != -1
    ensures 0 <= j < |index| && index[j].key == k && index[j].off as int == LookupOff(index, k)
    decreases |index|
  {
    if index[0].key == k {
      j := 0;
    } else {
      var j' := LookupHit(index[1..], k);
      j := j' + 1;
    }
  }

  /**
   * On an index built from `records`, the lookup of a key answers the largest slot any
   * record of that key names: the one of the record `e` no other record of its key exceeds.
   */
  lemma IndexedLatest(index: seq<Entry>, records: seq<Entry>, e: Entry)
    requires IndexFor(index, records) && e in records
    requires forall r :: r in records && r.key == e.key ==> r.off <= e.off
    ensures LookupOff(index, e.key) == e.off as int
  {
    assert Covers(index, e);
    var j :| 0 <= j < |index| && index[j].key == e.key && e.off <= index[j].off;
    assert index[j] in records;
    LookupFound(index, e.key, j);
  }

  /** An index built from no records is empty, so every lookup misses. */
  lemma EmptyIndex(index: seq<Entry>, k: i64)
    requires IndexFor(index, [])
    ensures index == [] && LookupOff(index, k) == -1
  {
  }
}
