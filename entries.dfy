/**
 * The key index as a sequence of (key, offset) entries: the order the heap sort
 * establishes, the duplicate collapse of handleDuplicate as a function, and what the
 * finished index means with respect to the key records it was built from.
 */
module Entries {
  import opened Types

  /**
   * The sort order of the index: ascending signed key and, for equal keys, the larger
   * offset first. It is total, and `Le(a, b) && Le(b, a)` only when `a == b`.
   */
  predicate Le(a: Entry, b: Entry) {
    a.key < b.key || (a.key == b.key && a.off >= b.off)
  }

  /** The parallel arrays `keys`/`offs` read as one sequence of entries. */
  function Zip(ks: seq<i64>, os: seq<i32>): seq<Entry>
    requires |ks| == |os|
  {
    seq(|ks|, i requires 0 <= i < |ks| => Entry(ks[i], os[i]))
  }

  /** Writing one entry into both parallel arrays updates one position of their zip. */
  lemma ZipUpdate(ks: seq<i64>, os: seq<i32>, m: int, e: Entry)
    requires |ks| == |os| && 0 <= m < |ks|
    ensures Zip(ks[m := e.key], os[m := e.off]) == Zip(ks, os)[m := e]
  {
  }

  /** The zip of two equal prefixes is the prefix of the zip. */
  lemma ZipPrefix(ks: seq<i64>, os: seq<i32>, n: int)
    requires |ks| == |os| && 0 <= n <= |ks|
    ensures Zip(ks[..n], os[..n]) == Zip(ks, os)[..n]
  {
  }

  predicate Sorted(s: seq<Entry>) {
    forall i, j :: 0 <= i < j < |s| ==> Le(s[i], s[j])
  }

  predicate StrictlyIncreasing(s: seq<Entry>) {
    forall i, j :: 0 <= i < j < |s| ==> s[i].key < s[j].key
  }

  /** `t` is `s` with its first `n` entries rearranged and the others untouched. */
  predicate PermutedPrefix(t: seq<Entry>, s: seq<Entry>, n: int) {
    |t| == |s| && 0 <= n <= |s| && multiset(t[..n]) == multiset(s[..n]) && t[n..] == s[n..]
  }

  /** Entry `i` starts a run of equal keys. */
  predicate IsRunStart(s: seq<Entry>, i: int)
    requires 0 <= i < |s|
  {
    i == 0 || s[i - 1].key != s[i].key
  }

  /** `e` is the entry that starts some run of `s`. */
  ghost predicate IsRunHead(s: seq<Entry>, e: Entry) {
    exists i :: 0 <= i < |s| && e == s[i] && IsRunStart(s, i)
  }

  /** `index` holds the key of `e` with an offset at least `e`'s. */
  ghost predicate Covers(index: seq<Entry>, e: Entry) {
    exists j :: 0 <= j < |index| && index[j].key == e.key && e.off <= index[j].off
  }

  /** handleDuplicate as a function: keep the first entry of every run of equal keys. */
  function Dedup(s: seq<Entry>): seq<Entry>
    decreases |s|
  {
    if |s| == 0 then []
    else if |s| >= 2 && s[|s| - 1].key == s[|s| - 2].key then Dedup(s[..|s| - 1])
    else Dedup(s[..|s| - 1]) + [s[|s| - 1]]
  }

  /**
   * The index built from a collection of key records: keys strictly increasing, every
   * entry is one of the records, every record's key is present, and the entry kept for a
   * key carries the largest offset recorded for that key.
   */
  ghost predicate IndexFor(index: seq<Entry>, records: seq<Entry>) {
    StrictlyIncreasing(index)
    && (forall j :: 0 <= j < |index| ==> index[j] in records)
    && (forall e :: e in records ==> Covers(index, e))
  }

  /** Collapsing a non-empty run keeps between one and all entries, the last key included. */
  lemma {:induction false} DedupBounds(s: seq<Entry>)
    ensures |Dedup(s)| <= |s|
    ensures |s| > 0 ==> 1 <= |Dedup(s)| && Dedup(s)[|Dedup(s)| - 1].key == s[|s| - 1].key
    decreases |s|
  {
    if |s| > 0 {
      var p := s[..|s| - 1];
      DedupBounds(p);
    }
  }

  /** Every kept entry is the start of a run of the input. */
  lemma {:induction false} DedupKeepsOnlyRunStarts(s: seq<Entry>)
    ensures forall j :: 0 <= j < |Dedup(s)| ==> IsRunHead(s, Dedup(s)[j])
    decreases |s|
  {
    if |s| > 0 {
      var p := s[..|s| - 1];
      DedupKeepsOnlyRunStarts(p);
      var last := |s| - 1;
      var collapsed := |s| >= 2 && s[last].key == s[last - 1].key;
      assert Dedup(s) == if collapsed then Dedup(p) else Dedup(p) + [s[last]];
      forall j | 0 <= j < |Dedup(s)|
        ensures IsRunHead(s, Dedup(s)[j])
      {
        if j < |Dedup(p)| {
          var i :| 0 <= i < |p| && Dedup(p)[j] == p[i] && IsRunStart(p, i);
          assert Dedup(s)[j] == Dedup(p)[j];
          assert p[i] == s[i] && (i > 0 ==> p[i - 1] == s[i - 1]);
          assert Dedup(s)[j] == s[i] && IsRunStart(s, i);
          assert IsRunHead(p, Dedup(p)[j]);
        } else {
          assert !collapsed && Dedup(s)[j] == s[last];
          assert IsRunStart(s, last);
        }
      }
    }
  }

  /** Every start of a run of the input is kept. */
  lemma {:induction false} DedupKeepsRunStarts(s: seq<Entry>)
    ensures forall i :: 0 <= i < |s| && IsRunStart(s, i) ==> s[i] in Dedup(s)
    decreases |s|
  {
    if |s| > 0 {
      var p := s[..|s| - 1];
      DedupKeepsRunStarts(p);
      forall i | 0 <= i < |s| && IsRunStart(s, i)
        ensures s[i] in Dedup(s)
      {
        if i < |p| {
          assert IsRunStart(p, i) && p[i] == s[i];
        }
      }
    }
  }

  /** On keys in non-decreasing order the collapsed keys strictly increase. */
  lemma {:induction false} DedupStrictlyIncreasing(s: seq<Entry>)
    requires forall i, j :: 0 <= i < j < |s| ==> s[i].key <= s[j].key
    ensures StrictlyIncreasing(Dedup(s))
    decreases |s|
  {
    if |s| > 0 {
      var p := s[..|s| - 1];
      DedupStrictlyIncreasing(p);
      DedupBounds(p);
      DedupKeepsOnlyRunStarts(p);
      if !(|s| >= 2 && s[|s| - 1].key == s[|s| - 2].key) {
        forall j | 0 <= j < |Dedup(p)|
          ensures Dedup(p)[j].key < s[|s| - 1].key
        {
          var i :| 0 <= i < |p| && Dedup(p)[j] == p[i] && IsRunStart(p, i);
          assert s[i].key <= s[|s| - 2].key;
        }
      }
    }
  }

  /** The run containing entry `i` starts at some `i0 <= i` with the same key. */
  lemma {:induction false} RunStartOf(s: seq<Entry>, i: int) returns (i0: int)
    requires 0 <= i < |s|
    ensures 0 <= i0 <= i && IsRunStart(s, i0) && s[i0].key == s[i].key
    decreases i
  {
    if IsRunStart(s, i) {
      i0 := i;
    } else {
      i0 := RunStartOf(s, i - 1);
    }
  }

  /** Every entry of the collapsed sorted records is one of the records. */
  lemma IndexEntriesAreRecords(records: seq<Entry>, sorted: seq<Entry>)
    requires multiset(sorted) == multiset(records)
    ensures forall j :: 0 <= j < |Dedup(sorted)| ==> Dedup(sorted)[j] in records
  {
    DedupKeepsOnlyRunStarts(sorted);
    forall j | 0 <= j < |Dedup(sorted)|
      ensures Dedup(sorted)[j] in records
    {
      var i :| 0 <= i < |sorted| && Dedup(sorted)[j] == sorted[i] && IsRunStart(sorted, i);
      assert sorted[i] in multiset(records);
    }
  }

  /** Every record's key is kept, with an offset at least the record's. */
  lemma IndexCoversRecords(records: seq<Entry>, sorted: seq<Entry>)
    requires Sorted(sorted) && multiset(sorted) == multiset(records)
    ensures forall e :: e in records ==> Covers(Dedup(sorted), e)
  {
    var index := Dedup(sorted);
    DedupKeepsRunStarts(sorted);
    forall e | e in records
      ensures Covers(index, e)
    {
      assert e in multiset(sorted);
      var i :| 0 <= i < |sorted| && sorted[i] == e;
      var i0 := RunStartOf(sorted, i);
      assert i0 < i ==> Le(sorted[i0], sorted[i]);
      assert sorted[i0] in index;
      var j :| 0 <= j < |index| && index[j] == sorted[i0];
    }
  }

  /**
   * Sorting the records and collapsing duplicates builds their index: the surviving
   * entry of a key is the one with the largest offset recorded for it.
   */
  lemma IndexOfSorted(records: seq<Entry>, sorted: seq<Entry>)
    requires Sorted(sorted) && multiset(sorted) == multiset(records)
    ensures IndexFor(Dedup(sorted), records)
  {
    DedupStrictlyIncreasing(sorted);
    IndexEntriesAreRecords(records, sorted);
    IndexCoversRecords(records, sorted);
  }

  /** At most one index entry carries a given key. */
  lemma StrictKeysUnique(s: seq<Entry>, i: int, j: int)
    requires StrictlyIncreasing(s) && 0 <= i < |s| && 0 <= j < |s|
    requires s[i].key == s[j].key
    ensures i == j
  {
  }

  /** Only entry `i` of a strictly increasing index carries its key. */
  lemma StrictKeysUniqueAll(s: seq<Entry>, i: int)
    requires StrictlyIncreasing(s) && 0 <= i < |s|
    ensures forall j :: 0 <= j < |s| && s[j].key == s[i].key ==> j == i
  {
    forall j | 0 <= j < |s| && s[j].key == s[i].key
      ensures j == i
    {
      StrictKeysUnique(s, i, j);
    }
  }
}
