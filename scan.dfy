/**
 * The index walk of `range`: the for-loop takes the key at `i` as the head of a run,
 * the inner while-loop visits every following entry whose key falls in the head's
 * (value file, block) and then the for-loop's own `++i` moves on. A visit is reported as
 * the key handed to the visitor and the index whose value slot is read.
 */
module Scan {
  import opened Types
  import opened Layout
  import opened Entries

  datatype Visit = Visit(key: i64, index: int)

  /** Two keys whose values live in the same block of the same value file. */
  predicate SameBlock(a: i64, b: i64) {
    ValueFileHash(a) == ValueFileHash(b) && ValueBlockHash(a) == ValueBlockHash(b)
  }

  /** Where the inner loop started at `i` stops: the first index at or after `i` outside the head's block. */
  function RunEnd(s: seq<Entry>, i: int, head: i64): (e: int)
    requires 0 <= i <= |s|
    ensures i <= e <= |s|
    ensures forall j :: i <= j < e ==> SameBlock(s[j].key, head)
    ensures e < |s| ==> !SameBlock(s[e].key, head)
    decreases |s| - i
  {
    if i == |s| || !SameBlock(s[i].key, head) then i else RunEnd(s, i + 1, head)
  }

  /** The visits of one inner run: indices `i .. e-1`, each reported with the run head's key. */
  function RunVisits(head: i64, i: int, e: int): (r: seq<Visit>)
    requires i <= e
    ensures |r| == e - i
    ensures forall j :: 0 <= j < |r| ==> r[j] == Visit(head, i + j)
  {
    seq(e - i, j requires 0 <= j < e - i => Visit(head, i + j))
  }

  /** The visits of the walk from `i` on, as `range` makes them. */
  function Walk(s: seq<Entry>, i: int): seq<Visit>
    requires 0 <= i
    decreases |s| - i
  {
    if i >= |s| then []
    else
      var e := RunEnd(s, i, s[i].key);
      RunVisits(s[i].key, i, e) + Walk(s, e + 1)
  }

  /** Entering a run at head `i`: the walk from `i` is the run, then the walk past its end. */
  lemma RunEntry(s: seq<Entry>, pre: seq<Visit>, i: int, head: i64, e: int, total: seq<Visit>)
    requires 0 <= i < |s| && s[i].key == head && e == RunEnd(s, i, head)
    requires pre + Walk(s, i) == total
    ensures (pre + RunVisits(head, i, e)) + Walk(s, e + 1) == total
  {
  }

  /** A run's visits grow by one visit at its end. */
  lemma RunVisitsSnoc(head: i64, i: int, j: int)
    requires i <= j
    ensures RunVisits(head, i, j + 1) == RunVisits(head, i, j) + [Visit(head, j)]
  {
  }

  /** Leaving a run at its end `e`: what is left is the walk from `next`, just past it. */
  lemma RunExit(s: seq<Entry>, done: seq<Visit>, e: int, next: int, total: seq<Visit>)
    requires 0 <= e && next == e + 1 && done + Walk(s, e + 1) == total
    ensures done + Walk(s, next) == total
  {
  }

  /** The walk the full scan is meant to make: every index once, with its own key. */
  function FullScan(s: seq<Entry>): (r: seq<Visit>)
    ensures |r| == |s|
    ensures forall j :: 0 <= j < |s| ==> r[j] == Visit(s[j].key, j)
  {
    seq(|s|, j requires 0 <= j < |s| => Visit(s[j].key, j))
  }

  /** A run never ends at its own head. */
  lemma RunNonEmpty(s: seq<Entry>, i: int)
    requires 0 <= i < |s|
    ensures i < RunEnd(s, i, s[i].key)
  {
  }

  /** The walk visits strictly increasing indices, all in `[i, |s|)`. */
  lemma {:induction false} WalkIndices(s: seq<Entry>, i: int)
    requires 0 <= i
    ensures forall a :: 0 <= a < |Walk(s, i)| ==> i <= Walk(s, i)[a].index < |s|
    ensures forall a, b :: 0 <= a < b < |Walk(s, i)| ==> Walk(s, i)[a].index < Walk(s, i)[b].index
    decreases |s| - i
  {
    if i < |s| {
      var e := RunEnd(s, i, s[i].key);
      WalkIndices(s, e + 1);
      var r, w := RunVisits(s[i].key, i, e), Walk(s, e + 1);
      assert Walk(s, i) == r + w;
    }
  }

  /** Index `x` lies in the run the inner loop makes when started at head `h`. */
  predicate InRunOf(s: seq<Entry>, h: int, x: int) {
    0 <= h <= x < |s| && x < RunEnd(s, h, s[h].key)
  }

  /** Visit `v` reports the key of the head of a run, at or after `i`, that contains the index it reads. */
  ghost predicate ReportsRunHead(s: seq<Entry>, i: int, v: Visit) {
    exists h :: i <= h && InRunOf(s, h, v.index) && v.key == s[h].key
  }

  /**
   * Every visit reads an entry in the run of some head and reports that head's key, not
   * the key of the entry read (line 257 passes `key`, fixed when the run started).
   */
  lemma {:induction false} WalkReportsRunHead(s: seq<Entry>, i: int)
    requires 0 <= i
    ensures forall a :: 0 <= a < |Walk(s, i)| ==> ReportsRunHead(s, i, Walk(s, i)[a])
    decreases |s| - i
  {
    if i < |s| {
      var e := RunEnd(s, i, s[i].key);
      WalkReportsRunHead(s, e + 1);
      var r, w := RunVisits(s[i].key, i, e), Walk(s, e + 1);
      assert Walk(s, i) == r + w;
      forall a | 0 <= a < |Walk(s, i)|
        ensures ReportsRunHead(s, i, Walk(s, i)[a])
      {
        if a < |r| {
          assert Walk(s, i)[a] == Visit(s[i].key, i + a);
          assert InRunOf(s, i, i + a);
        } else {
          assert Walk(s, i)[a] == w[a - |r|];
          assert ReportsRunHead(s, e + 1, w[a - |r|]);
        }
      }
    }
  }

  /** Every index in the run of a head holds a key in the head's block. */
  lemma InRunSameBlock(s: seq<Entry>, h: int, x: int)
    requires InRunOf(s, h, x)
    ensures SameBlock(s[x].key, s[h].key)
  {
  }

  /** The entry right after a run that ends before the end of the index is not visited. */
  lemma SkipsAfterRun(s: seq<Entry>, i: int)
    requires 0 <= i < |s| && RunEnd(s, i, s[i].key) < |s|
    ensures forall a :: 0 <= a < |Walk(s, i)| ==> Walk(s, i)[a].index != RunEnd(s, i, s[i].key)
  {
    var e := RunEnd(s, i, s[i].key);
    WalkIndices(s, e + 1);
    var r, w := RunVisits(s[i].key, i, e), Walk(s, e + 1);
    assert Walk(s, i) == r + w;
    forall a | 0 <= a < |Walk(s, i)|
      ensures Walk(s, i)[a].index != e
    {
      if a >= |r| {
        assert Walk(s, i)[a] == w[a - |r|];
      }
    }
  }

  /** The full scan visits indices in order and, on a strictly increasing index, keys in order. */
  lemma FullScanOrdered(s: seq<Entry>)
    requires StrictlyIncreasing(s)
    ensures forall a, b :: 0 <= a < b < |s| ==> FullScan(s)[a].key < FullScan(s)[b].key
    ensures forall a :: 0 <= a < |s| ==> FullScan(s)[a].key == s[a].key
  {
  }

  /**
   * Two keys in different value files: the walk visits the first and skips the second,
   * which the full scan visits.
   */
  lemma WalkSkipsSecondBlock()
    ensures Walk([Entry(0, 0), Entry(0x0100_0000_0000_0000, 0)], 0) == [Visit(0, 0)]
    ensures FullScan([Entry(0, 0), Entry(0x0100_0000_0000_0000, 0)])
      == [Visit(0, 0), Visit(0x0100_0000_0000_0000, 1)]
  {
    var s := [Entry(0, 0), Entry(0x0100_0000_0000_0000, 0)];
    assert ValueFileHash(0x0100_0000_0000_0000) == 1;
    assert RunEnd(s, 0, 0) == 1;
    assert Walk(s, 2) == [];
  }

  /**
   * Two keys in the same block: the walk visits both entries but reports the first key
   * for both, so the second key is never handed to the visitor.
   */
  lemma WalkRepeatsRunHeadKey()
    ensures Walk([Entry(0, 0), Entry(1, 1)], 0) == [Visit(0, 0), Visit(0, 1)]
    ensures FullScan([Entry(0, 0), Entry(1, 1)]) == [Visit(0, 0), Visit(1, 1)]
  {
    var s := [Entry(0, 0), Entry(1, 1)];
    assert SameBlock(1, 0);
    assert RunEnd(s, 0, 0) == 2;
    assert Walk(s, 3) == [];
  }
}
