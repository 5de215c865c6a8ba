/**
 * Slot bookkeeping: which value slots the index and the key logs refer to, and the slot
 * counter a (value file, block) pair needs so that the next write claims a slot nobody
 * refers to yet.
 */
module Slots {
  import opened Types
  import opened Layout
  import opened Entries

  /** Every entry names one of the `MAX_NUM_PER_BLOCK` slots of a block. */
  predicate OffsInRange(s: seq<Entry>) {
    forall e :: e in s ==> 0 <= e.off as int < MAX_NUM_PER_BLOCK
  }

  /** The entry's value lives in block `b` of value file `f`. */
  predicate InBlock(e: Entry, f: int, b: int) {
    ValueFileHash(e.key) == f && ValueBlockHash(e.key) == b
  }

  /** One past the largest slot of block `(f, b)` named by `s`; 0 when none is. */
  function NextSlot(s: seq<Entry>, f: int, b: int): (c: int)
    ensures 0 <= c
    decreases |s|
  {
    if |s| == 0 then 0
    else
      var last := s[|s| - 1];
      var here := if InBlock(last, f, b) then last.off as int + 1 else 0;
      var before := NextSlot(s[..|s| - 1], f, b);
      if here > before then here else before
  }

  /** `NextSlot` over one more entry. */
  lemma NextSlotStep(s: seq<Entry>, j: int, f: int, b: int)
    requires 0 <= j < |s|
    ensures NextSlot(s[..j + 1], f, b)
      == if InBlock(s[j], f, b) && s[j].off as int + 1 > NextSlot(s[..j], f, b)
         then s[j].off as int + 1 else NextSlot(s[..j], f, b)
  {
    assert s[..j + 1][..j] == s[..j];
  }

  /** Every entry of `s` names a slot below the counter `NextSlot` gives its block. */
  lemma {:induction false} NextSlotAbove(s: seq<Entry>, j: int)
    requires 0 <= j < |s|
    ensures s[j].off as int < NextSlot(s, ValueFileHash(s[j].key), ValueBlockHash(s[j].key))
    decreases |s|
  {
    if j < |s| - 1 {
      assert s[..|s| - 1][j] == s[j];
      NextSlotAbove(s[..|s| - 1], j);
    }
  }

  /** With every slot in range, the counter never passes the number of slots of a block. */
  lemma {:induction false} NextSlotBounded(s: seq<Entry>, f: int, b: int)
    requires OffsInRange(s)
    ensures NextSlot(s, f, b) <= MAX_NUM_PER_BLOCK
    decreases |s|
  {
    if |s| > 0 {
      assert s[|s| - 1] in s;
      assert OffsInRange(s[..|s| - 1]) by {
        forall e | e in s[..|s| - 1] ensures e in s {
        }
      }
      NextSlotBounded(s[..|s| - 1], f, b);
    }
  }

  /** Rearranging a prefix keeps every entry in range. */
  lemma OffsInRangePermuted(t: seq<Entry>, s: seq<Entry>, n: int)
    requires PermutedPrefix(t, s, n) && OffsInRange(s)
    ensures OffsInRange(t)
  {
    forall e | e in t
      ensures 0 <= e.off as int < MAX_NUM_PER_BLOCK
    {
      assert t == t[..n] + t[n..];
      if e in t[..n] {
        assert e in multiset(s[..n]);
        assert e in s[..n];
        assert s == s[..n] + s[n..];
      } else {
        assert e in s[n..];
        assert s == s[..n] + s[n..];
      }
    }
  }

  /** The entries `Dedup` keeps are entries of its input. */
  lemma DedupSubset(s: seq<Entry>)
    ensures forall e :: e in Dedup(s) ==> e in s
  {
    DedupKeepsOnlyRunStarts(s);
    forall e | e in Dedup(s)
      ensures e in s
    {
      var j :| 0 <= j < |Dedup(s)| && Dedup(s)[j] == e;
      assert IsRunHead(s, Dedup(s)[j]);
    }
  }

  /** Compacting a prefix keeps every entry in range. */
  lemma OffsInRangeCompacted(t: seq<Entry>, s: seq<Entry>, n: int, c: int)
    requires |t| == |s| && 0 <= c <= |t| && 0 <= n <= |s| && OffsInRange(s)
    requires t[..c] == Dedup(s[..n]) && t[c..] == s[c..]
    ensures OffsInRange(t)
  {
    DedupSubset(s[..n]);
    assert t == t[..c] + t[c..];
    assert s == s[..n] + s[n..];
    assert s == s[..c] + s[c..];
  }

  /** Filling a prefix with in-range entries keeps every entry in range. */
  lemma OffsInRangeFilled(t: seq<Entry>, s: seq<Entry>, c: seq<Entry>)
    requires |t| == |s| && |c| <= |t| && t[..|c|] == c && t[|c|..] == s[|c|..]
    requires OffsInRange(c) && OffsInRange(s)
    ensures OffsInRange(t)
  {
    assert t == c + t[|c|..];
    assert s == s[..|c|] + s[|c|..];
  }

  /** Slots of different blocks, or different slots of one block, never share a position. */
  lemma SlotPositionsDiffer(b1: int, o1: int, b2: int, o2: int)
    requires 0 <= b1 < BLOCK_NUM && 0 <= o1 < MAX_NUM_PER_BLOCK
    requires 0 <= b2 < BLOCK_NUM && 0 <= o2 < MAX_NUM_PER_BLOCK
    ensures SlotPosition(b1, o1) == SlotPosition(b2, o2) <==> b1 == b2 && o1 == o2
  {
    if (b1, o1) != (b2, o2) {
      SlotsDisjoint(b1, o1, b2, o2);
    }
  }

  /** The (value file, block) pair of a key. */
  function BlockOf(k: i64): (p: (int, int))
    ensures 0 <= p.0 < FILE_COUNT && 0 <= p.1 < BLOCK_NUM
  {
    (ValueFileHash(k), ValueBlockHash(k))
  }

  /** A slot counter for every (value file, block) pair. */
  predicate IsBlock(p: (int, int)) {
    0 <= p.0 < FILE_COUNT && 0 <= p.1 < BLOCK_NUM
  }

  /** Every entry of `s` names a slot below the counter `ctr` holds for its block. */
  predicate Below(s: seq<Entry>, ctr: map<(int, int), int>) {
    forall e :: e in s ==> BlockOf(e.key) in ctr && e.off as int < ctr[BlockOf(e.key)]
  }

  /** The counters resumed from `s`: block by block, one past the largest slot `s` names. */
  function NextSlots(s: seq<Entry>): (ctr: map<(int, int), int>)
    ensures forall p :: p in ctr <==> IsBlock(p)
    ensures forall p :: p in ctr ==> ctr[p] == NextSlot(s, p.0, p.1)
  {
    map f, b | 0 <= f < FILE_COUNT && 0 <= b < BLOCK_NUM :: (f, b) := NextSlot(s, f, b)
  }

  /** Raising one counter past the next entry's slot resumes the counters over one more entry. */
  lemma NextSlotsStep(s: seq<Entry>, j: int)
    requires 0 <= j < |s|
    ensures NextSlots(s[..j + 1]) == NextSlots(s[..j])[BlockOf(s[j].key) :=
      if NextSlots(s[..j])[BlockOf(s[j].key)] <= s[j].off as int then s[j].off as int + 1
      else NextSlots(s[..j])[BlockOf(s[j].key)]]
  {
    var before, after := NextSlots(s[..j]), NextSlots(s[..j + 1]);
    var k := BlockOf(s[j].key);
    var raised := before[k := if before[k] <= s[j].off as int then s[j].off as int + 1 else before[k]];
    forall p | p in after
      ensures p in raised && after[p] == raised[p]
    {
      NextSlotStep(s, j, p.0, p.1);
    }
    assert after.Keys == raised.Keys;
  }

  /** With no entries, every counter is 0. */
  lemma NextSlotsEmpty(ctr: map<(int, int), int>)
    requires forall p :: p in ctr <==> IsBlock(p)
    requires forall p :: p in ctr ==> ctr[p] == 0
    ensures ctr == NextSlots([])
  {
  }

  /**
   * Counters resumed from an index built from some records lie above every slot the
   * index names and every slot the records name.
   */
  lemma AllBelowNextSlot(idx: seq<Entry>, recs: seq<Entry>)
    requires IndexFor(idx, recs)
    ensures Below(idx, NextSlots(idx)) && Below(recs, NextSlots(idx))
  {
    forall e | e in idx
      ensures e.off as int < NextSlot(idx, ValueFileHash(e.key), ValueBlockHash(e.key))
    {
      var j :| 0 <= j < |idx| && idx[j] == e;
      NextSlotAbove(idx, j);
    }
    forall e | e in recs
      ensures e.off as int < NextSlot(idx, ValueFileHash(e.key), ValueBlockHash(e.key))
    {
      assert Covers(idx, e);
      var j :| 0 <= j < |idx| && idx[j].key == e.key && e.off <= idx[j].off;
      NextSlotAbove(idx, j);
    }
  }

  /**
   * Claiming slot `e.off`, the counter of `e`'s block, and recording `e`: the counter goes
   * one past it, so the records (old ones plus `e`) and the index all stay below the
   * counters.
   */
  lemma BelowAfterClaim(recs: seq<Entry>, recs': seq<Entry>, idx: seq<Entry>,
                        ctr: map<(int, int), int>, e: Entry)
    requires Below(recs, ctr) && Below(idx, ctr)
    requires BlockOf(e.key) in ctr && e.off as int == ctr[BlockOf(e.key)]
    requires forall r :: r in recs' <==> r in recs || r == e
    ensures Below(recs', ctr[BlockOf(e.key) := ctr[BlockOf(e.key)] + 1])
    ensures Below(idx, ctr[BlockOf(e.key) := ctr[BlockOf(e.key)] + 1])
  {
  }

  /**
   * Below the counters, no entry of `s` names the slot the counter of `k`'s block
   * points at: the value position of every entry differs from the one a write of `k` claims.
   */
  lemma ClaimedPositionUnused(s: seq<Entry>, ctr: map<(int, int), int>, k: i64)
    requires Below(s, ctr) && OffsInRange(s)
    requires BlockOf(k) in ctr && 0 <= ctr[BlockOf(k)] < MAX_NUM_PER_BLOCK
    ensures forall e :: e in s ==>
      (ValueFileHash(e.key), SlotPosition(ValueBlockHash(e.key), e.off as int))
      != (ValueFileHash(k), SlotPosition(ValueBlockHash(k), ctr[BlockOf(k)]))
  {
    forall e | e in s
      ensures (ValueFileHash(e.key), SlotPosition(ValueBlockHash(e.key), e.off as int))
        != (ValueFileHash(k), SlotPosition(ValueBlockHash(k), ctr[BlockOf(k)]))
    {
      if ValueFileHash(e.key) == ValueFileHash(k) {
        SlotPositionsDiffer(ValueBlockHash(e.key), e.off as int, ValueBlockHash(k), ctr[BlockOf(k)]);
      }
    }
  }
}
