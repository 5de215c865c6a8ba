/**
 * handleDuplicate: collapse each run of equal keys of the sorted index to its first
 * entry, compacting the parallel arrays in place behind the write cursor `maxnum`.
 */
module Compact {
  import opened Types
  import opened Entries

  /** After scanning `i` entries of `s0`, the arrays `s` hold `Dedup(s0[..i])` before `maxnum`, the rest untouched. */
  ghost predicate CompactedUpTo(s: seq<Entry>, s0: seq<Entry>, maxnum: int, i: int) {
    |s| == |s0| && 1 <= maxnum <= i <= |s0|
    && s[..maxnum] == Dedup(s0[..i]) && s[maxnum..] == s0[maxnum..]
  }

  /** The entries the loop compares are the original ones. */
  lemma CompactReads(s: seq<Entry>, s0: seq<Entry>, maxnum: int, i: int)
    requires CompactedUpTo(s, s0, maxnum, i) && i < |s0|
    ensures s[i] == s0[i] && s[i - 1].key == s0[i - 1].key
  {
    DedupBounds(s0[..i]);
    assert s[i] == s[maxnum..][i - maxnum];
    if i - 1 < maxnum {
      assert s[i - 1] == s[..maxnum][maxnum - 1];
    } else {
      assert s[i - 1] == s[maxnum..][i - 1 - maxnum];
    }
  }

  /** A new key is written at the cursor. */
  lemma CompactKeep(s: seq<Entry>, s0: seq<Entry>, maxnum: int, i: int)
    requires CompactedUpTo(s, s0, maxnum, i) && i < |s0| && s0[i].key != s0[i - 1].key
    ensures CompactedUpTo(s[maxnum := s0[i]], s0, maxnum + 1, i + 1)
  {
    assert s0[..i + 1][..i] == s0[..i];
    var t := s[maxnum := s0[i]];
    assert t[..maxnum + 1] == s[..maxnum] + [s0[i]];
    assert t[maxnum + 1..] == s[maxnum + 1..];
  }

  /** A repeated key is skipped. */
  lemma CompactSkip(s: seq<Entry>, s0: seq<Entry>, maxnum: int, i: int)
    requires CompactedUpTo(s, s0, maxnum, i) && i < |s0| && s0[i].key == s0[i - 1].key
    ensures CompactedUpTo(s, s0, maxnum, i + 1)
  {
    assert s0[..i + 1][..i] == s0[..i];
  }

  /**
   * `handleDuplicate(keyNum)` as written. For `keyNum >= 1` the first `maxnum` entries
   * become `Dedup` of the first `keyNum` and the entries from `maxnum` on are untouched.
   * For `keyNum == 0` it changes nothing and still returns 1.
   */
  method HandleDuplicate(keys: array<i64>, offs: array<i32>, keyNum: int) returns (maxnum: int)
    requires keys.Length == offs.Length && 0 <= keyNum <= keys.Length
    modifies keys, offs
    ensures keyNum == 0 ==> maxnum == 1 && Zip(keys[..], offs[..]) == old(Zip(keys[..], offs[..]))
    ensures keyNum > 0 ==> 1 <= maxnum <= keyNum
    ensures keyNum > 0 ==> Zip(keys[..], offs[..])[..maxnum] == Dedup(old(Zip(keys[..], offs[..]))[..keyNum])
    ensures keyNum > 0 ==> Zip(keys[..], offs[..])[maxnum..] == old(Zip(keys[..], offs[..]))[maxnum..]
  {
    ghost var s0 := Zip(keys[..], offs[..]);
    maxnum := 1;
    var i := 1;
    if keyNum > 0 {
      assert s0[..1] == [s0[0]];
      assert CompactedUpTo(s0, s0, 1, 1);
    }
    while i < keyNum
      invariant keyNum > 0 ==> CompactedUpTo(Zip(keys[..], offs[..]), s0, maxnum, i) && i <= keyNum
      invariant keyNum == 0 ==> Zip(keys[..], offs[..]) == s0 && maxnum == 1
    {
      ghost var s := Zip(keys[..], offs[..]);
      CompactReads(s, s0, maxnum, i);
      if keys[i] != keys[i - 1] {
        CompactKeep(s, s0, maxnum, i);
        ZipUpdate(keys[..], offs[..], maxnum, s0[i]);
        keys[maxnum] := keys[i];
        offs[maxnum] := offs[i];
        maxnum := maxnum + 1;
      } else {
        CompactSkip(s, s0, maxnum, i);
      }
      i := i + 1;
    }
    if keyNum > 0 {
      assert s0[..keyNum] == s0[..i];
    }
  }

  /**
   * The evident intent of handleDuplicate: the visible index size is the number of distinct
   * keys, 0 for no records at all.
   */
  method CompactIndex(keys: array<i64>, offs: array<i32>, keyNum: int) returns (count: int)
    requires keys.Length == offs.Length && 0 <= keyNum <= keys.Length
    modifies keys, offs
    ensures 0 <= count <= keyNum
    ensures Zip(keys[..], offs[..])[..count] == Dedup(old(Zip(keys[..], offs[..]))[..keyNum])
    ensures Zip(keys[..], offs[..])[count..] == old(Zip(keys[..], offs[..]))[count..]
  {
    if keyNum == 0 {
      count := 0;
    } else {
      count := HandleDuplicate(keys, offs, keyNum);
    }
  }
}
