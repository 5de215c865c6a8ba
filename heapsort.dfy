/**
 * heapSort / shiftDown / swap: the in-place max-heap sort of the parallel `keys`/`offs`
 * arrays that orders the loaded key records before duplicates are collapsed. The two
 * arrays are Java statics; here they are passed in.
 */
module HeapSort {
  import opened Types
  import opened Entries

  function Parent(c: int): int {
    (c - 1) / 2
  }

  /** `s` with the entries at `i` and `j` exchanged. */
  function Swapped(s: seq<Entry>, i: int, j: int): seq<Entry>
    requires 0 <= i < |s| && 0 <= j < |s|
  {
    s[i := s[j]][j := s[i]]
  }

  /**
   * Entries `0..end` of `s` are ordered as a max-heap at every parent whose index is
   * `lo` or above, with the possible exception of the parent `hole`.
   */
  ghost predicate HeapExcept(s: seq<Entry>, lo: int, end: int, hole: int)
    requires end < |s|
  {
    forall c :: 0 < c <= end && lo <= Parent(c) && Parent(c) != hole ==> Le(s[c], s[Parent(c)])
  }

  ghost predicate Heap(s: seq<Entry>, lo: int, end: int)
    requires end < |s|
  {
    HeapExcept(s, lo, end, -1)
  }

  /** While `k` sinks, its parent still dominates the children of `k`. */
  ghost predicate HoleCovered(s: seq<Entry>, lo: int, end: int, k: int)
    requires end < |s| && 0 <= lo <= k
  {
    k > lo ==> forall c :: 0 < c <= end && Parent(c) == k ==> Le(s[c], s[Parent(k)])
  }

  /** `j` is the larger child of `k` within `0..end`. */
  ghost predicate LargestChild(s: seq<Entry>, end: int, k: int, j: int)
    requires end < |s| && 0 <= j <= end
  {
    Parent(j) == k && forall c :: 0 < c <= end && Parent(c) == k ==> Le(s[c], s[j])
  }

  lemma SwapPermutes(s: seq<Entry>, i: int, j: int, n: int)
    requires 0 <= i < n && 0 <= j < n && n <= |s|
    ensures PermutedPrefix(Swapped(s, i, j), s, n)
  {
    var t := Swapped(s, i, j);
    assert t[..n] == Swapped(s[..n], i, j);
    assert t[n..] == s[n..];
  }

  lemma PermutedPrefixWiden(t: seq<Entry>, s: seq<Entry>, m: int, n: int)
    requires PermutedPrefix(t, s, m) && m <= n <= |s|
    ensures PermutedPrefix(t, s, n)
  {
    assert t[..n] == t[..m] + t[m..n];
    assert s[..n] == s[..m] + s[m..n];
    assert t[m..n] == s[m..n];
  }

  /** A bound on every entry of a prefix survives rearranging that prefix. */
  lemma BoundSurvivesPermutation(t: seq<Entry>, s: seq<Entry>, n: int, x: Entry)
    requires PermutedPrefix(t, s, n)
    requires forall a :: 0 <= a < n ==> Le(s[a], x)
    ensures forall a :: 0 <= a < n ==> Le(t[a], x)
  {
    forall a | 0 <= a < n
      ensures Le(t[a], x)
    {
      assert t[a] in multiset(t[..n]);
      assert t[a] in s[..n];
      var b :| 0 <= b < n && s[..n][b] == t[a];
    }
  }

  /** The root of a heap is its largest entry. */
  lemma {:induction false} RootIsMax(s: seq<Entry>, end: int, a: int)
    requires end < |s| && Heap(s, 0, end) && 0 <= a <= end
    ensures Le(s[a], s[0])
    decreases a
  {
    if a > 0 {
      RootIsMax(s, end, Parent(a));
    }
  }

  /** The sinking entry dominates its larger child: stopping leaves a heap. */
  lemma SiftStop(s: seq<Entry>, lo: int, end: int, k: int, j: int)
    requires end < |s| && 0 <= lo <= k && 0 <= j <= end
    requires HeapExcept(s, lo, end, k) && HoleCovered(s, lo, end, k)
    requires LargestChild(s, end, k, j) && Le(s[j], s[k])
    ensures Heap(s, lo, end)
  {
  }

  /** Exchanging the sinking entry with its larger child moves the hole down to that child. */
  lemma SiftSwap(s: seq<Entry>, lo: int, end: int, k: int, j: int)
    requires end < |s| && 0 <= lo <= k && 0 <= j <= end
    requires k > lo ==> lo <= Parent(k)
    requires HeapExcept(s, lo, end, k) && HoleCovered(s, lo, end, k)
    requires LargestChild(s, end, k, j) && Le(s[k], s[j])
    ensures lo <= Parent(j) && lo <= j
    ensures HeapExcept(Swapped(s, k, j), lo, end, j) && HoleCovered(Swapped(s, k, j), lo, end, j)
  {
    var t := Swapped(s, k, j);
    forall c | 0 < c <= end && lo <= Parent(c) && Parent(c) != j
      ensures Le(t[c], t[Parent(c)])
    {
      if c == j {
      } else if Parent(c) == k {
      } else if c == k {
        assert Le(s[j], s[Parent(k)]);
      } else {
        assert t[c] == s[c] && t[Parent(c)] == s[Parent(c)];
      }
    }
  }

  /** `swap`: exchange positions `i` and `j` of both arrays and nothing else. */
  method Swap(keys: array<i64>, offs: array<i32>, i: int, j: int)
    requires keys.Length == offs.Length
    requires 0 <= i < keys.Length && 0 <= j < keys.Length
    modifies keys, offs
    ensures keys[..] == old(keys[..])[i := old(keys[j])][j := old(keys[i])]
    ensures offs[..] == old(offs[..])[i := old(offs[j])][j := old(offs[i])]
    ensures Zip(keys[..], offs[..]) == Swapped(old(Zip(keys[..], offs[..])), i, j)
  {
    var temp := keys[i];
    keys[i] := keys[j];
    keys[j] := temp;
    var tempOff := offs[i];
    offs[i] := offs[j];
    offs[j] := tempOff;
  }

  /** Comparing the two children picks the larger one. */
  lemma ChildChosen(s: seq<Entry>, end: int, k: int, j: int)
    requires end < |s| && 0 <= k && (j == 2 * k + 1 || j == 2 * k + 2) && j <= end
    requires j == 2 * k + 1 && j + 1 <= end ==> Le(s[j + 1], s[j])
    requires j == 2 * k + 2 ==> Le(s[j - 1], s[j])
    ensures LargestChild(s, end, k, j)
  {
  }

  /** One sinking step as a whole: the loop's facts hold again after the exchange. */
  lemma SiftSwapKeeps(s0: seq<Entry>, s: seq<Entry>, lo: int, end: int, k: int, j: int)
    requires end < |s| && 0 <= lo <= k && 0 <= j <= end
    requires k > lo ==> lo <= Parent(k)
    requires HeapExcept(s, lo, end, k) && HoleCovered(s, lo, end, k)
    requires LargestChild(s, end, k, j) && Le(s[k], s[j])
    requires PermutedPrefix(s, s0, end + 1)
    ensures lo <= Parent(j) && lo <= j
    ensures HeapExcept(Swapped(s, k, j), lo, end, j) && HoleCovered(Swapped(s, k, j), lo, end, j)
    ensures PermutedPrefix(Swapped(s, k, j), s0, end + 1)
  {
    SiftSwap(s, lo, end, k, j);
    SwapPermutes(s, k, j, end + 1);
  }

  /**
   * `shiftDown(end, k)`: sink the entry at `k` until entries `0..end` are a heap at every
   * parent from `k` on. Only entries `0..end` move.
   */
  method ShiftDown(keys: array<i64>, offs: array<i32>, end: int, k0: int)
    requires keys.Length == offs.Length
    requires 0 <= k0 && -1 <= end < keys.Length
    requires HeapExcept(Zip(keys[..], offs[..]), k0, end, k0)
    modifies keys, offs
    ensures Heap(Zip(keys[..], offs[..]), k0, end)
    ensures PermutedPrefix(Zip(keys[..], offs[..]), old(Zip(keys[..], offs[..])), end + 1)
  {
    ghost var s0 := Zip(keys[..], offs[..]);
    var k := k0;
    var j := 2 * k + 1;
    while j <= end
      invariant k0 <= k && j == 2 * k + 1
      invariant k > k0 ==> k0 <= Parent(k)
      invariant HeapExcept(Zip(keys[..], offs[..]), k0, end, k)
      invariant HoleCovered(Zip(keys[..], offs[..]), k0, end, k)
      invariant PermutedPrefix(Zip(keys[..], offs[..]), s0, end + 1)
      decreases end - k
    {
      ghost var s := Zip(keys[..], offs[..]);
      if j + 1 <= end && (keys[j] < keys[j + 1] || (keys[j] == keys[j + 1] && offs[j] > offs[j + 1])) {
        j := j + 1;
      }
      ChildChosen(s, end, k, j);
      if keys[k] > keys[j] || (keys[k] == keys[j] && offs[k] < offs[j]) {
        SiftStop(s, k0, end, k, j);
        break;
      }
      SiftSwapKeeps(s0, s, k0, end, k, j);
      Swap(keys, offs, k, j);
      k := j;
      j := 2 * k + 1;
    }
  }

  /** Moving the root to position `keyNum` leaves a heap on `0..keyNum-1` except at the root. */
  lemma ExtractReady(s: seq<Entry>, keyNum: int)
    requires 0 < keyNum < |s| && Heap(s, 0, keyNum)
    ensures HeapExcept(Swapped(s, keyNum, 0), 0, keyNum - 1, 0)
  {
    var t := Swapped(s, keyNum, 0);
    forall c | 0 < c <= keyNum - 1 && 0 <= Parent(c) && Parent(c) != 0
      ensures Le(t[c], t[Parent(c)])
    {
      assert t[c] == s[c] && t[Parent(c)] == s[Parent(c)];
    }
  }

  /** Entries `lo..hi-1` of `s` are in order. */
  ghost predicate SortedRange(s: seq<Entry>, lo: int, hi: int)
    requires 0 <= lo && hi <= |s|
  {
    forall i, j :: lo <= i < j < hi ==> Le(s[i], s[j])
  }

  /** After the exchange and the sinking, the moved root bounds the heap from above. */
  lemma ExtractBound(s: seq<Entry>, s2: seq<Entry>, keyNum: int)
    requires 0 < keyNum < |s| && Heap(s, 0, keyNum)
    requires PermutedPrefix(s2, Swapped(s, keyNum, 0), keyNum)
    ensures s2[keyNum] == s[0]
    ensures forall a :: 0 <= a <= keyNum - 1 ==> Le(s2[a], s2[keyNum])
  {
    var s1 := Swapped(s, keyNum, 0);
    forall a | 0 <= a < keyNum
      ensures Le(s1[a], s1[keyNum])
    {
      RootIsMax(s, keyNum, if a == 0 then keyNum else a);
    }
    BoundSurvivesPermutation(s2, s1, keyNum, s1[keyNum]);
    assert s2[keyNum..] == s1[keyNum..];
  }

  /** The sorted tail grows by the moved root. */
  lemma ExtractSorted(s: seq<Entry>, s2: seq<Entry>, keyNum: int, n: int)
    requires 0 < keyNum < n <= |s| && |s2| == |s| && Heap(s, 0, keyNum) && SortedRange(s, keyNum + 1, n)
    requires keyNum + 1 < n ==> forall a :: 0 <= a <= keyNum ==> Le(s[a], s[keyNum + 1])
    requires s2[keyNum] == s[0] && s2[keyNum + 1..] == s[keyNum + 1..]
    ensures SortedRange(s2, keyNum, n)
  {
    forall i, j | keyNum <= i < j < n
      ensures Le(s2[i], s2[j])
    {
      assert s2[j] == s2[keyNum + 1..][j - keyNum - 1] == s[j];
      if i == keyNum {
        assert Le(s[0], s[keyNum + 1]);
      } else {
        assert s2[i] == s2[keyNum + 1..][i - keyNum - 1] == s[i];
      }
    }
  }

  /**
   * What the second loop of `heapSort` keeps: a heap on `0..keyNum`, a sorted tail
   * `keyNum+1..n-1` whose first entry bounds the heap, and the first `n` entries of `s0`
   * rearranged.
   */
  ghost predicate Extracting(s: seq<Entry>, s0: seq<Entry>, keyNum: int, n: int)
    requires -1 <= keyNum < n <= |s|
  {
    Heap(s, 0, keyNum) && SortedRange(s, keyNum + 1, n)
    && (keyNum + 1 < n ==> forall a :: 0 <= a <= keyNum ==> Le(s[a], s[keyNum + 1]))
    && PermutedPrefix(s, s0, n)
  }

  /**
   * One extraction step as a whole: after moving the root behind the heap and sinking the
   * new root, the sorted tail has grown by one and still bounds the heap from above.
   */
  lemma ExtractKeeps(s0: seq<Entry>, s: seq<Entry>, s2: seq<Entry>, keyNum: int, n: int)
    requires 0 < keyNum < n <= |s| && Extracting(s, s0, keyNum, n)
    requires PermutedPrefix(s2, Swapped(s, keyNum, 0), keyNum) && Heap(s2, 0, keyNum - 1)
    ensures Extracting(s2, s0, keyNum - 1, n)
  {
    var s1 := Swapped(s, keyNum, 0);
    ExtractBound(s, s2, keyNum);
    assert s2[keyNum + 1..] == s1[keyNum + 1..] == s[keyNum + 1..];
    ExtractSorted(s, s2, keyNum, n);
    SwapPermutes(s, keyNum, 0, n);
    PermutedPrefixWiden(s2, s1, keyNum, n);
  }

  /** When the sorted tail starts at 1 (or 0) and bounds entry 0, the whole prefix is sorted. */
  lemma SortedFromTail(t: seq<Entry>, keyNum: int, n: int)
    requires 0 <= n <= |t| && keyNum == (if n == 0 then -1 else 0)
    requires SortedRange(t, keyNum + 1, n)
    requires keyNum + 1 < n ==> forall a :: 0 <= a <= keyNum ==> Le(t[a], t[keyNum + 1])
    ensures Sorted(t[..n])
  {
    if 1 < n {
      assert Le(t[0], t[1]);
      forall i, j | 0 <= i < j < n
        ensures Le(t[..n][i], t[..n][j])
      {
        if 0 < i {
        } else if 1 < j {
          assert Le(t[1], t[j]);
        }
      }
    }
  }

  /** The first loop of `heapSort`: sink every parent, last first, until `0..end` is a heap. */
  method BuildHeap(keys: array<i64>, offs: array<i32>, end: int)
    requires keys.Length == offs.Length && -1 <= end < keys.Length
    modifies keys, offs
    ensures Heap(Zip(keys[..], offs[..]), 0, end)
    ensures PermutedPrefix(Zip(keys[..], offs[..]), old(Zip(keys[..], offs[..])), end + 1)
  {
    ghost var s0 := Zip(keys[..], offs[..]);
    var i := end / 2;
    while i >= 0
      invariant -1 <= i <= end / 2
      invariant Heap(Zip(keys[..], offs[..]), i + 1, end)
      invariant PermutedPrefix(Zip(keys[..], offs[..]), s0, end + 1)
      decreases i + 1
    {
      ShiftDown(keys, offs, end, i);
      i := i - 1;
    }
  }

  /** One round of the second loop: move the root behind the heap and sink the new root. */
  method ExtractMax(keys: array<i64>, offs: array<i32>, keyNum: int, n: int, ghost s0: seq<Entry>)
    requires keys.Length == offs.Length && 0 < keyNum < n <= keys.Length
    requires Extracting(Zip(keys[..], offs[..]), s0, keyNum, n)
    modifies keys, offs
    ensures Extracting(Zip(keys[..], offs[..]), s0, keyNum - 1, n)
  {
    ghost var s := Zip(keys[..], offs[..]);
    ExtractReady(s, keyNum);
    Swap(keys, offs, keyNum, 0);
    ShiftDown(keys, offs, keyNum - 1, 0);
    ExtractKeeps(s0, s, Zip(keys[..], offs[..]), keyNum, n);
  }

  /** `heapSort(startKeyNum)`: sort entries `0..startKeyNum-1` in place; the others stay put. */
  method HeapSort(keys: array<i64>, offs: array<i32>, startKeyNum: int)
    requires keys.Length == offs.Length && 0 <= startKeyNum <= keys.Length
    modifies keys, offs
    ensures Sorted(Zip(keys[..], offs[..])[..startKeyNum])
    ensures PermutedPrefix(Zip(keys[..], offs[..]), old(Zip(keys[..], offs[..])), startKeyNum)
  {
    ghost var s0 := Zip(keys[..], offs[..]);
    var end := startKeyNum - 1;
    BuildHeap(keys, offs, end);
    var keyNum := end;
    while keyNum > 0
      invariant -1 <= keyNum <= end && (0 <= end ==> 0 <= keyNum)
      invariant Extracting(Zip(keys[..], offs[..]), s0, keyNum, startKeyNum)
    {
      ExtractMax(keys, offs, keyNum, startKeyNum, s0);
      keyNum := keyNum - 1;
    }
    SortedFromTail(Zip(keys[..], offs[..]), keyNum, startKeyNum);
  }
}
