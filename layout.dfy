/**
 * The on-disk layout of the engine: the partitioning constants, the three hash
 * functions that pick a key-log shard, a value file and a block from the high bits
 * of a key, and the byte position of a value slot inside a value file.
 */
module Layout {
  import opened Types

  const KEY_LEN: int := 8
  /** Capacity of the key index arrays. */
  const KEY_NUM: int := 64000000
  /** One key record: an eight-byte key followed by a four-byte slot offset. */
  const KEY_AND_OFF_LEN: int := 12
  /** Number of key-log shards. */
  const THREAD_NUM: int := 64
  const VALUE_LEN: int := 4096
  const SHIFT_NUM: nat := 12
  /** Number of value files. */
  const FILE_COUNT: int := 256
  const FILE_SIZE: int := 1132462080
  /** Blocks per value file. */
  const BLOCK_NUM: int := 128
  const BLOCK_SIZE: int := 8847360
  /** Value slots per block. */
  const MAX_NUM_PER_BLOCK: int := 2160

  function Pow2(n: nat): (r: int)
    ensures r >= 1
  {
    if n == 0 then 1 else 2 * Pow2(n - 1)
  }

  /** Java's `x << n` for a shift that does not overflow. */
  function Shl(x: int, n: nat): int {
    x * Pow2(n)
  }

  /** Java's `k >>> n` on a `long` for the shift distances the engine uses (2 to the n). */
  const TWO_49: int := 0x0002_0000_0000_0000
  const TWO_56: int := 0x0100_0000_0000_0000
  const TWO_58: int := 0x0400_0000_0000_0000

  /** `k >>> n`: the bit pattern shifted right with zeros filled in, given `pow == 2^n`. */
  function UShr(k: i64, pow: int): int
    requires pow >= 1
  {
    Unsigned64(k) / pow
  }

  /** `(int) (key >>> 58)`: the key-log shard of a key (its top six bits). */
  function KeyFileHash(k: i64): (h: int)
    ensures 0 <= h < THREAD_NUM
  {
    UShr(k, TWO_58)
  }

  /** `(int) (key >>> 56)`: the value file of a key (its top eight bits). */
  function ValueFileHash(k: i64): (h: int)
    ensures 0 <= h < FILE_COUNT
  {
    UShr(k, TWO_56)
  }

  /** `(int) ((key >>> 49) & 0x3F)`: the block of a key inside its value file. */
  function ValueBlockHash(k: i64): (h: int)
    ensures 0 <= h < 64 && h < BLOCK_NUM
  {
    UShr(k, TWO_49) % 0x40
  }

  /** `blockHash * BLOCK_SIZE + (off << SHIFT_NUM)`: where slot `off` of a block starts. */
  function SlotPosition(block: int, off: int): int {
    block * BLOCK_SIZE + Shl(off, SHIFT_NUM)
  }

  /** The layout constants agree with each other. */
  lemma ConstantsAgree()
    ensures VALUE_LEN == Pow2(SHIFT_NUM)
    ensures BLOCK_SIZE == MAX_NUM_PER_BLOCK * VALUE_LEN
    ensures FILE_SIZE == BLOCK_NUM * BLOCK_SIZE
    ensures KEY_AND_OFF_LEN == KEY_LEN + 4
  {
    assert Pow2(4) == 16;
    assert Pow2(8) == 2 * 2 * 2 * 2 * Pow2(4);
    assert Pow2(12) == 2 * 2 * 2 * 2 * Pow2(8);
  }

  /** The shard of a key is the value file of the key divided by four: shards group four files. */
  lemma ShardOfFile(k: i64)
    ensures KeyFileHash(k) == ValueFileHash(k) / 4
  {
  }

  /**
   * A slot `off` within the capacity of a block lies inside that block and inside the
   * file, and its position fits a Java `int` (the position arithmetic does not overflow).
   */
  lemma SlotInBlock(block: int, off: int)
    requires 0 <= block < BLOCK_NUM && 0 <= off < MAX_NUM_PER_BLOCK
    ensures block * BLOCK_SIZE <= SlotPosition(block, off)
    ensures SlotPosition(block, off) + VALUE_LEN <= (block + 1) * BLOCK_SIZE
    ensures SlotPosition(block, off) + VALUE_LEN <= FILE_SIZE
    ensures SlotPosition(block, off) < 0x8000_0000
  {
    ConstantsAgree();
  }

  /** Two different (block, offset) slots of a file do not overlap. */
  lemma SlotsDisjoint(b1: int, o1: int, b2: int, o2: int)
    requires 0 <= b1 < BLOCK_NUM && 0 <= o1 < MAX_NUM_PER_BLOCK
    requires 0 <= b2 < BLOCK_NUM && 0 <= o2 < MAX_NUM_PER_BLOCK
    requires (b1, o1) != (b2, o2)
    ensures SlotPosition(b1, o1) + VALUE_LEN <= SlotPosition(b2, o2)
         || SlotPosition(b2, o2) + VALUE_LEN <= SlotPosition(b1, o1)
  {
    ConstantsAgree();
    SlotInBlock(b1, o1);
    SlotInBlock(b2, o2);
    if b1 < b2 {
      assert (b1 + 1) * BLOCK_SIZE <= b2 * BLOCK_SIZE;
    } else if b2 < b1 {
      assert (b2 + 1) * BLOCK_SIZE <= b1 * BLOCK_SIZE;
    }
  }
}
