/**
 * Byte encodings: the big-endian `long`/`int` layout of `ByteBuffer.putLong`/`putInt`
 * and `getLong`/`getInt`, the twelve-byte key record, and `long2bytes`.
 */
module Codec {
  import opened Types
  import opened Layout

  function Pow256(n: nat): (r: int)
    ensures r >= 1
  {
    if n == 0 then 1 else 256 * Pow256(n - 1)
  }

  /**
   * The low `n` bytes of `x`, most significant first. For a negative `x` these are the
   * bytes of its two's complement pattern (`%` and `/` are Euclidean, as `& 0xFF` and
   * the arithmetic `>> 8` are in Java).
   */
  function ToBytes(x: int, n: nat): (b: seq<u8>)
    ensures |b| == n
    decreases n
  {
    if n == 0 then [] else ToBytes(x / 256, n - 1) + [(x % 256) as u8]
  }

  /** The unsigned big-endian number a byte string spells. */
  function FromBytes(b: seq<u8>): (u: int)
    ensures 0 <= u < Pow256(|b|)
  {
    if |b| == 0 then 0 else FromBytes(b[..|b| - 1]) * 256 + b[|b| - 1] as int
  }

  lemma Pow256Values()
    ensures Pow256(4) == TWO_32
    ensures Pow256(8) == TWO_64
  {
    assert Pow256(2) == 0x1_0000;
    assert Pow256(4) == 0x1_0000 * Pow256(2);
    assert Pow256(6) == 0x1_0000 * Pow256(4);
    assert Pow256(8) == 0x1_0000 * Pow256(6);
  }

  /** Decoding the bytes of a number that fits gives the number back. */
  lemma {:induction false} FromToBytes(u: int, n: nat)
    requires 0 <= u < Pow256(n)
    ensures FromBytes(ToBytes(u, n)) == u
  {
    if n > 0 {
      var b := ToBytes(u, n);
      FromToBytes(u / 256, n - 1);
      assert b[..n - 1] == ToBytes(u / 256, n - 1);
    }
  }

  /** Encoding the number a byte string spells gives the byte string back. */
  lemma {:induction false} ToFromBytes(b: seq<u8>)
    ensures ToBytes(FromBytes(b), |b|) == b
  {
    if |b| > 0 {
      var p := b[..|b| - 1];
      ToFromBytes(p);
      var u := FromBytes(b);
      assert u / 256 == FromBytes(p);
      assert (u % 256) as u8 == b[|b| - 1];
      assert b == p + [b[|b| - 1]];
    }
  }

  /** Adding a multiple of `256^n` does not change the low `n` bytes. */
  lemma {:induction false} ToBytesWrap(x: int, n: nat)
    ensures ToBytes(x + Pow256(n), n) == ToBytes(x, n)
    decreases n
  {
    if n > 0 {
      var p := Pow256(n - 1);
      assert x + Pow256(n) == x + 256 * p;
      assert (x + 256 * p) / 256 == x / 256 + p;
      assert (x + 256 * p) % 256 == x % 256;
      ToBytesWrap(x / 256, n - 1);
    }
  }

  lemma {:induction false} MulAtLeast(d: int, a: int)
    requires d > 0 && a >= 1
    ensures d * a >= d
  {
    if a > 1 {
      MulAtLeast(d, a - 1);
      assert d * a == d * (a - 1) + d;
    }
  }

  /** Euclidean quotient and remainder are unique. */
  lemma DivUnique(x: int, d: int, q: int, r: int)
    requires d > 0 && 0 <= r < d && x == d * q + r
    ensures x / d == q && x % d == r
  {
    var q', r' := x / d, x % d;
    assert d * q + r == d * q' + r';
    if q > q' {
      MulAtLeast(d, q - q');
      assert false;
    } else if q < q' {
      MulAtLeast(d, q' - q);
      assert false;
    }
  }

  lemma MulRegroup(d1: int, d2: int, q2: int, r2: int)
    ensures d1 * (d2 * q2 + r2) == (d1 * d2) * q2 + d1 * r2
  {
  }

  lemma {:induction false} MulMono(d: int, a: int, b: int)
    requires d > 0 && 0 <= a <= b
    ensures d * a <= d * b
  {
    if a < b {
      MulAtLeast(d, b - a);
      assert d * b - d * a == d * (b - a);
    }
  }

  /** Dividing twice is dividing by the product. */
  lemma DivDiv(x: int, d1: int, d2: int)
    requires d1 > 0 && d2 > 0
    ensures x / d1 / d2 == x / (d1 * d2)
  {
    var q1, r1 := x / d1, x % d1;
    var q2, r2 := q1 / d2, q1 % d2;
    MulRegroup(d1, d2, q2, r2);
    MulMono(d1, r2, d2 - 1);
    assert d1 * (d2 - 1) == d1 * d2 - d1;
    DivUnique(x, d1 * d2, q2, d1 * r2 + r1);
  }

  /** Byte `i` of the `n`-byte encoding of `x` is `(x >> 8*(n-1-i)) & 0xFF`. */
  lemma {:induction false} ByteAt(x: int, n: nat, i: nat)
    requires i < n
    ensures ToBytes(x, n)[i] as int == (x / Pow256(n - 1 - i)) % 256
    decreases n
  {
    if i < n - 1 {
      ByteAt(x / 256, n - 1, i);
      DivDiv(x, 256, Pow256(n - 2 - i));
      assert Pow256(n - 1 - i) == 256 * Pow256(n - 2 - i);
    }
  }

  /** `ByteBuffer.putLong`: the eight big-endian bytes of a `long`. */
  function EncodeLong(k: i64): seq<u8> {
    ToBytes(k as int, KEY_LEN)
  }

  /** `ByteBuffer.getLong` (and `Util.bytes2long`): the `long` spelled by eight bytes. */
  function DecodeLong(b: seq<u8>): i64
    requires |b| == KEY_LEN
  {
    Pow256Values();
    Signed64(FromBytes(b))
  }

  function EncodeInt(x: i32): seq<u8> {
    ToBytes(x as int, 4)
  }

  function DecodeInt(b: seq<u8>): i32
    requires |b| == 4
  {
    Pow256Values();
    Signed32(FromBytes(b))
  }

  /** The eight bytes of a `long` are the bytes of its unsigned bit pattern. */
  lemma EncodeLongUnsigned(k: i64)
    ensures EncodeLong(k) == ToBytes(Unsigned64(k), KEY_LEN)
  {
    Pow256Values();
    if k < 0 {
      ToBytesWrap(k as int, 8);
    }
  }

  lemma EncodeIntUnsigned(x: i32)
    ensures EncodeInt(x) == ToBytes(Unsigned32(x), 4)
  {
    Pow256Values();
    if x < 0 {
      ToBytesWrap(x as int, 4);
    }
  }

  /** `getLong` after `putLong` returns the `long` that was put. */
  lemma DecodeEncodeLong(k: i64)
    ensures |EncodeLong(k)| == KEY_LEN && DecodeLong(EncodeLong(k)) == k
  {
    Pow256Values();
    EncodeLongUnsigned(k);
    FromToBytes(Unsigned64(k), 8);
  }

  /** `putLong` after `getLong` writes back the same eight bytes. */
  lemma EncodeDecodeLong(b: seq<u8>)
    requires |b| == KEY_LEN
    ensures EncodeLong(DecodeLong(b)) == b
  {
    Pow256Values();
    EncodeLongUnsigned(DecodeLong(b));
    ToFromBytes(b);
  }

  lemma DecodeEncodeInt(x: i32)
    ensures |EncodeInt(x)| == 4 && DecodeInt(EncodeInt(x)) == x
  {
    Pow256Values();
    EncodeIntUnsigned(x);
    FromToBytes(Unsigned32(x), 4);
  }

  lemma EncodeDecodeInt(b: seq<u8>)
    requires |b| == 4
    ensures EncodeInt(DecodeInt(b)) == b
  {
    Pow256Values();
    EncodeIntUnsigned(DecodeInt(b));
    ToFromBytes(b);
  }

  /** Byte `i` of a key's encoding is `(key >>> 8*(7-i)) & 0xFF`. */
  lemma EncodeLongByte(k: i64, i: nat)
    requires i < KEY_LEN
    ensures EncodeLong(k)[i] as int == (Unsigned64(k) / Pow256(7 - i)) % 256
  {
    EncodeLongUnsigned(k);
    ByteAt(Unsigned64(k), 8, i);
  }

  /** `keyBuffer.putLong(numkey).putInt(off)`: the twelve-byte key record. */
  function EncodeRecord(e: Entry): (b: seq<u8>)
    ensures |b| == KEY_AND_OFF_LEN
  {
    EncodeLong(e.key) + EncodeInt(e.off)
  }

  /** `getLong()` then `getInt()` at byte `at` of a key log. */
  function DecodeRecord(log: seq<u8>, at: int): Entry
    requires 0 <= at && at + KEY_AND_OFF_LEN <= |log|
  {
    Entry(DecodeLong(log[at..at + KEY_LEN]), DecodeInt(log[at + KEY_LEN..at + KEY_AND_OFF_LEN]))
  }

  /** A record appended after any prefix decodes, at the prefix's length, to itself. */
  lemma DecodeEncodeRecord(prefix: seq<u8>, e: Entry, suffix: seq<u8>)
    ensures DecodeRecord(prefix + EncodeRecord(e) + suffix, |prefix|) == e
  {
    var log := prefix + EncodeRecord(e) + suffix;
    var at := |prefix|;
    assert log[at..at + KEY_LEN] == EncodeLong(e.key);
    assert log[at + KEY_LEN..at + KEY_AND_OFF_LEN] == EncodeInt(e.off);
    DecodeEncodeLong(e.key);
    DecodeEncodeInt(e.off);
  }

  /** Every twelve bytes are the encoding of the record they decode to. */
  lemma EncodeDecodeRecord(b: seq<u8>)
    requires |b| == KEY_AND_OFF_LEN
    ensures EncodeRecord(DecodeRecord(b, 0)) == b
  {
    assert b[0..KEY_LEN] == b[..KEY_LEN];
    assert b[KEY_LEN..KEY_AND_OFF_LEN] == b[KEY_LEN..];
    EncodeDecodeLong(b[..KEY_LEN]);
    EncodeDecodeInt(b[KEY_LEN..]);
    assert b == b[..KEY_LEN] + b[KEY_LEN..];
  }

  lemma Pow256Seven()
    ensures Pow256(6) == 0x1_0000_0000_0000 && Pow256(7) == TWO_56
  {
    Pow256Values();
  }

  /** The value file of a key is the first byte of its big-endian encoding. */
  lemma FileHashFromKeyBytes(k: i64)
    ensures ValueFileHash(k) == EncodeLong(k)[0] as int
  {
    EncodeLongByte(k, 0);
    Pow256Seven();
  }

  /** The shard of a key is the top six bits of the first byte of its encoding. */
  lemma ShardHashFromKeyBytes(k: i64)
    ensures KeyFileHash(k) == EncodeLong(k)[0] as int / 4
  {
    FileHashFromKeyBytes(k);
    DivDiv(Unsigned64(k), TWO_56, 4);
  }

  /** The block of a key is bits one to six of the second byte of its encoding. */
  lemma BlockHashFromKeyBytes(k: i64)
    ensures ValueBlockHash(k) == (EncodeLong(k)[1] as int / 2) % 64
  {
    var u := Unsigned64(k);
    EncodeLongByte(k, 1);
    Pow256Seven();
    DivDiv(u, 0x1_0000_0000_0000, 2);
    var q := u / 0x1_0000_0000_0000;
    var a, b := q / 256, q % 256;
    assert q == 256 * a + b;
    assert q / 2 == 128 * a + b / 2;
    assert (q / 2) % 64 == (b / 2) % 64;
  }

  method Long2Bytes(bytes: array<u8>, key: i64)
    requires bytes.Length == KEY_LEN
    modifies bytes
    ensures bytes[..] == EncodeLong(key)
  {
    var k: int := key as int;
    var i := 7;
    while i >= 0
      invariant -1 <= i <= 7
      invariant EncodeLong(key) == ToBytes(k, i + 1) + bytes[i + 1..]
    {
      ghost var rest := bytes[i + 1..];
      bytes[i] := (k % 256) as u8;
      assert bytes[i..] == [(k % 256) as u8] + rest;
      k := k / 256;
      i := i - 1;
    }
  }
}
