/** Java's fixed-width integers and the shared small datatypes of the engine. */
module Types {

  /** Java `long`: sixty-four bit two's complement, compared signed. */
  newtype i64 = x: int | -0x8000_0000_0000_0000 <= x < 0x8000_0000_0000_0000

  /** Java `int`. */
  newtype i32 = x: int | -0x8000_0000 <= x < 0x8000_0000

  /** One byte, as its bit pattern read unsigned (0 to 255). */
  newtype u8 = x: int | 0 <= x < 256

  const TWO_64: int := 0x1_0000_0000_0000_0000
  const TWO_32: int := 0x1_0000_0000

  /** One entry of the key index (and one decoded key record): a key and its slot offset. */
  datatype Entry = Entry(key: i64, off: i32)

  datatype Option<T> = None | Some(value: T)

  /** The engine's error codes (RetCodeEnum) that the modelled paths raise. */
  datatype RetCode = NotFound | NotSupported

  datatype Result<T> = Ok(value: T) | Err(code: RetCode)

  /** The bit pattern of a `long`, read as an unsigned number: what `>>>` shifts. */
  function Unsigned64(k: i64): (u: int)
    ensures 0 <= u < TWO_64
    ensures u % TWO_64 == (k as int) % TWO_64
  {
    if k < 0 then k as int + TWO_64 else k as int
  }

  /** The `long` whose bit pattern is `u`. */
  function Signed64(u: int): (k: i64)
    requires 0 <= u < TWO_64
    ensures Unsigned64(k) == u
  {
    if u < TWO_64 / 2 then u as i64 else (u - TWO_64) as i64
  }

  function Unsigned32(x: i32): (u: int)
    ensures 0 <= u < TWO_32
    ensures u % TWO_32 == (x as int) % TWO_32
  {
    if x < 0 then x as int + TWO_32 else x as int
  }

  function Signed32(u: int): (x: i32)
    requires 0 <= u < TWO_32
    ensures Unsigned32(x) == u
  {
    if u < TWO_32 / 2 then u as i32 else (u - TWO_32) as i32
  }

  /** Reading a bit pattern back gives the same `long`. */
  lemma SignedUnsigned64(k: i64)
    ensures Signed64(Unsigned64(k)) == k
  {
  }

  lemma SignedUnsigned32(x: i32)
    ensures Signed32(Unsigned32(x)) == x
  {
  }
}
