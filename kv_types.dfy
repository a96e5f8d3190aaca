/**
 * Fixed-width integers, bytes and small result types shared by every module.
 * The C++ code works on int32_t / int64_t / uint32_t values; Dafny integers are
 * unbounded, so each width is a subset type and every place where the code
 * can wrap around says so through Wrap64 / Wrap32.
 */
module KvTypes {

  const TWO_16: int := 0x1_0000
  const TWO_31: int := 0x8000_0000
  const TWO_32: int := 0x1_0000_0000
  const TWO_63: int := 0x8000_0000_0000_0000
  const TWO_64: int := 0x1_0000_0000_0000_0000
  const INT64_MIN: int := -TWO_63
  const INT64_MAX: int := TWO_63 - 1
  const UINT32_MAX: int := TWO_32 - 1

  type byte = x: int | 0 <= x < 0x100
  type int32 = x: int | -0x8000_0000 <= x < 0x8000_0000
  type uint32 = x: int | 0 <= x < 0x1_0000_0000
  type int64 = x: int | -0x8000_0000_0000_0000 <= x < 0x8000_0000_0000_0000
  type uint64 = x: int | 0 <= x < 0x1_0000_0000_0000_0000
  type Bytes = seq<byte>

  datatype Option<T> = None | Some(value: T)

  /** Host error codes used by the record stores (ErrorCodes::BadValue, ::DuplicateKey). */
  datatype ErrorCode = BadValue | DuplicateKey

  /** StatusWith<RecordId>: either a record id or an error code. */
  datatype StatusWithId = Ok(id: int64) | Err(code: ErrorCode)

  /** Status: OK or an error code. */
  datatype Status = StatusOK | StatusErr(code: ErrorCode)

  /**
   * RecordId::isNormal of the host database: an id strictly between the null
   * id 0 and the reserved maximum LLONG_MAX.
   */
  predicate IsNormal(id: int)
  {
    0 < id < INT64_MAX
  }

  /** A record a cursor yields: its id and a copy of its bytes. */
  datatype Record = Record(id: int64, data: Bytes)

  /** Two's-complement wrap into the signed 64-bit range (what the hardware does on overflow). */
  function Wrap64(x: int): (r: int64)
    ensures INT64_MIN <= x <= INT64_MAX ==> r == x
    ensures INT64_MAX < x <= INT64_MAX + TWO_64 ==> r == x - TWO_64
    ensures INT64_MIN - TWO_64 <= x < INT64_MIN ==> r == x + TWO_64
  {
    var u := x % TWO_64;
    if u >= TWO_63 then u - TWO_64 else u
  }

  /** Reduction modulo 2^32, the result of every uint32_t operation. */
  function Wrap32(x: int): (r: uint32)
    ensures 0 <= x < TWO_32 ==> r == x
    ensures TWO_32 <= x < 2 * TWO_32 ==> r == x - TWO_32
  {
    x % TWO_32
  }

  /** The uint64_t with the same bit pattern as an int64_t. */
  function AsUnsigned64(x: int64): (u: uint64)
    ensures x >= 0 ==> u == x
    ensures x < 0 ==> u == x + TWO_64
  {
    if x < 0 then x + TWO_64 else x
  }

  /** 2^k. */
  function Pow2(k: nat): (p: nat)
    ensures p >= 1
  {
    if k == 0 then 1 else 2 * Pow2(k - 1)
  }

  lemma {:induction false} Pow2Add(a: nat, b: nat)
    ensures Pow2(a + b) == Pow2(a) * Pow2(b)
  {
    if a > 0 {
      Pow2Add(a - 1, b);
    }
  }

  /** 2^32 as a power of two. */
  lemma Pow2ThirtyTwo()
    ensures Pow2(32) == TWO_32
  {
    assert Pow2(2) == 4;
    Pow2Add(2, 2);
    Pow2Add(4, 4);
    Pow2Add(8, 8);
    Pow2Add(16, 16);
  }

  /** A buffer of n zero bytes (bzero). */
  function Zeros(n: nat): (z: Bytes)
    ensures |z| == n && forall i :: 0 <= i < n ==> z[i] == 0
  {
    seq(n, _ => 0)
  }

  /** A 64-bit value whose low 32 bits are clear. */
  type Aligned32 = x: int64 | x % TWO_32 == 0

  /** The largest aligned value is 2^63 - 2^32, so adding anything below 2^32 stays in range. */
  lemma AlignedBound(x: Aligned32)
    ensures x <= INT64_MAX - (TWO_32 - 1)
  {
    var k := x / TWO_32;
    assert x == k * TWO_32;
    assert k < TWO_31;
  }

  /**
   * x << 32 on int64_t: the low 32 bits of x become the top 32 bits of the
   * 64-bit pattern (the bits shifted out are lost), read back as a signed
   * value, so the low 32 bits of the result are always clear.
   */
  function ShiftLeft32(x: int64): (r: Aligned32)
    ensures r % TWO_32 == 0
    ensures 0 <= x < TWO_31 ==> r == x * TWO_32
  {
    var low := x % TWO_32;
    LowBitsShifted(low);
    Wrap64(low * TWO_32)
  }

  lemma LowBitsShifted(q: int)
    requires 0 <= q < TWO_32
    ensures Wrap64(q * TWO_32) % TWO_32 == 0
  {
    if q < TWO_31 {
      assert Wrap64(q * TWO_32) == q * TWO_32;
    } else {
      assert Wrap64(q * TWO_32) == (q - TWO_32) * TWO_32;
    }
  }

  /** (x << 32) | b for b < 2^32: the low bits are clear, so the or is an add. */
  function ShiftOr(x: int64, low: nat): (r: int64)
    requires low < TWO_32
    ensures r == ShiftLeft32(x) + low
    ensures r % TWO_32 == low
  {
    ShiftLeft32(x) + low
  }
}
