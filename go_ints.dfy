/** The fixed-width Go integer types the parameter parser works with. */
module GoInts {

  const MaxUint16: int := 0xFFFF
  const MaxUint32: int := 0xFFFF_FFFF
  const MaxInt64: int := 0x7FFF_FFFF_FFFF_FFFF
  const MinInt64: int := -0x8000_0000_0000_0000
  const MaxUint64: int := 0xFFFF_FFFF_FFFF_FFFF

  /** 2^64, the modulus of Go's 64-bit arithmetic. */
  const Modulus64: int := 0x1_0000_0000_0000_0000

  type Byte = x: int | 0 <= x < 0x100
  type Uint16 = x: int | 0 <= x <= 0xFFFF
  type Uint32 = x: int | 0 <= x <= 0xFFFF_FFFF
  type Uint64 = x: int | 0 <= x <= 0xFFFF_FFFF_FFFF_FFFF
  type Int64 = x: int | -0x8000_0000_0000_0000 <= x <= 0x7FFF_FFFF_FFFF_FFFF

  /** btcutil.Amount: a signed 64-bit number of satoshis. */
  type Amount = Int64

  /** Two's-complement wrap-around of an int64 result (Go's signed overflow). */
  function WrapInt64(x: int): (r: Int64)
    ensures (r - x) % Modulus64 == 0
    ensures MinInt64 <= x <= MaxInt64 ==> r == x
  {
    var m := x % Modulus64;
    if m > MaxInt64 then m - Modulus64 else m
  }

  /** Wrap-around of a uint64 result (Go's unsigned overflow). */
  function WrapUint64(x: int): (r: Uint64)
    ensures (r - x) % Modulus64 == 0
    ensures 0 <= x <= MaxUint64 ==> r == x
  {
    x % Modulus64
  }
}
