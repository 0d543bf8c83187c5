/** Fixed-width unsigned words as bounded integers, with the wrapping and saturating operations of
    the virtual machine written out. */
module Words {

  const TWO16: int := 0x1_0000
  const TWO31: int := 0x8000_0000
  const TWO32: int := 0x1_0000_0000
  const TWO63: int := 0x8000_0000_0000_0000
  const TWO64: int := 0x1_0000_0000_0000_0000
  const U64_MAX: int := 0xFFFF_FFFF_FFFF_FFFF

  type u8 = x: int | 0 <= x < 256
  type u32 = x: int | 0 <= x < TWO32
  type u64 = x: int | 0 <= x < TWO64
  type i16 = x: int | -0x8000 <= x < 0x8000
  type i32 = x: int | -TWO31 <= x < TWO31
  type i64 = x: int | -TWO63 <= x < TWO63

  datatype Option<+T> = None | Some(value: T)

  function Wrap(x: int): u64 { x % TWO64 }

  function Wrap32(x: int): u32 { x % TWO32 }

  function Min(a: int, b: int): int { if a < b then a else b }

  function SatAdd(a: u64, b: u64): u64 { if a + b > U64_MAX then U64_MAX else a + b }

  function SatSub(a: u64, b: u64): u64 { if a < b then 0 else a - b }

  function SatMul(a: u64, b: u64): u64 {
    ProductOfNats(a, b);
    if a * b > U64_MAX then U64_MAX else a * b
  }

  lemma ProductOfNats(a: nat, b: nat)
    ensures a * b >= 0
  {
  }

  function CheckedAdd(a: u64, b: u64): Option<u64> { if a + b > U64_MAX then None else Some(a + b) }

  /** Two's complement reading of a 64-bit word */
  function Signed64(x: u64): int { if x < TWO63 then x else x - TWO64 }

  /** Two's complement reading of a 32-bit word */
  function Signed32(x: u32): int { if x < TWO31 then x else x - TWO32 }
}
