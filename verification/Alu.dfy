/** Arithmetic of the interpreter. A host panic (an unchecked division by zero, or the quotient of
    the least number and minus one) is an outcome of its own. */
module Alu {
  import opened Words
  import opened Bits
  import opened Ebpf
  import opened Faults

  datatype Computed = Value(value: u64) | Fault(fault: Fault)

  function Or64(a: u64, b: u64): u64 { Pow2Values(); OrBound(a, b, 64); Or(a, b) }

  function And64(a: u64, b: u64): u64 { And(a, b) }

  function Xor64(a: u64, b: u64): u64 { Pow2Values(); XorBound(a, b, 64); Xor(a, b) }

  function Low32(a: u64): u32 { a % TWO32 }

  function Shl64(a: u64, count: u64): u64 { Wrap(a * Pow2(count % 64)) }

  function Shr64(a: u64, count: u64): u64 { Shift(a, count % 64) }

  function Shl32(a: u32, count: u64): u32 { Wrap32(a * Pow2(count % 32)) }

  function Shr32(a: u32, count: u64): u32 { Shift(a, count % 32) }

  function Shift(a: nat, count: nat): (r: nat)
    ensures r <= a
  {
    SmallQuotient(a, Pow2(count));
    a / Pow2(count)
  }

  /** Arithmetic shift right: rounds down */
  function Sar64(a: u64, count: u64): u64 { Wrap(Signed64(a) / Pow2(count % 64)) }

  function Sar32(a: u32, count: u64): u32 { Wrap32(Signed32(a) / Pow2(count % 32)) }

  function Abs(a: int): nat { if a < 0 then -a else a }

  /** Division that rounds toward zero */
  function TruncDiv(a: int, b: int): int
    requires b != 0
  {
    var q := Abs(a) / Abs(b);
    if (a < 0) == (b < 0) then q else -q
  }

  /** The remainder takes the sign of the dividend. */
  function TruncRem(a: int, b: int): int
    requires b != 0
  {
    a - b * TruncDiv(a, b)
  }

  /** How the 32-bit results of additions, subtractions and products are widened */
  function SignExtension(v: Version, r: u32): u64 {
    if v.ExplicitSignExtensionOfResults() then r else Wrap(Signed32(r))
  }

  /** A zero divisor in a register is reported; the interpreter does not check an immediate. */
  function ZeroDivisor(reg: bool): Computed { Fault(if reg then DivideByZero else HostPanic) }

  function Alu32(v: Version, op: AluOp, reg: bool, dst: u64, operand: u64): Computed {
    var a, b := Low32(dst), Low32(operand);
    match op
    case Add => Value(SignExtension(v, Wrap32(a + b)))
    case Sub => Value(SignExtension(v, if !reg && v.SwapSubRegImmOperands() then Wrap32(b - a) else Wrap32(a - b)))
    case Mul => Value(SignExtension(v, Wrap32(a * b)))
    case Div => if b == 0 then ZeroDivisor(reg) else Value(a / b)
    case BitOr => Value(Low32(Or64(a, b)))
    case BitAnd => Value(And64(a, b))
    case Lsh => Value(Shl32(a, b))
    case Rsh => Value(Shr32(a, b))
    case Mod => if b == 0 then ZeroDivisor(reg) else Value(a % b)
    case BitXor => Value(Low32(Xor64(a, b)))
    case Mov => Value(if reg && v.ExplicitSignExtensionOfResults() then Wrap(Signed32(b)) else b)
    case Arsh => Value(Sar32(a, b))
  }

  function Alu64(v: Version, op: AluOp, reg: bool, a: u64, b: u64): Computed {
    match op
    case Add => Value(Wrap(a + b))
    case Sub => Value(if !reg && v.SwapSubRegImmOperands() then Wrap(b - a) else Wrap(a - b))
    case Mul => Value(Wrap(a * b))
    case Div => if b == 0 then ZeroDivisor(reg) else Value(a / b)
    case BitOr => Value(Or64(a, b))
    case BitAnd => Value(And64(a, b))
    case Lsh => Value(Shl64(a, b))
    case Rsh => Value(Shr64(a, b))
    case Mod => if b == 0 then ZeroDivisor(reg) else Value(a % b)
    case BitXor => Value(Xor64(a, b))
    case Mov => Value(b)
    case Arsh => Value(Sar64(a, b))
  }

  function Neg(wide: bool, a: u64): u64 { if wide then Wrap(TWO64 - a) else Wrap32(TWO32 - Low32(a)) }

  /** The host's own signed division panics on zero and on its one overflow. */
  function HostDivision(rem: bool, a: int, b: int, least: int): Computed {
    if b == 0 || (a == least && b == -1) then Fault(HostPanic)
    else Value(Wrap(if rem then TruncRem(a, b) else TruncDiv(a, b)))
  }

  /** A zero register is reported first, then the overflow. */
  function SignedDivision(rem: bool, reg: bool, a: int, b: int, least: int): Computed {
    if reg && b == 0 then Fault(DivideByZero)
    else if a == least && b == -1 then Fault(DivideOverflow)
    else HostDivision(rem, a, b, least)
  }

  function Pqr32(op: PqrOp, reg: bool, dst: u64, operand: u64): Computed {
    var a, b := Low32(dst), Low32(operand);
    match op
    case Lmul => Value(Wrap32(a * b))
    case Udiv => if b == 0 then ZeroDivisor(reg) else Value(a / b)
    case Urem => if b == 0 then ZeroDivisor(reg) else Value(a % b)
    case Sdiv => Narrow(SignedDivision(false, reg, Signed32(a), Signed32(b), -TWO31))
    case Srem => Narrow(SignedDivision(true, reg, Signed32(a), Signed32(b), -TWO31))
    case _ => Fault(InvalidInstruction)
  }

  function Narrow(c: Computed): Computed {
    match c case Value(x) => Value(Low32(x)) case _ => c
  }

  function Pqr64(op: PqrOp, reg: bool, a: u64, b: u64): Computed {
    match op
    case Lmul => Value(Wrap(a * b))
    case Uhmul => Value(Wrap(a * b / TWO64))
    case Shmul => Value(Wrap(Signed64(a) * Signed64(b) / TWO64))
    case Udiv => if b == 0 then ZeroDivisor(reg) else Value(a / b)
    case Urem => if b == 0 then ZeroDivisor(reg) else Value(a % b)
    case Sdiv => SignedDivision(false, reg, Signed64(a), Signed64(b), -TWO63)
    case Srem => SignedDivision(true, reg, Signed64(a), Signed64(b), -TWO63)
  }

  /** The second operand of a product or quotient: unsigned 64-bit ones take the immediate as an
      unsigned 32-bit number. */
  function PqrImmediate(op: PqrOp, wide: bool, imm: i64): u64 {
    if wide && (op == Uhmul || op == Udiv || op == Urem) then Wrap32(imm) else Wrap(imm)
  }

  predicate Compare(c: Condition, wide: bool, dst: u64, operand: u64) {
    var a, b := if wide then dst else Low32(dst), if wide then operand else Low32(operand);
    var sa := if wide then Signed64(dst) else Signed32(Low32(dst));
    var sb := if wide then Signed64(operand) else Signed32(Low32(operand));
    match c
    case Jeq => a == b
    case Jgt => a > b
    case Jge => a >= b
    case Jset => And(a, b) != 0
    case Jne => a != b
    case Jsgt => sa > sb
    case Jsge => sa >= sb
    case Jlt => a < b
    case Jle => a <= b
    case Jslt => sa < sb
    case Jsle => sa <= sb
  }

  function Truncated(x: u64, bits: i64): Computed {
    match bits
    case 16 => Value(x % TWO16)
    case 32 => Value(Low32(x))
    case 64 => Value(x)
    case _ => Fault(InvalidInstruction)
  }

  function SwapBytes(x: u64, bits: i64): Computed {
    match bits
    case 16 => Value(Wrap(Reversed(x, 2)))
    case 32 => Value(Wrap(Reversed(x, 4)))
    case 64 => Value(Wrap(Reversed(x, 8)))
    case _ => Fault(InvalidInstruction)
  }

  /** The `n` low bytes of `x` in the opposite order */
  function Reversed(x: nat, n: nat): nat {
    if n == 0 then 0 else x % 256 * Pow2(8 * (n - 1)) + Reversed(x / 256, n - 1)
  }
}
