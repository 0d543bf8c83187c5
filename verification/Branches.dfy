/** Conditions of jumps: the laws that tie the eleven of them together, and the compare instruction and
    condition code that compiled code uses for each, after the processor's own flags. */
module Branches {
  import opened Words
  import opened Bits
  import opened BitLaws
  import opened Ebpf
  import opened Alu
  import X86

  // ----- laws of the conditions -----

  /** The number added to both operands to compare signed numbers as unsigned ones */
  function Bias(wide: bool): u64 { if wide then TWO63 else TWO31 }

  /** Equality is reflexive on the compared bits and nothing else, the other conditions are its complement,
      its union with an order, and that order turned around. */
  lemma UnsignedLaws(wide: bool, a: u64, b: u64)
    ensures Compare(Jeq, wide, a, b) <==> (if wide then a == b else a % TWO32 == b % TWO32)
    ensures Compare(Jne, wide, a, b) <==> !Compare(Jeq, wide, a, b)
    ensures Compare(Jgt, wide, a, b) <==> Compare(Jlt, wide, b, a)
    ensures Compare(Jge, wide, a, b) <==> Compare(Jgt, wide, a, b) || Compare(Jeq, wide, a, b)
    ensures Compare(Jle, wide, a, b) <==> !Compare(Jgt, wide, a, b)
    ensures Compare(Jlt, wide, a, b) <==> !Compare(Jge, wide, a, b)
  {
  }

  /** The order is strict, transitive and goes up by one, and so is the only one of its kind. */
  lemma OrderLaws(wide: bool, a: u64, b: u64, c: u64)
    ensures !(Compare(Jlt, wide, a, b) && Compare(Jlt, wide, b, a))
    ensures Compare(Jlt, wide, a, b) && Compare(Jlt, wide, b, c) ==> Compare(Jlt, wide, a, c)
    ensures Compare(Jne, wide, a, 2 * Bias(wide) - 1) ==> Compare(Jlt, wide, a, Wrap(a + 1))
  {
    NextLow(a, 1);
  }

  /** The low half of a sum */
  lemma NextLow(a: u64, b: u64)
    ensures var sum := Low32(a) + Low32(b); Low32(Wrap(a + b)) == if sum < TWO32 then sum else sum - TWO32
  {
    assert TWO32 * TWO32 == TWO64;
    ModOfMod(a + b, TWO32, TWO32);
    ModAdd(a, b, TWO32);
    ModAdd(b, Low32(a), TWO32);
  }

  /** Signed conditions are the unsigned ones on operands moved up by half the range. */
  lemma SignedLaws(wide: bool, a: u64, b: u64)
    ensures var x, y := Wrap(a + Bias(wide)), Wrap(b + Bias(wide));
      && (Compare(Jsgt, wide, a, b) <==> Compare(Jgt, wide, x, y))
      && (Compare(Jsge, wide, a, b) <==> Compare(Jge, wide, x, y))
      && (Compare(Jslt, wide, a, b) <==> Compare(Jlt, wide, x, y))
      && (Compare(Jsle, wide, a, b) <==> Compare(Jle, wide, x, y))
  {
    hide And;
    if wide {
      Moved64(a);
      Moved64(b);
    } else {
      Moved32(a);
      Moved32(b);
    }
    hide Low32, Wrap, Signed64, Signed32;
  }

  lemma Moved64(a: u64)
    ensures Wrap(a + TWO63) == Signed64(a) + TWO63
  {
  }

  lemma Moved32(a: u64)
    ensures Low32(Wrap(a + TWO31)) == Signed32(Low32(a)) + TWO31
  {
    NextLow(a, TWO31);
  }

  /** Narrow conditions see the low halves only. */
  lemma NarrowLaws(c: Condition, a: u64, b: u64)
    ensures Compare(c, false, a, b) <==> Compare(c, false, Low32(a), Low32(b))
  {
    hide And;
  }

  /** The bit test holds if and only if some compared bit is set in both operands. */
  lemma BitTestLaw(wide: bool, a: u64, b: u64)
    ensures Compare(Jset, wide, a, b) <==> exists k: nat :: k < (if wide then 64 else 32) && Bit(a, k) && Bit(b, k)
  {
    hide And, Bit, Pow2;
    Pow2Values();
    var n := if wide then 64 else 32;
    var x, y := a % Pow2(n), b % Pow2(n);
    AndMeets(x, y);
    forall k: nat ensures Bit(x, k) <==> k < n && Bit(a, k) { LowBits(a, n, k); }
    forall k: nat ensures Bit(y, k) <==> k < n && Bit(b, k) { LowBits(b, n, k); }
  }

  // ----- the compiled branch -----

  /** The processor's status flags */
  datatype Flags = Flags(carry: bool, zero: bool, sign: bool, overflow: bool)

  predicate Negative(size: X86.Size, x: int) { x >= X86.Range(size) / 2 }

  /** Flags of the subtraction `a - b`: a borrow, a zero result, a negative result, and a result whose sign
      is wrong */
  function CmpFlags(size: X86.Size, a: u64, b: u64): Flags {
    var x, y := X86.Cut(size, a), X86.Cut(size, b);
    var r := (x - y) % X86.Range(size);
    Flags(x - y < 0, r == 0, Negative(size, r),
          Negative(size, x) != Negative(size, y) && Negative(size, r) != Negative(size, x))
  }

  /** Flags of the bitwise and, which cannot carry or overflow */
  function TestFlags(size: X86.Size, a: u64, b: u64): Flags {
    var r := And(X86.Cut(size, a), X86.Cut(size, b));
    Flags(false, r == 0, Negative(size, r), false)
  }

  /** When the conditional jump with opcode 0x0f, `code` is taken */
  predicate Jumps(code: u8, f: Flags) {
    match code
    case 0x82 => f.carry
    case 0x83 => !f.carry
    case 0x84 => f.zero
    case 0x85 => !f.zero
    case 0x86 => f.carry || f.zero
    case 0x87 => !f.carry && !f.zero
    case 0x8c => f.sign != f.overflow
    case 0x8d => f.sign == f.overflow
    case 0x8e => f.zero || f.sign != f.overflow
    case 0x8f => !f.zero && f.sign == f.overflow
    case _ => false
  }

  /** The code that the compiler emits for a condition */
  function ConditionCode(c: Condition): u8 {
    match c
    case Jeq => 0x84
    case Jgt => 0x87
    case Jge => 0x83
    case Jset => 0x85
    case Jne => 0x85
    case Jsgt => 0x8f
    case Jsge => 0x8d
    case Jlt => 0x82
    case Jle => 0x86
    case Jslt => 0x8c
    case Jsle => 0x8e
  }

  /** Compares, or tests bits for `Jset`, and jumps on the condition's code. */
  predicate CompiledBranch(c: Condition, wide: bool, dst: u64, operand: u64) {
    var size := if wide then X86.S64 else X86.S32;
    Jumps(ConditionCode(c), if c == Jset then TestFlags(size, dst, operand) else CmpFlags(size, dst, operand))
  }

  /** What the flags of a comparison say about the compared numbers */
  lemma FlagsMean(size: X86.Size, a: u64, b: u64)
    ensures var f, x, y := CmpFlags(size, a, b), X86.Cut(size, a), X86.Cut(size, b);
      && (f.carry <==> x < y) && (f.zero <==> x == y)
      && (f.zero <==> X86.Sign(size, a) == X86.Sign(size, b))
      && (f.sign != f.overflow <==> X86.Sign(size, a) < X86.Sign(size, b))
  {
    var n, x, y := X86.Range(size), X86.Cut(size, a), X86.Cut(size, b);
    DivModUnique(x - y, n, if x < y then -1 else 0, if x < y then x - y + n else x - y);
    SignOf(size, a);
    SignOf(size, b);
    hide X86.Cut, X86.Sign;
  }

  lemma SignOf(size: X86.Size, a: u64)
    ensures var x := X86.Cut(size, a);
      0 <= x < X86.Range(size) && X86.Sign(size, a) == if Negative(size, x) then x - X86.Range(size) else x
  {
  }

  /** Compiled and interpreted conditional jumps are taken on the same operands. */
  lemma BranchRefinesInterpreter(c: Condition, wide: bool, dst: u64, operand: u64)
    ensures CompiledBranch(c, wide, dst, operand) <==> Compare(c, wide, dst, operand)
  {
    hide And;
    var size := if wide then X86.S64 else X86.S32;
    FlagsMean(size, dst, operand);
    SizesAgree(wide, dst);
    SizesAgree(wide, operand);
    hide CmpFlags, X86.Cut, X86.Sign, Low32, Signed64, Signed32;
  }

  lemma SizesAgree(wide: bool, a: u64)
    ensures X86.Cut(if wide then X86.S64 else X86.S32, a) == if wide then a else Low32(a)
    ensures X86.Sign(if wide then X86.S64 else X86.S32, a) == if wide then Signed64(a) else Signed32(Low32(a))
  {
  }
}
