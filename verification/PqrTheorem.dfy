/** Compiled products and quotients against the interpreter, instruction by instruction. */
module PqrTheorem {
  import opened Words
  import opened Bits
  import opened Ebpf
  import opened Alu
  import opened Faults
  import X86
  import Blinding
  import Pqr
  import Interpreter

  /** The bits of the opcode give the shape; the product's lower half counts as signed. */
  function ShapeOf(op: PqrOp, wide: bool): Pqr.Shape {
    Pqr.Shape(if wide then X86.S64 else X86.S32,
              op == Uhmul || op == Shmul || op == Urem || op == Srem,
              op == Udiv || op == Urem || op == Sdiv || op == Srem,
              op == Lmul || op == Shmul || op == Sdiv || op == Srem)
  }

  /** The immediate the compiler passes on: masked to 32 bits unless signed */
  function CompiledImmediate(op: PqrOp, wide: bool, imm: i64): i64 {
    if ShapeOf(op, wide).signed then imm else And(Wrap(imm), 0xFFFF_FFFF)
  }

  /** Only 64-bit products have an upper half. */
  predicate Exists(op: PqrOp, wide: bool) { wide || (op != Uhmul && op != Shmul) }

  // ----- the shapes mean what the interpreter computes -----

  /** The lower halves of the signed and the unsigned product are the same. */
  lemma SameLowerHalf(a: int, b: int, x: int, y: int, n: int)
    requires n > 0
    ensures (a - x * n) * (b - y * n) % n == a * b % n
  {
    var k := a * y + b * x - x * y * n;
    assert (a - x * n) * (b - y * n) == a * b - k * n;
    SameRemainder(a * b, k, n);
  }

  lemma SameRemainder(p: int, k: int, n: int)
    requires n > 0
    ensures (p - k * n) % n == p % n
  {
    var q, r := p / n, p % n;
    assert p - k * n == (q - k) * n + r;
    DivModUnique(p - k * n, n, q - k, r);
  }

  lemma SignedProduct(size: X86.Size, a: u64, b: u64)
    ensures X86.Product(size, true, a, b) % X86.Range(size) == X86.Cut(size, a) * X86.Cut(size, b) % X86.Range(size)
  {
    var n := X86.Range(size);
    var x := if X86.Sign(size, a) < 0 then 1 else 0;
    var y := if X86.Sign(size, b) < 0 then 1 else 0;
    assert X86.Sign(size, a) == X86.Cut(size, a) - x * n;
    assert X86.Sign(size, b) == X86.Cut(size, b) - y * n;
    SameLowerHalf(X86.Cut(size, a), X86.Cut(size, b), x, y, n);
  }

  ghost predicate Agrees(op: PqrOp, wide: bool, reg: bool, a: u64, b: u64) {
    Pqr.Reference(ShapeOf(op, wide), true, a, b) == if wide then Pqr64(op, reg, a, b) else Pqr32(op, reg, a, b)
  }

  lemma LmulAgrees(wide: bool, reg: bool, a: u64, b: u64)
    ensures Agrees(Lmul, wide, reg, a, b)
  {
    hide X86.Product, X86.Sign, TruncDiv, TruncRem, HostDivision, SignedDivision;
    var size := if wide then X86.S64 else X86.S32;
    SignedProduct(size, a, b);
    assert Pqr.Reference(ShapeOf(Lmul, wide), true, a, b)
      == Value(X86.Cut(size, a) * X86.Cut(size, b) % X86.Range(size));
  }

  lemma UpperHalfAgrees(op: PqrOp, reg: bool, a: u64, b: u64)
    requires op == Uhmul || op == Shmul
    ensures Agrees(op, true, reg, a, b)
  {
  }

  lemma UnsignedAgrees(op: PqrOp, wide: bool, reg: bool, a: u64, b: u64)
    requires op == Udiv || op == Urem
    requires !reg ==> X86.Cut(ShapeOf(op, wide).size, b) != 0
    ensures Agrees(op, wide, reg, a, b)
  {
    hide Pqr.Reference, SignedDivision;
    UnsignedReference(op, wide, a, b);
  }

  lemma UnsignedReference(op: PqrOp, wide: bool, a: u64, b: u64)
    requires op == Udiv || op == Urem
    ensures var size := if wide then X86.S64 else X86.S32; var x, y := X86.Cut(size, a), X86.Cut(size, b);
      Pqr.Reference(ShapeOf(op, wide), true, a, b)
      == if y == 0 then Fault(DivideByZero) else Value(if op == Urem then x % y else x / y)
  {
    hide X86.Product, X86.Sign, TruncDiv, TruncRem;
    var size := if wide then X86.S64 else X86.S32;
    var x, y := X86.Cut(size, a), X86.Cut(size, b);
    if y != 0 {
      SmallQuotient(x, y);
      SmallMod(if op == Urem then x % y else x / y, X86.Range(size));
    }
  }

  lemma SignedAgrees(op: PqrOp, wide: bool, reg: bool, a: u64, b: u64)
    requires op == Sdiv || op == Srem
    requires !reg ==> X86.Cut(ShapeOf(op, wide).size, b) != 0
    ensures Agrees(op, wide, reg, a, b)
  {
    hide TruncDiv, TruncRem;
    var size := ShapeOf(op, wide).size;
    Pqr.SignZero(size, b);
    var x, y := X86.Sign(size, a), X86.Sign(size, b);
    if y != 0 && !wide {
      LowOfWrap(TruncDiv(x, y));
      LowOfWrap(TruncRem(x, y));
    }
  }

  lemma LowOfWrap(z: int)
    ensures Low32(Wrap(z)) == z % TWO32
  {
    assert z == z / TWO64 * TWO64 + Wrap(z);
    SameRemainder(z, z / TWO64 * TWO32, TWO32);
  }

  /** With a divisor register anything can happen; immediate divisors are not zero. */
  lemma PqrReference(op: PqrOp, wide: bool, reg: bool, a: u64, b: u64)
    requires Exists(op, wide) && (ShapeOf(op, wide).division && !reg ==> X86.Cut(ShapeOf(op, wide).size, b) != 0)
    ensures Agrees(op, wide, reg, a, b)
  {
    hide Agrees;
    match op
    case Lmul => LmulAgrees(wide, reg, a, b);
    case Uhmul => UpperHalfAgrees(op, reg, a, b);
    case Shmul => UpperHalfAgrees(op, reg, a, b);
    case Udiv => UnsignedAgrees(op, wide, reg, a, b);
    case Urem => UnsignedAgrees(op, wide, reg, a, b);
    case Sdiv => SignedAgrees(op, wide, reg, a, b);
    case Srem => SignedAgrees(op, wide, reg, a, b);
  }

  /** Divisions before version 2 are unsigned. */
  lemma OldDivisionReference(v: Version, rem: bool, wide: bool, reg: bool, a: u64, b: u64)
    requires !reg ==> X86.Cut(if wide then X86.S64 else X86.S32, b) != 0
    ensures var op := if rem then Mod else Div;
      Pqr.Reference(Pqr.Shape(if wide then X86.S64 else X86.S32, rem, true, false),
                    v.ExplicitSignExtensionOfResults(), a, b)
      == if wide then Alu64(v, op, reg, a, b) else Alu32(v, op, reg, a, b)
  {
    hide Or64, And64, Xor64, Shl64, Shr64, Shl32, Shr32, Sar32, Sar64, SignExtension;
    var size := if wide then X86.S64 else X86.S32;
    var x, y := X86.Cut(size, a), X86.Cut(size, b);
    if y != 0 {
      SmallQuotient(x, y);
      SmallMod(x / y, X86.Range(size));
      SmallMod(x % y, X86.Range(size));
    }
  }

  // ----- guest instructions -----

  /** The host registers hold the guest registers. */
  ghost predicate Holds(cpu: X86.Cpu, g: Interpreter.Registers) {
    forall i: nat :: i < 11 ==> cpu.reg[X86.REGISTER_MAP[i]] == g[i]
  }

  /** The outcome shows what the interpreter computes: the new guest registers, or its error with the pc
      in scratch, and in either case the stack as it was. */
  ghost predicate Shows(o: X86.Outcome, cpu: X86.Cpu, g: Interpreter.Registers, dst: nat, c: Computed, pc: i64)
    requires dst < 11
  {
    match c
    case Value(x) =>
      && o.Running? && Holds(o.cpu, g[dst := x]) && o.cpu.reg[X86.RSP] == cpu.reg[X86.RSP]
      && Blinding.KeptAbove(cpu.mem, o.cpu.mem, cpu.reg[X86.RSP])
    case Fault(f) =>
      && (f == DivideByZero || f == DivideOverflow)
      && o.Left? && o.anchor == (if f == DivideByZero then X86.DivByZero else X86.DivOverflow)
      && Holds(o.at, g) && o.at.mem == cpu.mem && o.at.reg[X86.RSP] == cpu.reg[X86.RSP]
      && o.at.reg[X86.REGISTER_SCRATCH] == Wrap(pc)
  }

  lemma MapIsInjective(i: nat, j: nat)
    requires i < 11 && j < 11
    ensures X86.IsGuest(X86.REGISTER_MAP[i]) && (i != j ==> X86.REGISTER_MAP[i] != X86.REGISTER_MAP[j])
  {
  }

  lemma DeliversShows(o: X86.Outcome, cpu: X86.Cpu, g: Interpreter.Registers, dst: nat, c: Computed, pc: i64)
    requires dst < 11 && Holds(cpu, g) && Pqr.Delivers(o, cpu, X86.REGISTER_MAP[dst], c, pc)
    requires c.Fault? ==> c.fault == DivideByZero || c.fault == DivideOverflow
    ensures Shows(o, cpu, g, dst, c, pc)
  {
    forall i: nat | i < 11
      ensures X86.IsGuest(X86.REGISTER_MAP[i]) && (i != dst ==> X86.REGISTER_MAP[i] != X86.REGISTER_MAP[dst])
    {
      MapIsInjective(i, dst);
    }
  }

  /** What the compiler emits for a product, quotient or remainder of version 2 */
  function EmitPqr(op: PqrOp, wide: bool, reg: bool, insn: Insn, enabled: bool, key: i64, pc: i64): seq<X86.Instruction>
    requires Interpreter.NamesRegisters(insn)
  {
    var dst := X86.REGISTER_MAP[insn.dst];
    var src := if reg then X86.REGISTER_MAP[insn.src] else dst;
    Pqr.Emit(ShapeOf(op, wide), enabled, key, true, pc, src, dst,
             if reg then None else Some(CompiledImmediate(op, wide, insn.imm)))
  }

  /** The compiler's immediate and the interpreter's are the same operand. */
  lemma SameImmediate(op: PqrOp, wide: bool, imm: i64)
    requires Exists(op, wide) && -TWO31 <= imm < TWO31
    ensures var c := Wrap(CompiledImmediate(op, wide, imm)); var b := PqrImmediate(op, wide, imm);
      (wide ==> c == b) && Low32(c) == Low32(b) && (imm != 0 ==> Low32(b) != 0)
    ensures ShapeOf(op, wide).signed ==> CompiledImmediate(op, wide, imm) == imm
  {
    hide And, Pow2;
    Pow2Values();
    AndLowMask(Wrap(imm), 32);
    assert Wrap(imm) % TWO32 == Wrap32(imm);
  }

  /** 32-bit operations do not depend on the upper half of their operand. */
  lemma LowOperand(s: Pqr.Shape, a: u64, b: u64, b': u64)
    requires s.size == X86.S32 && Low32(b) == Low32(b')
    ensures Pqr.Reference(s, true, a, b) == Pqr.Reference(s, true, a, b')
  {
    hide TruncDiv, TruncRem;
  }

  lemma ImmediateOk(op: PqrOp, wide: bool, imm: i64)
    requires Exists(op, wide) && -TWO31 <= imm < TWO31 && (ShapeOf(op, wide).division ==> imm != 0)
    ensures Pqr.OperandOk(ShapeOf(op, wide), Some(CompiledImmediate(op, wide, imm)))
  {
    hide CompiledImmediate, PqrImmediate;
    SameImmediate(op, wide, imm);
    var c := Wrap(CompiledImmediate(op, wide, imm));
    assert imm != 0 ==> c % TWO32 != 0;
  }

  /** Against the meaning of the operation, with the interpreter's operand */
  lemma EmitPqrDelivers(op: PqrOp, wide: bool, reg: bool, insn: Insn, enabled: bool, key: i64, pc: i64,
                        g: Interpreter.Registers, cpu: X86.Cpu, b: u64)
    requires Interpreter.NamesRegisters(insn) && Exists(op, wide) && -TWO31 <= insn.imm < TWO31
    requires !reg && ShapeOf(op, wide).division ==> insn.imm != 0
    requires Holds(cpu, g) && 16 <= cpu.reg[X86.RSP]
    requires b == if reg then g[insn.src] else PqrImmediate(op, wide, insn.imm)
    ensures Pqr.Delivers(X86.Run(EmitPqr(op, wide, reg, insn, enabled, key, pc), cpu), cpu, X86.REGISTER_MAP[insn.dst],
                         Pqr.Reference(ShapeOf(op, wide), true, g[insn.dst], b), pc)
  {
    hide X86.Run, Pqr.Emit, Pqr.Reference, Pqr.Delivers, CompiledImmediate, PqrImmediate, ShapeOf, Pqr.OperandOk;
    var dst := X86.REGISTER_MAP[insn.dst];
    var src := if reg then X86.REGISTER_MAP[insn.src] else dst;
    var imm := if reg then None else Some(CompiledImmediate(op, wide, insn.imm));
    var s := ShapeOf(op, wide);
    MapIsInjective(insn.dst, insn.src);
    MapIsInjective(insn.src, insn.dst);
    RegisterOk(s);
    SizeOf(op, wide);
    if !reg {
      ImmediateOk(op, wide, insn.imm);
      SameImmediate(op, wide, insn.imm);
    }
    Pqr.EmitDelivers(s, enabled, key, true, pc, src, dst, imm, cpu);
    if !wide {
      LowOperand(s, g[insn.dst], Pqr.Operand(cpu, src, imm), b);
    }
  }

  lemma RegisterOk(s: Pqr.Shape)
    ensures Pqr.OperandOk(s, None)
  {
  }

  lemma SizeOf(op: PqrOp, wide: bool)
    ensures ShapeOf(op, wide).size == if wide then X86.S64 else X86.S32
  {
  }

  lemma DivisorNonzero(op: PqrOp, wide: bool, imm: i64)
    requires Exists(op, wide) && -TWO31 <= imm < TWO31 && imm != 0
    ensures X86.Cut(ShapeOf(op, wide).size, PqrImmediate(op, wide, imm)) != 0
  {
    SameImmediate(op, wide, imm);
  }

  /** For every choice of operands and registers, the compiled instruction leaves the guest registers as
      the interpreter does, or raises the same error, and keeps the stack. */
  lemma PqrRefinesInterpreter(op: PqrOp, wide: bool, reg: bool, insn: Insn, enabled: bool, key: i64, pc: i64,
                              g: Interpreter.Registers, cpu: X86.Cpu)
    requires Interpreter.NamesRegisters(insn) && Exists(op, wide) && -TWO31 <= insn.imm < TWO31
    requires !reg && ShapeOf(op, wide).division ==> insn.imm != 0
    requires Holds(cpu, g) && 16 <= cpu.reg[X86.RSP]
    ensures Shows(X86.Run(EmitPqr(op, wide, reg, insn, enabled, key, pc), cpu), cpu, g, insn.dst,
                  Interpreter.Compute(V2, Pqr(op, wide, reg), insn, g), pc)
  {
    hide X86.Run, Pqr.Emit, Pqr.Reference, Pqr64, Pqr32, Shows, Pqr.Delivers, EmitPqr, ShapeOf, PqrImmediate, Holds;
    var b := if reg then g[insn.src] else PqrImmediate(op, wide, insn.imm);
    EmitPqrDelivers(op, wide, reg, insn, enabled, key, pc, g, cpu, b);
    if !reg && ShapeOf(op, wide).division {
      DivisorNonzero(op, wide, insn.imm);
    }
    PqrReference(op, wide, reg, g[insn.dst], b);
    var o := X86.Run(EmitPqr(op, wide, reg, insn, enabled, key, pc), cpu);
    FaultsOfReference(ShapeOf(op, wide), true, g[insn.dst], b);
    DeliversShows(o, cpu, g, insn.dst, Pqr.Reference(ShapeOf(op, wide), true, g[insn.dst], b), pc);
  }

  lemma FaultsOfReference(s: Pqr.Shape, explicit: bool, a: u64, b: u64)
    ensures var c := Pqr.Reference(s, explicit, a, b); c.Fault? ==> c.fault == DivideByZero || c.fault == DivideOverflow
  {
  }

  /** What the compiler emits for a division or remainder before version 2 */
  function EmitDivision(v: Version, rem: bool, wide: bool, reg: bool, insn: Insn, enabled: bool, key: i64, pc: i64)
    : seq<X86.Instruction>
    requires Interpreter.NamesRegisters(insn)
  {
    var dst := X86.REGISTER_MAP[insn.dst];
    var src := if reg then X86.REGISTER_MAP[insn.src] else dst;
    Pqr.Emit(Pqr.Shape(if wide then X86.S64 else X86.S32, rem, true, false), enabled, key,
             v.ExplicitSignExtensionOfResults(), pc, src, dst, if reg then None else Some(insn.imm))
  }

  lemma DivisionRefinesInterpreter(v: Version, rem: bool, wide: bool, reg: bool, insn: Insn, enabled: bool, key: i64,
                                   pc: i64, g: Interpreter.Registers, cpu: X86.Cpu)
    requires Interpreter.NamesRegisters(insn) && -TWO31 <= insn.imm < TWO31 && (!reg ==> insn.imm != 0)
    requires Holds(cpu, g) && 16 <= cpu.reg[X86.RSP]
    ensures Shows(X86.Run(EmitDivision(v, rem, wide, reg, insn, enabled, key, pc), cpu), cpu, g, insn.dst,
                  Interpreter.Compute(v, Alu(if rem then Mod else Div, wide, reg), insn, g), pc)
  {
    hide X86.Run, Pqr.Emit, Pqr.Reference, Alu64, Alu32, Shows, Pqr.Delivers;
    var dst := X86.REGISTER_MAP[insn.dst];
    var src := if reg then X86.REGISTER_MAP[insn.src] else dst;
    var imm := if reg then None else Some(insn.imm);
    var s := Pqr.Shape(if wide then X86.S64 else X86.S32, rem, true, false);
    MapIsInjective(insn.dst, insn.src);
    MapIsInjective(insn.src, insn.dst);
    NonzeroOperand(insn.imm);
    Pqr.EmitDelivers(s, enabled, key, v.ExplicitSignExtensionOfResults(), pc, src, dst, imm, cpu);
    var a, b := g[insn.dst], Pqr.Operand(cpu, src, imm);
    OldDivisionReference(v, rem, wide, reg, a, b);
    var o := X86.Run(EmitDivision(v, rem, wide, reg, insn, enabled, key, pc), cpu);
    FaultsOfReference(s, v.ExplicitSignExtensionOfResults(), a, b);
    DeliversShows(o, cpu, g, insn.dst, Pqr.Reference(s, v.ExplicitSignExtensionOfResults(), a, b), pc);
  }

  lemma NonzeroOperand(imm: int)
    requires -TWO31 <= imm < TWO31
    ensures imm != 0 ==> X86.Cut(X86.S32, Wrap(imm)) != 0 && X86.Cut(X86.S64, Wrap(imm)) != 0
  {
  }
}
