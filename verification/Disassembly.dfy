/** Assembled instructions printed back as the statements they come from. */
module Disassembly {
  import opened Words
  import Bits
  import opened Ebpf
  import opened Assembler

  /** An operand in print: a register, a number, or a place in memory; `Name` is a label that means nothing */
  datatype Printed = Reg(n: int) | Int(n: int) | Mem(base: int, off: int) | Name(name: string)

  // ----- reading an instruction -----

  /** The operands of an instruction of type `t` at slot `ptr`; `wide` is the immediate of a wide load. */
  function Print(v: Version, t: InstructionType, insn: Insn, ptr: nat, wide: int): seq<Printed> {
    var second := if SourceIsRegister(insn.opc) then Reg(insn.src) else Int(insn.imm);
    match t
    case AluBinary => [Reg(insn.dst), second]
    case AluUnary => [Reg(insn.dst)]
    case LoadDwImm => [Reg(insn.dst), Int(wide)]
    case LoadReg => [Reg(insn.dst), Mem(insn.src, insn.off)]
    case StoreImm => [Mem(insn.dst, insn.off), Int(insn.imm)]
    case StoreReg => [Mem(insn.dst, insn.off), Reg(insn.src)]
    case JumpUnconditional => [Int(insn.off)]
    case JumpConditional => [Reg(insn.dst), second, Int(insn.off)]
    case Syscall => [Int(insn.imm)]
    case CallImm => [Int(if v.StaticSyscalls() then insn.imm else insn.imm - ptr - 1)]
    case CallReg =>
      [Reg(if v.CallxUsesSrcReg() then insn.src else if v.CallxUsesDstReg() then insn.dst else insn.imm)]
    case Endian(_) => [Reg(insn.dst)]
    case NoOperand => []
  }

  /** Fields that are not printed have their one value. */
  predicate Canonical(v: Version, t: InstructionType, insn: Insn, wide: int) {
    var unused := if SourceIsRegister(insn.opc) then insn.imm == 0 else insn.src == 0;
    match t
    case AluBinary => insn.off == 0 && unused
    case AluUnary => insn.src == 0 && insn.off == 0 && insn.imm == 0
    case LoadDwImm => insn.src == 0 && insn.off == 0 && insn.imm == Signed32(Wrap32(wide))
    case LoadReg => insn.imm == 0
    case StoreImm => insn.src == 0
    case StoreReg => insn.imm == 0
    case JumpUnconditional => insn.dst == 0 && insn.src == 0 && insn.imm == 0
    case JumpConditional => unused
    case Syscall => insn.dst == 0 && insn.src == 0 && insn.off == 0
    case CallImm => insn.dst == 0 && insn.off == 0 && insn.src == if v.StaticSyscalls() then 1 else 0
    case CallReg =>
      && insn.off == 0 && (v.CallxUsesSrcReg() || insn.src == 0)
      && ((v.CallxUsesDstReg() && !v.CallxUsesSrcReg()) || insn.dst == 0)
      && (!(v.CallxUsesSrcReg() || v.CallxUsesDstReg()) || insn.imm == 0)
    case Endian(bits) => insn.src == 0 && insn.off == 0 && insn.imm == bits
    case NoOperand => insn.dst == 0 && insn.src == 0 && insn.off == 0 && insn.imm == 0
  }

  predicate HasSource(t: InstructionType) { t == AluBinary || t == JumpConditional }

  /** The opcode of the table, with the source bit where the second operand is a register */
  predicate OpcodeFor(t: InstructionType, opc: u8, insn: Insn) {
    insn.opc == if HasSource(t) && SourceIsRegister(insn.opc) then WithRegister(opc) else opc
  }

  // ----- what a statement means -----

  /** Labels stand for their distance from the next slot, and for the hash of their name in syscalls. */
  function Meant(hash: string -> i32, t: InstructionType, ptr: nat, labels: map<string, u64>, op: Operand,
                 last: bool): Printed
  {
    match op
    case Register(n) => Reg(n)
    case Integer(n) => Int(n)
    case Memory(base, off) => Mem(base, off)
    case LabelOperand(name) =>
      if t == Syscall && last then Int(hash(name))
      else if (t == JumpUnconditional || t == JumpConditional || t == InstructionType.CallImm) && last && name in labels
      then Int(Signed64(labels[name]) - ptr - 1)
      else Name(name)
  }

  function MeantAll(hash: string -> i32, t: InstructionType, ptr: nat, labels: map<string, u64>,
                    ops: seq<Operand>): seq<Printed>
  {
    seq(|ops|, i requires 0 <= i < |ops| => Meant(hash, t, ptr, labels, ops[i], i == |ops| - 1))
  }

  /** Moving the frame pointer by an immediate, which versions without manual frames turn into a no-op */
  predicate Dropped(v: Version, t: InstructionType, opc: u8, ops: seq<Operand>) {
    && t == AluBinary && opc == 0x07 && !v.ManualStackFrameBump()
    && |ops| == 2 && ops[0] == Register(10) && ops[1].Integer?
  }

  /** The instruction is the encoding of the operands. */
  ghost predicate Stands(v: Version, hash: string -> i32, t: InstructionType, opc: u8, ops: seq<Operand>, ptr: nat,
                         labels: map<string, u64>, insn: Insn, wide: int)
  {
    && Fits(insn) && OpcodeFor(t, opc, insn) && Canonical(v, t, insn, wide)
    && Print(v, t, insn, ptr, wide) == MeantAll(hash, t, ptr, labels, ops)
    && -TWO63 <= wide < TWO63
  }

  /** An operation with a second operand has the source bit clear in the table. */
  ghost predicate SourceBitClear(t: InstructionType, opc: u8) { HasSource(t) ==> !SourceIsRegister(opc) }

  // ----- encoding is the inverse of printing -----

  /** The immediate of a wide load is the one printed. */
  ghost predicate WideOk(t: InstructionType, ops: seq<Operand>, wide: int) {
    -TWO63 <= wide < TWO63 && (t == LoadDwImm && |ops| == 2 && ops[1].Integer? ==> wide == ops[1].n)
  }

  ghost predicate Exact(v: Version, hash: string -> i32, t: InstructionType, opc: u8, ops: seq<Operand>, ptr: nat,
                        labels: map<string, u64>, insn: Insn, wide: int)
  {
    Stands(v, hash, t, opc, ops, ptr, labels, insn, wide) <==>
    EncodeInsn(v, hash, t, opc, ops, ptr, labels) == Ok(insn) && WideOk(t, ops, wide)
  }

  /** A sequence of one, two or three operands, one by one */
  lemma MeantEach(hash: string -> i32, t: InstructionType, ptr: nat, labels: map<string, u64>, ops: seq<Operand>)
    ensures |ops| == 1 ==> MeantAll(hash, t, ptr, labels, ops) == [Meant(hash, t, ptr, labels, ops[0], true)]
    ensures |ops| == 2 ==>
      MeantAll(hash, t, ptr, labels, ops) ==
      [Meant(hash, t, ptr, labels, ops[0], false), Meant(hash, t, ptr, labels, ops[1], true)]
    ensures |ops| == 3 ==>
      MeantAll(hash, t, ptr, labels, ops) ==
      [Meant(hash, t, ptr, labels, ops[0], false), Meant(hash, t, ptr, labels, ops[1], false),
       Meant(hash, t, ptr, labels, ops[2], true)]
    ensures |MeantAll(hash, t, ptr, labels, ops)| == |ops|
  {
    hide Meant;
  }

  lemma ExactAlu(v: Version, hash: string -> i32, t: InstructionType, opc: u8, ops: seq<Operand>, ptr: nat,
             labels: map<string, u64>, insn: Insn, wide: int)
    requires t == AluBinary
    requires SourceBitClear(t, opc) && !Dropped(v, t, opc, ops)
    ensures Exact(v, hash, t, opc, ops, ptr, labels, insn, wide)
  {
    hide MeantAll;
    MeantEach(hash, t, ptr, labels, ops);
  }

  lemma ExactMemory(v: Version, hash: string -> i32, t: InstructionType, opc: u8, ops: seq<Operand>, ptr: nat,
             labels: map<string, u64>, insn: Insn, wide: int)
    requires t == LoadReg || t == StoreReg || t == StoreImm
    requires SourceBitClear(t, opc) && !Dropped(v, t, opc, ops)
    ensures Exact(v, hash, t, opc, ops, ptr, labels, insn, wide)
  {
    hide MeantAll;
    MeantEach(hash, t, ptr, labels, ops);
  }

  lemma ExactBranch(v: Version, hash: string -> i32, t: InstructionType, opc: u8, ops: seq<Operand>, ptr: nat,
             labels: map<string, u64>, insn: Insn, wide: int)
    requires t == JumpConditional
    requires SourceBitClear(t, opc) && !Dropped(v, t, opc, ops)
    ensures Exact(v, hash, t, opc, ops, ptr, labels, insn, wide)
  {
    hide MeantAll;
    MeantEach(hash, t, ptr, labels, ops);
  }

  lemma ExactUnary(v: Version, hash: string -> i32, t: InstructionType, opc: u8, ops: seq<Operand>, ptr: nat,
             labels: map<string, u64>, insn: Insn, wide: int)
    requires t == AluUnary || t.Endian? || t == NoOperand
    requires SourceBitClear(t, opc) && !Dropped(v, t, opc, ops)
    ensures Exact(v, hash, t, opc, ops, ptr, labels, insn, wide)
  {
    hide MeantAll;
    MeantEach(hash, t, ptr, labels, ops);
  }

  lemma ExactCallx(v: Version, hash: string -> i32, t: InstructionType, opc: u8, ops: seq<Operand>, ptr: nat,
             labels: map<string, u64>, insn: Insn, wide: int)
    requires t == CallReg
    requires SourceBitClear(t, opc) && !Dropped(v, t, opc, ops)
    ensures Exact(v, hash, t, opc, ops, ptr, labels, insn, wide)
  {
    hide MeantAll;
    MeantEach(hash, t, ptr, labels, ops);
  }

  lemma ExactJump(v: Version, hash: string -> i32, t: InstructionType, opc: u8, ops: seq<Operand>, ptr: nat,
             labels: map<string, u64>, insn: Insn, wide: int)
    requires t == JumpUnconditional
    requires SourceBitClear(t, opc) && !Dropped(v, t, opc, ops)
    ensures Exact(v, hash, t, opc, ops, ptr, labels, insn, wide)
  {
    hide MeantAll;
    MeantEach(hash, t, ptr, labels, ops);
  }

  lemma ExactSyscall(v: Version, hash: string -> i32, t: InstructionType, opc: u8, ops: seq<Operand>, ptr: nat,
             labels: map<string, u64>, insn: Insn, wide: int)
    requires t == Syscall
    requires SourceBitClear(t, opc) && !Dropped(v, t, opc, ops)
    ensures Exact(v, hash, t, opc, ops, ptr, labels, insn, wide)
  {
    hide MeantAll;
    MeantEach(hash, t, ptr, labels, ops);
  }

  lemma ExactCall(v: Version, hash: string -> i32, t: InstructionType, opc: u8, ops: seq<Operand>, ptr: nat,
             labels: map<string, u64>, insn: Insn, wide: int)
    requires t == InstructionType.CallImm
    requires SourceBitClear(t, opc) && !Dropped(v, t, opc, ops)
    ensures Exact(v, hash, t, opc, ops, ptr, labels, insn, wide)
  {
    hide MeantAll;
    MeantEach(hash, t, ptr, labels, ops);
  }

  lemma ExactWide(v: Version, hash: string -> i32, t: InstructionType, opc: u8, ops: seq<Operand>, ptr: nat,
             labels: map<string, u64>, insn: Insn, wide: int)
    requires t == LoadDwImm
    requires SourceBitClear(t, opc) && !Dropped(v, t, opc, ops)
    ensures Exact(v, hash, t, opc, ops, ptr, labels, insn, wide)
  {
    hide MeantAll;
    MeantEach(hash, t, ptr, labels, ops);
  }

  /** Encoding is exactly the inverse of printing: an instruction is what a statement is encoded to if and only
      if it has the statement's opcode, prints the statement's operands, and is zero elsewhere. So a statement
      is refused exactly if no instruction prints it. */
  lemma EncodesExactly(v: Version, hash: string -> i32, t: InstructionType, opc: u8, ops: seq<Operand>, ptr: nat,
                       labels: map<string, u64>, insn: Insn, wide: int)
    requires SourceBitClear(t, opc) && !Dropped(v, t, opc, ops) && WideOk(t, ops, wide)
    ensures Stands(v, hash, t, opc, ops, ptr, labels, insn, wide) <==>
      EncodeInsn(v, hash, t, opc, ops, ptr, labels) == Ok(insn)
  {
    hide Stands, EncodeInsn, SourceBitClear, Dropped, WideOk;
    match t
    case AluBinary => ExactAlu(v, hash, t, opc, ops, ptr, labels, insn, wide);
    case JumpConditional => ExactBranch(v, hash, t, opc, ops, ptr, labels, insn, wide);
    case CallReg => ExactCallx(v, hash, t, opc, ops, ptr, labels, insn, wide);
    case JumpUnconditional => ExactJump(v, hash, t, opc, ops, ptr, labels, insn, wide);
    case Syscall => ExactSyscall(v, hash, t, opc, ops, ptr, labels, insn, wide);
    case CallImm => ExactCall(v, hash, t, opc, ops, ptr, labels, insn, wide);
    case LoadDwImm => ExactWide(v, hash, t, opc, ops, ptr, labels, insn, wide);
    case LoadReg => ExactMemory(v, hash, t, opc, ops, ptr, labels, insn, wide);
    case StoreReg => ExactMemory(v, hash, t, opc, ops, ptr, labels, insn, wide);
    case StoreImm => ExactMemory(v, hash, t, opc, ops, ptr, labels, insn, wide);
    case _ => ExactUnary(v, hash, t, opc, ops, ptr, labels, insn, wide);
  }

  // ----- assembled text -----

  ghost predicate TableOk(names: InstructionMap) {
    MapOk(names) && forall name :: name in names ==> SourceBitClear(names[name].0, names[name].1)
  }

  /** The slot `at` of a text is the statement: decoded, it prints the statement's operands; the second slot of a
      wide load holds nothing but the upper half of its immediate. */
  ghost predicate ReadsAs(v: Version, hash: string -> i32, names: InstructionMap, s: Statement,
                          labels: map<string, u64>, text: seq<u8>, at: nat)
  {
    && s.Instruction? && s.name in names && at < Slots(text)
    && var (t, opc) := names[s.name];
       var insn := GetInsn(text, at);
       if Dropped(v, t, opc, s.operands) then insn == Insn(0x47, 0, 0, 0, 0)
       else if t == LoadDwImm then
         && at + 1 < Slots(text) && GetInsn(text, at + 1) == Insn(0, 0, 0, 0, GetInsn(text, at + 1).imm)
         && Stands(v, hash, t, opc, s.operands, at, labels, insn, AugmentLddw(text, at, insn.imm))
       else Stands(v, hash, t, opc, s.operands, at, labels, insn, 0)
  }

  /** Every instruction statement can be read off the bytes of the text at its address. */
  lemma StatementsDecode(v: Version, hash: string -> i32, names: InstructionMap, statements: seq<Statement>,
                         labels: map<string, u64>, j: nat)
    requires TableOk(names) && FillsOk(statements) && j < |statements| && statements[j].Instruction?
    requires var code := Code(v, hash, names, statements, labels, |statements|); code.Ok? && InMemory(code.value)
    ensures var text := Flat(Code(v, hash, names, statements, labels, |statements|).value);
      ReadsAs(v, hash, names, statements[j], labels, text, Address(statements, j))
  {
    hide Code, MapOk, FillsOk, GetInsn, Flat, Address, EncodeInsn, Stands, Dropped, AugmentLddw, WideOk;
    var s, at := statements[j], Address(statements, j);
    var code := Code(v, hash, names, statements, labels, |statements|).value;
    CodeAt(v, hash, names, statements, labels, j, |statements|);
    var piece := Encode(v, hash, names, s, at, labels).value;
    var (t, opc) := names[s.name];
    WideName(names, s.name);
    InstructionsDecode(v, hash, names, statements, labels, j, 0);
    assert code[at] == code[at..at + |piece|][0] == piece[0];
    if Dropped(v, t, opc, s.operands) {
      DroppedIsNoop(v, hash, t, opc, s.operands, at, labels);
    } else if t == LoadDwImm {
      InstructionsDecode(v, hash, names, statements, labels, j, 1);
      LddwDecodes(v, hash, names, statements, labels, j);
      assert code[at + 1] == code[at..at + |piece|][1] == piece[1];
      WideIs(s.operands);
      EncodesExactly(v, hash, t, opc, s.operands, at, labels, piece[0], s.operands[1].n);
    } else {
      NotWide(t, s.operands);
      EncodesExactly(v, hash, t, opc, s.operands, at, labels, piece[0], 0);
    }
  }

  lemma WideName(names: InstructionMap, name: string)
    requires MapOk(names) && name in names
    ensures names[name].0 == LoadDwImm <==> name == "lddw"
  {
  }

  lemma WideIs(ops: seq<Operand>)
    requires |ops| == 2 && ops[1].Integer?
    ensures WideOk(LoadDwImm, ops, ops[1].n)
  {
  }

  lemma NotWide(t: InstructionType, ops: seq<Operand>)
    requires t != LoadDwImm
    ensures WideOk(t, ops, 0)
  {
  }

  lemma DroppedIsNoop(v: Version, hash: string -> i32, t: InstructionType, opc: u8, ops: seq<Operand>, ptr: nat,
                      labels: map<string, u64>)
    requires Dropped(v, t, opc, ops)
    ensures EncodeInsn(v, hash, t, opc, ops, ptr, labels) == Ok(Insn(0x47, 0, 0, 0, 0))
  {
  }

  // ----- filled slots -----

  /** Byte `i` of a number in two's complement, counted from the lowest */
  function ByteAt(x: int, i: nat): u8
    decreases i
  {
    if i == 0 then x % 256 else ByteAt(x / 256, i - 1)
  }

  lemma ShiftedBytes(x: int)
    ensures ByteAt(x, 0) == x % 256 && ByteAt(x, 1) == x / 0x100 % 256
    ensures ByteAt(x, 2) == x / 0x1_0000 % 256 && ByteAt(x, 3) == x / 0x100_0000 % 256
  {
    var y := x / 0x100;
    var z := y / 0x100;
    assert z == x / 0x1_0000 && z / 0x100 == x / 0x100_0000;
    assert ByteAt(x, 2) == ByteAt(y, 1) == ByteAt(z, 0);
    assert ByteAt(x, 3) == ByteAt(y, 2) == ByteAt(z, 1) == ByteAt(z / 0x100, 0);
  }

  lemma UpperBytes(x: int, i: nat)
    requires i < 4
    ensures ByteAt(x, i + 4) == ByteAt(x / TWO32, i)
  {
    assert x / 0x100 / 0x100 / 0x100 / 0x100 == x / TWO32 by {
      assert x / 0x100 / 0x100 == x / 0x1_0000 && x / 0x1_0000 / 0x100 == x / 0x100_0000;
    }
    assert ByteAt(x, i + 4) == ByteAt(x / 0x100, i + 3) == ByteAt(x / 0x100 / 0x100, i + 2) ==
           ByteAt(x / 0x100 / 0x100 / 0x100, i + 1) == ByteAt(x / 0x100 / 0x100 / 0x100 / 0x100, i);
  }

  /** The eight bytes of a filled slot are those of its value, lowest first. */
  lemma FillBytes(value: i64)
    ensures |ToArray(FillInsn(value))| == 8
    ensures forall i :: 0 <= i < 8 ==> ToArray(FillInsn(value))[i] == ByteAt(value, i)
  {
    hide ByteAt, Bits.And, Bits.Or, Bits.Pow2;
    var b, high := ToArray(FillInsn(value)), value / TWO32;
    ShiftedBytes(value);
    ShiftedBytes(high);
    forall i: nat | i < 4 ensures ByteAt(value, i + 4) == ByteAt(high, i) { UpperBytes(value, i); }
    LowerFields(value);
    ImmediateField(high);
    assert forall i :: 4 <= i < 8 ==> ByteAt(value, i) == ByteAt(high, i - 4);
  }

  /** Opcode, registers and offset */
  lemma LowerFields(value: i64)
    ensures var b := ToArray(FillInsn(value));
      && b[0] == value % 256 && b[1] == value / 0x100 % 256
      && b[2] == value / 0x1_0000 % 256 && b[3] == value / 0x100_0000 % 256
  {
    hide Bits.And, Bits.Or, Bits.Pow2, ReadI16;
    RegisterByte(value / 0x100);
    assert value / 0x100 / 0x10 == value / 0x1000;
    OffsetField(value / 0x1_0000 % 256, value / 0x100_0000 % 256);
  }

  lemma RegisterByte(x: int)
    ensures Bits.Or(x / 16 % 16 * 16 % 256, x % 16) % 256 == x % 256
  {
    hide Bits.Or, Bits.Pow2;
    Bits.SmallPowers();
    Bits.OrDisjoint(x / 16 % 16, x % 16, 4);
  }

  lemma OffsetField(b0: u8, b1: u8)
    ensures ReadI16(b0, b1) % 256 == b0 && ReadI16(b0, b1) / 256 % 256 == b1
  {
  }

  /** The immediate, whose bytes are masked out of the number */
  lemma ImmediateField(high: int)
    requires -TWO31 <= high < TWO31
    ensures var imm := Wrap32(high);
      && imm % 256 == high % 256
      && Bits.And(Wrap(imm), 0xff00) / 0x100 % 256 == high / 0x100 % 256
      && Bits.And(Wrap32(imm), 0xff_0000) / 0x1_0000 % 256 == high / 0x1_0000 % 256
      && Bits.And(Wrap32(imm), 0xff00_0000) / 0x100_0000 % 256 == high / 0x100_0000 % 256
  {
    hide Bits.And, Bits.Pow2, Wrap, Wrap32;
    var imm := Wrap32(high);
    WrapTwice(high);
    MaskedByte(imm, 8, 0x100);
    MaskedByte(imm, 16, 0x1_0000);
    MaskedByte(imm, 24, 0x100_0000);
    HalfBytes(high);
  }

  lemma MaskedByte(w: u32, k: nat, d: nat)
    requires (k == 8 && d == 0x100) || (k == 16 && d == 0x1_0000) || (k == 24 && d == 0x100_0000)
    ensures Bits.And(w, 0xff * d) / d % 256 == w / d % 256
  {
    hide Bits.And, Bits.Pow2;
    MiddleByte(w, k);
    assert d == Bits.Pow2(k);
    Bits.SmallMod(w / d % 256, 256);
  }

  lemma WrapTwice(high: int)
    ensures Wrap(Wrap32(high)) == Wrap32(Wrap32(high)) == Wrap32(high)
  {
  }

  lemma HalfBytes(high: int)
    requires -TWO31 <= high < TWO31
    ensures Wrap32(high) % 256 == high % 256
    ensures Wrap32(high) / 0x100 % 256 == high / 0x100 % 256
    ensures Wrap32(high) / 0x1_0000 % 256 == high / 0x1_0000 % 256
    ensures Wrap32(high) / 0x100_0000 % 256 == high / 0x100_0000 % 256
  {
    hide Wrap32;
    Wrapped(high);
    MovedByte(high, 1, TWO32);
    MovedByte(high, 0x100, 0x100_0000);
    MovedByte(high, 0x1_0000, 0x1_0000);
    MovedByte(high, 0x100_0000, 0x100);
  }

  lemma Wrapped(high: int)
    requires -TWO31 <= high < TWO31
    ensures Wrap32(high) == if high < 0 then high + TWO32 else high
  {
  }

  lemma MovedByte(x: int, d: nat, m: nat)
    requires d > 0 && m % 256 == 0
    ensures (x + d * m) / d % 256 == x / d % 256
  {
    assert x == x / d * d + x % d;
    assert d * m == m * d;
    Bits.DivModUnique(x + d * m, d, x / d + m, x % d);
    Bits.ModAdd(m, x / d, 256);
  }

  /** A fill directive puts the bytes of its value into every slot it fills. */
  lemma FillsAreBytes(v: Version, hash: string -> i32, names: InstructionMap, statements: seq<Statement>,
                      labels: map<string, u64>, j: nat, p: nat, i: nat)
    requires MapOk(names) && FillsOk(statements) && j < |statements| && IsFill(statements[j])
    requires var code := Code(v, hash, names, statements, labels, |statements|); code.Ok? && InMemory(code.value)
    requires p < Advance(statements[j]) && i < INSN_SIZE
    ensures var text := Flat(Code(v, hash, names, statements, labels, |statements|).value);
      var at := INSN_SIZE * (Address(statements, j) + p) + i;
      at < |text| && text[at] == ByteAt(statements[j].operands[1].n, i)
  {
    hide Code, MapOk, FillsOk, GetInsn, Flat, Address, FillInsn, ToArray, ByteAt;
    var code := Code(v, hash, names, statements, labels, |statements|).value;
    var at := Address(statements, j) + p;
    FillsDecode(v, hash, names, statements, labels, j, p);
    FlatAt(code, at);
    FillBytes(statements[j].operands[1].n);
    assert Flat(code)[INSN_SIZE * at + i] == Flat(code)[INSN_SIZE * at..INSN_SIZE * at + INSN_SIZE][i];
  }

  // ----- registered functions -----

  /** `a` is the address of a label that names a function. */
  ghost predicate FunctionLabelAt(statements: seq<Statement>, k: nat, a: u64)
    requires k <= |statements|
  {
    exists j :: 0 <= j < k && statements[j].Label? && NamesFunction(statements[j].name) && Address(statements, j) == a
  }

  predicate IsNumberCall(names: InstructionMap, s: Statement) {
    && s.Instruction? && s.name in names && names[s.name].0 == InstructionType.CallImm
    && |s.operands| == 1 && s.operands[0].Integer?
  }

  /** `a` is as far behind a call as its operand says. */
  ghost predicate CalledAt(names: InstructionMap, statements: seq<Statement>, k: nat, a: u64)
    requires k <= |statements|
  {
    exists j :: 0 <= j < k && IsNumberCall(names, statements[j]) &&
                a == Wrap(Address(statements, j) + 1 + statements[j].operands[0].n)
  }

  lemma {:induction false} LabelFunctionsAre(statements: seq<Statement>, k: nat, a: u64)
    requires k <= |statements|
    ensures a in LabelFunctions(statements, k) <==> FunctionLabelAt(statements, k, a)
  {
    hide Address, NamesFunction;
    if k > 0 {
      LabelFunctionsAre(statements, k - 1, a);
    }
  }

  lemma {:induction false} FunctionsAre(v: Version, hash: string -> i32, names: InstructionMap,
                                        statements: seq<Statement>, labels: map<string, u64>, k: nat, a: u64)
    requires MapOk(names) && FillsOk(statements) && k <= |statements|
    requires var code := Code(v, hash, names, statements, labels, k); code.Ok? && InMemory(code.value)
    ensures a in Functions(v, hash, names, statements, labels, k) <==>
      FunctionLabelAt(statements, |statements|, a) || CalledAt(names, statements, k, a)
    decreases k
  {
    hide MapOk, FillsOk, Code, Address, FunctionLabelAt, LabelFunctions, Wrap;
    if k == 0 {
      LabelFunctionsAre(statements, |statements|, a);
    } else {
      CodeShorter(v, hash, names, statements, labels, k);
      PassesAgree(v, hash, names, statements, labels, k - 1);
      FunctionsAre(v, hash, names, statements, labels, k - 1, a);
      CalledNext(names, statements, k, a);
    }
  }

  lemma CalledNext(names: InstructionMap, statements: seq<Statement>, k: nat, a: u64)
    requires 0 < k <= |statements|
    ensures CalledAt(names, statements, k, a) <==>
      CalledAt(names, statements, k - 1, a) ||
      a in CallFunctions(names, statements[k - 1], Address(statements, k - 1))
  {
    hide Address, Wrap;
    var s, at := statements[k - 1], Address(statements, k - 1);
    if IsNumberCall(names, s) {
      assert s.operands[0].n + at + 1 == at + 1 + s.operands[0].n;
    }
  }

  /** The registry of a source holds exactly the addresses of its function labels and the targets of its calls by
      number, each under its low half. */
  lemma RegistryMeaning(v: Version, hash: string -> i32, names: InstructionMap, statements: seq<Statement>,
                        code: seq<Insn>, registry: Registry, a: u64)
    requires MapOk(names) && FillsOk(statements) && InMemory(code)
    requires Assembled(v, hash, names, statements, code, registry)
    ensures Wrap32(a) in registry && registry[Wrap32(a)] == a <==>
      FunctionLabelAt(statements, |statements|, a) || CalledAt(names, statements, |statements|, a)
  {
    hide MapOk, FillsOk, Code, FunctionLabelAt, CalledAt, RegisterAll, Functions, Consistent, Wrap32;
    var labels := Labels(statements, |statements|);
    var functions := Functions(v, hash, names, statements, labels, |statements|);
    FunctionsAre(v, hash, names, statements, labels, |statements|, a);
    RegistryExact(functions);
  }

  /** Before version 3 the immediate of an assembled call by number is the key of its target. */
  lemma CallsAreRegistered(v: Version, hash: string -> i32, names: InstructionMap, statements: seq<Statement>,
                           code: seq<Insn>, registry: Registry, j: nat)
    requires TableOk(names) && FillsOk(statements) && InMemory(code) && !v.StaticSyscalls()
    requires Assembled(v, hash, names, statements, code, registry)
    requires j < |statements| && IsNumberCall(names, statements[j])
    ensures var at := Address(statements, j);
      && at < Slots(Flat(code))
      && var key := Wrap32(GetInsn(Flat(code), at).imm);
         key in registry && registry[key] == Wrap(at + 1 + statements[j].operands[0].n)
  {
    hide FillsOk, Code, FunctionLabelAt, Flat, GetInsn, Address, RegisterAll, Functions;
    var labels, s, at := Labels(statements, |statements|), statements[j], Address(statements, j);
    StatementsDecode(v, hash, names, statements, labels, j);
    var insn := GetInsn(Flat(code), at);
    var (t, opc) := names[s.name];
    CallPrints(v, hash, opc, s.operands, at, labels, insn);
    assert CalledAt(names, statements, |statements|, Wrap(at + 1 + s.operands[0].n));
    RegistryMeaning(v, hash, names, statements, code, registry, Wrap(at + 1 + s.operands[0].n));
    LowHalf(at + 1 + s.operands[0].n);
  }

  lemma CallPrints(v: Version, hash: string -> i32, opc: u8, ops: seq<Operand>, ptr: nat, labels: map<string, u64>,
                   insn: Insn)
    requires Stands(v, hash, InstructionType.CallImm, opc, ops, ptr, labels, insn, 0) && !v.StaticSyscalls()
    requires |ops| == 1 && ops[0].Integer?
    ensures insn.imm == ptr + 1 + ops[0].n
  {
    MeantEach(hash, InstructionType.CallImm, ptr, labels, ops);
  }

  lemma LowHalf(x: int)
    ensures Wrap32(Wrap(x)) == Wrap32(x)
  {
    assert TWO32 * TWO32 == TWO64;
    Bits.ModOfMod(x, TWO32, TWO32);
  }

  /** Assembles a parsed source to text: every instruction statement can be read off it. */
  method AssembleText(v: Version, hash: string -> i32, names: InstructionMap, statements: seq<Statement>)
    returns (result: Asm<(seq<u8>, Registry)>)
    requires TableOk(names)
    ensures result.Ok? <==>
      && Code(v, hash, names, statements, Labels(statements, |statements|), |statements|).Ok?
      && Consistent(Functions(v, hash, names, statements, Labels(statements, |statements|), |statements|))
    ensures result.Ok? && FillsOk(statements) && |result.value.0| < TWO63 ==>
      forall j :: 0 <= j < |statements| && statements[j].Instruction? ==>
        ReadsAs(v, hash, names, statements[j], Labels(statements, |statements|), result.value.0, Address(statements, j))
  {
    hide Code, Consistent, Functions, Labels, ReadsAs, TableOk, FillsOk, Address, Flat;
    var assembled := Assemble(v, hash, names, statements);
    match assembled
    case Err(e) => result := Err(e);
    case Ok((code, registry)) =>
      result := Ok((Flat(code), registry));
      FlatLength(code);
      if FillsOk(statements) && |Flat(code)| < TWO63 {
        forall j | 0 <= j < |statements| && statements[j].Instruction?
          ensures ReadsAs(v, hash, names, statements[j], Labels(statements, |statements|), Flat(code),
                          Address(statements, j))
        {
          StatementsDecode(v, hash, names, statements, Labels(statements, |statements|), j);
        }
      }
  }
}
