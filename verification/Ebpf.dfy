/** Instruction words of the virtual machine: their byte layout, the versions of the instruction
    set, and the operation each opcode stands for. */
module Ebpf {
  import opened Words
  import opened Bits

  const INSN_SIZE: nat := 8
  const FRAME_PTR_REG: nat := 10
  const MM_BYTECODE_START: u64 := 0x1_0000_0000
  const MM_STACK_START: u64 := 0x2_0000_0000
  const MM_HEAP_START: u64 := 0x3_0000_0000
  const MM_INPUT_START: u64 := 0x4_0000_0000

  datatype Insn = Insn(opc: u8, dst: u8, src: u8, off: i16, imm: i64)

  // ----- byte layout -----

  predicate IsPcInProgram(prog: seq<u8>, pc: u64) {
    SatMul(SatAdd(pc, 1), INSN_SIZE) <= |prog|
  }

  function Slots(prog: seq<u8>): nat { |prog| / INSN_SIZE }

  lemma PcInProgram(prog: seq<u8>, pc: u64)
    requires |prog| < TWO64 - 8
    ensures IsPcInProgram(prog, pc) <==> pc < Slots(prog)
  {
  }

  /** Two's complement reading of a little-endian pair of bytes */
  function ReadI16(b0: u8, b1: u8): i16 {
    var x := b0 + 256 * b1;
    if x < 0x8000 then x else x - 0x1_0000
  }

  function ReadU32(b: seq<u8>): u32
    requires |b| >= 4
  {
    var b0: int, b1: int, b2: int, b3: int := b[0], b[1], b[2], b[3];
    b0 + 0x100 * b1 + 0x1_0000 * b2 + 0x100_0000 * b3
  }

  function ReadI32(b: seq<u8>): i32
    requires |b| >= 4
  {
    Signed32(ReadU32(b))
  }

  function GetInsn(prog: seq<u8>, pc: nat): Insn
    requires pc < Slots(prog)
  {
    var at := INSN_SIZE * pc;
    Insn(prog[at], And(prog[at + 1], 0x0f), And(prog[at + 1], 0xf0) / 16,
         ReadI16(prog[at + 2], prog[at + 3]), ReadI32(prog[at + 4..]))
  }

  /** The immediate of a wide load: its own as the low half, the next slot's as the high half */
  function AugmentLddw(prog: seq<u8>, pc: nat, imm: i64): i64
    requires pc + 1 < Slots(prog)
  {
    var high: i32 := ReadI32(prog[(pc + 1) * INSN_SIZE + 4..]);
    Merge(imm, high)
  }

  function Merge(low: i64, high: i64): i64 {
    var word := Or(And(Wrap(low), 0xffff_ffff), Wrap(Wrap(high) * TWO32));
    Signed64(Wrap(word))
  }

  function ToArray(insn: Insn): seq<u8> {
    [insn.opc,
     Or(insn.src * 16 % 256, insn.dst) % 256,
     insn.off % 256,
     insn.off / 256 % 256,
     insn.imm % 256,
     And(Wrap(insn.imm), 0xff00) / 0x100 % 256,
     And(Wrap32(insn.imm), 0xff_0000) / 0x1_0000 % 256,
     And(Wrap32(insn.imm), 0xff00_0000) / 0x100_0000 % 256]
  }

  /** The bytes of an instruction whose fields fit decode to it again, wherever they stand. */
  lemma InsnRoundTrip(insn: Insn, prog: seq<u8>, pc: nat)
    requires insn.dst < 16 && insn.src < 16 && -TWO31 <= insn.imm < TWO31
    requires pc < Slots(prog) && prog[INSN_SIZE * pc..INSN_SIZE * pc + INSN_SIZE] == ToArray(insn)
    ensures GetInsn(prog, pc) == insn
  {
    hide GetInsn, ToArray;
    InsnDecodes(insn, prog, pc);
    SignedWrap(insn.imm);
  }

  /** An immediate that does not fit loses its upper half and is read with sign. */
  lemma InsnDecodes(insn: Insn, prog: seq<u8>, pc: nat)
    requires insn.dst < 16 && insn.src < 16
    requires pc < Slots(prog) && prog[INSN_SIZE * pc..INSN_SIZE * pc + INSN_SIZE] == ToArray(insn)
    ensures GetInsn(prog, pc) == insn.(imm := Signed32(Wrap32(insn.imm)))
  {
    hide And, Or, ReadU32, ReadI16;
    var at := INSN_SIZE * pc;
    SliceBytes(prog, at, ToArray(insn));
    NibblesRoundTrip(insn.src, insn.dst);
    OffsetBytes(insn.off);
    ImmediateBytes(insn.imm, prog[at + 4..]);
  }

  lemma SliceBytes(prog: seq<u8>, at: nat, b: seq<u8>)
    requires at + 8 <= |prog| && prog[at..at + 8] == b
    ensures prog[at] == b[0] && prog[at + 1] == b[1] && prog[at + 2] == b[2] && prog[at + 3] == b[3]
    ensures var rest := prog[at + 4..];
      |rest| >= 4 && rest[0] == b[4] && rest[1] == b[5] && rest[2] == b[6] && rest[3] == b[7]
  {
  }

  lemma OffsetBytes(off: i16)
    ensures ReadI16(off % 256, off / 256 % 256) == off
  {
  }

  lemma NibblesRoundTrip(src: u8, dst: u8)
    requires src < 16 && dst < 16
    ensures var b := Or(src * 16 % 256, dst) % 256; And(b, 0x0f) == dst && And(b, 0xf0) / 16 == src
  {
    hide And, Or, Pow2;
    Pow2Values();
    OrDisjoint(src, dst, 4);
    AndLowMask(src * 16 + dst, 4);
    AndHighMask(src * 16 + dst, 4, 8);
  }

  /** The four low bytes of a number give its lower half with sign. */
  lemma ImmediateBytes(imm: int, b: seq<u8>)
    requires |b| >= 4 && b[0] == imm % 256
    requires b[1] == And(Wrap(imm), 0xff00) / 0x100 % 256
    requires b[2] == And(Wrap32(imm), 0xff_0000) / 0x1_0000 % 256
    requires b[3] == And(Wrap32(imm), 0xff00_0000) / 0x100_0000 % 256
    ensures ReadI32(b) == Signed32(Wrap32(imm))
  {
    hide And, Pow2, ReadU32;
    var w := Wrap32(imm);
    MiddleByte(Wrap(imm), 8);
    MiddleByte(w, 16);
    MiddleByte(w, 24);
    SameLowBytes(imm);
    FourBytes(w, b);
  }

  lemma MiddleByte(w: u64, k: nat)
    requires k == 8 || k == 16 || k == 24
    ensures Pow2(8) == 0x100 && Pow2(16) == 0x1_0000 && Pow2(24) == 0x100_0000
    ensures And(w, 0xff * Pow2(k)) / Pow2(k) == w / Pow2(k) % 0x100
  {
    hide And, Pow2;
    Pow2Values();
    Pow2Add(8, 16);
    Pow2Add(k, 8);
    AndMask(w, k, k + 8);
    MiddleDigits(w, Pow2(k), 0x100);
  }

  lemma SameLowBytes(imm: int)
    ensures imm % 256 == Wrap32(imm) % 256 && Wrap(imm) / 0x100 % 0x100 == Wrap32(imm) / 0x100 % 0x100
  {
    ModOfMod(imm, 0x100, 0x100_0000);
    ModOfMod(imm, 0x100, 0x100_0000_0000_0000);
    ModOfMod(imm, 0x1_0000, 0x1_0000);
    ModOfMod(imm, 0x1_0000, 0x1_0000_0000_0000);
    MiddleDigits(Wrap(imm), 0x100, 0x100);
    MiddleDigits(Wrap32(imm), 0x100, 0x100);
  }

  lemma FourBytes(w: u32, b: seq<u8>)
    requires |b| >= 4 && b[0] == w % 0x100 && b[1] == w / 0x100 % 0x100
    requires b[2] == w / 0x1_0000 % 0x100 && b[3] == w / 0x100_0000 % 0x100
    ensures ReadU32(b) == w
  {
    var x := w / 0x100;
    var y := x / 0x100;
    var z := y / 0x100;
    assert w / 0x1_0000 == y && w / 0x100_0000 == z < 0x100;
  }

  lemma SignedWrap(imm: int)
    requires -TWO31 <= imm < TWO31
    ensures Signed32(Wrap32(imm)) == imm
  {
  }

  /** Splitting a 64-bit immediate as the assembler does and merging the halves gives it back. */
  lemma LddwRoundTrip(imm: i64)
    ensures var low := Signed32(Wrap32(imm)); var high := imm / TWO32;
      -TWO31 <= high < TWO31 && Merge(low, high) == imm
  {
    hide And, Or, Pow2, Wrap, Wrap32, Signed32, Signed64;
    Pow2Values();
    var low, high := Signed32(Wrap32(imm)), imm / TWO32;
    var lowWord, highWord := Wrap32(imm), Wrap32(high);
    HalvesOf(imm);
    AndLowMask(Wrap(low), 32);
    OrDisjoint(highWord, lowWord, 32);
    OrCommutes(lowWord, highWord * TWO32);
    WordBack(imm);
  }

  lemma AugmentIsMerge(prog: seq<u8>, pc: nat, imm: i64)
    requires pc + 1 < Slots(prog)
    ensures AugmentLddw(prog, pc, imm) == Merge(imm, GetInsn(prog, pc + 1).imm)
  {
    hide Merge;
  }

  lemma WordBack(imm: i64)
    ensures Wrap(Wrap(imm)) == Wrap(imm) && Signed64(Wrap(imm)) == imm
  {
  }

  lemma HalvesOf(imm: i64)
    ensures var low := Signed32(Wrap32(imm)); var high := imm / TWO32;
      && -TWO31 <= high < TWO31 && -TWO31 <= low < TWO31
      && Wrap(low) % TWO32 == Wrap32(imm) && Wrap(Wrap(high) * TWO32) == Wrap32(high) * TWO32
      && Wrap(imm) == Wrap32(high) * TWO32 + Wrap32(imm)
  {
    var high := imm / TWO32;
    WordOfHalf(Signed32(Wrap32(imm)));
    WordOfHalf(high);
  }

  lemma WordOfHalf(x: int)
    requires -TWO31 <= x < TWO31
    ensures Wrap(x) == if x < 0 then Wrap32(x) + (TWO32 - 1) * TWO32 else Wrap32(x)
  {
  }

  // ----- versions -----

  datatype Version = V0 | V1 | V2 | V3 | V4 | Reserved {
    predicate ManualStackFrameBump() { this == V1 || this == V2 }
    predicate StackFrameGaps() { this == V0 }
    predicate EnablePqr() { this == V2 }
    predicate ExplicitSignExtensionOfResults() { this == V2 }
    predicate SwapSubRegImmOperands() { this == V2 }
    predicate DisableNeg() { this == V2 }
    predicate CallxUsesSrcReg() { this == V2 }
    predicate DisableLddw() { this == V2 }
    predicate DisableLe() { this == V2 }
    predicate MoveMemoryInstructionClasses() { this == V2 }
    predicate StaticSyscalls() { V3? || V4? || Reserved? }
    predicate EnableJmp32() { V3? || V4? || Reserved? }
    predicate CallxUsesDstReg() { V3? || V4? || Reserved? }
  }

  // ----- opcodes -----

  datatype AluOp = Add | Sub | Mul | Div | BitOr | BitAnd | Lsh | Rsh | Mod | BitXor | Mov | Arsh

  datatype PqrOp = Lmul | Uhmul | Shmul | Udiv | Urem | Sdiv | Srem

  datatype Condition = Jeq | Jgt | Jge | Jset | Jne | Jsgt | Jsge | Jlt | Jle | Jslt | Jsle

  /** `reg` tells whether the second operand is a register or the immediate, `wide` whether the
      operation is on 64 or 32 bits. */
  datatype Operation =
    | LoadWide
    | Load(bytes: nat)
    | Store(bytes: nat, reg: bool)
    | Alu(op: AluOp, wide: bool, reg: bool)
    | Neg(wide: bool)
    | LittleEndian
    | BigEndian
    | HighOr
    | Pqr(pqr: PqrOp, wide: bool, reg: bool)
    | JumpAlways
    | JumpIf(condition: Condition, wide: bool, reg: bool)
    | CallImm
    | CallRegister
    | Leave
    | Unknown

  /** Memory accesses before version 2: byte, half word, word, double word */
  function MemoryBytes(opc: u8): Option<nat> {
    match opc / 8
    case 0xe => Some(1)
    case 0xd => Some(2)
    case 0xc => Some(4)
    case 0xf => Some(8)
    case _ => None
  }

  /** Memory accesses in version 2, which take over multiplications, divisions and negations */
  function MovedBytes(opc: u8): Option<nat> {
    match opc / 16
    case 2 => Some(1)
    case 3 => Some(2)
    case 8 => Some(4)
    case 9 => Some(8)
    case _ => None
  }

  function AluOpOf(v: Version, opc: u8): Option<AluOp> {
    match opc / 16
    case 0 => Some(Add)
    case 1 => Some(Sub)
    case 2 => if v.EnablePqr() then None else Some(Mul)
    case 3 => if v.EnablePqr() then None else Some(Div)
    case 4 => Some(BitOr)
    case 5 => Some(BitAnd)
    case 6 => Some(Lsh)
    case 7 => Some(Rsh)
    case 9 => if v.EnablePqr() then None else Some(Mod)
    case 0xa => Some(BitXor)
    case 0xb => Some(Mov)
    case 0xc => Some(Arsh)
    case _ => None
  }

  function ConditionOf(opc: u8): Option<Condition> {
    match opc / 16
    case 1 => Some(Jeq)
    case 2 => Some(Jgt)
    case 3 => Some(Jge)
    case 4 => Some(Jset)
    case 5 => Some(Jne)
    case 6 => Some(Jsgt)
    case 7 => Some(Jsge)
    case 0xa => Some(Jlt)
    case 0xb => Some(Jle)
    case 0xc => Some(Jslt)
    case 0xd => Some(Jsle)
    case _ => None
  }

  /** Bits 7 to 5 give the operation, bit 4 the width; the high halves exist for 64 bits only. */
  function PqrOpOf(opc: u8): Option<PqrOp> {
    match opc / 16
    case 3 => Some(Uhmul)
    case 4 => Some(Udiv)
    case 5 => Some(Udiv)
    case 6 => Some(Urem)
    case 7 => Some(Urem)
    case 8 => Some(Lmul)
    case 9 => Some(Lmul)
    case 0xb => Some(Shmul)
    case 0xc => Some(Sdiv)
    case 0xd => Some(Sdiv)
    case 0xe => Some(Srem)
    case 0xf => Some(Srem)
    case _ => None
  }

  predicate SourceIsRegister(opc: u8) { opc / 8 % 2 == 1 }

  function DecodeAlu32(v: Version, opc: u8): Operation {
    var reg := SourceIsRegister(opc);
    if v.MoveMemoryInstructionClasses() && reg && MovedBytes(opc).Some? then Load(MovedBytes(opc).value)
    else if opc == 0x84 && !v.DisableNeg() then Neg(false)
    else if opc == 0xd4 && !v.DisableLe() then LittleEndian
    else if opc == 0xdc then BigEndian
    else match AluOpOf(v, opc) case Some(op) => Alu(op, false, reg) case None => Unknown
  }

  function DecodeAlu64(v: Version, opc: u8): Operation {
    var reg := SourceIsRegister(opc);
    if v.MoveMemoryInstructionClasses() && MovedBytes(opc).Some? then Store(MovedBytes(opc).value, reg)
    else if opc == 0x87 && !v.DisableNeg() then Neg(true)
    else if opc == 0xf7 && v.DisableLddw() then HighOr
    else match AluOpOf(v, opc) case Some(op) => Alu(op, true, reg) case None => Unknown
  }

  function DecodeJmp64(opc: u8): Operation {
    if opc == 0x05 then JumpAlways
    else if opc == 0x85 then CallImm
    else if opc == 0x8d then CallRegister
    else if opc == 0x95 then Leave
    else match ConditionOf(opc) case Some(c) => JumpIf(c, true, SourceIsRegister(opc)) case None => Unknown
  }

  /** The class shared by products and quotients (version 2) and 32-bit jumps (from version 3) */
  function DecodePqrOrJmp32(v: Version, opc: u8): Operation {
    var reg := SourceIsRegister(opc);
    if v.EnablePqr() then
      match PqrOpOf(opc) case Some(op) => Pqr(op, opc / 16 % 2 == 1, reg) case None => Unknown
    else if v.EnableJmp32() then
      match ConditionOf(opc) case Some(c) => JumpIf(c, false, reg) case None => Unknown
    else Unknown
  }

  /** The operation of an opcode, the same for verifier and interpreter */
  function Decode(v: Version, opc: u8): Operation {
    var moved := v.MoveMemoryInstructionClasses();
    match opc % 8
    case 0 => if opc == 0x18 && !v.DisableLddw() then LoadWide else Unknown
    case 1 => if !moved && MemoryBytes(opc).Some? then Load(MemoryBytes(opc).value) else Unknown
    case 2 => if !moved && MemoryBytes(opc).Some? then Store(MemoryBytes(opc).value, false) else Unknown
    case 3 => if !moved && MemoryBytes(opc).Some? then Store(MemoryBytes(opc).value, true) else Unknown
    case 4 => DecodeAlu32(v, opc)
    case 5 => DecodeJmp64(opc)
    case 6 => DecodePqrOrJmp32(v, opc)
    case _ => DecodeAlu64(v, opc)
  }
}
