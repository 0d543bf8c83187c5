/** Opcode bytes put together from instruction class, source bit, and operation or size, and the proof that
    this is what decoding takes apart. */
module Opcodes {
  import opened Words
  import opened Ebpf

  // Instruction classes
  const BPF_LD: u8 := 0x00
  const BPF_LDX: u8 := 0x01
  const BPF_ST: u8 := 0x02
  const BPF_STX: u8 := 0x03
  const BPF_ALU32_LOAD: u8 := 0x04
  const BPF_JMP64: u8 := 0x05
  const BPF_JMP32: u8 := 0x06
  const BPF_PQR: u8 := 0x06
  const BPF_ALU64_STORE: u8 := 0x07

  // Sizes, the memory mode, and the source bit
  const BPF_W: u8 := 0x00
  const BPF_H: u8 := 0x08
  const BPF_B: u8 := 0x10
  const BPF_DW: u8 := 0x18
  const BPF_1B: u8 := 0x20
  const BPF_2B: u8 := 0x30
  const BPF_4B: u8 := 0x80
  const BPF_8B: u8 := 0x90
  const BPF_MEM: u8 := 0x60
  const BPF_X: u8 := 0x08

  // Operations without operand choice
  const BPF_NEG: u8 := 0x80
  const BPF_END: u8 := 0xd0
  const BPF_HOR: u8 := 0xf0
  const BPF_CALL: u8 := 0x80
  const BPF_EXIT: u8 := 0x90

  function AluBits(op: AluOp): u8 {
    match op
    case Add => 0x00
    case Sub => 0x10
    case Mul => 0x20
    case Div => 0x30
    case BitOr => 0x40
    case BitAnd => 0x50
    case Lsh => 0x60
    case Rsh => 0x70
    case Mod => 0x90
    case BitXor => 0xa0
    case Mov => 0xb0
    case Arsh => 0xc0
  }

  function PqrBits(op: PqrOp): u8 {
    match op
    case Uhmul => 0x20
    case Udiv => 0x40
    case Urem => 0x60
    case Lmul => 0x80
    case Shmul => 0xa0
    case Sdiv => 0xc0
    case Srem => 0xe0
  }

  function ConditionBits(c: Condition): u8 {
    match c
    case Jeq => 0x10
    case Jgt => 0x20
    case Jge => 0x30
    case Jset => 0x40
    case Jne => 0x50
    case Jsgt => 0x60
    case Jsge => 0x70
    case Jlt => 0xa0
    case Jle => 0xb0
    case Jslt => 0xc0
    case Jsle => 0xd0
  }

  function SourceBit(reg: bool): u8 { if reg then BPF_X else 0 }

  function SizeBits(bytes: nat): u8
    requires bytes in {1, 2, 4, 8}
  {
    if bytes == 1 then BPF_B else if bytes == 2 then BPF_H else if bytes == 4 then BPF_W else BPF_DW
  }

  function MovedSizeBits(bytes: nat): u8
    requires bytes in {1, 2, 4, 8}
  {
    if bytes == 1 then BPF_1B else if bytes == 2 then BPF_2B else if bytes == 4 then BPF_4B else BPF_8B
  }

  /** The operations of a version */
  predicate Supported(v: Version, op: Operation) {
    match op
    case LoadWide => !v.DisableLddw()
    case Load(bytes) => bytes in {1, 2, 4, 8}
    case Store(bytes, _) => bytes in {1, 2, 4, 8}
    case Alu(o, _, _) => v.EnablePqr() ==> o !in {Mul, Div, Mod}
    case Neg(_) => !v.DisableNeg()
    case LittleEndian => !v.DisableLe()
    case HighOr => v.DisableLddw()
    case Pqr(o, wide, _) => v.EnablePqr() && (o in {Uhmul, Shmul} ==> wide)
    case JumpIf(_, wide, _) => wide || v.EnableJmp32()
    case Unknown => false
    case _ => true
  }

  function OpcodeOf(v: Version, op: Operation): u8
    requires Supported(v, op)
  {
    match op
    case LoadWide => BPF_LD + BPF_DW
    case Load(bytes) =>
      if v.MoveMemoryInstructionClasses() then BPF_ALU32_LOAD + BPF_X + MovedSizeBits(bytes)
      else BPF_LDX + BPF_MEM + SizeBits(bytes)
    case Store(bytes, reg) =>
      if v.MoveMemoryInstructionClasses() then BPF_ALU64_STORE + SourceBit(reg) + MovedSizeBits(bytes)
      else (if reg then BPF_STX else BPF_ST) + BPF_MEM + SizeBits(bytes)
    case Alu(o, wide, reg) => (if wide then BPF_ALU64_STORE else BPF_ALU32_LOAD) + SourceBit(reg) + AluBits(o)
    case Neg(wide) => (if wide then BPF_ALU64_STORE else BPF_ALU32_LOAD) + BPF_NEG
    case LittleEndian => BPF_ALU32_LOAD + BPF_END
    case BigEndian => BPF_ALU32_LOAD + BPF_X + BPF_END
    case HighOr => BPF_ALU64_STORE + BPF_HOR
    case Pqr(o, wide, reg) => BPF_PQR + (if wide then BPF_B else 0) + SourceBit(reg) + PqrBits(o)
    case JumpAlways => BPF_JMP64
    case JumpIf(c, wide, reg) => (if wide then BPF_JMP64 else BPF_JMP32) + SourceBit(reg) + ConditionBits(c)
    case CallImm => BPF_JMP64 + BPF_CALL
    case CallRegister => BPF_JMP64 + BPF_X + BPF_CALL
    case Leave => BPF_JMP64 + BPF_EXIT
  }

  // ----- what decoding reads off a byte that was put together -----

  /** The class, the source bit and the four bits above it */
  lemma Parts(class_: nat, source: bool, high: nat)
    requires class_ < 8 && high < 16
    ensures var opc: u8 := class_ + SourceBit(source) + 16 * high;
      opc % 8 == class_ && (SourceIsRegister(opc) <==> source) && opc / 16 == high
  {
  }

  lemma AluParts(v: Version, class_: u8, reg: bool, op: AluOp)
    requires class_ < 8 && (v.EnablePqr() ==> op !in {Mul, Div, Mod})
    ensures var opc: u8 := class_ + SourceBit(reg) + AluBits(op);
      opc % 8 == class_ && SourceIsRegister(opc) == reg && AluOpOf(v, opc) == Some(op)
  {
    Parts(class_, reg, AluBits(op) / 16);
    hide SourceIsRegister, SourceBit;
  }

  lemma ConditionParts(class_: u8, reg: bool, c: Condition)
    requires class_ < 8
    ensures var opc: u8 := class_ + SourceBit(reg) + ConditionBits(c);
      opc % 8 == class_ && SourceIsRegister(opc) == reg && ConditionOf(opc) == Some(c)
  {
    Parts(class_, reg, ConditionBits(c) / 16);
    hide SourceIsRegister, SourceBit;
  }

  lemma PqrParts(reg: bool, wide: bool, op: PqrOp)
    requires op in {Uhmul, Shmul} ==> wide
    ensures var opc: u8 := BPF_PQR + (if wide then BPF_B else 0) + SourceBit(reg) + PqrBits(op);
      opc % 8 == BPF_PQR && SourceIsRegister(opc) == reg && PqrOpOf(opc) == Some(op) && (opc / 16 % 2 == 1 <==> wide)
  {
    Parts(BPF_PQR, reg, PqrBits(op) / 16 + if wide then 1 else 0);
    hide SourceIsRegister, SourceBit;
  }

  lemma MovedParts(class_: u8, reg: bool, bytes: nat)
    requires class_ < 8 && bytes in {1, 2, 4, 8}
    ensures var opc: u8 := class_ + SourceBit(reg) + MovedSizeBits(bytes);
      opc % 8 == class_ && SourceIsRegister(opc) == reg && MovedBytes(opc) == Some(bytes)
  {
    Parts(class_, reg, MovedSizeBits(bytes) / 16);
    hide SourceIsRegister, SourceBit;
  }

  /** Decoding takes apart exactly what was put together. */
  lemma DecodeOpcode(v: Version, op: Operation)
    requires Supported(v, op)
    ensures Decode(v, OpcodeOf(v, op)) == op
  {
    hide PqrOpOf, MemoryBytes;
    match op
    case Alu(o, wide, reg) => DecodeAlu(v, o, wide, reg);
    case Pqr(o, wide, reg) => DecodePqr(v, o, wide, reg);
    case JumpIf(c, wide, reg) => DecodeCondition(v, c, wide, reg);
    case Load(bytes) => DecodeMemory(v, bytes, true);
    case Store(bytes, reg) => DecodeMemory(v, bytes, reg);
    case _ =>
  }

  lemma DecodeAlu(v: Version, o: AluOp, wide: bool, reg: bool)
    requires Supported(v, Alu(o, wide, reg))
    ensures Decode(v, OpcodeOf(v, Alu(o, wide, reg))) == Alu(o, wide, reg)
  {
    AluParts(v, if wide then BPF_ALU64_STORE else BPF_ALU32_LOAD, reg, o);
    hide SourceIsRegister, SourceBit;
  }

  lemma DecodePqr(v: Version, o: PqrOp, wide: bool, reg: bool)
    requires Supported(v, Pqr(o, wide, reg))
    ensures Decode(v, OpcodeOf(v, Pqr(o, wide, reg))) == Pqr(o, wide, reg)
  {
    PqrParts(reg, wide, o);
    hide SourceIsRegister, SourceBit, PqrBits, PqrOpOf;
  }

  lemma DecodeCondition(v: Version, c: Condition, wide: bool, reg: bool)
    requires Supported(v, JumpIf(c, wide, reg))
    ensures Decode(v, OpcodeOf(v, JumpIf(c, wide, reg))) == JumpIf(c, wide, reg)
  {
    ConditionParts(if wide then BPF_JMP64 else BPF_JMP32, reg, c);
    hide SourceIsRegister, SourceBit;
  }

  lemma DecodeMemory(v: Version, bytes: nat, reg: bool)
    requires bytes in {1, 2, 4, 8}
    ensures Decode(v, OpcodeOf(v, Store(bytes, reg))) == Store(bytes, reg)
    ensures Decode(v, OpcodeOf(v, Load(bytes))) == Load(bytes)
  {
    hide AluOpOf, DecodeJmp64, DecodePqrOrJmp32;
    MovedParts(BPF_ALU64_STORE, reg, bytes);
    MovedParts(BPF_ALU32_LOAD, true, bytes);
  }

  // ----- what a byte that decodes was put together from -----

  ghost predicate PutTogether(v: Version, opc: u8, op: Operation) {
    op != Unknown ==> Supported(v, op) && OpcodeOf(v, op) == opc
  }

  lemma Digits(opc: u8)
    ensures opc == opc % 8 + SourceBit(SourceIsRegister(opc)) + 16 * (opc / 16) && 0 <= opc / 16 < 16
  {
  }

  lemma DecodedParts(v: Version, opc: u8)
    ensures AluOpOf(v, opc).Some? ==>
      AluBits(AluOpOf(v, opc).value) == 16 * (opc / 16) &&
      (v.EnablePqr() ==> AluOpOf(v, opc).value !in {Mul, Div, Mod})
    ensures ConditionOf(opc).Some? ==> ConditionBits(ConditionOf(opc).value) == 16 * (opc / 16)
    ensures MovedBytes(opc).Some? ==>
      MovedBytes(opc).value in {1, 2, 4, 8} && MovedSizeBits(MovedBytes(opc).value) == 16 * (opc / 16)
  {
  }

  lemma DecodedPqr(opc: u8)
    ensures PqrOpOf(opc).Some? ==>
      PqrBits(PqrOpOf(opc).value) + (if opc / 16 % 2 == 1 then BPF_B else 0) == 16 * (opc / 16) &&
      (PqrOpOf(opc).value in {Uhmul, Shmul} ==> opc / 16 % 2 == 1)
  {
  }

  lemma Alu32Decoded(v: Version, opc: u8)
    requires opc % 8 == BPF_ALU32_LOAD
    ensures PutTogether(v, opc, DecodeAlu32(v, opc))
  {
    Digits(opc);
    DecodedParts(v, opc);
    hide SourceIsRegister, AluOpOf, MovedBytes, AluBits, MovedSizeBits;
  }

  lemma Alu64Decoded(v: Version, opc: u8)
    requires opc % 8 == BPF_ALU64_STORE
    ensures PutTogether(v, opc, DecodeAlu64(v, opc))
  {
    Digits(opc);
    DecodedParts(v, opc);
    hide SourceIsRegister, AluOpOf, MovedBytes, AluBits, MovedSizeBits;
  }

  lemma Jmp64Decoded(v: Version, opc: u8)
    requires opc % 8 == BPF_JMP64
    ensures PutTogether(v, opc, DecodeJmp64(opc))
  {
    Digits(opc);
    DecodedParts(v, opc);
    hide SourceIsRegister, ConditionOf, ConditionBits;
  }

  lemma PqrOrJmp32Decoded(v: Version, opc: u8)
    requires opc % 8 == BPF_PQR
    ensures PutTogether(v, opc, DecodePqrOrJmp32(v, opc))
  {
    Digits(opc);
    DecodedParts(v, opc);
    DecodedPqr(opc);
    hide SourceIsRegister, ConditionOf, ConditionBits, PqrOpOf, PqrBits;
  }

  lemma MemoryDecoded(v: Version, opc: u8)
    requires opc % 8 < 4
    ensures PutTogether(v, opc, Decode(v, opc))
  {
    hide DecodeAlu32, DecodeAlu64, DecodeJmp64, DecodePqrOrJmp32;
  }

  /** Every byte that decodes to something is put together from the parts of that operation. */
  lemma OpcodeDecoded(v: Version, opc: u8)
    ensures Decode(v, opc) != Unknown ==> Supported(v, Decode(v, opc)) && OpcodeOf(v, Decode(v, opc)) == opc
  {
    hide DecodeAlu32, DecodeAlu64, DecodeJmp64, DecodePqrOrJmp32, OpcodeOf, Supported;
    match opc % 8
    case 4 => Alu32Decoded(v, opc);
    case 5 => Jmp64Decoded(v, opc);
    case 6 => PqrOrJmp32Decoded(v, opc);
    case 7 => Alu64Decoded(v, opc);
    case _ => MemoryDecoded(v, opc);
  }
}
