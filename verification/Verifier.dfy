/** The verifier of guest programs: its loop over the slots accepts exactly the programs in which
    every slot is a checked instruction or the second half of a wide load. */
module Verifier {
  import opened Words
  import opened Bits
  import opened Ebpf

  datatype VerifierError =
    | ProgramLengthNotMultiple
    | NoProgram
    | DivisionByZero(ptr: nat)
    | UnsupportedLEBEArgument(ptr: nat)
    | LDDWCannotBeLast
    | IncompleteLDDW(ptr: nat)
    | JumpOutOfCode(target: u64, ptr: nat)
    | JumpToMiddleOfLDDW(target: u64, ptr: nat)
    | InvalidSourceRegister(ptr: nat)
    | CannotWriteR10(ptr: nat)
    | InvalidDestinationRegister(ptr: nat)
    | UnknownOpCode(opc: u8, ptr: nat)
    | ShiftWithOverflow(shift: u64, bits: nat, ptr: nat)
    | InvalidRegister(ptr: nat)
    | UnalignedImmediate(ptr: nat)

  // ----- what is accepted -----

  /** The target of a jump: relative to the next slot */
  function JumpTarget(insn: Insn, pc: nat): int { pc + 1 + insn.off }

  /** The number of the register a register call jumps through */
  function CallxRegister(v: Version, insn: Insn): int {
    if v.CallxUsesSrcReg() then insn.src else if v.CallxUsesDstReg() then insn.dst else insn.imm
  }

  ghost predicate Divides(op: Operation) {
    || (op.Alu? && (op.op == Div || op.op == Mod))
    || (op.Pqr? && (op.pqr == Udiv || op.pqr == Urem || op.pqr == Sdiv || op.pqr == Srem))
  }

  ghost predicate Shifts(op: Operation) { op.Alu? && (op.op == Lsh || op.op == Rsh || op.op == Arsh) }

  ghost predicate BumpsFrame(v: Version, op: Operation, insn: Insn) {
    v.ManualStackFrameBump() && op == Alu(Add, true, false) && insn.dst == FRAME_PTR_REG
  }

  /** Registers are at most 10, and register 10 is written only by an aligned frame bump. */
  ghost predicate RegistersOk(v: Version, op: Operation, insn: Insn) {
    && insn.src <= 10 && insn.dst <= 10
    && (insn.dst == FRAME_PTR_REG ==> op.Store? || BumpsFrame(v, op, insn))
    && (BumpsFrame(v, op, insn) ==> insn.imm % 64 == 0)
  }

  ghost predicate OperandsOk(v: Version, op: Operation, insn: Insn) {
    && op != Unknown
    && (Divides(op) && !op.reg ==> insn.imm != 0)
    && (Shifts(op) && !op.reg ==> 0 <= insn.imm < if op.wide then 64 else 32)
    && (op == LittleEndian || op == BigEndian ==> insn.imm == 16 || insn.imm == 32 || insn.imm == 64)
    && (op == CallRegister ==> 0 <= CallxRegister(v, insn) < 10)
  }

  /** Jumps land on the first slot of an instruction, and wide loads have their second half. */
  ghost predicate TargetsOk(prog: seq<u8>, op: Operation, insn: Insn, pc: nat) {
    && (op == JumpAlways || op.JumpIf? ==>
          0 <= JumpTarget(insn, pc) < Slots(prog) && GetInsn(prog, JumpTarget(insn, pc)).opc != 0)
    && (op == LoadWide ==> pc + 1 < Slots(prog) && GetInsn(prog, pc + 1).opc == 0)
  }

  ghost predicate Checked(v: Version, prog: seq<u8>, pc: nat)
    requires pc < Slots(prog)
  {
    var insn := GetInsn(prog, pc);
    var op := Decode(v, insn.opc);
    RegistersOk(v, op, insn) && OperandsOk(v, op, insn) && TargetsOk(prog, op, insn, pc)
  }

  predicate IsTail(v: Version, prog: seq<u8>, pc: nat)
    requires pc < Slots(prog)
  {
    pc > 0 && GetInsn(prog, pc).opc == 0 && Decode(v, GetInsn(prog, pc - 1).opc) == LoadWide
  }

  ghost predicate SlotVerified(v: Version, prog: seq<u8>, pc: nat)
    requires pc < Slots(prog)
  {
    IsTail(v, prog, pc) || Checked(v, prog, pc)
  }

  ghost predicate Verified(v: Version, prog: seq<u8>) {
    && |prog| % INSN_SIZE == 0 && prog != []
    && forall pc :: 0 <= pc < Slots(prog) ==> SlotVerified(v, prog, pc)
  }

  // ----- the checks -----

  function CheckProgLen(prog: seq<u8>): Option<VerifierError> {
    if |prog| % INSN_SIZE != 0 then Some(ProgramLengthNotMultiple)
    else if prog == [] then Some(NoProgram)
    else None
  }

  function CheckImmNonzero(insn: Insn, ptr: nat): Option<VerifierError> {
    if insn.imm == 0 then Some(DivisionByZero(ptr)) else None
  }

  function CheckImmEndian(insn: Insn, ptr: nat): Option<VerifierError> {
    match insn.imm
    case 16 => None
    case 32 => None
    case 64 => None
    case _ => Some(UnsupportedLEBEArgument(ptr))
  }

  function CheckImmAligned(insn: Insn, ptr: nat): Option<VerifierError> {
    if And(Wrap(insn.imm), 63) == 0 then None else Some(UnalignedImmediate(ptr))
  }

  function CheckImmShift(insn: Insn, ptr: nat, bits: nat): Option<VerifierError> {
    if insn.imm < 0 || Wrap(insn.imm) >= bits then Some(ShiftWithOverflow(Wrap(insn.imm), bits, ptr)) else None
  }

  function CheckCallxRegister(v: Version, insn: Insn, ptr: nat): Option<VerifierError> {
    if 0 <= CallxRegister(v, insn) < 10 then None else Some(InvalidRegister(ptr))
  }

  function CheckLoadDw(prog: seq<u8>, ptr: nat): Option<VerifierError>
    requires ptr < Slots(prog)
  {
    if (ptr + 1) * INSN_SIZE >= |prog| then Some(LDDWCannotBeLast)
    else if ptr + 1 < Slots(prog) && GetInsn(prog, ptr + 1).opc != 0 then Some(IncompleteLDDW(ptr))
    else None
  }

  function CheckJmpOffset(prog: seq<u8>, ptr: nat): Option<VerifierError>
    requires ptr < Slots(prog)
  {
    var target := JumpTarget(GetInsn(prog, ptr), ptr);
    if !(0 <= target < Slots(prog)) then Some(JumpOutOfCode(Wrap(target), ptr))
    else if GetInsn(prog, target).opc == 0 then Some(JumpToMiddleOfLDDW(Wrap(target), ptr))
    else None
  }

  function CheckRegisters(v: Version, insn: Insn, store: bool, ptr: nat): Option<VerifierError> {
    if insn.src > 10 then Some(InvalidSourceRegister(ptr))
    else if insn.dst <= 9 || (insn.dst == 10 && store) then None
    else if insn.dst == 10 then
      if v.ManualStackFrameBump() && insn.opc == 0x07 then None else Some(CannotWriteR10(ptr))
    else Some(InvalidDestinationRegister(ptr))
  }

  /** The arms of the loop's big match */
  function CheckOperation(v: Version, prog: seq<u8>, ptr: nat): Option<VerifierError>
    requires ptr < Slots(prog)
  {
    var insn := GetInsn(prog, ptr);
    match Decode(v, insn.opc)
    case LoadWide => CheckLoadDw(prog, ptr)
    case Alu(op, wide, reg) =>
      if (op == Div || op == Mod) && !reg then CheckImmNonzero(insn, ptr)
      else if (op == Lsh || op == Rsh || op == Arsh) && !reg then CheckImmShift(insn, ptr, if wide then 64 else 32)
      else if insn.opc == 0x07 && insn.dst == FRAME_PTR_REG && v.ManualStackFrameBump() then CheckImmAligned(insn, ptr)
      else None
    case Pqr(op, _, reg) =>
      if op.Udiv? || op.Urem? || op.Sdiv? || op.Srem? then
        if reg then None else CheckImmNonzero(insn, ptr)
      else None
    case LittleEndian => CheckImmEndian(insn, ptr)
    case BigEndian => CheckImmEndian(insn, ptr)
    case JumpAlways => CheckJmpOffset(prog, ptr)
    case JumpIf(_, _, _) => CheckJmpOffset(prog, ptr)
    case CallRegister => CheckCallxRegister(v, insn, ptr)
    case Unknown => Some(UnknownOpCode(insn.opc, ptr))
    case _ => None
  }

  /** What the loop body reports for a slot. Behind a wide load the instruction pointer has already moved. */
  function SlotError(v: Version, prog: seq<u8>, ptr: nat): Option<VerifierError>
    requires ptr < Slots(prog)
  {
    var insn := GetInsn(prog, ptr);
    var op := Decode(v, insn.opc);
    match CheckOperation(v, prog, ptr)
    case Some(e) => Some(e)
    case None => CheckRegisters(v, insn, op.Store?, if op == LoadWide then ptr + 1 else ptr)
  }

  // ----- the checks decide what is accepted -----

  lemma AlignedMeaning(imm: i64)
    ensures And(Wrap(imm), 63) == 0 <==> imm % 64 == 0
  {
    hide And, Pow2;
    Pow2Values();
    AndLowMask(Wrap(imm), 6);
    assert Wrap(imm) % 64 == imm % 64;
  }

  lemma AddImmediate(v: Version, opc: u8)
    ensures Decode(v, opc) == Alu(Add, true, false) <==> opc == 0x07
  {
  }

  lemma SlotErrorMeaning(v: Version, prog: seq<u8>, ptr: nat)
    requires ptr < Slots(prog) && |prog| % INSN_SIZE == 0
    ensures SlotError(v, prog, ptr).None? <==> Checked(v, prog, ptr)
  {
    hide Decode, GetInsn, And;
    var insn := GetInsn(prog, ptr);
    AlignedMeaning(insn.imm);
    AddImmediate(v, insn.opc);
  }

  /** The rule that a slot breaks when it gets an error. Registers are looked at last, and behind a wide load. */
  ghost predicate Explains(v: Version, prog: seq<u8>, ptr: nat, e: VerifierError)
    requires ptr < Slots(prog)
  {
    var insn := GetInsn(prog, ptr);
    var op := Decode(v, insn.opc);
    var target := JumpTarget(insn, ptr);
    var rest := OperandsOk(v, op, insn) && TargetsOk(prog, op, insn, ptr) &&
                (BumpsFrame(v, op, insn) ==> insn.imm % 64 == 0);
    var behind := if op == LoadWide then ptr + 1 else ptr;
    match e
    case ProgramLengthNotMultiple => false
    case NoProgram => false
    case UnknownOpCode(opc, at) => at == ptr && op == Unknown && opc == insn.opc
    case DivisionByZero(at) => at == ptr && Divides(op) && !op.reg && insn.imm == 0
    case ShiftWithOverflow(shift, bits, at) =>
      && at == ptr && Shifts(op) && !op.reg && bits == (if op.wide then 64 else 32)
      && !(0 <= insn.imm < bits) && shift == insn.imm % TWO64
    case UnsupportedLEBEArgument(at) =>
      at == ptr && (op == LittleEndian || op == BigEndian) && insn.imm != 16 && insn.imm != 32 && insn.imm != 64
    case UnalignedImmediate(at) => at == ptr && BumpsFrame(v, op, insn) && insn.imm % 64 != 0
    case InvalidRegister(at) => at == ptr && op == CallRegister && !(0 <= CallxRegister(v, insn) < 10)
    case LDDWCannotBeLast => op == LoadWide && ptr + 1 == Slots(prog)
    case IncompleteLDDW(at) =>
      at == ptr && op == LoadWide && ptr + 1 < Slots(prog) && GetInsn(prog, ptr + 1).opc != 0
    case JumpOutOfCode(t, at) =>
      at == ptr && (op == JumpAlways || op.JumpIf?) && !(0 <= target < Slots(prog)) && t == target % TWO64
    case JumpToMiddleOfLDDW(t, at) =>
      && at == ptr && (op == JumpAlways || op.JumpIf?) && 0 <= target < Slots(prog)
      && GetInsn(prog, target).opc == 0 && t == target % TWO64
    case InvalidSourceRegister(at) => at == behind && rest && insn.src > 10
    case InvalidDestinationRegister(at) => at == behind && rest && insn.src <= 10 && insn.dst > 10
    case CannotWriteR10(at) =>
      at == behind && rest && insn.src <= 10 && insn.dst == 10 && !op.Store? && !BumpsFrame(v, op, insn)
  }

  /** A slot gets exactly the error of the rule it breaks. */
  lemma ErrorExplained(v: Version, prog: seq<u8>, ptr: nat, e: VerifierError)
    requires ptr < Slots(prog) && |prog| % INSN_SIZE == 0
    ensures SlotError(v, prog, ptr) == Some(e) <==> Explains(v, prog, ptr, e)
  {
    hide Decode, GetInsn, CheckOperation, CheckRegisters, Explains;
    OperationExplained(v, prog, ptr, e);
    if AboutRegisters(e) {
      RegistersExplained(v, prog, ptr, e);
    }
    var insn := GetInsn(prog, ptr);
    RegisterErrors(v, insn, Decode(v, insn.opc).Store?, if Decode(v, insn.opc) == LoadWide then ptr + 1 else ptr);
  }

  predicate AboutRegisters(e: VerifierError) {
    e.InvalidSourceRegister? || e.InvalidDestinationRegister? || e.CannotWriteR10?
  }

  lemma RegisterErrors(v: Version, insn: Insn, store: bool, ptr: nat)
    ensures CheckRegisters(v, insn, store, ptr).Some? ==> AboutRegisters(CheckRegisters(v, insn, store, ptr).value)
  {
  }

  lemma OperationExplained(v: Version, prog: seq<u8>, ptr: nat, e: VerifierError)
    requires ptr < Slots(prog) && |prog| % INSN_SIZE == 0
    ensures CheckOperation(v, prog, ptr) == Some(e) <==> !AboutRegisters(e) && Explains(v, prog, ptr, e)
  {
    hide Decode, GetInsn, And;
    var insn := GetInsn(prog, ptr);
    AlignedMeaning(insn.imm);
    AddImmediate(v, insn.opc);
  }

  lemma RegistersExplained(v: Version, prog: seq<u8>, ptr: nat, e: VerifierError)
    requires ptr < Slots(prog) && |prog| % INSN_SIZE == 0 && AboutRegisters(e)
    ensures var insn := GetInsn(prog, ptr);
      var op := Decode(v, insn.opc);
      var registers := CheckRegisters(v, insn, op.Store?, if op == LoadWide then ptr + 1 else ptr);
      CheckOperation(v, prog, ptr).None? && registers == Some(e) <==> Explains(v, prog, ptr, e)
  {
    hide Decode, GetInsn, And, CheckOperation, OperandsOk, TargetsOk;
    AddImmediate(v, GetInsn(prog, ptr).opc);
    OperationPasses(v, prog, ptr);
  }

  lemma OperationPasses(v: Version, prog: seq<u8>, ptr: nat)
    requires ptr < Slots(prog) && |prog| % INSN_SIZE == 0
    ensures var insn := GetInsn(prog, ptr);
      var op := Decode(v, insn.opc);
      CheckOperation(v, prog, ptr).None? <==>
        OperandsOk(v, op, insn) && TargetsOk(prog, op, insn, ptr) && (BumpsFrame(v, op, insn) ==> insn.imm % 64 == 0)
  {
    hide Decode, GetInsn, And;
    AlignedMeaning(GetInsn(prog, ptr).imm);
    AddImmediate(v, GetInsn(prog, ptr).opc);
  }

  lemma TailUnknown(v: Version)
    ensures Decode(v, 0) == Unknown
  {
  }

  // ----- the loop -----

  /** Everything before the slot passes, and the slot itself gives the error. */
  ghost predicate FirstError(v: Version, prog: seq<u8>, ptr: nat, e: VerifierError) {
    && ptr < Slots(prog) && SlotError(v, prog, ptr) == Some(e) && Explains(v, prog, ptr, e)
    && !SlotVerified(v, prog, ptr)
    && forall pc :: 0 <= pc < ptr ==> SlotVerified(v, prog, pc)
  }

  method Verify(v: Version, prog: seq<u8>) returns (error: Option<VerifierError>)
    ensures error.None? <==> Verified(v, prog)
    ensures error.Some? ==>
      error == CheckProgLen(prog) || exists ptr :: FirstError(v, prog, ptr, error.value)
    ensures error == Some(ProgramLengthNotMultiple) <==> |prog| % INSN_SIZE != 0
    ensures error == Some(NoProgram) <==> prog == []
  {
    hide Decode, GetInsn, Checked, CheckOperation, CheckRegisters, Explains;
    TailUnknown(v);
    error := CheckProgLen(prog);
    if error.Some? {
      return;
    }
    var ptr: nat := 0;
    while (ptr + 1) * INSN_SIZE <= |prog|
      invariant error.None? && ptr <= Slots(prog)
      invariant ptr > 0 ==> Decode(v, GetInsn(prog, ptr - 1).opc) != LoadWide
      invariant forall pc :: 0 <= pc < ptr ==> SlotVerified(v, prog, pc)
      decreases Slots(prog) - ptr
    {
      SlotErrorMeaning(v, prog, ptr);
      var insn := GetInsn(prog, ptr);
      error := CheckOperation(v, prog, ptr);
      if error.Some? {
        ErrorExplained(v, prog, ptr, error.value);
        NotOfLength(v, prog, ptr, error.value);
        assert FirstError(v, prog, ptr, error.value);
        return;
      }
      ghost var at := ptr;
      if Decode(v, insn.opc) == LoadWide {
        WideLoadComplete(v, prog, ptr);
        ptr := ptr + 1;
      }
      error := CheckRegisters(v, insn, Decode(v, insn.opc).Store?, ptr);
      if error.Some? {
        ErrorExplained(v, prog, at, error.value);
        NotOfLength(v, prog, at, error.value);
        assert FirstError(v, prog, at, error.value);
        return;
      }
      ptr := ptr + 1;
    }
    if ptr != Slots(prog) {
      error := Some(JumpOutOfCode(Wrap(ptr), ptr));
    }
  }

  lemma NotOfLength(v: Version, prog: seq<u8>, ptr: nat, e: VerifierError)
    requires ptr < Slots(prog) && Explains(v, prog, ptr, e)
    ensures e != ProgramLengthNotMultiple && e != NoProgram
  {
  }

  lemma WideLoadComplete(v: Version, prog: seq<u8>, ptr: nat)
    requires ptr < Slots(prog) && |prog| % INSN_SIZE == 0 && CheckOperation(v, prog, ptr).None?
    requires Decode(v, GetInsn(prog, ptr).opc) == LoadWide
    ensures ptr + 1 < Slots(prog) && GetInsn(prog, ptr + 1).opc == 0 && IsTail(v, prog, ptr + 1)
  {
    hide Decode, GetInsn;
  }
}
