/** The interpreter on values: what each instruction does to registers and memory, and the step
    machine this makes. Memory and syscalls belong to an environment that can do anything. */
module Interpreter {
  import opened Words
  import opened Bits
  import opened Ebpf
  import opened Alu
  import opened Faults
  import opened Metering
  import opened Verifier

  datatype Loaded<M> = Loaded(mem: M, value: u64) | LoadFault(code: nat)

  datatype Stored<M> = Stored(mem: M) | StoreFault(code: nat)

  datatype Invoked<M> = Invoked(mem: M, remaining: nat, result: Option<u64>)

  /** Memory accesses by address and size, and syscalls by key, arguments and remaining budget */
  datatype Environment<!M> = Environment(
    load: (M, u64, nat) -> Loaded<M>,
    store: (M, u64, nat, u64) -> Stored<M>,
    syscall: (u32, seq<u64>, M, nat) -> Invoked<M>)

  datatype Config = Config(maxCallDepth: nat, stackFrameSize: nat, enableStackFrameGaps: bool)

  /** `functions` are the registered call targets, `syscalls` the keys of the loader's registry. */
  datatype Executable<!M> = Executable(version: Version, prog: seq<u8>, vmAddr: u64, functions: map<u32, nat>,
                                       syscalls: set<u32>, config: Config, env: Environment<M>)

  /** The guest registers without the program counter */
  type Registers = r: seq<u64> | |r| == 11 witness seq(11, _ => 0)

  datatype Data<M> = Data(reg: Registers, mem: M)

  /** Registers 6 to 9 */
  type Scratch = r: seq<u64> | |r| == 4 witness [0, 0, 0, 0]

  datatype CallerSaved = CallerSaved(scratch: Scratch, framePointer: u64)

  // ----- instructions -----

  predicate NamesRegisters(insn: Insn) { insn.dst <= 10 && insn.src <= 10 }

  function Address(base: u64, off: i16): u64 { Wrap(base + off) }

  /** The second operand of an instruction */
  function Operand(insn: Insn, reg: bool, d: Registers): u64
    requires NamesRegisters(insn)
  {
    if reg then d[insn.src] else Wrap(insn.imm)
  }

  /** The new value of the destination register, for everything but memory accesses and jumps */
  function Compute(v: Version, op: Operation, insn: Insn, d: Registers): Computed
    requires NamesRegisters(insn)
  {
    var a := d[insn.dst];
    match op
    case Alu(o, wide, reg) =>
      if wide then Alu64(v, o, reg, a, Operand(insn, reg, d)) else Alu32(v, o, reg, a, Operand(insn, reg, d))
    case Neg(wide) => Value(Alu.Neg(wide, a))
    case LittleEndian => Truncated(a, insn.imm)
    case BigEndian => SwapBytes(a, insn.imm)
    case HighOr => Value(Or64(a, Shl64(Wrap(insn.imm), 32)))
    case Pqr(o, wide, reg) =>
      var b := if reg then d[insn.src] else PqrImmediate(o, wide, insn.imm);
      if wide then Pqr64(o, reg, a, b) else Pqr32(o, reg, a, b)
    case _ => Fault(InvalidInstruction)
  }

  function ExecLoad<M>(env: Environment<M>, bytes: nat, insn: Insn, d: Data<M>): Effect<Data<M>>
    requires NamesRegisters(insn)
  {
    match env.load(d.mem, Address(d.reg[insn.src], insn.off), bytes)
    case Loaded(mem, value) => Done(Data(d.reg[insn.dst := value], mem))
    case LoadFault(code) => Failed(AccessViolation(code))
  }

  function CutTo(bytes: nat, x: u64): u64 {
    SmallQuotient(x, Pow2(8 * bytes));
    x % Pow2(8 * bytes)
  }

  /** The value is cut to the size of the access. */
  function ExecStore<M>(env: Environment<M>, bytes: nat, reg: bool, insn: Insn, d: Data<M>): Effect<Data<M>>
    requires NamesRegisters(insn)
  {
    match env.store(d.mem, Address(d.reg[insn.dst], insn.off), bytes, CutTo(bytes, Operand(insn, reg, d.reg)))
    case Stored(mem) => Done(Data(d.reg, mem))
    case StoreFault(code) => Failed(AccessViolation(code))
  }

  function ExecCompute<M>(v: Version, op: Operation, insn: Insn, d: Data<M>): Effect<Data<M>>
    requires NamesRegisters(insn)
  {
    match Compute(v, op, insn, d.reg)
    case Value(value) => Done(Data(d.reg[insn.dst := value], d.mem))
    case Fault(fault) => Failed(fault)
  }

  /** An instruction that does not change the flow of control */
  function Exec<M>(exe: Executable<M>, pc: nat, d: Data<M>): Effect<Data<M>> {
    if pc >= Slots(exe.prog) then Failed(HostPanic)
    else
      var insn := GetInsn(exe.prog, pc);
      if !NamesRegisters(insn) then Failed(HostPanic)
      else
        match Decode(exe.version, insn.opc)
        case Load(bytes) => ExecLoad(exe.env, bytes, insn, d)
        case Store(bytes, reg) => ExecStore(exe.env, bytes, reg, insn, d)
        case op => ExecCompute(exe.version, op, insn, d)
  }

  function LoadImmediate<M>(exe: Executable<M>, pc: nat, d: Data<M>): Data<M> {
    if pc + 1 >= Slots(exe.prog) || !NamesRegisters(GetInsn(exe.prog, pc)) then d
    else
      var insn := GetInsn(exe.prog, pc);
      d.(reg := d.reg[insn.dst := Wrap(AugmentLddw(exe.prog, pc, insn.imm))])
  }

  predicate Taken<M>(exe: Executable<M>, pc: nat, d: Data<M>) {
    && pc < Slots(exe.prog) && NamesRegisters(GetInsn(exe.prog, pc))
    && var insn := GetInsn(exe.prog, pc);
       var op := Decode(exe.version, insn.opc);
       op.JumpIf? && Compare(op.condition, op.wide, d.reg[insn.dst], Operand(insn, op.reg, d.reg))
  }

  function Callee<M>(exe: Executable<M>, pc: nat, d: Data<M>): nat {
    if pc >= Slots(exe.prog) then 0
    else
      var r := CallxRegister(exe.version, GetInsn(exe.prog, pc));
      if 0 <= r <= 10 then Wrap(d.reg[r] - exe.vmAddr) / INSN_SIZE else 0
  }

  /** The syscall gets registers 1 to 5; its result goes to register 0. */
  function Syscall<M>(exe: Executable<M>, pc: nat, d: Data<M>, remaining: nat): SysEffect<Data<M>> {
    if pc >= Slots(exe.prog) then SysEffect(d, remaining, false)
    else
      var e := exe.env.syscall(Wrap32(GetInsn(exe.prog, pc).imm), d.reg[1..6], d.mem, remaining);
      match e.result
      case Some(value) => SysEffect(Data(d.reg[0 := value], e.mem), e.remaining, true)
      case None => SysEffect(Data(d.reg, e.mem), e.remaining, false)
  }

  // ----- calls -----

  function Save<M>(d: Data<M>): CallerSaved { CallerSaved(d.reg[6..10], d.reg[FRAME_PTR_REG]) }

  /** The frame pointer of the first frame */
  function FirstPointer<M>(exe: Executable<M>, stackLen: u64): u64
    requires exe.config.stackFrameSize < TWO64
  {
    SatAdd(MM_STACK_START, if exe.version.ManualStackFrameBump() then stackLen else exe.config.stackFrameSize)
  }

  /** How far apart the frames of caller and callee are */
  function FrameStride<M>(exe: Executable<M>): nat {
    exe.config.stackFrameSize * if exe.version.StackFrameGaps() && exe.config.enableStackFrameGaps then 2 else 1
  }

  function Enter<M>(exe: Executable<M>, d: Data<M>): Data<M> {
    if exe.version.ManualStackFrameBump() then d
    else d.(reg := d.reg[FRAME_PTR_REG := Wrap(d.reg[FRAME_PTR_REG] + FrameStride(exe))])
  }

  function Restore<M>(d: Data<M>, f: CallerSaved): Data<M> {
    d.(reg := d.reg[..6] + f.scratch + [f.framePointer])
  }

  // ----- the step machine -----

  /** The call target of an immediate call, by relative address or by registered key */
  function InternalTarget<M>(exe: Executable<M>, pc: nat, insn: Insn): Option<nat> {
    if exe.version.StaticSyscalls() then
      var target := pc + 1 + insn.imm;
      if insn.src == 1 && 0 <= target < Slots(exe.prog) then Some(target) else None
    else if Wrap32(insn.imm) in exe.functions then Some(exe.functions[Wrap32(insn.imm)])
    else None
  }

  predicate IsSyscall<M>(exe: Executable<M>, insn: Insn) {
    (!exe.version.StaticSyscalls() || insn.src == 0) && Wrap32(insn.imm) in exe.syscalls
  }

  /** What a slot is to the meter and to the compiler */
  function SlotAt<M>(exe: Executable<M>, pc: nat): Slot
    requires pc < Slots(exe.prog)
  {
    var insn := GetInsn(exe.prog, pc);
    match Decode(exe.version, insn.opc)
    case LoadWide => Lddw
    case JumpAlways => Jump(Wrap(JumpTarget(insn, pc)))
    case JumpIf(_, _, _) => Branch(Wrap(JumpTarget(insn, pc)))
    case CallImm => Call(IsSyscall(exe, insn), InternalTarget(exe, pc, insn))
    case CallRegister => CallReg
    case Leave => Exit
    case Unknown => LddwTail
    case _ => Straight
  }

  function SlotsOf<M>(exe: Executable<M>): (slots: seq<Slot>)
    ensures |slots| == Slots(exe.prog)
    ensures forall pc :: 0 <= pc < |slots| ==> slots[pc] == SlotAt(exe, pc)
  {
    seq(Slots(exe.prog), pc requires 0 <= pc < Slots(exe.prog) => SlotAt(exe, pc))
  }

  function MachineOf<M>(exe: Executable<M>): Machine<Data<M>, CallerSaved> {
    Machine(SlotsOf(exe), exe.config.maxCallDepth,
            (pc: nat, d: Data<M>) => Exec(exe, pc, d),
            (pc: nat, d: Data<M>) => LoadImmediate(exe, pc, d),
            (pc: nat, d: Data<M>) => Taken(exe, pc, d),
            (pc: nat, d: Data<M>) => Callee(exe, pc, d),
            (pc: nat, d: Data<M>, remaining: nat) => Syscall(exe, pc, d, remaining),
            (d: Data<M>) => Save(d),
            (d: Data<M>) => Enter(exe, d),
            (d: Data<M>, f: CallerSaved) => Restore(d, f))
  }

  /** Premises on what the program runs in: room for a frame, call targets inside the program, and
      syscalls that never raise the remaining budget. */
  ghost predicate Loadable<M(!new)>(exe: Executable<M>) {
    && Verified(exe.version, exe.prog)
    && |exe.prog| < TWO63
    && exe.config.maxCallDepth >= 1
    && (forall key :: key in exe.functions ==> exe.functions[key] < Slots(exe.prog))
    && (forall key, args, mem, r :: exe.env.syscall(key, args, mem, r).remaining <= r)
  }

  /** A verified program gives a machine that compiled code refines. */
  lemma VerifiedWellFormed<M(!new)>(exe: Executable<M>)
    requires Loadable(exe)
    ensures WellFormed(MachineOf(exe))
  {
    hide Verified, Decode, GetInsn, Exec, LoadImmediate, Taken, Save, Restore;
    var m := MachineOf(exe);
    forall pc | 0 <= pc < |m.prog| ensures SlotOk(m.prog, pc) {
      VerifiedSlot(exe, pc);
    }
    forall pc: nat, d, r: nat ensures m.syscall(pc, d, r).remaining <= r {
      assert Syscall(exe, pc, d, r).remaining <= r;
    }
    forall pc: nat, d | pc < |m.prog| && m.prog[pc] == CallReg ensures m.callee(pc, m.enter(d)) == m.callee(pc, d) {
      CalleeKept(exe, pc, d);
    }
  }

  lemma VerifiedAt<M>(exe: Executable<M>, pc: nat)
    requires Verified(exe.version, exe.prog) && pc < Slots(exe.prog)
    ensures SlotVerified(exe.version, exe.prog, pc)
  {
  }

  /** Slots that are not the second half of a wide load pass every check. */
  lemma CheckedAt<M>(exe: Executable<M>, pc: nat)
    requires Verified(exe.version, exe.prog) && pc < Slots(exe.prog)
    ensures SlotAt(exe, pc) == LddwTail ==> IsTail(exe.version, exe.prog, pc)
    ensures SlotAt(exe, pc) != LddwTail ==> Checked(exe.version, exe.prog, pc)
  {
    hide Verified, Decode, GetInsn;
    VerifiedAt(exe, pc);
    TailUnknown(exe.version);
  }

  lemma VerifiedSlot<M(!new)>(exe: Executable<M>, pc: nat)
    requires Loadable(exe) && pc < Slots(exe.prog)
    ensures SlotOk(SlotsOf(exe), pc)
  {
    hide Verified, Decode, GetInsn;
    CheckedAt(exe, pc);
    TailUnknown(exe.version);
    var insn := GetInsn(exe.prog, pc);
    var op := Decode(exe.version, insn.opc);
    if op == JumpAlways || op.JumpIf? {
      CheckedAt(exe, JumpTarget(insn, pc));
    }
  }

  lemma CalleeKept<M>(exe: Executable<M>, pc: nat, d: Data<M>)
    requires Verified(exe.version, exe.prog) && pc < Slots(exe.prog) && SlotAt(exe, pc) == CallReg
    ensures Callee(exe, pc, Enter(exe, d)) == Callee(exe, pc, d)
  {
    hide Verified, Decode, GetInsn;
    CheckedAt(exe, pc);
  }
}
