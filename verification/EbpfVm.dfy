/** The interpreter as it runs: registers and call frames in arrays, updated in place one instruction
    at a time, and the execution of a whole program. */
module EbpfVm {
  import opened Words
  import opened Bits
  import opened Ebpf
  import opened Alu
  import opened Faults
  import opened Metering
  import opened Verifier
  import opened Interpreter
  import opened Safety

  /** The machine's own registers and the number of syscalls made when a run starts */
  datatype RunStart = RunStart(registers: seq<u64>, syscalls: nat)

  /** The machine's own registers in the course of a run: syscalls are handed registers 0 to 5 through
      them, errors report their pc in register 11, and the others stay as they were. */
  ghost predicate Follows<M>(own: seq<u64>, start: RunStart, entries: seq<SyscallEntry<Data<M>>>, pc: Option<nat>) {
    && |own| == |start.registers| == 12 && start.syscalls <= |entries|
    && own[..6] == (if |entries| > start.syscalls then entries[|entries| - 1].data.reg[..6] else start.registers[..6])
    && own[6..11] == start.registers[6..11]
    && own[11] == if pc.Some? then pc.value else start.registers[11]
  }

  lemma FollowsError<M>(own: seq<u64>, start: RunStart, entries: seq<SyscallEntry<Data<M>>>, pc: Option<nat>, at: u64)
    requires Follows(own, start, entries, pc)
    ensures |own| == 12 && Follows(own[11 := at], start, entries, Some(at))
  {
    var own' := own[11 := at];
    assert own'[..6] == own[..6] && own'[6..11] == own[6..11];
  }

  lemma FollowsSyscall<M>(own: seq<u64>, start: RunStart, entries: seq<SyscallEntry<Data<M>>>, own': seq<u64>,
                          e: SyscallEntry<Data<M>>)
    requires Follows(own, start, entries, None) && |own| == |own'| == 12
    requires own'[..6] == e.data.reg[..6] && own'[6..11] == own[6..11] && own'[11] == own[11]
    ensures Follows(own', start, entries + [e], None)
  {
  }

  class EbpfVm<M(!new)> {
    const exe: Executable<M>
    /** The machine's own registers, which a run starts from, and the interpreter's copy, which it works on */
    const registers: array<u64>
    const reg: array<u64>
    const callFrames: array<Frame<CallerSaved>>
    var callDepth: nat
    var dueInsnCount: nat
    var previousInstructionMeter: nat
    var remaining: nat
    var mem: M
    var programResult: Kind<Data<M>>
    /** The pc that the run has reported, if any */
    ghost var errorPc: Option<nat>
    ghost var start: RunStart
    ghost var syscalls: seq<SyscallEntry<Data<M>>>
    ghost var straight: nat

    /** Registers are zero but for the frame pointer; there is room for every allowed call. */
    constructor (exe: Executable<M>, stackLen: u64, mem: M)
      requires exe.config.stackFrameSize < TWO64
      ensures this.exe == exe && this.mem == mem && Valid() && callDepth == 0
      ensures fresh(registers) && fresh(reg) && fresh(callFrames)
      ensures registers[..] == seq(10, _ => 0) + [FirstPointer(exe, stackLen), 0]
      ensures exe.config.maxCallDepth == 0 || callDepth < callFrames.Length
    {
      this.exe, this.mem := exe, mem;
      callDepth, dueInsnCount, previousInstructionMeter, remaining := 0, 0, 0, 0;
      reg := new u64[12](_ => 0);
      registers := new u64[12](i => if i == FRAME_PTR_REG then FirstPointer(exe, stackLen) else 0);
      callFrames := new Frame<CallerSaved>[exe.config.maxCallDepth](_ => Frame(CallerSaved([0, 0, 0, 0], 0), 0));
      programResult, errorPc, syscalls, straight := Returned(Data(seq(11, _ => 0), mem)), None, [], 0;
    }

    ghost predicate Valid() {
      reg.Length == registers.Length == 12 && reg != registers && callFrames.Length == exe.config.maxCallDepth
    }

    /** The state of the step machine */
    ghost function Abs(): State<Data<M>, CallerSaved>
      requires Valid() && callDepth <= callFrames.Length
      reads this, reg, callFrames
    {
      State(reg[11], dueInsnCount, previousInstructionMeter, remaining, callFrames[..callDepth],
            Data(reg[..11], mem), syscalls, straight)
    }

    ghost predicate Own()
      reads this, registers
    {
      Follows(registers[..], start, syscalls, errorPc)
    }

    /** Between the fetch of an instruction and its end: one instruction more is due than in `s`. */
    ghost predicate Stepping(s: State<Data<M>, CallerSaved>)
      reads this, registers, reg, callFrames
    {
      && Own() && errorPc == None
      && Valid() && callDepth < callFrames.Length && Abs() == s.(due := s.due + 1)
      && Loadable(exe) && WellFormed(MachineOf(exe)) && MeterOk(MachineOf(exe), s)
      && s.due < s.previous && s.pc < Slots(exe.prog)
    }

    /** The fields show what the step machine did; the next pc is not yet in its register. */
    ghost predicate Shows(r: StepResult<Data<M>, CallerSaved>, ok: bool, nextPc: nat)
      reads this, registers, reg, callFrames
    {
      && Valid() && Own()
      && match r
         case Continue(s') =>
           && ok && errorPc == None && callDepth <= callFrames.Length
           && nextPc < TWO64 && Abs().(pc := nextPc) == s'
         case Stop(o) =>
           && !ok && o.kind == programResult && o.pc == errorPc && o.due == dueInsnCount
           && o.previous == previousInstructionMeter && o.remaining == remaining
           && o.syscalls == syscalls && o.straight == straight
    }

    method Throw(error: Error)
      requires Valid() && Own()
      modifies this`programResult, this`errorPc, registers
      ensures Own() && programResult == Failure(error) && errorPc == Some(reg[11])
    {
      hide Follows;
      FollowsError(registers[..], start, syscalls, errorPc, reg[11]);
      registers[11] := reg[11];
      errorPc := Some(reg[11]);
      programResult := Failure(error);
    }

    /** Registers and memory are those of a successful effect, or the fault is reported. */
    ghost predicate HasEffect(e: Effect<Data<M>>, fault: Option<Fault>)
      requires Valid()
      reads this, reg
    {
      match e
      case Done(d) => fault == None && reg[..11] == d.reg && mem == d.mem
      case Failed(f) => fault == Some(f)
    }

    method ExecuteLoad(bytes: nat, insn: Insn) returns (fault: Option<Fault>)
      requires Valid() && NamesRegisters(insn)
      modifies this`mem, reg
      ensures reg[11] == old(reg[11])
      ensures HasEffect(ExecLoad(exe.env, bytes, insn, old(Data(reg[..11], mem))), fault)
    {
      match exe.env.load(mem, Address(reg[insn.src], insn.off), bytes)
      case Loaded(mem', value) =>
        mem := mem';
        reg[insn.dst] := value;
        fault := None;
      case LoadFault(code) => fault := Some(AccessViolation(code));
    }

    method ExecuteStore(bytes: nat, fromRegister: bool, insn: Insn) returns (fault: Option<Fault>)
      requires Valid() && NamesRegisters(insn)
      modifies this`mem
      ensures HasEffect(ExecStore(exe.env, bytes, fromRegister, insn, old(Data(reg[..11], mem))), fault)
    {
      hide CutTo, Address, Wrap;
      var value := if fromRegister then reg[insn.src] else Wrap(insn.imm);
      match exe.env.store(mem, Address(reg[insn.dst], insn.off), bytes, CutTo(bytes, value))
      case Stored(mem') =>
        mem := mem';
        fault := None;
      case StoreFault(code) => fault := Some(AccessViolation(code));
    }

    method ExecuteCompute(op: Operation, insn: Insn) returns (fault: Option<Fault>)
      requires Valid() && NamesRegisters(insn)
      modifies reg
      ensures reg[11] == old(reg[11])
      ensures HasEffect(ExecCompute(exe.version, op, insn, old(Data(reg[..11], mem))), fault)
    {
      hide Compute;
      match Compute(exe.version, op, insn, reg[..11])
      case Value(value) =>
        reg[insn.dst] := value;
        fault := None;
      case Fault(f) => fault := Some(f);
    }

    /** Instructions that only compute or access memory. Their register numbers are in range and
        their divisors are not zero, so none of them panics. */
    method ExecuteStraight(insn: Insn, op: Operation) returns (fault: Option<Fault>)
      requires Valid() && Loadable(exe) && reg[11] < Slots(exe.prog) && SlotAt(exe, reg[11]) == Straight
      requires insn == GetInsn(exe.prog, reg[11]) && op == Decode(exe.version, insn.opc)
      modifies this`mem, reg
      ensures reg[11] == old(reg[11]) && fault != Some(HostPanic)
      ensures HasEffect(Exec(exe, reg[11], old(Data(reg[..11], mem))), fault)
    {
      hide Decode, GetInsn, Loadable, HasEffect, ExecLoad, ExecStore, ExecCompute;
      ghost var d := Data(reg[..11], mem);
      VerifiedInsnSafe(exe, reg[11], d);
      if op.Load? {
        fault := ExecuteLoad(op.bytes, insn);
      } else if op.Store? {
        fault := ExecuteStore(op.bytes, op.reg, insn);
      } else {
        fault := ExecuteCompute(op, insn);
      }
      FaultOf(Exec(exe, reg[11], d), fault);
    }

    lemma FaultOf(e: Effect<Data<M>>, fault: Option<Fault>)
      requires Valid() && HasEffect(e, fault) && e != Failed(HostPanic)
      ensures fault != Some(HostPanic)
    {
    }

    // ----- calls -----

    method PushFrame() returns (ok: bool)
      requires Valid() && Own() && errorPc == None && callDepth < callFrames.Length && reg[11] + 1 < TWO64
      modifies this`callDepth, this`programResult, this`errorPc, registers, reg, callFrames
      ensures Own() && reg[11] == old(reg[11]) && callDepth <= callFrames.Length
      ensures match Metering.PushFrame(MachineOf(exe), old(Abs()))
        case Some(s') => ok && errorPc == None && callDepth < callFrames.Length && Abs() == s'
        case None => !ok && programResult == Failure(CallDepthExceeded) && errorPc == Some(reg[11])
    {
      hide MachineOf, Metering.PushFrame, Follows;
      PushMeaning(exe, Abs());
      ghost var frames := callFrames[..callDepth];
      var saved := CallerSaved(reg[6..10], reg[FRAME_PTR_REG]);
      assert saved == Save(Data(reg[..11], mem));
      callFrames[callDepth] := Frame(saved, reg[11] + 1);
      callDepth := callDepth + 1;
      assert callFrames[..callDepth] == frames + [Frame(saved, reg[11] + 1)];
      if callDepth == exe.config.maxCallDepth {
        Throw(CallDepthExceeded);
        return false;
      }
      if !exe.version.ManualStackFrameBump() {
        reg[FRAME_PTR_REG] := Wrap(reg[FRAME_PTR_REG] + FrameStride(exe));
      }
      return true;
    }

    /** A call to a slot that has to be checked */
    method CallChecked(target: nat) returns (ok: bool, nextPc: nat)
      requires Valid() && Own() && errorPc == None && callDepth < callFrames.Length
      requires reg[11] + 1 < TWO64 && |exe.prog| < TWO63
      requires dueInsnCount <= previousInstructionMeter < TWO64 && remaining < TWO64
      modifies this`callDepth, this`programResult, this`errorPc, registers, reg, callFrames
      ensures Shows(CallTo(MachineOf(exe), old(Abs()), target), ok, nextPc)
    {
      hide Save, Enter, SlotsOf, Follows;
      nextPc := 0;
      ok := PushFrame();
      if ok {
        if target < Slots(exe.prog) {
          nextPc := target;
        } else {
          Throw(CallOutsideTextSegment);
          ok := false;
        }
      }
    }

    method CallThroughRegister(insn: Insn, ghost s: State<Data<M>, CallerSaved>) returns (ok: bool, nextPc: nat)
      requires Stepping(s) && SlotAt(exe, s.pc) == CallReg && insn == GetInsn(exe.prog, s.pc)
      modifies this`callDepth, this`programResult, this`errorPc, registers, reg, callFrames
      ensures Shows(Metering.Step(MachineOf(exe), s), ok, nextPc)
    {
      hide GetInsn, Decode, Save, Enter, SlotsOf, Loadable, WellFormed, SlotAt, Verified, Follows;
      VerifiedInsnSafe(exe, s.pc, s.data);
      CallxInRange(exe, s.pc);
      var target := Wrap(reg[CallxRegister(exe.version, insn)] - exe.vmAddr) / INSN_SIZE;
      SmallProgram(exe);
      ok, nextPc := CallChecked(target);
    }

    /** Returns to the caller, or ends the program. */
    method Return(ghost s: State<Data<M>, CallerSaved>) returns (ok: bool, nextPc: nat)
      requires Stepping(s) && SlotAt(exe, s.pc) == Exit
      modifies this`callDepth, this`programResult, this`errorPc, registers, reg
      ensures Shows(Metering.Step(MachineOf(exe), s), ok, nextPc)
    {
      hide GetInsn, Decode, SlotsOf, Loadable, WellFormed, SlotAt, Verified, Follows;
      SmallProgram(exe);
      nextPc := 0;
      if callDepth == 0 {
        programResult := Returned(Data(reg[..11], mem));
        return false, nextPc;
      }
      callDepth := callDepth - 1;
      var frame := callFrames[callDepth];
      RestoreRegisters(frame.saved);
      assert callFrames[..callDepth] == s.frames[..|s.frames| - 1];
      assert s.data.reg[..6] == old(reg[..6]);
      if frame.returnPc < Slots(exe.prog) {
        return true, frame.returnPc;
      }
      Throw(CallOutsideTextSegment);
      return false, nextPc;
    }

    // ----- syscalls -----

    /** The builtin behind a syscall: it charges what is due, which it gets as what is left, takes its
        arguments from the machine's own registers, and reads the meter again. */
    method InvokeFunction(key: u32) returns (result: Option<u64>)
      requires Valid() && dueInsnCount <= previousInstructionMeter
      modifies this`previousInstructionMeter, this`remaining, this`mem, this`syscalls
      ensures var amount := old(previousInstructionMeter) - dueInsnCount;
        var charged := if old(remaining) < amount then 0 else old(remaining) - amount;
        var e := exe.env.syscall(key, registers[1..6], old(mem), charged);
        && mem == e.mem && remaining == previousInstructionMeter == e.remaining && result == e.result
        && syscalls == old(syscalls) + [SyscallEntry(reg[11], Data(reg[..11], old(mem)), charged)]
    {
      var amount := previousInstructionMeter - dueInsnCount;
      remaining := if remaining < amount then 0 else remaining - amount;
      syscalls := syscalls + [SyscallEntry(reg[11], Data(reg[..11], mem), remaining)];
      var e := exe.env.syscall(key, registers[1..6], mem, remaining);
      mem, remaining, previousInstructionMeter := e.mem, e.remaining, e.remaining;
      result := e.result;
    }

    /** Hands the argument registers to the machine. */
    method CopyArguments()
      requires Valid()
      modifies registers
      ensures registers[..6] == reg[..6] && registers[1..6] == reg[..11][1..6]
      ensures registers[6..11] == old(registers[6..11]) && registers[11] == old(registers[11])
    {
      forall i | 0 <= i < 6 {
        registers[i] := reg[i];
      }
    }

    /** Charges what is due, hands the meter and the arguments to the syscall and takes the meter back. */
    method DispatchSyscall(key: u32) returns (ok: bool)
      requires Valid() && Own() && errorPc == None
      requires callDepth < callFrames.Length && dueInsnCount <= previousInstructionMeter
      requires reg[11] < Slots(exe.prog) && key == Wrap32(GetInsn(exe.prog, reg[11]).imm)
      modifies this`dueInsnCount, this`previousInstructionMeter, this`remaining, this`mem, this`syscalls, registers, reg
      ensures (Abs(), ok) == Metering.DispatchSyscall(MachineOf(exe), old(Abs()))
      ensures Own() && reg[11] == old(reg[11]) && |syscalls| == |old(syscalls)| + 1
    {
      hide MachineOf, GetInsn, Metering.DispatchSyscall, Follows;
      SyscallMeaning(exe, Abs(), key);
      ghost var own, entries := registers[..], syscalls;
      dueInsnCount := previousInstructionMeter - dueInsnCount;
      CopyArguments();
      var result := InvokeFunction(key);
      dueInsnCount := 0;
      FollowsSyscall(own, start, entries, registers[..], syscalls[|syscalls| - 1]);
      ok := result.Some?;
      if ok {
        reg[0] := result.value;
      }
    }

    /** The part of an immediate call behind a possible syscall */
    method CallInternal(insn: Insn, resolved: bool) returns (ok: bool, nextPc: nat)
      requires Valid() && Own() && errorPc == None && callDepth < callFrames.Length
      requires reg[11] + 1 < TWO64 && |exe.prog| < TWO63
      requires dueInsnCount <= previousInstructionMeter < TWO64 && remaining < TWO64
      modifies this`callDepth, this`programResult, this`errorPc, registers, reg, callFrames
      ensures Shows(InternalCall(MachineOf(exe), old(Abs()), resolved, InternalTarget(exe, old(reg[11]), insn)),
                    ok, nextPc)
    {
      hide SlotsOf, CallTo, Follows;
      ok, nextPc := true, reg[11] + 1;
      if exe.version.StaticSyscalls() {
        var target := nextPc + insn.imm;
        if 0 <= target < Slots(exe.prog) && insn.src == 1 {
          ok, nextPc := CallChecked(target);
          return;
        }
      } else if Wrap32(insn.imm) in exe.functions {
        ok, nextPc := CallChecked(exe.functions[Wrap32(insn.imm)]);
        return;
      }
      if !resolved {
        Throw(UnsupportedInstruction);
        ok := false;
      }
    }

    method CallImmediate(insn: Insn, ghost s: State<Data<M>, CallerSaved>) returns (ok: bool, nextPc: nat)
      requires Stepping(s) && SlotAt(exe, s.pc).Call? && insn == GetInsn(exe.prog, s.pc)
      modifies this, registers, reg, callFrames
      ensures Shows(Metering.Step(MachineOf(exe), s), ok, nextPc) && start == old(start)
    {
      hide GetInsn, Decode, Loadable, WellFormed, Verified, InternalCall, Metering.DispatchSyscall;
      hide Exec, LoadImmediate, Taken, Callee, Save, Enter, Restore, Follows;
      SmallProgram(exe);
      nextPc := 0;
      ghost var m := MachineOf(exe);
      var external := (!exe.version.StaticSyscalls() || insn.src == 0) && Wrap32(insn.imm) in exe.syscalls;
      if external {
        SyscallSpends(m, s.(due := s.due + 1));
        ok := DispatchSyscall(Wrap32(insn.imm));
        if !ok {
          programResult := Failure(SyscallError);
          return;
        }
      }
      ok, nextPc := CallInternal(insn, external);
    }

    // ----- stepping -----

    method StepStraight(insn: Insn, op: Operation, ghost s: State<Data<M>, CallerSaved>)
      returns (ok: bool, nextPc: nat)
      requires Stepping(s) && SlotAt(exe, s.pc) == Straight
      requires insn == GetInsn(exe.prog, s.pc) && op == Decode(exe.version, insn.opc)
      modifies this`mem, this`straight, this`programResult, this`errorPc, registers, reg
      ensures Shows(Metering.Step(MachineOf(exe), s), ok, nextPc)
    {
      hide GetInsn, Decode, SlotsOf, Loadable, WellFormed, SlotAt, Verified, Exec, Follows;
      SmallProgram(exe);
      ok, nextPc := true, reg[11] + 1;
      straight := straight + 1;
      var fault := ExecuteStraight(insn, op);
      if fault.Some? {
        Throw(InstructionError(fault.value));
        ok := false;
      }
    }

    method StepLoadWide(insn: Insn, ghost s: State<Data<M>, CallerSaved>) returns (nextPc: nat)
      requires Stepping(s) && SlotAt(exe, s.pc) == Lddw && insn == GetInsn(exe.prog, s.pc)
      modifies reg
      ensures Shows(Metering.Step(MachineOf(exe), s), true, nextPc)
    {
      hide GetInsn, Decode, SlotsOf, Loadable, WellFormed, Verified, AugmentLddw, Follows;
      SmallProgram(exe);
      VerifiedInsnSafe(exe, s.pc, s.data);
      nextPc := reg[11] + 1;
      reg[insn.dst] := Wrap(AugmentLddw(exe.prog, reg[11], insn.imm));
      reg[11] := reg[11] + 1;
      nextPc := nextPc + 1;
    }

    method StepJump(insn: Insn, op: Operation, ghost s: State<Data<M>, CallerSaved>) returns (nextPc: nat)
      requires Stepping(s) && (op == JumpAlways || op.JumpIf?)
      requires insn == GetInsn(exe.prog, s.pc) && op == Decode(exe.version, insn.opc)
      ensures Shows(Metering.Step(MachineOf(exe), s), true, nextPc)
    {
      hide GetInsn, Decode, Loadable, WellFormed, Verified, Compare, Exec, SlotsOf, Follows;
      SmallProgram(exe);
      VerifiedInsnSafe(exe, s.pc, s.data);
      JumpStep(exe, s);
      nextPc := reg[11] + 1;
      hide Metering.Step, SlotAt;
      if op == JumpAlways {
        nextPc := nextPc + insn.off;
      } else {
        var operand := if op.reg then reg[insn.src] else Wrap(insn.imm);
        if Compare(op.condition, op.wide, reg[insn.dst], operand) {
          nextPc := nextPc + insn.off;
        }
      }
    }

    /** One instruction. Every array access and every division in it is in range because the program
        is verified; the fields follow the step machine. */
    method Step() returns (ok: bool)
      requires Valid() && callDepth < callFrames.Length
      requires Loadable(exe) && WellFormed(MachineOf(exe))
      requires MeterOk(MachineOf(exe), Abs()) && Inside(MachineOf(exe), Abs()) && Own() && errorPc == None
      modifies this, registers, reg, callFrames
      ensures Shows(Metering.Step(MachineOf(exe), old(Abs())), ok, reg[11]) && start == old(start)
    {
      hide GetInsn, Decode, SlotsOf, Loadable, WellFormed, Verified, Follows;
      SmallProgram(exe);
      ghost var s := Abs();
      if dueInsnCount >= previousInstructionMeter {
        Throw(ExceededMaxInstructions);
        return false;
      }
      dueInsnCount := dueInsnCount + 1;
      if reg[11] >= Slots(exe.prog) {
        Throw(ExecutionOverrun);
        return false;
      }
      var insn := GetInsn(exe.prog, reg[11]);
      var nextPc;
      ok, nextPc := Dispatch(insn, Decode(exe.version, insn.opc), s);
      if ok {
        reg[11] := nextPc;
      }
    }

    method Dispatch(insn: Insn, op: Operation, ghost s: State<Data<M>, CallerSaved>)
      returns (ok: bool, nextPc: nat)
      requires Stepping(s) && insn == GetInsn(exe.prog, s.pc) && op == Decode(exe.version, insn.opc)
      modifies this, registers, reg, callFrames
      ensures Shows(Metering.Step(MachineOf(exe), s), ok, nextPc) && start == old(start)
    {
      hide GetInsn, Decode, Shows, Stepping;
      if op == LoadWide {
        nextPc := StepLoadWide(insn, s);
        ok := true;
      } else if op == JumpAlways || op.JumpIf? {
        nextPc := StepJump(insn, op, s);
        ok := true;
      } else if op == CallRegister {
        ok, nextPc := CallThroughRegister(insn, s);
      } else if op == CallImm {
        ok, nextPc := CallImmediate(insn, s);
      } else if op == Leave {
        ok, nextPc := Return(s);
      } else if op == Unknown {
        ok, nextPc := StepUnknown(s);
      } else {
        ok, nextPc := StepStraight(insn, op, s);
      }
    }

    method StepUnknown(ghost s: State<Data<M>, CallerSaved>) returns (ok: bool, nextPc: nat)
      requires Stepping(s) && SlotAt(exe, s.pc) == LddwTail
      modifies this`programResult, this`errorPc, registers
      ensures Shows(Metering.Step(MachineOf(exe), s), ok, nextPc)
    {
      hide GetInsn, Decode, SlotsOf, Loadable, WellFormed, SlotAt, Verified, Follows;
      Throw(UnsupportedInstruction);
      ok, nextPc := false, 0;
    }

    // ----- whole programs -----

    /** The run from here has outcome `o`, or has already ended with it. */
    ghost predicate Leads(o: Outcome<Data<M>>, ok: bool)
      requires Loadable(exe) && WellFormed(MachineOf(exe))
      reads this, registers, reg, callFrames
    {
      && Valid() && Own()
      && if ok then
           && errorPc == None
           && callDepth < callFrames.Length && MeterOk(MachineOf(exe), Abs()) && Inside(MachineOf(exe), Abs())
           && Run(MachineOf(exe), Abs()) == o
         else
           && o.kind == programResult && o.due == dueInsnCount && o.previous == previousInstructionMeter
           && o.remaining == remaining && o.pc == errorPc && o.syscalls == syscalls
    }

    method StepTowards(ghost o: Outcome<Data<M>>) returns (ok: bool)
      requires Loadable(exe) && WellFormed(MachineOf(exe)) && Leads(o, true)
      modifies this, registers, reg, callFrames
      ensures Leads(o, ok) && start == old(start)
      ensures ok ==> previousInstructionMeter - dueInsnCount < old(previousInstructionMeter - dueInsnCount)
      ensures old(previousInstructionMeter - dueInsnCount) >= 0
    {
      hide Loadable, WellFormed, Metering.Step, Follows;
      ghost var s := Abs();
      ghost var m := MachineOf(exe);
      if Metering.Step(m, s).Continue? {
        StepSpends(m, s);
        StepInside(m, s);
      }
      ok := Step();
    }

    /** What a run from `entry` starts from: the calls that an earlier run left open stay open. */
    ghost function Start(entry: nat): State<Data<M>, CallerSaved>
      requires Valid() && callDepth <= callFrames.Length
      reads this, registers, callFrames
    {
      State(entry, 0, remaining, remaining, callFrames[..callDepth], Data(registers[..11], mem), syscalls, straight)
    }

    /** Executes a program and reports how many instructions it took: the outcome is the one of the
        step machine's run, and what the run charges is taken from the context. The machine may have run
        before: its call depth is not reset, and its own registers keep the arguments of the last syscall
        and the pc of an error. */
    method ExecuteProgram(entry: nat) returns (instructionCount: nat, result: Kind<Data<M>>)
      requires Valid() && callDepth < callFrames.Length
      requires Loadable(exe) && WellFormed(MachineOf(exe))
      requires entry < Slots(exe.prog) && remaining + Slots(exe.prog) + 2 < TWO63
      modifies this, registers, reg, callFrames
      ensures var s := old(Start(entry));
        && result == Run(MachineOf(exe), s).kind
        && instructionCount == Reported(Run(MachineOf(exe), s), old(remaining)) == RunCost(MachineOf(exe), s)
        && remaining == LeftAfter(Run(MachineOf(exe), s))
      ensures var s := old(Start(entry)); var o := Run(MachineOf(exe), s);
        && syscalls == o.syscalls
        && Follows(registers[..], RunStart(old(registers[..])[11 := entry], |s.syscalls|), o.syscalls, o.pc)
    {
      hide Loadable, WellFormed, Run, RunCost, Leads, Follows, Abs;
      SmallProgram(exe);
      ghost var m := MachineOf(exe);
      ghost var s := Start(entry);
      ReportedCount(m, s);
      var initialInsnCount := remaining;
      Begin(entry);
      ghost var o := Run(m, s);
      StartLeads(s, o);
      Interpret(o);
      OwnAtEnd(o);
      remaining := if remaining < dueInsnCount then 0 else remaining - dueInsnCount;
      instructionCount := if initialInsnCount < remaining then 0 else initialInsnCount - remaining;
      result, programResult := programResult, Returned(Data(seq(11, _ => 0), mem));
    }

    /** Sets the meter and the entry, and copies the machine's registers for the interpreter. */
    method Begin(entry: nat)
      requires Valid() && callDepth < callFrames.Length && entry < TWO64
      modifies this`start, this`errorPc, this`programResult, this`previousInstructionMeter, this`dueInsnCount
      modifies registers, reg
      ensures Own() && errorPc == None && Abs() == old(Start(entry))
      ensures start == RunStart(old(registers[..])[11 := entry], |syscalls|)
    {
      registers[11] := entry;
      start, errorPc := RunStart(registers[..], |syscalls|), None;
      forall i | 0 <= i < 12 {
        reg[i] := registers[i];
      }
      assert reg[..11] == registers[..11] == old(registers[..11]);
      previousInstructionMeter := remaining;
      dueInsnCount := 0;
      programResult := Returned(Data(seq(11, _ => 0), mem));
    }

    /** The loop of the interpreter */
    method Interpret(ghost o: Outcome<Data<M>>)
      requires Loadable(exe) && WellFormed(MachineOf(exe)) && Leads(o, true)
      modifies this, registers, reg, callFrames
      ensures Leads(o, false) && start == old(start)
    {
      hide Loadable, WellFormed, Leads;
      var ok := true;
      while ok
        invariant Leads(o, ok) && start == old(start)
        decreases if ok then 1 + previousInstructionMeter - dueInsnCount else 0
      {
        ok := StepTowards(o);
      }
    }

    lemma StartLeads(s: State<Data<M>, CallerSaved>, o: Outcome<Data<M>>)
      requires Valid() && Own() && errorPc == None && callDepth < callFrames.Length && Abs() == s
      requires Loadable(exe) && WellFormed(MachineOf(exe)) && MeterOk(MachineOf(exe), s) && s.pc < Slots(exe.prog)
      requires Run(MachineOf(exe), s) == o
      ensures Leads(o, true)
    {
      hide Loadable, WellFormed, Run, Follows;
    }

    lemma OwnAtEnd(o: Outcome<Data<M>>)
      requires Loadable(exe) && WellFormed(MachineOf(exe)) && Leads(o, false)
      ensures Valid() && o.kind == programResult && o.due == dueInsnCount && o.previous == previousInstructionMeter
      ensures o.remaining == remaining && o.syscalls == syscalls && Follows(registers[..], start, o.syscalls, o.pc)
    {
      hide Loadable, WellFormed, Run, Abs, Follows;
    }

    method RestoreRegisters(saved: CallerSaved)
      requires Valid()
      modifies reg
      ensures reg[..11] == old(reg[..6]) + saved.scratch + [saved.framePointer] && reg[11] == old(reg[11])
    {
      reg[FRAME_PTR_REG] := saved.framePointer;
      reg[6] := saved.scratch[0];
      reg[7] := saved.scratch[1];
      reg[8] := saved.scratch[2];
      reg[9] := saved.scratch[3];
    }
  }

  /** A step at a jump, in terms of its offset */
  lemma JumpStep<M(!new)>(exe: Executable<M>, s: State<Data<M>, CallerSaved>)
    requires WellFormed(MachineOf(exe)) && MeterOk(MachineOf(exe), s)
    requires s.due < s.previous && s.pc < Slots(exe.prog) < TWO63
    requires var op := Decode(exe.version, GetInsn(exe.prog, s.pc).opc); op == JumpAlways || op.JumpIf?
    requires 0 <= JumpTarget(GetInsn(exe.prog, s.pc), s.pc) < TWO64
    ensures var insn := GetInsn(exe.prog, s.pc);
      var taken := Decode(exe.version, insn.opc) == JumpAlways || Taken(exe, s.pc, s.data);
      Metering.Step(MachineOf(exe), s)
      == Continue(s.(due := s.due + 1, pc := if taken then JumpTarget(insn, s.pc) else s.pc + 1))
  {
    hide GetInsn, Decode, WellFormed, Taken, Exec;
  }

  /** What the step machine of an executable does at a syscall */
  lemma SyscallMeaning<M>(exe: Executable<M>, s: State<Data<M>, CallerSaved>, key: u32)
    requires s.due <= s.previous && s.pc < Slots(exe.prog) && key == Wrap32(GetInsn(exe.prog, s.pc).imm)
    ensures var charged := if s.remaining < s.due then 0 else s.remaining - s.due;
      var e := exe.env.syscall(key, s.data.reg[1..6], s.data.mem, charged);
      var reg := if e.result.Some? then s.data.reg[0 := e.result.value] else s.data.reg;
      Metering.DispatchSyscall(MachineOf(exe), s) ==
      (s.(due := 0, previous := e.remaining, remaining := e.remaining, data := Data(reg, e.mem),
          syscalls := s.syscalls + [SyscallEntry(s.pc, s.data, charged)]), e.result.Some?)
  {
    hide SlotsOf, GetInsn, Exec, LoadImmediate, Taken, Callee, Save, Enter, Restore;
  }

  /** What it does to enter a call */
  lemma PushMeaning<M>(exe: Executable<M>, s: State<Data<M>, CallerSaved>)
    ensures Metering.PushFrame(MachineOf(exe), s) ==
      if |s.frames| + 1 == exe.config.maxCallDepth then None
      else Some(s.(frames := s.frames + [Frame(Save(s.data), s.pc + 1)], data := Enter(exe, s.data)))
  {
    hide SlotsOf, Exec, LoadImmediate, Taken, Callee, Save, Enter, Restore;
  }

  lemma CallxInRange<M(!new)>(exe: Executable<M>, pc: nat)
    requires Loadable(exe) && pc < Slots(exe.prog) && SlotAt(exe, pc) == CallReg
    ensures 0 <= CallxRegister(exe.version, GetInsn(exe.prog, pc)) < 10
  {
    hide Verified, Decode, GetInsn;
    CheckedAt(exe, pc);
  }

  lemma SyscallSpends<D(!new), F>(m: Machine<D, F>, s: State<D, F>)
    requires WellFormed(m) && MeterOk(m, s)
    ensures var s' := Metering.DispatchSyscall(m, s).0; s'.due == 0 && s'.previous == s'.remaining <= s.previous
  {
    assert m.syscall(s.pc, s.data, s.remaining - s.due).remaining <= s.remaining - s.due;
  }

  lemma SmallProgram<M(!new)>(exe: Executable<M>)
    requires Loadable(exe)
    ensures |exe.prog| < TWO63
  {
  }
}
