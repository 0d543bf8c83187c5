/** Runs of verified programs: no step panics, calls and returns match, and the frame pointer is
    where the call depth says. */
module Safety {
  import opened Words
  import opened Bits
  import opened Ebpf
  import opened Alu
  import opened Faults
  import opened Metering
  import opened Verifier
  import opened Interpreter

  /** The state after `n` steps, if the run gets that far */
  ghost function After<D(!new), F>(m: Machine<D, F>, s: State<D, F>, n: nat): Option<State<D, F>>
    requires WellFormed(m) && MeterOk(m, s)
    decreases n
  {
    if n == 0 then Some(s)
    else
      match Step(m, s)
      case Stop(_) => None
      case Continue(s') =>
        StepSpends(m, s);
        After(m, s', n - 1)
  }

  // ----- no step panics -----

  /** Registers, program bytes and divisors the instruction needs are all right. */
  ghost predicate InsnSafe<M>(exe: Executable<M>, pc: nat, d: Data<M>)
    requires pc < Slots(exe.prog)
  {
    var insn := GetInsn(exe.prog, pc);
    var op := Decode(exe.version, insn.opc);
    op != Unknown ==>
      && NamesRegisters(insn)
      && (op == LoadWide ==> pc + 1 < Slots(exe.prog))
      && (op == CallRegister ==> 0 <= CallxRegister(exe.version, insn) <= 10)
      && (op == JumpAlways || op.JumpIf? ==> 0 <= JumpTarget(insn, pc) <= Slots(exe.prog))
      && (SlotAt(exe, pc) == Straight ==> Exec(exe, pc, d) != Failed(HostPanic))
  }

  /** Nothing the next step does can make the host panic. */
  ghost predicate NoPanic<M>(exe: Executable<M>, s: State<Data<M>, CallerSaved>) {
    && s.pc <= Slots(exe.prog)
    && |s.frames| < exe.config.maxCallDepth
    && s.due <= s.previous
    && (s.pc < Slots(exe.prog) ==> InsnSafe(exe, s.pc, s.data))
  }

  lemma AluPanics(v: Version, op: AluOp, reg: bool, a: u64, b: u64)
    requires (op == Div || op == Mod) && !reg ==> b != 0 && Low32(b) != 0
    ensures Alu64(v, op, reg, a, b) != Fault(HostPanic) && Alu32(v, op, reg, a, b) != Fault(HostPanic)
  {
    hide Or64, And64, Xor64, Shl64, Shr64, Shl32, Shr32, Sar32, Sar64, SignExtension, Wrap, Wrap32;
  }

  lemma PqrPanics(op: PqrOp, reg: bool, a: u64, b: u64)
    requires op != Lmul && op != Uhmul && op != Shmul && !reg ==> b != 0 && Low32(b) != 0
    ensures Pqr64(op, reg, a, b) != Fault(HostPanic) && Pqr32(op, reg, a, b) != Fault(HostPanic)
  {
    hide Wrap, Wrap32, TruncDiv, TruncRem;
  }

  /** The only unchecked divisions have immediate divisors. */
  lemma ComputePanics(v: Version, op: Operation, insn: Insn, d: Registers)
    requires NamesRegisters(insn) && -TWO31 <= insn.imm < TWO31 && (Divides(op) && !op.reg ==> insn.imm != 0)
    ensures Compute(v, op, insn, d) != Fault(HostPanic)
  {
    hide Alu64, Alu32, Pqr64, Pqr32, Or64, Shl64, Alu.Neg, SwapBytes, Truncated;
    EndianPanics(d[insn.dst], insn.imm);
    ImmediateNonzero(insn.imm);
    match op
    case Alu(o, _, reg) => AluPanics(v, o, reg, d[insn.dst], Operand(insn, reg, d));
    case Pqr(o, wide, reg) =>
      PqrPanics(o, reg, d[insn.dst], if reg then d[insn.src] else PqrImmediate(o, wide, insn.imm));
    case _ =>
  }

  lemma EndianPanics(a: u64, imm: i64)
    ensures Truncated(a, imm) != Fault(HostPanic) && SwapBytes(a, imm) != Fault(HostPanic)
  {
    hide Reversed;
  }

  lemma ImmediateNonzero(imm: int)
    requires -TWO31 <= imm < TWO31
    ensures imm != 0 ==> Wrap(imm) != 0 && Low32(Wrap(imm)) != 0 && Wrap32(imm) != 0 && Low32(Wrap32(imm)) != 0
  {
  }

  lemma VerifiedInsnSafe<M(!new)>(exe: Executable<M>, pc: nat, d: Data<M>)
    requires Loadable(exe) && pc < Slots(exe.prog)
    ensures InsnSafe(exe, pc, d)
  {
    hide Verified, Decode, GetInsn, Compute;
    CheckedAt(exe, pc);
    var insn := GetInsn(exe.prog, pc);
    ImmediateFits(exe.prog, pc);
    if NamesRegisters(insn) && SlotAt(exe, pc) == Straight {
      ComputePanics(exe.version, Decode(exe.version, insn.opc), insn, d.reg);
    }
  }

  lemma ImmediateFits(prog: seq<u8>, pc: nat)
    requires pc < Slots(prog)
    ensures -TWO31 <= GetInsn(prog, pc).imm < TWO31
  {
  }

  ghost predicate Inside<D, F>(m: Machine<D, F>, s: State<D, F>) {
    s.pc <= |m.prog| && |s.frames| < m.maxCallDepth
  }

  lemma StepInside<D(!new), F>(m: Machine<D, F>, s: State<D, F>)
    requires WellFormed(m) && MeterOk(m, s) && Inside(m, s) && Step(m, s).Continue?
    ensures Inside(m, Step(m, s).state)
  {
    if s.pc < |m.prog| {
      assert SlotOk(m.prog, s.pc);
    }
  }

  lemma {:induction false} AfterInside<D(!new), F>(m: Machine<D, F>, s: State<D, F>, n: nat)
    requires WellFormed(m) && MeterOk(m, s) && Inside(m, s)
    ensures After(m, s, n).Some? ==> Inside(m, After(m, s, n).value) && MeterOk(m, After(m, s, n).value)
    decreases n
  {
    hide WellFormed, Step;
    if n > 0 && Step(m, s).Continue? {
      StepSpends(m, s);
      StepInside(m, s);
      AfterInside(m, Step(m, s).state, n - 1);
    }
  }

  /** No step of any run of a verified program, from any entry point inside it and with any
      registers, memory and environment, makes the host panic. */
  lemma NeverPanics<M(!new)>(exe: Executable<M>, entry: nat, budget: nat, data: Data<M>, n: nat)
    requires Loadable(exe) && entry < Slots(exe.prog) && budget + Slots(exe.prog) + 2 < TWO63
    ensures WellFormed(MachineOf(exe))
    ensures var s := After(MachineOf(exe), Initial<Data<M>, CallerSaved>(entry, budget, data), n);
      s.Some? ==> NoPanic(exe, s.value)
  {
    VerifiedWellFormed(exe);
    hide WellFormed, Loadable, After, InsnSafe;
    var m := MachineOf(exe);
    var s0 := Initial<Data<M>, CallerSaved>(entry, budget, data);
    AfterInside(m, s0, n);
    var s := After(m, s0, n);
    if s.Some? && s.value.pc < Slots(exe.prog) {
      VerifiedInsnSafe(exe, s.value.pc, s.value.data);
    }
  }
}
