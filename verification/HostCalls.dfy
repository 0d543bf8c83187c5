/** Internal calls on the host stack: the prologue subroutine turns its own return address and five
    registers into a frame in place, and the code behind the call takes the frame down again. */
module HostCalls {
  import opened Words
  import opened Bits
  import opened Interpreter
  import opened PqrTheorem
  import Metering
  import JitCode
  import X86
  import Blinding

  const RSP: X86.Reg := X86.RSP
  const SCRATCH: X86.Reg := X86.REGISTER_SCRATCH
  const METER: X86.Reg := X86.REGISTER_INSTRUCTION_METER
  const VM: X86.Reg := X86.REGISTER_PTR_TO_VM

  /** Guest registers 6 to 9 and the frame pointer */
  const R6: X86.Reg := X86.RBX
  const R7: X86.Reg := X86.R12
  const R8: X86.Reg := X86.R13
  const R9: X86.Reg := X86.R14
  const FP: X86.Reg := X86.R15

  /** The stack part of the prologue subroutine. On entry the return address is on top; on exit it is on
      top again, with the five saved registers where it was and below. */
  function SaveRegisters(): seq<X86.Instruction> {
    [X86.AluImm(X86.Sub, X86.S64, RSP, 40), X86.Store(SCRATCH, 0), X86.Load(40, SCRATCH),
     X86.Store(R6, 40), X86.Store(R7, 32), X86.Store(R8, 24), X86.Store(R9, 16), X86.Store(FP, 8),
     X86.Exchange(SCRATCH, 0)]
  }

  function BumpFrame(manual: bool, stride: i64): seq<X86.Instruction> {
    if manual then [] else [X86.AluImm(X86.Add, X86.S64, FP, Wrap32(stride))]
  }

  /** The meter is validated against the pc in scratch. */
  function ValidateMeter(): X86.Instruction { X86.LeaveNotAbove(SCRATCH, METER, X86.ExceededMaxInstructions) }

  /** The depth counter of the machine, at `slot` from its pointer, is raised and compared with its limit. */
  function CountCall(slot: int, limit: u32): seq<X86.Instruction> {
    [X86.AddAt(VM, slot, 1), X86.LeaveNotBelow(VM, slot, limit, X86.CallDepthExceeded)]
  }

  function Prologue(manual: bool, stride: i64, slot: int, limit: u32): seq<X86.Instruction> {
    [ValidateMeter()] + (SaveRegisters() + (CountCall(slot, limit) + (BumpFrame(manual, stride) + [X86.Ret])))
  }

  /** Behind the call of the target */
  function RestoreRegisters(): seq<X86.Instruction> {
    [X86.Pop(FP), X86.Pop(R9), X86.Pop(R8), X86.Pop(R7), X86.Pop(R6)]
  }

  /** Five slots below `sp` hold the caller's registers. */
  ghost predicate FrameAt(mem: map<int, u64>, sp: int, reg: X86.Registers) {
    && X86.At(mem, sp - 8) == reg[R6] && X86.At(mem, sp - 16) == reg[R7] && X86.At(mem, sp - 24) == reg[R8]
    && X86.At(mem, sp - 32) == reg[R9] && X86.At(mem, sp - 40) == reg[FP]
  }

  lemma SaveRegistersRuns(sp: u64, back: u64, rest: seq<X86.Instruction>, cpu: X86.Cpu) returns (c: X86.Cpu)
    requires 48 <= sp && cpu.reg[RSP] == sp - 8 && X86.At(cpu.mem, sp - 8) == back
    ensures X86.Run(SaveRegisters() + rest, cpu) == X86.Run(rest, c)
    ensures c.reg == cpu.reg[RSP := sp - 48] && X86.At(c.mem, sp - 48) == back
    ensures FrameAt(c.mem, sp, cpu.reg) && Blinding.KeptAbove(cpu.mem, c.mem, sp)
    ensures Blinding.KeptBelow(cpu.mem, c.mem, sp - 48)
  {
    hide X86.Run, X86.Exec;
    var code := SaveRegisters();
    var tail := [code[3]] + ([code[4]] + ([code[5]] + ([code[6]] + ([code[7]] + ([code[8]] + rest)))));
    assert code + rest == [code[0]] + ([code[1]] + ([code[2]] + tail));
    var c1 := AllocaRuns([code[1]] + ([code[2]] + tail), cpu);
    var c2 := StoreRuns(SCRATCH, 0, [code[2]] + tail, c1);
    var c3 := LoadRuns(40, tail, c2);
    c := StoresRun(sp, back, cpu.reg[SCRATCH], rest, c3);
  }

  lemma AllocaRuns(rest: seq<X86.Instruction>, cpu: X86.Cpu) returns (c: X86.Cpu)
    requires 40 <= cpu.reg[RSP]
    ensures X86.Run([X86.AluImm(X86.Sub, X86.S64, RSP, 40)] + rest, cpu) == X86.Run(rest, c)
    ensures c.mem == cpu.mem && c.reg == cpu.reg[RSP := cpu.reg[RSP] - 40]
  {
    hide X86.Run;
    X86.RunCons(X86.AluImm(X86.Sub, X86.S64, RSP, 40), rest, cpu);
    c := X86.Exec(cpu, X86.AluImm(X86.Sub, X86.S64, RSP, 40)).cpu;
  }

  lemma LoadRuns(offset: int, rest: seq<X86.Instruction>, cpu: X86.Cpu) returns (c: X86.Cpu)
    ensures X86.Run([X86.Load(offset, SCRATCH)] + rest, cpu) == X86.Run(rest, c)
    ensures c.mem == cpu.mem && c.reg == cpu.reg[SCRATCH := X86.At(cpu.mem, cpu.reg[RSP] + offset)]
  {
    hide X86.Run;
    X86.RunCons(X86.Load(offset, SCRATCH), rest, cpu);
    c := X86.Exec(cpu, X86.Load(offset, SCRATCH)).cpu;
  }

  /** The meter validation leaves with nothing changed, or goes on with nothing changed. */
  lemma ValidateRuns(rest: seq<X86.Instruction>, cpu: X86.Cpu) returns (c: X86.Cpu)
    ensures c.reg == cpu.reg && c.mem == cpu.mem
    ensures X86.Run([ValidateMeter()] + rest, cpu) ==
      if cpu.reg[METER] <= cpu.reg[SCRATCH] then X86.Left(X86.ExceededMaxInstructions, c) else X86.Run(rest, c)
  {
    hide X86.Run;
    X86.RunCons(ValidateMeter(), rest, cpu);
    var o := X86.Exec(cpu, ValidateMeter());
    c := if o.Left? then o.at else o.cpu;
  }

  /** Counting a call raises the counter, and leaves if its low half has reached the limit. */
  lemma CountRuns(slot: int, limit: u32, rest: seq<X86.Instruction>, cpu: X86.Cpu) returns (c: X86.Cpu)
    ensures var raised := Wrap(X86.At(cpu.mem, cpu.reg[VM] + slot) + 1);
      && c.reg == cpu.reg && c.mem == cpu.mem[cpu.reg[VM] + slot := raised]
      && X86.Run(CountCall(slot, limit) + rest, cpu) ==
         if Wrap32(raised) >= limit then X86.Left(X86.CallDepthExceeded, c) else X86.Run(rest, c)
  {
    hide X86.Run;
    var add, compare := X86.AddAt(VM, slot, 1), X86.LeaveNotBelow(VM, slot, limit, X86.CallDepthExceeded);
    assert CountCall(slot, limit) + rest == [add] + ([compare] + rest);
    X86.RunCons(add, [compare] + rest, cpu);
    var c1 := X86.Exec(cpu, add).cpu;
    X86.RunCons(compare, rest, c1);
    var o := X86.Exec(c1, compare);
    c := if o.Left? then o.at else o.cpu;
  }

  /** The stores behind the allocation, while scratch holds the return address */
  lemma StoresRun(sp: u64, back: u64, scratch: u64, rest: seq<X86.Instruction>, cpu: X86.Cpu) returns (c: X86.Cpu)
    requires 48 <= sp && cpu.reg[RSP] == sp - 48 && cpu.reg[SCRATCH] == back && X86.At(cpu.mem, sp - 48) == scratch
    ensures var code := SaveRegisters();
      X86.Run([code[3]] + ([code[4]] + ([code[5]] + ([code[6]] + ([code[7]] + ([code[8]] + rest))))), cpu)
        == X86.Run(rest, c)
    ensures c.reg == cpu.reg[SCRATCH := scratch] && X86.At(c.mem, sp - 48) == back
    ensures FrameAt(c.mem, sp, cpu.reg) && Blinding.KeptAbove(cpu.mem, c.mem, sp)
    ensures Blinding.KeptBelow(cpu.mem, c.mem, sp - 48)
  {
    hide X86.Run, X86.Exec;
    var code := SaveRegisters();
    var c3 := StoreRuns(R6, 40, [code[4]] + ([code[5]] + ([code[6]] + ([code[7]] + ([code[8]] + rest)))), cpu);
    var c4 := StoreRuns(R7, 32, [code[5]] + ([code[6]] + ([code[7]] + ([code[8]] + rest))), c3);
    var c5 := StoreRuns(R8, 24, [code[6]] + ([code[7]] + ([code[8]] + rest)), c4);
    var c6 := StoreRuns(R9, 16, [code[7]] + ([code[8]] + rest), c5);
    var c7 := StoreRuns(FP, 8, [code[8]] + rest, c6);
    c := ExchangeRuns(rest, c7);
  }

  lemma StoreRuns(reg: X86.Reg, offset: int, rest: seq<X86.Instruction>, cpu: X86.Cpu) returns (c: X86.Cpu)
    ensures X86.Run([X86.Store(reg, offset)] + rest, cpu) == X86.Run(rest, c)
    ensures c.reg == cpu.reg && c.mem == cpu.mem[cpu.reg[RSP] + offset := cpu.reg[reg]]
  {
    hide X86.Run;
    X86.RunCons(X86.Store(reg, offset), rest, cpu);
    c := X86.Exec(cpu, X86.Store(reg, offset)).cpu;
  }

  lemma ExchangeRuns(rest: seq<X86.Instruction>, cpu: X86.Cpu) returns (c: X86.Cpu)
    ensures X86.Run([X86.Exchange(SCRATCH, 0)] + rest, cpu) == X86.Run(rest, c)
    ensures c.reg == cpu.reg[SCRATCH := X86.At(cpu.mem, cpu.reg[RSP])]
    ensures c.mem == cpu.mem[cpu.reg[RSP] := cpu.reg[SCRATCH]]
  {
    hide X86.Run;
    X86.RunCons(X86.Exchange(SCRATCH, 0), rest, cpu);
    c := X86.Exec(cpu, X86.Exchange(SCRATCH, 0)).cpu;
  }

  lemma PopRuns(reg: X86.Reg, rest: seq<X86.Instruction>, cpu: X86.Cpu) returns (c: X86.Cpu)
    requires reg != RSP && cpu.reg[RSP] + 8 < TWO64
    ensures X86.Run([X86.Pop(reg)] + rest, cpu) == X86.Run(rest, c)
    ensures c.mem == cpu.mem && c.reg == cpu.reg[RSP := cpu.reg[RSP] + 8][reg := X86.At(cpu.mem, cpu.reg[RSP])]
  {
    hide X86.Run;
    X86.RunCons(X86.Pop(reg), rest, cpu);
    c := X86.Exec(cpu, X86.Pop(reg)).cpu;
  }

  lemma BumpRuns(manual: bool, stride: i64, cpu: X86.Cpu) returns (c: X86.Cpu)
    requires Blinding.FitsI32(stride)
    ensures X86.Run(BumpFrame(manual, stride) + [X86.Ret], cpu) == X86.Returned(X86.At(cpu.mem, cpu.reg[RSP]), c)
    ensures c.mem == cpu.mem
    ensures var r := cpu.reg[RSP := Wrap((cpu.reg[RSP] as int) + 8)];
      c.reg == if manual then r else r[FP := Wrap(cpu.reg[FP] + Wrap(stride))]
  {
    hide X86.Run;
    var c1 := cpu;
    if manual {
      assert BumpFrame(manual, stride) + [X86.Ret] == [X86.Ret];
    } else {
      X86.RunCons(BumpFrame(manual, stride)[0], [X86.Ret], cpu);
      assert BumpFrame(manual, stride) + [X86.Ret] == [BumpFrame(manual, stride)[0]] + [X86.Ret];
      Blinding.WideBack(stride);
      c1 := X86.Exec(cpu, BumpFrame(manual, stride)[0]).cpu;
    }
    X86.RunOne(X86.Ret, c1);
    c := X86.Exec(c1, X86.Ret).after;
  }

  /** The counter's place is not among the stack slots that the prologue writes. */
  ghost predicate SlotApart(cpu: X86.Cpu, slot: int) {
    var sp: int, counter: int := cpu.reg[RSP], cpu.reg[VM] + slot;
    counter >= sp || counter + 8 <= sp - 48
  }

  /** How the prologue ends: with the meter spent it leaves at once; at the depth limit it leaves with the
      call counted and the frame in place; otherwise it returns to its caller with the caller's frame on
      the stack, and with the registers as the interpreter has them in a new frame. In between, scratch,
      the stack above and all other memory are kept. */
  ghost predicate Enters<M>(exe: Executable<M>, d: Data<M>, back: u64, slot: int, cpu: X86.Cpu, o: X86.Outcome,
                            c: X86.Cpu)
    requires 48 <= cpu.reg[RSP]
  {
    var sp, counter := cpu.reg[RSP], cpu.reg[VM] + slot;
    var raised := Wrap(X86.At(cpu.mem, counter) + 1);
    if cpu.reg[METER] <= cpu.reg[SCRATCH] then
      && o == X86.Left(X86.ExceededMaxInstructions, c) && c.reg == cpu.reg[RSP := sp - 8]
      && X86.At(c.mem, sp - 8) == back && Blinding.KeptAbove(cpu.mem, c.mem, sp)
    else
      && FrameAt(c.mem, sp, cpu.reg) && Blinding.KeptAbove(cpu.mem[counter := raised], c.mem, sp)
      && X86.At(c.mem, counter) == raised
      && if Wrap32(raised) >= exe.config.maxCallDepth then
           o == X86.Left(X86.CallDepthExceeded, c) && c.reg == cpu.reg[RSP := sp - 48]
         else
           && o == X86.Returned(back, c) && Holds(c, Enter(exe, d).reg)
           && c.reg[SCRATCH] == cpu.reg[SCRATCH] && c.reg[RSP] == sp - 40
  }

  function PrologueOf<M>(exe: Executable<M>, slot: int): seq<X86.Instruction>
    requires FrameStride(exe) < TWO31 && exe.config.maxCallDepth < TWO31
  {
    Prologue(exe.version.ManualStackFrameBump(), FrameStride(exe), slot, exe.config.maxCallDepth)
  }

  /** A call of the prologue validates the meter, counts the call and enters the frame. */
  lemma PrologueEnters<M>(exe: Executable<M>, d: Data<M>, back: u64, slot: int, cpu: X86.Cpu) returns (c: X86.Cpu)
    requires Holds(cpu, d.reg) && 48 <= cpu.reg[RSP] && SlotApart(cpu, slot)
    requires FrameStride(exe) < TWO31 && exe.config.maxCallDepth < TWO31
    ensures Enters(exe, d, back, slot, cpu, X86.Run([X86.Call(back)] + PrologueOf(exe, slot), cpu), c)
  {
    hide X86.Run, X86.Exec, SaveRegisters, BumpFrame, FrameStride;
    hide CountCall, ValidateMeter, Blinding.KeptAbove, FrameAt;
    hide Holds, Enter, Blinding.KeptBelow;
    var sp, manual, stride, limit := cpu.reg[RSP], exe.version.ManualStackFrameBump(), FrameStride(exe),
      exe.config.maxCallDepth;
    var bump := BumpFrame(manual, stride) + [X86.Ret];
    var count := CountCall(slot, limit) + bump;
    var c1 := PushRuns(back, [ValidateMeter()] + (SaveRegisters() + count), cpu);
    var c2 := ValidateRuns(SaveRegisters() + count, c1);
    if cpu.reg[METER] <= cpu.reg[SCRATCH] {
      c := c2;
    } else {
      var c3 := SaveRegistersRuns(sp, back, count, c2);
      var c4 := CountRuns(slot, limit, bump, c3);
      Counted(sp, cpu.reg[VM] + slot, cpu, c1, c3, c4);
      if Wrap32(Wrap(X86.At(cpu.mem, cpu.reg[VM] + slot) + 1)) >= limit {
        c := c4;
      } else {
        c := BumpRuns(manual, stride, c4);
        BumpEnters(exe, d, cpu, c4, c);
      }
    }
  }

  lemma PushRuns(back: u64, rest: seq<X86.Instruction>, cpu: X86.Cpu) returns (c: X86.Cpu)
    requires 48 <= cpu.reg[RSP]
    ensures X86.Run([X86.Call(back)] + rest, cpu) == X86.Run(rest, c)
    ensures c.reg == cpu.reg[RSP := cpu.reg[RSP] - 8] && c.mem == cpu.mem[cpu.reg[RSP] - 8 := back]
    ensures Blinding.KeptAbove(cpu.mem, c.mem, cpu.reg[RSP]) && X86.At(c.mem, cpu.reg[RSP] - 8) == back
    ensures Blinding.KeptBelow(cpu.mem, c.mem, cpu.reg[RSP] - 48)
  {
    hide X86.Run;
    X86.RunCons(X86.Call(back), rest, cpu);
    c := X86.Exec(cpu, X86.Call(back)).cpu;
  }

  /** Raising the counter disturbs neither the frame nor the return address, and saving the registers had
      not disturbed the counter. */
  lemma Counted(sp: u64, counter: int, cpu: X86.Cpu, c1: X86.Cpu, c3: X86.Cpu, c4: X86.Cpu)
    requires 48 <= sp && (counter >= sp || counter + 8 <= sp - 48)
    requires Blinding.KeptAbove(cpu.mem, c1.mem, sp) && Blinding.KeptAbove(c1.mem, c3.mem, sp)
    requires c1.reg == cpu.reg[RSP := sp - 8] && FrameAt(c3.mem, sp, c1.reg)
    requires c4.mem == c3.mem[counter := Wrap(X86.At(c3.mem, counter) + 1)]
    requires Blinding.KeptBelow(cpu.mem, c1.mem, sp - 48) && Blinding.KeptBelow(c1.mem, c3.mem, sp - 48)
    ensures X86.At(c3.mem, counter) == X86.At(cpu.mem, counter)
    ensures var raised := Wrap(X86.At(cpu.mem, counter) + 1);
      && FrameAt(c4.mem, sp, cpu.reg) && Blinding.KeptAbove(cpu.mem[counter := raised], c4.mem, sp)
      && X86.At(c4.mem, counter) == raised && X86.At(c4.mem, sp - 48) == X86.At(c3.mem, sp - 48)
  {
    var raised := Wrap(X86.At(cpu.mem, counter) + 1);
    assert X86.At(c3.mem, counter) == X86.At(c1.mem, counter) == X86.At(cpu.mem, counter);
    forall a | a >= sp ensures X86.At(c4.mem, a) == X86.At(cpu.mem[counter := raised], a) {
      assert X86.At(c3.mem, a) == X86.At(c1.mem, a) == X86.At(cpu.mem, a);
      Updated(c3.mem, counter, raised, a);
      Updated(cpu.mem, counter, raised, a);
    }
  }

  lemma Updated(mem: map<int, u64>, address: int, value: u64, a: int)
    ensures X86.At(mem[address := value], a) == if a == address then value else X86.At(mem, a)
  {
  }

  /** The last part of the prologue sets up the frame pointer. */
  lemma BumpEnters<M>(exe: Executable<M>, d: Data<M>, cpu: X86.Cpu, c4: X86.Cpu, c: X86.Cpu)
    requires Holds(cpu, d.reg) && 48 <= cpu.reg[RSP] && c4.reg == cpu.reg[RSP := cpu.reg[RSP] - 48]
    requires var r := c4.reg[RSP := Wrap((c4.reg[RSP] as int) + 8)];
      c.reg == if exe.version.ManualStackFrameBump() then r else r[FP := Wrap(c4.reg[FP] + Wrap(FrameStride(exe)))]
    requires FrameStride(exe) < TWO31
    ensures Holds(c, Enter(exe, d).reg) && c.reg[SCRATCH] == cpu.reg[SCRATCH] && c.reg[RSP] == cpu.reg[RSP] - 40
  {
    hide FrameStride;
    Distinct();
    assert cpu.reg[X86.REGISTER_MAP[10]] == d.reg[10];
  }

  lemma Distinct()
    ensures forall i: nat :: i < 11 ==> X86.REGISTER_MAP[i] != RSP && X86.REGISTER_MAP[i] != SCRATCH
    ensures X86.REGISTER_MAP[6..11] == [R6, R7, R8, R9, FP]
    ensures forall i: nat :: i < 11 ==> (X86.REGISTER_MAP[i] in [R6, R7, R8, R9, FP] <==> i >= 6)
  {
  }

  /** Taking a frame down restores its registers and the stack pointer. */
  lemma RestoreRuns(sp: u64, reg: X86.Registers, cpu: X86.Cpu) returns (c: X86.Cpu)
    requires 40 <= sp && cpu.reg[RSP] == sp - 40 && FrameAt(cpu.mem, sp, reg)
    ensures X86.Run(RestoreRegisters(), cpu) == X86.Running(c) && c.mem == cpu.mem
    ensures c.reg == cpu.reg[RSP := sp][FP := reg[FP]][R9 := reg[R9]][R8 := reg[R8]][R7 := reg[R7]][R6 := reg[R6]]
  {
    hide X86.Run;
    var c1 := PopRuns(FP, [X86.Pop(R9)] + ([X86.Pop(R8)] + ([X86.Pop(R7)] + [X86.Pop(R6)])), cpu);
    var c2 := PopRuns(R9, [X86.Pop(R8)] + ([X86.Pop(R7)] + [X86.Pop(R6)]), c1);
    var c3 := PopRuns(R8, [X86.Pop(R7)] + [X86.Pop(R6)], c2);
    var c4 := PopRuns(R7, [X86.Pop(R6)], c3);
    c := PopRuns(R6, [], c4);
    assert [X86.Pop(R6)] + [] == [X86.Pop(R6)];
    assert RestoreRegisters() == [X86.Pop(FP)] + ([X86.Pop(R9)] + ([X86.Pop(R8)] + ([X86.Pop(R7)] + [X86.Pop(R6)])));
    RunNothing(c);
  }

  lemma RunNothing(cpu: X86.Cpu)
    ensures X86.Run([], cpu) == X86.Running(cpu)
  {
  }

  /** A whole call that is entered: whatever the callee does, if it returns with the stack pointer it was
      given, the stack above intact and the call counted back, the registers are those the interpreter
      restores, and the stack is as before. */
  lemma CallRestores<M>(exe: Executable<M>, d: Data<M>, d': Data<M>, back: u64, slot: int, cpu: X86.Cpu,
                        entered: X86.Cpu, left: X86.Cpu)
    returns (c: X86.Cpu)
    requires Holds(cpu, d.reg) && 48 <= cpu.reg[RSP] && SlotApart(cpu, slot)
    requires FrameStride(exe) < TWO31 && exe.config.maxCallDepth < TWO31
    requires X86.Run([X86.Call(back)] + PrologueOf(exe, slot), cpu) == X86.Returned(back, entered)
    requires var counter := cpu.reg[VM] + slot;
      && left.reg[RSP] == entered.reg[RSP] && Holds(left, d'.reg)
      && Blinding.KeptAbove(entered.mem[counter := X86.At(cpu.mem, counter)], left.mem, entered.reg[RSP])
    ensures X86.Run(RestoreRegisters(), left) == X86.Running(c)
    ensures Holds(c, Restore(d', Save(d)).reg) && c.reg[RSP] == cpu.reg[RSP]
    ensures Blinding.KeptAbove(cpu.mem, c.mem, cpu.reg[RSP])
  {
    hide X86.Run, PrologueOf, RestoreRegisters, FrameStride;
    var _ := PrologueEnters(exe, d, back, slot, cpu);
    FrameKept(cpu.reg[RSP], cpu.reg[VM] + slot, cpu, entered.mem, left.mem);
    c := RestoreRuns(cpu.reg[RSP], cpu.reg, left);
    RegistersRestored(d, d', cpu, left, c);
  }

  /** The callee leaves the frame and everything above it as they were before the call. */
  lemma FrameKept(sp: u64, counter: int, cpu: X86.Cpu, entered: map<int, u64>, left: map<int, u64>)
    requires counter >= sp || counter + 8 <= sp - 48
    requires FrameAt(entered, sp, cpu.reg)
    requires Blinding.KeptAbove(cpu.mem[counter := X86.At(entered, counter)], entered, sp)
    requires Blinding.KeptAbove(entered[counter := X86.At(cpu.mem, counter)], left, sp - 40)
    ensures FrameAt(left, sp, cpu.reg) && Blinding.KeptAbove(cpu.mem, left, sp)
  {
    forall a | a >= sp ensures X86.At(left, a) == X86.At(cpu.mem, a) {
      Updated(entered, counter, X86.At(cpu.mem, counter), a);
      Updated(cpu.mem, counter, X86.At(entered, counter), a);
    }
  }

  lemma RegistersRestored<M>(d: Data<M>, d': Data<M>, cpu: X86.Cpu, left: X86.Cpu, c: X86.Cpu)
    requires Holds(cpu, d.reg) && Holds(left, d'.reg)
    requires var r, sp := cpu.reg, cpu.reg[RSP];
      c.reg == left.reg[RSP := sp][FP := r[FP]][R9 := r[R9]][R8 := r[R8]][R7 := r[R7]][R6 := r[R6]]
    ensures Holds(c, Restore(d', Save(d)).reg) && c.reg[RSP] == cpu.reg[RSP]
  {
    Distinct();
    assert cpu.reg[R6] == d.reg[6] && cpu.reg[R7] == d.reg[7] && cpu.reg[R8] == d.reg[8] by {
      assert cpu.reg[X86.REGISTER_MAP[6]] == d.reg[6] && cpu.reg[X86.REGISTER_MAP[7]] == d.reg[7];
      assert cpu.reg[X86.REGISTER_MAP[8]] == d.reg[8];
    }
    assert cpu.reg[R9] == d.reg[9] && cpu.reg[FP] == d.reg[10] by {
      assert cpu.reg[X86.REGISTER_MAP[9]] == d.reg[9] && cpu.reg[X86.REGISTER_MAP[10]] == d.reg[10];
    }
  }

  // ----- the prologue as an operation of the metering model -----

  /** The registers of the metering model are in the host's. */
  ghost predicate Shows<M>(cpu: X86.Cpu, slot: int, h: JitCode.Host<Data<M>, CallerSaved>) {
    && Holds(cpu, h.data.reg) && cpu.reg[METER] == h.meter && cpu.reg[SCRATCH] == h.scratch
    && X86.At(cpu.mem, cpu.reg[VM] + slot) == h.depth < TWO32 - 1
  }

  /** The host code of the prologue does what the metering model's operation does: it throws the same error,
      or goes on with the same guest registers and depth. */
  lemma PrologueRefines<M>(exe: Executable<M>, h: JitCode.Host<Data<M>, CallerSaved>, back: u64, slot: int,
                           cpu: X86.Cpu)
    returns (c: X86.Cpu)
    requires Shows(cpu, slot, h) && 48 <= cpu.reg[RSP] && SlotApart(cpu, slot)
    requires FrameStride(exe) < TWO31 && exe.config.maxCallDepth < TWO31
    ensures var o := X86.Run([X86.Call(back)] + PrologueOf(exe, slot), cpu);
      match JitCode.ExecPrologue(MachineOf(exe), h)
      case Next(h') =>
        && o == X86.Returned(back, c) && Holds(c, h'.data.reg)
        && X86.At(c.mem, cpu.reg[VM] + slot) == h'.depth && c.reg[SCRATCH] == h'.scratch
      case Halt(end) =>
        o == X86.Left(if end.kind == Metering.Failure(Metering.CallDepthExceeded) then X86.CallDepthExceeded
                      else X86.ExceededMaxInstructions, c)
      case Transfer(_) => false
  {
    hide X86.Run, PrologueOf, FrameStride, Holds, FrameAt, Blinding.KeptAbove, JitCode.Epilogue;
    c := PrologueEnters(exe, h.data, back, slot, cpu);
    EpilogueKind(h);
  }

  lemma EpilogueKind<D, F>(h: JitCode.Host<D, F>)
    ensures JitCode.ThrowExceeded(h).kind == Metering.Failure(Metering.ExceededMaxInstructions)
    ensures forall h': JitCode.Host<D, F>, kind, pc ::
      JitCode.Epilogue(h', kind, pc).kind == kind
  {
  }
}
