/** Products, quotients and remainders: the emitted sequence computes what the interpreter computes,
    for every choice of registers, and leaves everything else as it was. */
module Pqr {
  import opened Words
  import opened Bits
  import opened X86
  import opened Blinding
  import Alu
  import Faults

  /** `high` selects the upper half of a product or the remainder of a division. */
  datatype Shape = Shape(size: Size, high: bool, division: bool, signed: bool)

  // ----- what is emitted -----

  function Least(size: Size): i64 { if size == S64 then -TWO63 else -TWO31 }

  function ZeroCheck(size: Size, src: Reg, pc: i64): seq<Instruction> {
    [LoadImmediate(REGISTER_SCRATCH, pc), Test(size, src, src), JumpIfZero(DivByZero)]
  }

  /** Sets the zero flag if the divisor register is minus one and the flag was set before. */
  function MinusOneCheck(size: Size, src: Reg): seq<Instruction> {
    [LoadImmediate(REGISTER_SCRATCH, 0), CmovNotEqual(size, src, REGISTER_SCRATCH), CmpImm(size, src, U32_MAX),
     CmovNotEqual(size, src, REGISTER_SCRATCH), Test(size, REGISTER_SCRATCH, REGISTER_SCRATCH)]
  }

  const U32_MAX: u32 := 0xFFFF_FFFF

  function OverflowCheck(size: Size, src: Reg, dst: Reg, reg: bool, pc: i64): seq<Instruction> {
    [LoadImmediate(REGISTER_SCRATCH, Least(size)), Cmp(size, dst, REGISTER_SCRATCH)]
    + (if reg then MinusOneCheck(size, src) else [])
    + [LoadImmediate(REGISTER_SCRATCH, pc), JumpIfZero(DivOverflow)]
  }

  function Checks(s: Shape, src: Reg, dst: Reg, imm: Option<i64>, pc: i64): seq<Instruction> {
    (if s.division && imm.None? then ZeroCheck(s.size, src, pc) else [])
    + (if s.division && s.signed && (imm == None || imm == Some(-1))
       then OverflowCheck(s.size, src, dst, imm.None?, pc) else [])
  }

  function LoadOperand(enabled: bool, key: i64, src: Reg, imm: Option<i64>): seq<Instruction> {
    match imm
    case Some(value) => LoadConstant(enabled, key, REGISTER_SCRATCH, value)
    case None => [Mov(S64, src, REGISTER_SCRATCH)]
  }

  /** Saves rax and rdx, unless they are the destination, and moves the first operand to rax. */
  function Enter(dst: Reg): seq<Instruction> {
    (if dst != RAX then [Push(RAX), Mov(S64, dst, RAX)] else []) + (if dst != RDX then [Push(RDX)] else [])
  }

  function Extend(s: Shape): seq<Instruction> {
    if !s.division then [] else if s.signed then [SignExtendRax(s.size)] else [AluReg(Xor, s.size, RDX, RDX)]
  }

  function Leave(high: bool, dst: Reg): seq<Instruction> {
    (if dst != RDX then (if high then [Mov(S64, RDX, dst)] else []) + [Pop(RDX)] else [])
    + (if dst != RAX then (if !high then [Mov(S64, RAX, dst)] else []) + [Pop(RAX)] else [])
  }

  function Core(s: Shape, dst: Reg): seq<Instruction> {
    Enter(dst) + (Extend(s) + ([MulDiv(s.size, s.division, s.signed, REGISTER_SCRATCH)] + Leave(s.high, dst)))
  }

  /** Versions without explicit sign extension widen signed 32-bit results. */
  function Widen(s: Shape, explicit: bool, dst: Reg): seq<Instruction> {
    if s.size == S32 && s.signed && !explicit then [SignExtend32(dst)] else []
  }

  /** `emit_product_quotient_remainder` */
  function Emit(s: Shape, enabled: bool, key: i64, explicit: bool, pc: i64, src: Reg, dst: Reg, imm: Option<i64>)
    : seq<Instruction>
  {
    Checks(s, src, dst, imm, pc) + (LoadOperand(enabled, key, src, imm) + (Core(s, dst) + Widen(s, explicit, dst)))
  }

  // ----- the multiplication or division itself -----

  predicate Overflows(size: Size, a: u64, b: u64) { Sign(size, a) == Least(size) && Sign(size, b) == -1 }

  /** The instruction cannot fail on these operands. */
  predicate Divisible(s: Shape, a: u64, b: u64) {
    s.division ==> Cut(s.size, b) != 0 && !(s.signed && Overflows(s.size, a, b))
  }

  function Result(s: Shape, a: u64, b: u64): int
    requires Divisible(s, a, b)
  {
    if !s.division then
      if s.high then Product(s.size, s.signed, a, b) / Range(s.size) else Product(s.size, s.signed, a, b)
    else if s.signed then
      SignZero(s.size, b);
      if s.high then Alu.TruncRem(Sign(s.size, a), Sign(s.size, b)) else Alu.TruncDiv(Sign(s.size, a), Sign(s.size, b))
    else
      if s.high then Cut(s.size, a) % Cut(s.size, b) else Cut(s.size, a) / Cut(s.size, b)
  }

  lemma SignZero(size: Size, b: u64)
    ensures Sign(size, b) == 0 <==> Cut(size, b) == 0
    ensures -Range(size) <= 2 * Sign(size, b) < Range(size)
  {
  }

  lemma QuotientFits(n: int, a: int, b: int)
    requires n > 0 && -n <= 2 * a < n && b != 0 && !(2 * a == -n && b == -1)
    ensures -n <= 2 * Alu.TruncDiv(a, b) < n
  {
    SmallQuotient(Alu.Abs(a), Alu.Abs(b));
    if 2 * a == -n && Alu.Abs(b) >= 2 {
      Halves(Alu.Abs(a), Alu.Abs(b));
    }
  }

  lemma Halves(a: nat, b: nat)
    requires b >= 2
    ensures 2 * (a / b) <= a
  {
    Divided(a, b);
    AtLeastTwice(a / b, b);
  }

  lemma AtLeastTwice(q: nat, b: nat)
    requires b >= 2
    ensures 2 * q <= q * b
  {
    assert q * b == 2 * q + q * (b - 2);
    ProductOfNats(q, b - 2);
  }

  /** The dividend in rdx:rax after sign extension is the first operand. */
  lemma SignedDividend(size: Size, a: u64, rdx: u64)
    requires rdx == (if Sign(size, a) < 0 then -1 else 0) % Range(size)
    ensures Sign(size, rdx) * Range(size) + Cut(size, a) == Sign(size, a)
  {
  }

  lemma MulDivComputes(s: Shape, a: u64, b: u64, cpu: Cpu) returns (c: Cpu)
    requires cpu.reg[RAX] == a && cpu.reg[REGISTER_SCRATCH] == b && Divisible(s, a, b)
    requires s.division ==> cpu.reg[RDX] == (if s.signed && Sign(s.size, a) < 0 then -1 else 0) % Range(s.size)
    ensures Exec(cpu, MulDiv(s.size, s.division, s.signed, REGISTER_SCRATCH)) == Running(c) && c.mem == cpu.mem
    ensures c.reg == cpu.reg[RAX := c.reg[RAX]][RDX := c.reg[RDX]]
    ensures c.reg[if s.high then RDX else RAX] == Result(s, a, b) % Range(s.size)
  {
    hide Alu.TruncDiv, Alu.TruncRem;
    if s.division {
      if s.signed {
        SignedDividend(s.size, a, cpu.reg[RDX]);
        SignZero(s.size, a);
        SignZero(s.size, b);
        QuotientFits(Range(s.size), Sign(s.size, a), Sign(s.size, b));
      } else {
        SmallQuotient(Cut(s.size, a), Cut(s.size, b));
      }
    }
    c := Exec(cpu, MulDiv(s.size, s.division, s.signed, REGISTER_SCRATCH)).cpu;
  }

  // ----- around it -----

  /** The first operand arrives in rax and the dividend is extended into rdx. */
  lemma ExtendRuns(s: Shape, rest: seq<Instruction>, cpu: Cpu) returns (c: Cpu)
    ensures Run(Extend(s) + rest, cpu) == Run(rest, c) && c.mem == cpu.mem
    ensures c.reg == cpu.reg[RDX := c.reg[RDX]]
    ensures s.division ==> c.reg[RDX] == (if s.signed && Sign(s.size, cpu.reg[RAX]) < 0 then -1 else 0) % Range(s.size)
  {
    hide Run;
    if !s.division {
      assert Extend(s) + rest == rest;
      c := cpu;
    } else {
      XorSelf(cpu.reg[RDX]);
      RunCons(Extend(s)[0], rest, cpu);
      assert Extend(s) + rest == [Extend(s)[0]] + rest;
      c := Exec(cpu, Extend(s)[0]).cpu;
    }
  }

  /** Extension and division, from the operands to the result */
  lemma MiddleRuns(s: Shape, a: u64, b: u64, rest: seq<Instruction>, cpu: Cpu) returns (c: Cpu)
    requires cpu.reg[RAX] == a && cpu.reg[REGISTER_SCRATCH] == b && Divisible(s, a, b)
    ensures Run(Extend(s) + ([MulDiv(s.size, s.division, s.signed, REGISTER_SCRATCH)] + rest), cpu) == Run(rest, c)
    ensures c.mem == cpu.mem && c.reg == cpu.reg[RAX := c.reg[RAX]][RDX := c.reg[RDX]]
    ensures c.reg[if s.high then RDX else RAX] == Result(s, a, b) % Range(s.size)
  {
    hide Run, Extend, Exec, Result, Divisible, Sign;
    var i := MulDiv(s.size, s.division, s.signed, REGISTER_SCRATCH);
    var c1 := ExtendRuns(s, [i] + rest, cpu);
    c := MulDivComputes(s, a, b, c1);
    RunCons(i, rest, c1);
  }

  /** Entering with another destination than rax and rdx: both are saved. */
  lemma EnterSaves(dst: Reg, rest: seq<Instruction>, cpu: Cpu) returns (c: Cpu)
    requires IsGuest(dst) && cpu.reg[RSP] >= 16
    ensures Run(Enter(dst) + rest, cpu) == Run(rest, c)
    ensures c.reg == cpu.reg[RAX := cpu.reg[dst]][RSP := c.reg[RSP]]
    ensures c.reg[RSP] == cpu.reg[RSP] - if dst == RAX || dst == RDX then 8 else 16
    ensures dst != RAX ==> At(c.mem, cpu.reg[RSP] - 8) == cpu.reg[RAX]
    ensures dst != RDX ==> At(c.mem, c.reg[RSP]) == cpu.reg[RDX]
    ensures KeptAbove(cpu.mem, c.mem, cpu.reg[RSP])
  {
    hide Run;
    if dst == RAX {
      assert Enter(dst) + rest == [Push(RDX)] + rest;
      RunCons(Push(RDX), rest, cpu);
      c := Exec(cpu, Push(RDX)).cpu;
    } else {
      var c1 := Exec(cpu, Push(RAX)).cpu;
      var c2 := Exec(c1, Mov(S64, dst, RAX)).cpu;
      var tail := if dst == RDX then rest else [Push(RDX)] + rest;
      assert Enter(dst) + rest == [Push(RAX)] + ([Mov(S64, dst, RAX)] + tail);
      RunCons(Push(RAX), [Mov(S64, dst, RAX)] + tail, cpu);
      RunCons(Mov(S64, dst, RAX), tail, c1);
      if dst == RDX {
        c := c2;
      } else {
        RunCons(Push(RDX), rest, c2);
        c := Exec(c2, Push(RDX)).cpu;
      }
    }
  }

  /** Half of leaving: the result moves out of `reg` if it is there, then `reg` is restored. */
  function LeaveHalf(move: bool, reg: Reg, dst: Reg): seq<Instruction> {
    if dst == reg then [] else (if move then [Mov(S64, reg, dst)] else []) + [Pop(reg)]
  }

  lemma LeaveHalfRuns(move: bool, reg: Reg, dst: Reg, rest: seq<Instruction>, cpu: Cpu) returns (c: Cpu)
    requires IsGuest(dst) && IsGuest(reg) && (dst != reg ==> cpu.reg[RSP] + 8 < TWO64)
    ensures Run(LeaveHalf(move, reg, dst) + rest, cpu) == Run(rest, c) && c.mem == cpu.mem
    ensures dst == reg ==> c == cpu
    ensures dst != reg ==>
      c.reg == cpu.reg[dst := if move then cpu.reg[reg] else cpu.reg[dst]]
                      [RSP := cpu.reg[RSP] + 8][reg := At(cpu.mem, cpu.reg[RSP])]
  {
    hide Run;
    if dst == reg {
      assert LeaveHalf(move, reg, dst) + rest == rest;
      c := cpu;
    } else {
      var c1 := cpu;
      if move {
        assert LeaveHalf(move, reg, dst) + rest == [Mov(S64, reg, dst)] + ([Pop(reg)] + rest);
        RunCons(Mov(S64, reg, dst), [Pop(reg)] + rest, cpu);
        c1 := Exec(cpu, Mov(S64, reg, dst)).cpu;
      } else {
        assert LeaveHalf(move, reg, dst) + rest == [Pop(reg)] + rest;
      }
      RunCons(Pop(reg), rest, c1);
      c := Exec(c1, Pop(reg)).cpu;
    }
  }

  /** The net effect between the checks and the widening: the destination gets the result, every other
      register and everything on the stack is as before. */
  lemma CoreRuns(s: Shape, dst: Reg, rest: seq<Instruction>, cpu: Cpu) returns (c: Cpu)
    requires IsGuest(dst) && 16 <= cpu.reg[RSP] && Divisible(s, cpu.reg[dst], cpu.reg[REGISTER_SCRATCH])
    ensures Run(Core(s, dst) + rest, cpu) == Run(rest, c)
    ensures c.reg == cpu.reg[dst := Result(s, cpu.reg[dst], cpu.reg[REGISTER_SCRATCH]) % Range(s.size)]
    ensures KeptAbove(cpu.mem, c.mem, cpu.reg[RSP])
  {
    hide Run, Exec, Extend, Enter, Result, Divisible, Sign, LeaveHalf;
    var a, b := cpu.reg[dst], cpu.reg[REGISTER_SCRATCH];
    var out1, out2 := LeaveHalf(s.high, RDX, dst), LeaveHalf(!s.high, RAX, dst);
    var i := MulDiv(s.size, s.division, s.signed, REGISTER_SCRATCH);
    LeaveIsTwoHalves(s.high, dst);
    assert Core(s, dst) + rest == Enter(dst) + (Extend(s) + ([i] + (out1 + (out2 + rest))));
    var c1 := EnterSaves(dst, Extend(s) + ([i] + (out1 + (out2 + rest))), cpu);
    var c2 := MiddleRuns(s, a, b, out1 + (out2 + rest), c1);
    var c3 := LeaveHalfRuns(s.high, RDX, dst, out2 + rest, c2);
    c := LeaveHalfRuns(!s.high, RAX, dst, rest, c3);
  }

  lemma LeaveIsTwoHalves(high: bool, dst: Reg)
    ensures Leave(high, dst) == LeaveHalf(high, RDX, dst) + LeaveHalf(!high, RAX, dst)
  {
  }

  // ----- the checks -----

  /** Left for the handler with the pc in scratch and nothing else changed */
  ghost predicate Throws(o: Outcome, cpu: Cpu, anchor: Anchor, pc: i64) {
    o.Left? && o.anchor == anchor && o.at.mem == cpu.mem && o.at.reg == cpu.reg[REGISTER_SCRATCH := Wrap(pc)]
  }

  /** Only scratch and flags may differ. */
  ghost predicate SameButScratch(c: Cpu, cpu: Cpu) {
    c.mem == cpu.mem && c.reg == cpu.reg[REGISTER_SCRATCH := c.reg[REGISTER_SCRATCH]]
  }

  lemma TestSelf(size: Size, r: Reg, cpu: Cpu)
    ensures Exec(cpu, Test(size, r, r)) == Running(cpu.(zero := Some(Cut(size, cpu.reg[r]) == 0)))
  {
    AndSelf(cpu.reg[r]);
  }

  /** The pc goes to scratch without touching the flag that decides the jump behind it. */
  lemma JumpWithPc(anchor: Anchor, pc: i64, rest: seq<Instruction>, cpu: Cpu) returns (c: Cpu)
    requires cpu.zero.Some?
    ensures SameButScratch(c, cpu)
    ensures var o := Run([LoadImmediate(REGISTER_SCRATCH, pc), JumpIfZero(anchor)] + rest, cpu);
      if cpu.zero.value then Throws(o, cpu, anchor, pc) else o == Run(rest, c)
  {
    hide Run, LoadImmediate;
    LoadImmediateLoads(REGISTER_SCRATCH, pc, cpu);
    c := cpu.(reg := cpu.reg[REGISTER_SCRATCH := Wrap(pc)]);
    var i1, i2 := LoadImmediate(REGISTER_SCRATCH, pc), JumpIfZero(anchor);
    assert [i1, i2] + rest == [i1] + ([i2] + rest);
    RunCons(i1, [i2] + rest, cpu);
    RunCons(i2, rest, c);
  }

  lemma ZeroCheckRuns(size: Size, src: Reg, pc: i64, rest: seq<Instruction>, cpu: Cpu) returns (c: Cpu)
    requires IsGuest(src)
    ensures SameButScratch(c, cpu)
    ensures var o := Run(ZeroCheck(size, src, pc) + rest, cpu);
      if Cut(size, cpu.reg[src]) == 0 then Throws(o, cpu, DivByZero, pc) else o == Run(rest, c)
  {
    hide Run, LoadImmediate;
    var i1, i2, i3 := LoadImmediate(REGISTER_SCRATCH, pc), Test(size, src, src), JumpIfZero(DivByZero);
    LoadImmediateLoads(REGISTER_SCRATCH, pc, cpu);
    var c1 := cpu.(reg := cpu.reg[REGISTER_SCRATCH := Wrap(pc)]);
    TestSelf(size, src, c1);
    var c2 := c1.(zero := Some(Cut(size, c1.reg[src]) == 0));
    assert ZeroCheck(size, src, pc) + rest == [i1] + ([i2] + ([i3] + rest));
    RunCons(i1, [i2] + ([i3] + rest), cpu);
    RunCons(i2, [i3] + rest, c1);
    RunCons(i3, rest, c2);
    c := c2;
  }

  /** Comparing a register with minus one */
  lemma CmpMinusOne(size: Size, r: Reg, cpu: Cpu)
    ensures Exec(cpu, CmpImm(size, r, U32_MAX)) == Running(cpu.(zero := Some(Sign(size, cpu.reg[r]) == -1)))
  {
  }

  lemma CmpLeast(size: Size, dst: Reg, cpu: Cpu)
    requires cpu.reg[REGISTER_SCRATCH] == Wrap(Least(size))
    ensures Exec(cpu, Cmp(size, dst, REGISTER_SCRATCH))
         == Running(cpu.(zero := Some(Sign(size, cpu.reg[dst]) == Least(size))))
  {
    LeastMeaning(size, cpu.reg[dst]);
    hide Sign;
  }

  lemma LeastMeaning(size: Size, x: u64)
    ensures (Wrap(Least(size)) - x) % Range(size) == 0 <==> Sign(size, x) == Least(size)
  {
    if size == S32 {
      assert Wrap(Least(size)) % TWO32 == TWO31;
      assert (Wrap(Least(size)) - x) % TWO32 == (TWO31 - x % TWO32) % TWO32;
    } else {
      assert Wrap(Least(size)) == TWO63;
    }
  }

  lemma CutCut(size: Size, x: u64)
    ensures Cut(size, 0) == 0 && Cut(size, Cut(size, x)) == Cut(size, x)
  {
  }

  lemma CmovScratch(size: Size, src: Reg, cpu: Cpu)
    requires cpu.zero.Some?
    ensures Exec(cpu, CmovNotEqual(size, src, REGISTER_SCRATCH)) == Running(cpu.(reg := cpu.reg[REGISTER_SCRATCH :=
      Cut(size, if cpu.zero.value then cpu.reg[REGISTER_SCRATCH] else cpu.reg[src])]))
  {
  }

  /** Two conditional moves and a test turn "was the flag set" and "is the divisor minus one" into one
      flag, because the divisor is not zero. */
  lemma MinusOneCheckRuns(size: Size, src: Reg, rest: seq<Instruction>, cpu: Cpu) returns (c: Cpu)
    requires IsGuest(src) && cpu.zero.Some? && Cut(size, cpu.reg[src]) != 0
    ensures Run(MinusOneCheck(size, src) + rest, cpu) == Run(rest, c) && SameButScratch(c, cpu)
    ensures c.zero == Some(cpu.zero.value && Sign(size, cpu.reg[src]) == -1)
  {
    hide Run, LoadImmediate, Sign, Exec, Cut;
    CutCut(size, cpu.reg[src]);
    var scratch := REGISTER_SCRATCH;
    var i1, i2, i3 := LoadImmediate(scratch, 0), CmovNotEqual(size, src, scratch), CmpImm(size, src, U32_MAX);
    var i5 := Test(size, scratch, scratch);
    LoadImmediateLoads(scratch, 0, cpu);
    var c1 := cpu.(reg := cpu.reg[scratch := 0]);
    CmovScratch(size, src, c1);
    var c2 := Exec(c1, i2).cpu;
    CmpMinusOne(size, src, c2);
    var c3 := Exec(c2, i3).cpu;
    CmovScratch(size, src, c3);
    var c4 := Exec(c3, i2).cpu;
    TestSelf(size, scratch, c4);
    c := Exec(c4, i5).cpu;
    assert MinusOneCheck(size, src) + rest == [i1] + ([i2] + ([i3] + ([i2] + ([i5] + rest))));
    RunCons(i1, [i2] + ([i3] + ([i2] + ([i5] + rest))), cpu);
    RunCons(i2, [i3] + ([i2] + ([i5] + rest)), c1);
    RunCons(i3, [i2] + ([i5] + rest), c2);
    RunCons(i2, [i5] + rest, c3);
    RunCons(i5, rest, c4);
  }

  /** The check throws exactly on the one overflow; with an immediate divisor it is emitted only for
      minus one. */
  lemma OverflowCheckRuns(size: Size, src: Reg, dst: Reg, reg: bool, pc: i64, rest: seq<Instruction>, cpu: Cpu)
    returns (c: Cpu)
    requires IsGuest(src) && IsGuest(dst) && (reg ==> Cut(size, cpu.reg[src]) != 0)
    ensures SameButScratch(c, cpu)
    ensures var o := Run(OverflowCheck(size, src, dst, reg, pc) + rest, cpu);
      if Sign(size, cpu.reg[dst]) == Least(size) && (reg ==> Sign(size, cpu.reg[src]) == -1)
      then Throws(o, cpu, DivOverflow, pc) else o == Run(rest, c)
  {
    hide Run, LoadImmediate, Sign, MinusOneCheck;
    var scratch := REGISTER_SCRATCH;
    var i1, i2 := LoadImmediate(scratch, Least(size)), Cmp(size, dst, scratch);
    var last := [LoadImmediate(scratch, pc), JumpIfZero(DivOverflow)];
    LoadImmediateLoads(scratch, Least(size), cpu);
    var c1 := cpu.(reg := cpu.reg[scratch := Wrap(Least(size))]);
    CmpLeast(size, dst, c1);
    var c2 := Exec(c1, i2).cpu;
    var middle := if reg then MinusOneCheck(size, src) else [];
    assert OverflowCheck(size, src, dst, reg, pc) + rest == [i1] + ([i2] + (middle + (last + rest)));
    RunCons(i1, [i2] + (middle + (last + rest)), cpu);
    RunCons(i2, middle + (last + rest), c1);
    var c3 := c2;
    if reg {
      c3 := MinusOneCheckRuns(size, src, last + rest, c2);
    } else {
      assert middle + (last + rest) == last + rest;
    }
    c := JumpWithPc(DivOverflow, pc, rest, c3);
  }

  lemma ChecksRun(s: Shape, src: Reg, dst: Reg, imm: Option<i64>, pc: i64, rest: seq<Instruction>, cpu: Cpu)
    returns (c: Cpu)
    requires IsGuest(src) && IsGuest(dst) && OperandOk(s, imm)
    ensures SameButScratch(c, cpu)
    ensures var o := Run(Checks(s, src, dst, imm, pc) + rest, cpu); var b := Operand(cpu, src, imm);
      if s.division && Cut(s.size, b) == 0 then Throws(o, cpu, DivByZero, pc)
      else if s.division && s.signed && Overflows(s.size, cpu.reg[dst], b) then Throws(o, cpu, DivOverflow, pc)
      else o == Run(rest, c)
  {
    hide Run, ZeroCheck, OverflowCheck, Sign, Cut;
    var zero := if s.division && imm.None? then ZeroCheck(s.size, src, pc) else [];
    var over := if s.division && s.signed && (imm == None || imm == Some(-1))
      then OverflowCheck(s.size, src, dst, imm.None?, pc) else [];
    assert Checks(s, src, dst, imm, pc) + rest == zero + (over + rest);
    if imm.Some? {
      SignOfImmediate(s.size, imm.value);
    }
    c := cpu;
    if s.division && imm.None? {
      c := ZeroCheckRuns(s.size, src, pc, over + rest, cpu);
    } else {
      assert zero + (over + rest) == over + rest;
    }
    if !(s.division && s.signed && (imm == None || imm == Some(-1))) {
      assert over + rest == rest;
    } else if Cut(s.size, Operand(cpu, src, imm)) != 0 {
      ThrowsFrom(c, cpu);
      c := OverflowCheckRuns(s.size, src, dst, imm.None?, pc, rest, c);
    }
  }

  lemma ThrowsFrom(c: Cpu, cpu: Cpu)
    requires SameButScratch(c, cpu)
    ensures forall o, anchor, pc :: Throws(o, c, anchor, pc) ==> Throws(o, cpu, anchor, pc)
  {
  }

  /** The second operand: a register, or the immediate the compiler was given */
  function Operand(cpu: Cpu, src: Reg, imm: Option<i64>): u64 {
    match imm case Some(value) => Wrap(value) case None => cpu.reg[src]
  }

  /** Immediate divisors are not zero, and signed ones are sign-extended from 32 bits. */
  predicate OperandOk(s: Shape, imm: Option<i64>) {
    imm.Some? && s.division ==> Cut(s.size, Wrap(imm.value)) != 0 && (s.signed ==> FitsI32(imm.value))
  }

  lemma SignOfImmediate(size: Size, imm: i64)
    ensures FitsI32(imm) ==> Sign(size, Wrap(imm)) == imm
  {
  }

  // ----- the whole sequence -----

  function Widened(s: Shape, explicit: bool, x: u64): u64 {
    if s.size == S32 && s.signed && !explicit then Wrap(Signed32(x % TWO32)) else x
  }

  /** What the operation means: an error or a value */
  function Reference(s: Shape, explicit: bool, a: u64, b: u64): Alu.Computed {
    if s.division && Cut(s.size, b) == 0 then Alu.Fault(Faults.DivideByZero)
    else if s.division && s.signed && Overflows(s.size, a, b) then Alu.Fault(Faults.DivideOverflow)
    else Alu.Value(Widened(s, explicit, Result(s, a, b) % Range(s.size)))
  }

  /** The destination has the value, and all other registers but scratch and everything on the stack are
      kept; or the handler of the error is entered with the pc in scratch and nothing else changed. */
  ghost predicate Delivers(o: Outcome, cpu: Cpu, dst: Reg, result: Alu.Computed, pc: i64) {
    match result
    case Value(x) =>
      && o.Running? && KeptAbove(cpu.mem, o.cpu.mem, cpu.reg[RSP])
      && o.cpu.reg == cpu.reg[dst := x][REGISTER_SCRATCH := o.cpu.reg[REGISTER_SCRATCH]]
    case Fault(f) => Throws(o, cpu, if f == Faults.DivideByZero then DivByZero else DivOverflow, pc)
  }

  lemma LoadOperandRuns(enabled: bool, key: i64, src: Reg, imm: Option<i64>, rest: seq<Instruction>, cpu: Cpu)
    returns (c: Cpu)
    requires IsGuest(src)
    ensures Run(LoadOperand(enabled, key, src, imm) + rest, cpu) == Run(rest, c)
    ensures SameButScratch(c, cpu) && c.reg[REGISTER_SCRATCH] == Operand(cpu, src, imm)
  {
    hide Run, LoadConstant;
    match imm
    case Some(value) =>
      LoadConstantIsExact(enabled, key, REGISTER_SCRATCH, value, cpu);
      RunConcat(LoadConstant(enabled, key, REGISTER_SCRATCH, value), rest, cpu);
      c := Run(LoadConstant(enabled, key, REGISTER_SCRATCH, value), cpu).cpu;
    case None =>
      RunCons(Mov(S64, src, REGISTER_SCRATCH), rest, cpu);
      c := Exec(cpu, Mov(S64, src, REGISTER_SCRATCH)).cpu;
  }

  lemma WidenRuns(s: Shape, explicit: bool, dst: Reg, cpu: Cpu) returns (c: Cpu)
    ensures Run(Widen(s, explicit, dst), cpu) == Running(c) && c.mem == cpu.mem
    ensures c.reg == cpu.reg[dst := Widened(s, explicit, cpu.reg[dst])]
  {
    if Widen(s, explicit, dst) == [] {
      c := cpu;
    } else {
      RunOne(SignExtend32(dst), cpu);
      c := Exec(cpu, SignExtend32(dst)).cpu;
    }
  }

  /** Every emitted sequence delivers the result of its operation, for every choice of operands and of
      source and destination among the guest registers, rax and rdx included. */
  lemma EmitDelivers(s: Shape, enabled: bool, key: i64, explicit: bool, pc: i64, src: Reg, dst: Reg, imm: Option<i64>,
                     cpu: Cpu)
    requires IsGuest(src) && IsGuest(dst) && OperandOk(s, imm) && 16 <= cpu.reg[RSP]
    ensures Delivers(Run(Emit(s, enabled, key, explicit, pc, src, dst, imm), cpu), cpu, dst,
                     Reference(s, explicit, cpu.reg[dst], Operand(cpu, src, imm)), pc)
  {
    hide Run, Checks, LoadOperand, Core, Widen, Result, Widened, Sign, Cut;
    var a, b := cpu.reg[dst], Operand(cpu, src, imm);
    var load, core, widen := LoadOperand(enabled, key, src, imm), Core(s, dst), Widen(s, explicit, dst);
    var c1 := ChecksRun(s, src, dst, imm, pc, load + (core + widen), cpu);
    if Divisible(s, a, b) {
      var c2 := LoadOperandRuns(enabled, key, src, imm, core + widen, c1);
      var c3 := CoreRuns(s, dst, widen, c2);
      var _ := WidenRuns(s, explicit, dst, c3);
    }
  }
}
