/** The host instructions that the emitted sequences use, as the instruction set reference of Intel
    64 (volume 2) defines them: registers, the zero flag and the stack. */
module X86 {
  import opened Words
  import opened Bits
  import Alu

  /** Registers by their number in the instruction encoding */
  type Reg = r: nat | r < 16

  const RAX: Reg := 0
  const RCX: Reg := 1
  const RDX: Reg := 2
  const RBX: Reg := 3
  const RSP: Reg := 4
  const RSI: Reg := 6
  const RDI: Reg := 7
  const R8: Reg := 8
  const R9: Reg := 9
  const R10: Reg := 10
  const R11: Reg := 11
  const R12: Reg := 12
  const R13: Reg := 13
  const R14: Reg := 14
  const R15: Reg := 15

  /** Where the compiler keeps guest registers 0 to 10 */
  const REGISTER_MAP: seq<Reg> := [RAX, RSI, RDX, RCX, R8, R9, RBX, R12, R13, R14, R15]
  const REGISTER_PTR_TO_VM: Reg := RDI
  const REGISTER_INSTRUCTION_METER: Reg := R10
  const REGISTER_SCRATCH: Reg := R11

  predicate IsGuest(r: Reg) {
    r != RSP && r != 5 && r != RDI && r != R10 && r != R11
  }

  datatype Size = S32 | S64

  /** Labels outside the sequence that a conditional jump may leave for */
  datatype Anchor = DivByZero | DivOverflow | ExceededMaxInstructions | CallDepthExceeded

  datatype AluKind = Add | Sub | Or | And | Xor

  datatype Instruction =
    | MovZero32(dst: Reg, imm: u32)             // writes 32 bits, clearing the rest
    | MovSign32(dst: Reg, imm: u32)             // sign-extends 32 bits
    | Mov64(dst: Reg, word: u64)
    | AluImm(kind: AluKind, size: Size, dst: Reg, imm: u32)    // sign-extends its immediate
    | CmpImm(size: Size, dst: Reg, imm: u32)
    | AluReg(kind: AluKind, size: Size, src: Reg, dst: Reg)
    | Cmp(size: Size, src: Reg, dst: Reg)
    | Test(size: Size, src: Reg, dst: Reg)
    | ShlImm(dst: Reg, count: u8)
    | RorImm(dst: Reg, count: u8)
    | Mov(size: Size, src: Reg, dst: Reg)
    | CmovNotEqual(size: Size, src: Reg, dst: Reg)
    | SignExtend32(reg: Reg)
    | SignExtendRax(size: Size)                 // into rdx
    | MulDiv(size: Size, division: bool, signed: bool, src: Reg)
    | Push(reg: Reg)
    | Pop(reg: Reg)
    | Store(src: Reg, offset: int)              // to the stack, relative to rsp
    | StoreImm(offset: int, imm: u32)
    | Load(offset: int, dst: Reg)
    | Exchange(reg: Reg, offset: int)
    | AddMemImm(offset: int, imm: u32)
    | JumpIfZero(anchor: Anchor)
    | LeaveNotAbove(src: Reg, dst: Reg, anchor: Anchor)        // compares and leaves unless dst is above src
    | AddAt(base: Reg, offset: int, imm: u32)
    | LeaveNotBelow(base: Reg, offset: int, imm: u32, anchor: Anchor)    // compares 32 bits of memory
    | Call(back: u64)                           // pushes the address of the next instruction
    | Ret

  type Registers = r: seq<u64> | |r| == 16 witness seq(16, _ => 0)

  /** The zero flag is `None` where the reference leaves it undefined. */
  datatype Cpu = Cpu(reg: Registers, zero: Option<bool>, mem: map<int, u64>)

  datatype Outcome =
    | Running(cpu: Cpu)
    | Left(anchor: Anchor, at: Cpu)
    | Returned(address: u64, after: Cpu)
    | DivideError
    | Undefined

  function At(mem: map<int, u64>, address: int): u64 { if address in mem then mem[address] else 0 }

  function Range(size: Size): int { if size == S32 then TWO32 else TWO64 }

  function Cut(size: Size, x: u64): u64 { x % Range(size) }

  function Wide(imm: u32): u64 { Wrap(Signed32(imm)) }

  /** The signed reading of an operand */
  function Sign(size: Size, x: u64): int { if size == S32 then Signed32(x % TWO32) else Signed64(x) }

  /** A 32-bit result clears the upper half of its register. */
  function Write(cpu: Cpu, size: Size, dst: Reg, value: int): Cpu { cpu.(reg := cpu.reg[dst := value % Range(size)]) }

  function Flagged(cpu: Cpu, size: Size, value: int): Cpu { cpu.(zero := Some(value % Range(size) == 0)) }

  function Put(cpu: Cpu, address: int, value: u64): Cpu { cpu.(mem := cpu.mem[address := value]) }

  function MoveStack(cpu: Cpu, bytes: int): Cpu { cpu.(reg := cpu.reg[RSP := Wrap(cpu.reg[RSP] + bytes)]) }

  function Pushed(cpu: Cpu, value: u64): Cpu {
    var below := MoveStack(cpu, -8);
    Put(below, below.reg[RSP], value)
  }

  function Apply(kind: AluKind, a: u64, b: u64): int {
    match kind
    case Add => a + b
    case Sub => a - b
    case Or => Alu.Or64(a, b)
    case And => Alu.And64(a, b)
    case Xor => Alu.Xor64(a, b)
  }

  function Difference(a: int, b: int): int { a - b }

  function Product(size: Size, signed: bool, a: u64, b: u64): int {
    if signed then Sign(size, a) * Sign(size, b) else Cut(size, a) * Cut(size, b)
  }

  /** Multiplies rax into rdx:rax. */
  function Multiply(cpu: Cpu, size: Size, signed: bool, b: u64): Cpu {
    var p := Product(size, signed, cpu.reg[RAX], b);
    Write(Write(cpu, size, RAX, p), size, RDX, p / Range(size)).(zero := None)
  }

  /** Divides rdx:rax, with an error if the quotient does not fit. */
  function Divide(cpu: Cpu, size: Size, signed: bool, b: u64): Outcome {
    var n := Range(size);
    if Cut(size, b) == 0 then DivideError
    else if signed then
      var dividend := Sign(size, cpu.reg[RDX]) * n + Cut(size, cpu.reg[RAX]);
      assert Sign(size, b) != 0;
      var q := Alu.TruncDiv(dividend, Sign(size, b));
      if !(-n <= 2 * q < n) then DivideError
      else Running(Write(Write(cpu, size, RAX, q), size, RDX, Alu.TruncRem(dividend, Sign(size, b))).(zero := None))
    else
      var dividend := Cut(size, cpu.reg[RDX]) * n + Cut(size, cpu.reg[RAX]);
      var q := dividend / Cut(size, b);
      if q >= n then DivideError
      else Running(Write(Write(cpu, size, RAX, q), size, RDX, dividend % Cut(size, b)).(zero := None))
  }

  function RotateRight(x: u64, count: nat): u64 {
    var k := count % 64;
    Wrap(x / Pow2(k) + x % Pow2(k) * Pow2(64 - k))
  }

  function Exec(cpu: Cpu, i: Instruction): Outcome {
    var r := cpu.reg;
    match i
    case MovZero32(dst, imm) => Running(Write(cpu, S64, dst, imm))
    case MovSign32(dst, imm) => Running(Write(cpu, S64, dst, Wide(imm)))
    case Mov64(dst, imm) => Running(Write(cpu, S64, dst, imm))
    case AluImm(kind, size, dst, imm) =>
      Running(Flagged(Write(cpu, size, dst, Apply(kind, r[dst], Wide(imm))), size, Apply(kind, r[dst], Wide(imm))))
    case CmpImm(size, dst, imm) => Running(Flagged(cpu, size, r[dst] - Wide(imm)))
    case AluReg(kind, size, src, dst) =>
      Running(Flagged(Write(cpu, size, dst, Apply(kind, r[dst], r[src])), size, Apply(kind, r[dst], r[src])))
    case Cmp(size, src, dst) => Running(Flagged(cpu, size, Difference(r[dst], r[src])))
    case Test(size, src, dst) => Running(Flagged(cpu, size, Alu.And64(r[dst], r[src])))
    case ShlImm(dst, count) =>
      Running(Flagged(Write(cpu, S64, dst, Alu.Shl64(r[dst], count)), S64, Alu.Shl64(r[dst], count)))
    case RorImm(dst, count) => Running(Write(cpu, S64, dst, RotateRight(r[dst], count)))
    case Mov(size, src, dst) => Running(Write(cpu, size, dst, r[src]))
    case CmovNotEqual(size, src, dst) =>
      if cpu.zero.None? then Undefined
      else Running(Write(cpu, size, dst, if cpu.zero.value then r[dst] else r[src]))
    case SignExtend32(reg) => Running(Write(cpu, S64, reg, Signed32(r[reg] % TWO32)))
    case SignExtendRax(size) => Running(Write(cpu, size, RDX, if Sign(size, r[RAX]) < 0 then -1 else 0))
    case MulDiv(size, division, signed, src) =>
      if division then Divide(cpu, size, signed, r[src]) else Running(Multiply(cpu, size, signed, r[src]))
    case Push(reg) => Running(Pushed(cpu, r[reg]))
    case Pop(reg) => Running(Write(MoveStack(cpu, 8), S64, reg, At(cpu.mem, r[RSP])))
    case Store(src, offset) => Running(Put(cpu, r[RSP] + offset, r[src]))
    case StoreImm(offset, imm) => Running(Put(cpu, r[RSP] + offset, Wide(imm)))
    case Load(offset, dst) => Running(Write(cpu, S64, dst, At(cpu.mem, r[RSP] + offset)))
    case Exchange(reg, offset) =>
      Running(Write(Put(cpu, r[RSP] + offset, r[reg]), S64, reg, At(cpu.mem, r[RSP] + offset)))
    case AddMemImm(offset, imm) =>
      Running(Flagged(Put(cpu, r[RSP] + offset, Wrap(At(cpu.mem, r[RSP] + offset) + Wide(imm))), S64,
                      At(cpu.mem, r[RSP] + offset) + Wide(imm)))
    case JumpIfZero(anchor) =>
      if cpu.zero.None? then Undefined else if cpu.zero.value then Left(anchor, cpu) else Running(cpu)
    case LeaveNotAbove(src, dst, anchor) =>
      var c := Flagged(cpu, S64, Difference(r[dst], r[src]));
      if r[dst] <= r[src] then Left(anchor, c) else Running(c)
    case AddAt(base, offset, imm) =>
      var sum := At(cpu.mem, r[base] + offset) + Wide(imm);
      Running(Flagged(Put(cpu, r[base] + offset, Wrap(sum)), S64, sum))
    case LeaveNotBelow(base, offset, imm, anchor) =>
      var x := Cut(S32, At(cpu.mem, r[base] + offset));
      var c := Flagged(cpu, S32, Difference(x, imm));
      if x >= imm then Left(anchor, c) else Running(c)
    case Call(back) => Running(Pushed(cpu, back))
    case Ret => Returned(At(cpu.mem, r[RSP]), MoveStack(cpu, 8))
  }

  function Run(code: seq<Instruction>, cpu: Cpu): Outcome {
    if code == [] then Running(cpu)
    else
      var first := Exec(cpu, code[0]);
      if first.Running? then Run(code[1..], first.cpu) else first
  }

  // ----- running sequences -----

  /** Goes on with `code` if nothing ended the run. */
  function Then(o: Outcome, code: seq<Instruction>): Outcome {
    if o.Running? then Run(code, o.cpu) else o
  }

  lemma RunOne(i: Instruction, cpu: Cpu)
    ensures Run([i], cpu) == Exec(cpu, i)
  {
    hide Exec;
  }

  lemma {:induction false} RunConcat(a: seq<Instruction>, b: seq<Instruction>, cpu: Cpu)
    ensures Run(a + b, cpu) == Then(Run(a, cpu), b)
  {
    hide Exec;
    if a == [] {
      assert a + b == b;
    } else {
      assert (a + b)[1..] == a[1..] + b;
      if Exec(cpu, a[0]).Running? {
        RunConcat(a[1..], b, Exec(cpu, a[0]).cpu);
      }
    }
  }

  /** One instruction in front of a sequence */
  lemma RunCons(i: Instruction, rest: seq<Instruction>, cpu: Cpu)
    ensures Run([i] + rest, cpu) == Then(Exec(cpu, i), rest)
  {
    hide Exec;
    assert ([i] + rest)[1..] == rest;
  }
}
