/** The assembler: a first pass gives labels their addresses, a second one emits instructions. */
module Assembler {
  import opened Words
  import opened Ebpf

  datatype Operand = Register(n: i64) | Integer(n: i64) | Memory(base: i64, off: i64) | LabelOperand(name: string)

  datatype Statement =
    | Label(name: string)
    | Directive(name: string, operands: seq<Operand>)
    | Instruction(name: string, operands: seq<Operand>)

  datatype InstructionType = AluBinary | AluUnary | LoadDwImm | LoadReg | StoreImm | StoreReg | JumpUnconditional
                           | JumpConditional | Syscall | CallImm | CallReg | Endian(bits: i64) | NoOperand

  datatype AsmError = InvalidDestination | InvalidSource | InvalidOffset | InvalidImmediate | LabelNotFound
                    | InvalidDirective | UnexpectedOperands | InvalidInstruction | LabelHashCollision

  datatype Asm<T> = Ok(value: T) | Err(error: AsmError)

  type InstructionMap = map<string, (InstructionType, u8)>

  /** `lddw` is the one name of a wide load. */
  ghost predicate MapOk(names: InstructionMap) {
    forall name :: name in names ==> (names[name].0 == LoadDwImm <==> name == "lddw")
  }

  // ----- first pass -----

  predicate IsFill(s: Statement) {
    s.Directive? && s.name == "fill" && |s.operands| == 2 && s.operands[0].Integer? && s.operands[1].Integer?
  }

  /** How far a statement moves the instruction pointer in the first pass */
  function Advance(s: Statement): u64 {
    match s
    case Label(_) => 0
    case Directive(_, _) => if IsFill(s) then Wrap(s.operands[0].n) else 0
    case Instruction(name, _) => if name == "lddw" then 2 else 1
  }

  /** The slot number of the `k`th statement, as the first pass counts it in a 64-bit word that wraps */
  function Address(statements: seq<Statement>, k: nat): u64
    requires k <= |statements|
  {
    if k == 0 then 0 else Wrap(Address(statements, k - 1) + Advance(statements[k - 1]))
  }

  function Labels(statements: seq<Statement>, k: nat): map<string, u64>
    requires k <= |statements|
  {
    if k == 0 then map["entrypoint" := 0]
    else
      var before := Labels(statements, k - 1);
      if statements[k - 1].Label? then before[statements[k - 1].name := Address(statements, k - 1)] else before
  }

  // ----- second pass -----

  /** The fields fit their places in the encoding. */
  predicate Fits(insn: Insn) { insn.dst < 16 && insn.src < 16 && -TWO31 <= insn.imm < TWO31 }

  function MakeInsn(opc: u8, dst: int, src: int, off: int, imm: int): (r: Asm<Insn>)
    ensures r.Ok? ==> Fits(r.value) && r.value.opc == opc
    ensures r.Ok? ==> r.value.dst == dst && r.value.src == src && r.value.off == off && r.value.imm == imm
    ensures r.Ok? <==> 0 <= dst < 16 && 0 <= src < 16 && -0x8000 <= off < 0x8000 && -TWO31 <= imm < TWO31
  {
    if !(0 <= dst < 16) then Err(InvalidDestination)
    else if !(0 <= src < 16) then Err(InvalidSource)
    else if !(-0x8000 <= off < 0x8000) then Err(InvalidOffset)
    else if !(-TWO31 <= imm < TWO31) then Err(InvalidImmediate)
    else Ok(Insn(opc, dst, src, off, imm))
  }

  /** The distance from the slot behind `ptr` to the label */
  function ResolveLabel(ptr: nat, labels: map<string, u64>, name: string): Asm<int> {
    if name in labels then Ok(Signed64(labels[name]) - ptr - 1) else Err(LabelNotFound)
  }

  function WithRegister(opc: u8): u8 { if opc / 8 % 2 == 1 then opc else opc + 8 }

  function JumpTo(opc: u8, dst: int, src: int, imm: int, off: Asm<int>): Asm<Insn> {
    match off case Ok(o) => MakeInsn(opc, dst, src, o, imm) case Err(e) => Err(e)
  }

  function EncodeAlu(v: Version, opc: u8, ops: seq<Operand>): Asm<Insn> {
    if |ops| != 2 || !ops[0].Register? then Err(UnexpectedOperands)
    else if ops[1].Register? then MakeInsn(WithRegister(opc), ops[0].n, ops[1].n, 0, 0)
    else if !ops[1].Integer? then Err(UnexpectedOperands)
    else if ops[0].n == 10 && opc == 0x07 && !v.ManualStackFrameBump() then MakeInsn(0x47, 0, 0, 0, 0)
    else MakeInsn(opc, ops[0].n, 0, 0, ops[1].n)
  }

  function EncodeMemory(t: InstructionType, opc: u8, ops: seq<Operand>): Asm<Insn> {
    if |ops| != 2 then Err(UnexpectedOperands)
    else if t == LoadReg && ops[0].Register? && ops[1].Memory? then MakeInsn(opc, ops[0].n, ops[1].base, ops[1].off, 0)
    else if t == StoreReg && ops[0].Memory? && ops[1].Register? then MakeInsn(opc, ops[0].base, ops[1].n, ops[0].off, 0)
    else if t == StoreImm && ops[0].Memory? && ops[1].Integer? then MakeInsn(opc, ops[0].base, 0, ops[0].off, ops[1].n)
    else Err(UnexpectedOperands)
  }

  /** The offset a jump operand stands for */
  function JumpOffset(ptr: nat, labels: map<string, u64>, op: Operand): Asm<int> {
    match op
    case Integer(n) => Ok(n)
    case LabelOperand(name) => ResolveLabel(ptr, labels, name)
    case _ => Err(UnexpectedOperands)
  }

  function EncodeBranch(opc: u8, ops: seq<Operand>, ptr: nat, labels: map<string, u64>): Asm<Insn> {
    if |ops| != 3 || !ops[0].Register? then Err(UnexpectedOperands)
    else if ops[1].Register? then JumpTo(WithRegister(opc), ops[0].n, ops[1].n, 0, JumpOffset(ptr, labels, ops[2]))
    else if ops[1].Integer? then JumpTo(opc, ops[0].n, 0, ops[1].n, JumpOffset(ptr, labels, ops[2]))
    else Err(UnexpectedOperands)
  }

  /** Relative to the next slot where syscalls are static, absolute otherwise */
  function EncodeCall(v: Version, opc: u8, op: Operand, ptr: nat, labels: map<string, u64>): Asm<Insn> {
    var source := if v.StaticSyscalls() then 1 else 0;
    match op
    case Integer(n) => MakeInsn(opc, 0, source, 0, if v.StaticSyscalls() then n else n + ptr + 1)
    case LabelOperand(name) =>
      if name !in labels then Err(LabelNotFound)
      else MakeInsn(opc, 0, source, 0, Signed64(labels[name]) - if v.StaticSyscalls() then ptr + 1 else 0)
    case _ => Err(UnexpectedOperands)
  }

  function EncodeCallx(v: Version, opc: u8, n: i64): Asm<Insn> {
    if v.CallxUsesSrcReg() then MakeInsn(opc, 0, n, 0, 0)
    else if v.CallxUsesDstReg() then MakeInsn(opc, n, 0, 0, 0)
    else MakeInsn(opc, 0, 0, 0, n)
  }

  /** The (first) instruction of a statement at slot `ptr`; symbol names are hashed by `hash`. */
  function EncodeInsn(v: Version, hash: string -> i32, t: InstructionType, opc: u8, ops: seq<Operand>, ptr: nat,
                      labels: map<string, u64>): Asm<Insn>
  {
    match t
    case AluBinary => EncodeAlu(v, opc, ops)
    case AluUnary =>
      if |ops| == 1 && ops[0].Register? then MakeInsn(opc, ops[0].n, 0, 0, 0) else Err(UnexpectedOperands)
    case LoadReg => EncodeMemory(t, opc, ops)
    case StoreReg => EncodeMemory(t, opc, ops)
    case StoreImm => EncodeMemory(t, opc, ops)
    case NoOperand => if ops == [] then MakeInsn(opc, 0, 0, 0, 0) else Err(UnexpectedOperands)
    case JumpUnconditional =>
      if |ops| == 1 then JumpTo(opc, 0, 0, 0, JumpOffset(ptr, labels, ops[0])) else Err(UnexpectedOperands)
    case JumpConditional => EncodeBranch(opc, ops, ptr, labels)
    case CallImm => if |ops| == 1 then EncodeCall(v, opc, ops[0], ptr, labels) else Err(UnexpectedOperands)
    case Syscall =>
      if |ops| == 1 && ops[0].LabelOperand? then MakeInsn(opc, 0, 0, 0, hash(ops[0].name))
      else if |ops| == 1 && ops[0].Integer? then MakeInsn(opc, 0, 0, 0, ops[0].n)
      else Err(UnexpectedOperands)
    case CallReg => if |ops| == 1 && ops[0].Register? then EncodeCallx(v, opc, ops[0].n) else Err(UnexpectedOperands)
    case Endian(bits) =>
      if |ops| == 1 && ops[0].Register? then MakeInsn(opc, ops[0].n, 0, 0, bits) else Err(UnexpectedOperands)
    case LoadDwImm =>
      if |ops| == 2 && ops[0].Register? && ops[1].Integer?
      then MakeInsn(opc, ops[0].n, 0, 0, Signed32(Wrap32(ops[1].n))) else Err(UnexpectedOperands)
  }

  function FillInsn(value: i64): Insn {
    Insn(value % 256, value / 0x100 % 16, value / 0x1000 % 16,
         ReadI16(value / 0x1_0000 % 256, value / 0x100_0000 % 256),
         Wrap32(value / TWO32))
  }

  /** All instructions of a statement at slot `ptr` */
  function Encode(v: Version, hash: string -> i32, names: InstructionMap, s: Statement, ptr: nat,
                  labels: map<string, u64>): Asm<seq<Insn>>
  {
    match s
    case Label(_) => Ok([])
    case Directive(_, ops) =>
      if !IsFill(s) then Err(InvalidDirective)
      else Ok(seq(if ops[0].n < 0 then 0 else ops[0].n, _ => FillInsn(ops[1].n)))
    case Instruction(name, ops) =>
      if name !in names then Err(InvalidInstruction)
      else
        match EncodeInsn(v, hash, names[name].0, names[name].1, ops, ptr, labels)
        case Err(e) => Err(e)
        case Ok(first) =>
          if names[name].0 == LoadDwImm && |ops| == 2 && ops[1].Integer?
          then Ok([first, Insn(0, 0, 0, 0, ops[1].n / TWO32)]) else Ok([first])
  }

  /** The code of the first `k` statements */
  function Code(v: Version, hash: string -> i32, names: InstructionMap, statements: seq<Statement>,
                labels: map<string, u64>, k: nat): Asm<seq<Insn>>
    requires k <= |statements|
  {
    if k == 0 then Ok([])
    else
      match Code(v, hash, names, statements, labels, k - 1)
      case Err(e) => Err(e)
      case Ok(before) =>
        match Encode(v, hash, names, statements[k - 1], |before|, labels)
        case Err(e) => Err(e)
        case Ok(more) => Ok(before + more)
  }

  // ----- both passes count alike -----

  /** Fill directives with a negative count are counted by the first pass and not emitted by the second. */
  ghost predicate FillsOk(statements: seq<Statement>) {
    forall k :: 0 <= k < |statements| && IsFill(statements[k]) ==> statements[k].operands[0].n >= 0
  }

  /** A negative fill count, or zero */
  function Shortfall(s: Statement): int {
    if IsFill(s) && s.operands[0].n < 0 then s.operands[0].n else 0
  }

  /** The sum of the negative fill counts */
  function Shortfalls(statements: seq<Statement>, k: nat): int
    requires k <= |statements|
  {
    if k == 0 then 0 else Shortfalls(statements, k - 1) + Shortfall(statements[k - 1])
  }

  /** The text fits into memory. */
  predicate InMemory(code: seq<Insn>) { INSN_SIZE * |code| < TWO63 }

  lemma EncodeLength(v: Version, hash: string -> i32, names: InstructionMap, s: Statement, ptr: nat,
                     labels: map<string, u64>)
    requires MapOk(names) && Encode(v, hash, names, s, ptr, labels).Ok?
    ensures var n := |Encode(v, hash, names, s, ptr, labels).value|;
      Advance(s) == Wrap(n + Shortfall(s)) && (Shortfall(s) == 0 ==> n == Advance(s))
  {
    hide EncodeAlu, EncodeMemory, EncodeBranch, EncodeCall, EncodeCallx, MakeInsn;
  }

  /** What the first pass counts is what the second emits, less the negative counts, modulo 2^64. So both
      agree on a statement if and only if the negative fill counts before it sum to a multiple of 2^64. */
  lemma {:induction false} PassesAgreeExactly(v: Version, hash: string -> i32, names: InstructionMap,
                                              statements: seq<Statement>, labels: map<string, u64>, k: nat)
    requires MapOk(names) && k <= |statements| && Code(v, hash, names, statements, labels, k).Ok?
    ensures var n := |Code(v, hash, names, statements, labels, k).value|;
      && Address(statements, k) == Wrap(n + Shortfalls(statements, k))
      && (Wrap(n) == Address(statements, k) <==> Shortfalls(statements, k) % TWO64 == 0)
    decreases k
  {
    hide Encode, MapOk, Advance, IsFill, Shortfall, Wrap;
    if k > 0 {
      PassesAgreeExactly(v, hash, names, statements, labels, k - 1);
      var before := |Code(v, hash, names, statements, labels, k - 1).value|;
      var s := statements[k - 1];
      EncodeLength(v, hash, names, s, before, labels);
      var n := |Encode(v, hash, names, s, before, labels).value|;
      WrapSum(before + Shortfalls(statements, k - 1), n + Shortfall(s));
    } else {
      WrapSmall(0);
    }
    WrapEqual(|Code(v, hash, names, statements, labels, k).value|, Shortfalls(statements, k));
  }

  lemma WrapSum(x: int, y: int)
    ensures Wrap(Wrap(x) + Wrap(y)) == Wrap(x + y)
  {
  }

  lemma WrapSmall(x: nat)
    requires x < TWO64
    ensures Wrap(x) == x
  {
  }

  lemma WrapEqual(x: int, d: int)
    ensures Wrap(x) == Wrap(x + d) <==> d % TWO64 == 0
  {
  }

  lemma {:induction false} NoShortfall(statements: seq<Statement>, k: nat)
    requires k <= |statements| && FillsOk(statements[..k])
    ensures Shortfalls(statements, k) == 0
  {
    hide IsFill;
    if k > 0 {
      FillsStep(statements, k);
      NoShortfall(statements, k - 1);
    }
  }

  lemma FillsStep(statements: seq<Statement>, k: nat)
    requires 0 < k <= |statements|
    ensures FillsOk(statements[..k]) <==> FillsOk(statements[..k - 1]) && Shortfall(statements[k - 1]) == 0
  {
    hide IsFill;
    var shorter, longer := statements[..k - 1], statements[..k];
    assert forall i :: 0 <= i < k - 1 ==> shorter[i] == longer[i];
  }

  /** Both passes count alike at the `i`th statement. */
  ghost predicate CountAlike(v: Version, hash: string -> i32, names: InstructionMap, statements: seq<Statement>,
                             labels: map<string, u64>, i: nat)
    requires i <= |statements|
  {
    var code := Code(v, hash, names, statements, labels, i);
    code.Ok? && Wrap(|code.value|) == Address(statements, i)
  }

  /** Both agree on every statement if and only if no fill count is negative: right behind the first
      negative one they differ. */
  lemma {:induction false} PassesAgreeEverywhere(v: Version, hash: string -> i32, names: InstructionMap,
                                                 statements: seq<Statement>, labels: map<string, u64>, k: nat)
    requires MapOk(names) && k <= |statements| && Code(v, hash, names, statements, labels, k).Ok?
    ensures (forall i :: 0 <= i <= k ==> CountAlike(v, hash, names, statements, labels, i))
      <==> FillsOk(statements[..k])
    decreases k
  {
    hide Encode, MapOk, FillsOk, Code, CountAlike;
    AlikeExactly(v, hash, names, statements, labels, k);
    if k > 0 {
      CodeShorter(v, hash, names, statements, labels, k);
      PassesAgreeEverywhere(v, hash, names, statements, labels, k - 1);
      FillsStep(statements, k);
      if FillsOk(statements[..k - 1]) {
        NoShortfall(statements, k - 1);
      }
    } else {
      NoFills(statements);
    }
  }

  lemma FillsBefore(statements: seq<Statement>, k: nat)
    requires FillsOk(statements) && k <= |statements|
    ensures FillsOk(statements[..k])
  {
    hide IsFill;
  }

  lemma NoFills(statements: seq<Statement>)
    ensures FillsOk(statements[..0])
  {
  }

  lemma AlikeExactly(v: Version, hash: string -> i32, names: InstructionMap, statements: seq<Statement>,
                     labels: map<string, u64>, k: nat)
    requires MapOk(names) && k <= |statements| && Code(v, hash, names, statements, labels, k).Ok?
    ensures CountAlike(v, hash, names, statements, labels, k) <==> Shortfalls(statements, k) % TWO64 == 0
  {
    hide MapOk, Code, Shortfalls;
    PassesAgreeExactly(v, hash, names, statements, labels, k);
  }

  lemma CodeShorter(v: Version, hash: string -> i32, names: InstructionMap, statements: seq<Statement>,
                    labels: map<string, u64>, k: nat)
    requires 0 < k <= |statements| && Code(v, hash, names, statements, labels, k).Ok?
    ensures Code(v, hash, names, statements, labels, k - 1).Ok?
    ensures Code(v, hash, names, statements, labels, k - 1).value <= Code(v, hash, names, statements, labels, k).value
  {
    hide Encode;
  }

  lemma FillsNothing(v: Version, hash: string -> i32, names: InstructionMap, s: Statement, ptr: nat,
                     labels: map<string, u64>)
    requires IsFill(s) && s.operands[0].n < 0
    ensures Encode(v, hash, names, s, ptr, labels) == Ok([])
  {
    var code := Encode(v, hash, names, s, ptr, labels).value;
    assert |code| == 0;
  }

  lemma {:induction false} FillsEmitNothing(v: Version, hash: string -> i32, names: InstructionMap,
                                            statements: seq<Statement>, labels: map<string, u64>, k: nat)
    requires k <= |statements| && forall i :: 0 <= i < k ==> IsFill(statements[i]) && statements[i].operands[0].n < 0
    ensures Code(v, hash, names, statements, labels, k) == Ok([])
  {
    hide Encode, IsFill;
    if k > 0 {
      FillsEmitNothing(v, hash, names, statements, labels, k - 1);
      FillsNothing(v, hash, names, statements[k - 1], 0, labels);
      var none: seq<Insn> := [];
      assert none + none == none;
    }
  }

  /** A single fill of -1 slots: nothing is emitted, and what follows is counted from 2^64 - 1. */
  lemma NegativeFillDiffers(v: Version, hash: string -> i32, names: InstructionMap, labels: map<string, u64>)
    ensures var statements := [Directive("fill", [Integer(-1), Integer(0)])];
      Code(v, hash, names, statements, labels, 1) == Ok([]) && Address(statements, 1) == U64_MAX
  {
    hide Code;
    FillsEmitNothing(v, hash, names, [Directive("fill", [Integer(-1), Integer(0)])], labels, 1);
  }

  /** Two fills of -2^63 slots: the passes differ between them and agree again behind them. */
  lemma NegativeFillsCancel(v: Version, hash: string -> i32, names: InstructionMap, labels: map<string, u64>)
    ensures var s := Directive("fill", [Integer(-TWO63), Integer(0)]); var statements := [s, s];
      && Code(v, hash, names, statements, labels, 1) == Code(v, hash, names, statements, labels, 2) == Ok([])
      && Address(statements, 1) == TWO63 && Address(statements, 2) == 0
  {
    hide Code;
    var s := Directive("fill", [Integer(-TWO63), Integer(0)]);
    FillsEmitNothing(v, hash, names, [s, s], labels, 1);
    FillsEmitNothing(v, hash, names, [s, s], labels, 2);
    assert Advance(s) == TWO63;
    assert Address([s, s], 1) == TWO63;
  }

  /** The slot a statement gets in the second pass is the address the first pass counted. */
  lemma PassesAgree(v: Version, hash: string -> i32, names: InstructionMap, statements: seq<Statement>,
                    labels: map<string, u64>, k: nat)
    requires MapOk(names) && FillsOk(statements) && k <= |statements|
    requires var code := Code(v, hash, names, statements, labels, k); code.Ok? && InMemory(code.value)
    ensures |Code(v, hash, names, statements, labels, k).value| == Address(statements, k)
  {
    FillsBefore(statements, k);
    hide Encode, MapOk, Code, Shortfalls, Address, FillsOk, Wrap;
    NoShortfall(statements, k);
    PassesAgreeExactly(v, hash, names, statements, labels, k);
    WrapSmall(|Code(v, hash, names, statements, labels, k).value|);
  }

  /** Addresses do not exceed the code. */
  lemma {:induction false} AddressInCode(v: Version, hash: string -> i32, names: InstructionMap,
                                         statements: seq<Statement>, labels: map<string, u64>, i: nat, k: nat)
    requires MapOk(names) && FillsOk(statements) && i <= k <= |statements|
    requires var code := Code(v, hash, names, statements, labels, k); code.Ok? && InMemory(code.value)
    ensures Address(statements, i) <= |Code(v, hash, names, statements, labels, k).value|
    decreases k
  {
    hide MapOk, FillsOk, Code, Address;
    if i < k {
      CodeShorter(v, hash, names, statements, labels, k);
      AddressInCode(v, hash, names, statements, labels, i, k - 1);
    } else {
      PassesAgree(v, hash, names, statements, labels, k);
    }
  }

  /** The code of a statement stands at its address. */
  lemma {:induction false} CodeAt(v: Version, hash: string -> i32, names: InstructionMap, statements: seq<Statement>,
                                  labels: map<string, u64>, j: nat, k: nat)
    requires MapOk(names) && FillsOk(statements) && j < k <= |statements|
    requires var code := Code(v, hash, names, statements, labels, k); code.Ok? && InMemory(code.value)
    ensures var code := Code(v, hash, names, statements, labels, k).value; var at := Address(statements, j);
      var piece := Encode(v, hash, names, statements[j], at, labels);
      piece.Ok? && at + |piece.value| <= |code| && code[at..at + |piece.value|] == piece.value
    decreases k
  {
    CodeShorter(v, hash, names, statements, labels, k);
    hide Encode, MapOk, Advance, FillsOk, Address;
    PassesAgree(v, hash, names, statements, labels, k - 1);
    var before := Code(v, hash, names, statements, labels, k - 1).value;
    var code := Code(v, hash, names, statements, labels, k).value;
    if j == k - 1 {
      assert code[|before|..] == Encode(v, hash, names, statements[j], |before|, labels).value;
    } else {
      CodeAt(v, hash, names, statements, labels, j, k - 1);
      var at := Address(statements, j);
      var n := |Encode(v, hash, names, statements[j], at, labels).value|;
      assert code[at..at + n] == code[..|before|][at..at + n] == before[at..at + n];
    }
  }

  // ----- labels -----

  /** A label's address is the slot of its last definition; only the entry point has one by default. */
  lemma {:induction false} LabelMeaning(statements: seq<Statement>, name: string, k: nat)
    requires k <= |statements| && name in Labels(statements, k)
    ensures DefinedAt(statements, name, k, Labels(statements, k)[name])
    decreases k
  {
    if k > 0 && statements[k - 1] != Label(name) {
      LabelMeaning(statements, name, k - 1);
      if at :| LastDefinition(statements, name, k - 1, at) && Labels(statements, k)[name] == Address(statements, at) {
        assert LastDefinition(statements, name, k, at);
      }
    } else if k > 0 {
      assert LastDefinition(statements, name, k, k - 1);
    }
  }

  ghost predicate LastDefinition(statements: seq<Statement>, name: string, k: nat, at: int)
    requires k <= |statements|
  {
    && 0 <= at < k && statements[at] == Label(name)
    && forall i :: at < i < k ==> statements[i] != Label(name)
  }

  ghost predicate DefinedAt(statements: seq<Statement>, name: string, k: nat, address: u64)
    requires k <= |statements|
  {
    || (exists at :: LastDefinition(statements, name, k, at) && address == Address(statements, at))
    || (name == "entrypoint" && address == 0 && forall i :: 0 <= i < k ==> statements[i] != Label(name))
  }

  lemma LabelInCode(v: Version, hash: string -> i32, names: InstructionMap, statements: seq<Statement>,
                    labels: map<string, u64>, name: string, address: u64)
    requires MapOk(names) && FillsOk(statements) && DefinedAt(statements, name, |statements|, address)
    requires var code := Code(v, hash, names, statements, labels, |statements|); code.Ok? && InMemory(code.value)
    ensures address < TWO63
  {
    hide MapOk, FillsOk, Code, Address;
    if at :| LastDefinition(statements, name, |statements|, at) && address == Address(statements, at) {
      AddressInCode(v, hash, names, statements, labels, at, |statements|);
    }
  }

  // ----- what the code of a whole source says -----

  predicate IsJump(names: InstructionMap, s: Statement) {
    && s.Instruction? && s.name in names && s.operands != []
    && (names[s.name].0 == JumpUnconditional || names[s.name].0 == JumpConditional)
    && s.operands[|s.operands| - 1].LabelOperand?
  }

  lemma EncodedJump(v: Version, hash: string -> i32, names: InstructionMap, s: Statement, ptr: nat,
                    labels: map<string, u64>)
    requires IsJump(names, s) && Encode(v, hash, names, s, ptr, labels).Ok?
    ensures var name := s.operands[|s.operands| - 1].name; var code := Encode(v, hash, names, s, ptr, labels).value;
      |code| == 1 && name in labels && ptr + 1 + code[0].off == Signed64(labels[name])
  {
  }

  /** Every jump to a label lands on the slot of the label's last definition. */
  lemma JumpsReachLabels(v: Version, hash: string -> i32, names: InstructionMap, statements: seq<Statement>, j: nat)
    requires MapOk(names) && FillsOk(statements) && j < |statements| && IsJump(names, statements[j])
    requires var code := Code(v, hash, names, statements, Labels(statements, |statements|), |statements|);
      code.Ok? && InMemory(code.value)
    ensures var code := Code(v, hash, names, statements, Labels(statements, |statements|), |statements|).value;
      var at := Address(statements, j); var name := statements[j].operands[|statements[j].operands| - 1].name;
      && at < |code| && 0 <= at + 1 + code[at].off < TWO64
      && DefinedAt(statements, name, |statements|, at + 1 + code[at].off)
  {
    hide Encode, Code, DefinedAt, MapOk, FillsOk, Labels;
    var labels := Labels(statements, |statements|);
    var at := Address(statements, j);
    CodeAt(v, hash, names, statements, labels, j, |statements|);
    EncodedJump(v, hash, names, statements[j], at, labels);
    var name := statements[j].operands[|statements[j].operands| - 1].name;
    LabelMeaning(statements, name, |statements|);
    LabelInCode(v, hash, names, statements, labels, name, labels[name]);
    var code := Code(v, hash, names, statements, labels, |statements|).value;
    assert code[at] == code[at..at + 1][0];
  }

  predicate IsLabelCall(names: InstructionMap, s: Statement) {
    && s.Instruction? && s.name in names && names[s.name].0 == InstructionType.CallImm
    && |s.operands| == 1 && s.operands[0].LabelOperand?
  }

  lemma EncodedCall(v: Version, hash: string -> i32, names: InstructionMap, s: Statement, ptr: nat,
                    labels: map<string, u64>)
    requires IsLabelCall(names, s) && Encode(v, hash, names, s, ptr, labels).Ok?
    ensures var name := s.operands[0].name; var code := Encode(v, hash, names, s, ptr, labels).value;
      && |code| == 1 && name in labels
      && (if v.StaticSyscalls() then ptr + 1 + code[0].imm else code[0].imm) == Signed64(labels[name])
  {
  }

  /** Calls to labels name the slot of the label's last definition, relative where syscalls are static. */
  lemma CallsReachLabels(v: Version, hash: string -> i32, names: InstructionMap, statements: seq<Statement>, j: nat)
    requires MapOk(names) && FillsOk(statements) && j < |statements|
    requires var code := Code(v, hash, names, statements, Labels(statements, |statements|), |statements|);
      code.Ok? && InMemory(code.value)
    requires IsLabelCall(names, statements[j])
    ensures var code := Code(v, hash, names, statements, Labels(statements, |statements|), |statements|).value;
      var at := Address(statements, j);
      && at < |code|
      && var target := if v.StaticSyscalls() then at + 1 + code[at].imm else code[at].imm;
         0 <= target < TWO64 && DefinedAt(statements, statements[j].operands[0].name, |statements|, target)
  {
    hide Encode, Code, DefinedAt, MapOk, FillsOk, Labels;
    var labels := Labels(statements, |statements|);
    var at := Address(statements, j);
    CodeAt(v, hash, names, statements, labels, j, |statements|);
    EncodedCall(v, hash, names, statements[j], at, labels);
    var name := statements[j].operands[0].name;
    LabelMeaning(statements, name, |statements|);
    LabelInCode(v, hash, names, statements, labels, name, labels[name]);
    var code := Code(v, hash, names, statements, labels, |statements|).value;
    assert code[at] == code[at..at + 1][0];
  }

  // ----- bytes -----

  function Flat(code: seq<Insn>): seq<u8> {
    if code == [] then [] else Flat(code[..|code| - 1]) + ToArray(code[|code| - 1])
  }

  lemma {:induction false} FlatAt(code: seq<Insn>, p: nat)
    requires p < |code|
    ensures |Flat(code)| == INSN_SIZE * |code|
    ensures Flat(code)[INSN_SIZE * p..INSN_SIZE * p + INSN_SIZE] == ToArray(code[p])
    decreases |code|
  {
    hide ToArray;
    var before, last := code[..|code| - 1], code[|code| - 1];
    ArrayLength(last);
    FlatLength(before);
    if p < |before| {
      FlatAt(before, p);
      assert Flat(code)[INSN_SIZE * p..INSN_SIZE * p + INSN_SIZE]
        == Flat(before)[INSN_SIZE * p..INSN_SIZE * p + INSN_SIZE];
    } else {
      assert Flat(code)[INSN_SIZE * p..] == ToArray(last);
    }
  }

  lemma {:induction false} FlatLength(code: seq<Insn>)
    ensures |Flat(code)| == INSN_SIZE * |code|
    decreases |code|
  {
    hide ToArray;
    if code != [] {
      FlatLength(code[..|code| - 1]);
      ArrayLength(code[|code| - 1]);
    }
  }

  lemma ArrayLength(insn: Insn)
    ensures |ToArray(insn)| == INSN_SIZE
  {
  }

  /** The fields of instructions that are not filled in fit their places in the encoding. */
  lemma EncodedFits(v: Version, hash: string -> i32, names: InstructionMap, s: Statement, ptr: nat,
                    labels: map<string, u64>, p: nat)
    requires s.Instruction? && Encode(v, hash, names, s, ptr, labels).Ok?
      && p < |Encode(v, hash, names, s, ptr, labels).value|
    ensures Fits(Encode(v, hash, names, s, ptr, labels).value[p])
  {
    hide MakeInsn, ResolveLabel, WithRegister;
  }

  /** Every assembled instruction decodes to itself. */
  lemma InstructionsDecode(v: Version, hash: string -> i32, names: InstructionMap, statements: seq<Statement>,
                           labels: map<string, u64>, j: nat, p: nat)
    requires MapOk(names) && FillsOk(statements) && j < |statements| && statements[j].Instruction?
    requires var code := Code(v, hash, names, statements, labels, |statements|); code.Ok? && InMemory(code.value)
    requires p < Advance(statements[j])
    ensures var code := Code(v, hash, names, statements, labels, |statements|).value;
      var at := Address(statements, j) + p;
      at < |code| && at < Slots(Flat(code)) && GetInsn(Flat(code), at) == code[at]
  {
    hide Encode, Code, MapOk, FillsOk, GetInsn, ToArray, Flat;
    CodeAt(v, hash, names, statements, labels, j, |statements|);
    var start := Address(statements, j);
    EncodeLength(v, hash, names, statements[j], start, labels);
    EncodedFits(v, hash, names, statements[j], start, labels, p);
    var code := Code(v, hash, names, statements, labels, |statements|).value;
    var piece := Encode(v, hash, names, statements[j], start, labels).value;
    assert code[start + p] == code[start..start + |piece|][p] == piece[p];
    FlatAt(code, start + p);
    InsnRoundTrip(code[start + p], Flat(code), start + p);
  }

  /** A filled slot is read back with the upper half of its value as a signed immediate, which is the slot
      as it was emitted if and only if the value is not negative. */
  lemma FillsDecode(v: Version, hash: string -> i32, names: InstructionMap, statements: seq<Statement>,
                    labels: map<string, u64>, j: nat, p: nat)
    requires MapOk(names) && FillsOk(statements) && j < |statements| && IsFill(statements[j])
    requires var code := Code(v, hash, names, statements, labels, |statements|); code.Ok? && InMemory(code.value)
    requires p < Advance(statements[j])
    ensures var code := Code(v, hash, names, statements, labels, |statements|).value;
      var at := Address(statements, j) + p;
      var value := statements[j].operands[1].n;
      && at < |code| && at < Slots(Flat(code)) && code[at] == FillInsn(value)
      && GetInsn(Flat(code), at) == FillInsn(value).(imm := value / TWO32)
      && (GetInsn(Flat(code), at) == code[at] <==> value >= 0)
  {
    hide Code, MapOk, GetInsn, ToArray, Flat, Encode, FillInsn;
    var start, value := Address(statements, j), statements[j].operands[1].n;
    CodeAt(v, hash, names, statements, labels, j, |statements|);
    EncodeLength(v, hash, names, statements[j], start, labels);
    FillPiece(v, hash, names, statements[j], start, labels);
    hide FillsOk, Address;
    var code := Code(v, hash, names, statements, labels, |statements|).value;
    var piece := Encode(v, hash, names, statements[j], start, labels).value;
    assert code[start + p] == code[start..start + |piece|][p] == piece[p];
    FlatAt(code, start + p);
    FillFields(value);
    InsnDecodes(FillInsn(value), Flat(code), start + p);
  }

  lemma FillPiece(v: Version, hash: string -> i32, names: InstructionMap, s: Statement, ptr: nat,
                  labels: map<string, u64>)
    requires IsFill(s) && s.operands[0].n >= 0
    ensures var code := Encode(v, hash, names, s, ptr, labels);
      && code.Ok? && Shortfall(s) == 0
      && forall p :: 0 <= p < |code.value| ==> code.value[p] == FillInsn(s.operands[1].n)
  {
    hide FillInsn;
  }

  lemma FillFields(value: i64)
    ensures var f := FillInsn(value);
      && f.dst < 16 && f.src < 16 && Signed32(Wrap32(f.imm)) == value / TWO32
      && (f.imm == value / TWO32 <==> value >= 0)
  {
    hide ReadI16;
    UpperHalf(value);
    SignedWrap(value / TWO32);
  }

  lemma UpperHalf(value: i64)
    ensures -TWO31 <= value / TWO32 < TWO31 && (value / TWO32 >= 0 <==> value >= 0)
    ensures Wrap32(Wrap32(value / TWO32)) == Wrap32(value / TWO32)
  {
  }

  lemma EncodedLddw(v: Version, hash: string -> i32, names: InstructionMap, s: Statement, ptr: nat,
                    labels: map<string, u64>)
    requires MapOk(names) && s.Instruction? && s.name == "lddw" && Encode(v, hash, names, s, ptr, labels).Ok?
    ensures |s.operands| == 2 && s.operands[1].Integer?
    ensures var code := Encode(v, hash, names, s, ptr, labels).value; var imm := s.operands[1].n;
      |code| == 2 && code[0].imm == Signed32(Wrap32(imm)) && code[1] == Insn(0, 0, 0, 0, imm / TWO32)
  {
  }

  /** The two halves of a wide load are read back as the immediate of the source. */
  lemma LddwDecodes(v: Version, hash: string -> i32, names: InstructionMap, statements: seq<Statement>,
                    labels: map<string, u64>, j: nat)
    requires MapOk(names) && FillsOk(statements) && j < |statements|
    requires statements[j].Instruction? && statements[j].name == "lddw"
    requires var code := Code(v, hash, names, statements, labels, |statements|); code.Ok? && InMemory(code.value)
    ensures var code := Code(v, hash, names, statements, labels, |statements|).value; var at := Address(statements, j);
      && at + 1 < Slots(Flat(code)) && |statements[j].operands| == 2 && statements[j].operands[1].Integer?
      && AugmentLddw(Flat(code), at, GetInsn(Flat(code), at).imm) == statements[j].operands[1].n
  {
    hide Encode, Code, MapOk, FillsOk, GetInsn, Flat, Merge, ReadI32, AugmentLddw;
    var at := Address(statements, j);
    CodeAt(v, hash, names, statements, labels, j, |statements|);
    EncodedLddw(v, hash, names, statements[j], at, labels);
    InstructionsDecode(v, hash, names, statements, labels, j, 0);
    InstructionsDecode(v, hash, names, statements, labels, j, 1);
    var code := Code(v, hash, names, statements, labels, |statements|).value;
    var piece := Encode(v, hash, names, statements[j], at, labels).value;
    assert code[at] == code[at..at + 2][0] == piece[0] && code[at + 1] == code[at..at + 2][1] == piece[1];
    AugmentIsMerge(Flat(code), at, piece[0].imm);
    LddwRoundTrip(statements[j].operands[1].n);
  }

  // ----- the function registry -----

  /** Functions by the low half of their address */
  type Registry = map<u32, u64>

  function Register(r: Registry, address: u64): Asm<Registry> {
    var key := Wrap32(address);
    if key !in r then Ok(r[key := address]) else if r[key] == address then Ok(r) else Err(LabelHashCollision)
  }

  function RegisterAll(addresses: seq<u64>): Asm<Registry> {
    if addresses == [] then Ok(map[])
    else
      match RegisterAll(addresses[..|addresses| - 1])
      case Err(e) => Err(e)
      case Ok(r) => Register(r, addresses[|addresses| - 1])
  }

  /** Addresses with the same low half are the same. */
  ghost predicate Consistent(addresses: seq<u64>) {
    forall i, j :: 0 <= i < j < |addresses| && Wrap32(addresses[i]) == Wrap32(addresses[j]) ==>
      addresses[i] == addresses[j]
  }

  /** Registering fails exactly if two addresses collide; otherwise the registry holds exactly these. */
  lemma {:induction false} RegistryExact(addresses: seq<u64>)
    ensures RegisterAll(addresses).Ok? <==> Consistent(addresses)
    ensures RegisterAll(addresses).Ok? ==> Holds(RegisterAll(addresses).value, addresses)
    ensures RegisterAll(addresses).Err? ==> RegisterAll(addresses).error == LabelHashCollision
    decreases |addresses|
  {
    hide Wrap32;
    if addresses != [] {
      var init, last := addresses[..|addresses| - 1], addresses[|addresses| - 1];
      RegistryExact(init);
      ConsistentInit(addresses);
      if RegisterAll(init).Ok? {
        hide RegisterAll;
        RegisterLast(RegisterAll(init).value, init, last);
        assert init + [last] == addresses;
      }
    }
  }

  /** The registry maps the low half of every address to it, and nothing else. */
  ghost predicate Holds(r: Registry, addresses: seq<u64>) {
    && (forall i :: 0 <= i < |addresses| ==> Wrap32(addresses[i]) in r && r[Wrap32(addresses[i])] == addresses[i])
    && (forall key :: key in r ==> exists i :: 0 <= i < |addresses| && Wrap32(addresses[i]) == key)
  }

  lemma ConsistentInit(addresses: seq<u64>)
    requires addresses != []
    ensures Consistent(addresses) ==> Consistent(addresses[..|addresses| - 1])
  {
    hide Wrap32;
  }

  lemma RegisterLast(r: Registry, init: seq<u64>, last: u64)
    requires Holds(r, init) && Consistent(init)
    ensures Register(r, last).Ok? <==> Consistent(init + [last])
    ensures Register(r, last).Ok? ==> Holds(Register(r, last).value, init + [last])
  {
    hide Wrap32;
    var all, key := init + [last], Wrap32(last);
    if key in r && r[key] != last {
      var i :| 0 <= i < |init| && Wrap32(init[i]) == key;
      assert all[i] == init[i] && all[|init|] == last;
    }
    if Register(r, last).Ok? {
      HoldsLast(r, init, last);
    }
  }

  lemma HoldsLast(r: Registry, init: seq<u64>, last: u64)
    requires Holds(r, init) && Register(r, last).Ok?
    ensures Holds(Register(r, last).value, init + [last])
  {
    hide Wrap32;
    var all, r' := init + [last], Register(r, last).value;
    forall key | key in r' ensures exists i :: 0 <= i < |all| && Wrap32(all[i]) == key {
      if key in r {
        var i :| 0 <= i < |init| && Wrap32(init[i]) == key;
        assert all[i] == init[i];
      } else {
        assert all[|init|] == last;
      }
    }
  }

  predicate NamesFunction(name: string) {
    name == "entrypoint" || (|name| >= 9 && name[..9] == "function_")
  }

  /** The addresses of labels that name functions */
  function LabelFunctions(statements: seq<Statement>, k: nat): seq<u64>
    requires k <= |statements|
  {
    if k == 0 then []
    else
      var s := statements[k - 1];
      LabelFunctions(statements, k - 1) +
      if s.Label? && NamesFunction(s.name) then [Address(statements, k - 1)] else []
  }

  /** The function a call by distance registers */
  function CallFunctions(names: InstructionMap, s: Statement, ptr: nat): seq<u64> {
    if s.Instruction? && s.name in names && names[s.name].0 == InstructionType.CallImm && |s.operands| == 1
       && s.operands[0].Integer?
    then [Wrap(s.operands[0].n + ptr + 1)] else []
  }

  /** All functions that are registered before the `k`th statement is assembled */
  function Functions(v: Version, hash: string -> i32, names: InstructionMap, statements: seq<Statement>,
                     labels: map<string, u64>, k: nat): seq<u64>
    requires k <= |statements|
  {
    if k == 0 then LabelFunctions(statements, |statements|)
    else
      var before := Code(v, hash, names, statements, labels, k - 1);
      Functions(v, hash, names, statements, labels, k - 1) +
      if before.Ok? then CallFunctions(names, statements[k - 1], |before.value|) else []
  }

  lemma RegisterNone(addresses: seq<u64>)
    ensures RegisterAll(addresses + []) == RegisterAll(addresses)
  {
    assert addresses + [] == addresses;
  }

  lemma RegisterOne(addresses: seq<u64>, address: u64)
    ensures RegisterAll(addresses + [address]) ==
      match RegisterAll(addresses) case Err(e) => Err(e) case Ok(r) => Register(r, address)
  {
    assert (addresses + [address])[..|addresses|] == addresses;
  }

  // ----- the two loops -----

  /** Code and registry of a source, if nothing fails */
  ghost predicate Assembled(v: Version, hash: string -> i32, names: InstructionMap, statements: seq<Statement>,
                            code: seq<Insn>, registry: Registry)
  {
    var labels := Labels(statements, |statements|);
    && Code(v, hash, names, statements, labels, |statements|) == Ok(code)
    && RegisterAll(Functions(v, hash, names, statements, labels, |statements|)) == Ok(registry)
  }

  /** Gives every label its address and registers the functions among them. */
  method FirstPass(statements: seq<Statement>) returns (labels: map<string, u64>, registry: Asm<Registry>)
    ensures registry == RegisterAll(LabelFunctions(statements, |statements|))
    ensures registry.Ok? ==> labels == Labels(statements, |statements|)
  {
    hide Advance, RegisterAll, Register;
    NothingRegistered();
    var ptr: u64, functions: Registry := 0, map[];
    labels := map["entrypoint" := 0];
    for k := 0 to |statements|
      invariant ptr == Address(statements, k) && labels == Labels(statements, k)
      invariant RegisterAll(LabelFunctions(statements, k)) == Ok(functions)
    {
      RegisterOne(LabelFunctions(statements, k), ptr);
      RegisterNone(LabelFunctions(statements, k));
      if statements[k].Label? {
        if NamesFunction(statements[k].name) {
          match Register(functions, ptr)
          case Err(e) =>
            CollisionStays(statements, k + 1, |statements|);
            return labels, Err(e);
          case Ok(more) => functions := more;
        }
        labels := labels[statements[k].name := ptr];
      }
      ptr := Wrap(ptr + Advance(statements[k]));
    }
    return labels, Ok(functions);
  }

  lemma NothingRegistered()
    ensures RegisterAll([]) == Ok(map[])
  {
  }

  lemma {:induction false} CollisionStays(statements: seq<Statement>, j: nat, k: nat)
    requires j <= k <= |statements| && RegisterAll(LabelFunctions(statements, j)).Err?
    ensures RegisterAll(LabelFunctions(statements, k)) == RegisterAll(LabelFunctions(statements, j))
    decreases k
  {
    hide Register, RegisterAll, Address;
    if j < k {
      CollisionStays(statements, j, k - 1);
      RegisterNone(LabelFunctions(statements, k - 1));
      if statements[k - 1].Label? {
        RegisterOne(LabelFunctions(statements, k - 1), Address(statements, k - 1));
      }
    }
  }

  /** Assembles a parsed source: the result is the code of the statements with the labels of the whole
      source, and the registry of all functions; it fails exactly if two registered addresses collide, which
      is reported first, or a statement cannot be encoded. */
  method Assemble(v: Version, hash: string -> i32, names: InstructionMap, statements: seq<Statement>)
    returns (result: Asm<(seq<Insn>, Registry)>)
    ensures var labels := Labels(statements, |statements|);
      var code := Code(v, hash, names, statements, labels, |statements|);
      var functions := Functions(v, hash, names, statements, labels, |statements|);
      && (result.Ok? <==> code.Ok? && Consistent(functions))
      && (result.Ok? ==> Assembled(v, hash, names, statements, result.value.0, result.value.1))
      && (result.Err? ==>
            if Consistent(functions) then code == Err(result.error) else result.error == LabelHashCollision)
  {
    hide Encode, RegisterAll, Register, Code, Functions, Consistent, Labels, CallFunctions;
    var labels, first := FirstPass(statements);
    NoStatements(v, hash, names, statements, labels);
    if first.Err? {
      NoStatements(v, hash, names, statements, Labels(statements, |statements|));
      PassesFail(v, hash, names, statements, Labels(statements, |statements|), 0);
      return Err(first.error);
    }
    var code: seq<Insn>, registry := [], first.value;
    for k := 0 to |statements|
      invariant Code(v, hash, names, statements, labels, k) == Ok(code)
      invariant RegisterAll(Functions(v, hash, names, statements, labels, k)) == Ok(registry)
    {
      StatementStep(v, hash, names, statements, labels, k, code);
      var functions := CallFunctions(names, statements[k], |code|);
      var registered := RegisterCalls(registry, functions);
      RegisterMore(Functions(v, hash, names, statements, labels, k), functions);
      if registered.Err? {
        PassesFail(v, hash, names, statements, labels, k + 1);
        return Err(registered.error);
      }
      registry := registered.value;
      match Encode(v, hash, names, statements[k], |code|, labels)
      case Err(e) =>
        ErrorStays(v, hash, names, statements, labels, k + 1, |statements|);
        RegistryExact(Functions(v, hash, names, statements, labels, k + 1));
        return Err(e);
      case Ok(more) => code := code + more;
    }
    RegistryExact(Functions(v, hash, names, statements, labels, |statements|));
    return Ok((code, registry));
  }

  function RegisterCalls(r: Registry, functions: seq<u64>): Asm<Registry> {
    if |functions| == 1 then Register(r, functions[0]) else Ok(r)
  }

  lemma RegisterMore(before: seq<u64>, more: seq<u64>)
    requires |more| <= 1 && RegisterAll(before).Ok?
    ensures RegisterAll(before + more) == RegisterCalls(RegisterAll(before).value, more)
  {
    hide RegisterAll, Register;
    if more == [] {
      RegisterNone(before);
    } else {
      assert more == [more[0]];
      RegisterOne(before, more[0]);
    }
  }

  lemma NoStatements(v: Version, hash: string -> i32, names: InstructionMap, statements: seq<Statement>,
                     labels: map<string, u64>)
    ensures Code(v, hash, names, statements, labels, 0) == Ok([])
    ensures Functions(v, hash, names, statements, labels, 0) == LabelFunctions(statements, |statements|)
  {
  }

  lemma StatementStep(v: Version, hash: string -> i32, names: InstructionMap, statements: seq<Statement>,
                      labels: map<string, u64>, k: nat, code: seq<Insn>)
    requires k < |statements| && Code(v, hash, names, statements, labels, k) == Ok(code)
    ensures var functions := CallFunctions(names, statements[k], |code|);
      && |functions| <= 1
      && Functions(v, hash, names, statements, labels, k + 1)
         == Functions(v, hash, names, statements, labels, k) + functions
    ensures Code(v, hash, names, statements, labels, k + 1) ==
      match Encode(v, hash, names, statements[k], |code|, labels)
      case Err(e) => Err(e)
      case Ok(more) => Ok(code + more)
  {
    hide Encode;
  }

  /** A collision is never undone. */
  lemma {:induction false} CollisionsStay(v: Version, hash: string -> i32, names: InstructionMap,
                                          statements: seq<Statement>, labels: map<string, u64>, j: nat, k: nat)
    requires j <= k <= |statements|
    ensures Functions(v, hash, names, statements, labels, j) <= Functions(v, hash, names, statements, labels, k)
    decreases k
  {
    hide Code, CallFunctions;
    if j < k {
      CollisionsStay(v, hash, names, statements, labels, j, k - 1);
    }
  }

  lemma PassesFail(v: Version, hash: string -> i32, names: InstructionMap, statements: seq<Statement>,
                   labels: map<string, u64>, k: nat)
    requires k <= |statements| && RegisterAll(Functions(v, hash, names, statements, labels, k)).Err?
    ensures !Consistent(Functions(v, hash, names, statements, labels, |statements|))
    ensures RegisterAll(Functions(v, hash, names, statements, labels, k)).error == LabelHashCollision
  {
    hide Functions, RegisterAll, Wrap32;
    var part, all := Functions(v, hash, names, statements, labels, k),
      Functions(v, hash, names, statements, labels, |statements|);
    RegistryExact(part);
    CollisionsStay(v, hash, names, statements, labels, k, |statements|);
    assert forall i :: 0 <= i < |part| ==> part[i] == all[i];
  }

  lemma {:induction false} ErrorStays(v: Version, hash: string -> i32, names: InstructionMap,
                                      statements: seq<Statement>,
                                      labels: map<string, u64>, j: nat, k: nat)
    requires j <= k <= |statements| && Code(v, hash, names, statements, labels, j).Err?
    ensures Code(v, hash, names, statements, labels, k) == Code(v, hash, names, statements, labels, j)
    ensures Functions(v, hash, names, statements, labels, k) == Functions(v, hash, names, statements, labels, j)
    decreases k
  {
    hide Encode, CallFunctions;
    if j < k {
      ErrorStays(v, hash, names, statements, labels, j, k - 1);
    }
  }
}
