/** Constant blinding: user constants are emitted in pieces that a random key hides, and put together
    again by the emitted code. */
module Blinding {
  import opened Words
  import opened Bits
  import opened X86

  // ----- loading an immediate -----

  /** The shortest of three encodings */
  function LoadImmediate(dst: Reg, imm: i64): Instruction {
    if 0 <= imm < TWO32 then MovZero32(dst, imm)
    else if -TWO31 <= imm < 0 then MovSign32(dst, Wrap32(imm))
    else Mov64(dst, Wrap(imm))
  }

  lemma LoadImmediateLoads(dst: Reg, imm: i64, cpu: Cpu)
    ensures Exec(cpu, LoadImmediate(dst, imm)) == Running(cpu.(reg := cpu.reg[dst := Wrap(imm)]))
  {
  }

  // ----- the blinded load -----

  function WrappingSub(a: i64, b: i64): i64 { Signed64(Wrap(a - b)) }

  function RotatedRight(x: i64): i64 { Signed64(RotateRight(Wrap(x), 32)) }

  function LowerKey(key: i64): i64 { Signed32(Wrap32(key)) }

  function UpperKey(key: i64): i64 { Signed32(Wrap32(key / TWO32)) }

  predicate FitsI32(x: int) { -TWO31 <= x < TWO31 }

  function AddKey(dst: Reg, key: i64): Instruction { AluImm(Add, S64, dst, Wrap32(key)) }

  /** `emit_sanitized_load_immediate` */
  function SanitizedLoad(key: i64, dst: Reg, value: i64): seq<Instruction> {
    var lower := LowerKey(key);
    if FitsI32(value) then
      [LoadImmediate(dst, WrappingSub(value, lower)), AddKey(dst, lower)]
    else if Wrap32(value) == 0 then
      [LoadImmediate(dst, WrappingSub(RotatedRight(value), lower)), AddKey(dst, lower), ShlImm(dst, 32)]
    else if dst != REGISTER_SCRATCH then
      [LoadImmediate(dst, WrappingSub(value, key)), LoadImmediate(REGISTER_SCRATCH, key),
       AluReg(Add, S64, REGISTER_SCRATCH, dst)]
    else
      [LoadImmediate(dst, WrappingSub(RotatedRight(WrappingSub(value, lower)), UpperKey(key))),
       AddKey(dst, UpperKey(key)), RorImm(dst, 32), AddKey(dst, lower)]
  }

  // ----- what the first immediate tells -----

  /** The number that the first immediate blinds: the constant, or one that it is rotated from */
  function Blinded(key: i64, dst: Reg, value: i64): i64 {
    if FitsI32(value) then value
    else if Wrap32(value) == 0 then RotatedRight(value)
    else if dst != REGISTER_SCRATCH then value
    else RotatedRight(WrappingSub(value, LowerKey(key)))
  }

  /** The part of the key that blinds it */
  function BlindingKey(key: i64, dst: Reg, value: i64): i64 {
    if FitsI32(value) || Wrap32(value) == 0 then LowerKey(key)
    else if dst != REGISTER_SCRATCH then key
    else UpperKey(key)
  }

  /** The first immediate is `m` exactly under the keys whose part is the blinded number less `m`. */
  lemma KeysBehind(key: i64, dst: Reg, value: i64, m: i64)
    ensures SanitizedLoad(key, dst, value)[0] == LoadImmediate(dst, m) <==>
      BlindingKey(key, dst, value) == WrappingSub(Blinded(key, dst, value), m)
  {
    hide RotatedRight, WrappingSub;
    SameImmediate(dst, WrappingSub(Blinded(key, dst, value), BlindingKey(key, dst, value)), m);
    Subtracted(Blinded(key, dst, value), BlindingKey(key, dst, value), m);
  }

  lemma SameImmediate(dst: Reg, x: i64, y: i64)
    ensures LoadImmediate(dst, x) == LoadImmediate(dst, y) <==> x == y
  {
  }

  lemma Subtracted(x: i64, k: i64, m: i64)
    ensures WrappingSub(x, k) == m <==> k == WrappingSub(x, m)
  {
  }

  /** A constant blinded by the whole key can show any first immediate, under one key each. One blinded by half a
      key can show exactly those that the half reaches. */
  lemma AnyImmediate(dst: Reg, value: i64, m: i64)
    requires dst != REGISTER_SCRATCH
    ensures (exists key: i64 :: SanitizedLoad(key, dst, value)[0] == LoadImmediate(dst, m)) <==>
      || (!FitsI32(value) && Wrap32(value) != 0)
      || FitsI32(WrappingSub(Blinded(0, dst, value), m))
  {
    hide RotatedRight, WrappingSub, LoadImmediate;
    var x := Blinded(0, dst, value);
    forall key: i64 ensures Blinded(key, dst, value) == x { }
    forall key: i64
      ensures SanitizedLoad(key, dst, value)[0] == LoadImmediate(dst, m) <==>
        BlindingKey(key, dst, value) == WrappingSub(x, m)
    {
      KeysBehind(key, dst, value, m);
    }
    var k := WrappingSub(x, m);
    KeysFit(k);
    if FitsI32(k) {
      HalfOfSmall(k);
    }
    forall key: i64 ensures FitsI32(LowerKey(key)) { KeysFit(key); }
    hide SanitizedLoad, LowerKey;
    assert SanitizedLoad(k, dst, value)[0] == LoadImmediate(dst, m) <==> BlindingKey(k, dst, value) == k;
  }

  lemma HalfOfSmall(k: i64)
    requires FitsI32(k)
    ensures LowerKey(k) == k
  {
  }

  // ----- what is loaded -----

  /** The destination has the value; only the scratch register and the flags may differ otherwise. */
  ghost predicate Loads(o: Outcome, cpu: Cpu, dst: Reg, value: int) {
    && o.Running? && o.cpu.mem == cpu.mem
    && o.cpu.reg[dst] == Wrap(value)
    && forall r: Reg :: r != dst && r != REGISTER_SCRATCH ==> o.cpu.reg[r] == cpu.reg[r]
  }

  lemma SumBack(value: i64, key: i64)
    ensures Wrap(Wrap(WrappingSub(value, key)) + Wrap(key)) == Wrap(value)
  {
    var d := WrappingSub(value, key);
    assert Wrap(d) == Wrap(value - key);
    AddMod(value - key, key);
  }

  lemma AddMod(a: int, b: int)
    ensures Wrap(Wrap(a) + Wrap(b)) == Wrap(a + b)
  {
    var q, s := a / TWO64, b / TWO64;
    assert Wrap(a) + Wrap(b) == a + b - (q + s) * TWO64;
    Congruent(a + b, Wrap(a) + Wrap(b), q + s);
  }

  lemma Congruent(x: int, y: int, k: int)
    requires x == y + k * TWO64
    ensures Wrap(x) == Wrap(y)
  {
    DivModUnique(x, TWO64, y / TWO64 + k, y % TWO64);
  }

  /** A key that fits in 32 bits is added exactly. */
  lemma AddKeyAdds(dst: Reg, key: i64, cpu: Cpu)
    requires FitsI32(key)
    ensures var o := Exec(cpu, AddKey(dst, key));
      o.Running? && o.cpu.mem == cpu.mem && o.cpu.reg == cpu.reg[dst := Wrap(cpu.reg[dst] + Wrap(key))]
  {
    assert Signed32(Wrap32(key)) == key;
  }

  lemma KeysFit(key: i64)
    ensures FitsI32(LowerKey(key)) && FitsI32(UpperKey(key))
  {
  }

  lemma HalfTurn(x: u64)
    ensures RotateRight(x, 32) == x / TWO32 + x % TWO32 * TWO32
  {
    hide Pow2;
    Pow2Values();
  }

  /** Rotating by half twice gives the word back. */
  lemma TwoHalfTurns(x: u64)
    ensures RotateRight(RotateRight(x, 32), 32) == x
  {
    hide RotateRight;
    HalfTurn(x);
    var y := RotateRight(x, 32);
    HalfTurn(y);
    DivModUnique(y, TWO32, x % TWO32, x / TWO32);
  }

  lemma BlindedSmall(key: i64, dst: Reg, x: i64, cpu: Cpu) returns (c: Cpu)
    requires FitsI32(key)
    ensures Run([LoadImmediate(dst, WrappingSub(x, key)), AddKey(dst, key)], cpu) == Running(c)
    ensures c.mem == cpu.mem && c.reg == cpu.reg[dst := Wrap(x)]
  {
    hide Exec, LoadImmediate, AddKey;
    LoadImmediateLoads(dst, WrappingSub(x, key), cpu);
    var c1 := cpu.(reg := cpu.reg[dst := Wrap(WrappingSub(x, key))]);
    AddKeyAdds(dst, key, c1);
    SumBack(x, key);
    RunOne(AddKey(dst, key), c1);
    RunCons(LoadImmediate(dst, WrappingSub(x, key)), [AddKey(dst, key)], cpu);
    c := Exec(c1, AddKey(dst, key)).cpu;
    assert [LoadImmediate(dst, WrappingSub(x, key)), AddKey(dst, key)]
        == [LoadImmediate(dst, WrappingSub(x, key))] + [AddKey(dst, key)];
  }

  /** Adding the key back and then `i`: the last step of two branches */
  lemma BlindedThen(key: i64, dst: Reg, x: i64, i: Instruction, rest: seq<Instruction>, cpu: Cpu) returns (c: Cpu)
    requires FitsI32(key)
    ensures c.mem == cpu.mem && c.reg == cpu.reg[dst := Wrap(x)]
    ensures Run([LoadImmediate(dst, WrappingSub(x, key)), AddKey(dst, key), i] + rest, cpu) == Then(Exec(c, i), rest)
  {
    hide Exec, LoadImmediate, AddKey, Run, Then;
    c := BlindedSmall(key, dst, x, cpu);
    var first := [LoadImmediate(dst, WrappingSub(x, key)), AddKey(dst, key)];
    assert [LoadImmediate(dst, WrappingSub(x, key)), AddKey(dst, key), i] + rest == first + ([i] + rest);
    RunConcat(first, [i] + rest, cpu);
    RunCons(i, rest, c);
    ThenRuns(c, [i] + rest);
  }

  lemma ThenRuns(c: Cpu, code: seq<Instruction>)
    ensures Then(Running(c), code) == Run(code, c)
  {
  }

  /** The low half is zero: the high half is loaded and shifted up. */
  lemma LoadHighHalf(key: i64, dst: Reg, value: i64, cpu: Cpu)
    requires !FitsI32(value) && Wrap32(value) == 0
    ensures Loads(Run(SanitizedLoad(key, dst, value), cpu), cpu, dst, value)
  {
    hide LoadImmediate, AddKey, Run, RotateRight, Alu.Shl64, WrappingSub, LowerKey, RotatedRight;
    var lower := LowerKey(key);
    var x := RotatedRight(value);
    KeysFit(key);
    var c := BlindedThen(lower, dst, x, ShlImm(dst, 32), [], cpu);
    assert [LoadImmediate(dst, WrappingSub(x, lower)), AddKey(dst, lower), ShlImm(dst, 32)] + []
        == SanitizedLoad(key, dst, value);
    ThenNothing(Exec(c, ShlImm(dst, 32)));
    ShiftUp(value);
  }

  lemma ThenNothing(o: Outcome)
    ensures Then(o, []) == o
  {
  }

  lemma ShiftUp(value: i64)
    requires Wrap32(value) == 0
    ensures Alu.Shl64(Wrap(RotatedRight(value)), 32) == Wrap(value)
  {
    hide Pow2, RotateRight;
    Pow2Values();
    var w := Wrap(value);
    ModOfMod(value, TWO32, TWO32);
    HalfTurn(w);
    HighHalfOnly(w);
  }

  lemma HighHalfOnly(w: u64)
    requires w % TWO32 == 0
    ensures w / TWO32 < TWO32 && w / TWO32 * TWO32 == w
  {
  }

  /** A full key through the scratch register */
  lemma LoadThroughScratch(key: i64, dst: Reg, value: i64, cpu: Cpu)
    requires !FitsI32(value) && Wrap32(value) != 0 && dst != REGISTER_SCRATCH
    ensures Loads(Run(SanitizedLoad(key, dst, value), cpu), cpu, dst, value)
  {
    hide LoadImmediate, Run, WrappingSub, Exec;
    var scratch := REGISTER_SCRATCH;
    var i1, i2 := LoadImmediate(dst, WrappingSub(value, key)), LoadImmediate(scratch, key);
    var i3 := AluReg(Add, S64, scratch, dst);
    assert SanitizedLoad(key, dst, value) == [i1] + ([i2] + [i3]);
    LoadImmediateLoads(dst, WrappingSub(value, key), cpu);
    var c1 := cpu.(reg := cpu.reg[dst := Wrap(WrappingSub(value, key))]);
    LoadImmediateLoads(scratch, key, c1);
    var c2 := c1.(reg := c1.reg[scratch := Wrap(key)]);
    RunCons(i1, [i2] + [i3], cpu);
    RunCons(i2, [i3], c1);
    RunOne(i3, c2);
    AddRegister(scratch, dst, c2);
    SumBack(value, key);
  }

  lemma AddRegister(src: Reg, dst: Reg, cpu: Cpu)
    ensures var o := Exec(cpu, AluReg(Add, S64, src, dst));
      o.Running? && o.cpu.mem == cpu.mem && o.cpu.reg == cpu.reg[dst := Wrap((cpu.reg[dst] as int) + cpu.reg[src])]
  {
  }

  /** The second half turn and the second half of the key */
  lemma TurnBack(lower: i64, dst: Reg, value: i64, cpu: Cpu)
    requires FitsI32(lower) && cpu.reg[dst] == Wrap(RotatedRight(WrappingSub(value, lower)))
    ensures var o := Then(Exec(cpu, RorImm(dst, 32)), [AddKey(dst, lower)]);
      o.Running? && o.cpu.mem == cpu.mem && o.cpu.reg == cpu.reg[dst := Wrap(value)]
  {
    hide AddKey, Run, RotateRight;
    var y := Wrap(WrappingSub(value, lower));
    TwoHalfTurns(y);
    SignedBack(RotateRight(y, 32));
    var c1 := Exec(cpu, RorImm(dst, 32)).cpu;
    hide Exec, WrappingSub, RotatedRight, Wrap;
    assert c1.reg[dst] == y;
    RunOne(AddKey(dst, lower), c1);
    AddKeyAdds(dst, lower, c1);
    SumBack(value, lower);
  }

  lemma SignedBack(x: u64)
    ensures Wrap(Signed64(x)) == x
  {
  }

  /** Both halves of the key in turn, with a half turn between them */
  lemma LoadByTurning(key: i64, value: i64, cpu: Cpu)
    requires !FitsI32(value) && Wrap32(value) != 0
    ensures Loads(Run(SanitizedLoad(key, REGISTER_SCRATCH, value), cpu), cpu, REGISTER_SCRATCH, value)
  {
    hide LoadImmediate, AddKey, Run, RotateRight, Exec, WrappingSub, RotatedRight, UpperKey, LowerKey;
    var dst := REGISTER_SCRATCH;
    var lower, upper := LowerKey(key), UpperKey(key);
    KeysFit(key);
    var x := RotatedRight(WrappingSub(value, lower));
    var c := BlindedThen(upper, dst, x, RorImm(dst, 32), [AddKey(dst, lower)], cpu);
    assert [LoadImmediate(dst, WrappingSub(x, upper)), AddKey(dst, upper), RorImm(dst, 32)] + [AddKey(dst, lower)]
        == SanitizedLoad(key, dst, value);
    TurnBack(lower, dst, value, c);
  }

  /** Whatever the key, the blinded load puts exactly the constant into the destination. */
  lemma SanitizedLoadIsExact(key: i64, dst: Reg, value: i64, cpu: Cpu)
    ensures Loads(Run(SanitizedLoad(key, dst, value), cpu), cpu, dst, value)
  {
    hide LoadImmediate, AddKey, Run, RotateRight;
    if FitsI32(value) {
      KeysFit(key);
      var _ := BlindedSmall(LowerKey(key), dst, value, cpu);
    } else if Wrap32(value) == 0 {
      LoadHighHalf(key, dst, value, cpu);
    } else if dst != REGISTER_SCRATCH {
      LoadThroughScratch(key, dst, value, cpu);
    } else {
      LoadByTurning(key, value, cpu);
    }
  }

  // ----- blinded operands -----

  predicate ShouldSanitize(enabled: bool, value: i64) {
    var v := Wrap(value);
    enabled && v !in {0xFFFF, 0xFF_FFFF, 0xFFFF_FFFF, 0xFF_FFFF_FFFF, 0xFFFF_FFFF_FFFF, 0xFF_FFFF_FFFF_FFFF, U64_MAX}
    && v > 0xFF && U64_MAX - v > 0xFF
  }

  function LoadConstant(enabled: bool, key: i64, dst: Reg, value: i64): seq<Instruction> {
    if ShouldSanitize(enabled, value) then SanitizedLoad(key, dst, value) else [LoadImmediate(dst, value)]
  }

  lemma LoadConstantIsExact(enabled: bool, key: i64, dst: Reg, value: i64, cpu: Cpu)
    ensures Loads(Run(LoadConstant(enabled, key, dst, value), cpu), cpu, dst, value)
  {
    hide LoadImmediate, Run, SanitizedLoad;
    SanitizedLoadIsExact(key, dst, value, cpu);
    LoadImmediateLoads(dst, value, cpu);
    RunOne(LoadImmediate(dst, value), cpu);
  }

  /** `emit_sanitized_alu` */
  function SanitizedAlu(enabled: bool, key: i64, kind: AluKind, size: Size, dst: Reg, imm: i64): seq<Instruction> {
    if ShouldSanitize(enabled, imm) then
      SanitizedLoad(key, REGISTER_SCRATCH, imm) + [AluReg(kind, size, REGISTER_SCRATCH, dst)]
    else if FitsI32(imm) then [AluImm(kind, size, dst, Wrap32(imm))]
    else [LoadImmediate(REGISTER_SCRATCH, imm), AluReg(kind, size, REGISTER_SCRATCH, dst)]
  }

  /** All three forms apply the operation to the constant and touch nothing else but scratch and flags. */
  lemma SanitizedAluIsExact(enabled: bool, key: i64, kind: AluKind, size: Size, dst: Reg, imm: i64, cpu: Cpu)
    requires dst != REGISTER_SCRATCH
    ensures Loads(Run(SanitizedAlu(enabled, key, kind, size, dst, imm), cpu), cpu, dst,
                  Apply(kind, cpu.reg[dst], Wrap(imm)) % Range(size))
  {
    hide LoadImmediate, Run, SanitizedLoad, Apply, Exec, LoadConstant;
    var last := AluReg(kind, size, REGISTER_SCRATCH, dst);
    if !ShouldSanitize(enabled, imm) && FitsI32(imm) {
      DirectAlu(kind, size, dst, imm, cpu);
    } else {
      var load := LoadConstant(enabled, key, REGISTER_SCRATCH, imm);
      LoadConstantIsExact(enabled, key, REGISTER_SCRATCH, imm, cpu);
      AluForms(enabled, key, kind, size, dst, imm);
      RunConcat(load, [last], cpu);
      AluFromScratch(kind, size, dst, imm, cpu, Run(load, cpu).cpu);
    }
  }

  lemma AluForms(enabled: bool, key: i64, kind: AluKind, size: Size, dst: Reg, imm: i64)
    requires ShouldSanitize(enabled, imm) || !FitsI32(imm)
    ensures SanitizedAlu(enabled, key, kind, size, dst, imm)
         == LoadConstant(enabled, key, REGISTER_SCRATCH, imm) + [AluReg(kind, size, REGISTER_SCRATCH, dst)]
  {
    hide SanitizedLoad, LoadImmediate;
  }

  lemma DirectAlu(kind: AluKind, size: Size, dst: Reg, imm: i64, cpu: Cpu)
    requires FitsI32(imm)
    ensures Loads(Run([AluImm(kind, size, dst, Wrap32(imm))], cpu), cpu, dst,
                  Apply(kind, cpu.reg[dst], Wrap(imm)) % Range(size))
  {
    hide Apply, Wide, Wrap, Wrap32;
    RunOne(AluImm(kind, size, dst, Wrap32(imm)), cpu);
    WideBack(imm);
    WrapCut(size, Apply(kind, cpu.reg[dst], Wrap(imm)));
  }

  lemma WrapCut(size: Size, x: int)
    ensures Wrap(x % Range(size)) == x % Range(size)
  {
  }

  lemma AluFromScratch(kind: AluKind, size: Size, dst: Reg, imm: i64, cpu: Cpu, c: Cpu)
    requires dst != REGISTER_SCRATCH && Loads(Running(c), cpu, REGISTER_SCRATCH, imm)
    ensures Loads(Run([AluReg(kind, size, REGISTER_SCRATCH, dst)], c), cpu, dst,
                  Apply(kind, cpu.reg[dst], Wrap(imm)) % Range(size))
  {
    hide Apply, Wrap;
    RunOne(AluReg(kind, size, REGISTER_SCRATCH, dst), c);
    WrapCut(size, Apply(kind, cpu.reg[dst], Wrap(imm)));
  }

  // ----- a stored constant -----

  /** The call site of a store: the value minus the key goes below the stack, the address into scratch,
      the pc where the subroutine's first slot will be. */
  function StoreSite(enabled: bool, key: i64, value: i64, base: Reg, offset: i64, pc: u32,
                     back: u64): seq<Instruction> {
    [LoadImmediate(REGISTER_SCRATCH, WrappingSub(value, LowerKey(key))), Store(REGISTER_SCRATCH, -96)]
    + LoadConstant(enabled, key, REGISTER_SCRATCH, offset)
    + [AluReg(Add, S64, base, REGISTER_SCRATCH), StoreImm(-16, pc), Call(back)]
  }

  const CALLER_SAVED_REGISTERS: seq<Reg> := [RAX, RCX, RDX, RSI, RDI, R8, R9, R10, R11]

  function Pushes(regs: seq<Reg>): seq<Instruction> {
    if regs == [] then [] else [Push(regs[0])] + Pushes(regs[1..])
  }

  /** The subroutine up to its call: it skips the pc, adds the key in place, saves nine registers and
      loads the arguments. */
  function StoreRoutine(key: i64): seq<Instruction> {
    [AluImm(Sub, S64, RSP, 8), AddMemImm(-80, Wrap32(LowerKey(key)))]
    + Pushes(CALLER_SAVED_REGISTERS)
    + [Mov(S64, REGISTER_SCRATCH, RCX), Load(-8, RDX)]
  }

  /** Everything at or above an address is kept. */
  ghost predicate KeptAbove(mem: map<int, u64>, mem': map<int, u64>, address: int) {
    forall a :: a >= address ==> At(mem', a) == At(mem, a)
  }

  ghost predicate KeptBelow(mem: map<int, u64>, mem': map<int, u64>, address: int) {
    forall a :: a < address ==> At(mem', a) == At(mem, a)
  }

  lemma {:induction false} PushesKeep(regs: seq<Reg>, cpu: Cpu) returns (c: Cpu)
    requires RSP !in regs && cpu.reg[RSP] >= 8 * |regs|
    ensures Run(Pushes(regs), cpu) == Running(c)
    ensures c.reg == cpu.reg[RSP := cpu.reg[RSP] - 8 * |regs|]
    ensures KeptAbove(cpu.mem, c.mem, cpu.reg[RSP]) && KeptBelow(cpu.mem, c.mem, cpu.reg[RSP] - 8 * |regs|)
    decreases |regs|
  {
    if regs == [] {
      c := cpu;
    } else {
      hide Run, Pushes, Exec;
      var c1 := PushKeeps(regs[0], cpu);
      PushesUnfold(regs);
      RunCons(Push(regs[0]), Pushes(regs[1..]), cpu);
      c := PushesKeep(regs[1..], c1);
    }
  }

  lemma PushKeeps(reg: Reg, cpu: Cpu) returns (c: Cpu)
    requires reg != RSP && cpu.reg[RSP] >= 8
    ensures Exec(cpu, Push(reg)) == Running(c) && c.reg == cpu.reg[RSP := cpu.reg[RSP] - 8]
    ensures KeptAbove(cpu.mem, c.mem, cpu.reg[RSP]) && KeptBelow(cpu.mem, c.mem, cpu.reg[RSP] - 8)
  {
    c := Pushed(cpu, cpu.reg[reg]);
  }

  lemma PushesUnfold(regs: seq<Reg>)
    requires regs != []
    ensures Pushes(regs) == [Push(regs[0])] + Pushes(regs[1..])
  {
  }

  /** Before the subroutine: the blinded value waits 96 bytes below the stack. */
  lemma StoreSiteRuns(enabled: bool, key: i64, value: i64, base: Reg, offset: i64, pc: u32, back: u64, cpu: Cpu)
    returns (c: Cpu)
    requires cpu.reg[RSP] >= 96 && base != REGISTER_SCRATCH
    ensures Run(StoreSite(enabled, key, value, base, offset, pc, back), cpu) == Running(c)
    ensures var sp := cpu.reg[RSP];
      && c.reg[RSP] == sp - 8 && c.reg[REGISTER_SCRATCH] == Wrap(cpu.reg[base] + Wrap(offset))
      && At(c.mem, sp - 96) == Wrap(WrappingSub(value, LowerKey(key)))
      && At(c.mem, sp - 16) == Wide(pc) && At(c.mem, sp - 8) == back && KeptAbove(cpu.mem, c.mem, sp)
  {
    hide LoadImmediate, Run, LoadConstant;
    var scratch, sp := REGISTER_SCRATCH, cpu.reg[RSP];
    var blinded := WrappingSub(value, LowerKey(key));
    var i1, i2 := LoadImmediate(scratch, blinded), Store(scratch, -96);
    var load := LoadConstant(enabled, key, scratch, offset);
    var i3, i4, i5 := AluReg(Add, S64, base, scratch), StoreImm(-16, pc), Call(back);
    assert StoreSite(enabled, key, value, base, offset, pc, back) == [i1] + ([i2] + (load + ([i3] + ([i4] + [i5]))));
    LoadImmediateLoads(scratch, blinded, cpu);
    RunCons(i1, [i2] + (load + ([i3] + ([i4] + [i5]))), cpu);
    var c1 := Exec(cpu, i1).cpu;
    RunCons(i2, load + ([i3] + ([i4] + [i5])), c1);
    var c2 := Exec(c1, i2).cpu;
    RunConcat(load, [i3] + ([i4] + [i5]), c2);
    LoadConstantIsExact(enabled, key, scratch, offset, c2);
    var c3 := Run(load, c2).cpu;
    RunCons(i3, [i4] + [i5], c3);
    var c4 := Exec(c3, i3).cpu;
    RunCons(i4, [i5], c4);
    var c5 := Exec(c4, i4).cpu;
    RunOne(i5, c5);
    c := Exec(c5, i5).cpu;
  }

  /** The key is added in the slot where the call site left the blinded value. */
  lemma KeyAddedInPlace(key: i64, value: i64, sp: u64, rest: seq<Instruction>, cpu: Cpu) returns (c: Cpu)
    requires sp >= 96 && cpu.reg[RSP] == sp - 8
    requires At(cpu.mem, sp - 96) == Wrap(WrappingSub(value, LowerKey(key)))
    ensures Run([AluImm(Sub, S64, RSP, 8)] + ([AddMemImm(-80, Wrap32(LowerKey(key)))] + rest), cpu) == Run(rest, c)
    ensures c.reg == cpu.reg[RSP := sp - 16] && At(c.mem, sp - 96) == Wrap(value) && KeptAbove(cpu.mem, c.mem, sp - 16)
  {
    hide Run, WrappingSub, LowerKey, Wide;
    var lower := LowerKey(key);
    WideEight();
    var i1, i2 := AluImm(Sub, S64, RSP, 8), AddMemImm(-80, Wrap32(lower));
    RunCons(i1, [i2] + rest, cpu);
    var c1 := Exec(cpu, i1).cpu;
    RunCons(i2, rest, c1);
    c := Exec(c1, i2).cpu;
    KeysFit(key);
    SumBack(value, lower);
    WideBack(lower);
  }

  lemma WideEight()
    ensures Wide(8) == 8
  {
  }

  lemma WideBack(x: int)
    requires FitsI32(x)
    ensures Wide(Wrap32(x)) == Wrap(x)
  {
  }

  /** In the subroutine: the saved registers do not reach the slot, and the value is passed on. */
  lemma StoreRoutineRuns(key: i64, value: i64, sp: u64, cpu: Cpu) returns (c: Cpu)
    requires sp >= 96 && cpu.reg[RSP] == sp - 8
    requires At(cpu.mem, sp - 96) == Wrap(WrappingSub(value, LowerKey(key)))
    ensures Run(StoreRoutine(key), cpu) == Running(c)
    ensures c.reg[RSP] == sp - 88 && c.reg[RDX] == Wrap(value) && c.reg[RCX] == cpu.reg[REGISTER_SCRATCH]
    ensures KeptAbove(cpu.mem, c.mem, sp - 16)
  {
    hide Run, Pushes, LowerKey, WrappingSub;
    var i1, i2 := AluImm(Sub, S64, RSP, 8), AddMemImm(-80, Wrap32(LowerKey(key)));
    var i3, i4 := Mov(S64, REGISTER_SCRATCH, RCX), Load(-8, RDX);
    var push := Pushes(CALLER_SAVED_REGISTERS);
    assert StoreRoutine(key) == [i1] + ([i2] + (push + ([i3] + [i4])));
    var c2 := KeyAddedInPlace(key, value, sp, push + ([i3] + [i4]), cpu);
    RunConcat(push, [i3] + [i4], c2);
    var c3 := PushesKeep(CALLER_SAVED_REGISTERS, c2);
    RunCons(i3, [i4], c3);
    var c4 := Exec(c3, i3).cpu;
    RunOne(i4, c4);
    c := Exec(c4, i4).cpu;
  }

  /** A stored constant: half of the blinding is undone at the call site and half in the subroutine, and
      the callee gets exactly the constant, the address, and the pc and return address on the stack. */
  lemma SplitStoreIsExact(enabled: bool, key: i64, value: i64, base: Reg, offset: i64, pc: u32, back: u64, cpu: Cpu)
    returns (c: Cpu)
    requires cpu.reg[RSP] >= 96 && base != REGISTER_SCRATCH
    ensures Run(StoreSite(enabled, key, value, base, offset, pc, back) + StoreRoutine(key), cpu) == Running(c)
    ensures var sp := cpu.reg[RSP];
      && c.reg[RDX] == Wrap(value) && c.reg[RCX] == Wrap(cpu.reg[base] + Wrap(offset)) && c.reg[RSP] == sp - 88
      && At(c.mem, sp - 16) == Wide(pc) && At(c.mem, sp - 8) == back && KeptAbove(cpu.mem, c.mem, sp)
  {
    hide Run, StoreSite, StoreRoutine;
    var c1 := StoreSiteRuns(enabled, key, value, base, offset, pc, back, cpu);
    RunConcat(StoreSite(enabled, key, value, base, offset, pc, back), StoreRoutine(key), cpu);
    c := StoreRoutineRuns(key, value, cpu.reg[RSP], c1);
  }
}
