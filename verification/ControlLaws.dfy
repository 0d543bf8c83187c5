/** Where loads, stores, jumps and calls go. */
module ControlLaws {
  import opened Words
  import opened Bits
  import opened BitLaws
  import opened Branches
  import opened Ebpf
  import opened Faults
  import opened InstructionLaws
  import opened Interpreter
  import opened Metering
  import opened Verifier

  // ----- addresses -----

  /** An address is the base moved by the offset: exactly, where that is an address, and there and back again
      everywhere. */
  lemma AddressLaws(base: u64, off: i16)
    ensures 0 <= base + off < TWO64 ==> Address(base, off) == base + off
    ensures off > -0x8000 ==> Address(Address(base, off), -off) == base
  {
    var o: int := off;
    ModAdd(base + o, -o, TWO64);
  }

  /** A stored value keeps the bits that fit. */
  lemma CutLaws(bytes: nat, x: u64, k: nat)
    ensures Bit(CutTo(bytes, x), k) <==> k < 8 * bytes && Bit(x, k)
  {
    LowBits(x, 8 * bytes, k);
  }

  lemma CutTwice(bytes: nat, x: u64)
    ensures CutTo(bytes, CutTo(bytes, x)) == CutTo(bytes, x)
  {
    hide Pow2;
    SmallMod(x % Pow2(8 * bytes), Pow2(8 * bytes));
  }

  // ----- loads and stores -----

  /** What is stored and fits its size can be read back. */
  ghost predicate Remembers<M(!new)>(env: Environment<M>) {
    forall mem: M, addr: u64, bytes: nat, value: u64 ::
      CutTo(bytes, value) == value && env.store(mem, addr, bytes, value).Stored? ==>
      env.load(env.store(mem, addr, bytes, value).mem, addr, bytes) ==
      Loaded(env.store(mem, addr, bytes, value).mem, value)
  }

  ghost predicate SlotIs<M>(exe: Executable<M>, pc: nat, op: Operation) {
    && pc < Slots(exe.prog) && NamesRegisters(GetInsn(exe.prog, pc))
    && Decode(exe.version, GetInsn(exe.prog, pc).opc) == op
  }

  /** A store changes no register and puts the low bytes of its operand at destination plus offset. */
  lemma StoreLaw<M>(exe: Executable<M>, pc: nat, d: Data<M>, bytes: nat, reg: bool) returns (addr: u64, value: u64)
    requires SlotIs(exe, pc, Store(bytes, reg)) && Exec(exe, pc, d).Done?
    ensures var insn := GetInsn(exe.prog, pc);
      && addr == (d.reg[insn.dst] + insn.off) % TWO64 && value == CutTo(bytes, Wrap(Second(insn, reg, d.reg)))
      && exe.env.store(d.mem, addr, bytes, value).Stored?
      && Exec(exe, pc, d).data == Data(d.reg, exe.env.store(d.mem, addr, bytes, value).mem)
  {
    hide Decode, CutTo, GetInsn;
    var insn := GetInsn(exe.prog, pc);
    OperandIs(insn, reg, d.reg);
    addr, value := Address(d.reg[insn.dst], insn.off), CutTo(bytes, Wrap(Second(insn, reg, d.reg)));
  }

  /** A load gives its destination what the memory holds at source plus offset. */
  lemma LoadLaw<M>(exe: Executable<M>, pc: nat, d: Data<M>, bytes: nat)
    requires SlotIs(exe, pc, Load(bytes))
    ensures var insn := GetInsn(exe.prog, pc);
      Exec(exe, pc, d) ==
        match exe.env.load(d.mem, (d.reg[insn.src] + insn.off) % TWO64, bytes)
        case Loaded(mem, value) => Done(Data(d.reg[insn.dst := value], mem))
        case LoadFault(code) => Failed(AccessViolation(code))
  {
    hide Decode, GetInsn;
  }

  /** A load of the size of a store from where that put its operand reads the operand's low bytes. */
  lemma StoreThenLoad<M(!new)>(exe: Executable<M>, pc: nat, pc': nat, d: Data<M>, bytes: nat, reg: bool)
    requires SlotIs(exe, pc, Store(bytes, reg)) && SlotIs(exe, pc', Load(bytes)) && Remembers(exe.env)
    requires Exec(exe, pc, d).Done?
    requires var store, load := GetInsn(exe.prog, pc), GetInsn(exe.prog, pc');
      (d.reg[load.src] + load.off) % TWO64 == (d.reg[store.dst] + store.off) % TWO64
    ensures var store, load := GetInsn(exe.prog, pc), GetInsn(exe.prog, pc');
      var stored := Exec(exe, pc, d).data;
      && stored.reg == d.reg
      && Exec(exe, pc', stored) ==
         Done(Data(d.reg[load.dst := CutTo(bytes, Wrap(Second(store, reg, d.reg)))], stored.mem))
  {
    hide Decode, CutTo, GetInsn, Exec, Wrap;
    var addr, value := StoreLaw(exe, pc, d, bytes, reg);
    LoadLaw(exe, pc', Exec(exe, pc, d).data, bytes);
    CutTwice(bytes, Wrap(Second(GetInsn(exe.prog, pc), reg, d.reg)));
    assert exe.env.load(exe.env.store(d.mem, addr, bytes, value).mem, addr, bytes) ==
           Loaded(exe.env.store(d.mem, addr, bytes, value).mem, value);
  }

  // ----- jumps -----

  /** A jump whose offset is the distance from the next slot goes to that slot. */
  lemma JumpLaw<M>(exe: Executable<M>, pc: nat, t: nat)
    requires pc < Slots(exe.prog) && GetInsn(exe.prog, pc).off == t - (pc + 1) && t < TWO64
    ensures Decode(exe.version, GetInsn(exe.prog, pc).opc) == JumpAlways ==> SlotAt(exe, pc) == Jump(t)
    ensures Decode(exe.version, GetInsn(exe.prog, pc).opc).JumpIf? ==> SlotAt(exe, pc) == Branch(t)
  {
    hide Decode, GetInsn;
    SmallMod(t, TWO64);
  }

  /** A conditional jump is taken exactly when the processor's flags would say so. */
  lemma TakenLaw<M>(exe: Executable<M>, pc: nat, d: Data<M>, c: Condition, wide: bool, reg: bool)
    requires SlotIs(exe, pc, JumpIf(c, wide, reg))
    ensures var insn := GetInsn(exe.prog, pc);
      Taken(exe, pc, d) <==> CompiledBranch(c, wide, d.reg[insn.dst], Second(insn, reg, d.reg) % TWO64)
  {
    hide Decode, CompiledBranch;
    var insn := GetInsn(exe.prog, pc);
    OperandIs(insn, reg, d.reg);
    BranchRefinesInterpreter(c, wide, d.reg[insn.dst], Operand(insn, reg, d.reg));
  }

  // ----- calls -----

  /** The register that a register call reads */
  function TargetRegister(v: Version, insn: Insn): int {
    if v == V2 then insn.src else if v == V0 || v == V1 then insn.imm else insn.dst
  }

  /** A register that holds the address of slot `k` calls slot `k`. */
  lemma CalleeLaw<M>(exe: Executable<M>, pc: nat, d: Data<M>, k: nat)
    requires pc < Slots(exe.prog) && k < TWO64 / INSN_SIZE
    requires 0 <= TargetRegister(exe.version, GetInsn(exe.prog, pc)) <= 10
    requires d.reg[TargetRegister(exe.version, GetInsn(exe.prog, pc))] == (exe.vmAddr + INSN_SIZE * k) % TWO64
    ensures Callee(exe, pc, d) == k
  {
    var start: int := exe.vmAddr;
    ModAdd(start + INSN_SIZE * k, -start, TWO64);
  }

  /** From version 3 on, calls with source 1 go to the slot their immediate is the distance to, calls with source
      0 to the syscall of that key, and no call to both. */
  lemma StaticCallLaw<M>(exe: Executable<M>, pc: nat, t: int)
    requires pc < Slots(exe.prog) && Decode(exe.version, GetInsn(exe.prog, pc).opc) == CallImm
    requires exe.version in {V3, V4, Reserved} && GetInsn(exe.prog, pc).imm == t - (pc + 1)
    ensures var insn := GetInsn(exe.prog, pc);
      SlotAt(exe, pc) ==
        if insn.src == 0 then Call(insn.imm % TWO32 in exe.syscalls, None)
        else Call(false, if insn.src == 1 && 0 <= t < Slots(exe.prog) then Some(t) else None)
  {
    hide Decode, GetInsn;
  }

  /** Before, the immediate is a key of both registries. */
  lemma KeyedCallLaw<M>(exe: Executable<M>, pc: nat, key: u32)
    requires pc < Slots(exe.prog) && Decode(exe.version, GetInsn(exe.prog, pc).opc) == CallImm
    requires exe.version in {V0, V1, V2} && GetInsn(exe.prog, pc).imm % TWO32 == key
    ensures SlotAt(exe, pc) ==
      Call(key in exe.syscalls, if key in exe.functions then Some(exe.functions[key]) else None)
  {
    hide Decode, GetInsn;
  }

  /** A wide load whose two immediates are the halves of `x` loads `x`, and nothing else changes. */
  lemma WideLoadLaw<M>(exe: Executable<M>, pc: nat, d: Data<M>, x: i64)
    requires SlotIs(exe, pc, LoadWide) && pc + 1 < Slots(exe.prog)
    requires GetInsn(exe.prog, pc).imm == Signed32(Wrap32(x)) && GetInsn(exe.prog, pc + 1).imm == x / TWO32
    ensures LoadImmediate(exe, pc, d) == Data(d.reg[GetInsn(exe.prog, pc).dst := Wrap(x)], d.mem)
  {
    hide Decode, GetInsn, AugmentLddw, Merge, Wrap, Wrap32, Signed32;
    AugmentIsMerge(exe.prog, pc, GetInsn(exe.prog, pc).imm);
    LddwRoundTrip(x);
  }
}
