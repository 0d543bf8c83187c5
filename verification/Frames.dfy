/** Calls, returns and the frame pointer over whole runs of verified programs. */
module Frames {
  import opened Words
  import opened Bits
  import opened Ebpf
  import opened Alu
  import opened Faults
  import opened Metering
  import opened Verifier
  import opened Interpreter
  import opened Safety
  import MemoryRegion

  type Vm<M> = State<Data<M>, CallerSaved>

  // ----- the shape of a step -----

  /** Instructions without calls keep the frame pointer, up to aligned bumps where versions allow them. */
  ghost predicate KeepsFrame(v: Version, r: Registers, r': Registers) {
    if v.ManualStackFrameBump() then r'[10] % 64 == r[10] % 64 else r'[10] == r[10]
  }

  ghost predicate Pushes<M>(exe: Executable<M>, s: Vm<M>, s': Vm<M>) {
    && s'.frames == s.frames + [Frame(Save(s.data), s.pc + 1)]
    && s'.data.reg == Enter(exe, s.data).reg[0 := s'.data.reg[0]]
  }

  ghost predicate Pops<M>(s: Vm<M>, s': Vm<M>) {
    var k := |s.frames| - 1;
    && k >= 0 && s'.frames == s.frames[..k] && s'.pc == s.frames[k].returnPc
    && s'.data == Restore(s.data, s.frames[k].saved)
  }

  ghost predicate StepShape<M>(exe: Executable<M>, s: Vm<M>, s': Vm<M>) {
    || (s'.frames == s.frames && KeepsFrame(exe.version, s.data.reg, s'.data.reg))
    || Pushes(exe, s, s')
    || Pops(s, s')
  }

  /** Straight-line instructions write registers 0 to 9, or bump the frame pointer by a multiple of 64. */
  lemma ExecKeepsFrame<M(!new)>(exe: Executable<M>, pc: nat, d: Data<M>)
    requires Loadable(exe) && pc < Slots(exe.prog) && SlotAt(exe, pc) == Straight && Exec(exe, pc, d).Done?
    ensures KeepsFrame(exe.version, d.reg, Exec(exe, pc, d).data.reg)
  {
    hide Verified, Decode, GetInsn, Compute;
    CheckedAt(exe, pc);
    var insn := GetInsn(exe.prog, pc);
    if BumpsFrame(exe.version, Decode(exe.version, insn.opc), insn) {
      BumpIsAligned(exe.version, insn, d.reg);
    }
  }

  lemma BumpIsAligned(v: Version, insn: Insn, d: Registers)
    requires NamesRegisters(insn) && insn.imm % 64 == 0
    ensures var c := Compute(v, Alu(Add, true, false), insn, d); c.Value? && c.value % 64 == d[insn.dst] % 64
  {
    hide Or64, Shl64, SwapBytes, Truncated;
    AlignedSum(d[insn.dst], insn.imm);
  }

  lemma AlignedSum(a: u64, imm: i64)
    requires imm % 64 == 0
    ensures Wrap(a + Wrap(imm)) % 64 == a % 64
  {
    var b := Wrap(imm);
    assert b % 64 == 0;
    assert Wrap(a + b) == a + b || Wrap(a + b) == a + b - TWO64;
  }

  lemma LoadKeepsFrame<M(!new)>(exe: Executable<M>, pc: nat, d: Data<M>)
    requires Loadable(exe) && pc < Slots(exe.prog) && SlotAt(exe, pc) == Lddw
    ensures KeepsFrame(exe.version, d.reg, LoadImmediate(exe, pc, d).reg)
  {
    hide Verified, Decode, GetInsn, AugmentLddw;
    CheckedAt(exe, pc);
  }

  lemma CallHasShape<M(!new)>(exe: Executable<M>, s: Vm<M>)
    requires WellFormed(MachineOf(exe)) && MeterOk(MachineOf(exe), s) && Step(MachineOf(exe), s).Continue?
    requires s.pc < Slots(exe.prog) && (SlotAt(exe, s.pc).Call? || SlotAt(exe, s.pc) == CallReg)
    ensures StepShape(exe, s, Step(MachineOf(exe), s).state)
  {
    hide WellFormed, Exec, LoadImmediate, Taken, Callee, SlotAt, GetInsn, Restore, FrameStride, Pops;
  }

  lemma StepHasShape<M(!new)>(exe: Executable<M>, s: Vm<M>)
    requires Loadable(exe) && WellFormed(MachineOf(exe)) && MeterOk(MachineOf(exe), s)
    requires Step(MachineOf(exe), s).Continue?
    ensures StepShape(exe, s, Step(MachineOf(exe), s).state)
  {
    hide Loadable, WellFormed, Exec, LoadImmediate, Taken, Callee, SlotAt;
    hide GetInsn, Save, Enter, Restore, Syscall, Pushes;
    if SlotAt(exe, s.pc) == Straight {
      ExecKeepsFrame(exe, s.pc, s.data);
    } else if SlotAt(exe, s.pc) == Lddw {
      LoadKeepsFrame(exe, s.pc, s.data);
    } else if SlotAt(exe, s.pc).Call? || SlotAt(exe, s.pc) == CallReg {
      CallHasShape(exe, s);
    }
  }

  // ----- matching calls and returns -----

  /** The first `n` states of the run have more than `d` frames, and the next one has not. */
  ghost predicate FirstReturn<D(!new), F>(m: Machine<D, F>, s: State<D, F>, n: nat, d: nat)
    requires WellFormed(m) && MeterOk(m, s)
  {
    && (forall k: nat :: k < n ==> After(m, s, k).Some? && |After(m, s, k).value.frames| > d)
    && After(m, s, n).Some? && |After(m, s, n).value.frames| <= d
  }

  lemma {:induction false} ReturnRestores<M(!new)>(exe: Executable<M>, s: Vm<M>, n: nat, d: nat)
    requires Loadable(exe) && WellFormed(MachineOf(exe)) && MeterOk(MachineOf(exe), s)
    requires |s.frames| > d && FirstReturn(MachineOf(exe), s, n, d)
    ensures After(MachineOf(exe), s, n).Some?
    ensures var t := After(MachineOf(exe), s, n).value;
      && t.frames == s.frames[..d] && t.pc == s.frames[d].returnPc
      && t.data.reg[6..10] == s.frames[d].saved.scratch && t.data.reg[10] == s.frames[d].saved.framePointer
    decreases n
  {
    hide Loadable, WellFormed, MachineOf, Step, KeepsFrame, Enter, Save;
    var m := MachineOf(exe);
    assert After(m, s, 0) == Some(s);
    StepSpends(m, s);
    StepHasShape(exe, s);
    var s' := Step(m, s).state;
    assert forall k: nat :: After(m, s, k + 1) == After(m, s', k);
    if n == 1 {
      assert After(m, s', 0) == Some(s');
    } else {
      assert After(m, s, 1) == After(m, s', 0) == Some(s');
      assert s'.frames[..d] == s.frames[..d] && s'.frames[d] == s.frames[d];
      ReturnRestores(exe, s', n - 1, d);
    }
  }

  /** When the call that a step makes returns, registers 6 to 10 are as before the call, the caller
      goes on behind it, and the calls still open are those that were open then. */
  lemma ExitRestores<M(!new)>(exe: Executable<M>, s: Vm<M>, n: nat)
    requires Loadable(exe) && WellFormed(MachineOf(exe)) && MeterOk(MachineOf(exe), s)
    requires Step(MachineOf(exe), s).Continue? && |Step(MachineOf(exe), s).state.frames| > |s.frames|
    requires MeterOk(MachineOf(exe), Step(MachineOf(exe), s).state)
    requires FirstReturn(MachineOf(exe), Step(MachineOf(exe), s).state, n, |s.frames|)
    ensures After(MachineOf(exe), Step(MachineOf(exe), s).state, n).Some?
    ensures var t := After(MachineOf(exe), Step(MachineOf(exe), s).state, n).value;
      && t.pc == s.pc + 1 && t.frames == s.frames
      && t.data.reg[6..11] == s.data.reg[6..11]
  {
    hide Loadable, WellFormed, MachineOf, Step, KeepsFrame, Enter, FirstReturn;
    var m := MachineOf(exe);
    StepHasShape(exe, s);
    var s' := Step(m, s).state;
    assert s'.frames[..|s.frames|] == s.frames;
    ReturnRestores(exe, s', n, |s.frames|);
    var t := After(m, s', n).value;
    assert t.data.reg[6..11] == t.data.reg[6..10] + [t.data.reg[10]];
    assert s.data.reg[6..11] == s.data.reg[6..10] + [s.data.reg[10]];
  }

  // ----- the frame pointer -----

  /** Where the frame pointer of a call at depth `d` is, in versions with frames of fixed size */
  ghost function FixedPointer<M>(exe: Executable<M>, base: u64, d: nat): u64 {
    Wrap(base + d * FrameStride(exe))
  }

  /** The frame pointer and all saved ones are at the place of their depth. */
  ghost predicate FixedFrames<M>(exe: Executable<M>, base: u64, s: Vm<M>) {
    && s.data.reg[10] == FixedPointer(exe, base, |s.frames|)
    && forall i :: 0 <= i < |s.frames| ==> s.frames[i].saved.framePointer == FixedPointer(exe, base, i)
  }

  ghost predicate AlignedFrames<M>(base: u64, s: Vm<M>) {
    && s.data.reg[10] % 64 == base % 64
    && forall i :: 0 <= i < |s.frames| ==> s.frames[i].saved.framePointer % 64 == base % 64
  }

  ghost predicate FramesOk<M>(exe: Executable<M>, base: u64, s: Vm<M>) {
    if exe.version.ManualStackFrameBump() then AlignedFrames(base, s) else FixedFrames(exe, base, s)
  }

  lemma NextPointer<M>(exe: Executable<M>, base: u64, d: nat)
    ensures Wrap(FixedPointer(exe, base, d) + FrameStride(exe)) == FixedPointer(exe, base, d + 1)
  {
    var stride := FrameStride(exe);
    assert (d + 1) * stride == d * stride + stride;
    ModAdd(base + d * stride, stride, TWO64);
  }

  lemma ShapeKeepsFrames<M>(exe: Executable<M>, base: u64, s: Vm<M>, s': Vm<M>)
    requires FramesOk(exe, base, s) && StepShape(exe, s, s')
    ensures FramesOk(exe, base, s')
  {
    hide FixedPointer, FrameStride;
    NextPointer(exe, base, |s.frames|);
  }

  /** In every state of every run of a verified program the frame pointer is the initial one plus
      the depth times the distance of frames, or congruent to it modulo 64 in versions where
      programs bump it themselves. */
  lemma {:induction false} FramePointers<M(!new)>(exe: Executable<M>, base: u64, s: Vm<M>, n: nat)
    requires Loadable(exe) && WellFormed(MachineOf(exe)) && MeterOk(MachineOf(exe), s) && FramesOk(exe, base, s)
    ensures After(MachineOf(exe), s, n).Some? ==> FramesOk(exe, base, After(MachineOf(exe), s, n).value)
    decreases n
  {
    hide Loadable, WellFormed, MachineOf, Step, FramesOk, StepShape;
    var m := MachineOf(exe);
    if n > 0 && Step(m, s).Continue? {
      StepSpends(m, s);
      StepHasShape(exe, s);
      ShapeKeepsFrames(exe, base, s, Step(m, s).state);
      FramePointers(exe, base, Step(m, s).state, n - 1);
    }
  }

  // ----- frames in the stack region -----

  /** The stack region of an executable: one frame per call, with gaps if its version has them */
  ghost predicate IsStackRegion<M>(exe: Executable<M>, r: MemoryRegion.Region) {
    && r.vmAddr == MM_STACK_START && r.writable && MemoryRegion.HostSliceValid(r)
    && r.len == exe.config.stackFrameSize * exe.config.maxCallDepth && MM_STACK_START + 2 * r.len <= U64_MAX
    && if exe.version.StackFrameGaps() && exe.config.enableStackFrameGaps
       then MemoryRegion.Gapped(r) && Pow2(r.gapShift) == exe.config.stackFrameSize
       else r.gapShift == MemoryRegion.CONTINUOUS
  }

  lemma FrameInStack<M>(exe: Executable<M>, r: MemoryRegion.Region, d: nat, k: nat)
    requires IsStackRegion(exe, r) && d < exe.config.maxCallDepth && k < exe.config.stackFrameSize
    ensures var f := exe.config.stackFrameSize;
      && d * f + k < r.len
      && MM_STACK_START + d * FrameStride(exe) + f <= U64_MAX
      && MemoryRegion.VmToHost(r, MemoryRegion.Store, MM_STACK_START + d * FrameStride(exe) + k, 1)
         == Some(r.hostAddr + d * f + k)
  {
    hide Pow2, MemoryRegion.VmToHost, MemoryRegion.HostSliceValid, MemoryRegion.Gapped, FrameStride;
    var gapped := exe.version.StackFrameGaps() && exe.config.enableStackFrameGaps;
    FrameInRegion(r, exe.config.stackFrameSize, exe.config.maxCallDepth, gapped, d, k);
    StrideOf(exe, d);
  }

  lemma FrameInRegion(r: MemoryRegion.Region, f: nat, max: nat, gapped: bool, d: nat, k: nat)
    requires r.vmAddr == MM_STACK_START && r.writable && MemoryRegion.HostSliceValid(r)
    requires r.len == f * max && MM_STACK_START + 2 * r.len <= U64_MAX && d < max && k < f
    requires if gapped then MemoryRegion.Gapped(r) && Pow2(r.gapShift) == f else r.gapShift == MemoryRegion.CONTINUOUS
    ensures var at := if gapped then (2 * d) * f else d * f;
      && d * f + k < r.len && at >= 0 && MM_STACK_START + at + f <= U64_MAX
      && MemoryRegion.VmToHost(r, MemoryRegion.Store, MM_STACK_START + at + k, 1) == Some(r.hostAddr + d * f + k)
  {
    hide Pow2, MemoryRegion.VmToHost, MemoryRegion.Gapped;
    FrameBelow(d, max, f, k);
    FrameBelow(d, max, f, f - 1);
    ProductOfNats(d, f);
    assert (2 * d) * f == 2 * (d * f);
    if gapped {
      GappedFrame(r, d, f, k);
    } else {
      MemoryRegion.ContinuousTranslation(r, MemoryRegion.Store, MM_STACK_START + d * f + k, 1);
    }
  }

  lemma StrideOf<M>(exe: Executable<M>, d: nat)
    ensures var f := exe.config.stackFrameSize;
      d * FrameStride(exe) ==
      if exe.version.StackFrameGaps() && exe.config.enableStackFrameGaps then (2 * d) * f else d * f
  {
  }

  lemma GappedFrame(r: MemoryRegion.Region, d: nat, f: nat, k: nat)
    requires MemoryRegion.Gapped(r) && Pow2(r.gapShift) == f && r.writable && MemoryRegion.HostSliceValid(r)
    requires k < f && d * f + k < r.len && r.vmAddr + (2 * d) * f + k <= U64_MAX
    ensures MemoryRegion.VmToHost(r, MemoryRegion.Store, r.vmAddr + (2 * d) * f + k, 1) == Some(r.hostAddr + d * f + k)
  {
    hide Pow2, MemoryRegion.VmToHost;
    ProductOfNats(2 * d, f);
    DivModUnique((2 * d) * f + k, f, 2 * d, k);
    MemoryRegion.GappedTranslation(r, MemoryRegion.Store, r.vmAddr + (2 * d) * f + k, 1);
  }

  lemma FrameBelow(d: nat, max: nat, f: nat, k: nat)
    requires d < max && k < f
    ensures d * f + k < f * max
  {
    assert f * max == (max - d - 1) * f + d * f + f;
  }

  /** In versions with fixed frames, the bytes of the frame below the frame pointer are the bytes of
      host frame number `depth`. */
  lemma FrameOnHost<M>(exe: Executable<M>, r: MemoryRegion.Region, s: Vm<M>, k: nat)
    requires IsStackRegion(exe, r) && !exe.version.ManualStackFrameBump() && |s.frames| < exe.config.maxCallDepth
    requires FramesOk(exe, SatAdd(MM_STACK_START, exe.config.stackFrameSize), s)
    requires k < exe.config.stackFrameSize < TWO63
    ensures var f: int := exe.config.stackFrameSize;
      && s.data.reg[10] >= f && s.data.reg[10] - f + k <= U64_MAX
      && MemoryRegion.VmToHost(r, MemoryRegion.Store, s.data.reg[10] - f + k, 1)
         == Some(r.hostAddr + |s.frames| * f + k)
  {
    hide FrameStride, MemoryRegion.VmToHost;
    var f, d := exe.config.stackFrameSize, |s.frames|;
    FrameInStack(exe, r, d, k);
    assert s.data.reg[10] == MM_STACK_START + f + d * FrameStride(exe);
  }

  /** Byte `j` of the frame of `s` and byte `k` of the frame of `t` have different host bytes. */
  ghost predicate HostBytesDiffer<M>(exe: Executable<M>, r: MemoryRegion.Region, s: Vm<M>, t: Vm<M>, j: nat, k: nat) {
    var f: int := exe.config.stackFrameSize;
    && 0 <= s.data.reg[10] - f + j <= U64_MAX && 0 <= t.data.reg[10] - f + k <= U64_MAX
    && var a := MemoryRegion.VmToHost(r, MemoryRegion.Store, s.data.reg[10] - f + j, 1);
       var b := MemoryRegion.VmToHost(r, MemoryRegion.Store, t.data.reg[10] - f + k, 1);
       a.Some? && b.Some? && a != b
  }

  /** So frames of different depths never share a host byte. */
  lemma FramesAreDisjoint<M>(exe: Executable<M>, r: MemoryRegion.Region, s: Vm<M>, t: Vm<M>, j: nat, k: nat)
    requires IsStackRegion(exe, r) && !exe.version.ManualStackFrameBump()
    requires |s.frames| < exe.config.maxCallDepth && |t.frames| < exe.config.maxCallDepth && |s.frames| != |t.frames|
    requires FramesOk(exe, SatAdd(MM_STACK_START, exe.config.stackFrameSize), s)
    requires FramesOk(exe, SatAdd(MM_STACK_START, exe.config.stackFrameSize), t)
    requires j < exe.config.stackFrameSize < TWO63 && k < exe.config.stackFrameSize
    ensures HostBytesDiffer(exe, r, s, t, j, k)
  {
    hide MemoryRegion.VmToHost, FramesOk, IsStackRegion;
    FrameOnHost(exe, r, s, j);
    FrameOnHost(exe, r, t, k);
    if |s.frames| * exe.config.stackFrameSize + j == |t.frames| * exe.config.stackFrameSize + k {
      QuotientUnique(exe.config.stackFrameSize, |s.frames|, j, |t.frames|, k);
    }
  }

  lemma FrameSizeBound<M(!new)>(exe: Executable<M>, r: MemoryRegion.Region)
    requires Loadable(exe) && IsStackRegion(exe, r)
    ensures exe.config.stackFrameSize <= r.len < TWO63
  {
    hide Loadable, Pow2, MemoryRegion.HostSliceValid, MemoryRegion.Gapped;
    RoomForFrame(exe);
    OneOfMany(exe.config.stackFrameSize, exe.config.maxCallDepth);
  }

  lemma OneOfMany(size: nat, count: nat)
    requires count >= 1
    ensures size <= size * count
  {
  }

  /** From the first frame pointer on: the frames of any two states of one run at different depths share no
      host byte. */
  lemma RunFramesDisjoint<M(!new)>(exe: Executable<M>, r: MemoryRegion.Region, stackLen: u64, entry: nat, budget: nat,
                                   data: Data<M>, m: nat, n: nat, j: nat, k: nat)
    requires Loadable(exe) && entry < Slots(exe.prog) && budget + Slots(exe.prog) + 2 < TWO63
    requires IsStackRegion(exe, r) && !exe.version.ManualStackFrameBump() && exe.config.stackFrameSize < TWO64
    requires data.reg[10] == FirstPointer(exe, stackLen)
    requires j < exe.config.stackFrameSize && k < exe.config.stackFrameSize
    ensures WellFormed(MachineOf(exe))
    ensures var s0 := Initial<Data<M>, CallerSaved>(entry, budget, data);
      var s, t := After(MachineOf(exe), s0, m), After(MachineOf(exe), s0, n);
      s.Some? && t.Some? && |s.value.frames| != |t.value.frames| ==> HostBytesDiffer(exe, r, s.value, t.value, j, k)
  {
    FrameSizeBound(exe, r);
    VerifiedWellFormed(exe);
    RoomForFrame(exe);
    hide Loadable, WellFormed, MachineOf, After, FramesOk, IsStackRegion, HostBytesDiffer;
    var s0 := Initial<Data<M>, CallerSaved>(entry, budget, data);
    FirstFrame(exe, s0, stackLen);
    MachineShape(exe);
    var base := SatAdd(MM_STACK_START, exe.config.stackFrameSize);
    AfterInside(MachineOf(exe), s0, m);
    AfterInside(MachineOf(exe), s0, n);
    FramePointers(exe, base, s0, m);
    FramePointers(exe, base, s0, n);
    var s, t := After(MachineOf(exe), s0, m), After(MachineOf(exe), s0, n);
    if s.Some? && t.Some? && |s.value.frames| != |t.value.frames| {
      FramesAreDisjoint(exe, r, s.value, t.value, j, k);
    }
  }

  lemma RoomForFrame<M(!new)>(exe: Executable<M>)
    requires Loadable(exe)
    ensures exe.config.maxCallDepth >= 1
  {
  }

  lemma MachineShape<M>(exe: Executable<M>)
    ensures |MachineOf(exe).prog| == Slots(exe.prog) && MachineOf(exe).maxCallDepth == exe.config.maxCallDepth
  {
  }

  lemma FirstFrame<M>(exe: Executable<M>, s: Vm<M>, stackLen: u64)
    requires s.frames == [] && exe.config.stackFrameSize < TWO64 && s.data.reg[10] == FirstPointer(exe, stackLen)
    requires !exe.version.ManualStackFrameBump()
    ensures FramesOk(exe, SatAdd(MM_STACK_START, exe.config.stackFrameSize), s)
  {
    assert 0 * FrameStride(exe) == 0;
  }
}
