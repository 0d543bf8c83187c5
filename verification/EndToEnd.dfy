/** Verified programs, compiled and interpreted. */
module EndToEnd {
  import opened Words
  import Bits
  import opened Ebpf
  import Verifier
  import opened Metering
  import opened JitCode
  import opened JitCompiler
  import opened JitRefinement
  import opened JitTheorem
  import opened JitText
  import opened JitBytes
  import JumpPatching
  import opened Interpreter

  /** The slots of a verified program are laid out in pairs as the compile loop needs them. */
  lemma VerifiedPaired<M(!new)>(exe: Executable<M>)
    requires Loadable(exe)
    ensures Paired(SlotsOf(exe))
  {
    hide Loadable, SlotAt;
    var slots := SlotsOf(exe);
    forall pc | 0 <= pc < |slots|
      ensures slots[pc] == Lddw ==> BeforeTail(slots, pc)
      ensures slots[pc] == LddwTail ==> BehindLddw(slots, pc)
    {
      VerifiedSlot(exe, pc);
    }
  }

  /** A start of the program that leaves the meter room */
  ghost predicate CanStart<M>(exe: Executable<M>, entry: nat, budget: nat) {
    entry < Slots(exe.prog) && budget + Slots(exe.prog) + 2 < TWO63
  }

  /** An outcome of compiled code ends the run like the interpreter and reports the same number of
      instructions, if and only if the run does not return past the end of the program, and no run does
      if the last slot is not an internal call. */
  ghost predicate EndsAlike<M(!new)>(exe: Executable<M>, distance: nat, entry: nat, budget: nat, data: Data<M>,
                                     o: Outcome<Data<M>>)
    requires WellFormed(MachineOf(exe)) && CanStart(exe, entry, budget)
  {
    var m := MachineOf(exe);
    var s := Initial<Data<M>, CallerSaved>(entry, budget, data);
    && (Matches(Run(m, s), o, distance) <==> !ReturnsPastEnd(m, s))
    && (!ReturnsPastEnd(m, s) ==> Reported(o, budget) == RunCost(m, s))
    && (NoTrailingCall(m.prog) ==> !ReturnsPastEnd(m, s))
  }

  /** Block by block, compiled code ends every run of a verified program like the interpreter. */
  lemma VerifiedBlocks<M(!new)>(exe: Executable<M>, distance: nat, entry: nat, budget: nat, data: Data<M>)
    returns (fuel: nat, o: Outcome<Data<M>>)
    requires Loadable(exe) && CanStart(exe, entry, budget)
    ensures WellFormed(MachineOf(exe)) && EndsAlike(exe, distance, entry, budget, data, o)
    ensures RunHost(MachineOf(exe), distance, JitTheorem.Invoked(entry, budget, data), fuel) == Some(o)
  {
    VerifiedWellFormed(exe);
    hide Loadable, WellFormed, RunHost, Run, RunCost, ReturnsPastEnd;
    var m := MachineOf(exe);
    var s := Initial<Data<M>, CallerSaved>(entry, budget, data);
    fuel, o := JitRefinesInterpreter(m, distance, entry, budget, data);
    ReportedCount(m, s);
    if NoTrailingCall(m.prog) {
      NeverPastEnd(m, s);
    }
  }

  /** Registers as `invoke` sets them, at the position recorded for the entry slot */
  function Entered<M>(text: seq<HostOp>, sections: seq<nat>, entry: nat, budget: nat, data: Data<M>)
    : Host<Data<M>, CallerSaved>
    requires entry + budget < TWO64
  {
    JitTheorem.Invoked(entry, budget, data).(pc := SectionOf(text, sections, entry))
  }

  lemma EnteredMirrors<M>(c: Output, entry: nat, budget: nat, data: Data<M>)
    requires Compiled(c) && entry < |c.prog| && entry + budget < TWO64
    ensures Mirrors(c, JitTheorem.Invoked(entry, budget, data), Entered(c.text, c.sections, entry, budget, data))
  {
    hide Compiled, Mirrors;
    var h: Host<Data<M>, CallerSaved> := JitTheorem.Invoked(entry, budget, data);
    Arrives(c, h, h, entry);
  }

  /** Whatever a verified program does, the compiled text, run from the position of its entry, ends it like
      the interpreter. */
  lemma VerifiedJit<M(!new)>(exe: Executable<M>, c: Output, entry: nat, budget: nat, data: Data<M>)
    returns (fuel: nat, o: Outcome<Data<M>>)
    requires Loadable(exe) && CanStart(exe, entry, budget) && Compiled(c) && c.prog == SlotsOf(exe)
    ensures WellFormed(MachineOf(exe)) && EndsAlike(exe, c.distance, entry, budget, data, o)
    ensures RunText(MachineOf(exe), c.text, c.sections, Entered(c.text, c.sections, entry, budget, data), fuel)
      == Some(o)
  {
    hide Loadable, WellFormed, RunHost, RunText, EndsAlike, Compiled, Mirrors;
    fuel, o := VerifiedBlocks(exe, c.distance, entry, budget, data);
    EnteredMirrors(c, entry, budget, data);
    fuel := TextRunsBlocks(MachineOf(exe), c, JitTheorem.Invoked(entry, budget, data),
                           Entered(c.text, c.sections, entry, budget, data), fuel);
  }

  /** The run of a text from an entry ends, and ends alike. */
  ghost predicate RunsAlike<M(!new)>(exe: Executable<M>, distance: nat, text: seq<HostOp>, sections: seq<nat>,
                                     entry: nat, budget: nat, data: Data<M>)
    requires WellFormed(MachineOf(exe)) && CanStart(exe, entry, budget)
  {
    exists fuel, o ::
      && RunText(MachineOf(exe), text, sections, Entered(text, sections, entry, budget, data), fuel) == Some(o)
      && EndsAlike(exe, distance, entry, budget, data, o)
  }

  /** Compiles a verified program: every run of the text ends like the interpreter's. */
  method CompileVerified<M(!new)>(exe: Executable<M>, distance: nat)
    returns (text: seq<HostOp>, sections: seq<nat>, end: nat)
    requires Loadable(exe)
    ensures |sections| == Slots(exe.prog) && WellFormed(MachineOf(exe))
    ensures Compiled(Output(SlotsOf(exe), distance, text, sections, end))
    ensures forall entry: nat, budget: nat, data: Data<M> :: CanStart(exe, entry, budget) ==>
      RunsAlike(exe, distance, text, sections, entry, budget, data)
  {
    hide Loadable, WellFormed, RunText, EndsAlike, SlotsOf, CanStart;
    VerifiedPaired(exe);
    VerifiedWellFormed(exe);
    var compiler := new JitCompiler(SlotsOf(exe), distance);
    end := compiler.Compile();
    text, sections := compiler.text, compiler.pcSection[..];
    ghost var c := Output(SlotsOf(exe), distance, text, sections, end);
    forall entry: nat, budget: nat, data: Data<M> | CanStart(exe, entry, budget)
      ensures RunsAlike(exe, distance, text, sections, entry, budget, data)
    {
      var fuel, o := VerifiedJit(exe, c, entry, budget, data);
    }
  }

  // ----- down to the bytes -----

  /** Compiles a verified program into a code buffer whose subroutines are in place: every operation of the
      text, up to the end of the overrun handler, has its bytes in the buffer, and every patched jump leads to
      the bytes of the position that running the text goes to. */
  method CompileToBytes<M(!new)>(exe: Executable<M>, distance: nat, enc: Encoder, buffer: JumpPatching.CodeBuffer,
                                 handler: nat)
    returns (text: seq<HostOp>, sections: seq<nat>, end: nat)
    requires Loadable(exe) && buffer.Valid() && buffer.jumps == [] && buffer.sites == []
    requires buffer.pcSection.Length == Slots(exe.prog) && buffer.pcSection[..] == seq(Slots(exe.prog), _ => 0)
    requires 0 < handler < buffer.offset < TWO31
    requires var items := SlotItems(enc, SlotsOf(exe), distance);
      buffer.offset + JumpPatching.ProgramLength(items) <= buffer.text.Length
    modifies buffer, buffer.text, buffer.pcSection
    ensures |sections| == Slots(exe.prog) && end <= |text| && WellFormed(MachineOf(exe))
    ensures forall entry: nat, budget: nat, data: Data<M> :: CanStart(exe, entry, budget) ==>
      RunsAlike(exe, distance, text, sections, entry, budget, data)
    ensures var c := Output(SlotsOf(exe), distance, text, sections, end);
      forall p :: 0 < p < |text| ==> Encoded(enc, c, old(buffer.offset), handler, buffer.text[..], p)
  {
    hide Loadable, WellFormed, RunsAlike, CanStart, Encoded, SlotItems, JumpPatching.Resolved, JumpPatching.Extends;
    hide JumpPatching.Inv, JumpPatching.ProgramLength, JumpPatching.ProgramSites, JumpPatching.ProgramSkeleton;
    hide JumpPatching.TargetsInside, Compiled, Paired, SlotsOf, MachineOf, Patched;
    text, sections, end := CompileVerified(exe, distance);
    var slots := SlotsOf(exe);
    VerifiedPaired(exe);
    VerifiedSlots(exe);
    ghost var c, base, first := Output(slots, distance, text, sections, end), buffer.offset, buffer.text[..];
    EndsAtEnd(c);
    TargetsAreSlots(enc, slots, distance);
    ItemsPerSlot(enc, slots, distance);
    buffer.Compile(SlotItems(enc, slots, distance), Tails(slots), handler);
    BufferPatched(enc, c, base, handler, first, buffer.text[..], buffer.pcSection[..], buffer.sites);
    forall p | 0 < p < |text| ensures Encoded(enc, c, base, handler, buffer.text[..], p) {
      TextEncoded(enc, c, base, handler, buffer.text[..], buffer.pcSection[..], p);
    }
  }

  lemma VerifiedSlots<M(!new)>(exe: Executable<M>)
    requires Loadable(exe)
    ensures forall pc :: 0 <= pc < Slots(exe.prog) ==> SlotOk(SlotsOf(exe), pc)
  {
    VerifiedWellFormed(exe);
    assert MachineOf(exe).prog == SlotsOf(exe);
    hide Loadable, SlotOk, SlotsOf;
  }

  lemma ItemsPerSlot(enc: Encoder, prog: seq<Slot>, distance: nat)
    ensures |SlotItems(enc, prog, distance)| == |prog| + 1 && |Tails(prog)| == |prog|
  {
  }

  // ----- a verified program on which both differ -----

  /** A function that exits, and behind it the entry, which calls it */
  const TRAILING_CALL: seq<Insn> := [Insn(0x95, 0, 0, 0, 0), Insn(0x85, 0, 1, 0, -2)]

  function TrailingCallText(): seq<u8> { ToArray(TRAILING_CALL[0]) + ToArray(TRAILING_CALL[1]) }

  /** The executable of that text, without memory and syscalls */
  function TrailingCallExecutable(): Executable<int> {
    Executable(V3, TrailingCallText(), 0x1_0000_0000, map[], {}, Config(2, 4096, true),
               Environment((m: int, a: u64, n: nat) => LoadFault(0), (m: int, a: u64, n: nat, x: u64) => StoreFault(0),
                           (key: u32, args: seq<u64>, m: int, left: nat) => Invoked(m, left, None)))
  }

  lemma TrailingCallDecodes()
    ensures |TrailingCallText()| == 16 && Slots(TrailingCallText()) == 2
    ensures GetInsn(TrailingCallText(), 0) == TRAILING_CALL[0] && GetInsn(TrailingCallText(), 1) == TRAILING_CALL[1]
  {
    hide GetInsn, Bits.And, Bits.Or;
    var prog, a, b := TrailingCallText(), ToArray(TRAILING_CALL[0]), ToArray(TRAILING_CALL[1]);
    assert prog[0..8] == a && prog[8..16] == b;
    hide ToArray, TrailingCallText;
    InsnRoundTrip(TRAILING_CALL[0], prog, 0);
    InsnRoundTrip(TRAILING_CALL[1], prog, 1);
  }

  /** The verifier accepts it. */
  lemma TrailingCallVerified()
    ensures Verifier.Verified(V3, TrailingCallText()) && |TrailingCallText()| == 16
  {
    hide GetInsn, ToArray, TrailingCallText, Decode;
    TrailingCallDecodes();
    var prog := TrailingCallText();
    TrailingCallOperations();
    PlainChecked(V3, prog, 0);
    PlainChecked(V3, prog, 1);
    forall pc | 0 <= pc < Slots(prog) ensures Verifier.SlotVerified(V3, prog, pc) {
      assert pc == 0 || pc == 1;
    }
  }

  lemma TrailingCallOperations()
    ensures Decode(V3, 0x95) == Leave && Decode(V3, 0x85) == CallImm
  {
  }

  lemma PlainChecked(v: Version, prog: seq<u8>, pc: nat)
    requires pc < Slots(prog) && GetInsn(prog, pc).src < 10 && GetInsn(prog, pc).dst < 10
    requires Decode(v, GetInsn(prog, pc).opc) == Leave || Decode(v, GetInsn(prog, pc).opc) == CallImm
    ensures Verifier.Checked(v, prog, pc)
  {
    hide GetInsn, Decode;
  }

  lemma TrailingCallLoads()
    ensures Loadable(TrailingCallExecutable())
    ensures SlotsOf(TrailingCallExecutable()) == [Exit, Call(false, Some(0))]
  {
    hide GetInsn, ToArray, TrailingCallText, Verifier.Verified, Decode;
    TrailingCallDecodes();
    TrailingCallVerified();
    var exe := TrailingCallExecutable();
    TrailingCallOperations();
    assert SlotAt(exe, 0) == Exit && SlotAt(exe, 1) == Call(false, Some(0));
  }

  /** Interpreted from slot 1, the program reports a call outside the text segment; the text ends the run
      with `o`, which is something else. */
  ghost predicate EndsDifferently<M(!new)>(m: Machine<Data<M>, CallerSaved>, c: Output, budget: nat, data: Data<M>,
                                           fuel: nat, o: Outcome<Data<M>>)
    requires WellFormed(m) && budget + |m.prog| + 2 < TWO63
  {
    && RunText(m, c.text, c.sections, Entered(c.text, c.sections, 1, budget, data), fuel) == Some(o)
    && Run(m, Initial<Data<M>, CallerSaved>(1, budget, data)).kind == Failure(CallOutsideTextSegment)
    && o.kind != Failure(CallOutsideTextSegment)
  }

  lemma TrailingCallMachine() returns (m: Machine<Data<int>, CallerSaved>)
    ensures m == MachineOf(TrailingCallExecutable()) && WellFormed(m)
    ensures m.prog == SlotsOf(TrailingCallExecutable()) == [Exit, Call(false, Some(0))] && m.maxCallDepth == 2
  {
    hide Loadable, WellFormed;
    TrailingCallLoads();
    VerifiedWellFormed(TrailingCallExecutable());
    m := MachineOf(TrailingCallExecutable());
  }

  /** A verified executable whose compiled text and interpretation differ */
  lemma TrailingCallTextDiffers(c: Output, budget: nat, data: Data<int>)
    returns (m: Machine<Data<int>, CallerSaved>, fuel: nat, o: Outcome<Data<int>>)
    requires Compiled(c) && c.prog == SlotsOf(TrailingCallExecutable()) && 2 <= budget && budget + 4 < TWO63
    ensures Loadable(TrailingCallExecutable()) && m == MachineOf(TrailingCallExecutable())
    ensures WellFormed(m) && |m.prog| == 2 && EndsDifferently(m, c, budget, data, fuel, o)
  {
    hide Loadable, WellFormed, RunHost, RunText, Run, Compiled, Mirrors, MachineOf, TrailingCallExecutable, SlotsOf;
    TrailingCallLoads();
    m := TrailingCallMachine();
    fuel, o := TrailingCallDiffers(m, c.distance, budget, data);
    EnteredMirrors(c, 1, budget, data);
    fuel := TextRunsBlocks(m, c, JitTheorem.Invoked(1, budget, data), Entered(c.text, c.sections, 1, budget, data),
                           fuel);
  }
}
