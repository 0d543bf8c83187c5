/** Whole runs: compiled code refines the interpreter's metering, for every program, budget and
    checkpoint distance. */
module JitTheorem {
  import opened Words
  import opened Metering
  import opened JitCode
  import opened JitRefinement

  // ----- budget spent: the next validation throws -----

  /** How many straight-line instructions can still run before a validation */
  ghost function ToCheckpoint(prog: seq<Slot>, distance: nat, pc: nat): (k: nat)
    requires pc <= |prog|
    ensures k <= distance
  {
    var last := LastValidation(prog, distance, pc);
    if last + distance <= pc then 0 else last + distance - pc
  }

  /** An outcome of exhaustion that reports the meter as pc, after at most `bound` more instructions */
  ghost predicate Exhausted<D, F>(h: Host<D, F>, o: Outcome<D>, bound: nat) {
    && o.kind == Failure(ExceededMaxInstructions) && o.pc == Some(h.meter)
    && o.due == h.previous + 1 && o.previous == h.previous && o.remaining == h.remaining
    && o.syscalls == h.syscalls && h.straight <= o.straight <= h.straight + bound
  }

  /** Blocks that start with a validation throw at once. */
  lemma ValidateThrows<D, F>(m: Machine<D, F>, h: Host<D, F>, pc: nat, rest: seq<HostOp>)
    requires h.meter <= pc < TWO64 && h.previous < TWO63
    ensures var r := RunOps(m, h, ValidateOps(pc) + rest); r.Halt? && Exhausted(h, r.outcome, 0)
  {
    hide RunOps, ThrowExceeded;
    RunValidate(m, h, pc, rest);
    ExceededOutcome(h.(scratch := pc, index := h.index + 1));
  }

  lemma PrologueThrows<D, F>(m: Machine<D, F>, h: Host<D, F>, pc: nat, rest: seq<HostOp>)
    requires h.meter <= pc < TWO64 && h.previous < TWO63
    ensures var r := RunOps(m, h, [LoadScratch(pc), Prologue] + rest); r.Halt? && Exhausted(h, r.outcome, 0)
  {
    hide RunOps, ThrowExceeded;
    assert [LoadScratch(pc), Prologue] + rest == [LoadScratch(pc)] + ([Prologue] + rest);
    RunCons(m, h, LoadScratch(pc), [Prologue] + rest);
    RunCons(m, h.(scratch := pc, index := h.index + 1), Prologue, rest);
    ExceededOutcome(h.(scratch := pc, index := h.index + 1));
  }

  /** Without budget the code of any slot but a straight-line one throws. */
  lemma CoreThrows<D(!new), F>(m: Machine<D, F>, h: Host<D, F>)
    requires WellFormed(m) && h.pc < |m.prog| && m.prog[h.pc] != LddwTail && m.prog[h.pc] != Straight
    requires h.meter <= h.pc < TWO64 && h.previous < TWO63
    ensures var r := RunOps(m, h, Core(m.prog[h.pc], h.pc)); r.Halt? && Exhausted(h, r.outcome, 0)
  {
    hide RunOps, WellFormed, Exhausted;
    var pc := h.pc;
    match m.prog[pc]
    case Lddw => ValidateThrows(m, h, pc, [AddMeter(1), LoadWide(pc)]);
    case Jump(t) => ValidateThrows(m, h, pc, [AddMeter(t - pc - 1), Goto(t)]);
    case Branch(t) => ValidateThrows(m, h, pc, [AddMeter(t - pc - 1), GotoIf(pc, t), AddMeter(pc + 1 - t)]);
    case CallReg =>
      assert Core(CallReg, pc) == [LoadScratch(pc), Prologue] + ([CallHostReg(pc)] + CallTail(pc));
      PrologueThrows(m, h, pc, [CallHostReg(pc)] + CallTail(pc));
    case Exit => ValidateThrows(m, h, pc, [AddMeter(-(pc as int) - 1), LeaveOrReturn]);
    case Call(external, internal) => CallThrows(m, h, external, internal);
  }

  lemma CallThrows<D, F>(m: Machine<D, F>, h: Host<D, F>, external: bool, internal: Option<nat>)
    requires h.meter <= h.pc < TWO64 && h.previous < TWO63
    ensures var r := RunOps(m, h, Core(Call(external, internal), h.pc)); r.Halt? && Exhausted(h, r.outcome, 0)
  {
    hide RunOps;
    var pc := h.pc;
    var rest := InternalOps(pc, external, internal);
    if external {
      var after := [AddMeter(-(pc as int) - 1), CallExternal(pc), AddMeter(pc + 1)];
      assert ExternalOps(pc, true) + rest == ValidateOps(pc) + (after + rest);
      ValidateThrows(m, h, pc, after + rest);
    } else {
      assert ExternalOps(pc, false) + rest == rest;
      match internal
      case Some(t) =>
        var after := [AddMeter(t - pc - 1), LoadScratch(t), CallHost(t)] + CallTail(pc);
        assert rest == [LoadScratch(pc), Prologue] + after;
        PrologueThrows(m, h, pc, after);
      case None =>
        assert rest == [LoadScratch(pc)] + [Throw(UnsupportedInstruction)];
        RunCons(m, h, LoadScratch(pc), [Throw(UnsupportedInstruction)]);
        var h1 := h.(scratch := pc, index := h.index + 1);
        RunLast(m, h1, Throw(UnsupportedInstruction));
        ExceededOutcome(h1);
    }
  }

  /** One block without budget: it throws, or was a straight-line instruction before a checkpoint. */
  lemma DrainBlock<D(!new), F>(m: Machine<D, F>, distance: nat, h: Host<D, F>) returns (r: OpResult<D, F>)
    requires WellFormed(m) && h.pc <= |m.prog| < TWO63 && h.index == 0 && h.meter <= h.pc && h.previous < TWO63
    requires h.pc < |m.prog| && m.prog[h.pc] == LddwTail ==> h.scratch == h.pc
    ensures r == RunOps(m, h, Block(m.prog, distance, h.pc))
    ensures r.Halt? ==> Exhausted(h, r.outcome, ToCheckpoint(m.prog, distance, h.pc))
    ensures r.Transfer? ==>
      && h.pc < |m.prog| && m.prog[h.pc] == Straight && !NeedsCheckpoint(m.prog, distance, h.pc)
      && r.host == h.(pc := h.pc + 1, data := r.host.data, straight := h.straight + 1)
  {
    hide RunOps, WellFormed, LastValidation, Core;
    var pc := h.pc;
    var block := Block(m.prog, distance, pc);
    r := RunOps(m, h, block);
    if pc == |m.prog| {
      ValidateThrows(m, h, pc, [AddMeter(0), LoadScratch(pc), Throw(ExecutionOverrun)]);
    } else if m.prog[pc] == LddwTail {
      RunLast(m, h, Throw(UnsupportedInstruction));
      ExceededOutcome(h);
    } else if NeedsCheckpoint(m.prog, distance, pc) {
      ValidateThrows(m, h, pc, Core(m.prog[pc], pc));
    } else {
      assert block == Core(m.prog[pc], pc);
      if m.prog[pc] != Straight {
        CoreThrows(m, h);
      } else {
        DrainStraight(m, h);
      }
    }
  }

  lemma DrainStraight<D, F>(m: Machine<D, F>, h: Host<D, F>)
    requires h.pc < |m.prog| < TWO63 && m.prog[h.pc] == Straight
    requires h.meter <= h.pc && h.previous < TWO63 && h.index == 0
    ensures var r := RunOps(m, h, Core(Straight, h.pc));
      && (r.Halt? ==> Exhausted(h, r.outcome, 1))
      && (r.Transfer? ==> r.host == h.(pc := h.pc + 1, data := r.host.data, straight := h.straight + 1))
  {
    hide RunOps, ThrowExceeded, Epilogue;
    RunLast(m, h, RunBody(h.pc));
    match m.exec(h.pc, h.data)
    case Done(d) =>
    case Failed(e) => ExceededOutcome(h.(scratch := h.pc, straight := h.straight + 1));
  }

  lemma CheckpointNearer(prog: seq<Slot>, distance: nat, pc: nat)
    requires pc < |prog| && prog[pc] == Straight && !NeedsCheckpoint(prog, distance, pc)
    ensures ToCheckpoint(prog, distance, pc + 1) + 1 == ToCheckpoint(prog, distance, pc)
  {
  }

  /** Without budget, at most `distance` more straight-line instructions run before the exception,
      and the exception reports the pc at which the budget ran out. */
  lemma {:induction false} Drain<D(!new), F>(m: Machine<D, F>, distance: nat, h: Host<D, F>)
    returns (fuel: nat, o: Outcome<D>)
    requires WellFormed(m) && h.pc <= |m.prog| < TWO63 && h.index == 0 && h.meter <= h.pc && h.previous < TWO63
    requires h.pc < |m.prog| && m.prog[h.pc] == LddwTail ==> h.scratch == h.pc
    ensures RunHost(m, distance, h, fuel) == Some(o)
    ensures Exhausted(h, o, ToCheckpoint(m.prog, distance, h.pc))
    decreases |m.prog| - h.pc
  {
    hide RunOps, WellFormed, LastValidation, Block, ToCheckpoint;
    var r := DrainBlock(m, distance, h);
    var block := Block(m.prog, distance, h.pc);
    assert block[0..] == block;
    if r.Halt? {
      fuel, o := 1, r.outcome;
    } else {
      SlotFacts(m, h.pc + 1);
      CheckpointNearer(m.prog, distance, h.pc);
      fuel, o := Drain(m, distance, r.host);
      fuel := fuel + 1;
    }
  }

  // ----- one block with budget left -----

  /** With budget left, a checkpoint in front of a slot is passed. */
  lemma RunPrefix<D(!new), F>(m: Machine<D, F>, distance: nat, s: State<D, F>, h: Host<D, F>) returns (h1: Host<D, F>)
    requires Related(m, distance, s, h) && s.due < s.previous
    requires s.pc < |m.prog| && m.prog[s.pc] != LddwTail
    ensures RunOps(m, h, Block(m.prog, distance, s.pc)) == RunOps(m, h1, Core(m.prog[s.pc], s.pc))
    ensures Metered(m, distance, s, h1) && Remaining(m, distance, h1, Core(m.prog[s.pc], s.pc))
  {
    hide RunOps, LastValidation, Core, StackMatches;
    var pc := s.pc;
    var core := Core(m.prog[pc], pc);
    var block := Block(m.prog, distance, pc);
    if NeedsCheckpoint(m.prog, distance, pc) {
      RunValidate(m, h, pc, core);
      h1 := h.(scratch := pc, index := h.index + 2);
      assert block[2..] == core;
    } else {
      h1 := h;
      assert block == core && block[0..] == core;
    }
  }

  ghost predicate Returns<D, F>(m: Machine<D, F>, s: State<D, F>) {
    s.due < s.previous && s.pc < |m.prog| && m.prog[s.pc] == Exit && s.frames != []
  }

  /** Every slot except a return does in one block what the interpreter does in one step. */
  lemma SimSlot<D(!new), F>(m: Machine<D, F>, distance: nat, s: State<D, F>, h: Host<D, F>)
    requires WellFormed(m) && Related(m, distance, s, h) && s.due < s.previous && !Returns(m, s)
    ensures Simulates(m, distance, Step(m, s), RunOps(m, h, Block(m.prog, distance, s.pc)))
  {
    hide RunOps, WellFormed, StackMatches, Simulates;
    if s.pc == |m.prog| {
      SimBumper(m, distance, s, h);
    } else if m.prog[s.pc] == LddwTail {
      SimTail(m, distance, s, h);
    } else {
      var h1 := RunPrefix(m, distance, s, h);
      SimCore(m, distance, s, h1);
    }
  }

  lemma SimCore<D(!new), F>(m: Machine<D, F>, distance: nat, s: State<D, F>, h: Host<D, F>)
    requires WellFormed(m) && Metered(m, distance, s, h) && s.due < s.previous && !Returns(m, s)
    requires s.pc < |m.prog| && m.prog[s.pc] != LddwTail
    requires Remaining(m, distance, h, Core(m.prog[s.pc], s.pc))
    ensures Simulates(m, distance, Step(m, s), RunOps(m, h, Core(m.prog[s.pc], s.pc)))
  {
    hide RunOps, WellFormed, StackMatches, Simulates, Block, CallTo;
    match m.prog[s.pc]
    case Straight => SimStraight(m, distance, s, h);
    case Lddw => SimLddw(m, distance, s, h);
    case Jump(t) => SimJump(m, distance, s, h, t);
    case Branch(t) => SimBranch(m, distance, s, h, t);
    case Call(external, internal) => SimCall(m, distance, s, h, external, internal);
    case CallReg => SimCallReg(m, distance, s.(due := s.due + 1), h);
    case Exit => SimExit(m, distance, s, h);
  }

  // ----- whole runs -----

  /** The run returns from a call in the last slot: the interpreter's check of the return address
      fails, where compiled code runs on past the end. */
  ghost predicate ReturnsPastEnd<D(!new), F>(m: Machine<D, F>, s: State<D, F>)
    requires WellFormed(m) && MeterOk(m, s)
    decreases s.previous - s.due
  {
    || (Returns(m, s) && s.frames[|s.frames| - 1].returnPc >= |m.prog|)
    || match Step(m, s)
       case Stop(_) => false
       case Continue(s') =>
         StepSpends(m, s);
         ReturnsPastEnd(m, s')
  }

  /** Past the end compiled code reports an overrun or exhaustion, never an outside call. */
  lemma PastEnd<D(!new), F>(m: Machine<D, F>, distance: nat, s: State<D, F>, h: Host<D, F>)
    returns (o: Outcome<D>)
    requires WellFormed(m) && Metered(m, distance, s, h) && h.index == 0 && s.pc == |m.prog|
    ensures RunHost(m, distance, h, 1) == Some(o)
    ensures o.kind == Failure(ExecutionOverrun) || o.kind == Failure(ExceededMaxInstructions)
    ensures o.syscalls == s.syscalls && o.straight == s.straight
  {
    hide RunOps, WellFormed, StackMatches, LastValidation;
    var block := Block(m.prog, distance, s.pc);
    assert block[0..] == block;
    if s.due < s.previous {
      SimBumper(m, distance, s, h);
    } else {
      ValidateThrows(m, h, s.pc, [AddMeter(0), LoadScratch(s.pc), Throw(ExecutionOverrun)]);
    }
    o := RunOps(m, h, block).outcome;
  }

  /** Compiled code ends every run; it ends it like the interpreter if and only if the run does not
      return past the end of the program. */
  lemma {:induction false} Refines<D(!new), F>(m: Machine<D, F>, distance: nat, s: State<D, F>, h: Host<D, F>)
    returns (fuel: nat, o: Outcome<D>)
    requires WellFormed(m) && Related(m, distance, s, h)
    ensures RunHost(m, distance, h, fuel) == Some(o)
    ensures Matches(Run(m, s), o, distance) <==> !ReturnsPastEnd(m, s)
    ensures ReturnsPastEnd(m, s) ==> o.kind in {Failure(ExecutionOverrun), Failure(ExceededMaxInstructions)}
    ensures o.syscalls == Run(m, s).syscalls && o.straight <= Run(m, s).straight + distance
    decreases s.previous - s.due
  {
    hide RunOps, WellFormed, StackMatches, Block, Step;
    var block := Block(m.prog, distance, s.pc);
    assert block[0..] == block;
    if s.due >= s.previous {
      fuel, o := RefinesExhausted(m, distance, s, h);
    } else if Returns(m, s) {
      fuel, o := RefinesReturn(m, distance, s, h);
    } else {
      SimSlot(m, distance, s, h);
      match Step(m, s) {
        case Stop(_) => fuel, o := 1, RunOps(m, h, block).outcome;
        case Continue(s') =>
          StepSpends(m, s);
          fuel, o := Refines(m, distance, s', RunOps(m, h, block).host);
          fuel := fuel + 1;
      }
    }
  }

  lemma RefinesExhausted<D(!new), F>(m: Machine<D, F>, distance: nat, s: State<D, F>, h: Host<D, F>)
    returns (fuel: nat, o: Outcome<D>)
    requires WellFormed(m) && Related(m, distance, s, h) && s.due >= s.previous
    ensures RunHost(m, distance, h, fuel) == Some(o)
    ensures Matches(Run(m, s), o, distance) && !ReturnsPastEnd(m, s)
  {
    hide WellFormed, StackMatches, RunHost, ToCheckpoint;
    fuel, o := Drain(m, distance, h);
  }

  lemma RefinesReturn<D(!new), F>(m: Machine<D, F>, distance: nat, s: State<D, F>, h: Host<D, F>)
    returns (fuel: nat, o: Outcome<D>)
    requires WellFormed(m) && Related(m, distance, s, h) && Returns(m, s)
    ensures RunHost(m, distance, h, fuel) == Some(o)
    ensures Matches(Run(m, s), o, distance) <==> !ReturnsPastEnd(m, s)
    ensures ReturnsPastEnd(m, s) ==> o.kind in {Failure(ExecutionOverrun), Failure(ExceededMaxInstructions)}
    ensures o.syscalls == Run(m, s).syscalls && o.straight <= Run(m, s).straight + distance
    decreases s.previous - s.due, 0
  {
    hide RunOps, WellFormed, StackMatches, Block;
    var h0 := RunPrefix(m, distance, s, h);
    var h1, h2 := SimReturn(m, distance, s, h0);
    var s2 := Returned'(m, s);
    var block := Block(m.prog, distance, s.pc);
    assert block[0..] == block;
    if s2.pc >= |m.prog| {
      o := PastEnd(m, distance, s2, h2);
      fuel := 3;
      assert RunHost(m, distance, h1, 2) == RunHost(m, distance, h2, 1);
    } else {
      assert Step(m, s) == Continue(s2);
      StepSpends(m, s);
      SlotFacts(m, s2.pc);
      fuel, o := Refines(m, distance, s2, h2);
      assert RunHost(m, distance, h1, fuel + 1) == RunHost(m, distance, h2, fuel);
      fuel := fuel + 2;
    }
  }

  /** More fuel does not change the outcome, so a run has one. */
  lemma {:induction false} FuelIsEnough<D, F>(m: Machine<D, F>, distance: nat, h: Host<D, F>, fuel: nat, more: nat)
    requires fuel <= more && RunHost(m, distance, h, fuel).Some?
    ensures RunHost(m, distance, h, more) == RunHost(m, distance, h, fuel)
    decreases fuel
  {
    hide RunOps, Block;
    var block := Block(m.prog, distance, h.pc);
    match RunOps(m, h, block[h.index..])
    case Halt(_) =>
    case Transfer(h') => FuelIsEnough(m, distance, h', fuel - 1, more - 1);
  }

  // ----- running a program from its entry point -----

  /** Registers as `invoke` sets them: the meter starts at the budget plus the entry pc. */
  function Invoked<D, F>(entry: nat, budget: nat, data: D): Host<D, F>
    requires entry + budget < TWO64
  {
    Host(entry, 0, Wrap(budget + entry), entry, budget, budget, [], 0, data, [], 0)
  }

  lemma InvokedRelated<D(!new), F>(m: Machine<D, F>, distance: nat, entry: nat, budget: nat, data: D)
    requires WellFormed(m) && entry < |m.prog| && budget + |m.prog| + 2 < TWO63
    ensures Related(m, distance, Initial<D, F>(entry, budget, data), Invoked<D, F>(entry, budget, data))
  {
  }

  /** Compiled and interpreted execution end alike and report the same instruction count, if and
      only if the run does not return past the end of the program. */
  lemma JitRefinesInterpreter<D(!new), F>(m: Machine<D, F>, distance: nat, entry: nat, budget: nat, data: D)
    returns (fuel: nat, o: Outcome<D>)
    requires WellFormed(m) && entry < |m.prog| && budget + |m.prog| + 2 < TWO63
    ensures RunHost(m, distance, Invoked(entry, budget, data), fuel) == Some(o)
    ensures var s := Initial<D, F>(entry, budget, data);
      && (Matches(Run(m, s), o, distance) <==> !ReturnsPastEnd(m, s))
      && (ReturnsPastEnd(m, s) ==> o.kind in {Failure(ExecutionOverrun), Failure(ExceededMaxInstructions)})
      && (!ReturnsPastEnd(m, s) ==>
            Reported(o, budget) == Reported(Run(m, s), budget) && LeftAfter(o) == LeftAfter(Run(m, s)))
  {
    hide WellFormed, RunHost, Run, ReturnsPastEnd;
    InvokedRelated(m, distance, entry, budget, data);
    var s := Initial<D, F>(entry, budget, data);
    fuel, o := Refines(m, distance, s, Invoked(entry, budget, data));
    RunAccounts(m, s);
    DueCovered(m, s);
  }

  /** Compiled code enters no syscall once the budget is spent: every syscall sees less than those
      before it, and less than the budget. At most `distance` straight-line instructions
      run beyond the interpreter's. */
  lemma JitSyscallsPaid<D(!new), F>(m: Machine<D, F>, distance: nat, entry: nat, budget: nat, data: D)
    returns (fuel: nat, o: Outcome<D>)
    requires WellFormed(m) && entry < |m.prog| && budget + |m.prog| + 2 < TWO63
    ensures RunHost(m, distance, Invoked(entry, budget, data), fuel) == Some(o)
    ensures Paid(o.syscalls, budget)
    ensures o.straight <= Run(m, Initial<D, F>(entry, budget, data)).straight + distance
  {
    hide WellFormed, RunHost, Run;
    InvokedRelated(m, distance, entry, budget, data);
    var s := Initial<D, F>(entry, budget, data);
    fuel, o := Refines(m, distance, s, Invoked(entry, budget, data));
    SyscallsPaid(m, s, budget);
  }

  /** The interpreter never owes more than the context has. */
  lemma {:induction false} DueCovered<D(!new), F>(m: Machine<D, F>, s: State<D, F>)
    requires WellFormed(m) && MeterOk(m, s)
    ensures Run(m, s).due <= Run(m, s).previous == Run(m, s).remaining
    decreases s.previous - s.due
  {
    hide WellFormed;
    StepAccounts(m, s);
    if Step(m, s).Continue? {
      StepSpends(m, s);
      DueCovered(m, Step(m, s).state);
    } else {
      StopKeepsPrevious(m, s);
    }
  }

  lemma StopKeepsPrevious<D(!new), F>(m: Machine<D, F>, s: State<D, F>)
    requires WellFormed(m) && MeterOk(m, s) && Step(m, s).Stop?
    ensures Step(m, s).outcome.previous == Step(m, s).outcome.remaining
  {
    hide WellFormed;
  }

  // ----- when a return past the end cannot happen -----

  ghost predicate ReturnsInside<D, F>(m: Machine<D, F>, s: State<D, F>) {
    forall i :: 0 <= i < |s.frames| ==> s.frames[i].returnPc < |m.prog|
  }

  /** The last slot is not an internal call. */
  predicate NoTrailingCall(prog: seq<Slot>) {
    prog == [] || !IsInternalCall(prog[|prog| - 1])
  }

  lemma StepReturnsInside<D(!new), F>(m: Machine<D, F>, s: State<D, F>)
    requires WellFormed(m) && MeterOk(m, s) && NoTrailingCall(m.prog) && ReturnsInside(m, s) && Step(m, s).Continue?
    ensures ReturnsInside(m, Step(m, s).state)
  {
    hide WellFormed;
    if s.pc + 1 >= |m.prog| {
      assert !IsInternalCall(m.prog[s.pc]);
    }
  }

  /** Programs whose last slot is not an internal call never return past their end. */
  lemma {:induction false} NeverPastEnd<D(!new), F>(m: Machine<D, F>, s: State<D, F>)
    requires WellFormed(m) && MeterOk(m, s) && NoTrailingCall(m.prog) && ReturnsInside(m, s)
    ensures !ReturnsPastEnd(m, s)
    decreases s.previous - s.due
  {
    hide WellFormed, Step;
    if Step(m, s).Continue? {
      StepSpends(m, s);
      StepReturnsInside(m, s);
      NeverPastEnd(m, Step(m, s).state);
    }
  }

  /** A program that does: the entry calls a function that exits, and the call is the last slot. The
      interpreter reports a call outside the text segment, compiled code something else. */
  lemma TrailingCallDiffers<D(!new), F>(m: Machine<D, F>, distance: nat, budget: nat, data: D)
    returns (fuel: nat, o: Outcome<D>)
    requires WellFormed(m) && m.maxCallDepth >= 2 && 2 <= budget && budget + 4 < TWO63
    requires m.prog == [Exit, Call(false, Some(0))]
    ensures RunHost(m, distance, Invoked(1, budget, data), fuel) == Some(o)
    ensures Run(m, Initial<D, F>(1, budget, data)).kind == Failure(CallOutsideTextSegment)
    ensures o.kind != Failure(CallOutsideTextSegment)
  {
    hide WellFormed, RunHost;
    var s := Initial<D, F>(1, budget, data);
    StepSpends(m, s);
    var s1 := Step(m, s).state;
    assert s1.pc == 0 && s1.frames == [Frame(m.save(data), 2)];
    assert ReturnsPastEnd(m, s1);
    fuel, o := JitRefinesInterpreter(m, distance, 1, budget, data);
  }
}
