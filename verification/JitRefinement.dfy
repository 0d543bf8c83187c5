/** Compiled code, which checks the meter only at branches and checkpoints, ends like the
    interpreter, which checks it before every instruction. */
module JitRefinement {
  import opened Words
  import opened Metering
  import opened JitCode

  /** Each open call is a saved frame and a return address just before the tail of its call. */
  ghost predicate CallSite<F>(prog: seq<Slot>, distance: nat, returnPc: nat, e: Entry<F>) {
    && e.Return? && e.pc < |prog| && returnPc == e.pc + 1
    && IsInternalCall(prog[e.pc])
    && var block := Block(prog, distance, e.pc);
       |block| >= 2 && e.index == |block| - 2 && block[e.index..] == CallTail(e.pc)
  }

  predicate IsInternalCall(slot: Slot) {
    slot == CallReg || (slot.Call? && slot.internal.Some?)
  }

  ghost predicate StackMatches<F>(prog: seq<Slot>, distance: nat, frames: seq<Frame<F>>, stack: seq<Entry<F>>) {
    && |stack| == 2 * |frames|
    && forall i :: 0 <= i < |frames| ==>
         stack[2 * i] == Saved(frames[i].saved) && CallSite(prog, distance, frames[i].returnPc, stack[2 * i + 1])
  }

  /** Everything but the meter, the scratch register and the place in the block agrees. */
  ghost predicate Agree<D, F>(m: Machine<D, F>, distance: nat, s: State<D, F>, h: Host<D, F>) {
    && h.pc == s.pc <= |m.prog|
    && h.previous == s.previous && h.remaining == s.remaining && h.data == s.data
    && h.syscalls == s.syscalls && h.straight == s.straight
    && h.depth == |s.frames| < m.maxCallDepth
    && StackMatches(m.prog, distance, s.frames, h.stack)
  }

  /** The meter register is the pc plus the remaining budget. */
  ghost predicate Metered<D, F>(m: Machine<D, F>, distance: nat, s: State<D, F>, h: Host<D, F>) {
    Agree(m, distance, s, h) && MeterOk(m, s) && h.meter == s.pc + s.previous - s.due
  }

  /** The relation at the start of a block. Whoever jumps to the second half of a wide load leaves
      its pc in the scratch register. */
  ghost predicate Related<D, F>(m: Machine<D, F>, distance: nat, s: State<D, F>, h: Host<D, F>) {
    && Metered(m, distance, s, h) && h.index == 0
    && (s.pc < |m.prog| && m.prog[s.pc] == LddwTail ==> h.scratch == s.pc)
  }

  /** What running the rest of a block has to achieve for an interpreter step */
  ghost predicate Simulates<D, F>(m: Machine<D, F>, distance: nat, step: StepResult<D, F>, r: OpResult<D, F>) {
    match step
    case Continue(s') => r.Transfer? && Related(m, distance, s', r.host)
    case Stop(o) => r.Halt? && Matches(o, r.outcome, distance)
  }

  /** The two outcomes tell the caller the same. On exhaustion compiled code has one more
      instruction due than the interpreter, and may have run up to `distance` straight-line
      instructions beyond the budget. */
  ghost predicate Matches<D>(i: Outcome<D>, j: Outcome<D>, distance: nat) {
    && j.kind == i.kind && j.pc == i.pc && j.previous == i.previous && j.remaining == i.remaining
    && j.syscalls == i.syscalls
    && if i.kind == Failure(ExceededMaxInstructions) then
         i.due == i.previous && j.due == i.due + 1 && i.straight <= j.straight <= i.straight + distance
       else
         j.due == i.due && j.straight == i.straight
  }

  // ----- arithmetic of the epilogue -----

  lemma EpilogueDue<D, F>(h: Host<D, F>, kind: Kind<D>, pc: Option<nat>, due: int)
    requires 0 <= due < TWO64
    requires h.meter - 1 - h.scratch - h.previous == -due
      || h.meter - 1 - h.scratch - h.previous == -due - TWO64
    ensures Epilogue(h, kind, pc) == Outcome(kind, pc, due, h.previous, h.remaining, h.syscalls, h.straight)
  {
    FourSteps(h.meter, h.scratch, h.previous, due);
    hide Wrap;
  }

  lemma FourSteps(meter: u64, scratch: u64, previous: u64, due: int)
    requires 0 <= due < TWO64
    requires meter - 1 - scratch - previous == -due || meter - 1 - scratch - previous == -due - TWO64
    ensures Wrap(0 - Wrap(Wrap(Wrap(meter - 1) - scratch) - previous)) == due
  {
    var m1 := Wrap(meter - 1);
    WrapOnce(meter - 1);
    var m2 := Wrap(m1 - scratch);
    WrapOnce(m1 - scratch);
    var m3 := Wrap(m2 - previous);
    WrapOnce(m2 - previous);
    WrapOnce(-(m3 as int));
    hide Wrap;
  }

  lemma WrapOnce(x: int)
    requires -TWO64 <= x < TWO64
    ensures Wrap(x) == if x < 0 then x + TWO64 else x
  {
  }

  lemma ExceededOutcome<D, F>(h: Host<D, F>)
    requires h.previous < TWO63
    ensures var o := ThrowExceeded(h);
      && o.kind == Failure(ExceededMaxInstructions) && o.pc == Some(h.meter)
      && o.due == h.previous + 1 && o.previous == h.previous && o.remaining == h.remaining
      && o.syscalls == h.syscalls && o.straight == h.straight
  {
    EpilogueDue(h.(scratch := h.meter), Failure(ExceededMaxInstructions), Some(h.meter), h.previous + 1);
  }

  // ----- running operations one after the other -----

  lemma SlotFacts<D(!new), F>(m: Machine<D, F>, pc: nat)
    requires WellFormed(m)
    ensures pc < |m.prog| ==> SlotOk(m.prog, pc)
  {
  }

  /** The last operation of a block */
  lemma RunLast<D, F>(m: Machine<D, F>, h: Host<D, F>, op: HostOp)
    ensures RunOps(m, h, [op]) == match Exec(m, h, op)
      case Next(h') => Transfer(h'.(pc := NextSlot(m.prog, h'.pc), index := 0))
      case r => r
  {
    assert [op][1..] == [];
  }

  lemma RunCons<D, F>(m: Machine<D, F>, h: Host<D, F>, op: HostOp, rest: seq<HostOp>)
    ensures RunOps(m, h, [op] + rest) == match Exec(m, h, op)
      case Next(h') => RunOps(m, h'.(index := h.index + 1), rest)
      case r => r
  {
    assert ([op] + rest)[1..] == rest;
  }

  /** Passing a validation costs nothing but the scratch register; failing it throws. */
  lemma RunValidate<D, F>(m: Machine<D, F>, h: Host<D, F>, pc: nat, rest: seq<HostOp>)
    requires pc < TWO64
    ensures RunOps(m, h, ValidateOps(pc) + rest) ==
      if h.meter <= pc then Halt(ThrowExceeded(h.(scratch := pc, index := h.index + 1)))
      else RunOps(m, h.(scratch := pc, index := h.index + 2), rest)
  {
    hide RunOps;
    assert ValidateOps(pc) + rest == [LoadScratch(pc)] + ([Validate] + rest);
    RunCons(m, h, LoadScratch(pc), [Validate] + rest);
    RunCons(m, h.(scratch := pc, index := h.index + 1), Validate, rest);
  }

  // ----- one slot with budget left -----

  /** An error thrown with budget left reports its pc and charges its instruction. */
  lemma ThrowOutcome<D, F>(h: Host<D, F>, error: Error, due: int)
    requires h.scratch < h.meter && 0 <= due < TWO64 && h.meter - 1 - h.scratch - h.previous == -due
    ensures var o := ThrowException(h, error);
      && o.kind == Failure(error) && o.pc == Some(h.scratch) && o.due == due
      && o.previous == h.previous && o.remaining == h.remaining
      && o.syscalls == h.syscalls && o.straight == h.straight
  {
    EpilogueDue(h, Failure(error), Some(h.scratch), due);
  }

  lemma SimStraight<D(!new), F>(m: Machine<D, F>, distance: nat, s: State<D, F>, h: Host<D, F>)
    requires WellFormed(m) && Metered(m, distance, s, h) && s.due < s.previous
    requires s.pc < |m.prog| && m.prog[s.pc] == Straight
    ensures Simulates(m, distance, Step(m, s), RunOps(m, h, Core(Straight, s.pc)))
  {
    hide StackMatches, WellFormed, RunOps, ThrowException, Epilogue;
    assert Core(Straight, s.pc) == [RunBody(s.pc)];
    RunLast(m, h, RunBody(s.pc));
    SlotFacts(m, s.pc + 1);
    match m.exec(s.pc, s.data)
    case Done(d) =>
    case Failed(e) =>
      ThrowOutcome(h.(straight := h.straight + 1, scratch := s.pc), InstructionError(e), s.due + 1);
  }

  lemma SimLddw<D(!new), F>(m: Machine<D, F>, distance: nat, s: State<D, F>, h: Host<D, F>)
    requires WellFormed(m) && Metered(m, distance, s, h) && s.due < s.previous
    requires s.pc < |m.prog| && m.prog[s.pc] == Lddw
    ensures Simulates(m, distance, Step(m, s), RunOps(m, h, Core(Lddw, s.pc)))
  {
    hide StackMatches, WellFormed, RunOps;
    var pc := s.pc;
    SlotFacts(m, pc);
    SlotFacts(m, pc + 2);
    RunValidate(m, h, pc, [AddMeter(1)] + [LoadWide(pc)]);
    assert Core(Lddw, pc) == ValidateOps(pc) + ([AddMeter(1)] + [LoadWide(pc)]);
    var h1 := h.(scratch := pc, index := h.index + 2);
    RunCons(m, h1, AddMeter(1), [LoadWide(pc)]);
    RunLast(m, h1.(meter := h.meter + 1, index := h1.index + 1), LoadWide(pc));
  }

  lemma SimJump<D(!new), F>(m: Machine<D, F>, distance: nat, s: State<D, F>, h: Host<D, F>, t: nat)
    requires WellFormed(m) && Metered(m, distance, s, h) && s.due < s.previous
    requires s.pc < |m.prog| && m.prog[s.pc] == Jump(t)
    ensures Simulates(m, distance, Step(m, s), RunOps(m, h, Core(Jump(t), s.pc)))
  {
    hide StackMatches, WellFormed, RunOps;
    var pc := s.pc;
    SlotFacts(m, pc);
    var k := t - pc - 1;
    assert Core(Jump(t), pc) == ValidateOps(pc) + ([AddMeter(k)] + [Goto(t)]);
    RunValidate(m, h, pc, [AddMeter(k)] + [Goto(t)]);
    var h1 := h.(scratch := pc, index := h.index + 2);
    RunCons(m, h1, AddMeter(k), [Goto(t)]);
    RunLast(m, h1.(meter := h.meter + k, index := h1.index + 1), Goto(t));
  }

  /** The operations of a conditional jump, with budget left */
  lemma RunBranch<D, F>(m: Machine<D, F>, h: Host<D, F>, pc: nat, t: nat)
    requires pc < h.meter && pc == h.pc < |m.prog| && m.prog[pc] == Branch(t)
    ensures RunOps(m, h, Core(Branch(t), pc)) ==
      if m.taken(pc, h.data)
      then Transfer(h.(scratch := pc, meter := Wrap(h.meter + (t - pc - 1)), pc := t, index := 0))
      else Transfer(h.(scratch := pc, meter := Wrap(Wrap(h.meter + (t - pc - 1)) + (pc + 1 - t)),
                       pc := pc + 1, index := 0))
  {
    hide RunOps, Wrap;
    WrapSame(pc);
    var k := t - pc - 1;
    var undo := [AddMeter(pc + 1 - t)];
    assert Core(Branch(t), pc) == ValidateOps(pc) + ([AddMeter(k)] + ([GotoIf(pc, t)] + undo));
    RunValidate(m, h, pc, [AddMeter(k)] + ([GotoIf(pc, t)] + undo));
    var h1 := h.(scratch := pc, index := h.index + 2);
    RunCons(m, h1, AddMeter(k), [GotoIf(pc, t)] + undo);
    var h2 := h1.(meter := Wrap(h.meter + k), index := h1.index + 1);
    RunCons(m, h2, GotoIf(pc, t), undo);
    RunLast(m, h2.(index := h2.index + 1), AddMeter(pc + 1 - t));
  }

  lemma WrapSame(x: u64)
    ensures Wrap(x) == x
  {
  }

  lemma SimBranch<D(!new), F>(m: Machine<D, F>, distance: nat, s: State<D, F>, h: Host<D, F>, t: nat)
    requires WellFormed(m) && Metered(m, distance, s, h) && s.due < s.previous
    requires s.pc < |m.prog| && m.prog[s.pc] == Branch(t)
    ensures Simulates(m, distance, Step(m, s), RunOps(m, h, Core(Branch(t), s.pc)))
  {
    hide StackMatches, WellFormed, RunOps, Core, Matches;
    SlotFacts(m, s.pc);
    SlotFacts(m, s.pc + 1);
    RunBranch(m, h, s.pc, t);
  }

  lemma SimTail<D(!new), F>(m: Machine<D, F>, distance: nat, s: State<D, F>, h: Host<D, F>)
    requires WellFormed(m) && Related(m, distance, s, h) && s.due < s.previous
    requires s.pc < |m.prog| && m.prog[s.pc] == LddwTail
    ensures Simulates(m, distance, Step(m, s), RunOps(m, h, [Throw(UnsupportedInstruction)]))
  {
    hide StackMatches, WellFormed, RunOps, ThrowException, Epilogue;
    RunLast(m, h, Throw(UnsupportedInstruction));
    ThrowOutcome(h, UnsupportedInstruction, s.due + 1);
  }

  lemma SimBumper<D(!new), F>(m: Machine<D, F>, distance: nat, s: State<D, F>, h: Host<D, F>)
    requires WellFormed(m) && Metered(m, distance, s, h) && s.due < s.previous && s.pc == |m.prog|
    ensures Simulates(m, distance, Step(m, s), RunOps(m, h, Bumper(s.pc)))
  {
    hide StackMatches, WellFormed, RunOps, ThrowException, Epilogue, ThrowExceeded;
    var pc := s.pc;
    var rest := [LoadScratch(pc)] + [Throw(ExecutionOverrun)];
    assert Bumper(pc) == ValidateOps(pc) + ([AddMeter(0)] + rest);
    RunValidate(m, h, pc, [AddMeter(0)] + rest);
    var h1 := h.(scratch := pc, index := h.index + 2);
    RunCons(m, h1, AddMeter(0), rest);
    var h2 := h1.(index := h1.index + 1);
    RunCons(m, h2, LoadScratch(pc), [Throw(ExecutionOverrun)]);
    var h3 := h2.(index := h2.index + 1);
    RunLast(m, h3, Throw(ExecutionOverrun));
    ThrowOutcome(h3, ExecutionOverrun, s.due + 1);
  }

  // ----- calls -----

  /** The host stands in its block with exactly `ops` left to run. */
  ghost predicate Remaining<D, F>(m: Machine<D, F>, distance: nat, h: Host<D, F>, ops: seq<HostOp>) {
    && h.pc <= |m.prog|
    && var block := Block(m.prog, distance, h.pc);
       h.index <= |block| && block[h.index..] == ops
  }

  lemma RunPrologue<D, F>(m: Machine<D, F>, h: Host<D, F>, pc: nat, rest: seq<HostOp>)
    requires pc < h.meter
    ensures var h' := h.(scratch := pc, index := h.index + 2, depth := h.depth + 1, data := m.enter(h.data),
                         stack := h.stack + [Saved(m.save(h.data))]);
      RunOps(m, h, [LoadScratch(pc), Prologue] + rest) ==
      if h.depth + 1 >= m.maxCallDepth
      then Halt(ThrowException(h'.(data := h.data, index := h.index + 1), CallDepthExceeded))
      else RunOps(m, h', rest)
  {
    hide RunOps;
    assert [LoadScratch(pc), Prologue] + rest == [LoadScratch(pc)] + ([Prologue] + rest);
    RunCons(m, h, LoadScratch(pc), [Prologue] + rest);
    RunCons(m, h.(scratch := pc, index := h.index + 1), Prologue, rest);
  }

  lemma PushMatches<F>(prog: seq<Slot>, distance: nat, frames: seq<Frame<F>>, stack: seq<Entry<F>>,
                       saved: F, returnPc: nat, e: Entry<F>)
    requires StackMatches(prog, distance, frames, stack) && CallSite(prog, distance, returnPc, e)
    ensures StackMatches(prog, distance, frames + [Frame(saved, returnPc)], stack + [Saved(saved)] + [e])
  {
    hide CallSite;
  }

  /** Where a call returns to: the two operations behind it */
  lemma ReturnSite<D, F>(m: Machine<D, F>, distance: nat, h: Host<D, F>, before: seq<HostOp>, index: nat)
    requires h.pc < |m.prog| && IsInternalCall(m.prog[h.pc])
    requires Remaining(m, distance, h, before + CallTail(h.pc)) && index == h.index + |before|
    ensures CallSite<F>(m.prog, distance, h.pc + 1, Return(h.pc, index))
  {
    hide Block;
    var block := Block(m.prog, distance, h.pc);
    assert block[index..] == block[h.index..][|before|..] == CallTail(h.pc);
  }

  /** A call with a known target */
  lemma SimCallImm<D(!new), F>(m: Machine<D, F>, distance: nat, s: State<D, F>, h: Host<D, F>, t: nat)
    requires WellFormed(m) && Agree(m, distance, s, h) && t < |m.prog|
    requires s.due <= s.previous == s.remaining && Small(m, s)
    requires h.meter == s.pc + 1 + s.previous - s.due
    requires s.pc < |m.prog| && IsInternalCall(m.prog[s.pc])
    requires Remaining(m, distance, h, InternalOps(s.pc, false, Some(t)))
    ensures Simulates(m, distance, CallTo(m, s, t), RunOps(m, h, InternalOps(s.pc, false, Some(t))))
  {
    hide StackMatches, WellFormed, RunOps, CallSite, Block, ThrowException, Epilogue;
    var pc := s.pc;
    var k := t - pc - 1;
    var before := [LoadScratch(pc), Prologue, AddMeter(k), LoadScratch(t), CallHost(t)];
    var rest := [AddMeter(k)] + ([LoadScratch(t)] + ([CallHost(t)] + CallTail(pc)));
    assert InternalOps(pc, false, Some(t)) == before + CallTail(pc) == [LoadScratch(pc), Prologue] + rest;
    ReturnSite(m, distance, h, before, h.index + 5);
    RunPrologue(m, h, pc, rest);
    if h.depth + 1 >= m.maxCallDepth {
      ThrowOutcome(h.(scratch := pc, index := h.index + 1, depth := h.depth + 1,
                      stack := h.stack + [Saved(m.save(h.data))]), CallDepthExceeded, s.due);
    } else {
      var h1 := h.(scratch := pc, index := h.index + 2, depth := h.depth + 1, data := m.enter(h.data),
                   stack := h.stack + [Saved(m.save(h.data))]);
      RunCons(m, h1, AddMeter(k), [LoadScratch(t)] + ([CallHost(t)] + CallTail(pc)));
      var h2 := h1.(meter := h.meter + k, index := h.index + 3);
      RunCons(m, h2, LoadScratch(t), [CallHost(t)] + CallTail(pc));
      RunCons(m, h2.(scratch := t, index := h.index + 4), CallHost(t), CallTail(pc));
      PushMatches(m.prog, distance, s.frames, h.stack, m.save(s.data), pc + 1, Return(pc, h.index + 5));
    }
  }

  /** A call through a register */
  lemma SimCallReg<D(!new), F>(m: Machine<D, F>, distance: nat, s: State<D, F>, h: Host<D, F>)
    requires WellFormed(m) && Agree(m, distance, s, h)
    requires s.due <= s.previous == s.remaining && Small(m, s)
    requires h.meter == s.pc + 1 + s.previous - s.due
    requires s.pc < |m.prog| && m.prog[s.pc] == CallReg
    requires Remaining(m, distance, h, Core(CallReg, s.pc))
    ensures Simulates(m, distance, CallTo(m, s, m.callee(s.pc, s.data)), RunOps(m, h, Core(CallReg, s.pc)))
  {
    hide StackMatches, WellFormed, RunOps, CallSite, Block, ThrowException, Epilogue;
    var pc := s.pc;
    var rest := [CallHostReg(pc)] + CallTail(pc);
    assert Core(CallReg, pc) == [LoadScratch(pc), Prologue] + rest;
    RunPrologue(m, h, pc, rest);
    if h.depth + 1 >= m.maxCallDepth {
      ThrowOutcome(h.(scratch := pc, index := h.index + 1, depth := h.depth + 1,
                      stack := h.stack + [Saved(m.save(h.data))]), CallDepthExceeded, s.due);
    } else {
      SimCallRegTarget(m, distance, s, h);
    }
  }

  /** A register call behind its prologue */
  lemma SimCallRegTarget<D(!new), F>(m: Machine<D, F>, distance: nat, s: State<D, F>, h: Host<D, F>)
    requires WellFormed(m) && Agree(m, distance, s, h)
    requires s.due <= s.previous == s.remaining && Small(m, s)
    requires h.meter == s.pc + 1 + s.previous - s.due && h.depth + 1 < m.maxCallDepth
    requires s.pc < |m.prog| && m.prog[s.pc] == CallReg
    requires Remaining(m, distance, h, Core(CallReg, s.pc))
    ensures var h1 := h.(scratch := s.pc, index := h.index + 2, depth := h.depth + 1, data := m.enter(h.data),
                         stack := h.stack + [Saved(m.save(h.data))]);
      Simulates(m, distance, CallTo(m, s, m.callee(s.pc, s.data)), RunOps(m, h1, [CallHostReg(s.pc)] + CallTail(s.pc)))
  {
    hide StackMatches, WellFormed, RunOps, CallSite, Block, ThrowException, Epilogue;
    CalleeFact(m, s.pc, s.data);
    var pc := s.pc;
    var t := m.callee(pc, s.data);
    var h1 := h.(scratch := pc, index := h.index + 2, depth := h.depth + 1, data := m.enter(h.data),
                 stack := h.stack + [Saved(m.save(h.data))]);
    RunCons(m, h1, CallHostReg(pc), CallTail(pc));
    if t >= |m.prog| {
      ThrowOutcome(h1, CallOutsideTextSegment, s.due);
    } else {
      var before := [LoadScratch(pc), Prologue, CallHostReg(pc)];
      assert Core(CallReg, pc) == before + CallTail(pc);
      ReturnSite(m, distance, h, before, h.index + 3);
      CallRegMeter(h.meter, pc, t, s.previous - s.due);
      PushMatches(m.prog, distance, s.frames, h.stack, m.save(s.data), pc + 1, Return(pc, h.index + 3));
    }
  }

  lemma CallRegMeter(meter: u64, pc: nat, t: nat, left: nat)
    requires meter == pc + 1 + left && t + left < TWO64
    ensures Wrap(Wrap(Wrap(meter - pc) - 1) + t) == t + left
  {
  }

  lemma CalleeFact<D(!new), F>(m: Machine<D, F>, pc: nat, d: D)
    requires WellFormed(m) && pc < |m.prog| && m.prog[pc] == CallReg
    ensures m.callee(pc, m.enter(d)) == m.callee(pc, d)
  {
  }

  lemma SyscallFact<D(!new), F>(m: Machine<D, F>, pc: nat, d: D, r: nat)
    requires WellFormed(m)
    ensures m.syscall(pc, d, r).remaining <= r
  {
  }

  /** The operations around a syscall */
  lemma RunExternalOps<D, F>(m: Machine<D, F>, h: Host<D, F>, pc: nat, rest: seq<HostOp>)
    requires pc < h.meter
    ensures RunOps(m, h, ExternalOps(pc, true) + rest) ==
      match ExecExternal(m, h.(scratch := pc, meter := h.meter - pc - 1, index := h.index + 3), pc)
      case Next(h3) => RunOps(m, h3.(meter := Wrap(h3.meter + pc + 1), index := h3.index + 2), rest)
      case r => r
  {
    hide RunOps, ExecExternal;
    var undo := [AddMeter(pc + 1)] + rest;
    var back: int := -(pc as int) - 1;
    assert ExternalOps(pc, true) + rest == ValidateOps(pc) + ([AddMeter(back)] + ([CallExternal(pc)] + undo));
    RunValidate(m, h, pc, [AddMeter(back)] + ([CallExternal(pc)] + undo));
    var h1 := h.(scratch := pc, index := h.index + 2);
    RunCons(m, h1, AddMeter(back), [CallExternal(pc)] + undo);
    var h2 := h1.(meter := h.meter - pc - 1, index := h.index + 3);
    ExternalIndex(m, h2, pc);
    RunCons(m, h2, CallExternal(pc), undo);
    match ExecExternal(m, h2, pc)
    case Next(h3) => RunCons(m, h3.(index := h3.index + 1), AddMeter(pc + 1), rest);
    case _ =>
  }

  lemma ExternalIndex<D, F>(m: Machine<D, F>, h: Host<D, F>, pc: nat)
    ensures ExecExternal(m, h, pc).Next? ==> ExecExternal(m, h, pc).host.index == h.index
  {
  }

  /** What a syscall leaves, on either side */
  lemma SyscallLeft<D(!new), F>(m: Machine<D, F>, s: State<D, F>) returns (charged: nat)
    requires WellFormed(m) && MeterOk(m, s) && s.due < s.previous
    ensures charged == s.previous - s.due - 1
    ensures var e := m.syscall(s.pc, s.data, charged);
      && e.remaining <= charged < s.previous < TWO63
      && DispatchSyscall(m, s.(due := s.due + 1)) ==
           (s.(due := 0, previous := e.remaining, remaining := e.remaining, data := e.data,
               syscalls := s.syscalls + [SyscallEntry(s.pc, s.data, charged)]), e.ok)
  {
    hide WellFormed;
    charged := s.previous - s.due - 1;
    SyscallFact(m, s.pc, s.data, charged);
  }

  /** A successful syscall: both sides gave it the same budget and agree on what it left. */
  lemma SyscallSucceeds<D(!new), F>(m: Machine<D, F>, distance: nat, s: State<D, F>, h: Host<D, F>, rest: seq<HostOp>)
    returns (h': Host<D, F>)
    requires WellFormed(m) && Metered(m, distance, s, h) && s.due < s.previous && s.pc < |m.prog|
    requires DispatchSyscall(m, s.(due := s.due + 1)).1
    ensures RunOps(m, h, ExternalOps(s.pc, true) + rest) == RunOps(m, h', rest) && h'.index == h.index + 5
    ensures var s' := DispatchSyscall(m, s.(due := s.due + 1)).0;
      && Agree(m, distance, s', h') && h'.meter == s.pc + 1 + s'.previous
      && s'.previous == s'.remaining <= s.previous
  {
    hide StackMatches, WellFormed, RunOps, ExternalOps, DispatchSyscall;
    var pc := s.pc;
    var charged := SyscallLeft(m, s);
    RunExternalOps(m, h, pc, rest);
    var e := m.syscall(pc, s.data, charged);
    var left := e.remaining;
    h' := h.(scratch := pc, previous := left, remaining := left, meter := left + pc + 1, data := e.data,
             index := h.index + 5, syscalls := h.syscalls + [SyscallEntry(pc, s.data, charged)]);
  }

  /** A failing syscall ends the run on both sides with nothing due. */
  lemma SyscallFails<D(!new), F>(m: Machine<D, F>, distance: nat, s: State<D, F>, h: Host<D, F>, rest: seq<HostOp>)
    requires WellFormed(m) && Metered(m, distance, s, h) && s.due < s.previous && s.pc < |m.prog|
    requires !DispatchSyscall(m, s.(due := s.due + 1)).1
    requires m.prog[s.pc].Call? && m.prog[s.pc].external
    ensures Simulates(m, distance, Step(m, s), RunOps(m, h, ExternalOps(s.pc, true) + rest))
  {
    hide StackMatches, WellFormed, RunOps, ExternalOps, DispatchSyscall, Epilogue, Related;
    var pc := s.pc;
    var charged := SyscallLeft(m, s);
    RunExternalOps(m, h, pc, rest);
    var e := m.syscall(pc, s.data, charged);
    var left := e.remaining;
    var h' := h.(scratch := U64_MAX, previous := left, remaining := left, meter := left, data := e.data,
                 index := h.index + 3, syscalls := h.syscalls + [SyscallEntry(pc, s.data, charged)]);
    EpilogueDue(h', Failure(SyscallError), None, 0);
  }

  /** The internal part of an immediate call, if it comes first in the block or after a syscall */
  lemma SimInternal<D(!new), F>(m: Machine<D, F>, distance: nat, s: State<D, F>, h: Host<D, F>,
                                external: bool, internal: Option<nat>)
    requires WellFormed(m) && Agree(m, distance, s, h) && h.meter == s.pc + 1 + s.previous - s.due
    requires s.due <= s.previous == s.remaining && Small(m, s)
    requires s.pc < |m.prog| && m.prog[s.pc] == Call(external, internal)
    requires Remaining(m, distance, h, InternalOps(s.pc, external, internal))
    ensures Simulates(m, distance, InternalCall(m, s, external, internal),
                      RunOps(m, h, InternalOps(s.pc, external, internal)))
  {
    hide StackMatches, WellFormed, CallSite, Block, RunOps, Simulates;
    SlotFacts(m, s.pc);
    var pc := s.pc;
    match internal
    case Some(t) =>
      assert InternalOps(pc, external, internal) == InternalOps(pc, false, internal);
      SimCallImm(m, distance, s, h, t);
    case None => SimUnresolved(m, distance, s, h, external);
  }

  /** No internal function: go on after a syscall, otherwise the instruction is not supported. */
  lemma SimUnresolved<D(!new), F>(m: Machine<D, F>, distance: nat, s: State<D, F>, h: Host<D, F>, external: bool)
    requires WellFormed(m) && Agree(m, distance, s, h) && h.meter == s.pc + 1 + s.previous - s.due
    requires s.due <= s.previous == s.remaining && Small(m, s)
    requires s.pc < |m.prog| && m.prog[s.pc] == Call(external, None)
    ensures Simulates(m, distance, InternalCall(m, s, external, None), RunOps(m, h, InternalOps(s.pc, external, None)))
  {
    hide StackMatches, WellFormed, ThrowException, Epilogue;
    SlotFacts(m, s.pc + 1);
    var pc := s.pc;
    if !external {
      hide RunOps;
      assert InternalOps(pc, external, None) == [LoadScratch(pc)] + [Throw(UnsupportedInstruction)];
      RunCons(m, h, LoadScratch(pc), [Throw(UnsupportedInstruction)]);
      var h1 := h.(scratch := pc, index := h.index + 1);
      RunLast(m, h1, Throw(UnsupportedInstruction));
      ThrowOutcome(h1, UnsupportedInstruction, s.due);
    }
  }

  /** Only the operations after the first `k` are left once the host has run `k` of them. */
  lemma RemainingAfter<D, F>(m: Machine<D, F>, distance: nat, h: Host<D, F>, before: seq<HostOp>, rest: seq<HostOp>,
                             h': Host<D, F>)
    requires Remaining(m, distance, h, before + rest) && h'.pc == h.pc && h'.index == h.index + |before|
    ensures Remaining(m, distance, h', rest)
  {
    hide Block;
    var block := Block(m.prog, distance, h.pc);
    assert block[h'.index..] == block[h.index..][|before|..] == rest;
  }

  /** An immediate call: a syscall, an internal call, both or neither */
  lemma SimCall<D(!new), F>(m: Machine<D, F>, distance: nat, s: State<D, F>, h: Host<D, F>,
                            external: bool, internal: Option<nat>)
    requires WellFormed(m) && Metered(m, distance, s, h) && s.due < s.previous
    requires s.pc < |m.prog| && m.prog[s.pc] == Call(external, internal)
    requires Remaining(m, distance, h, ExternalOps(s.pc, external) + InternalOps(s.pc, external, internal))
    ensures Simulates(m, distance, Step(m, s),
                      RunOps(m, h, ExternalOps(s.pc, external) + InternalOps(s.pc, external, internal)))
  {
    hide StackMatches, WellFormed, RunOps, CallSite, Block, InternalOps, InternalCall, Matches, Related;
    var pc := s.pc;
    var s1 := s.(due := s.due + 1);
    var rest := InternalOps(pc, external, internal);
    if external {
      var (s2, ok) := DispatchSyscall(m, s1);
      if !ok {
        SyscallFails(m, distance, s, h, rest);
      } else {
        var h2 := SyscallSucceeds(m, distance, s, h, rest);
        assert |ExternalOps(pc, true)| == 5;
        RemainingAfter(m, distance, h, ExternalOps(pc, true), rest, h2);
        SimInternal(m, distance, s2, h2, external, internal);
      }
    } else {
      assert ExternalOps(pc, false) + rest == rest;
      SimInternal(m, distance, s1, h, external, internal);
    }
  }

  // ----- leaving functions -----

  lemma RunExit<D, F>(m: Machine<D, F>, h: Host<D, F>, pc: nat)
    requires pc < h.meter
    ensures RunOps(m, h, Core(Exit, pc)) ==
      match ExecLeave(h.(scratch := pc, meter := h.meter - pc - 1, index := h.index + 3))
      case Next(h') => Transfer(h'.(pc := NextSlot(m.prog, h'.pc), index := 0))
      case r => r
  {
    hide RunOps, ExecLeave;
    var back: int := -(pc as int) - 1;
    assert Core(Exit, pc) == ValidateOps(pc) + ([AddMeter(back)] + [LeaveOrReturn]);
    RunValidate(m, h, pc, [AddMeter(back)] + [LeaveOrReturn]);
    var h1 := h.(scratch := pc, index := h.index + 2);
    RunCons(m, h1, AddMeter(back), [LeaveOrReturn]);
    RunLast(m, h1.(meter := h.meter - pc - 1, index := h.index + 3), LeaveOrReturn);
  }

  /** Leaving the outermost function ends the program. */
  lemma SimExit<D(!new), F>(m: Machine<D, F>, distance: nat, s: State<D, F>, h: Host<D, F>)
    requires WellFormed(m) && Metered(m, distance, s, h) && s.due < s.previous
    requires s.pc < |m.prog| && m.prog[s.pc] == Exit && s.frames == []
    ensures Simulates(m, distance, Step(m, s), RunOps(m, h, Core(Exit, s.pc)))
  {
    hide StackMatches, WellFormed, RunOps, Epilogue, Related;
    RunExit(m, h, s.pc);
    var h1 := h.(scratch := 0, meter := h.meter - s.pc, index := h.index + 3);
    EpilogueDue(h1, Returned(h.data), None, s.due + 1);
  }

  /** The state after a return, before the interpreter checks the return address */
  ghost function Returned'<D, F>(m: Machine<D, F>, s: State<D, F>): State<D, F>
    requires s.frames != []
  {
    var k := |s.frames| - 1;
    s.(due := s.due + 1, frames := s.frames[..k], data := m.leave(s.data, s.frames[k].saved),
       pc := s.frames[k].returnPc)
  }

  lemma PopMatches<F>(prog: seq<Slot>, distance: nat, frames: seq<Frame<F>>, stack: seq<Entry<F>>)
    requires StackMatches(prog, distance, frames, stack) && frames != []
    ensures |stack| >= 2 && stack[|stack| - 2] == Saved(frames[|frames| - 1].saved)
    ensures CallSite(prog, distance, frames[|frames| - 1].returnPc, stack[|stack| - 1])
    ensures StackMatches(prog, distance, frames[..|frames| - 1], stack[..|stack| - 1][..|stack| - 2])
  {
    hide CallSite;
    var k := |frames| - 1;
    assert 2 * k + 1 == |stack| - 1;
  }

  lemma RunCallTail<D, F>(m: Machine<D, F>, h: Host<D, F>, pc: nat)
    ensures RunOps(m, h, CallTail(pc)) ==
      match ExecRestore(m, h.(meter := Wrap(h.meter + pc + 1), index := h.index + 1))
      case Next(h') => Transfer(h'.(pc := NextSlot(m.prog, h'.pc), index := 0))
      case r => r
  {
    hide RunOps, ExecRestore;
    assert CallTail(pc) == [AddMeter(pc + 1)] + [RestoreFrame];
    RunCons(m, h, AddMeter(pc + 1), [RestoreFrame]);
    RunLast(m, h.(meter := Wrap(h.meter + pc + 1), index := h.index + 1), RestoreFrame);
  }

  /** A return runs the exit block and then the tail of the call it returns to. */
  lemma SimReturn<D(!new), F>(m: Machine<D, F>, distance: nat, s: State<D, F>, h: Host<D, F>)
    returns (h1: Host<D, F>, h2: Host<D, F>)
    requires WellFormed(m) && Metered(m, distance, s, h) && s.due < s.previous
    requires s.pc < |m.prog| && m.prog[s.pc] == Exit && s.frames != []
    ensures RunOps(m, h, Core(Exit, s.pc)) == Transfer(h1)
    ensures Remaining(m, distance, h1, CallTail(h1.pc)) && RunOps(m, h1, CallTail(h1.pc)) == Transfer(h2)
    ensures h2.index == 0 && Metered(m, distance, Returned'(m, s), h2)
    ensures Returned'(m, s).pc > 0 && IsInternalCall(m.prog[Returned'(m, s).pc - 1])
  {
    hide WellFormed, RunOps, StackMatches, Block, Core;
    var pc := s.pc;
    PopMatches(m.prog, distance, s.frames, h.stack);
    RunExit(m, h, pc);
    var top := h.stack[|h.stack| - 1];
    h1 := h.(scratch := pc, meter := h.meter - pc - 1, depth := h.depth - 1, stack := h.stack[..|h.stack| - 1],
             pc := top.pc, index := top.index);
    RunCallTail(m, h1, top.pc);
    h2 := h1.(meter := h1.meter + top.pc + 1, stack := h1.stack[..|h1.stack| - 1],
              data := m.leave(h.data, s.frames[|s.frames| - 1].saved), pc := top.pc + 1, index := 0);
  }
}
