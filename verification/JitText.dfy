/** The compiled text, run as one sequence of operations. Jumps and calls go to the positions recorded for
    slots, return addresses are positions, and falling out of one slot's code is just the next position. */
module JitText {
  import opened Words
  import opened Metering
  import opened JitCode
  import opened JitCompiler

  /** Where a state stands in the text. Here `pc` and `index`, like the two parts of a return address, are
      a base and an offset. */
  function Position<D, F>(h: Host<D, F>): nat { h.pc + h.index }

  /** The position recorded for a slot; a slot without one leads out of the text. */
  function SectionOf(text: seq<HostOp>, sections: seq<nat>, pc: nat): nat {
    if pc < |sections| then sections[pc] else |text|
  }

  function StepText<D, F>(m: Machine<D, F>, text: seq<HostOp>, sections: seq<nat>, h: Host<D, F>): (r: OpResult<D, F>)
    requires Position(h) < |text|
    ensures !r.Next?
  {
    var op := text[Position(h)];
    match Exec(m, h, op)
    case Next(h') => Transfer(h'.(index := h.index + 1))
    case Transfer(h') =>
      Transfer(if op == LeaveOrReturn then h' else h'.(pc := SectionOf(text, sections, h'.pc)))
    case Halt(o) => Halt(o)
  }

  /** Runs the text until the program ends, at most `fuel` operations. */
  function RunText<D, F>(m: Machine<D, F>, text: seq<HostOp>, sections: seq<nat>, h: Host<D, F>, fuel: nat)
    : Option<Outcome<D>>
    decreases fuel
  {
    if fuel == 0 || Position(h) >= |text| then None
    else
      match StepText(m, text, sections, h)
      case Halt(o) => Some(o)
      case Transfer(h') => RunText(m, text, sections, h', fuel - 1)
  }

  /** More fuel does not change the outcome, so a run has one. */
  lemma {:induction false} TextFuelIsEnough<D, F>(m: Machine<D, F>, text: seq<HostOp>, sections: seq<nat>,
                                                  h: Host<D, F>, fuel: nat, more: nat)
    requires fuel <= more && RunText(m, text, sections, h, fuel).Some?
    ensures RunText(m, text, sections, h, more) == RunText(m, text, sections, h, fuel)
    decreases fuel
  {
    hide StepText;
    match StepText(m, text, sections, h)
    case Halt(_) =>
    case Transfer(h') => TextFuelIsEnough(m, text, sections, h', fuel - 1, more - 1);
  }

  // ----- the text and the blocks -----

  /** The output of the compile loop */
  datatype Output = Output(prog: seq<Slot>, distance: nat, text: seq<HostOp>, sections: seq<nat>, end: nat)

  ghost predicate Compiled(c: Output) {
    && LaidOut(c.prog, c.distance, c.text, c.sections, |c.prog|, c.end)
    && c.end <= |c.text| && c.text[c.end..] == Bumper(|c.prog|)
  }

  /** Where the code of a slot stands, or the overrun handler */
  ghost function Place(c: Output, pc: nat): nat { if pc < |c.sections| then c.sections[pc] else c.end }

  /** A place in a block; only blocks of instructions are left by falling out. */
  ghost predicate Inside(c: Output, pc: nat, index: nat) {
    && pc <= |c.prog| && index <= |Block(c.prog, c.distance, pc)|
    && (index == |Block(c.prog, c.distance, pc)| ==> pc < |c.prog| && c.prog[pc] != LddwTail)
  }

  ghost predicate SameEntry<F>(c: Output, e: Entry<F>, f: Entry<F>) {
    match e
    case Saved(_) => f == e
    case Return(pc, index) => Inside(c, pc, index) && f.Return? && f.pc + f.index == Place(c, pc) + index
  }

  ghost predicate SameStack<F>(c: Output, stack: seq<Entry<F>>, stack': seq<Entry<F>>) {
    |stack| == |stack'| && forall i :: 0 <= i < |stack| ==> SameEntry(c, stack[i], stack'[i])
  }

  /** The same registers and stack, at the same place */
  ghost predicate Mirrors<D, F>(c: Output, h: Host<D, F>, t: Host<D, F>) {
    && Inside(c, h.pc, h.index) && Position(t) == Place(c, h.pc) + h.index
    && t == h.(pc := t.pc, index := t.index, stack := t.stack)
    && SameStack(c, h.stack, t.stack)
  }

  /** Jumps and calls of an operation go to slots. */
  ghost predicate TargetsSlot(prog: seq<Slot>, op: HostOp) {
    (op.Goto? || op.GotoIf? || op.CallHost?) ==> op.target < |prog|
  }

  lemma BlockTargets(prog: seq<Slot>, distance: nat, pc: nat, i: nat)
    requires pc <= |prog| && (pc < |prog| ==> SlotOk(prog, pc)) && i < |Block(prog, distance, pc)|
    ensures TargetsSlot(prog, Block(prog, distance, pc)[i])
  {
    hide LastValidation;
    if pc < |prog| && prog[pc] != LddwTail {
      var prefix := Prefix(prog, distance, pc);
      if i >= |prefix| {
        CoreTargets(prog, pc, i - |prefix|);
        assert Block(prog, distance, pc)[i] == Core(prog[pc], pc)[i - |prefix|];
      }
    }
  }

  lemma CoreTargets(prog: seq<Slot>, pc: nat, i: nat)
    requires pc < |prog| && SlotOk(prog, pc) && i < |Core(prog[pc], pc)|
    ensures TargetsSlot(prog, Core(prog[pc], pc)[i])
  {
  }

  /** Every operation of a block stands in the text behind the block's place. */
  lemma BlockInText(c: Output, pc: nat, index: nat)
    requires Compiled(c) && pc <= |c.prog| && index < |Block(c.prog, c.distance, pc)|
    ensures Place(c, pc) + index < |c.text| && c.text[Place(c, pc) + index] == Block(c.prog, c.distance, pc)[index]
  {
    hide Block, FallsThrough, Bumper;
    if pc < |c.prog| {
      assert Placed(c.prog, c.distance, c.text, pc, c.sections[pc]);
      SliceAt(c.text, c.sections[pc], Block(c.prog, c.distance, pc), index);
    } else {
      BumperIsBlock(c);
      assert c.text[c.end..][index] == c.text[c.end + index];
    }
  }

  lemma BumperIsBlock(c: Output)
    ensures Block(c.prog, c.distance, |c.prog|) == Bumper(|c.prog|)
  {
  }

  lemma SliceAt(text: seq<HostOp>, at: nat, block: seq<HostOp>, i: nat)
    requires at + |block| <= |text| && text[at..at + |block|] == block && i < |block|
    ensures text[at + i] == block[i]
  {
  }

  /** The end of a block is the place of the next slot. */
  lemma EndOfBlock(c: Output, pc: nat)
    requires Compiled(c) && pc <= |c.prog| && Inside(c, pc, |Block(c.prog, c.distance, pc)|)
    ensures var next := NextSlot(c.prog, pc);
      Inside(c, next, 0) && Place(c, pc) + |Block(c.prog, c.distance, pc)| == Place(c, next)
  {
    hide Placed;
    assert FallsThrough(c.prog, c.distance, c.sections, |c.prog|, c.end, pc);
    hide Block;
    SlotStart(c, NextSlot(c.prog, pc));
  }

  lemma SlotStart(c: Output, pc: nat)
    requires pc <= |c.prog|
    ensures Inside(c, pc, 0)
  {
    hide Prefix, Core;
  }

  // ----- one operation -----

  /** Operations that only touch registers */
  predicate Plain(op: HostOp) {
    op.LoadScratch? || op.Validate? || op.AddMeter? || op.RunBody? || op.LoadWide? || op.CallExternal? || op.Throw?
  }

  /** Both results are the same but for the place and the stack. */
  ghost predicate SameResult<D, F>(h: Host<D, F>, t: Host<D, F>, r: OpResult<D, F>, r': OpResult<D, F>) {
    match r
    case Next(h') =>
      && r' == Next(h'.(pc := t.pc, index := t.index, stack := t.stack))
      && h'.pc == h.pc && h'.index == h.index && h'.stack == h.stack
    case Halt(o) => r' == Halt(o)
    case Transfer(_) => false
  }

  /** Registers do not depend on the place or the stack. */
  lemma PlainSame<D, F>(m: Machine<D, F>, h: Host<D, F>, t: Host<D, F>, op: HostOp)
    requires Plain(op) && t == h.(pc := t.pc, index := t.index, stack := t.stack)
    ensures SameResult(h, t, Exec(m, h, op), Exec(m, t, op)) && (op.Throw? ==> Exec(m, h, op).Halt?)
  {
    hide Wrap;
    match op
    case CallExternal(pc) => ExternalSame(m, h, t, pc); hide ExecExternal;
    case RunBody(pc) => BodySame(m, h, t, pc);
    case Throw(e) => ThrowSame(h, t, e); hide ThrowException;
    case _ =>
      hide ExecExternal;
  }

  lemma ThrowSame<D, F>(h: Host<D, F>, t: Host<D, F>, e: Error)
    requires t == h.(pc := t.pc, index := t.index, stack := t.stack)
    ensures ThrowException(h, e) == ThrowException(t, e)
  {
    hide Wrap;
  }

  lemma BodySame<D, F>(m: Machine<D, F>, h: Host<D, F>, t: Host<D, F>, pc: nat)
    requires t == h.(pc := t.pc, index := t.index, stack := t.stack)
    ensures SameResult(h, t, Exec(m, h, RunBody(pc)), Exec(m, t, RunBody(pc)))
  {
    hide Wrap, ThrowException;
    match m.exec(pc, h.data)
    case Done(_) =>
    case Failed(e) =>
      ThrowSame(h.(straight := h.straight + 1, scratch := Wrap(pc)),
                t.(straight := h.straight + 1, scratch := Wrap(pc)),
                InstructionError(e));
  }

  lemma ExternalSame<D, F>(m: Machine<D, F>, h: Host<D, F>, t: Host<D, F>, pc: nat)
    requires t == h.(pc := t.pc, index := t.index, stack := t.stack)
    ensures SameResult(h, t, ExecExternal(m, h, pc), ExecExternal(m, t, pc))
  {
    hide Wrap;
  }

  /** What `StepText` has to do for an operation of a block */
  ghost predicate StepMirrors<D, F>(c: Output, h: Host<D, F>, r: OpResult<D, F>, r': OpResult<D, F>) {
    match r
    case Next(h') => r'.Transfer? && Mirrors(c, h'.(index := h.index + 1), r'.host)
    case Transfer(h') => r'.Transfer? && Mirrors(c, h', r'.host)
    case Halt(o) => r' == Halt(o)
  }

  /** The state stands before operation `op` of its block. */
  ghost predicate Before<D, F>(c: Output, h: Host<D, F>, t: Host<D, F>, op: HostOp) {
    && Mirrors(c, h, t) && (!op.Throw? ==> Inside(c, h.pc, h.index + 1))
    && Position(t) < |c.text| && c.text[Position(t)] == op
  }

  lemma PlainStep<D, F>(m: Machine<D, F>, c: Output, h: Host<D, F>, t: Host<D, F>, op: HostOp)
    requires Before(c, h, t, op) && Plain(op)
    ensures StepMirrors(c, h, Exec(m, h, op), StepText(m, c.text, c.sections, t))
  {
    hide Exec, Inside, Place, SameEntry;
    PlainSame(m, h, t, op);
  }

  lemma StackPush<F>(c: Output, stack: seq<Entry<F>>, stack': seq<Entry<F>>, e: Entry<F>, f: Entry<F>)
    requires SameStack(c, stack, stack') && SameEntry(c, e, f)
    ensures SameStack(c, stack + [e], stack' + [f])
  {
    hide SameEntry;
  }

  lemma StackPop<F>(c: Output, stack: seq<Entry<F>>, stack': seq<Entry<F>>)
    requires SameStack(c, stack, stack') && stack != []
    ensures SameStack(c, stack[..|stack| - 1], stack'[..|stack| - 1])
    ensures SameEntry(c, stack[|stack| - 1], stack'[|stack| - 1])
  {
    hide SameEntry;
  }

  lemma PrologueStep<D, F>(m: Machine<D, F>, c: Output, h: Host<D, F>, t: Host<D, F>)
    requires Before(c, h, t, Prologue)
    ensures StepMirrors(c, h, Exec(m, h, Prologue), StepText(m, c.text, c.sections, t))
  {
    hide Inside, Place, SameStack, Wrap;
    var e := Saved(m.save(h.data));
    StackPush(c, h.stack, t.stack, e, e);
  }

  lemma RestoreStep<D, F>(m: Machine<D, F>, c: Output, h: Host<D, F>, t: Host<D, F>)
    requires Before(c, h, t, RestoreFrame)
    ensures StepMirrors(c, h, Exec(m, h, RestoreFrame), StepText(m, c.text, c.sections, t))
  {
    hide Inside, Place;
    if h.stack != [] {
      StackPop(c, h.stack, t.stack);
      hide SameStack;
    }
  }

  lemma LeaveStep<D, F>(m: Machine<D, F>, c: Output, h: Host<D, F>, t: Host<D, F>)
    requires Before(c, h, t, LeaveOrReturn)
    ensures StepMirrors(c, h, Exec(m, h, LeaveOrReturn), StepText(m, c.text, c.sections, t))
  {
    hide Inside, Place, Wrap;
    if h.stack != [] {
      StackPop(c, h.stack, t.stack);
      hide SameStack;
    }
  }

  /** Arriving at a slot */
  lemma Arrives<D, F>(c: Output, h: Host<D, F>, t: Host<D, F>, pc: nat)
    requires Compiled(c) && pc < |c.prog| && t == h.(pc := t.pc, index := t.index, stack := t.stack)
    requires SameStack(c, h.stack, t.stack)
    ensures Mirrors(c, h.(pc := pc, index := 0), t.(pc := SectionOf(c.text, c.sections, pc), index := 0))
  {
    hide Placed, FallsThrough, SameStack, Inside;
    SlotStart(c, pc);
  }

  lemma GotoStep<D, F>(m: Machine<D, F>, c: Output, h: Host<D, F>, t: Host<D, F>, op: HostOp)
    requires Compiled(c) && Before(c, h, t, op) && (op.Goto? || op.GotoIf?) && op.target < |c.prog|
    ensures StepMirrors(c, h, Exec(m, h, op), StepText(m, c.text, c.sections, t))
  {
    hide Compiled, Inside, Place, SameStack, SectionOf;
    Arrives(c, h, t, op.target);
  }

  lemma ReturnPushed<D, F>(c: Output, h: Host<D, F>, t: Host<D, F>, op: HostOp)
    requires Before(c, h, t, op) && !op.Throw?
    ensures SameStack(c, h.stack + [Return(h.pc, h.index + 1)], t.stack + [Return(t.pc, t.index + 1)])
  {
    hide Inside, Place, SameStack;
    StackPush(c, h.stack, t.stack, Return(h.pc, h.index + 1), Return(t.pc, t.index + 1));
  }

  lemma CallStep<D, F>(m: Machine<D, F>, c: Output, h: Host<D, F>, t: Host<D, F>, op: HostOp)
    requires Compiled(c) && Before(c, h, t, op) && op.CallHost? && op.target < |c.prog|
    ensures StepMirrors(c, h, Exec(m, h, op), StepText(m, c.text, c.sections, t))
  {
    hide Compiled, Inside, Place, SameStack, SectionOf;
    ReturnPushed(c, h, t, op);
    Arrives(c, h.(stack := h.stack + [Return(h.pc, h.index + 1)]), t.(stack := t.stack + [Return(t.pc, t.index + 1)]),
            op.target);
  }

  lemma CallRegStep<D, F>(m: Machine<D, F>, c: Output, h: Host<D, F>, t: Host<D, F>, op: HostOp)
    requires Compiled(c) && c.prog == m.prog && Before(c, h, t, op) && op.CallHostReg?
    ensures StepMirrors(c, h, Exec(m, h, op), StepText(m, c.text, c.sections, t))
  {
    hide Compiled, Inside, Place, SameStack, SectionOf, Wrap;
    var target := m.callee(op.pc, h.data);
    if target < |m.prog| {
      ReturnPushed(c, h, t, op);
      var meter := Wrap(Wrap(Wrap(h.meter - h.scratch) - 1) + target);
      Arrives(c, h.(meter := meter, scratch := Wrap(target), stack := h.stack + [Return(h.pc, h.index + 1)]),
              t.(meter := meter, scratch := Wrap(target), stack := t.stack + [Return(t.pc, t.index + 1)]), target);
    }
  }

  lemma AnyStep<D, F>(m: Machine<D, F>, c: Output, h: Host<D, F>, t: Host<D, F>, op: HostOp)
    requires Compiled(c) && c.prog == m.prog && Before(c, h, t, op) && TargetsSlot(c.prog, op)
    ensures StepMirrors(c, h, Exec(m, h, op), StepText(m, c.text, c.sections, t))
  {
    hide Compiled, Before, StepMirrors, Exec, StepText;
    match op
    case Prologue => PrologueStep(m, c, h, t);
    case RestoreFrame => RestoreStep(m, c, h, t);
    case LeaveOrReturn => LeaveStep(m, c, h, t);
    case Goto(_) => GotoStep(m, c, h, t, op);
    case GotoIf(_, _) => GotoStep(m, c, h, t, op);
    case CallHost(_) => CallStep(m, c, h, t, op);
    case CallHostReg(_) => CallRegStep(m, c, h, t, op);
    case _ => PlainStep(m, c, h, t, op);
  }

  // ----- whole runs -----

  /** A block in the middle does its next operation. */
  lemma BeforeNext<D(!new), F>(m: Machine<D, F>, c: Output, h: Host<D, F>, t: Host<D, F>)
    requires WellFormed(m) && Compiled(c) && c.prog == m.prog && Mirrors(c, h, t)
    requires h.index < |Block(c.prog, c.distance, h.pc)|
    ensures var op := Block(c.prog, c.distance, h.pc)[h.index];
      Before(c, h, t, op) && TargetsSlot(c.prog, op)
  {
    hide Block, Compiled, Place, SameStack, SlotOk, TargetsSlot;
    BlockInText(c, h.pc, h.index);
    LastOp(c, h.pc);
    if h.pc < |m.prog| {
      assert SlotOk(m.prog, h.pc);
    }
    BlockTargets(c.prog, c.distance, h.pc, h.index);
  }

  /** Handlers and the code of second halves end in a throw, so that nothing falls out of them. */
  ghost predicate EndsInThrow(ops: seq<HostOp>) { ops != [] && ops[|ops| - 1].Throw? }

  lemma LastOp(c: Output, pc: nat)
    requires pc <= |c.prog|
    ensures pc == |c.prog| || c.prog[pc] == LddwTail ==> EndsInThrow(Block(c.prog, c.distance, pc))
  {
  }

  lemma RunHostNext<D, F>(m: Machine<D, F>, distance: nat, h: Host<D, F>, fuel: nat)
    requires fuel > 0 && h.pc <= |m.prog| && h.index < |Block(m.prog, distance, h.pc)|
    ensures var op := Block(m.prog, distance, h.pc)[h.index];
      match Exec(m, h, op)
      case Next(h') => h'.pc == h.pc ==>
        RunHost(m, distance, h, fuel) == RunHost(m, distance, h'.(index := h.index + 1), fuel)
      case Transfer(h') => RunHost(m, distance, h, fuel) == RunHost(m, distance, h', fuel - 1)
      case Halt(o) => RunHost(m, distance, h, fuel) == Some(o)
  {
    hide Block, Exec;
    var block := Block(m.prog, distance, h.pc);
    assert block[h.index..][0] == block[h.index] && block[h.index..][1..] == block[h.index + 1..];
  }

  lemma RunHostFalls<D, F>(m: Machine<D, F>, distance: nat, h: Host<D, F>, fuel: nat)
    requires fuel > 0 && h.pc <= |m.prog| && h.index == |Block(m.prog, distance, h.pc)|
    ensures RunHost(m, distance, h, fuel)
      == RunHost(m, distance, h.(pc := NextSlot(m.prog, h.pc), index := 0), fuel - 1)
  {
    hide Block, Exec;
    var block := Block(m.prog, distance, h.pc);
    assert block[h.index..] == [];
  }

  lemma KeepsPc<D, F>(m: Machine<D, F>, h: Host<D, F>, op: HostOp)
    ensures Exec(m, h, op).Next? ==> Exec(m, h, op).host.pc == h.pc
  {
    hide Epilogue, Wrap;
  }

  /** Falling out of a block */
  lemma Falls<D, F>(c: Output, h: Host<D, F>, t: Host<D, F>)
    requires Compiled(c) && Mirrors(c, h, t) && h.pc <= |c.prog| && h.index == |Block(c.prog, c.distance, h.pc)|
    ensures Mirrors(c, h.(pc := NextSlot(c.prog, h.pc), index := 0), t)
  {
    hide Compiled, Block, SameStack, Inside, Place;
    EndOfBlock(c, h.pc);
  }

  /** The next operation of a block, in the text */
  lemma NextOp<D(!new), F>(m: Machine<D, F>, c: Output, h: Host<D, F>, t: Host<D, F>)
    requires WellFormed(m) && Compiled(c) && c.prog == m.prog && Mirrors(c, h, t)
    requires h.pc <= |c.prog| && h.index < |Block(c.prog, c.distance, h.pc)|
    ensures Position(t) < |c.text|
    ensures StepMirrors(c, h, Exec(m, h, Block(c.prog, c.distance, h.pc)[h.index]), StepText(m, c.text, c.sections, t))
  {
    hide Compiled, Block, WellFormed, Exec, StepText, Mirrors, StepMirrors;
    BeforeNext(m, c, h, t);
    AnyStep(m, c, h, t, Block(c.prog, c.distance, h.pc)[h.index]);
  }

  lemma FuelNeeded<D, F>(m: Machine<D, F>, c: Output, h: Host<D, F>, t: Host<D, F>, fuel: nat)
    requires c.prog == m.prog && Mirrors(c, h, t) && RunHost(m, c.distance, h, fuel).Some?
    ensures fuel > 0 && h.pc <= |c.prog| && h.index <= |Block(c.prog, c.distance, h.pc)|
  {
    hide Block, RunOps, SameStack;
  }

  /** Running the text gives the outcome of running the blocks. */
  lemma {:induction false} TextRunsBlocks<D(!new), F>(m: Machine<D, F>, c: Output, h: Host<D, F>, t: Host<D, F>,
                                                      fuel: nat)
    returns (steps: nat)
    requires WellFormed(m) && Compiled(c) && c.prog == m.prog && Mirrors(c, h, t)
    requires RunHost(m, c.distance, h, fuel).Some?
    ensures RunText(m, c.text, c.sections, t, steps) == RunHost(m, c.distance, h, fuel)
    decreases fuel, if h.pc <= |c.prog| then |Block(c.prog, c.distance, h.pc)| - h.index else 0
  {
    hide RunHost, Exec, StepText, Block, Compiled, WellFormed, Mirrors, NextSlot;
    FuelNeeded(m, c, h, t, fuel);
    var block := Block(c.prog, c.distance, h.pc);
    if h.index == |block| {
      RunHostFalls(m, c.distance, h, fuel);
      Falls(c, h, t);
      steps := TextRunsBlocks(m, c, h.(pc := NextSlot(m.prog, h.pc), index := 0), t, fuel - 1);
    } else {
      var op := block[h.index];
      NextOp(m, c, h, t);
      KeepsPc(m, h, op);
      RunHostNext(m, c.distance, h, fuel);
      var r := StepText(m, c.text, c.sections, t);
      match Exec(m, h, op) {
        case Halt(_) => steps := 1;
        case Next(h') =>
          steps := TextRunsBlocks(m, c, h'.(index := h.index + 1), r.host, fuel);
          steps := steps + 1;
        case Transfer(h') =>
          steps := TextRunsBlocks(m, c, h', r.host, fuel - 1);
          steps := steps + 1;
      }
    }
  }
}
