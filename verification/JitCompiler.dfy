/** The compile loop: it lays the blocks of module JitCode out one after the other and records where
    each slot starts. */
module JitCompiler {
  import opened Words
  import opened Metering
  import opened JitCode

  ghost predicate BeforeTail(prog: seq<Slot>, pc: nat) { pc + 1 < |prog| && prog[pc + 1] == LddwTail }

  ghost predicate BehindLddw(prog: seq<Slot>, pc: nat) { 0 < pc <= |prog| && prog[pc - 1] == Lddw }

  /** Every wide load has its second half behind it, and second halves stand nowhere else. */
  ghost predicate Paired(prog: seq<Slot>) {
    && (forall pc :: 0 <= pc < |prog| && prog[pc] == Lddw ==> BeforeTail(prog, pc))
    && (forall pc :: 0 <= pc < |prog| && prog[pc] == LddwTail ==> BehindLddw(prog, pc))
  }

  /** The code of slot `pc` stands at offset `at`. */
  ghost predicate Placed(prog: seq<Slot>, distance: nat, text: seq<HostOp>, pc: nat, at: nat)
    requires pc <= |prog|
  {
    var block := Block(prog, distance, pc);
    at + |block| <= |text| && text[at..at + |block|] == block
  }

  /** Falling out of slot `q` leads to the code of the next slot, or to `end` if that is slot `pc`. */
  ghost predicate FallsThrough(prog: seq<Slot>, distance: nat, sections: seq<nat>, pc: nat, end: nat, q: nat) {
    && q < pc <= |prog| == |sections|
    && (prog[q] != LddwTail ==>
          var next := NextSlot(prog, q);
          next <= pc && sections[q] + |Block(prog, distance, q)| == if next < pc then sections[next] else end)
  }

  /** The slots before `pc` are placed and chained up to offset `end`. */
  ghost predicate LaidOut(prog: seq<Slot>, distance: nat, text: seq<HostOp>, sections: seq<nat>, pc: nat, end: nat) {
    && pc <= |prog| == |sections| && 0 < end <= |text| && text[0] == Throw(UnsupportedInstruction)
    && (if pc == 0 then end == 1 else sections[0] == 1)
    && (forall q :: 0 <= q < pc && prog[q] == LddwTail ==> sections[q] == 0)
    && (forall q :: 0 <= q < pc ==> Placed(prog, distance, text, q, sections[q]))
    && (forall q :: 0 <= q < pc ==> FallsThrough(prog, distance, sections, pc, end, q))
  }

  class JitCompiler {
    const prog: seq<Slot>
    const distance: nat
    var pc: nat
    var lastValidationPc: nat
    var text: seq<HostOp>
    var pcSection: array<nat>

    /** The text section starts with the handler for unsupported instructions. */
    constructor (prog: seq<Slot>, distance: nat)
      ensures this.prog == prog && this.distance == distance && pc == 0 && lastValidationPc == 0
      ensures text == [Throw(UnsupportedInstruction)] && fresh(pcSection) && pcSection.Length == |prog|
    {
      this.prog, this.distance, pc, lastValidationPc := prog, distance, 0, 0;
      text := [Throw(UnsupportedInstruction)];
      pcSection := new nat[|prog|](_ => 0);
    }

    method EmitValidateInstructionCount()
      modifies this`lastValidationPc, this`text
      ensures lastValidationPc == pc && text == old(text) + ValidateOps(pc)
    {
      lastValidationPc := pc;
      text := text + [LoadScratch(pc)];
      text := text + [Validate];
    }

    method EmitProfileInstructionCount(targetPc: nat)
      modifies this`text
      ensures text == old(text) + [AddMeter(targetPc - pc - 1)]
    {
      text := text + [AddMeter(targetPc - pc - 1)];
    }

    method EmitUndoProfileInstructionCount(targetPc: nat)
      modifies this`text
      ensures text == old(text) + [AddMeter(pc + 1 - targetPc)]
    {
      text := text + [AddMeter(pc + 1 - targetPc)];
    }

    method EmitValidateAndProfileInstructionCount(targetPc: nat)
      modifies this`lastValidationPc, this`text
      ensures lastValidationPc == pc && text == old(text) + (ValidateOps(pc) + [AddMeter(targetPc - pc - 1)])
    {
      EmitValidateInstructionCount();
      EmitProfileInstructionCount(targetPc);
    }

    /** A call to a known target, or through a register when there is none */
    method EmitInternalCall(target: Option<nat>)
      modifies this`lastValidationPc, this`text
      ensures lastValidationPc == pc
      ensures text == old(text) + if target.Some? then InternalOps(pc, false, target) else Core(CallReg, pc)
    {
      text := text + [LoadScratch(pc)];
      lastValidationPc := pc;
      text := text + [Prologue];
      match target {
        case None => text := text + [CallHostReg(pc)];
        case Some(t) =>
          EmitProfileInstructionCount(t);
          text := text + [LoadScratch(t)];
          text := text + [CallHost(t)];
      }
      EmitUndoProfileInstructionCount(0);
      text := text + [RestoreFrame];
    }

    method EmitCallImm(external: bool, internal: Option<nat>)
      modifies this`lastValidationPc, this`text
      ensures text == old(text) + Core(Call(external, internal), pc)
      ensures lastValidationPc == if external || internal.Some? then pc else old(lastValidationPc)
    {
      if external {
        EmitValidateAndProfileInstructionCount(0);
        text := text + [CallExternal(pc)];
        EmitUndoProfileInstructionCount(0);
      }
      assert text == old(text) + ExternalOps(pc, external);
      if internal.Some? {
        EmitInternalCall(internal);
      } else if !external {
        text := text + [LoadScratch(pc)];
        text := text + [Throw(UnsupportedInstruction)];
      }
      assert text == old(text) + (ExternalOps(pc, external) + InternalOps(pc, external, internal));
    }

    method EmitJump(t: nat, conditional: bool)
      modifies this`lastValidationPc, this`text
      ensures text == old(text) + Core(if conditional then Branch(t) else Jump(t), pc) && lastValidationPc == pc
    {
      EmitValidateAndProfileInstructionCount(t);
      if conditional {
        text := text + [GotoIf(pc, t)];
        EmitUndoProfileInstructionCount(t);
      } else {
        text := text + [Goto(t)];
      }
    }

    method EmitExit()
      modifies this`lastValidationPc, this`text
      ensures text == old(text) + Core(Exit, pc) && lastValidationPc == pc
    {
      EmitValidateAndProfileInstructionCount(0);
      text := text + [LeaveOrReturn];
    }

    /** Also skips the second half and points it at the handler at the start of the text. */
    method EmitLddw()
      requires pc + 1 < pcSection.Length
      modifies this`pc, this`lastValidationPc, this`text, pcSection
      ensures text == old(text) + Core(Lddw, old(pc)) && lastValidationPc == old(pc) && pc == old(pc) + 1
      ensures pcSection[..] == old(pcSection[..])[old(pc) + 1 := 0]
    {
      EmitValidateAndProfileInstructionCount(pc + 2);
      var wide := LoadWide(pc);
      pc := pc + 1;
      pcSection[pc] := 0;
      text := text + [wide];
    }

    /** The code of one slot behind its checkpoint */
    method EmitSlot()
      requires pc < |prog| == pcSection.Length && prog[pc] != LddwTail && Paired(prog)
      modifies this`pc, this`lastValidationPc, this`text, pcSection
      ensures text == old(text) + Core(prog[old(pc)], old(pc))
      ensures lastValidationPc == if Validates(prog[old(pc)]) then old(pc) else old(lastValidationPc)
      ensures pc + 1 == NextSlot(prog, old(pc))
      ensures pcSection[..] ==
        if prog[old(pc)] == Lddw then old(pcSection[..])[old(pc) + 1 := 0] else old(pcSection[..])
    {
      match prog[pc] {
        case Straight => text := text + [RunBody(pc)];
        case Lddw => EmitLddw();
        case Jump(t) => EmitJump(t, false);
        case Branch(t) => EmitJump(t, true);
        case Call(external, internal) => EmitCallImm(external, internal);
        case CallReg => EmitInternalCall(None);
        case Exit => EmitExit();
      }
    }

    /** Compiles the whole program: every slot's code is where its section says, falling out of it
        leads to the next slot, and falling out of the last one to the overrun handler at `end`. */
    method Compile() returns (end: nat)
      requires pc == 0 && lastValidationPc == 0 && text == [Throw(UnsupportedInstruction)]
      requires pcSection.Length == |prog| && Paired(prog)
      modifies this, pcSection
      ensures pcSection == old(pcSection) && LaidOut(prog, distance, text, pcSection[..], |prog|, end)
      ensures text[end..] == Bumper(|prog|)
    {
      hide LaidOut, Core, Block;
      NothingLaidOut(prog, distance, pcSection[..]);
      while pc < |prog|
        invariant pc <= |prog| && pcSection == old(pcSection)
        invariant pc < |prog| ==> prog[pc] != LddwTail
        invariant lastValidationPc == LastValidation(prog, distance, pc)
        invariant LaidOut(prog, distance, text, pcSection[..], pc, |text|)
      {
        ghost var start, here, sections := pc, text, pcSection[..];
        CompileSlot();
        LayOut(prog, distance, here, sections, start, pcSection[..]);
        NextLast(prog, distance, start);
      }
      end := |text|;
      ghost var body := text;
      EmitValidateAndProfileInstructionCount(pc + 1);
      text := text + [LoadScratch(pc)];
      text := text + [Throw(ExecutionOverrun)];
      assert text == body + Bumper(pc);
      LaidOutLonger(prog, distance, body, pcSection[..], Bumper(pc));
    }

    /** One turn of the compile loop */
    method CompileSlot()
      requires pc < |prog| == pcSection.Length && prog[pc] != LddwTail && Paired(prog)
      requires lastValidationPc == LastValidation(prog, distance, pc)
      modifies this`pc, this`lastValidationPc, this`text, pcSection
      ensures text == old(text) + Block(prog, distance, old(pc)) && pc == NextSlot(prog, old(pc))
      ensures lastValidationPc ==
        if NeedsCheckpoint(prog, distance, old(pc)) || Validates(prog[old(pc)]) then old(pc) else old(lastValidationPc)
      ensures pcSection[..] ==
        var s := old(pcSection[..])[old(pc) := |old(text)|];
        if prog[old(pc)] == Lddw then s[old(pc) + 1 := 0] else s
    {
      hide Core, Prefix, LastValidation, NeedsCheckpoint, Paired;
      pcSection[pc] := |text|;
      EmitCheckpoint();
      EmitSlot();
      pc := pc + 1;
      assert text == old(text) + (Prefix(prog, distance, old(pc)) + Core(prog[old(pc)], old(pc)));
    }

    /** A checkpoint, when the last one is too far back */
    method EmitCheckpoint()
      requires pc < |prog| && lastValidationPc == LastValidation(prog, distance, pc)
      modifies this`lastValidationPc, this`text
      ensures text == old(text) + Prefix(prog, distance, pc)
      ensures lastValidationPc == if NeedsCheckpoint(prog, distance, pc) then pc else old(lastValidationPc)
    {
      hide LastValidation;
      if lastValidationPc + distance <= pc {
        EmitValidateInstructionCount();
      } else {
        assert text == text + [];
      }
    }
  }

  lemma NothingLaidOut(prog: seq<Slot>, distance: nat, sections: seq<nat>)
    requires |prog| == |sections|
    ensures LaidOut(prog, distance, [Throw(UnsupportedInstruction)], sections, 0, 1)
  {
  }

  lemma NextLast(prog: seq<Slot>, distance: nat, pc: nat)
    requires pc < |prog| && prog[pc] != LddwTail && Paired(prog)
    ensures NextSlot(prog, pc) <= |prog|
    ensures NextSlot(prog, pc) < |prog| ==> prog[NextSlot(prog, pc)] != LddwTail
    ensures LastValidation(prog, distance, NextSlot(prog, pc)) ==
      if NeedsCheckpoint(prog, distance, pc) || Validates(prog[pc]) then pc else LastValidation(prog, distance, pc)
  {
  }

  lemma PlacedLonger(prog: seq<Slot>, distance: nat, text: seq<HostOp>, pc: nat, at: nat, more: seq<HostOp>)
    requires pc <= |prog| && Placed(prog, distance, text, pc, at)
    ensures Placed(prog, distance, text + more, pc, at)
  {
    hide Block;
    var n := |Block(prog, distance, pc)|;
    assert (text + more)[at..at + n] == text[at..at + n];
  }

  lemma LaidOutLonger(prog: seq<Slot>, distance: nat, text: seq<HostOp>, sections: seq<nat>, more: seq<HostOp>)
    requires LaidOut(prog, distance, text, sections, |prog|, |text|)
    ensures LaidOut(prog, distance, text + more, sections, |prog|, |text|)
  {
    hide Placed, FallsThrough;
    forall q | 0 <= q < |prog| ensures Placed(prog, distance, text + more, q, sections[q]) {
      PlacedLonger(prog, distance, text, q, sections[q], more);
    }
  }

  lemma LayOut(prog: seq<Slot>, distance: nat, text: seq<HostOp>, sections: seq<nat>, pc: nat, sections': seq<nat>)
    requires LaidOut(prog, distance, text, sections, pc, |text|) && pc < |prog| && prog[pc] != LddwTail && Paired(prog)
    requires sections' == if prog[pc] == Lddw then sections[pc := |text|][pc + 1 := 0] else sections[pc := |text|]
    ensures var text' := text + Block(prog, distance, pc);
      LaidOut(prog, distance, text', sections', NextSlot(prog, pc), |text'|)
  {
    hide Block, Placed, Paired;
    SlotWidth(prog, pc);
    var block := Block(prog, distance, pc);
    var text' := text + block;
    forall q | 0 <= q < NextSlot(prog, pc)
      ensures Placed(prog, distance, text', q, sections'[q])
      ensures FallsThrough(prog, distance, sections', NextSlot(prog, pc), |text'|, q)
    {
      if q < pc {
        assert FallsThrough(prog, distance, sections, pc, |text|, q);
        PlacedLonger(prog, distance, text, q, sections[q], block);
      } else if q == pc {
        PlacedAtEnd(prog, distance, text, pc);
      } else {
        TailPlaced(prog, distance, text', q);
      }
    }
  }

  lemma SlotWidth(prog: seq<Slot>, pc: nat)
    requires pc < |prog| && Paired(prog)
    ensures
      || NextSlot(prog, pc) == pc + 1
      || (NextSlot(prog, pc) == pc + 2 <= |prog| && prog[pc] == Lddw && prog[pc + 1] == LddwTail)
  {
  }

  lemma PlacedAtEnd(prog: seq<Slot>, distance: nat, text: seq<HostOp>, pc: nat)
    requires pc <= |prog|
    ensures Placed(prog, distance, text + Block(prog, distance, pc), pc, |text|)
  {
    hide Block;
    var block := Block(prog, distance, pc);
    assert (text + block)[|text|..|text| + |block|] == block;
  }

  lemma TailPlaced(prog: seq<Slot>, distance: nat, text: seq<HostOp>, pc: nat)
    requires pc < |prog| && prog[pc] == LddwTail && text != [] && text[0] == Throw(UnsupportedInstruction)
    ensures Placed(prog, distance, text, pc, 0)
  {
    assert text[0..1] == [Throw(UnsupportedInstruction)];
  }
}
