/** The metering part of the code the compiler emits for each instruction slot, and its meaning.
    The meter register holds the largest pc the remaining budget can reach. */
module JitCode {
  import opened Words
  import opened Metering

  datatype HostOp =
    | LoadScratch(value: nat)     // scratch := value
    | Validate                    // compare the meter with scratch, throw if it is not above
    | AddMeter(amount: int)       // profile or undo profile
    | RunBody(pc: nat)            // the straight-line instruction of a slot
    | LoadWide(pc: nat)           // the load of a slot's wide immediate
    | Goto(target: nat)
    | GotoIf(pc: nat, target: nat)
    | CallExternal(pc: nat)       // subroutine for the syscall of a slot
    | Prologue                    // subroutine that saves the caller's frame
    | CallHost(target: nat)
    | CallHostReg(pc: nat)        // subroutine for the register call of a slot
    | RestoreFrame
    | LeaveOrReturn
    | Throw(error: Error)

  // ----- what is emitted -----

  function ValidateOps(pc: nat): seq<HostOp> { [LoadScratch(pc), Validate] }

  /** After a call returns, the meter counted towards pc 0 is corrected and the frame restored. */
  function CallTail(pc: nat): seq<HostOp> { [AddMeter(pc + 1), RestoreFrame] }

  function ExternalOps(pc: nat, external: bool): seq<HostOp> {
    if external then ValidateOps(pc) + [AddMeter(0 - pc - 1), CallExternal(pc), AddMeter(pc + 1 - 0)] else []
  }

  function InternalOps(pc: nat, external: bool, internal: Option<nat>): seq<HostOp> {
    match internal
    case Some(t) => [LoadScratch(pc), Prologue, AddMeter(t - pc - 1), LoadScratch(t), CallHost(t)] + CallTail(pc)
    case None => if external then [] else [LoadScratch(pc), Throw(UnsupportedInstruction)]
  }

  function Core(slot: Slot, pc: nat): seq<HostOp> {
    match slot
    case Straight => [RunBody(pc)]
    case Lddw => ValidateOps(pc) + [AddMeter(pc + 2 - pc - 1), LoadWide(pc)]
    case LddwTail => []
    case Jump(t) => ValidateOps(pc) + [AddMeter(t - pc - 1), Goto(t)]
    case Branch(t) => ValidateOps(pc) + [AddMeter(t - pc - 1), GotoIf(pc, t), AddMeter(pc + 1 - t)]
    case Call(external, internal) => ExternalOps(pc, external) + InternalOps(pc, external, internal)
    case CallReg => [LoadScratch(pc), Prologue, CallHostReg(pc)] + CallTail(pc)
    case Exit => ValidateOps(pc) + [AddMeter(0 - pc - 1), LeaveOrReturn]
  }

  /** The slot validates the meter by itself, so it also counts as a checkpoint. */
  predicate Validates(slot: Slot) {
    match slot
    case Straight => false
    case LddwTail => false
    case Call(external, internal) => external || internal.Some?
    case _ => true
  }

  /** `last_instruction_meter_validation_pc` when the compiler reaches slot `pc` */
  function LastValidation(prog: seq<Slot>, distance: nat, pc: nat): (last: nat)
    requires pc <= |prog|
    ensures last <= pc
    decreases pc, 0
  {
    if pc == 0 then 0
    else
      var q := if prog[pc - 1] == LddwTail && pc >= 2 then pc - 2 else pc - 1;
      if NeedsCheckpoint(prog, distance, q) || Validates(prog[q]) then q
      else LastValidation(prog, distance, q)
  }

  predicate NeedsCheckpoint(prog: seq<Slot>, distance: nat, pc: nat)
    requires pc <= |prog|
    decreases pc, 1
  {
    LastValidation(prog, distance, pc) + distance <= pc
  }

  function Prefix(prog: seq<Slot>, distance: nat, pc: nat): seq<HostOp>
    requires pc <= |prog|
  {
    if NeedsCheckpoint(prog, distance, pc) then ValidateOps(pc) else []
  }

  /** Reached by running off the end of the program */
  function Bumper(pc: nat): seq<HostOp> {
    ValidateOps(pc) + [AddMeter(pc + 1 - pc - 1), LoadScratch(pc), Throw(ExecutionOverrun)]
  }

  /** The code at the host address recorded for slot `pc`; for the second half of a wide load that
      is the handler for unsupported instructions. */
  function Block(prog: seq<Slot>, distance: nat, pc: nat): seq<HostOp>
    requires pc <= |prog|
  {
    if pc == |prog| then Bumper(pc)
    else if prog[pc] == LddwTail then [Throw(UnsupportedInstruction)]
    else Prefix(prog, distance, pc) + Core(prog[pc], pc)
  }

  // ----- what it does -----

  datatype Entry<F> = Saved(registers: F) | Return(pc: nat, index: nat)

  /** Registers and memory the emitted code works on. `index` counts host operations in a block. */
  datatype Host<D, F> = Host(pc: nat, index: nat, meter: u64, scratch: u64, previous: u64, remaining: u64,
                             stack: seq<Entry<F>>, depth: nat, data: D,
                             syscalls: seq<SyscallEntry<D>>, straight: nat)

  datatype OpResult<D, F> = Next(host: Host<D, F>) | Transfer(host: Host<D, F>) | Halt(outcome: Outcome<D>)

  /** The epilogue turns meter and scratch into the number of due instructions, in four steps. */
  function Epilogue<D, F>(h: Host<D, F>, kind: Kind<D>, pc: Option<nat>): Outcome<D> {
    var m1 := Wrap(h.meter - 1);
    var m2 := Wrap(m1 - h.scratch);
    var m3 := Wrap(m2 - h.previous);
    var due := Wrap(0 - m3);
    Outcome(kind, pc, due, h.previous, h.remaining, h.syscalls, h.straight)
  }

  function ThrowExceeded<D, F>(h: Host<D, F>): Outcome<D> {
    Epilogue(h.(scratch := h.meter), Failure(ExceededMaxInstructions), Some(h.meter))
  }

  function ThrowException<D, F>(h: Host<D, F>, error: Error): Outcome<D> {
    if h.meter <= h.scratch then ThrowExceeded(h)
    else Epilogue(h, Failure(error), Some(h.scratch))
  }

  function ExecExternal<D, F>(m: Machine<D, F>, h: Host<D, F>, pc: nat): OpResult<D, F> {
    var amount := Wrap(h.previous - h.meter);
    var charged := if h.remaining < amount then 0 else h.remaining - amount;
    var e := m.syscall(pc, h.data, charged);
    var left := Wrap(e.remaining);
    var h' := h.(previous := left, remaining := left, meter := left, data := e.data,
                 syscalls := h.syscalls + [SyscallEntry(pc, h.data, charged)]);
    if e.ok then Next(h') else Halt(Epilogue(h'.(scratch := U64_MAX), Failure(SyscallError), None))
  }

  function ExecPrologue<D, F>(m: Machine<D, F>, h: Host<D, F>): OpResult<D, F> {
    if h.meter <= h.scratch then Halt(ThrowExceeded(h))
    else
      var h' := h.(stack := h.stack + [Saved(m.save(h.data))], depth := h.depth + 1);
      if h'.depth >= m.maxCallDepth then Halt(ThrowException(h', CallDepthExceeded))
      else Next(h'.(data := m.enter(h.data)))
  }

  /** The current pc comes in scratch and is kept on the stack for errors and for the meter. */
  function ExecCallReg<D, F>(m: Machine<D, F>, h: Host<D, F>, pc: nat): OpResult<D, F> {
    var currentPc := h.scratch;
    var target := m.callee(pc, h.data);
    if target >= |m.prog| then Halt(ThrowException(h.(scratch := currentPc), CallOutsideTextSegment))
    else
      var m1 := Wrap(h.meter - currentPc);
      var m2 := Wrap(m1 - 1);
      Transfer(h.(meter := Wrap(m2 + target), scratch := Wrap(target),
                  stack := h.stack + [Return(h.pc, h.index + 1)], pc := target, index := 0))
  }

  function ExecLeave<D, F>(h: Host<D, F>): OpResult<D, F> {
    if h.depth == 0 then
      Halt(Epilogue(h.(meter := Wrap(h.meter + 1), scratch := 0), Returned(h.data), None))
    else if h.stack != [] && h.stack[|h.stack| - 1].Return? then
      var top := h.stack[|h.stack| - 1];
      Transfer(h.(depth := h.depth - 1, stack := h.stack[..|h.stack| - 1], pc := top.pc, index := top.index))
    else Next(h)
  }

  function ExecRestore<D, F>(m: Machine<D, F>, h: Host<D, F>): OpResult<D, F> {
    if h.stack != [] && h.stack[|h.stack| - 1].Saved? then
      var top := h.stack[|h.stack| - 1];
      Next(h.(stack := h.stack[..|h.stack| - 1], data := m.leave(h.data, top.registers)))
    else Next(h)
  }

  function Exec<D, F>(m: Machine<D, F>, h: Host<D, F>, op: HostOp): OpResult<D, F> {
    match op
    case LoadScratch(v) => Next(h.(scratch := Wrap(v)))
    case Validate => if h.meter <= h.scratch then Halt(ThrowExceeded(h)) else Next(h)
    case AddMeter(k) => Next(h.(meter := Wrap(h.meter + k)))
    case RunBody(pc) =>
      var h' := h.(straight := h.straight + 1);
      (match m.exec(pc, h.data)
       case Done(d) => Next(h'.(data := d))
       case Failed(e) => Halt(ThrowException(h'.(scratch := Wrap(pc)), InstructionError(e))))
    case LoadWide(pc) => Next(h.(data := m.load(pc, h.data)))
    case Goto(t) => Transfer(h.(pc := t, index := 0))
    case GotoIf(pc, t) => if m.taken(pc, h.data) then Transfer(h.(pc := t, index := 0)) else Next(h)
    case CallExternal(pc) => ExecExternal(m, h, pc)
    case Prologue => ExecPrologue(m, h)
    case CallHost(t) => Transfer(h.(stack := h.stack + [Return(h.pc, h.index + 1)], pc := t, index := 0))
    case CallHostReg(pc) => ExecCallReg(m, h, pc)
    case RestoreFrame => ExecRestore(m, h)
    case LeaveOrReturn => ExecLeave(h)
    case Throw(e) => Halt(ThrowException(h, e))
  }

  function NextSlot(prog: seq<Slot>, pc: nat): nat {
    if pc < |prog| && prog[pc] == Lddw then pc + 2 else pc + 1
  }

  /** Runs the rest of a block until control leaves it. */
  function RunOps<D, F>(m: Machine<D, F>, h: Host<D, F>, ops: seq<HostOp>): (r: OpResult<D, F>)
    ensures !r.Next?
    decreases |ops|
  {
    if ops == [] then Transfer(h.(pc := NextSlot(m.prog, h.pc), index := 0))
    else
      match Exec(m, h, ops[0])
      case Next(h') => RunOps(m, h'.(index := h.index + 1), ops[1..])
      case r => r
  }

  /** Runs blocks until the program ends, at most `fuel` of them. */
  function RunHost<D, F>(m: Machine<D, F>, distance: nat, h: Host<D, F>, fuel: nat): Option<Outcome<D>>
    decreases fuel
  {
    if fuel == 0 || h.pc > |m.prog| then None
    else
      var block := Block(m.prog, distance, h.pc);
      if h.index > |block| then None
      else
        match RunOps(m, h, block[h.index..])
        case Halt(o) => Some(o)
        case Transfer(h') => RunHost(m, distance, h', fuel - 1)
  }
}
