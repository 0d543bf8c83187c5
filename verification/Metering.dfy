/** The guest program as an abstract step machine, run with the interpreter's instruction meter:
    the budget is checked before every instruction. Data is opaque; only control flow, calls,
    syscalls and the meter are modelled. */
module Metering {
  import opened Words
  import Faults

  /** The kinds of instruction slots, with registry lookups already made */
  datatype Slot =
    | Straight
    | Lddw
    | LddwTail
    | Jump(target: nat)
    | Branch(target: nat)
    | Call(external: bool, internal: Option<nat>)
    | CallReg
    | Exit

  datatype Effect<D> = Done(data: D) | Failed(error: Faults.Fault)

  datatype SysEffect<D> = SysEffect(data: D, remaining: nat, ok: bool)

  /** A program and the meaning of its data operations, for data of type `D` and saved registers of
      type `F` */
  datatype Machine<!D, !F> = Machine(
    prog: seq<Slot>,
    maxCallDepth: nat,
    exec: (nat, D) -> Effect<D>,
    load: (nat, D) -> D,
    taken: (nat, D) -> bool,
    callee: (nat, D) -> nat,
    syscall: (nat, D, nat) -> SysEffect<D>,
    save: D -> F,
    enter: D -> D,
    leave: (D, F) -> D)

  datatype Error = ExceededMaxInstructions | ExecutionOverrun | CallDepthExceeded
                 | CallOutsideTextSegment | UnsupportedInstruction | InstructionError(error: Faults.Fault)
                 | SyscallError

  datatype Kind<D> = Returned(data: D) | Failure(error: Error)

  /** A syscall as its implementation sees it */
  datatype SyscallEntry<D> = SyscallEntry(pc: nat, data: D, remaining: nat)

  /** How a run ended: result, reported pc, the meter's three values, the syscalls made and the
      number of straight-line instructions executed */
  datatype Outcome<D> = Outcome(kind: Kind<D>, pc: Option<nat>, due: u64, previous: u64, remaining: u64,
                                syscalls: seq<SyscallEntry<D>>, straight: nat)

  datatype Frame<F> = Frame(saved: F, returnPc: nat)

  /** `due` instructions are not yet charged, `previous` was left when last asked, `remaining` is
      what the context still has. */
  datatype State<D, F> = State(pc: nat, due: nat, previous: nat, remaining: nat, frames: seq<Frame<F>>, data: D,
                               syscalls: seq<SyscallEntry<D>>, straight: nat)

  datatype StepResult<D, F> = Continue(state: State<D, F>) | Stop(outcome: Outcome<D>)

  /** Slots as the verifier leaves them: jumps stay inside and off second halves, the halves of a
      wide load come in pairs, call targets are inside. */
  ghost predicate SlotOk(prog: seq<Slot>, pc: nat)
    requires pc < |prog|
  {
    match prog[pc]
    case Jump(t) => t < |prog| && prog[t] != LddwTail
    case Branch(t) => t < |prog| && prog[t] != LddwTail
    case Lddw => pc + 1 < |prog| && prog[pc + 1] == LddwTail
    case LddwTail => pc > 0 && prog[pc - 1] == Lddw
    case Call(_, Some(t)) => t < |prog|
    case _ => true
  }

  /** Premises on the program and its environment: syscalls never raise the remaining budget, and
      entering a frame does not change the register that a register call jumps through. */
  ghost predicate WellFormed<D(!new), F>(m: Machine<D, F>) {
    && m.maxCallDepth >= 1
    && (forall pc :: 0 <= pc < |m.prog| ==> SlotOk(m.prog, pc))
    && (forall pc, d, r :: m.syscall(pc, d, r).remaining <= r)
    && (forall pc, d :: 0 <= pc < |m.prog| && m.prog[pc] == CallReg ==> m.callee(pc, m.enter(d)) == m.callee(pc, d))
  }

  ghost predicate Small<D, F>(m: Machine<D, F>, s: State<D, F>) {
    s.previous + |m.prog| + 2 < TWO63
  }

  /** At most the budget is due, and the context has what it reported last. */
  ghost predicate MeterOk<D, F>(m: Machine<D, F>, s: State<D, F>) {
    s.due <= s.previous == s.remaining && Small(m, s)
  }

  function StopWith<D, F>(s: State<D, F>, kind: Kind<D>, pc: Option<nat>): (r: StepResult<D, F>)
    requires s.due <= s.previous < TWO64 && s.remaining < TWO64
  {
    Stop(Outcome(kind, pc, s.due, s.previous, s.remaining, s.syscalls, s.straight))
  }

  /** Charges what is due, runs the syscall and reads the meter again. */
  function DispatchSyscall<D, F>(m: Machine<D, F>, s: State<D, F>): (State<D, F>, bool)
    requires s.due <= s.previous
  {
    var dueSlot := s.previous - s.due;
    var amount := s.previous - dueSlot;
    var charged := if s.remaining < amount then 0 else s.remaining - amount;
    var e := m.syscall(s.pc, s.data, charged);
    (s.(due := 0, previous := e.remaining, remaining := e.remaining, data := e.data,
        syscalls := s.syscalls + [SyscallEntry(s.pc, s.data, charged)]), e.ok)
  }

  /** Saves a frame; `None` when the call depth reaches its limit. */
  function PushFrame<D, F>(m: Machine<D, F>, s: State<D, F>): Option<State<D, F>> {
    if |s.frames| + 1 == m.maxCallDepth then None
    else Some(s.(frames := s.frames + [Frame(m.save(s.data), s.pc + 1)], data := m.enter(s.data)))
  }

  function CallTo<D, F>(m: Machine<D, F>, s: State<D, F>, target: nat): StepResult<D, F>
    requires s.due <= s.previous < TWO64 && s.remaining < TWO64
  {
    match PushFrame(m, s)
    case None => StopWith(s, Failure(CallDepthExceeded), Some(s.pc))
    case Some(s') =>
      if target < |m.prog| then Continue(s'.(pc := target))
      else StopWith(s', Failure(CallOutsideTextSegment), Some(s.pc))
  }

  function ReturnFrom<D, F>(m: Machine<D, F>, s: State<D, F>): StepResult<D, F>
    requires s.due <= s.previous < TWO64 && s.remaining < TWO64
  {
    if s.frames == [] then StopWith(s, Returned(s.data), None)
    else
      var k := |s.frames| - 1;
      var s' := s.(frames := s.frames[..k], data := m.leave(s.data, s.frames[k].saved));
      if s.frames[k].returnPc < |m.prog| then Continue(s'.(pc := s.frames[k].returnPc))
      else StopWith(s', Failure(CallOutsideTextSegment), Some(s.pc))
  }

  /** The part of an immediate call behind a possible syscall */
  function InternalCall<D, F>(m: Machine<D, F>, s: State<D, F>, external: bool, internal: Option<nat>): StepResult<D, F>
    requires s.due <= s.previous < TWO64 && s.remaining < TWO64
  {
    match internal
    case Some(t) => CallTo(m, s, t)
    case None =>
      if external then Continue(s.(pc := s.pc + 1))
      else StopWith(s, Failure(UnsupportedInstruction), Some(s.pc))
  }

  /** One interpreter step */
  function Step<D(!new), F>(m: Machine<D, F>, s: State<D, F>): StepResult<D, F>
    requires WellFormed(m) && MeterOk(m, s)
  {
    if s.due >= s.previous then StopWith(s, Failure(ExceededMaxInstructions), Some(s.pc))
    else
      var s1 := s.(due := s.due + 1);
      if s.pc >= |m.prog| then StopWith(s1, Failure(ExecutionOverrun), Some(s.pc))
      else
        match m.prog[s.pc]
        case Straight =>
          var s2 := s1.(straight := s.straight + 1);
          (match m.exec(s.pc, s.data)
           case Done(d) => Continue(s2.(pc := s.pc + 1, data := d))
           case Failed(e) => StopWith(s2, Failure(InstructionError(e)), Some(s.pc)))
        case Lddw => Continue(s1.(pc := s.pc + 2, data := m.load(s.pc, s.data)))
        case LddwTail => StopWith(s1, Failure(UnsupportedInstruction), Some(s.pc))
        case Jump(t) => Continue(s1.(pc := t))
        case Branch(t) => Continue(s1.(pc := if m.taken(s.pc, s.data) then t else s.pc + 1))
        case Call(external, internal) =>
          if external then
            var (s2, ok) := DispatchSyscall(m, s1);
            if ok then InternalCall(m, s2, external, internal) else StopWith(s2, Failure(SyscallError), None)
          else InternalCall(m, s1, external, internal)
        case CallReg => CallTo(m, s1, m.callee(s.pc, s.data))
        case Exit => ReturnFrom(m, s1)
  }

  /** Every step that goes on uses up at least one unit of budget. */
  lemma StepSpends<D(!new), F>(m: Machine<D, F>, s: State<D, F>)
    requires WellFormed(m) && MeterOk(m, s) && Step(m, s).Continue?
    ensures var s' := Step(m, s).state;
      MeterOk(m, s') && s'.previous - s'.due < s.previous - s.due
  {
    if s.pc < |m.prog| && m.prog[s.pc].Call? {
      var r := m.syscall(s.pc, s.data, s.remaining - (s.due + 1)).remaining;
      assert r <= s.remaining - (s.due + 1);
    }
  }

  /** The outcome of a whole interpreter run */
  function Run<D(!new), F>(m: Machine<D, F>, s: State<D, F>): Outcome<D>
    requires WellFormed(m) && MeterOk(m, s)
    decreases s.previous - s.due
  {
    match Step(m, s)
    case Stop(o) => o
    case Continue(s') =>
      StepSpends(m, s);
      Run(m, s')
  }

  // ----- length and accounting of runs -----

  /** Number of steps of a run */
  ghost function Steps<D(!new), F>(m: Machine<D, F>, s: State<D, F>): nat
    requires WellFormed(m) && MeterOk(m, s)
    decreases s.previous - s.due
  {
    match Step(m, s)
    case Stop(_) => 1
    case Continue(s') =>
      StepSpends(m, s);
      1 + Steps(m, s')
  }

  /** Every run ends within one step more than the remaining budget. */
  lemma {:induction false} RunIsBounded<D(!new), F>(m: Machine<D, F>, s: State<D, F>)
    requires WellFormed(m) && MeterOk(m, s)
    ensures Steps(m, s) <= s.previous - s.due + 1
    decreases s.previous - s.due
  {
    if Step(m, s).Continue? {
      StepSpends(m, s);
      RunIsBounded(m, Step(m, s).state);
    }
  }

  /** What one step charges: one for the instruction, and what a syscall consumes itself */
  ghost function StepCost<D(!new), F>(m: Machine<D, F>, s: State<D, F>): int
    requires WellFormed(m) && MeterOk(m, s)
  {
    if s.due >= s.previous then 0
    else if s.pc < |m.prog| && m.prog[s.pc].Call? && m.prog[s.pc].external then
      var charged := s.remaining - (s.due + 1);
      1 + (charged - m.syscall(s.pc, s.data, charged).remaining)
    else 1
  }

  /** Instructions executed plus everything the syscalls of a run consumed */
  ghost function RunCost<D(!new), F>(m: Machine<D, F>, s: State<D, F>): int
    requires WellFormed(m) && MeterOk(m, s)
    decreases s.previous - s.due
  {
    match Step(m, s)
    case Stop(_) => StepCost(m, s)
    case Continue(s') =>
      StepSpends(m, s);
      StepCost(m, s) + RunCost(m, s')
  }

  /** The final charge: `execute_program` consumes what is due, saturating at zero. */
  function LeftAfter<D>(o: Outcome<D>): nat {
    if o.remaining < o.due then 0 else o.remaining - o.due
  }

  /** The instruction count that `execute_program` reports for an initial budget */
  function Reported<D>(o: Outcome<D>, budget: nat): nat {
    if budget < LeftAfter(o) then 0 else budget - LeftAfter(o)
  }

  lemma StepAccounts<D(!new), F>(m: Machine<D, F>, s: State<D, F>)
    requires WellFormed(m) && MeterOk(m, s)
    ensures match Step(m, s)
      case Continue(s') => s'.previous - s'.due == s.previous - s.due - StepCost(m, s)
      case Stop(o) => o.remaining - o.due == s.previous - s.due - StepCost(m, s) && o.due <= o.remaining
    ensures StepCost(m, s) >= 0
  {
    if s.due < s.previous {
      var charged := s.remaining - (s.due + 1);
      assert m.syscall(s.pc, s.data, charged).remaining <= charged;
    }
  }

  /** The reported count of a run is exactly its instructions plus what its syscalls consumed. */
  lemma {:induction false} RunAccounts<D(!new), F>(m: Machine<D, F>, s: State<D, F>)
    requires WellFormed(m) && MeterOk(m, s)
    ensures LeftAfter(Run(m, s)) == s.previous - s.due - RunCost(m, s) && RunCost(m, s) >= 0
    decreases s.previous - s.due
  {
    StepAccounts(m, s);
    if Step(m, s).Continue? {
      StepSpends(m, s);
      RunAccounts(m, Step(m, s).state);
    }
  }

  /** The state in which `execute_program` starts the interpreter */
  function Initial<D, F>(entry: nat, budget: nat, data: D): State<D, F> {
    State(entry, 0, budget, budget, [], data, [], 0)
  }

  /** From any state with nothing due, the count reported at the end is the cost of the run. */
  lemma ReportedCount<D(!new), F>(m: Machine<D, F>, s: State<D, F>)
    requires WellFormed(m) && MeterOk(m, s) && s.due == 0
    ensures Reported(Run(m, s), s.remaining) == RunCost(m, s)
  {
    RunAccounts(m, s);
  }

  // ----- syscalls -----

  /** Each syscall was charged for before it started: what it sees as remaining is less than what
      every one before it saw, and less than the budget. */
  ghost predicate Paid<D>(entries: seq<SyscallEntry<D>>, budget: nat) {
    && (forall k :: 0 <= k < |entries| ==> entries[k].remaining < budget)
    && (forall j, k :: 0 <= j < k < |entries| ==> entries[k].remaining < entries[j].remaining)
  }

  /** Every entry so far left at least the current budget. */
  ghost predicate PaidSoFar<D, F>(s: State<D, F>, budget: nat) {
    && Paid(s.syscalls, budget)
    && s.previous - s.due <= budget
    && (|s.syscalls| > 0 ==> s.previous - s.due <= s.syscalls[|s.syscalls| - 1].remaining)
  }

  /** A step adds at most one syscall, which is entered with what is left of the budget. */
  lemma StepSyscalls<D(!new), F>(m: Machine<D, F>, s: State<D, F>)
    requires WellFormed(m) && MeterOk(m, s)
    ensures var after := match Step(m, s) case Continue(s') => s'.syscalls case Stop(o) => o.syscalls;
      && (after == s.syscalls || (s.due < s.previous &&
            after == s.syscalls + [SyscallEntry(s.pc, s.data, s.previous - s.due - 1)]))
      && (Step(m, s).Continue? && after != s.syscalls ==>
            Step(m, s).state.previous - Step(m, s).state.due <= s.previous - s.due - 1)
  {
    hide WellFormed;
    if Step(m, s).Continue? {
      StepSpends(m, s);
    }
  }

  lemma StepPaid<D(!new), F>(m: Machine<D, F>, s: State<D, F>, budget: nat)
    requires WellFormed(m) && MeterOk(m, s) && PaidSoFar(s, budget)
    ensures match Step(m, s)
      case Continue(s') => PaidSoFar(s', budget)
      case Stop(o) => Paid(o.syscalls, budget)
  {
    hide WellFormed, Step;
    StepSyscalls(m, s);
    if Step(m, s).Continue? {
      StepSpends(m, s);
    }
    if s.due < s.previous {
      PaidMore(s.syscalls, SyscallEntry(s.pc, s.data, s.previous - s.due - 1), budget);
    }
  }

  lemma PaidMore<D>(entries: seq<SyscallEntry<D>>, e: SyscallEntry<D>, budget: nat)
    requires Paid(entries, budget)
    requires e.remaining < budget && (|entries| > 0 ==> e.remaining < entries[|entries| - 1].remaining)
    ensures Paid(entries + [e], budget)
  {
  }

  lemma {:induction false} SyscallsPaid<D(!new), F>(m: Machine<D, F>, s: State<D, F>, budget: nat)
    requires WellFormed(m) && MeterOk(m, s) && PaidSoFar(s, budget)
    ensures Paid(Run(m, s).syscalls, budget)
    decreases s.previous - s.due
  {
    hide WellFormed, Paid;
    StepPaid(m, s, budget);
    if Step(m, s).Continue? {
      StepSpends(m, s);
      SyscallsPaid(m, Step(m, s).state, budget);
    }
  }
}
