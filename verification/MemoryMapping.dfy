/** Memory mappings with an access violation handler and a read tracker. */
module MemoryMapping {
  import opened Words
  import opened Bits
  import opened MemoryRegion
  import opened RegionList
  import opened Unaligned
  import opened Aligned
  import opened MappingAgreement
  import opened AccessTracker
  import Ebpf

  datatype MemError =
    | InvalidMemoryRegion(region: nat)
    | StackAccessViolation(access: AccessType, addr: u64, len: u64, frame: int)
    | AccessViolation(access: AccessType, addr: u64, len: u64, name: string)

  datatype MapResult = Mapped(host: u64) | Violation(error: MemError)

  /** What decides the kind of an access violation */
  datatype Common = Common(maxCallDepth: int, stackFrameSize: int, manualStackFrameBump: bool)

  /** Division rounding towards zero, 0 where it is not defined */
  function DivOrZero(a: int, b: int): int {
    if b == 0 || (a == -TWO63 && b == -1) then 0
    else if a >= 0 then a / b else -((-a) / b)
  }

  function SatSubSigned(a: int, b: int): int {
    if a - b < -TWO63 then -TWO63 else if a - b >= TWO63 then TWO63 - 1 else a - b
  }

  function GenerateAccessViolation(c: Common, access: AccessType, addr: u64, len: u64): MemError {
    var frame := DivOrZero(SatSubSigned(Signed64(addr), Ebpf.MM_STACK_START), c.stackFrameSize);
    if !c.manualStackFrameBump && -1 <= frame < Min(c.maxCallDepth + 1, TWO63 - 1) then
      StackAccessViolation(access, addr, len, frame)
    else
      var start := addr - addr % TWO32;
      AccessViolation(access, addr, len,
        if start == Ebpf.MM_BYTECODE_START then "program"
        else if start == Ebpf.MM_STACK_START then "stack"
        else if start == Ebpf.MM_HEAP_START then "heap"
        else if start == Ebpf.MM_INPUT_START then "input"
        else "unknown")
  }

  /** Outside the stack frames the error names the 4 GiB area of the address. */
  lemma ViolationNames(c: Common, access: AccessType, addr: u64, len: u64)
    ensures var e := GenerateAccessViolation(c, access, addr, len);
      if e.StackAccessViolation? then
        !c.manualStackFrameBump && e == StackAccessViolation(access, addr, len, e.frame)
      else
        && e.AccessViolation? && e == AccessViolation(access, addr, len, e.name)
        && (e.name == "program" <==> Ebpf.MM_BYTECODE_START <= addr < Ebpf.MM_BYTECODE_START + TWO32)
        && (e.name == "stack" <==> Ebpf.MM_STACK_START <= addr < Ebpf.MM_STACK_START + TWO32)
        && (e.name == "heap" <==> Ebpf.MM_HEAP_START <= addr < Ebpf.MM_HEAP_START + TWO32)
        && (e.name == "input" <==> Ebpf.MM_INPUT_START <= addr < Ebpf.MM_INPUT_START + TWO32)
  {
    hide DivOrZero;
    assert "program" != "stack" && "program" != "heap" && "program" != "input" && "stack" != "heap";
  }

  /** With frames of fixed size, an access from the frame below the first up to the last is reported with the
      number of its frame; the two frames around the start of the stack count as one. */
  lemma ViolationFrames(c: Common, access: AccessType, addr: u64, len: u64, frame: int)
    requires 0 < c.stackFrameSize < TWO63 && 0 <= c.maxCallDepth < TWO63 - 2
    requires !c.manualStackFrameBump && addr < TWO63
    ensures GenerateAccessViolation(c, access, addr, len) == StackAccessViolation(access, addr, len, frame) <==>
      && -1 <= frame <= c.maxCallDepth
      && var d := addr - Ebpf.MM_STACK_START;
         (frame >= 0 && frame * c.stackFrameSize <= d < (frame + 1) * c.stackFrameSize) ||
         (frame <= 0 && (frame - 1) * c.stackFrameSize < d <= frame * c.stackFrameSize)
  {
    var d, size := addr - Ebpf.MM_STACK_START, c.stackFrameSize;
    assert SatSubSigned(Signed64(addr), Ebpf.MM_STACK_START) == d;
    Truncates(d, size, frame);
    hide DivOrZero;
  }

  /** Division towards zero, by bounds */
  lemma Truncates(d: int, size: int, q: int)
    requires size > 0 && -TWO63 < d < TWO63
    ensures DivOrZero(d, size) == q <==>
      (q >= 0 && q * size <= d < (q + 1) * size) || (q <= 0 && (q - 1) * size < d <= q * size)
  {
    SignOfProduct(q, size);
    if d >= 0 {
      RoundsDown(d, size, q);
    } else {
      RoundsDown(-d, size, -q);
    }
  }

  lemma RoundsDown(d: nat, size: int, q: int)
    requires size > 0
    ensures d / size == q <==> q >= 0 && q * size <= d < (q + 1) * size
  {
    Divided(d, size);
    if q >= 0 && q * size <= d < (q + 1) * size {
      DivModUnique(d, size, q, d - q * size);
    }
  }

  lemma SignOfProduct(q: int, size: int)
    requires size > 0
    ensures (q > 0 ==> q * size >= size) && (q < 0 ==> q * size <= -size)
    ensures (q + 1) * size == q * size + size && (q - 1) * size == q * size - size && (-q) * size == -(q * size)
  {
    if q > 0 {
      AtLeastOnce(q, size);
    } else if q < 0 {
      AtLeastOnce(-q, size);
    }
  }

  /** What the access violation handler is asked */
  datatype Question = Question(region: Region, maxLen: u64, access: AccessType, addr: u64, len: u64)

  /** What it makes of its copy of the region when it is asked for the `n`th time: any region, and not
      the same each time */
  type Handler = (nat, Question) -> Region

  datatype Backend = Identity | AlignedBackend(a: AlignedMemoryMapping) | UnalignedBackend(u: UnalignedMemoryMapping)

  ghost predicate SameStarts(rs: seq<Region>, rs': seq<Region>) {
    |rs| == |rs'| && forall k :: 0 <= k < |rs| ==> rs[k].vmAddr == rs'[k].vmAddr
  }

  class MemoryMapping {
    const backend: Backend
    const common: Common
    const handler: Handler
    const tracker: MemoryAccessTracker
    /** All calls of the handler so far */
    var asked: seq<Question>

    constructor (backend: Backend, common: Common, handler: Handler)
      ensures this.backend == backend && this.common == common && this.handler == handler
      ensures fresh(tracker) && tracker.Valid() && tracker.watchedRanges == [] && tracker.forbiddenAccesses == []
      ensures asked == []
    {
      this.backend, this.common, this.handler, asked := backend, common, handler, [];
      tracker := new MemoryAccessTracker();
    }

    ghost function Footprint(): set<object> {
      match backend
      case Identity => {}
      case AlignedBackend(a) => {a}
      case UnalignedBackend(u) => u.Repr()
    }

    ghost function Regions(): seq<Region>
      reads Footprint()
    {
      match backend
      case Identity => []
      case AlignedBackend(a) => a.regions
      case UnalignedBackend(u) => u.regions
    }

    /** Aligned: region `i` starts in slot `i`. Unaligned: sorted, disjoint, indexed and cached. */
    ghost predicate Valid()
      reads Footprint(), tracker
    {
      && tracker.Valid()
      && match backend
         case Identity => true
         case AlignedBackend(a) => forall i :: 0 <= i < |a.regions| ==> Slot(a.regions[i].vmAddr) == i
         case UnalignedBackend(u) => u.Valid()
    }

    /** The region a lookup has to find */
    ghost function LookupIn(rs: seq<Region>, addr: u64): (found: Option<nat>)
      ensures found.Some? ==> found.value < |rs|
    {
      match backend
      case Identity => None
      case AlignedBackend(a) => FindSlot(rs, a.allowRegionZero, addr)
      case UnalignedBackend(u) => FindLast(rs, addr)
    }

    ghost function Lookup(addr: u64): (found: Option<nat>)
      reads Footprint()
      ensures found.Some? ==> found.value < |Regions()|
    {
      LookupIn(Regions(), addr)
    }

    /** Translation without help from the handler */
    ghost function Direct(access: AccessType, addr: u64, len: u64): Option<u64>
      reads Footprint()
    {
      TranslateAt(Regions(), Lookup(addr), access, addr, len)
    }

    method GetRegions() returns (rs: seq<Region>)
      ensures rs == Regions()
    {
      match backend
      case Identity => rs := [];
      case AlignedBackend(a) => rs := a.regions;
      case UnalignedBackend(u) => rs := u.regions;
    }

    method FindRegion(addr: u64) returns (found: Option<nat>)
      requires Valid()
      modifies Footprint()
      ensures Valid() && Regions() == old(Regions()) && found == Lookup(addr)
    {
      match backend
      case Identity => found := None;
      case AlignedBackend(a) => found := a.FindRegion(addr);
      case UnalignedBackend(u) => found := u.FindRegion(addr);
    }

    /** The region may take the place of region `index`: its start stays, its end does not pass the next
        start, and in an aligned mapping it ends in its slot. */
    ghost predicate Replaceable(rs: seq<Region>, index: nat, region: Region) {
      && !backend.Identity? && index < |rs| && region.vmAddr == rs[index].vmAddr
      && RangeEnd(region) <= (if index + 1 < |rs| then rs[index + 1].vmAddr else U64_MAX)
      && (backend.AlignedBackend? ==> FitsSlot(region, index))
    }

    /** Replaces a region, provided its start stays and its end does not pass the next start. */
    method ReplaceRegion(index: nat, region: Region) returns (ok: bool)
      requires Valid()
      modifies Footprint()
      ensures Valid() && SameStarts(old(Regions()), Regions())
      ensures ok <==> Replaceable(old(Regions()), index, region)
      ensures Regions() == if ok then old(Regions())[index := region] else old(Regions())
    {
      hide RangeEnd;
      var rs := GetRegions();
      var nextRegionStart := if index + 1 < |rs| then rs[index + 1].vmAddr else U64_MAX;
      if index >= |rs| || rs[index].vmAddr != region.vmAddr || RangeEnd(region) > nextRegionStart {
        return false;
      }
      match backend
      case Identity => ok := false;
      case AlignedBackend(a) => ok := a.ReplaceRegion(index, region);
      case UnalignedBackend(u) =>
        u.ReplaceRegion(index, region);
        ok := true;
    }

    /** The distance to the next region's start, which the handler gets as the longest length */
    function MaxLen(rs: seq<Region>, index: nat): u64
      requires index < |rs|
    {
      SatSub(if index + 1 < |rs| then rs[index + 1].vmAddr else U64_MAX, rs[index].vmAddr)
    }

    /** The room is exact: in an unaligned mapping a continuous region with the same start fits if and only if it
        is not longer, or nothing can come behind it. */
    lemma RoomIsExact(rs: seq<Region>, index: nat, region: Region)
      requires index < |rs| && backend.UnalignedBackend?
      requires region.vmAddr == rs[index].vmAddr && region.gapShift == CONTINUOUS
      requires index + 1 < |rs| ==> rs[index].vmAddr <= rs[index + 1].vmAddr
      ensures Replaceable(rs, index, region) <==>
        || region.len <= MaxLen(rs, index)
        || index + 1 == |rs| || rs[index + 1].vmAddr == U64_MAX
    {
    }

    /** Calls the handler. */
    method Ask(q: Question) returns (region: Region)
      modifies this`asked
      ensures region == handler(|old(asked)|, q) && asked == old(asked) + [q]
    {
      region := handler(|asked|, q);
      asked := asked + [q];
    }

    /** What the handler has to be asked for an access: nothing if there is no region or the region
        translates the access */
    ghost function Questions(rs: seq<Region>, found: Option<nat>, access: AccessType, addr: u64,
                             len: u64): seq<Question>
      requires found.Some? ==> found.value < |rs|
    {
      if found.None? || TranslateAt(rs, found, access, addr, len).Some? then []
      else [Question(rs[found.value], MaxLen(rs, found.value), access, addr, len)]
    }

    /** What an access gives without the handler */
    ghost function Plain(rs: seq<Region>, access: AccessType, addr: u64, len: u64): MapResult {
      if backend.Identity? then Mapped(addr)
      else
        match TranslateAt(rs, LookupIn(rs, addr), access, addr, len)
        case Some(host) => Mapped(host)
        case None => Violation(GenerateAccessViolation(common, access, addr, len))
    }

    /** What an access gives after `n` questions to the handler */
    ghost function Accessed(n: nat, rs: seq<Region>, access: AccessType, addr: u64, len: u64): MapResult {
      var found := LookupIn(rs, addr);
      if Questions(rs, found, access, addr, len) == [] then Plain(rs, access, addr, len)
      else Answer(n, rs, found.value, access, addr, len)
    }

    /** The regions after it: only an access that needed the handler and got its host address from the
        handler's region puts that region in place. */
    ghost function Installed(n: nat, rs: seq<Region>, access: AccessType, addr: u64, len: u64): seq<Region> {
      var found := LookupIn(rs, addr);
      var qs := Questions(rs, found, access, addr, len);
      if qs == [] || Answer(n, rs, found.value, access, addr, len).Violation? then rs
      else rs[found.value := handler(n, qs[0])]
    }

    /** Translates an access, and if that fails lets the handler change the region and tries again. */
    method MapWithAccessViolationHandler(access: AccessType, addr: u64, len: u64) returns (result: MapResult)
      requires Valid()
      modifies Footprint(), this`asked
      ensures asked == old(asked) + Questions(old(Regions()), old(Lookup(addr)), access, addr, len)
      ensures Valid() && SameStarts(old(Regions()), Regions())
      ensures backend.Identity? ==> result == Mapped(addr)
      ensures result.Violation? ==> Regions() == old(Regions())
      ensures result.Mapped? && !backend.Identity? ==> Direct(access, addr, len) == Some(result.host)
      ensures old(Direct(access, addr, len)).Some? ==>
        Regions() == old(Regions()) && result == Mapped(old(Direct(access, addr, len)).value)
      ensures NonOverlapping(old(Regions())) ==> NonOverlapping(Regions())
      ensures old(Direct(access, addr, len)).None? && old(Lookup(addr)).Some? ==>
        result == Answer(|old(asked)|, old(Regions()), old(Lookup(addr)).value, access, addr, len)
      ensures old(Lookup(addr)).None? && !backend.Identity? ==>
        result == Violation(GenerateAccessViolation(common, access, addr, len))
      ensures result == Accessed(|old(asked)|, old(Regions()), access, addr, len)
      ensures Regions() == Installed(|old(asked)|, old(Regions()), access, addr, len)
    {
      hide GenerateAccessViolation, VmToHost, Ordered, RangeEnd, FindLast, FindSlot, Answer, Replaceable;
      hide NonOverlapping, SameStarts, Valid;
      SameStartsRefl(Regions());
      if backend.Identity? {
        return Mapped(addr);
      }
      var found := FindRegion(addr);
      if found.Some? {
        var rs := GetRegions();
        var index := found.value;
        var translated := VmToHost(rs[index], access, addr, len);
        if translated.Some? {
          return Mapped(translated.value);
        }
        result := LetHandlerTry(index, access, addr, len);
        return;
      }
      return Violation(GenerateAccessViolation(common, access, addr, len));
    }

    /** The outcome when the handler is asked about region `index`, after `n` other questions */
    ghost function Answer(n: nat, rs: seq<Region>, index: nat, access: AccessType, addr: u64, len: u64): MapResult
      requires index < |rs|
    {
      var region := handler(n, Question(rs[index], MaxLen(rs, index), access, addr, len));
      match VmToHost(region, access, addr, len)
      case None => Violation(GenerateAccessViolation(common, access, addr, len))
      case Some(host) => if Replaceable(rs, index, region) then Mapped(host) else Violation(InvalidMemoryRegion(index))
    }

    /** The handler's region is installed only if it translates the access and fits. */
    method LetHandlerTry(index: nat, access: AccessType, addr: u64, len: u64) returns (result: MapResult)
      requires Valid() && !backend.Identity? && Lookup(addr) == Some(index) && Direct(access, addr, len).None?
      modifies Footprint(), this`asked
      ensures Valid() && SameStarts(old(Regions()), Regions())
      ensures asked == old(asked) + Questions(old(Regions()), Some(index), access, addr, len)
      ensures result == Answer(|old(asked)|, old(Regions()), index, access, addr, len)
      ensures Regions() == Installed(|old(asked)|, old(Regions()), access, addr, len)
      ensures result.Mapped? ==> Direct(access, addr, len) == Some(result.host)
      ensures NonOverlapping(old(Regions())) ==> NonOverlapping(Regions())
    {
      hide GenerateAccessViolation, VmToHost, Ordered, FindLast, FindSlot, Valid, LookupIn, SameStarts, RangeEnd;
      SameStartsRefl(Regions());
      var rs := GetRegions();
      var region := Ask(Question(rs[index], MaxLen(rs, index), access, addr, len));
      var translated := VmToHost(region, access, addr, len);
      if translated.None? {
        return Violation(GenerateAccessViolation(common, access, addr, len));
      }
      var replaced := ReplaceRegion(index, region);
      if !replaced {
        return Violation(InvalidMemoryRegion(index));
      }
      SameLookup(rs, addr);
      return Mapped(translated.value);
    }

    /** Region starts decide what a lookup finds. */
    lemma SameLookup(rs: seq<Region>, addr: u64)
      requires SameStarts(rs, Regions())
      ensures Lookup(addr) == LookupIn(rs, addr)
    {
      if backend.UnalignedBackend? {
        FindLastStarts(rs, Regions(), addr);
      }
    }

    /** The accesses that one tracked operation adds to the log */
    ghost function Logged(accesses: seq<Access>): seq<Access>
      reads tracker
    {
      LoggedFor(tracker.watchedRanges, accesses)
    }

    ghost function LoggedFor(watched: seq<Range>, accesses: seq<Access>): seq<Access> {
      if backend.Identity? then [] else Recorded(watched, accesses)
    }

    lemma LoggedConcat(watched: seq<Range>, xs: seq<Access>, ys: seq<Access>)
      ensures LoggedFor(watched, xs + ys) == LoggedFor(watched, xs) + LoggedFor(watched, ys)
      ensures LoggedFor(watched, []) == []
    {
      RecordedConcat(watched, xs, ys);
    }

    /** Translates an access without the handler; reads are tracked. */
    method Map(access: AccessType, addr: u64, len: u64) returns (result: MapResult)
      requires Valid()
      modifies Footprint(), tracker
      ensures Valid() && Regions() == old(Regions()) && tracker.watchedRanges == old(tracker.watchedRanges)
      ensures result == Plain(old(Regions()), access, addr, len)
      ensures tracker.forbiddenAccesses == old(tracker.forbiddenAccesses) +
        (if access == Load then old(Logged([Access(addr, len)])) else [])
    {
      hide GenerateAccessViolation, VmToHost, Recorded;
      if access == Load && !backend.Identity? {
        tracker.CheckAccess(Access(addr, len));
      }
      var found := FindRegion(addr);
      if found.Some? {
        var rs := GetRegions();
        var translated := VmToHost(rs[found.value], access, addr, len);
        if translated.Some? {
          return Mapped(translated.value);
        }
      }
      if backend.Identity? {
        return Mapped(addr);
      }
      return Violation(GenerateAccessViolation(common, access, addr, len));
    }

    /** Reads through the mapping; the attempt is tracked whether or not it succeeds. */
    method LoadFrom(addr: u64, len: u64) returns (result: MapResult)
      requires Valid()
      modifies Footprint(), tracker, this`asked
      ensures Valid() && SameStarts(old(Regions()), Regions()) && tracker.watchedRanges == old(tracker.watchedRanges)
      ensures tracker.forbiddenAccesses == old(tracker.forbiddenAccesses) + old(Logged([Access(addr, len)]))
      ensures asked == old(asked) + Questions(old(Regions()), old(Lookup(addr)), Load, addr, len)
      ensures result == Accessed(|old(asked)|, old(Regions()), Load, addr, len)
      ensures Regions() == Installed(|old(asked)|, old(Regions()), Load, addr, len)
      ensures backend.Identity? ==> result == Mapped(addr)
      ensures old(Direct(Load, addr, len)).Some? ==>
        result == Mapped(old(Direct(Load, addr, len)).value) && Regions() == old(Regions()) && asked == old(asked)
      ensures result.Mapped? && !backend.Identity? ==> Direct(Load, addr, len) == Some(result.host)
      ensures result.Violation? ==> Regions() == old(Regions())
    {
      hide GenerateAccessViolation, VmToHost, Recorded, Answer, SameStarts, Installed;
      if !backend.Identity? {
        tracker.CheckAccess(Access(addr, len));
      }
      result := MapWithAccessViolationHandler(Load, addr, len);
    }

    /** Writes through the mapping; writes are not tracked. */
    method StoreTo(addr: u64, len: u64) returns (result: MapResult)
      requires Valid()
      modifies Footprint(), this`asked
      ensures Valid() && SameStarts(old(Regions()), Regions())
      ensures asked == old(asked) + Questions(old(Regions()), old(Lookup(addr)), Store, addr, len)
      ensures result == Accessed(|old(asked)|, old(Regions()), Store, addr, len)
      ensures Regions() == Installed(|old(asked)|, old(Regions()), Store, addr, len)
      ensures backend.Identity? ==> result == Mapped(addr)
      ensures old(Direct(Store, addr, len)).Some? ==>
        result == Mapped(old(Direct(Store, addr, len)).value) && Regions() == old(Regions()) && asked == old(asked)
      ensures result.Mapped? && !backend.Identity? ==> Direct(Store, addr, len) == Some(result.host)
      ensures result.Violation? ==> Regions() == old(Regions())
    {
      hide GenerateAccessViolation, VmToHost, Answer;
      result := MapWithAccessViolationHandler(Store, addr, len);
    }

    /** Repeating a successful access gives the same host address, changes no region and does not ask the
        handler again. */
    method AccessTwice(access: AccessType, addr: u64, len: u64)
      returns (first: MapResult, second: MapResult, ghost between: seq<Region>)
      requires Valid()
      modifies Footprint(), this`asked
      ensures Valid() && SameStarts(old(Regions()), Regions())
      ensures first.Mapped? ==> second == first && Regions() == between
      ensures first.Mapped? ==> asked == old(asked) + Questions(old(Regions()), old(Lookup(addr)), access, addr, len)
    {
      hide GenerateAccessViolation, VmToHost, Answer;
      first := MapWithAccessViolationHandler(access, addr, len);
      between := Regions();
      second := MapWithAccessViolationHandler(access, addr, len);
    }

    ghost function Current(): View
      reads Footprint(), this`asked
    {
      View(Regions(), asked)
    }

    method Perform(op: Operation) returns (outcome: Outcome)
      requires Valid()
      modifies Footprint(), tracker, this`asked
      ensures Valid() && SameStarts(old(Regions()), Regions()) && tracker.watchedRanges == old(tracker.watchedRanges)
      ensures tracker.forbiddenAccesses == old(tracker.forbiddenAccesses) + old(Logged(ReadOf(op)))
      ensures outcome == OutcomeOf(old(Current()), op) && Current() == Next(old(Current()), op)
    {
      hide GenerateAccessViolation, VmToHost, Recorded, Accessed, Installed, Plain, Questions, Replaceable;
      hide Valid, SameStarts, Direct, LookupIn;
      NothingRecorded(tracker.watchedRanges);
      SameStartsRefl(Regions());
      var result: MapResult;
      match op
      case DoMap(access, addr, len) =>
        result := Map(access, addr, len);
        outcome := Translated(result);
      case DoLoad(addr, len) =>
        result := LoadFrom(addr, len);
        outcome := Translated(result);
      case DoStore(addr, len) =>
        result := StoreTo(addr, len);
        outcome := Translated(result);
      case DoReplace(index, region) =>
        var ok := ReplaceRegion(index, region);
        outcome := Replaced(ok);
    }

    /** What an operation returns */
    ghost function OutcomeOf(v: View, op: Operation): Outcome {
      match op
      case DoMap(access, addr, len) => Translated(Plain(v.regions, access, addr, len))
      case DoLoad(addr, len) => Translated(Accessed(|v.asked|, v.regions, Load, addr, len))
      case DoStore(addr, len) => Translated(Accessed(|v.asked|, v.regions, Store, addr, len))
      case DoReplace(index, region) => Replaced(Replaceable(v.regions, index, region))
    }

    /** What it leaves behind */
    ghost function Next(v: View, op: Operation): View {
      match op
      case DoMap(_, _, _) => v
      case DoLoad(addr, len) => AfterAccess(v, Load, addr, len)
      case DoStore(addr, len) => AfterAccess(v, Store, addr, len)
      case DoReplace(index, region) =>
        if Replaceable(v.regions, index, region) then v.(regions := v.regions[index := region]) else v
    }

    ghost function AfterAccess(v: View, access: AccessType, addr: u64, len: u64): View {
      View(Installed(|v.asked|, v.regions, access, addr, len),
           v.asked + Questions(v.regions, LookupIn(v.regions, addr), access, addr, len))
    }

    /** The mapping after a run */
    ghost function Played(v: View, ops: seq<Operation>): View {
      if ops == [] then v else Next(Played(v, ops[..|ops| - 1]), ops[|ops| - 1])
    }

    lemma PlayedStep(v: View, ops: seq<Operation>, i: nat)
      requires i < |ops|
      ensures Played(v, ops[..i + 1]) == Next(Played(v, ops[..i]), ops[i])
    {
      assert ops[..i + 1][..i] == ops[..i];
    }

    lemma NothingPlayed(v: View, ops: seq<Operation>)
      ensures Played(v, ops[..0]) == v
    {
    }

    /** Any run of operations keeps the mapping's invariant, each operation returns what the regions and the
        handler's answers so far make of it, and the tracker logs exactly the run's attempted reads that
        it has to record, in order. */
    method Replay(ops: seq<Operation>) returns (outcomes: seq<Outcome>)
      requires Valid()
      modifies Footprint(), tracker, this`asked
      ensures Valid() && SameStarts(old(Regions()), Regions()) && tracker.watchedRanges == old(tracker.watchedRanges)
      ensures tracker.forbiddenAccesses == old(tracker.forbiddenAccesses) + old(Logged(Attempted(ops)))
      ensures |outcomes| == |ops| && Current() == Played(old(Current()), ops)
      ensures forall i :: 0 <= i < |ops| ==> outcomes[i] == OutcomeOf(Played(old(Current()), ops[..i]), ops[i])
    {
      hide LoggedFor, ReadOf, Valid, Attempted, SameStarts, Regions, OutcomeOf, Next, Played, Current;
      ghost var start, watched, log, first := Regions(), tracker.watchedRanges, tracker.forbiddenAccesses, Current();
      SameStartsRefl(start);
      NothingAttempted(ops);
      NothingPlayed(first, ops);
      LoggedConcat(watched, [], []);
      outcomes := [];
      for i := 0 to |ops|
        invariant Valid() && SameStarts(start, Regions()) && tracker.watchedRanges == watched
        invariant tracker.forbiddenAccesses == log + LoggedFor(watched, Attempted(ops[..i]))
        invariant |outcomes| == i && Current() == Played(first, ops[..i])
        invariant forall k :: 0 <= k < i ==> outcomes[k] == OutcomeOf(Played(first, ops[..k]), ops[k])
      {
        AttemptedStep(ops, i);
        PlayedStep(first, ops, i);
        LoggedConcat(watched, Attempted(ops[..i]), ReadOf(ops[i]));
        ghost var before := Regions();
        var outcome := Perform(ops[i]);
        SameStartsTrans(start, before, Regions());
        outcomes := outcomes + [outcome];
      }
      assert ops[..|ops|] == ops;
    }
  }

  /** The regions of a mapping and the questions its handler was asked */
  datatype View = View(regions: seq<Region>, asked: seq<Question>)

  datatype Outcome = Translated(result: MapResult) | Replaced(ok: bool)

  /** What a run may do with a mapping */
  datatype Operation =
    | DoMap(access: AccessType, addr: u64, len: u64)
    | DoLoad(addr: u64, len: u64)
    | DoStore(addr: u64, len: u64)
    | DoReplace(index: nat, region: Region)

  /** The read an operation attempts, if any */
  function ReadOf(op: Operation): seq<Access> {
    match op
    case DoMap(Load, addr, len) => [Access(addr, len)]
    case DoLoad(addr, len) => [Access(addr, len)]
    case _ => []
  }

  function Attempted(ops: seq<Operation>): seq<Access> {
    if ops == [] then [] else Attempted(ops[..|ops| - 1]) + ReadOf(ops[|ops| - 1])
  }

  lemma AttemptedStep(ops: seq<Operation>, i: nat)
    requires i < |ops|
    ensures Attempted(ops[..i + 1]) == Attempted(ops[..i]) + ReadOf(ops[i])
  {
    assert ops[..i + 1][..i] == ops[..i];
  }

  lemma NothingAttempted(ops: seq<Operation>)
    ensures Attempted(ops[..0]) == []
  {
  }

  lemma SameStartsRefl(rs: seq<Region>)
    ensures SameStarts(rs, rs)
  {
  }

  lemma SameStartsTrans(rs: seq<Region>, rs': seq<Region>, rs'': seq<Region>)
    requires SameStarts(rs, rs') && SameStarts(rs', rs'')
    ensures SameStarts(rs, rs'')
  {
  }

  lemma NothingRecorded(watched: seq<Range>)
    ensures Recorded(watched, []) == []
  {
  }
}
