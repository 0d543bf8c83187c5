/** The detection of forbidden reads: ranges are calculated and watched, a program's memory operations run,
    and the tracker's log is read. */
module Detection {
  import opened Words
  import opened AccessTracker
  import opened Sysvar
  import opened MemoryMapping
  import Ebpf

  /** What the calculation accepts: the instruction exists and every range ends inside its data. */
  predicate Accepted(config: DetectionConfig, infos: seq<InstructionInfo>) {
    && config.instructionIndex < |infos|
    && forall i :: 0 <= i < |config.forbiddenRanges| ==>
         config.forbiddenRanges[i].end <= infos[config.instructionIndex].dataLen
  }

  /** Calculates the ranges in guest memory. */
  method CalculateForbiddenVmRanges(config: DetectionConfig, infos: seq<InstructionInfo>)
    returns (ranges: Option<seq<Range>>)
    requires config.instructionIndex < |infos| ==> Addressable(config, infos)
    ensures ranges.Some? <==> Accepted(config, infos)
    ensures ranges.Some? ==> ranges.value == VmRanges(config, infos)
  {
    hide DataOffset;
    var offsets := CalculateForbiddenSysvarOffsets(config, infos);
    match offsets
    case Offsets(rs) =>
      ranges := Some(seq(|rs|, i requires 0 <= i < |rs| =>
        Range(Ebpf.MM_INPUT_START + rs[i].start, Ebpf.MM_INPUT_START + rs[i].end)));
    case InvalidIndex => ranges := None;
    case ExceedsData(_) => ranges := None;
  }

  /** Watches the forbidden bytes of the chosen instruction through any sequence of maps, loads, stores and
      region replacements. An accepted configuration is logged exactly: the log is the attempted reads of
      forbidden bytes, in order, if and only if no empty read points strictly inside a forbidden range. */
  method Detect(config: DetectionConfig, instructions: seq<SysvarInstruction>, mapping: MemoryMapping,
                ops: seq<Operation>)
    returns (accepted: bool)
    requires mapping.Valid() && !mapping.backend.Identity?
    requires mapping.tracker.watchedRanges == [] && mapping.tracker.forbiddenAccesses == []
    requires AllSized(instructions)
    requires config.instructionIndex < |instructions| ==> Addressable(config, InfosOf(instructions))
    modifies mapping.Footprint(), mapping.tracker, mapping`asked
    ensures mapping.Valid() && (accepted <==> Accepted(config, InfosOf(instructions)))
    ensures !accepted ==> mapping.tracker.forbiddenAccesses == []
    ensures accepted ==>
      (mapping.tracker.forbiddenAccesses == ForbiddenReads(config, instructions, Attempted(ops)) <==>
       forall k :: 0 <= k < |Attempted(ops)| ==> !PointsInside(config, instructions, Attempted(ops)[k]))
  {
    hide AllSized, Addressable, VmRanges, ForbiddenReads, PointsInside, Attempted, Recorded;
    var ranges := CalculateForbiddenVmRanges(config, InfosOf(instructions));
    accepted := ranges.Some?;
    if accepted {
      mapping.tracker.AddWatchedRanges(ranges.value);
      assert [] + NonEmpty(ranges.value) == NonEmpty(ranges.value);
      DetectionIsExact(config, instructions, Attempted(ops));
      ghost var watched := mapping.tracker.watchedRanges;
      var _ := mapping.Replay(ops);
      assert [] + Recorded(watched, Attempted(ops)) == Recorded(watched, Attempted(ops));
    }
  }
}
