/** Where the bytes of an instruction's data stand in the serialized instructions sysvar, and what it
    means to watch them. */
module Sysvar {
  import opened Words
  import opened Ebpf
  import opened AccessTracker

  // ----- the serialized layout -----

  datatype AccountMeta = AccountMeta(meta: u8, pubkey: seq<u8>)

  datatype SysvarInstruction = SysvarInstruction(accounts: seq<AccountMeta>, programId: seq<u8>, data: seq<u8>)

  ghost predicate WellSized(i: SysvarInstruction) {
    |i.programId| == 32 && forall k :: 0 <= k < |i.accounts| ==> |i.accounts[k].pubkey| == 32
  }

  function U16(x: nat): seq<u8> { [x % 256, x / 256 % 256] }

  function Accounts(accounts: seq<AccountMeta>): seq<u8> {
    if accounts == [] then []
    else Accounts(accounts[..|accounts| - 1]) + [accounts[|accounts| - 1].meta] + accounts[|accounts| - 1].pubkey
  }

  /** What stands before the data of an instruction: counts, accounts and program id */
  function Head(i: SysvarInstruction): seq<u8> {
    U16(|i.accounts|) + Accounts(i.accounts) + i.programId + U16(|i.data|)
  }

  function Body(instructions: seq<SysvarInstruction>): seq<u8> {
    if instructions == [] then []
    else
      var last := instructions[|instructions| - 1];
      Body(instructions[..|instructions| - 1]) + (Head(last) + last.data)
  }

  /** The table of offsets, of the first `k` instructions out of all */
  function Table(instructions: seq<SysvarInstruction>, k: nat): seq<u8>
    requires k <= |instructions|
  {
    if k == 0 then []
    else Table(instructions, k - 1) + U16(2 + 2 * |instructions| + |Body(instructions[..k - 1])|)
  }

  function Serialize(instructions: seq<SysvarInstruction>): seq<u8> {
    U16(|instructions|) + Table(instructions, |instructions|) + Body(instructions)
  }

  // ----- the calculation -----

  datatype InstructionInfo = InstructionInfo(numAccounts: nat, dataLen: nat)

  /** Half-open byte ranges of instruction data */
  datatype Bytes = Bytes(start: nat, end: nat)

  datatype DetectionConfig = DetectionConfig(instructionIndex: nat, forbiddenRanges: seq<Bytes>)

  datatype Offsets = Offsets(ranges: seq<Bytes>) | InvalidIndex | ExceedsData(range: Bytes)

  function HeadSize(i: InstructionInfo): nat { 2 + i.numAccounts * 33 + 32 + 2 }

  function SizeBefore(infos: seq<InstructionInfo>, k: nat): nat
    requires k <= |infos|
  {
    if k == 0 then 2 + 2 * |infos| else SizeBefore(infos, k - 1) + HeadSize(infos[k - 1]) + infos[k - 1].dataLen
  }

  function DataOffset(infos: seq<InstructionInfo>, index: nat): nat
    requires index < |infos|
  {
    SizeBefore(infos, index) + HeadSize(infos[index])
  }

  /** Fails for an instruction that is not there and at the first range that leaves its data; otherwise
      moves every range to where the data stands. */
  method CalculateForbiddenSysvarOffsets(config: DetectionConfig, infos: seq<InstructionInfo>) returns (r: Offsets)
    ensures r.InvalidIndex? <==> config.instructionIndex >= |infos|
    ensures r.ExceedsData? ==>
      exists i :: 0 <= i < |config.forbiddenRanges| && r.range == config.forbiddenRanges[i]
        && r.range.end > infos[config.instructionIndex].dataLen
        && forall j :: 0 <= j < i ==> config.forbiddenRanges[j].end <= infos[config.instructionIndex].dataLen
    ensures r.Offsets? ==>
      && |r.ranges| == |config.forbiddenRanges|
      && forall i :: 0 <= i < |r.ranges| ==>
           && config.forbiddenRanges[i].end <= infos[config.instructionIndex].dataLen
           && r.ranges[i].start == DataOffset(infos, config.instructionIndex) + config.forbiddenRanges[i].start
           && r.ranges[i].end == DataOffset(infos, config.instructionIndex) + config.forbiddenRanges[i].end
  {
    var index := config.instructionIndex;
    if index >= |infos| {
      return InvalidIndex;
    }
    var target := infos[index];
    var offset := 2;
    offset := offset + 2 * |infos|;
    for i := 0 to index
      invariant offset == SizeBefore(infos, i)
    {
      offset := offset + 2;
      offset := offset + infos[i].numAccounts * 33;
      offset := offset + 32;
      offset := offset + 2;
      offset := offset + infos[i].dataLen;
    }
    offset := offset + 2 + target.numAccounts * 33 + 32 + 2;
    var ranges: seq<Bytes> := [];
    for i := 0 to |config.forbiddenRanges|
      invariant |ranges| == i
      invariant forall j :: 0 <= j < i ==>
        && config.forbiddenRanges[j].end <= target.dataLen
        && ranges[j] == Bytes(offset + config.forbiddenRanges[j].start, offset + config.forbiddenRanges[j].end)
    {
      var forbidden := config.forbiddenRanges[i];
      if forbidden.end > target.dataLen {
        return ExceedsData(forbidden);
      }
      ranges := ranges + [Bytes(offset + forbidden.start, offset + forbidden.end)];
    }
    return Offsets(ranges);
  }

  // ----- the calculation meets the layout -----

  function InfoOf(i: SysvarInstruction): InstructionInfo { InstructionInfo(|i.accounts|, |i.data|) }

  function InfosOf(instructions: seq<SysvarInstruction>): (infos: seq<InstructionInfo>)
    ensures |infos| == |instructions|
    ensures forall k :: 0 <= k < |infos| ==> infos[k] == InfoOf(instructions[k])
  {
    seq(|instructions|, k requires 0 <= k < |instructions| => InfoOf(instructions[k]))
  }

  lemma {:induction false} AccountsLength(accounts: seq<AccountMeta>)
    requires forall k :: 0 <= k < |accounts| ==> |accounts[k].pubkey| == 32
    ensures |Accounts(accounts)| == 33 * |accounts|
    decreases |accounts|
  {
    if accounts != [] {
      AccountsLength(accounts[..|accounts| - 1]);
    }
  }

  lemma HeadLength(i: SysvarInstruction)
    requires WellSized(i)
    ensures |Head(i)| == HeadSize(InfoOf(i))
  {
    AccountsLength(i.accounts);
  }

  lemma {:induction false} TableLength(instructions: seq<SysvarInstruction>, k: nat)
    requires k <= |instructions|
    ensures |Table(instructions, k)| == 2 * k
    decreases k
  {
    hide Body;
    if k > 0 {
      TableLength(instructions, k - 1);
    }
  }

  ghost predicate AllSized(instructions: seq<SysvarInstruction>) {
    forall k :: 0 <= k < |instructions| ==> WellSized(instructions[k])
  }

  lemma {:induction false} BodyLength(instructions: seq<SysvarInstruction>, k: nat)
    requires AllSized(instructions) && k <= |instructions|
    ensures 2 + 2 * |instructions| + |Body(instructions[..k])| == SizeBefore(InfosOf(instructions), k)
    decreases k
  {
    hide Head, HeadSize, WellSized;
    if k > 0 {
      BodyLength(instructions, k - 1);
      HeadLength(instructions[k - 1]);
      assert instructions[..k][..k - 1] == instructions[..k - 1];
    } else {
      assert instructions[..0] == [];
    }
  }

  lemma {:induction false} BodyPrefix(instructions: seq<SysvarInstruction>, k: nat)
    requires k <= |instructions|
    ensures Body(instructions[..k]) <= Body(instructions)
    decreases |instructions|
  {
    hide Head;
    if k < |instructions| {
      var shorter := instructions[..|instructions| - 1];
      BodyPrefix(shorter, k);
      assert shorter[..k] == instructions[..k];
    } else {
      assert instructions[..k] == instructions;
    }
  }

  /** The data of an instruction stands at the calculated offset. */
  lemma DataAtOffset(instructions: seq<SysvarInstruction>, index: nat)
    requires AllSized(instructions) && index < |instructions|
    ensures var at := DataOffset(InfosOf(instructions), index); var data := instructions[index].data;
      at + |data| <= |Serialize(instructions)| && Serialize(instructions)[at..at + |data|] == data
  {
    hide Head, HeadSize, WellSized, Table;
    var front := U16(|instructions|) + Table(instructions, |instructions|);
    TableLength(instructions, |instructions|);
    BodyLength(instructions, index);
    BodyPrefix(instructions, index + 1);
    HeadLength(instructions[index]);
    BodySplit(instructions, index);
    SliceBehind(front, Body(instructions[..index]), Head(instructions[index]), instructions[index].data,
                Body(instructions));
  }

  lemma BodySplit(instructions: seq<SysvarInstruction>, index: nat)
    requires index < |instructions|
    ensures Body(instructions[..index + 1])
         == Body(instructions[..index]) + (Head(instructions[index]) + instructions[index].data)
  {
    hide Head;
    assert instructions[..index + 1][..index] == instructions[..index];
  }

  lemma SliceBehind(front: seq<u8>, before: seq<u8>, head: seq<u8>, data: seq<u8>, body: seq<u8>)
    requires before + (head + data) <= body
    ensures var at := |front| + |before| + |head|;
      at + |data| <= |front + body| && (front + body)[at..at + |data|] == data
  {
    var p := |before| + |head|;
    assert body[p..p + |data|] == (before + (head + data))[p..p + |data|] == data;
    assert (front + body)[|front| + p..|front| + p + |data|] == body[p..p + |data|];
  }

  /** An accepted range selects exactly the forbidden bytes of the chosen instruction. */
  lemma OffsetsSelectForbidden(instructions: seq<SysvarInstruction>, index: nat, forbidden: Bytes, offset: Bytes)
    requires AllSized(instructions) && index < |instructions|
    requires forbidden.start <= forbidden.end <= |instructions[index].data|
    requires offset == Bytes(DataOffset(InfosOf(instructions), index) + forbidden.start,
                             DataOffset(InfosOf(instructions), index) + forbidden.end)
    ensures offset.end <= |Serialize(instructions)|
    ensures Serialize(instructions)[offset.start..offset.end]
      == instructions[index].data[forbidden.start..forbidden.end]
  {
    hide Serialize, DataOffset, InfosOf;
    DataAtOffset(instructions, index);
    var at, data := DataOffset(InfosOf(instructions), index), instructions[index].data;
    SubSlice(Serialize(instructions), at, at + |data|, forbidden.start, forbidden.end);
  }

  lemma SubSlice(s: seq<u8>, lo: nat, hi: nat, i: nat, j: nat)
    requires lo <= hi <= |s| && i <= j <= hi - lo
    ensures s[lo..hi][i..j] == s[lo + i..lo + j]
  {
    forall k | 0 <= k < j - i ensures s[lo..hi][i..j][k] == s[lo + i..lo + j][k] {
      assert s[lo..hi][i..j][k] == s[lo..hi][i + k] == s[lo + (i + k)];
    }
  }

  // ----- watching the ranges -----

  /** The ranges in guest memory, if the sysvar starts at the input region */
  function VmRanges(config: DetectionConfig, infos: seq<InstructionInfo>): seq<Range>
    requires config.instructionIndex < |infos| && Addressable(config, infos)
  {
    var base := MM_INPUT_START + DataOffset(infos, config.instructionIndex);
    seq(|config.forbiddenRanges|, i requires 0 <= i < |config.forbiddenRanges| =>
      Range(base + config.forbiddenRanges[i].start, base + config.forbiddenRanges[i].end))
  }

  predicate Addressable(config: DetectionConfig, infos: seq<InstructionInfo>)
    requires config.instructionIndex < |infos|
  {
    forall i :: 0 <= i < |config.forbiddenRanges| ==>
      && MM_INPUT_START + DataOffset(infos, config.instructionIndex) + config.forbiddenRanges[i].start < TWO64
      && MM_INPUT_START + DataOffset(infos, config.instructionIndex) + config.forbiddenRanges[i].end < TWO64
  }

  /** Everything in front of the data of an instruction */
  ghost function InFront(instructions: seq<SysvarInstruction>, index: nat): seq<u8>
    requires index < |instructions|
  {
    U16(|instructions|) + Table(instructions, |instructions|)
      + (Body(instructions[..index]) + Head(instructions[index]))
  }

  lemma FrontAndData(instructions: seq<SysvarInstruction>, index: nat)
    requires AllSized(instructions) && index < |instructions|
    ensures InFront(instructions, index) + instructions[index].data <= Serialize(instructions)
    ensures |InFront(instructions, index)| == DataOffset(InfosOf(instructions), index)
  {
    hide Head, HeadSize, WellSized, Table;
    TableLength(instructions, |instructions|);
    BodyLength(instructions, index);
    BodyPrefix(instructions, index + 1);
    HeadLength(instructions[index]);
    BodySplit(instructions, index);
    hide Body;
    PrefixBehind(U16(|instructions|) + Table(instructions, |instructions|), Body(instructions[..index]),
                 Head(instructions[index]), instructions[index].data, Body(instructions));
  }

  lemma PrefixBehind(front: seq<u8>, before: seq<u8>, head: seq<u8>, data: seq<u8>, body: seq<u8>)
    requires before + (head + data) <= body
    ensures front + (before + head) + data <= front + body
  {
    assert front + (before + head) + data == front + (before + (head + data));
  }

  /** The guest address of byte `j` of the instruction's data: it stands behind everything in front of it,
      in a sysvar at the start of the input region. */
  ghost function DataAddress(config: DetectionConfig, instructions: seq<SysvarInstruction>, j: int): int
    requires config.instructionIndex < |instructions|
  {
    MM_INPUT_START + |InFront(instructions, config.instructionIndex)| + j
  }

  /** Byte `j` of the data is forbidden by range `i`, and the access reads it. */
  ghost predicate ReadsByte(config: DetectionConfig, instructions: seq<SysvarInstruction>, a: Access, i: int, j: int)
    requires config.instructionIndex < |instructions|
  {
    && 0 <= i < |config.forbiddenRanges| && config.forbiddenRanges[i].start <= j < config.forbiddenRanges[i].end
    && a.addr <= DataAddress(config, instructions, j) < a.addr + a.len
  }

  ghost predicate ReadsForbidden(config: DetectionConfig, instructions: seq<SysvarInstruction>, a: Access)
    requires config.instructionIndex < |instructions|
  {
    exists i, j :: ReadsByte(config, instructions, a, i, j)
  }

  ghost predicate InRange(config: DetectionConfig, instructions: seq<SysvarInstruction>, addr: u64, i: int)
    requires config.instructionIndex < |instructions|
  {
    && 0 <= i < |config.forbiddenRanges|
    && DataAddress(config, instructions, config.forbiddenRanges[i].start) < addr
    && addr < DataAddress(config, instructions, config.forbiddenRanges[i].end)
  }

  /** An empty access that points strictly inside a forbidden range */
  ghost predicate PointsInside(config: DetectionConfig, instructions: seq<SysvarInstruction>, a: Access)
    requires config.instructionIndex < |instructions|
  {
    a.len == 0 && exists i :: InRange(config, instructions, a.addr, i)
  }

  /** Watching the calculated ranges is watching the forbidden bytes: an access shares a byte with them if
      and only if it reads a forbidden byte of the chosen instruction. */
  lemma WatchingForbiddenBytes(config: DetectionConfig, instructions: seq<SysvarInstruction>, a: Access)
    requires AllSized(instructions) && config.instructionIndex < |instructions|
    requires Addressable(config, InfosOf(instructions))
    ensures var watched := VmRanges(config, InfosOf(instructions));
      && (SharesByte(watched, a) <==> ReadsForbidden(config, instructions, a))
      && (Spurious(watched, a) <==> PointsInside(config, instructions, a))
  {
    FrontAndData(instructions, config.instructionIndex);
    hide DataOffset, InFront, Serialize, AllSized;
    var watched := VmRanges(config, InfosOf(instructions));
    var base := DataAddress(config, instructions, 0);
    if SharesByte(watched, a) {
      var i :| 0 <= i < |watched| && ShareByte(a, watched[i]);
      var b: u64 :| Reads(a, b) && Contains(watched[i], b);
      assert ReadsByte(config, instructions, a, i, b - base);
    }
    if ReadsForbidden(config, instructions, a) {
      var i, j :| ReadsByte(config, instructions, a, i, j);
      var b: u64 := base + j;
      assert Reads(a, b) && Contains(watched[i], b);
      assert ShareByte(a, watched[i]);
    }
    SpuriousMeaning(config, instructions, a);
  }

  lemma SpuriousMeaning(config: DetectionConfig, instructions: seq<SysvarInstruction>, a: Access)
    requires config.instructionIndex < |instructions| && Addressable(config, InfosOf(instructions))
    requires |InFront(instructions, config.instructionIndex)| ==
      DataOffset(InfosOf(instructions), config.instructionIndex)
    ensures Spurious(VmRanges(config, InfosOf(instructions)), a) <==> PointsInside(config, instructions, a)
  {
    hide DataOffset, InFront;
    var watched := VmRanges(config, InfosOf(instructions));
    if Spurious(watched, a) {
      var i :| 0 <= i < |watched| && watched[i].start < a.addr < watched[i].end;
      assert InRange(config, instructions, a.addr, i);
    }
    if PointsInside(config, instructions, a) {
      var i :| InRange(config, instructions, a.addr, i);
      assert watched[i].start < a.addr < watched[i].end;
    }
  }

  /** Empty ranges are not watched, and nothing is lost by that. */
  lemma {:induction false} NonEmptyWatched(rs: seq<Range>, a: Access)
    ensures AllNonEmpty(NonEmpty(rs))
    ensures SharesByte(NonEmpty(rs), a) <==> SharesByte(rs, a)
    ensures Spurious(NonEmpty(rs), a) <==> Spurious(rs, a)
    decreases |rs|
  {
    hide ShareByte, SharesByte, Spurious;
    if rs == [] {
      NothingWatched(a);
    } else {
      var init, last := rs[..|rs| - 1], rs[|rs| - 1];
      NonEmptyWatched(init, a);
      EmptyShares(last, a);
      SharesLast(init, last, a);
      SharesLast(NonEmpty(init), last, a);
      assert rs == init + [last] && NonEmpty(init) + [] == NonEmpty(init);
    }
  }

  lemma NothingWatched(a: Access)
    ensures !SharesByte([], a) && !Spurious([], a)
  {
  }

  lemma EmptyShares(r: Range, a: Access)
    ensures IsEmpty(r) ==> !ShareByte(a, r) && !(r.start < a.addr < r.end)
  {
  }

  lemma SharesLast(rs: seq<Range>, r: Range, a: Access)
    ensures SharesByte(rs + [r], a) <==> SharesByte(rs, a) || ShareByte(a, r)
    ensures Spurious(rs + [r], a) <==> Spurious(rs, a) || (a.len == 0 && r.start < a.addr < r.end)
  {
    hide ShareByte;
    var longer := rs + [r];
    if SharesByte(rs, a) {
      var i :| 0 <= i < |rs| && ShareByte(a, rs[i]);
      assert longer[i] == rs[i];
    }
    if Spurious(rs, a) {
      var i :| 0 <= i < |rs| && rs[i].start < a.addr < rs[i].end;
      assert longer[i] == rs[i];
    }
    assert longer[|rs|] == r;
  }

  /** The accesses of a run that read a forbidden byte, in order */
  ghost function ForbiddenReads(config: DetectionConfig, instructions: seq<SysvarInstruction>, accesses: seq<Access>)
    : seq<Access>
    requires config.instructionIndex < |instructions|
  {
    if accesses == [] then []
    else
      var init, last := accesses[..|accesses| - 1], accesses[|accesses| - 1];
      ForbiddenReads(config, instructions, init) + (if ReadsForbidden(config, instructions, last) then [last] else [])
  }

  /** Sharing a byte with what is watched is reading a forbidden byte, for every access. */
  lemma WatchedMeaning(config: DetectionConfig, instructions: seq<SysvarInstruction>, a: Access)
    requires AllSized(instructions) && config.instructionIndex < |instructions|
    requires Addressable(config, InfosOf(instructions))
    ensures var watched := NonEmpty(VmRanges(config, InfosOf(instructions)));
      && AllNonEmpty(watched) && (SharesByte(watched, a) <==> ReadsForbidden(config, instructions, a))
      && (Spurious(watched, a) <==> PointsInside(config, instructions, a))
  {
    hide *;
    WatchingForbiddenBytes(config, instructions, a);
    NonEmptyWatched(VmRanges(config, InfosOf(instructions)), a);
  }

  lemma {:induction false} SharingIsReading(config: DetectionConfig, instructions: seq<SysvarInstruction>,
                                            accesses: seq<Access>)
    requires AllSized(instructions) && config.instructionIndex < |instructions|
    requires Addressable(config, InfosOf(instructions))
    ensures Sharing(NonEmpty(VmRanges(config, InfosOf(instructions))), accesses)
      == ForbiddenReads(config, instructions, accesses)
    decreases |accesses|
  {
    hide AllSized, Addressable, NonEmpty, VmRanges, InfosOf, SharesByte, ReadsForbidden;
    if accesses != [] {
      SharingIsReading(config, instructions, accesses[..|accesses| - 1]);
      WatchedMeaning(config, instructions, accesses[|accesses| - 1]);
    }
  }

  /** End to end: with the calculated ranges watched, the log of a run is the list of its accesses that read
      a forbidden byte of the serialized instruction, in order, if and only if the run makes no empty access
      strictly inside a forbidden range. */
  lemma DetectionIsExact(config: DetectionConfig, instructions: seq<SysvarInstruction>, accesses: seq<Access>)
    requires AllSized(instructions) && config.instructionIndex < |instructions|
    requires Addressable(config, InfosOf(instructions))
    ensures Recorded(NonEmpty(VmRanges(config, InfosOf(instructions))), accesses)
         == ForbiddenReads(config, instructions, accesses)
      <==> forall k :: 0 <= k < |accesses| ==> !PointsInside(config, instructions, accesses[k])
  {
    hide AllSized, Addressable, NonEmpty, VmRanges, InfosOf, Spurious, PointsInside, Sharing, Recorded, ForbiddenReads;
    var watched := NonEmpty(VmRanges(config, InfosOf(instructions)));
    SharingIsReading(config, instructions, accesses);
    WatchedMeaning(config, instructions, Access(0, 0));
    LogIsExact(watched, accesses);
    forall k | 0 <= k < |accesses|
      ensures Spurious(watched, accesses[k]) <==> PointsInside(config, instructions, accesses[k])
    {
      WatchedMeaning(config, instructions, accesses[k]);
    }
  }
}
