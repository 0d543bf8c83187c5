/** Relative jumps in the emitted text: backward ones are encoded when they are emitted, forward ones
    are patched once every slot has its place. */
module JumpPatching {
  import opened Words
  import opened Ebpf

  /** A forward jump: where its four offset bytes stand and the slot it goes to */
  datatype Jump = Jump(location: nat, targetPc: nat)

  /** An emitted jump or call: the end of the instruction and the slot it is for */
  datatype Site = Site(end: nat, targetPc: nat)

  /** What the code of a slot is made of: plain bytes (no-ops included), and jumps whose opcode is one byte
      (jump, call) or two (conditional jump) */
  datatype Item = Bytes(bytes: seq<u8>) | JumpTo(opcode: seq<u8>, targetPc: nat)

  function Encode(value: int): (bytes: seq<u8>)
    ensures |bytes| == 4
  {
    var w := Wrap32(value);
    [w % 0x100, w / 0x100 % 0x100, w / 0x1_0000 % 0x100, w / 0x100_0000 % 0x100]
  }

  lemma EncodeRoundTrip(value: int)
    requires -TWO31 <= value < TWO31
    ensures ReadI32(Encode(value)) == value
  {
    hide ReadU32;
    FourBytes(Wrap32(value), Encode(value));
    SignedWrap(value);
  }

  /** Where the processor goes from an instruction that ends at `end` */
  ghost function Decoded(text: seq<u8>, end: nat): int
    requires 4 <= end <= |text|
  {
    end + ReadI32(text[end - 4..end])
  }

  /** The offset bytes of different jumps do not overlap. */
  ghost predicate Apart(sites: seq<Site>) {
    && (forall i :: 0 <= i < |sites| ==> sites[i].end >= 4)
    && (forall i, j :: 0 <= i < j < |sites| ==> sites[i].end + 4 <= sites[j].end)
  }

  ghost predicate Resolved(text: seq<u8>, sections: seq<nat>, s: Site) {
    && 4 <= s.end <= |text| && s.targetPc < |sections|
    && sections[s.targetPc] != 0 && Decoded(text, s.end) == sections[s.targetPc]
  }

  ghost predicate Pending(jumps: seq<Jump>, s: Site) {
    s.end >= 4 && Jump(s.end - 4, s.targetPc) in jumps
  }

  /** The state of a text under construction: every jump is already right or still listed. */
  ghost predicate Inv(text: seq<u8>, sections: seq<nat>, offset: nat, jumps: seq<Jump>, sites: seq<Site>) {
    && 0 < offset <= |text| < TWO31
    && (forall pc :: 0 <= pc < |sections| ==> sections[pc] < TWO31)
    && Apart(sites)
    && (forall i :: 0 <= i < |sites| ==> sites[i].end <= offset && sites[i].targetPc < |sections|)
    && (forall i :: 0 <= i < |sites| ==> Pending(jumps, sites[i]) || Resolved(text, sections, sites[i]))
    && (forall j :: 0 <= j < |jumps| ==> Site(jumps[j].location + 4, jumps[j].targetPc) in sites)
  }

  lemma ResolvedKept(text: seq<u8>, text': seq<u8>, sections: seq<nat>, s: Site)
    requires Resolved(text, sections, s) && s.end <= |text'| && text'[s.end - 4..s.end] == text[s.end - 4..s.end]
    ensures Resolved(text', sections, s)
  {
  }

  /** Appending code keeps everything that is there. */
  lemma Appended(text: seq<u8>, text': seq<u8>, sections: seq<nat>, offset: nat, offset': nat, jumps: seq<Jump>,
                 sites: seq<Site>)
    requires Inv(text, sections, offset, jumps, sites)
    requires offset <= offset' <= |text'| == |text| && text'[..offset] == text[..offset]
    ensures Inv(text', sections, offset', jumps, sites)
  {
    hide Resolved, Pending;
    forall i | 0 <= i < |sites| ensures Pending(jumps, sites[i]) || Resolved(text', sections, sites[i]) {
      var s := sites[i];
      if Resolved(text, sections, s) {
        assert text'[s.end - 4..s.end] == text'[..offset][s.end - 4..s.end] == text[s.end - 4..s.end];
        ResolvedKept(text, text', sections, s);
      }
    }
  }

  /** Giving a slot its place disturbs no jump, because no jump has used that place yet. */
  lemma PlaceAdded(text: seq<u8>, sections: seq<nat>, offset: nat, jumps: seq<Jump>, sites: seq<Site>, pc: nat, at: nat)
    requires Inv(text, sections, offset, jumps, sites) && pc < |sections| && sections[pc] == 0 && at < TWO31
    ensures Inv(text, sections[pc := at], offset, jumps, sites)
  {
    var sections' := sections[pc := at];
    forall i | 0 <= i < |sites| && Resolved(text, sections, sites[i]) ensures Resolved(text, sections', sites[i]) {
    }
    hide Resolved, Pending;
  }

  lemma PendingMore(jumps: seq<Jump>, s: Site, t: Site)
    requires s.end >= 4
    ensures Pending(jumps, t) ==> Pending(jumps + [Jump(s.end - 4, s.targetPc)], t)
    ensures t == s ==> Pending(jumps + [Jump(s.end - 4, s.targetPc)], t)
  {
  }

  /** A new jump, right at once or listed */
  lemma JumpAdded(text: seq<u8>, sections: seq<nat>, offset: nat, offset': nat, jumps: seq<Jump>, jumps': seq<Jump>,
                  sites: seq<Site>, s: Site)
    requires Inv(text, sections, offset', jumps, sites) && offset + 4 <= offset' == s.end && s.targetPc < |sections|
    requires forall i :: 0 <= i < |sites| ==> sites[i].end <= offset
    requires if Resolved(text, sections, s) then jumps' == jumps else jumps' == jumps + [Jump(s.end - 4, s.targetPc)]
    ensures Inv(text, sections, offset', jumps', sites + [s])
  {
    hide Resolved, Pending;
    var sites' := sites + [s];
    forall i | 0 <= i < |sites'| ensures Pending(jumps', sites'[i]) || Resolved(text, sections, sites'[i]) {
      if i < |sites| {
        assert sites'[i] == sites[i];
      }
      PendingMore(jumps, s, sites'[i]);
    }
    forall j | 0 <= j < |jumps'| ensures Site(jumps'[j].location + 4, jumps'[j].targetPc) in sites' {
      if j < |jumps| {
        assert jumps'[j] == jumps[j];
      } else {
        assert sites'[|sites|] == s;
      }
    }
  }

  lemma OpcodeIn(text: seq<u8>, front: seq<u8>, opcode: seq<u8>, field: seq<u8>)
    requires |front| + |opcode| + |field| <= |text|
    requires text[..|front| + |opcode| + |field|] == front + (opcode + field)
    ensures text[..|front|] == front && text[|front|..|front| + |opcode|] == opcode
  {
    var whole := front + (opcode + field);
    assert text[..|front|] == whole[..|front|];
    assert text[|front|..|front| + |opcode|] == whole[|front|..|front| + |opcode|];
  }

  class CodeBuffer {
    const text: array<u8>
    const pcSection: array<nat>
    var offset: nat
    var jumps: seq<Jump>
    ghost var sites: seq<Site>

    /** The subroutines come first, so the text is never empty when the first slot starts. */
    constructor (capacity: nat, slots: nat, subroutines: nat)
      requires 0 < subroutines <= capacity < TWO31
      ensures Valid() && offset == subroutines && text.Length == capacity && pcSection.Length == slots
      ensures jumps == [] && sites == [] && fresh(text) && fresh(pcSection) && pcSection[..] == seq(slots, _ => 0)
    {
      text := new u8[capacity](_ => 0);
      pcSection := new nat[slots](_ => 0);
      offset, jumps, sites := subroutines, [], [];
    }

    ghost predicate Valid()
      reads this, text, pcSection
    {
      Inv(text[..], pcSection[..], offset, jumps, sites)
    }

    method Write(at: nat, bytes: seq<u8>)
      requires at + |bytes| <= text.Length
      modifies text
      ensures text[..] == old(text[..at]) + bytes + old(text[at + |bytes|..])
    {
      ghost var before := text[..];
      for i := 0 to |bytes|
        invariant text[..] == before[..at] + bytes[..i] + before[at + i..]
      {
        text[at + i] := bytes[i];
      }
    }

    method Append(bytes: seq<u8>)
      requires offset + |bytes| <= text.Length
      modifies this`offset, text
      ensures offset == old(offset) + |bytes| && text[..offset] == old(text[..offset]) + bytes
    {
      Write(offset, bytes);
      offset := offset + |bytes|;
    }

    method Emit(bytes: seq<u8>)
      requires Valid() && offset + |bytes| <= text.Length
      modifies this`offset, text
      ensures Valid() && offset == old(offset) + |bytes|
      ensures text[..offset] == old(text[..offset]) + bytes
    {
      hide Inv;
      ghost var before := text[..];
      Append(bytes);
      assert text[..][..old(offset)] == text[..offset][..old(offset)] == before[..old(offset)];
      Appended(before, text[..], pcSection[..], old(offset), offset, jumps, sites);
    }

    /** Records where the code of a slot starts. */
    method StartSlot(pc: nat, at: nat)
      requires Valid() && pc < pcSection.Length && pcSection[pc] == 0 && at < TWO31
      modifies pcSection
      ensures Valid() && pcSection[..] == old(pcSection[..])[pc := at]
    {
      hide Inv;
      PlaceAdded(text[..], pcSection[..], offset, jumps, sites, pc, at);
      pcSection[pc] := at;
    }

    /** The offset to encode for a jump that ends `length` bytes from here; a slot without a place yet is
        put on the list. */
    method RelativeToTargetPc(targetPc: nat, length: nat) returns (relative: int)
      requires targetPc < pcSection.Length && length >= 4
      modifies this`jumps
      ensures var end := offset + length;
        if pcSection[targetPc] != 0 then jumps == old(jumps) && end + relative == pcSection[targetPc]
        else jumps == old(jumps) + [Jump(end - 4, targetPc)] && relative == 0
    {
      var end := offset + length;
      if pcSection[targetPc] != 0 {
        relative := pcSection[targetPc] - end;
      } else {
        jumps := jumps + [Jump(end - 4, targetPc)];
        relative := 0;
      }
    }

    method EmitJump(opcode: seq<u8>, targetPc: nat)
      requires Valid() && targetPc < pcSection.Length && offset + |opcode| + 4 <= text.Length
      modifies this, text
      ensures Valid() && offset == old(offset) + |opcode| + 4
      ensures sites == old(sites) + [Site(offset, targetPc)]
      ensures text[..old(offset)] == old(text[..offset])
      ensures text[old(offset)..old(offset) + |opcode|] == opcode
    {
      hide Inv, Encode;
      ghost var before, jumps0, offset0 := text[..], jumps, offset;
      InvSites(text[..], pcSection[..], offset, jumps, sites);
      SectionSmall(text[..], pcSection[..], offset, jumps, sites, targetPc);
      var relative := RelativeToTargetPc(targetPc, |opcode| + 4);
      Append(opcode + Encode(relative));
      ghost var s := Site(offset, targetPc);
      assert text[..][..offset] == text[..offset];
      OpcodeIn(text[..], before[..offset0], opcode, Encode(relative));
      assert text[..][..offset0] == text[..offset0] && text[..][offset0..offset0 + |opcode|] ==
             text[offset0..offset0 + |opcode|];
      Appended(before, text[..], pcSection[..], offset0, offset, jumps0, sites);
      FieldOf(text[..], opcode, offset0, relative);
      JumpAdded(text[..], pcSection[..], offset0, offset, jumps0, jumps, sites, s);
      sites := sites + [s];
    }

    /** Writes the offset of every listed jump over its placeholder. */
    method ResolveJumps()
      requires Valid()
      requires forall j :: 0 <= j < |jumps| && jumps[j].targetPc < pcSection.Length ==>
        pcSection[jumps[j].targetPc] != 0
      modifies text
      ensures forall i :: 0 <= i < |sites| ==> Resolved(text[..], pcSection[..], sites[i])
      ensures forall i :: 0 <= i < text.Length && text[i] != old(text[i]) ==> InField(sites, i)
    {
      hide Inv, Listed, Settled, OnlyFields, InField, Resolved, Encode;
      ghost var first, sections := text[..], pcSection[..];
      InvListed(first, sections, offset, jumps, sites);
      assert jumps[0..] == jumps;
      for k := 0 to |jumps|
        invariant |text[..]| == |first| && Settled(text[..], sections, sites, jumps[k..])
        invariant OnlyFields(first, text[..], sites)
      {
        ListedAt(|text[..]|, sections, sites, jumps, k);
        var jump := jumps[k];
        var destination := pcSection[jump.targetPc];
        ghost var before := text[..];
        Write(jump.location, Encode(destination - jump.location - 4));
        PatchStep(first, before, text[..], sections, sites, jumps, k);
      }
      AllSettled(first, text[..], sections, sites, jumps[|jumps|..]);
    }

    method EmitItem(item: Item)
      requires Valid() && offset + ItemLength(item) <= text.Length && TargetsInside([item], pcSection.Length)
      modifies this, text
      ensures Valid() && offset == old(offset) + ItemLength(item)
      ensures sites == old(sites) + ItemSites(item, old(offset))
      ensures Extends(old(text[..]), text[..], old(offset), ItemSkeleton(item))
    {
      hide Inv, Valid, Extends;
      ghost var at, before := offset, text[..];
      assert [item][0] == item;
      if item.Bytes? {
        Emit(item.bytes);
        BytesExtend(before, text[..], at, item);
      } else {
        EmitJump(item.opcode, item.targetPc);
        JumpExtends(before, text[..], at, item);
      }
    }

    method EmitItems(items: seq<Item>)
      requires Valid() && offset + Length(items) <= text.Length && TargetsInside(items, pcSection.Length)
      modifies this, text
      ensures Valid() && offset == old(offset) + Length(items)
      ensures sites == old(sites) + SitesOf(items, old(offset))
      ensures Extends(old(text[..]), text[..], old(offset), Skeleton(items))
    {
      hide Inv, Valid, Extends, ItemSites, ItemSkeleton, ItemLength;
      ghost var base, first, sites0 := offset, text[..], sites;
      assert items[..0] == [];
      ExtendsNone(first, base);
      for k := 0 to |items|
        invariant Valid() && offset == base + Length(items[..k])
        invariant sites == sites0 + SitesOf(items[..k], base)
        invariant Extends(first, text[..], base, Skeleton(items[..k]))
      {
        assert items[..k + 1][..k] == items[..k] && [items[k]][0] == items[k];
        LengthGrows(items, k + 1);
        SkeletonLength(items[..k]);
        ghost var before := text[..];
        EmitItem(items[k]);
        ExtendsMore(first, before, text[..], base, Skeleton(items[..k]), ItemSkeleton(items[k]));
      }
      assert items[..|items|] == items;
    }

    /** Compiles a program slot by slot, whatever the code of its slots is, and behind them the last piece, which
        is reached by running off the end; then patches the forward jumps: afterwards every jump and call goes to
        the place recorded for its target. Second halves of wide loads have the place of a handler among
        the subroutines. */
    method Compile(program: seq<seq<Item>>, isTail: seq<bool>, handler: nat)
      requires Valid() && jumps == [] && sites == [] && pcSection.Length == |isTail| == |program| - 1
      requires pcSection[..] == seq(|isTail|, _ => 0) && 0 < handler < offset < TWO31
      requires ProgramFits(program, |isTail|, offset, text.Length)
      modifies this, text, pcSection
      ensures forall pc :: 0 <= pc < |isTail| ==>
        pcSection[pc] > 0 && pcSection[pc] == if isTail[pc] then handler else old(offset) + ProgramLength(program[..pc])
      ensures sites == ProgramSites(program, old(offset))
      ensures forall i :: 0 <= i < |sites| ==> Resolved(text[..], pcSection[..], sites[i])
      ensures Extends(old(text[..]), text[..], old(offset), ProgramSkeleton(program))
    {
      hide Inv, Resolved, InField, TargetsInside, SitesOf, Length, ProgramSites, ProgramFits, Extends, ProgramSkeleton;
      ghost var base, first := offset, text[..];
      var slots := program[..|isTail|];
      SlotsFit(program, |isTail|, base, text.Length);
      EmitSlots(slots, isTail, handler);
      forall pc | 0 <= pc < |isTail| ensures slots[..pc] == program[..pc] { }
      ghost var emitted := text[..];
      EmitItems(program[|isTail|]);
      ProgramStep(program, |isTail|, base);
      ProgramSkeletonLength(slots);
      ExtendsMore(first, emitted, text[..], base, ProgramSkeleton(slots), Skeleton(program[|isTail|]));
      assert program[..|program|] == program;
      ghost var before := text[..];
      ResolveJumps();
      ProgramHoles(program, base);
      SkeletonKept(first, before, text[..], base, ProgramSkeleton(program), sites);
    }

    method EmitSlots(program: seq<seq<Item>>, isTail: seq<bool>, handler: nat)
      requires Valid() && jumps == [] && sites == [] && pcSection.Length == |program| == |isTail|
      requires pcSection[..] == seq(|program|, _ => 0) && 0 < handler < offset < TWO31
      requires ProgramFits(program, |program|, offset, text.Length)
      modifies this, text, pcSection
      ensures Valid() && sites == ProgramSites(program, old(offset))
      ensures offset == old(offset) + ProgramLength(program)
      ensures forall pc :: 0 <= pc < |program| ==>
        pcSection[pc] > 0 && pcSection[pc] == if isTail[pc] then handler else old(offset) + ProgramLength(program[..pc])
      ensures Extends(old(text[..]), text[..], old(offset), ProgramSkeleton(program))
    {
      hide Inv, Resolved, InField, TargetsInside, SitesOf, Length, Valid, Extends, Skeleton;
      hide ProgramSites, ProgramSkeleton, ProgramLength, Started;
      assert program[..0] == [];
      ghost var base, first := offset, text[..];
      ExtendsNone(first, base);
      NoneStarted(pcSection[..], program, isTail, handler, base);
      NoProgram(base);
      for pc := 0 to |program|
        invariant Valid() && offset == base + ProgramLength(program[..pc])
        invariant Started(pcSection[..], program, isTail, handler, base, pc)
        invariant sites == ProgramSites(program[..pc], base)
        invariant Extends(first, text[..], base, ProgramSkeleton(program[..pc]))
      {
        ProgramStep(program, pc, base);
        ProgramGrows(program, pc + 1);
        ProgramSkeletonLength(program[..pc]);
        ghost var before := text[..];
        StartedNext(pcSection[..], program, isTail, handler, base, pc);
        EmitSlot(pc, program[pc], if isTail[pc] then Some(handler) else None);
        ExtendsMore(first, before, text[..], base, ProgramSkeleton(program[..pc]), Skeleton(program[pc]));
      }
      assert program[..|program|] == program;
      AllStarted(pcSection[..], program, isTail, handler, base);
    }

    /** The place of a slot is where its code starts, unless it has a handler. */
    method EmitSlot(pc: nat, items: seq<Item>, handler: Option<nat>)
      requires Valid() && pc < pcSection.Length && pcSection[pc] == 0 && (handler.Some? ==> 0 < handler.value < TWO31)
      requires offset + Length(items) <= text.Length && TargetsInside(items, pcSection.Length)
      modifies this, text, pcSection
      ensures Valid() && offset == old(offset) + Length(items) && old(offset) > 0
      ensures pcSection[..] == old(pcSection[..])[pc := if handler.Some? then handler.value else old(offset)]
      ensures sites == old(sites) + SitesOf(items, old(offset))
      ensures Extends(old(text[..]), text[..], old(offset), Skeleton(items))
    {
      OffsetSmall(text[..], pcSection[..], offset, jumps, sites);
      hide Inv, TargetsInside, SitesOf, Length, Extends, Skeleton;
      if handler.Some? {
        StartSlot(pc, handler.value);
      } else {
        StartSlot(pc, offset);
      }
      EmitItems(items);
    }
  }

  lemma OffsetSmall(text: seq<u8>, sections: seq<nat>, offset: nat, jumps: seq<Jump>, sites: seq<Site>)
    requires Inv(text, sections, offset, jumps, sites)
    ensures 0 < offset < TWO31
  {
  }

  function ItemLength(item: Item): nat {
    match item case Bytes(b) => |b| case JumpTo(opcode, _) => |opcode| + 4
  }

  function Length(items: seq<Item>): nat {
    if items == [] then 0 else Length(items[..|items| - 1]) + ItemLength(items[|items| - 1])
  }

  ghost function ProgramLength(program: seq<seq<Item>>): nat {
    if program == [] then 0 else ProgramLength(program[..|program| - 1]) + Length(program[|program| - 1])
  }

  ghost function ItemSites(item: Item, at: nat): seq<Site> {
    if item.JumpTo? then [Site(at + ItemLength(item), item.targetPc)] else []
  }

  /** The jumps of a piece of code that starts at `at`, in order */
  ghost function SitesOf(items: seq<Item>, at: nat): seq<Site> {
    if items == [] then []
    else
      var init := items[..|items| - 1];
      SitesOf(init, at) + ItemSites(items[|items| - 1], at + Length(init))
  }

  ghost function ProgramSites(program: seq<seq<Item>>, at: nat): seq<Site> {
    if program == [] then []
    else
      var init := program[..|program| - 1];
      ProgramSites(init, at) + SitesOf(program[|program| - 1], at + ProgramLength(init))
  }

  /** The bytes of a piece of code, with holes where offsets of jumps go */
  ghost function Known(bytes: seq<u8>): seq<Option<u8>> {
    seq(|bytes|, i requires 0 <= i < |bytes| => Some(bytes[i]))
  }

  ghost function ItemSkeleton(item: Item): seq<Option<u8>> {
    match item
    case Bytes(b) => Known(b)
    case JumpTo(opcode, _) => Known(opcode) + [None, None, None, None]
  }

  ghost function Skeleton(items: seq<Item>): seq<Option<u8>> {
    if items == [] then [] else Skeleton(items[..|items| - 1]) + ItemSkeleton(items[|items| - 1])
  }

  ghost function ProgramSkeleton(program: seq<seq<Item>>): seq<Option<u8>> {
    if program == [] then [] else ProgramSkeleton(program[..|program| - 1]) + Skeleton(program[|program| - 1])
  }

  /** The known bytes stand in the text from `at` on. */
  ghost predicate Fits(text: seq<u8>, at: nat, skeleton: seq<Option<u8>>) {
    && at + |skeleton| <= |text|
    && forall i :: 0 <= i < |skeleton| && skeleton[i].Some? ==> text[at + i] == skeleton[i].value
  }

  /** The known bytes have been written behind a text that is kept up to `at`. */
  ghost predicate Extends(text: seq<u8>, text': seq<u8>, at: nat, skeleton: seq<Option<u8>>) {
    at <= |text| == |text'| && text'[..at] == text[..at] && Fits(text', at, skeleton)
  }

  lemma ExtendsNone(text: seq<u8>, at: nat)
    requires at <= |text|
    ensures Extends(text, text, at, [])
  {
  }

  lemma ExtendsMore(text: seq<u8>, text': seq<u8>, text'': seq<u8>, at: nat, front: seq<Option<u8>>,
                    back: seq<Option<u8>>)
    requires Extends(text, text', at, front) && Extends(text', text'', at + |front|, back)
    ensures Extends(text, text'', at, front + back)
  {
    hide Fits;
    assert text''[..at] == text''[..at + |front|][..at] == text'[..at + |front|][..at] == text'[..at];
    FitsLonger(text', text'', at, front, back);
  }

  lemma BytesExtend(text: seq<u8>, text': seq<u8>, at: nat, item: Item)
    requires item.Bytes? && at + ItemLength(item) <= |text| == |text'|
    requires text'[..at + |item.bytes|] == text[..at] + item.bytes
    ensures Extends(text, text', at, ItemSkeleton(item))
  {
    var both := text'[..at + |item.bytes|];
    assert text'[..at] == both[..at] && text'[at..at + |item.bytes|] == both[at..];
    ItemFits(text', at, item);
  }

  lemma JumpExtends(text: seq<u8>, text': seq<u8>, at: nat, item: Item)
    requires item.JumpTo? && at + ItemLength(item) <= |text| == |text'|
    requires text'[..at] == text[..at] && text'[at..at + |item.opcode|] == item.opcode
    ensures Extends(text, text', at, ItemSkeleton(item))
  {
    ItemFits(text', at, item);
  }

  lemma ItemFits(text: seq<u8>, at: nat, item: Item)
    requires at + ItemLength(item) <= |text|
    requires match item
      case Bytes(b) => text[at..at + |b|] == b
      case JumpTo(opcode, _) => text[at..at + |opcode|] == opcode
    ensures Fits(text, at, ItemSkeleton(item))
  {
    var known := if item.Bytes? then item.bytes else item.opcode;
    forall i | 0 <= i < |known| ensures text[at + i] == known[i] {
      assert text[at..at + |known|][i] == text[at + i];
    }
  }

  lemma FitsLonger(text: seq<u8>, text': seq<u8>, at: nat, front: seq<Option<u8>>, back: seq<Option<u8>>)
    requires Fits(text, at, front) && at + |front| <= |text'|
    requires at + |front| <= |text| && text'[..at + |front|] == text[..at + |front|]
    requires Fits(text', at + |front|, back)
    ensures Fits(text', at, front + back)
  {
    forall i | 0 <= i < |front + back| && (front + back)[i].Some? ensures text'[at + i] == (front + back)[i].value {
      if i < |front| {
        assert text'[at + i] == text'[..at + |front|][at + i] == text[..at + |front|][at + i];
      } else {
        assert text'[at + |front| + (i - |front|)] == back[i - |front|].value;
      }
    }
  }

  lemma {:induction false} SkeletonLength(items: seq<Item>)
    ensures |Skeleton(items)| == Length(items)
  {
    if items != [] { SkeletonLength(items[..|items| - 1]); }
  }

  lemma {:induction false} ProgramSkeletonLength(program: seq<seq<Item>>)
    ensures |ProgramSkeleton(program)| == ProgramLength(program)
  {
    if program != [] {
      ProgramSkeletonLength(program[..|program| - 1]);
      SkeletonLength(program[|program| - 1]);
    }
  }

  /** The slots before `pc` have their places and the others none. */
  ghost predicate Started(sections: seq<nat>, program: seq<seq<Item>>, isTail: seq<bool>, handler: nat, base: nat,
                          pc: nat) {
    && pc <= |program| == |isTail| == |sections|
    && (forall q :: 0 <= q < pc ==> sections[q] == if isTail[q] then handler else base + ProgramLength(program[..q]))
    && (forall q :: pc <= q < |program| ==> sections[q] == 0)
  }

  lemma NoneStarted(sections: seq<nat>, program: seq<seq<Item>>, isTail: seq<bool>, handler: nat, base: nat)
    requires sections == seq(|program|, _ => 0) && |isTail| == |program|
    ensures Started(sections, program, isTail, handler, base, 0)
  {
  }

  lemma StartedNext(sections: seq<nat>, program: seq<seq<Item>>, isTail: seq<bool>, handler: nat, base: nat, pc: nat)
    requires pc < |program| && Started(sections, program, isTail, handler, base, pc)
    ensures |sections| == |program| == |isTail| && sections[pc] == 0
    ensures var at := if isTail[pc] then handler else base + ProgramLength(program[..pc]);
      Started(sections[pc := at], program, isTail, handler, base, pc + 1)
  {
    hide ProgramLength;
  }

  lemma AllStarted(sections: seq<nat>, program: seq<seq<Item>>, isTail: seq<bool>, handler: nat, base: nat)
    requires Started(sections, program, isTail, handler, base, |program|) && handler > 0 && base > 0
    ensures forall pc :: 0 <= pc < |program| ==>
      sections[pc] > 0 && sections[pc] == if isTail[pc] then handler else base + ProgramLength(program[..pc])
  {
    hide ProgramLength;
  }

  lemma NoProgram(at: nat)
    ensures ProgramLength([]) == 0 && ProgramSites([], at) == [] && ProgramSkeleton([]) == []
  {
  }

  lemma ProgramStep(program: seq<seq<Item>>, pc: nat, at: nat)
    requires pc < |program|
    ensures var before, upTo := program[..pc], program[..pc + 1];
      && ProgramLength(upTo) == ProgramLength(before) + Length(program[pc])
      && ProgramSites(upTo, at) == ProgramSites(before, at) + SitesOf(program[pc], at + ProgramLength(before))
      && ProgramSkeleton(upTo) == ProgramSkeleton(before) + Skeleton(program[pc])
  {
    hide Length, SitesOf, Skeleton;
    assert program[..pc + 1][..pc] == program[..pc];
  }

  /** The offset bytes of a jump are holes of the skeleton. */
  ghost predicate IsHole(s: Site, at: nat, skeleton: seq<Option<u8>>) {
    && at + 4 <= s.end <= at + |skeleton|
    && skeleton[s.end - 4 - at..s.end - at] == [None, None, None, None]
  }

  ghost predicate AreHoles(sites: seq<Site>, at: nat, skeleton: seq<Option<u8>>) {
    forall i :: 0 <= i < |sites| ==> IsHole(sites[i], at, skeleton)
  }

  lemma HolesConcat(front: seq<Site>, back: seq<Site>, at: nat, skeleton: seq<Option<u8>>, more: seq<Option<u8>>)
    requires AreHoles(front, at, skeleton) && AreHoles(back, at + |skeleton|, more)
    ensures AreHoles(front + back, at, skeleton + more)
  {
    forall i | 0 <= i < |front + back| ensures IsHole((front + back)[i], at, skeleton + more) {
      if i < |front| {
        EarlierHole(front[i], at, skeleton, more);
      } else {
        LaterHole(back[i - |front|], at, skeleton, more);
      }
    }
  }

  lemma EarlierHole(s: Site, at: nat, skeleton: seq<Option<u8>>, more: seq<Option<u8>>)
    requires IsHole(s, at, skeleton)
    ensures IsHole(s, at, skeleton + more)
  {
    var lo := s.end - 4 - at;
    assert (skeleton + more)[lo..lo + 4] == skeleton[lo..lo + 4];
  }

  lemma LaterHole(s: Site, at: nat, skeleton: seq<Option<u8>>, more: seq<Option<u8>>)
    requires IsHole(s, at + |skeleton|, more)
    ensures IsHole(s, at, skeleton + more)
  {
    var lo, n := s.end - 4 - at, |skeleton|;
    assert (skeleton + more)[lo..lo + 4] == more[lo - n..lo - n + 4];
  }

  lemma {:induction false} ItemsHoles(items: seq<Item>, at: nat)
    ensures AreHoles(SitesOf(items, at), at, Skeleton(items))
    decreases |items|
  {
    hide AreHoles, ItemSites, ItemSkeleton, ItemLength;
    if items == [] {
      NoHoles(at);
    } else {
      var init, last := items[..|items| - 1], items[|items| - 1];
      ItemsHoles(init, at);
      SkeletonLength(init);
      ItemHoles(last, at + Length(init));
      HolesConcat(SitesOf(init, at), ItemSites(last, at + Length(init)), at, Skeleton(init), ItemSkeleton(last));
    }
  }

  lemma ItemHoles(item: Item, at: nat)
    ensures AreHoles(ItemSites(item, at), at, ItemSkeleton(item))
  {
  }

  lemma NoHoles(at: nat)
    ensures AreHoles([], at, [])
  {
  }

  lemma {:induction false} ProgramHoles(program: seq<seq<Item>>, at: nat)
    ensures AreHoles(ProgramSites(program, at), at, ProgramSkeleton(program))
    decreases |program|
  {
    hide AreHoles, SitesOf, Skeleton;
    if program == [] {
      NoHoles(at);
    } else {
      var init, last := program[..|program| - 1], program[|program| - 1];
      ProgramHoles(init, at);
      ProgramSkeletonLength(init);
      ItemsHoles(last, at + ProgramLength(init));
      HolesConcat(ProgramSites(init, at), SitesOf(last, at + ProgramLength(init)), at, ProgramSkeleton(init),
                  Skeleton(last));
    }
  }

  /** Changes to offset bytes of jumps leave the known bytes and everything before the code alone. */
  lemma SkeletonKept(first: seq<u8>, text: seq<u8>, text': seq<u8>, at: nat, skeleton: seq<Option<u8>>,
                     sites: seq<Site>)
    requires |text| == |text'| && Extends(first, text, at, skeleton) && AreHoles(sites, at, skeleton)
    requires forall i :: 0 <= i < |text| && text'[i] != text[i] ==> InField(sites, i)
    ensures Extends(first, text', at, skeleton)
  {
    forall i | 0 <= i < |text| && text'[i] != text[i] ensures at <= i < at + |skeleton| && skeleton[i - at].None? {
      var s :| s in sites && s.end - 4 <= i < s.end;
      var k :| 0 <= k < |sites| && sites[k] == s;
      assert IsHole(sites[k], at, skeleton);
      assert skeleton[s.end - 4 - at..s.end - at][i - (s.end - 4)] == skeleton[i - at];
    }
  }

  ghost predicate TargetsInside(items: seq<Item>, slots: nat) {
    forall i :: 0 <= i < |items| ==> items[i].JumpTo? ==> items[i].targetPc < slots
  }

  ghost predicate ProgramFits(program: seq<seq<Item>>, slots: nat, offset: nat, capacity: nat) {
    && offset + ProgramLength(program) <= capacity
    && forall pc :: 0 <= pc < |program| ==> TargetsInside(program[pc], slots)
  }

  lemma SlotsFit(program: seq<seq<Item>>, slots: nat, offset: nat, capacity: nat)
    requires |program| == slots + 1 && ProgramFits(program, slots, offset, capacity)
    ensures ProgramFits(program[..slots], slots, offset, capacity) && TargetsInside(program[slots], slots)
    ensures offset + ProgramLength(program[..slots]) + Length(program[slots]) <= capacity
  {
    hide TargetsInside, Length;
    ProgramStep(program, slots, offset);
    assert program[..slots + 1] == program;
  }

  lemma {:induction false} LengthGrows(items: seq<Item>, k: nat)
    requires k <= |items|
    ensures Length(items[..k]) <= Length(items)
    decreases |items|
  {
    if k < |items| {
      assert items[..|items| - 1][..k] == items[..k];
      LengthGrows(items[..|items| - 1], k);
    } else {
      assert items[..k] == items;
    }
  }

  lemma {:induction false} ProgramGrows(program: seq<seq<Item>>, k: nat)
    requires k <= |program|
    ensures ProgramLength(program[..k]) <= ProgramLength(program)
    decreases |program|
  {
    if k < |program| {
      assert program[..|program| - 1][..k] == program[..k];
      ProgramGrows(program[..|program| - 1], k);
    } else {
      assert program[..k] == program;
    }
  }

  /** The byte belongs to the offset of some jump. */
  ghost predicate InField(sites: seq<Site>, i: int) {
    exists s :: s in sites && s.end - 4 <= i < s.end
  }

  ghost predicate Settled(text: seq<u8>, sections: seq<nat>, sites: seq<Site>, jumps: seq<Jump>) {
    forall i :: 0 <= i < |sites| ==> Pending(jumps, sites[i]) || Resolved(text, sections, sites[i])
  }

  ghost predicate OnlyFields(text: seq<u8>, text': seq<u8>, sites: seq<Site>) {
    |text| == |text'| && forall i :: 0 <= i < |text'| && text'[i] != text[i] ==> InField(sites, i)
  }

  /** The listed jumps have their places inside the text and their targets a place. */
  ghost predicate Listed(size: nat, sections: seq<nat>, sites: seq<Site>, jumps: seq<Jump>) {
    && size < TWO31 && Apart(sites)
    && forall j :: 0 <= j < |jumps| ==>
      && Site(jumps[j].location + 4, jumps[j].targetPc) in sites && jumps[j].location + 4 <= size
      && jumps[j].targetPc < |sections| && 0 < sections[jumps[j].targetPc] < TWO31
  }

  lemma ListedAt(size: nat, sections: seq<nat>, sites: seq<Site>, jumps: seq<Jump>, k: nat)
    requires Listed(size, sections, sites, jumps) && k < |jumps|
    ensures jumps[k].location + 4 <= size && jumps[k].targetPc < |sections|
  {
    hide Apart;
  }

  lemma InvListed(text: seq<u8>, sections: seq<nat>, offset: nat, jumps: seq<Jump>, sites: seq<Site>)
    requires Inv(text, sections, offset, jumps, sites)
    requires forall j :: 0 <= j < |jumps| && jumps[j].targetPc < |sections| ==> sections[jumps[j].targetPc] != 0
    ensures Listed(|text|, sections, sites, jumps) && Settled(text, sections, sites, jumps)
    ensures OnlyFields(text, text, sites)
  {
    InvFacts(text, sections, offset, jumps, sites);
    hide Inv, Apart, Pending, Resolved;
  }

  lemma AllSettled(text: seq<u8>, text': seq<u8>, sections: seq<nat>, sites: seq<Site>, jumps: seq<Jump>)
    requires |jumps| == 0 && Settled(text', sections, sites, jumps) && OnlyFields(text, text', sites)
    ensures forall i :: 0 <= i < |sites| ==> Resolved(text', sections, sites[i])
    ensures forall i :: 0 <= i < |text| == |text'| && text'[i] != text[i] ==> InField(sites, i)
  {
    hide Resolved, InField;
  }

  lemma PatchStep(first: seq<u8>, text: seq<u8>, text': seq<u8>, sections: seq<nat>, sites: seq<Site>,
                  jumps: seq<Jump>, k: nat)
    requires Listed(|text|, sections, sites, jumps) && k < |jumps|
    requires Settled(text, sections, sites, jumps[k..]) && OnlyFields(first, text, sites)
    requires var jump := jumps[k];
      && jump.location + 4 <= |text| && jump.targetPc < |sections|
      && text' == text[..jump.location] + Encode(sections[jump.targetPc] - jump.location - 4)
                  + text[jump.location + 4..]
    ensures |text'| == |text| && Settled(text', sections, sites, jumps[k + 1..]) && OnlyFields(first, text', sites)
  {
    hide Settled, Apart, InField;
    assert jumps[k..][1..] == jumps[k + 1..] && jumps[k..][0] == jumps[k];
    Patched(text, text', sections, sites, jumps[k..]);
    OnlyField(text, text', sites, jumps[k]);
  }

  lemma OnlyField(text: seq<u8>, text': seq<u8>, sites: seq<Site>, jump: Jump)
    requires Site(jump.location + 4, jump.targetPc) in sites && jump.location + 4 <= |text|
    requires exists b :: |b| == 4 && text' == text[..jump.location] + b + text[jump.location + 4..]
    ensures forall i :: 0 <= i < |text'| && text'[i] != text[i] ==> InField(sites, i)
  {
    forall i | 0 <= i < |text'| && text'[i] != text[i] ensures InField(sites, i) {
      assert jump.location <= i < jump.location + 4;
    }
  }

  /** Patching one jump makes it right and leaves the others alone. */
  lemma Patched(text: seq<u8>, text': seq<u8>, sections: seq<nat>, sites: seq<Site>, jumps: seq<Jump>)
    requires Apart(sites) && jumps != [] && |text| < TWO31
    requires Site(jumps[0].location + 4, jumps[0].targetPc) in sites && jumps[0].location + 4 <= |text|
    requires jumps[0].targetPc < |sections| && 0 < sections[jumps[0].targetPc] < TWO31
    requires var at := jumps[0].location;
      text' == text[..at] + Encode(sections[jumps[0].targetPc] - at - 4) + text[at + 4..]
    requires Settled(text, sections, sites, jumps)
    ensures Settled(text', sections, sites, jumps[1..])
  {
    hide Resolved;
    var at, target := jumps[0].location, jumps[0].targetPc;
    var relative := sections[target] - at - 4;
    PatchedField(text, text', sections, at, target);
    var here :| 0 <= here < |sites| && sites[here] == Site(at + 4, target);
    forall i | 0 <= i < |sites| ensures Pending(jumps[1..], sites[i]) || Resolved(text', sections, sites[i]) {
      var s := sites[i];
      if i != here {
        assert s.end <= at || at + 8 <= s.end;
        if Resolved(text, sections, s) {
          FieldElsewhere(text, text', sections, s, at);
        } else {
          assert s.end - 4 != at;
        }
      }
    }
  }

  lemma PatchedField(text: seq<u8>, text': seq<u8>, sections: seq<nat>, at: nat, target: nat)
    requires at + 4 <= |text| < TWO31 && target < |sections| && 0 < sections[target] < TWO31
    requires text' == text[..at] + Encode(sections[target] - at - 4) + text[at + 4..]
    ensures Resolved(text', sections, Site(at + 4, target))
  {
    hide ReadI32;
    assert text'[at..at + 4] == Encode(sections[target] - at - 4);
    EncodeRoundTrip(sections[target] - at - 4);
  }

  lemma FieldElsewhere(text: seq<u8>, text': seq<u8>, sections: seq<nat>, s: Site, at: nat)
    requires Resolved(text, sections, s) && at + 4 <= |text| == |text'| && (s.end <= at || at + 8 <= s.end)
    requires text'[..at] == text[..at] && text'[at + 4..] == text[at + 4..]
    ensures Resolved(text', sections, s)
  {
    forall i | s.end - 4 <= i < s.end ensures text'[i] == text[i] {
      if s.end <= at {
        assert text'[i] == text'[..at][i] && text[i] == text[..at][i];
      } else {
        assert text'[i] == text'[at + 4..][i - at - 4] && text[i] == text[at + 4..][i - at - 4];
      }
    }
    assert text'[s.end - 4..s.end] == text[s.end - 4..s.end];
    ResolvedKept(text, text', sections, s);
  }

  lemma InvFacts(text: seq<u8>, sections: seq<nat>, offset: nat, jumps: seq<Jump>, sites: seq<Site>)
    requires Inv(text, sections, offset, jumps, sites)
    ensures |text| < TWO31 && Apart(sites) && (forall pc :: 0 <= pc < |sections| ==> sections[pc] < TWO31)
    ensures forall i :: 0 <= i < |sites| ==> Pending(jumps, sites[i]) || Resolved(text, sections, sites[i])
    ensures forall j :: 0 <= j < |jumps| ==>
      && Site(jumps[j].location + 4, jumps[j].targetPc) in sites
      && jumps[j].targetPc < |sections| && jumps[j].location + 4 <= |text|
  {
    hide Pending, Resolved;
  }

  lemma InvSites(text: seq<u8>, sections: seq<nat>, offset: nat, jumps: seq<Jump>, sites: seq<Site>)
    requires Inv(text, sections, offset, jumps, sites)
    ensures forall i :: 0 <= i < |sites| ==> sites[i].end <= offset
    ensures |text| < TWO31
  {
  }

  lemma SectionSmall(text: seq<u8>, sections: seq<nat>, offset: nat, jumps: seq<Jump>, sites: seq<Site>, pc: nat)
    requires Inv(text, sections, offset, jumps, sites) && pc < |sections|
    ensures sections[pc] < TWO31
  {
  }

  /** The encoded offset is read back from behind the opcode. */
  lemma FieldOf(text: seq<u8>, opcode: seq<u8>, at: nat, relative: int)
    requires at + |opcode| + 4 <= |text| && -TWO31 <= relative < TWO31
    requires text[..at + |opcode| + 4] == text[..at] + (opcode + Encode(relative))
    ensures Decoded(text, at + |opcode| + 4) == at + |opcode| + 4 + relative
  {
    hide ReadI32;
    var end := at + |opcode| + 4;
    assert text[end - 4..end] == text[..end][end - 4..] == Encode(relative);
    EncodeRoundTrip(relative);
  }
}
