/** The bytes of a compiled text: patched jumps and calls lead to the bytes of the positions that running
    the text goes to, whatever bytes the other operations are made of. */
module JitBytes {
  import opened Words
  import opened Metering
  import opened JitCode
  import opened JitCompiler
  import opened JitText
  import opened JumpPatching

  /** The bytes of an operation, without the offset of a jump */
  type Encoder = HostOp -> seq<u8>

  predicate IsJump(op: HostOp) { op.Goto? || op.GotoIf? || op.CallHost? }

  function ItemOf(enc: Encoder, op: HostOp): Item {
    if IsJump(op) then JumpTo(enc(op), op.target) else Bytes(enc(op))
  }

  function ItemsOf(enc: Encoder, ops: seq<HostOp>): seq<Item> {
    seq(|ops|, i requires 0 <= i < |ops| => ItemOf(enc, ops[i]))
  }

  /** The code of the slots, and behind it that of the overrun handler; second halves have none of their own. */
  function SlotItems(enc: Encoder, prog: seq<Slot>, distance: nat): seq<seq<Item>> {
    seq(|prog| + 1, pc requires 0 <= pc <= |prog| =>
      if pc < |prog| && prog[pc] == LddwTail then [] else ItemsOf(enc, Block(prog, distance, pc)))
  }

  /** The slots that have code of their own, and the place behind the last one */
  predicate HasCode(prog: seq<Slot>, pc: nat) { pc == |prog| || (pc < |prog| && prog[pc] != LddwTail) }

  function Tails(prog: seq<Slot>): seq<bool> {
    seq(|prog|, pc requires 0 <= pc < |prog| => prog[pc] == LddwTail)
  }

  /** Where the bytes of a position start: the handler at position 0 is among the subroutines, the code
      behind them. */
  ghost function ByteAt(enc: Encoder, text: seq<HostOp>, base: nat, handler: nat, p: nat): nat
    requires p <= |text|
  {
    if p == 0 then handler else base + Length(ItemsOf(enc, text[1..p]))
  }

  // ----- lengths -----

  lemma {:induction false} LengthConcat(a: seq<Item>, b: seq<Item>)
    ensures Length(a + b) == Length(a) + Length(b)
    decreases |b|
  {
    if b == [] {
      assert a + b == a;
    } else {
      var init, last := b[..|b| - 1], b[|b| - 1];
      LengthConcat(a, init);
      assert (a + b)[..|a + b| - 1] == a + init && (a + b)[|a + b| - 1] == last;
    }
  }

  lemma ItemsConcat(enc: Encoder, a: seq<HostOp>, b: seq<HostOp>)
    ensures ItemsOf(enc, a + b) == ItemsOf(enc, a) + ItemsOf(enc, b)
  {
  }

  /** The bytes between two positions are those of the operations between them. */
  lemma BytesBetween(enc: Encoder, text: seq<HostOp>, base: nat, handler: nat, p: nat, q: nat)
    requires 0 < p <= q <= |text|
    ensures ByteAt(enc, text, base, handler, q) ==
      ByteAt(enc, text, base, handler, p) + Length(ItemsOf(enc, text[p..q]))
  {
    hide Length, ItemsOf;
    assert text[1..q] == text[1..p] + text[p..q];
    ItemsConcat(enc, text[1..p], text[p..q]);
    LengthConcat(ItemsOf(enc, text[1..p]), ItemsOf(enc, text[p..q]));
  }

  // ----- slots -----

  /** The bytes of a slot's code stand where the lengths of the slots before it put them. */
  ghost predicate InStep(enc: Encoder, c: Output, base: nat, handler: nat, pc: nat)
    requires pc <= |c.prog| && Place(c, pc) <= |c.text|
  {
    ByteAt(enc, c.text, base, handler, Place(c, pc)) == base + ProgramLength(SlotItems(enc, c.prog, c.distance)[..pc])
  }

  lemma PlaceInText(c: Output, pc: nat)
    requires Compiled(c) && pc <= |c.prog|
    ensures Place(c, pc) <= |c.text|
    ensures pc == |c.prog| || c.prog[pc] != LddwTail ==> Place(c, pc) + |Block(c.prog, c.distance, pc)| <= |c.text|
  {
    hide Block, Bumper, FallsThrough;
    if pc < |c.prog| {
      assert Placed(c.prog, c.distance, c.text, pc, c.sections[pc]);
    } else {
      BumperIsBlock(c);
    }
  }

  lemma FirstInStep(enc: Encoder, c: Output, base: nat, handler: nat)
    requires Compiled(c)
    ensures Place(c, 0) == 1 <= |c.text| && InStep(enc, c, base, handler, 0)
  {
    hide Block, Placed, FallsThrough;
    var items := SlotItems(enc, c.prog, c.distance);
    assert items[..0] == [] && c.text[1..1] == [];
    hide SlotItems;
  }

  /** A slot that is not a second half keeps step. */
  lemma NextInStep(enc: Encoder, c: Output, base: nat, handler: nat, pc: nat)
    requires Compiled(c) && Paired(c.prog) && pc < |c.prog| && c.prog[pc] != LddwTail
    requires Place(c, pc) <= |c.text| && InStep(enc, c, base, handler, pc) && Place(c, pc) > 0
    ensures var next := NextSlot(c.prog, pc);
      next <= |c.prog| && 0 < Place(c, next) <= |c.text| && InStep(enc, c, base, handler, next)
  {
    hide ByteAt, ItemsOf, Length, ProgramLength, Compiled, LastValidation, Block, SlotItems, Paired, Place;
    var next, at, block := NextSlot(c.prog, pc), Place(c, pc), Block(c.prog, c.distance, pc);
    SlotWidth(c.prog, pc);
    EndOfSlot(c, pc);
    BytesBetween(enc, c.text, base, handler, at, at + |block|);
    ItemsStep(enc, c.prog, c.distance, pc);
    if next == pc + 2 {
      ItemsStep(enc, c.prog, c.distance, pc + 1);
    }
  }

  lemma EndOfSlot(c: Output, pc: nat)
    requires Compiled(c) && pc < |c.prog| && c.prog[pc] != LddwTail
    ensures var next, at, block := NextSlot(c.prog, pc), Place(c, pc), Block(c.prog, c.distance, pc);
      next <= |c.prog| && at + |block| == Place(c, next) <= |c.text| && c.text[at..at + |block|] == block
  {
    hide Block;
    EndOfBlock(c, pc);
    assert Placed(c.prog, c.distance, c.text, pc, c.sections[pc]);
    PlaceInText(c, pc);
  }

  lemma ItemsStep(enc: Encoder, prog: seq<Slot>, distance: nat, pc: nat)
    requires pc < |prog|
    ensures var items := SlotItems(enc, prog, distance);
      ProgramLength(items[..pc + 1]) == ProgramLength(items[..pc]) +
      if prog[pc] == LddwTail then 0 else Length(ItemsOf(enc, Block(prog, distance, pc)))
  {
    hide Block, ItemsOf;
    var items := SlotItems(enc, prog, distance);
    assert items[..pc + 1][..pc] == items[..pc] && items[..pc + 1][pc] == items[pc];
  }

  /** All slots keep step. */
  lemma {:induction false} AllInStep(enc: Encoder, c: Output, base: nat, handler: nat, pc: nat)
    requires Compiled(c) && Paired(c.prog) && pc <= |c.prog| && (pc < |c.prog| ==> c.prog[pc] != LddwTail)
    ensures 0 < Place(c, pc) <= |c.text| && InStep(enc, c, base, handler, pc)
    decreases pc
  {
    hide Compiled, InStep, Place, Paired;
    if pc == 0 {
      FirstInStep(enc, c, base, handler);
    } else {
      var before := Previous(c.prog, pc);
      AllInStep(enc, c, base, handler, before);
      NextInStep(enc, c, base, handler, before);
    }
  }

  /** The slot whose code comes before that of `pc` */
  lemma Previous(prog: seq<Slot>, pc: nat) returns (before: nat)
    requires Paired(prog) && 0 < pc <= |prog| && (pc < |prog| ==> prog[pc] != LddwTail)
    ensures before < pc && before < |prog| && prog[before] != LddwTail && NextSlot(prog, before) == pc
  {
    if prog[pc - 1] == LddwTail {
      assert BehindLddw(prog, pc - 1);
      before := pc - 2;
    } else {
      before := pc - 1;
      assert prog[before] == Lddw ==> BeforeTail(prog, before);
    }
  }

  // ----- items in their slots -----

  /** The piece of a sequence at the end of its first part */
  lemma MiddlePiece<T>(before: seq<T>, piece: seq<T>, after: seq<T>)
    ensures (before + piece + after)[|before|..|before| + |piece|] == piece
  {
  }

  lemma {:induction false} SiteOfItem(items: seq<Item>, at: nat, i: nat)
    requires i < |items| && items[i].JumpTo?
    ensures Site(at + Length(items[..i + 1]), items[i].targetPc) in SitesOf(items, at)
    decreases |items|
  {
    var init, last := items[..|items| - 1], items[|items| - 1];
    if i < |init| {
      assert init[..i + 1] == items[..i + 1];
      SiteOfItem(init, at, i);
    } else {
      assert items[..i + 1] == items;
    }
  }

  lemma {:induction false} SiteOfSlot(program: seq<seq<Item>>, at: nat, pc: nat, i: nat)
    requires pc < |program| && i < |program[pc]| && program[pc][i].JumpTo?
    ensures Site(at + ProgramLength(program[..pc]) + Length(program[pc][..i + 1]), program[pc][i].targetPc)
      in ProgramSites(program, at)
    decreases |program|
  {
    hide Length, SitesOf;
    var init, last := program[..|program| - 1], program[|program| - 1];
    if pc < |init| {
      assert init[..pc] == program[..pc];
      SiteOfSlot(init, at, pc, i);
    } else {
      SiteOfItem(last, at + ProgramLength(init), i);
    }
  }

  lemma {:induction false} SkeletonOfItem(items: seq<Item>, i: nat)
    requires i < |items|
    ensures var at, piece := Length(items[..i]), ItemSkeleton(items[i]);
      at + |piece| <= |Skeleton(items)| && Skeleton(items)[at..at + |piece|] == piece
    decreases |items|
  {
    hide ItemSkeleton, ItemLength;
    var init, last := items[..|items| - 1], items[|items| - 1];
    SkeletonLength(init);
    if i < |init| {
      assert init[..i] == items[..i];
      SkeletonOfItem(init, i);
      var at, n := Length(items[..i]), |ItemSkeleton(items[i])|;
      assert Skeleton(items)[at..at + n] == Skeleton(init)[at..at + n];
    } else {
      MiddlePiece(Skeleton(init), ItemSkeleton(last), []);
      assert Skeleton(init) + ItemSkeleton(last) + [] == Skeleton(items);
    }
  }

  lemma {:induction false} SkeletonOfSlot(program: seq<seq<Item>>, pc: nat)
    requires pc < |program|
    ensures var at, piece := ProgramLength(program[..pc]), Skeleton(program[pc]);
      at + |piece| <= |ProgramSkeleton(program)| && ProgramSkeleton(program)[at..at + |piece|] == piece
    decreases |program|
  {
    hide Skeleton, Length;
    var init, last := program[..|program| - 1], program[|program| - 1];
    ProgramSkeletonLength(init);
    if pc < |init| {
      assert init[..pc] == program[..pc];
      SkeletonOfSlot(init, pc);
      var at, n := ProgramLength(program[..pc]), |Skeleton(program[pc])|;
      assert ProgramSkeleton(program)[at..at + n] == ProgramSkeleton(init)[at..at + n];
    } else {
      MiddlePiece(ProgramSkeleton(init), Skeleton(last), []);
      assert ProgramSkeleton(init) + Skeleton(last) + [] == ProgramSkeleton(program);
    }
  }

  // ----- positions -----

  /** The jump or call whose bytes end before position `end` leads to the bytes of the place of slot `t`. */
  ghost predicate Lands(enc: Encoder, c: Output, base: nat, handler: nat, bytes: seq<u8>, end: nat, t: nat) {
    && end <= |c.text| && SectionOf(c.text, c.sections, t) <= |c.text|
    && var at := ByteAt(enc, c.text, base, handler, end);
       4 <= at <= |bytes| &&
       Decoded(bytes, at) == ByteAt(enc, c.text, base, handler, SectionOf(c.text, c.sections, t))
  }

  /** The operation at `p` has its bytes where the position's bytes start, and a jump or call ends with an
      offset that leads to the bytes of the position it goes to. */
  ghost predicate Encoded(enc: Encoder, c: Output, base: nat, handler: nat, bytes: seq<u8>, p: nat)
    requires p < |c.text|
  {
    var op, at, end := c.text[p], ByteAt(enc, c.text, base, handler, p), ByteAt(enc, c.text, base, handler, p + 1);
    && at + |enc(op)| <= end <= |bytes| && bytes[at..at + |enc(op)|] == enc(op)
    && end == at + |enc(op)| + (if IsJump(op) then 4 else 0)
    && (IsJump(op) ==> Lands(enc, c, base, handler, bytes, p + 1, op.target))
  }

  /** What patching has made of the code of the slots */
  ghost predicate Patched(enc: Encoder, c: Output, base: nat, handler: nat, bytes: seq<u8>, places: seq<nat>) {
    var items := SlotItems(enc, c.prog, c.distance);
    && |places| == |c.prog|
    && (forall q :: 0 <= q < |places| ==>
          places[q] == if c.prog[q] == LddwTail then handler else base + ProgramLength(items[..q]))
    && (forall s :: s in ProgramSites(items, base) ==> Resolved(bytes, places, s))
    && Fits(bytes, base, ProgramSkeleton(items))
  }

  /** The bytes of operation `i` of a slot start where the position's bytes do. */
  lemma OperationAt(enc: Encoder, c: Output, base: nat, handler: nat, pc: nat, i: nat)
    requires Compiled(c) && Paired(c.prog) && HasCode(c.prog, pc)
    requires i <= |Block(c.prog, c.distance, pc)|
    ensures var items := SlotItems(enc, c.prog, c.distance);
      && i <= |items[pc]| && 0 < Place(c, pc) && Place(c, pc) + i <= |c.text|
      && ByteAt(enc, c.text, base, handler, Place(c, pc) + i)
         == base + ProgramLength(items[..pc]) + Length(items[pc][..i])
  {
    hide ByteAt, Length, ProgramLength, Compiled, Paired, Block;
    AllInStep(enc, c, base, handler, pc);
    CodeInText(c, pc);
    var at, block := Place(c, pc), Block(c.prog, c.distance, pc);
    BytesBetween(enc, c.text, base, handler, at, at + i);
    assert c.text[at..at + i] == c.text[at..at + |block|][..i] == block[..i];
    assert ItemsOf(enc, block)[..i] == ItemsOf(enc, block[..i]);
  }

  lemma CodeInText(c: Output, pc: nat)
    requires Compiled(c) && HasCode(c.prog, pc)
    ensures var at, block := Place(c, pc), Block(c.prog, c.distance, pc);
      at + |block| <= |c.text| && c.text[at..at + |block|] == block
  {
    hide Block, FallsThrough, Bumper;
    if pc < |c.prog| {
      EndOfSlot(c, pc);
    } else {
      BumperIsBlock(c);
    }
  }

  lemma LengthStep(items: seq<Item>, i: nat)
    requires i < |items|
    ensures Length(items[..i + 1]) == Length(items[..i]) + ItemLength(items[i])
  {
    assert items[..i + 1][..i] == items[..i];
  }

  /** Operation `i` of a slot stands in the bytes. */
  lemma ItemInBytes(program: seq<seq<Item>>, base: nat, bytes: seq<u8>, pc: nat, i: nat)
    requires pc < |program| && i < |program[pc]| && Fits(bytes, base, ProgramSkeleton(program))
    ensures var at := base + ProgramLength(program[..pc]) + Length(program[pc][..i]);
      Fits(bytes, at, ItemSkeleton(program[pc][i]))
  {
    hide Skeleton, ProgramSkeleton, ItemSkeleton, Length, ProgramLength;
    SkeletonOfSlot(program, pc);
    SkeletonOfItem(program[pc], i);
    FitsPart(bytes, base, ProgramSkeleton(program), ProgramLength(program[..pc]), Skeleton(program[pc]));
    FitsPart(bytes, base + ProgramLength(program[..pc]), Skeleton(program[pc]), Length(program[pc][..i]),
             ItemSkeleton(program[pc][i]));
  }

  lemma FitsPart(bytes: seq<u8>, at: nat, whole: seq<Option<u8>>, from: nat, part: seq<Option<u8>>)
    requires Fits(bytes, at, whole) && from + |part| <= |whole| && whole[from..from + |part|] == part
    ensures Fits(bytes, at + from, part)
  {
    forall i | 0 <= i < |part| && part[i].Some? ensures bytes[at + from + i] == part[i].value {
      assert whole[from..from + |part|][i] == whole[from + i];
      assert bytes[at + (from + i)] == whole[from + i].value;
    }
  }

  lemma KnownBytes(enc: Encoder, op: HostOp, bytes: seq<u8>, at: nat)
    requires Fits(bytes, at, ItemSkeleton(ItemOf(enc, op)))
    ensures at + |enc(op)| + (if IsJump(op) then 4 else 0) <= |bytes| && bytes[at..at + |enc(op)|] == enc(op)
    ensures ItemLength(ItemOf(enc, op)) == |enc(op)| + if IsJump(op) then 4 else 0
  {
    var skeleton := ItemSkeleton(ItemOf(enc, op));
    forall i | 0 <= i < |enc(op)| ensures bytes[at + i] == enc(op)[i] {
      assert skeleton[i] == Some(enc(op)[i]);
    }
  }

  /** A jump lands at the bytes of the position of its target. */
  lemma JumpLands(enc: Encoder, c: Output, base: nat, handler: nat, bytes: seq<u8>, places: seq<nat>, pc: nat, i: nat)
    requires Compiled(c) && Paired(c.prog) && Patched(enc, c, base, handler, bytes, places)
    requires HasCode(c.prog, pc) && i < |Block(c.prog, c.distance, pc)|
    requires var op := Block(c.prog, c.distance, pc)[i]; IsJump(op) && op.target < |c.prog|
    ensures Lands(enc, c, base, handler, bytes, Place(c, pc) + i + 1, Block(c.prog, c.distance, pc)[i].target)
  {
    hide ByteAt, Length, ProgramLength, Compiled, Paired, Block, ProgramSites, Fits, ProgramSkeleton, Lands, Resolved;
    hide SectionOf, Place;
    OperationAt(enc, c, base, handler, pc, i + 1);
    var items, t := SlotItems(enc, c.prog, c.distance), Block(c.prog, c.distance, pc)[i].target;
    SiteOfSlot(items, base, pc, i);
    TargetBytes(enc, c, base, handler, t);
    assert Resolved(bytes, places, Site(base + ProgramLength(items[..pc]) + Length(items[pc][..i + 1]), t));
    LandsAt(enc, c, base, handler, bytes, places, Place(c, pc) + i + 1, t);
  }

  lemma LandsAt(enc: Encoder, c: Output, base: nat, handler: nat, bytes: seq<u8>, places: seq<nat>, end: nat, t: nat)
    requires end <= |c.text| && SectionOf(c.text, c.sections, t) <= |c.text| && t < |places|
    requires Resolved(bytes, places, Site(ByteAt(enc, c.text, base, handler, end), t))
    requires ByteAt(enc, c.text, base, handler, SectionOf(c.text, c.sections, t)) == places[t]
    ensures Lands(enc, c, base, handler, bytes, end, t)
  {
    hide ByteAt, SectionOf, Decoded;
  }

  lemma TargetBytes(enc: Encoder, c: Output, base: nat, handler: nat, t: nat)
    requires Compiled(c) && Paired(c.prog) && t < |c.prog|
    ensures var items := SlotItems(enc, c.prog, c.distance);
      && SectionOf(c.text, c.sections, t) <= |c.text|
      && ByteAt(enc, c.text, base, handler, SectionOf(c.text, c.sections, t))
         == if c.prog[t] == LddwTail then handler else base + ProgramLength(items[..t])
  {
    hide Length, ProgramLength, Paired, Block, SlotItems, ItemsOf, Placed, FallsThrough;
    if c.prog[t] != LddwTail {
      AllInStep(enc, c, base, handler, t);
    }
  }

  lemma OperationEncoded(enc: Encoder, c: Output, base: nat, handler: nat, bytes: seq<u8>, places: seq<nat>,
                         pc: nat, i: nat)
    requires Compiled(c) && Paired(c.prog) && Patched(enc, c, base, handler, bytes, places)
    requires HasCode(c.prog, pc) && (pc < |c.prog| ==> SlotOk(c.prog, pc)) && i < |Block(c.prog, c.distance, pc)|
    ensures Place(c, pc) + i < |c.text| && Encoded(enc, c, base, handler, bytes, Place(c, pc) + i)
  {
    hide ByteAt, Length, ProgramLength, Compiled, Paired, Block, ProgramSites, Decoded, Fits, ProgramSkeleton, SlotOk;
    hide ItemSkeleton, ItemLength, Resolved, Place, Encoded, SectionOf, Lands;
    BlockTargets(c.prog, c.distance, pc, i);
    BlockInText(c, pc, i);
    var op, items := Block(c.prog, c.distance, pc)[i], SlotItems(enc, c.prog, c.distance);
    OperationAt(enc, c, base, handler, pc, i);
    OperationAt(enc, c, base, handler, pc, i + 1);
    LengthStep(items[pc], i);
    ItemInBytes(items, base, bytes, pc, i);
    KnownBytes(enc, op, bytes, ByteAt(enc, c.text, base, handler, Place(c, pc) + i));
    if IsJump(op) {
      JumpLands(enc, c, base, handler, bytes, places, pc, i);
    }
    IsEncoded(enc, c, base, handler, bytes, Place(c, pc) + i, op);
  }

  lemma IsEncoded(enc: Encoder, c: Output, base: nat, handler: nat, bytes: seq<u8>, p: nat, op: HostOp)
    requires p < |c.text| && c.text[p] == op
    requires var at := ByteAt(enc, c.text, base, handler, p); var end := at + |enc(op)| + if IsJump(op) then 4 else 0;
      && ByteAt(enc, c.text, base, handler, p + 1) == end <= |bytes| && bytes[at..at + |enc(op)|] == enc(op)
      && (IsJump(op) ==> Lands(enc, c, base, handler, bytes, p + 1, op.target))
    ensures Encoded(enc, c, base, handler, bytes, p)
  {
    hide ByteAt, Lands;
  }

  /** The slot and the operation at a position of the code */
  lemma {:induction false} SlotOfPosition(c: Output, p: nat, from: nat) returns (pc: nat, i: nat)
    requires Compiled(c) && Paired(c.prog) && from <= |c.prog| && (from < |c.prog| ==> c.prog[from] != LddwTail)
    requires Place(c, from) <= p < |c.text|
    ensures HasCode(c.prog, pc) && i < |Block(c.prog, c.distance, pc)| && Place(c, pc) + i == p
    decreases |c.prog| - from
  {
    hide Compiled, Block, Paired;
    EndsAtEnd(c);
    if from == |c.prog| {
      pc, i := from, p - Place(c, from);
      return;
    }
    EndOfSlot(c, from);
    var block := Block(c.prog, c.distance, from);
    if p < Place(c, from) + |block| {
      pc, i := from, p - Place(c, from);
    } else {
      NextLast(c.prog, c.distance, from);
      pc, i := SlotOfPosition(c, p, NextSlot(c.prog, from));
    }
  }

  lemma EndsAtEnd(c: Output)
    requires Compiled(c)
    ensures Place(c, |c.prog|) == c.end <= |c.text| == c.end + |Block(c.prog, c.distance, |c.prog|)|
  {
    hide Placed, FallsThrough, Bumper, Block;
    BumperIsBlock(c);
  }

  /** Every operation of the code of a compiled program stands in the patched bytes, and its jumps lead where
      running the text goes. */
  lemma TextEncoded(enc: Encoder, c: Output, base: nat, handler: nat, bytes: seq<u8>, places: seq<nat>, p: nat)
    requires Compiled(c) && Paired(c.prog) && Patched(enc, c, base, handler, bytes, places) && 0 < p < |c.text|
    requires forall pc :: 0 <= pc < |c.prog| ==> SlotOk(c.prog, pc)
    ensures Encoded(enc, c, base, handler, bytes, p)
  {
    FirstInStep(enc, c, base, handler);
    FirstIsCode(c);
    hide Compiled, Paired, Patched, Encoded, SlotOk, Block;
    var pc, i := SlotOfPosition(c, p, 0);
    OperationEncoded(enc, c, base, handler, bytes, places, pc, i);
  }

  /** Jumps of the code go to slots, as patching needs it. */
  lemma TargetsAreSlots(enc: Encoder, prog: seq<Slot>, distance: nat)
    requires forall pc :: 0 <= pc < |prog| ==> SlotOk(prog, pc)
    ensures var items := SlotItems(enc, prog, distance);
      forall pc :: 0 <= pc < |items| ==> TargetsInside(items[pc], |prog|)
  {
    hide Block, SlotOk;
    var items: seq<seq<Item>> := SlotItems(enc, prog, distance);
    forall pc: nat, i: nat | pc < |items| && i < |items[pc]| && items[pc][i].JumpTo?
      ensures items[pc][i].targetPc < |prog|
    {
      BlockTargets(prog, distance, pc, i);
    }
  }

  /** What the code buffer's contract says about the code of the slots */
  lemma BufferPatched(enc: Encoder, c: Output, base: nat, handler: nat, first: seq<u8>, bytes: seq<u8>,
                      places: seq<nat>, sites: seq<Site>)
    requires |places| == |c.prog|
    requires var items := SlotItems(enc, c.prog, c.distance);
      && (forall q :: 0 <= q < |places| ==>
            places[q] == if Tails(c.prog)[q] then handler else base + ProgramLength(items[..q]))
      && sites == ProgramSites(items, base) && (forall i :: 0 <= i < |sites| ==> Resolved(bytes, places, sites[i]))
      && Extends(first, bytes, base, ProgramSkeleton(items))
    ensures Patched(enc, c, base, handler, bytes, places)
  {
    hide Resolved, ProgramSites, ProgramSkeleton, ProgramLength, Fits;
  }

  lemma FirstIsCode(c: Output)
    requires Paired(c.prog)
    ensures c.prog != [] ==> c.prog[0] != LddwTail
  {
    assert !BehindLddw(c.prog, 0);
  }
}
