/** The aligned and the unaligned mapping of the same regions translate alike. */
module MappingAgreement {
  import opened Words
  import opened Bits
  import opened MemoryRegion
  import opened RegionList
  import opened Aligned

  /** Translation by the region that a lookup found, if any */
  function TranslateAt(rs: seq<Region>, found: Option<nat>, access: AccessType, addr: u64, len: u64): Option<u64>
    requires found.Some? ==> found.value < |rs|
  {
    match found
    case Some(i) => VmToHost(rs[i], access, addr, len)
    case None => None
  }

  /** Guest addresses covered by a region, without saturation */
  function Span(r: Region): nat { if r.gapShift == CONTINUOUS then r.len else 2 * r.len }

  ghost predicate EndsInSlot(r: Region) {
    r.vmAddr + Span(r) <= (Slot(r.vmAddr) + 1) * TWO32
  }

  /** No byte past the end of a region translates. */
  lemma PastEnd(r: Region, access: AccessType, addr: u64, len: u64)
    requires addr >= r.vmAddr + Span(r) && len > 0
    ensures VmToHost(r, access, addr, len) == None
  {
    hide And, Or, Pow2, GappedOffset, IsInGap;
    if r.gapShift < CONTINUOUS {
      GappedTranslation(r, access, addr, len);
      var g := Pow2(r.gapShift);
      var off := addr - r.vmAddr;
      if off / g % 2 == 0 && FrameOffset(off, g) < r.len {
        GuestInRange(off, g, r.len - 1);
      }
    } else if r.gapShift > CONTINUOUS {
      WideShift(addr - r.vmAddr, r.gapShift);
    }
  }

  /** A region in a lower slot that ends in its slot does not translate the address. */
  lemma LowerSlot(r: Region, access: AccessType, addr: u64, len: u64)
    requires EndsInSlot(r) && Slot(r.vmAddr) < Slot(addr) && len > 0
    ensures VmToHost(r, access, addr, len) == None
  {
    assert (Slot(r.vmAddr) + 1) * TWO32 <= Slot(addr) * TWO32 <= addr;
    PastEnd(r, access, addr, len);
  }

  /** If every region ends within its slot, the unaligned constructor accepts what the aligned one
      accepts. */
  lemma UnalignedAccepts(sorted: seq<Region>)
    requires SlotsIncrease(sorted, |sorted|)
    requires forall q :: 0 <= q < |sorted| ==> EndsInSlot(sorted[q])
    ensures NonOverlapping(sorted)
  {
    forall i | 0 <= i < |sorted| - 1 ensures RangeEnd(sorted[i]) <= sorted[i + 1].vmAddr {
      assert EndsInSlot(sorted[i]);
      assert (Slot(sorted[i].vmAddr) + 1) * TWO32 <= Slot(sorted[i + 1].vmAddr) * TWO32;
    }
  }

  /** With strictly increasing slots, the region of the address's own slot is found if it starts low
      enough; otherwise what is found lies in a lower slot. */
  lemma FoundSlot(sorted: seq<Region>, addr: u64)
    requires SlotsIncrease(sorted, |sorted|)
    ensures match FindLast(sorted, addr)
      case Some(i) => Slot(sorted[i].vmAddr) <= Slot(addr)
      case None => true
    ensures forall q :: 0 <= q < |sorted| && Slot(sorted[q].vmAddr) == Slot(addr) && sorted[q].vmAddr <= addr ==>
      FindLast(sorted, addr) == Some(q)
  {
    forall q | 0 <= q < |sorted| && Slot(sorted[q].vmAddr) == Slot(addr) && sorted[q].vmAddr <= addr
      ensures FindLast(sorted, addr) == Some(q)
    {
      FindLastUnique(sorted, addr, q);
    }
  }

  lemma FillerFails(slot: nat, access: AccessType, addr: u64, len: u64)
    requires len > 0
    ensures VmToHost(Filler(slot), access, addr, len) == None
  {
  }

  ghost predicate AllEndInSlot(rs: seq<Region>) {
    forall q :: 0 <= q < |rs| ==> EndsInSlot(rs[q])
  }

  /** Whatever the unaligned lookup finds outside the address's own slot does not translate. */
  lemma OtherSlotFails(sorted: seq<Region>, access: AccessType, addr: u64, len: u64)
    requires SlotsIncrease(sorted, |sorted|) && AllEndInSlot(sorted) && len > 0
    requires forall q :: 0 <= q < |sorted| && Slot(sorted[q].vmAddr) == Slot(addr) ==> sorted[q].vmAddr > addr
    ensures TranslateAt(sorted, FindLast(sorted, addr), access, addr, len) == None
  {
    hide VmToHost;
    FoundSlot(sorted, addr);
    match FindLast(sorted, addr)
    case Some(i) => LowerSlot(sorted[i], access, addr, len);
    case None =>
  }

  /** Both mappings of the same regions agree on every address and every non-empty access. */
  lemma MappingsAgree(aligned: seq<Region>, regions: seq<Region>, allowRegionZero: bool,
                      access: AccessType, addr: u64, len: u64)
    requires BuiltFrom(aligned, regions, allowRegionZero) && len > 0
    requires AllEndInSlot(SortedOf(regions))
    ensures TranslateAt(aligned, FindSlot(aligned, allowRegionZero, addr), access, addr, len)
      == TranslateAt(SortedOf(regions), FindLast(SortedOf(regions), addr), access, addr, len)
  {
    hide VmToHost, SortedOf, Slot, Filler;
    var sorted := SortedOf(regions);
    var s := Slot(addr);
    if exists q :: 0 <= q < |sorted| && Slot(sorted[q].vmAddr) == s && sorted[q].vmAddr <= addr {
      var q :| 0 <= q < |sorted| && Slot(sorted[q].vmAddr) == s && sorted[q].vmAddr <= addr;
      OwnRegionAgrees(aligned, sorted, allowRegionZero, access, addr, len, q);
    } else {
      OtherSlotFails(sorted, access, addr, len);
      if FindSlot(aligned, allowRegionZero, addr).Some? {
        OwnSlotFails(aligned, sorted, access, addr, len);
      }
    }
  }

  /** The aligned lookup fails too when no given region of the slot starts low enough. */
  lemma OwnSlotFails(aligned: seq<Region>, sorted: seq<Region>, access: AccessType, addr: u64, len: u64)
    requires Slotted(aligned, sorted, |sorted|) && Slot(addr) < |aligned| && len > 0
    requires forall q :: 0 <= q < |sorted| && Slot(sorted[q].vmAddr) == Slot(addr) ==> sorted[q].vmAddr > addr
    ensures VmToHost(aligned[Slot(addr)], access, addr, len) == None
  {
    var r := aligned[Slot(addr)];
    assert sorted[..|sorted|] == sorted;
    if r == Filler(Slot(addr)) {
      FillerFails(Slot(addr), access, addr, len);
    } else {
      var q :| 0 <= q < |sorted| && sorted[q] == r;
      assert r.vmAddr > addr;
    }
  }

  // ----- empty accesses -----

  /** An empty access just behind the region is one the region translates. */
  ghost predicate EndsAt(r: Region, access: AccessType, addr: u64) {
    && Allowed(r, access) && r.vmAddr + Span(r) == addr
    && (r.gapShift == CONTINUOUS || (r.gapShift < CONTINUOUS && r.len % Pow2(r.gapShift) == 0))
  }

  /** The slot has a filler that the lookup reaches. */
  ghost predicate HasFiller(sorted: seq<Region>, allowRegionZero: bool, slot: nat) {
    && (slot > 0 || allowRegionZero)
    && (exists q :: 0 <= q < |sorted| && Slot(sorted[q].vmAddr) > slot)
    && forall q :: 0 <= q < |sorted| ==> Slot(sorted[q].vmAddr) != slot
  }

  /** The given regions on which both mappings treat an empty access alike: it is not at the base of a
      slot, or a region starts there; otherwise a filler read there needs a region below that ends
      there at the host address of the filler's empty slice, and without a filler no region may end there. */
  ghost predicate EmptyAgrees(sorted: seq<Region>, allowRegionZero: bool, access: AccessType, addr: u64) {
    || addr % TWO32 != 0
    || (exists q :: 0 <= q < |sorted| && sorted[q].vmAddr == addr)
    || if access == Load && HasFiller(sorted, allowRegionZero, Slot(addr))
       then exists q :: 0 <= q < |sorted| && EndsAt(sorted[q], access, addr)
                        && SatAdd(sorted[q].hostAddr, sorted[q].len) == EMPTY_SLICE
       else forall q :: 0 <= q < |sorted| ==> !EndsAt(sorted[q], access, addr)
  }

  lemma FrameOffsetAtEnd(n: nat, g: nat)
    requires g > 0
    ensures 2 * n / g % 2 == 0 && FrameOffset(2 * n, g) <= n <==> n % g == 0
    ensures n % g == 0 ==> FrameOffset(2 * n, g) == n
  {
    var q, r := n / g, n % g;
    assert n == q * g + r;
    assert (2 * q) * g == 2 * (q * g) && (2 * q + 1) * g == 2 * (q * g) + g;
    if 2 * r < g {
      DivModUnique(2 * n, g, 2 * q, 2 * r);
    } else {
      DivModUnique(2 * n, g, 2 * q + 1, 2 * r - g);
    }
  }

  /** What a region does with an empty access at or behind its end */
  lemma EmptyBehind(r: Region, access: AccessType, addr: u64)
    requires addr >= r.vmAddr + Span(r) && addr > r.vmAddr
    ensures VmToHost(r, access, addr, 0) == if EndsAt(r, access, addr) then Some(SatAdd(r.hostAddr, r.len)) else None
  {
    hide And, Or, Pow2, GappedOffset, IsInGap;
    var off := addr - r.vmAddr;
    if r.gapShift < CONTINUOUS {
      GappedTranslation(r, access, addr, 0);
      var g := Pow2(r.gapShift);
      if off / g % 2 == 0 && FrameOffset(off, g) <= r.len {
        GuestInRange(off, g, r.len);
      }
      FrameOffsetAtEnd(r.len, g);
    } else if r.gapShift > CONTINUOUS {
      WideShift(off, r.gapShift);
    }
  }

  lemma FillerEmpty(slot: nat, access: AccessType, addr: u64)
    requires slot == Slot(addr)
    ensures VmToHost(Filler(slot), access, addr, 0)
      == if access == Load && addr % TWO32 == 0 then Some(EMPTY_SLICE) else None
    ensures Filler(slot).vmAddr <= addr
  {
  }

  /** The unaligned side, when no region of the slot starts low enough */
  lemma UnalignedEmpty(sorted: seq<Region>, access: AccessType, addr: u64) returns (host: Option<u64>)
    requires SlotsIncrease(sorted, |sorted|) && AllEndInSlot(sorted)
    requires NoneLow(sorted, addr)
    ensures host == TranslateAt(sorted, FindLast(sorted, addr), access, addr, 0)
    ensures host.Some? ==> addr % TWO32 == 0
    ensures host.Some? ==>
      exists q :: 0 <= q < |sorted| && EndsAt(sorted[q], access, addr) &&
                  host.value == SatAdd(sorted[q].hostAddr, sorted[q].len)
    ensures host.None? ==> forall q :: 0 <= q < |sorted| ==> !EndsAt(sorted[q], access, addr)
    ensures forall q :: 0 <= q < |sorted| && EndsAt(sorted[q], access, addr) ==>
      host == Some(SatAdd(sorted[q].hostAddr, sorted[q].len))
  {
    hide VmToHost, Pow2;
    FoundSlot(sorted, addr);
    host := TranslateAt(sorted, FindLast(sorted, addr), access, addr, 0);
    if FindLast(sorted, addr).Some? {
      var i := FindLast(sorted, addr).value;
      BehindSlot(sorted[i], addr);
      EmptyBehind(sorted[i], access, addr);
    }
    forall q | 0 <= q < |sorted| && EndsAt(sorted[q], access, addr)
      ensures FindLast(sorted, addr) == Some(q)
    {
      EndIsLast(sorted, access, addr, q);
    }
  }

  lemma BehindSlot(r: Region, addr: u64)
    requires EndsInSlot(r) && Slot(r.vmAddr) < Slot(addr)
    ensures r.vmAddr + Span(r) <= Slot(addr) * TWO32 <= addr && addr > r.vmAddr
    ensures r.vmAddr + Span(r) == addr ==> addr % TWO32 == 0
  {
    assert (Slot(r.vmAddr) + 1) * TWO32 <= Slot(addr) * TWO32 <= addr;
  }

  /** A region that ends at the address is the one found. */
  lemma EndIsLast(sorted: seq<Region>, access: AccessType, addr: u64, q: nat)
    requires SlotsIncrease(sorted, |sorted|) && AllEndInSlot(sorted)
    requires NoneLow(sorted, addr)
    requires q < |sorted| && EndsAt(sorted[q], access, addr)
    ensures FindLast(sorted, addr) == Some(q)
  {
    hide FindLast;
    assert EndsInSlot(sorted[q]);
    assert Slot(addr) <= Slot(sorted[q].vmAddr) + 1;
    forall k | q < k < |sorted| ensures sorted[k].vmAddr > addr {
      assert Slot(sorted[q].vmAddr) < Slot(sorted[k].vmAddr);
    }
    FindLastUnique(sorted, addr, q);
  }

  /** The aligned side: only a filler translates. */
  lemma AlignedEmpty(aligned: seq<Region>, regions: seq<Region>, allowRegionZero: bool, access: AccessType, addr: u64)
    requires BuiltFrom(aligned, regions, allowRegionZero)
    requires NoneLow(SortedOf(regions), addr)
    ensures TranslateAt(aligned, FindSlot(aligned, allowRegionZero, addr), access, addr, 0)
      == if access == Load && addr % TWO32 == 0 && HasFiller(SortedOf(regions), allowRegionZero, Slot(addr))
         then Some(EMPTY_SLICE) else None
  {
    hide VmToHost, SortedOf, Filler, Slotted, SlotsIncrease, HasFiller, Slot, NoneLow;
    var sorted, s := SortedOf(regions), Slot(addr);
    FillerIff(aligned, sorted, allowRegionZero, addr);
    FillerEmpty(s, access, addr);
    if FindSlot(aligned, allowRegionZero, addr).Some? && aligned[s] != Filler(s) {
      GivenIsHigh(aligned, sorted, addr);
      StartsBehind(aligned[s], access, addr);
    }
  }

  /** No given region of the address's slot starts at or below it. */
  ghost predicate NoneLow(sorted: seq<Region>, addr: u64) {
    forall q :: 0 <= q < |sorted| && Slot(sorted[q].vmAddr) == Slot(addr) ==> sorted[q].vmAddr > addr
  }

  lemma GivenIsHigh(aligned: seq<Region>, sorted: seq<Region>, addr: u64)
    requires Slotted(aligned, sorted, |sorted|) && NoneLow(sorted, addr)
    requires Slot(addr) < |aligned| && aligned[Slot(addr)] != Filler(Slot(addr))
    ensures aligned[Slot(addr)].vmAddr > addr
  {
    hide Filler, Slot;
    assert sorted[..|sorted|] == sorted;
    var q :| 0 <= q < |sorted| && sorted[q] == aligned[Slot(addr)];
  }

  /** The lookup reaches a filler exactly if the slot has one. */
  lemma FillerIff(aligned: seq<Region>, sorted: seq<Region>, allowRegionZero: bool, addr: u64)
    requires Slotted(aligned, sorted, |sorted|) && SlotsIncrease(sorted, |sorted|) && NoneLow(sorted, addr)
    requires |aligned| ==
      if sorted == [] then (if allowRegionZero then 0 else 1) else Slot(sorted[|sorted| - 1].vmAddr) + 1
    ensures HasFiller(sorted, allowRegionZero, Slot(addr)) <==>
      FindSlot(aligned, allowRegionZero, addr).Some? && aligned[Slot(addr)] == Filler(Slot(addr))
  {
    var s := Slot(addr);
    FillerEmpty(s, Load, addr);
    hide Filler, Slot, VmToHost;
    assert sorted[..|sorted|] == sorted;
    if FindSlot(aligned, allowRegionZero, addr).Some? && aligned[s] == Filler(s) {
      FillerReached(aligned, sorted, allowRegionZero, s);
    }
    if HasFiller(sorted, allowRegionZero, s) {
      var q :| 0 <= q < |sorted| && Slot(sorted[q].vmAddr) > s;
      assert aligned[s] !in sorted;
    }
  }

  lemma StartsBehind(r: Region, access: AccessType, addr: u64)
    requires r.vmAddr > addr
    ensures VmToHost(r, access, addr, 0) == None
  {
  }

  /** Reachable fillers are those below a given region. */
  lemma FillerReached(aligned: seq<Region>, sorted: seq<Region>, allowRegionZero: bool, s: nat)
    requires SlotsIncrease(sorted, |sorted|) && s < |aligned| && (s > 0 || allowRegionZero)
    requires |aligned| ==
      if sorted == [] then (if allowRegionZero then 0 else 1) else Slot(sorted[|sorted| - 1].vmAddr) + 1
    requires Slotted(aligned, sorted, |sorted|) && aligned[s] == Filler(s)
    requires forall q :: 0 <= q < |sorted| && Slot(sorted[q].vmAddr) == s ==> sorted[q] != Filler(s)
    ensures HasFiller(sorted, allowRegionZero, s)
  {
    hide Filler, Slot;
    assert Slot(sorted[|sorted| - 1].vmAddr) >= s;
  }

  /** Both mappings of the same regions treat an empty access alike if and only if the given regions
      say so. */
  lemma EmptyAgreesExactly(aligned: seq<Region>, regions: seq<Region>, allowRegionZero: bool,
                           access: AccessType, addr: u64)
    requires BuiltFrom(aligned, regions, allowRegionZero) && AllEndInSlot(SortedOf(regions))
    ensures TranslateAt(aligned, FindSlot(aligned, allowRegionZero, addr), access, addr, 0)
         == TranslateAt(SortedOf(regions), FindLast(SortedOf(regions), addr), access, addr, 0)
      <==> EmptyAgrees(SortedOf(regions), allowRegionZero, access, addr)
  {
    hide VmToHost, SortedOf, Filler, EndsAt, HasFiller, FindLast, FindSlot, Slot;
    var sorted := SortedOf(regions);
    if exists q :: 0 <= q < |sorted| && Slot(sorted[q].vmAddr) == Slot(addr) && sorted[q].vmAddr <= addr {
      var q :| 0 <= q < |sorted| && Slot(sorted[q].vmAddr) == Slot(addr) && sorted[q].vmAddr <= addr;
      OwnRegionAgrees(aligned, sorted, allowRegionZero, access, addr, 0, q);
      BaseOfSlot(sorted[q].vmAddr, addr);
    } else {
      assert NoneLow(sorted, addr);
      hide Slotted, SlotsIncrease;
      AlignedEmpty(aligned, regions, allowRegionZero, access, addr);
      var host := UnalignedEmpty(sorted, access, addr);
      OnlyOwnStart(sorted, addr);
    }
  }

  /** Both lookups find a region of the address's own slot that starts low enough. */
  lemma OwnRegionAgrees(aligned: seq<Region>, sorted: seq<Region>, allowRegionZero: bool, access: AccessType, addr: u64,
                        len: u64, q: nat)
    requires Slotted(aligned, sorted, |sorted|) && SlotsIncrease(sorted, |sorted|)
    requires !allowRegionZero ==> SlotsFromOne(sorted)
    requires q < |sorted| && Slot(sorted[q].vmAddr) == Slot(addr) && sorted[q].vmAddr <= addr
    ensures TranslateAt(aligned, FindSlot(aligned, allowRegionZero, addr), access, addr, len)
         == TranslateAt(sorted, FindLast(sorted, addr), access, addr, len)
  {
    hide VmToHost, Slot, Filler;
    FoundSlot(sorted, addr);
  }

  lemma OnlyOwnStart(sorted: seq<Region>, addr: u64)
    requires NoneLow(sorted, addr)
    ensures forall q :: 0 <= q < |sorted| ==> sorted[q].vmAddr != addr
  {
    hide Slot;
  }

  lemma BaseOfSlot(start: u64, addr: u64)
    requires Slot(start) == Slot(addr) && start <= addr
    ensures addr % TWO32 == 0 ==> start == addr
  {
  }

  /** Both mappings agree on every access that is not empty and on exactly those empty ones. */
  lemma MappingsAgreeExactly(aligned: seq<Region>, regions: seq<Region>, allowRegionZero: bool,
                             access: AccessType, addr: u64, len: u64)
    requires BuiltFrom(aligned, regions, allowRegionZero) && AllEndInSlot(SortedOf(regions))
    ensures TranslateAt(aligned, FindSlot(aligned, allowRegionZero, addr), access, addr, len)
         == TranslateAt(SortedOf(regions), FindLast(SortedOf(regions), addr), access, addr, len)
      <==> len > 0 || EmptyAgrees(SortedOf(regions), allowRegionZero, access, addr)
  {
    hide BuiltFrom, AllEndInSlot, TranslateAt, EmptyAgrees;
    if len > 0 {
      MappingsAgree(aligned, regions, allowRegionZero, access, addr, len);
    } else {
      EmptyAgreesExactly(aligned, regions, allowRegionZero, access, addr);
    }
  }

  /** One way to differ: a filler translates an empty read, where the other mapping finds nothing. */
  lemma FillerDiffers(r: Region)
    requires Slot(r.vmAddr) == 1
    ensures BuiltFrom([Filler(0), r], [r], true)
    ensures TranslateAt([Filler(0), r], FindSlot([Filler(0), r], true, 0), Load, 0, 0) == Some(EMPTY_SLICE)
    ensures TranslateAt(SortedOf([r]), FindLast(SortedOf([r]), 0), Load, 0, 0) == None
  {
    OneRegion(r);
    SortedSingle(r);
    hide SortedOf, BuiltFrom, Filler, VmToHost;
    FillerEmpty(0, Load, 0);
  }

  /** The other: a region that fills its slot translates an empty access, read or write, behind its
      end, where the aligned mapping has no slot. */
  lemma FullSlotDiffers(r: Region, access: AccessType)
    requires Slot(r.vmAddr) == 1 && r.gapShift == CONTINUOUS && r.writable && r.vmAddr + r.len == 2 * TWO32
    ensures BuiltFrom([Filler(0), r], [r], true) && AllEndInSlot(SortedOf([r]))
    ensures TranslateAt([Filler(0), r], FindSlot([Filler(0), r], true, 2 * TWO32), access, 2 * TWO32, 0) == None
    ensures TranslateAt(SortedOf([r]), FindLast(SortedOf([r]), 2 * TWO32), access, 2 * TWO32, 0)
      == Some(SatAdd(r.hostAddr, r.len))
  {
    OneRegion(r);
    SortedSingle(r);
    hide SortedOf, BuiltFrom, Filler;
  }

  lemma OneRegion(r: Region)
    requires Slot(r.vmAddr) == 1
    ensures BuiltFrom([Filler(0), r], [r], true)
  {
    SortedSingle(r);
    hide SortedOf;
    FillerSlot(0);
    assert [r][..1] == [r];
  }
}
