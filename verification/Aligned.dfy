/** The aligned mapping: the upper half of an address is the number of its region. */
module Aligned {
  import opened Words
  import opened Bits
  import opened MemoryRegion
  import opened RegionList
  import opened Unaligned

  /** The 4 GiB slot of an address */
  function Slot(addr: u64): nat { addr / TWO32 }

  /** Address of the empty host slice behind filler regions, which may be any */
  const EMPTY_SLICE: u64

  /** The empty region put where no region was given */
  function Filler(slot: nat): Region {
    Region(EMPTY_SLICE, if slot * TWO32 > U64_MAX then U64_MAX else slot * TWO32, 0, CONTINUOUS, false, None)
  }

  /** Slots of the first `n` regions increase strictly. */
  ghost predicate SlotsIncrease(rs: seq<Region>, n: nat) {
    n <= |rs| && forall i, j :: 0 <= i < j < n ==> Slot(rs[i].vmAddr) < Slot(rs[j].vmAddr)
  }

  /** Region `i` lies in slot `i`; every given region is at its slot and the rest are fillers. */
  ghost predicate Slotted(rs: seq<Region>, given: seq<Region>, n: nat) {
    && n <= |given|
    && (forall i :: 0 <= i < |rs| ==> Slot(rs[i].vmAddr) == i && (rs[i] == Filler(i) || rs[i] in given[..n]))
    && (forall q :: 0 <= q < n ==>
          Slot(given[q].vmAddr) < |rs| && rs[Slot(given[q].vmAddr)] == given[q])
  }

  lemma FillerSlot(k: nat)
    requires k < TWO32
    ensures Slot(Filler(k).vmAddr) == k
  {
    DivModUnique(k * TWO32, TWO32, k, 0);
  }

  /** Appending a filler keeps the slots. */
  lemma AppendFiller(rs: seq<Region>, given: seq<Region>, n: nat)
    requires Slotted(rs, given, n) && |rs| < TWO32
    ensures Slotted(rs + [Filler(|rs|)], given, n)
  {
    FillerSlot(|rs|);
  }

  /** Appending the next given region keeps the slots. */
  lemma AppendGiven(rs: seq<Region>, given: seq<Region>, n: nat)
    requires Slotted(rs, given, n) && SlotsIncrease(given, n) && n < |given|
    requires Slot(given[n].vmAddr) == |rs|
    ensures Slotted(rs + [given[n]], given, n + 1) && SlotsIncrease(given, n + 1)
  {
    assert given[..n + 1] == given[..n] + [given[n]];
  }

  /** The region begins and ends in the slot. */
  predicate FitsSlot(region: Region, slot: nat) {
    Slot(region.vmAddr) == slot && Slot(SatAdd(region.vmAddr, SatSub(region.len, 1))) == slot
  }

  class AlignedMemoryMapping {
    var regions: seq<Region>
    const allowRegionZero: bool

    constructor Wrap(rs: seq<Region>, allow: bool)
      ensures regions == rs && allowRegionZero == allow
    {
      regions := rs;
      allowRegionZero := allow;
    }

    function FindRegion(addr: u64): Option<nat>
      reads this
    {
      FindSlot(regions, allowRegionZero, addr)
    }

    /** Overwrites a region that begins and ends in its slot; a region of another slot is refused at any
        index, and one of the given slot needs a place in the list. */
    method ReplaceRegion(index: nat, region: Region) returns (ok: bool)
      requires FitsSlot(region, index) ==> index < |regions|
      modifies this
      ensures ok <==> FitsSlot(region, index)
      ensures regions == if ok then old(regions)[index := region] else old(regions)
    {
      var begin := Slot(region.vmAddr);
      var end := Slot(SatAdd(region.vmAddr, SatSub(region.len, 1)));
      if begin != index || end != index {
        return false;
      }
      regions := regions[index := region];
      return true;
    }
  }

  function FindSlot(rs: seq<Region>, allowRegionZero: bool, addr: u64): (r: Option<nat>)
    ensures r.Some? ==> r.value < |rs| && r.value * TWO32 <= addr < (r.value + 1) * TWO32
    ensures r.None? <==> addr >= |rs| * TWO32 || (addr < TWO32 && !allowRegionZero)
  {
    var index := Slot(addr);
    if index < |rs| && (index > 0 || allowRegionZero) then Some(index) else None
  }

  /** The next slot to fill comes after the last region placed and no later than the next one. */
  ghost predicate Between(sorted: seq<Region>, p: nat, expected: nat) {
    && p <= |sorted|
    && (p == 0 && sorted == [] ==> expected == 0)
    && (p == 0 && sorted != [] ==> expected <= Slot(sorted[0].vmAddr))
    && (p > 0 && expected != Slot(sorted[p - 1].vmAddr) + 1 ==>
          p < |sorted| && Slot(sorted[p - 1].vmAddr) < expected <= Slot(sorted[p].vmAddr))
  }

  /** A region below the next slot shares the slot of the region before it. */
  lemma SharedSlot(sorted: seq<Region>, p: nat, expected: nat)
    requires Ordered(sorted) && Between(sorted, p, expected) && p < |sorted|
    requires Slot(sorted[p].vmAddr) < expected
    ensures p > 0 && Slot(sorted[p - 1].vmAddr) == Slot(sorted[p].vmAddr)
    ensures !SlotsIncrease(sorted, |sorted|)
  {
    assert p > 0;
    assert sorted[p - 1].vmAddr <= sorted[p].vmAddr;
  }

  /** Puts a filler into every slot that has no region, up to the last region. */
  method FillGaps(sorted: seq<Region>) returns (result: Result<seq<Region>>)
    requires Ordered(sorted)
    ensures result.Ok? <==> SlotsIncrease(sorted, |sorted|)
    ensures result.Ok? ==> Slotted(result.value, sorted, |sorted|)
    ensures result.Ok? ==> |result.value| == if sorted == [] then 0 else Slot(sorted[|sorted| - 1].vmAddr) + 1
    ensures result.Err? ==>
      exists q :: 0 < q < |sorted| && Slot(sorted[q - 1].vmAddr) == Slot(sorted[q].vmAddr) == result.index
  {
    NoneSlotted(sorted);
    hide Slotted, SlotsIncrease, Ordered, Filler, Slot, Between;
    var rs := sorted;
    var expected: nat := 0;
    ghost var p: nat := 0;
    while expected < |rs|
      invariant expected <= |rs| && p <= |sorted| && rs[expected..] == sorted[p..]
      invariant Slotted(rs[..expected], sorted, p) && SlotsIncrease(sorted, p) && Between(sorted, p, expected)
      decreases |rs| - expected, if expected < |rs| then Slot(rs[expected].vmAddr) - expected else 0
    {
      assert rs[expected] == rs[expected..][0] == sorted[p];
      var actual := Slot(rs[expected].vmAddr);
      if actual > expected {
        StepFiller(rs, sorted, p, expected);
        rs := rs[..expected] + [Filler(expected)] + rs[expected..];
      } else if actual < expected {
        SharedSlot(sorted, p, expected);
        return Err(actual);
      } else {
        StepGiven(rs, sorted, p, expected);
        p := p + 1;
      }
      expected := expected + 1;
    }
    assert rs[..expected] == rs && p == |sorted|;
    AllPlaced(rs, sorted);
    return Ok(rs);
  }

  lemma StepFiller(rs: seq<Region>, sorted: seq<Region>, p: nat, expected: nat)
    requires expected < |rs| && Slotted(rs[..expected], sorted, p) && Between(sorted, p, expected)
    requires p < |sorted| && Slot(sorted[p].vmAddr) > expected && rs[expected..] == sorted[p..]
    ensures var rs' := rs[..expected] + [Filler(expected)] + rs[expected..];
      && Slotted(rs'[..expected + 1], sorted, p) && Between(sorted, p, expected + 1)
      && rs'[expected + 1..] == sorted[p..] && rs'[expected + 1] == rs[expected]
  {
    hide Slotted, Filler;
    var rs' := rs[..expected] + [Filler(expected)] + rs[expected..];
    AppendFiller(rs[..expected], sorted, p);
    assert rs'[..expected + 1] == rs[..expected] + [Filler(expected)];
    assert rs'[expected + 1..] == rs[expected..];
  }

  lemma StepGiven(rs: seq<Region>, sorted: seq<Region>, p: nat, expected: nat)
    requires expected < |rs| && Slotted(rs[..expected], sorted, p) && SlotsIncrease(sorted, p)
    requires p < |sorted| && Slot(sorted[p].vmAddr) == expected && rs[expected..] == sorted[p..]
    ensures Slotted(rs[..expected + 1], sorted, p + 1) && SlotsIncrease(sorted, p + 1)
    ensures Between(sorted, p + 1, expected + 1) && rs[expected + 1..] == sorted[p + 1..]
  {
    hide Slotted, SlotsIncrease;
    AppendGiven(rs[..expected], sorted, p);
    assert rs[expected] == rs[expected..][0] == sorted[p];
    assert rs[..expected + 1] == rs[..expected] + [sorted[p]];
    assert rs[expected + 1..] == rs[expected..][1..] == sorted[p..][1..] == sorted[p + 1..];
  }

  lemma AllPlaced(rs: seq<Region>, sorted: seq<Region>)
    requires Between(sorted, |sorted|, |rs|)
    ensures |rs| == if sorted == [] then 0 else Slot(sorted[|sorted| - 1].vmAddr) + 1
  {
  }

  lemma NoneSlotted(given: seq<Region>)
    ensures Slotted([], given, 0) && SlotsIncrease(given, 0) && Between(given, 0, 0)
  {
  }

  /** The given regions occupy the slots 1, 2, 3, ... without a hole. */
  ghost predicate SlotsFromOne(sorted: seq<Region>) {
    forall i :: 0 <= i < |sorted| ==> Slot(sorted[i].vmAddr) == i + 1
  }

  /** What the constructor accepts */
  ghost predicate Acceptable(regions: seq<Region>, allowRegionZero: bool) {
    var sorted := SortedOf(regions);
    if allowRegionZero then SlotsIncrease(sorted, |sorted|) else SlotsFromOne(sorted)
  }

  /** What the constructor builds: every region at its slot, fillers elsewhere */
  ghost predicate BuiltFrom(rs: seq<Region>, regions: seq<Region>, allowRegionZero: bool) {
    var sorted := SortedOf(regions);
    && Slotted(rs, sorted, |sorted|) && SlotsIncrease(sorted, |sorted|)
    && (!allowRegionZero ==> rs != [] && rs[0] == Filler(0) && SlotsFromOne(sorted))
    && |rs| == if sorted == [] then (if allowRegionZero then 0 else 1) else Slot(sorted[|sorted| - 1].vmAddr) + 1
  }

  method New(regions: seq<Region>, allowRegionZero: bool) returns (result: Result<AlignedMemoryMapping>)
    ensures result.Ok? <==> Acceptable(regions, allowRegionZero)
    ensures result.Ok? ==> fresh(result.value) && result.value.allowRegionZero == allowRegionZero
    ensures result.Ok? ==> BuiltFrom(result.value.regions, regions, allowRegionZero)
  {
    hide Slotted, SlotsIncrease, SortedOf, Ordered;
    if allowRegionZero {
      var filled := FillGaps(SortedOf(regions));
      if filled.Err? {
        return Err(filled.index);
      }
      var m := new AlignedMemoryMapping.Wrap(filled.value, true);
      return Ok(m);
    } else {
      SortedBehind(Filler(0), regions);
      var sorted := SortedOf([Filler(0)] + regions);
      for index := 0 to |sorted|
        invariant forall i :: 0 <= i < index ==> Slot(sorted[i].vmAddr) == i
      {
        if Slot(sorted[index].vmAddr) != index {
          assert index > 0 && sorted[index] == SortedOf(regions)[index - 1];
          return Err(index);
        }
      }
      FillerInFront(SortedOf(regions));
      var m := new AlignedMemoryMapping.Wrap(sorted, false);
      return Ok(m);
    }
  }

  lemma FillerInFront(sorted: seq<Region>)
    requires forall i :: 0 <= i < |sorted| + 1 ==> Slot(([Filler(0)] + sorted)[i].vmAddr) == i
    ensures SlotsFromOne(sorted) && SlotsIncrease(sorted, |sorted|)
    ensures Slotted([Filler(0)] + sorted, sorted, |sorted|)
  {
    var rs := [Filler(0)] + sorted;
    forall i | 0 <= i < |sorted| ensures Slot(sorted[i].vmAddr) == i + 1 {
      assert rs[i + 1] == sorted[i];
    }
    assert sorted[..|sorted|] == sorted;
  }
}
