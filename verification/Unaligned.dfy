/** The unaligned mapping: an Eytzinger index over the region starts, behind a small ring cache. */
module Unaligned {
  import opened Words
  import opened Bits
  import opened MemoryRegion
  import opened RegionList
  import opened Eytzinger

  /** A constructor's result; errors name the region at fault. */
  datatype Result<T> = Ok(value: T) | Err(index: nat)

  datatype CacheEntry = CacheEntry(start: u64, end: u64, region: nat)

  const EMPTY := CacheEntry(0, 0, 0)

  predicate Hits(e: CacheEntry, addr: u64) { e.start <= addr < e.end }

  /** The first entry of `ring` that contains the address */
  function FirstHit(ring: seq<CacheEntry>, addr: u64): Option<nat> {
    if ring == [] then None
    else if Hits(ring[0], addr) then Some(ring[0].region)
    else FirstHit(ring[1..], addr)
  }

  class MappingCache {
    const entries: array<CacheEntry>
    var head: nat

    ghost predicate Valid()
      reads this, entries
    {
      entries.Length == 4 && head < 4
    }

    /** The entries from the most recent one to the oldest */
    ghost function Ring(): (ring: seq<CacheEntry>)
      requires Valid()
      reads this, entries
      ensures |ring| == 4
    {
      [entries[head], entries[(head + 1) % 4], entries[(head + 2) % 4], entries[(head + 3) % 4]]
    }

    constructor ()
      ensures Valid() && fresh(entries) && Ring() == [EMPTY, EMPTY, EMPTY, EMPTY]
    {
      entries := new CacheEntry[4](_ => EMPTY);
      head := 0;
    }

    method Find(addr: u64) returns (region: Option<nat>)
      requires Valid()
      ensures region == FirstHit(Ring(), addr)
    {
      ghost var ring := Ring();
      for i := 0 to 4
        invariant FirstHit(ring, addr) == FirstHit(ring[i..], addr)
      {
        var index := (head + i) % 4;
        assert ring[i..] == [entries[index]] + ring[i + 1..];
        if Hits(entries[index], addr) {
          return Some(entries[index].region);
        }
      }
      return None;
    }

    /** The new entry becomes the most recent one and the oldest one is evicted. */
    method Insert(e: CacheEntry)
      requires Valid()
      modifies this, entries
      ensures Valid() && Ring() == [e] + old(Ring())[..3]
    {
      head := (head + 3) % 4;
      entries[head] := e;
    }

    method Flush()
      requires Valid()
      modifies this, entries
      ensures Valid() && Ring() == [EMPTY, EMPTY, EMPTY, EMPTY]
    {
      for i := 0 to 4
        invariant Valid() && forall k :: 0 <= k < i ==> entries[k] == EMPTY
      {
        entries[i] := EMPTY;
      }
      head := 0;
    }
  }

  /** A cache entry is void or describes a region as it is now. */
  ghost predicate Coherent(rs: seq<Region>, e: CacheEntry) {
    || e.end <= e.start
    || (e.region < |rs| && e.start == rs[e.region].vmAddr && e.end == RangeEnd(rs[e.region]))
  }

  /** A coherent ring only gives the answer of the linear scan. */
  lemma {:induction false} FirstHitIsLast(rs: seq<Region>, ring: seq<CacheEntry>, addr: u64)
    requires Ordered(rs) && NonOverlapping(rs)
    requires forall i :: 0 <= i < |ring| ==> Coherent(rs, ring[i])
    ensures FirstHit(ring, addr).Some? ==> FirstHit(ring, addr) == FindLast(rs, addr)
  {
    if ring != [] {
      if Hits(ring[0], addr) {
        assert Coherent(rs, ring[0]);
        InsideIsLast(rs, addr, ring[0].region);
      } else {
        FirstHitIsLast(rs, ring[1..], addr);
      }
    }
  }

  /** Node `j` of the index holds the start and the number of the region it stands for. */
  ghost predicate Indexed(rs: seq<Region>, j: nat, address: u64, position: nat) {
    position == InPos(|rs|, j) < |rs| && address == rs[position].vmAddr
  }

  /** Everything before `lo` starts at or below the address, everything from `hi` on above it. */
  ghost predicate Narrowed(rs: seq<Region>, addr: u64, lo: nat, hi: nat) {
    && lo <= hi <= |rs|
    && (forall p :: 0 <= p < lo ==> rs[p].vmAddr <= addr)
    && (forall p :: hi <= p < |rs| ==> rs[p].vmAddr > addr)
  }

  class UnalignedMemoryMapping {
    var regions: seq<Region>
    const regionAddresses: array<u64>
    const regionIndexLookup: array<nat>
    const cache: MappingCache

    ghost function Repr(): set<object> {
      {this, regionAddresses, regionIndexLookup, cache, cache.entries}
    }

    ghost predicate IndexValid()
      reads this, regionAddresses, regionIndexLookup
    {
      && regionAddresses.Length == regionIndexLookup.Length == |regions|
      && (regionAddresses as object) != regionIndexLookup
      && forall j :: 0 <= j < |regions| ==> Indexed(regions, j, regionAddresses[j], regionIndexLookup[j])
    }

    ghost predicate CacheCoherent()
      reads this, cache, cache.entries
    {
      cache.Valid() && forall i :: 0 <= i < 4 ==> Coherent(regions, cache.Ring()[i])
    }

    ghost predicate Valid()
      reads Repr()
    {
      Ordered(regions) && NonOverlapping(regions) && IndexValid() && CacheCoherent()
    }

    constructor Allocate(sorted: seq<Region>)
      ensures regions == sorted && fresh(Repr()) && CacheCoherent()
      ensures regionAddresses.Length == regionIndexLookup.Length == |sorted|
      ensures (regionAddresses as object) != regionIndexLookup
    {
      regions := sorted;
      regionAddresses := new u64[|sorted|](_ => 0);
      regionIndexLookup := new nat[|sorted|](_ => 0);
      cache := new MappingCache();
    }

    /** Fills the index below node `outIndex` with the positions from `inIndex` on, in order. */
    method ConstructEytzingerOrder(inIndex: nat, outIndex: nat) returns (next: nat)
      requires regionAddresses.Length == regionIndexLookup.Length == |regions|
      requires (regionAddresses as object) != regionIndexLookup
      requires inIndex == Start(|regions|, outIndex)
      requires outIndex == 0 || (outIndex - 1) / 2 < |regions|
      modifies regionAddresses, regionIndexLookup
      ensures next == Start(|regions|, outIndex) + Size(|regions|, outIndex)
      ensures forall j :: 0 <= j < |regions| && Below(outIndex, j) ==>
        Indexed(regions, j, regionAddresses[j], regionIndexLookup[j])
      ensures forall j :: 0 <= j < |regions| && !Below(outIndex, j) ==>
        regionAddresses[j] == old(regionAddresses[j]) && regionIndexLookup[j] == old(regionIndexLookup[j])
      decreases if outIndex < |regions| then |regions| - outIndex else 0
    {
      ghost var n := |regions|;
      if outIndex >= |regions| {
        return inIndex;
      }
      var left, right := 2 * outIndex + 1, 2 * outIndex + 2;
      ChildPositions(n, outIndex, left, right);
      ChildrenBelow(n, outIndex, left, right);
      hide Start, Size, InPos, Below;
      next := ConstructEytzingerOrder(inIndex, left);
      regionAddresses[outIndex] := regions[next].vmAddr;
      regionIndexLookup[outIndex] := next;
      next := ConstructEytzingerOrder(next + 1, right);
    }

    /** Descends the index: a right turn when the node's region starts at or below the address. */
    method Search(addr: u64) returns (found: Option<nat>)
      requires Ordered(regions) && IndexValid()
      ensures found == FindLast(regions, addr)
    {
      hide *;
      ghost var n := |regions|;
      var index: nat := 1;
      ghost var turn: nat, lefts: nat := 0, 0;
      SearchStart(regions, addr, index);
      while index <= |regions|
        invariant At(n, index, turn, lefts)
        invariant Narrowed(regions, addr, Start(n, index - 1), Start(n, index - 1) + Size(n, index - 1))
      {
        TurnLeft(regions, addr, index, turn, lefts);
        TurnRight(regions, addr, index, turn, lefts);
        NodeAt(index - 1);
        if regionAddresses[index - 1] <= addr {
          turn, lefts := index, 0;
          index := 2 * index + 1;
        } else {
          lefts := lefts + 1;
          index := 2 * index;
        }
      }
      SearchEnd(regions, addr, index, turn, lefts);
      index := index / Pow2(TrailingZeros(index) + 1);
      if index == 0 {
        return None;
      }
      NodeAt(index - 1);
      return Some(regionIndexLookup[index - 1]);
    }

    lemma NodeAt(j: nat)
      requires IndexValid() && j < |regions|
      ensures regionAddresses.Length == regionIndexLookup.Length == |regions|
      ensures regionIndexLookup[j] == InPos(|regions|, j) < |regions|
      ensures regionAddresses[j] == regions[regionIndexLookup[j]].vmAddr
    {
      assert Indexed(regions, j, regionAddresses[j], regionIndexLookup[j]);
    }

    /** Returns the region which may contain the address, from the cache or the index. */
    method FindRegion(addr: u64) returns (found: Option<nat>)
      requires Valid()
      modifies cache, cache.entries
      ensures Valid() && found == FindLast(regions, addr)
    {
      found := cache.Find(addr);
      FirstHitIsLast(regions, cache.Ring(), addr);
      if found.None? {
        found := Search(addr);
        match found {
          case Some(index) =>
            cache.Insert(CacheEntry(regions[index].vmAddr, RangeEnd(regions[index]), index));
          case None =>
        }
      }
    }

    /** Overwrites a region and empties the cache; nothing is checked, and the mapping stays valid if and
        only if the start stays and the end does not pass the next start. */
    method ReplaceRegion(index: nat, region: Region)
      requires Valid() && index < |regions|
      modifies this`regions, cache, cache.entries
      ensures regions == old(regions)[index := region]
      ensures cache.Valid() && cache.Ring() == [EMPTY, EMPTY, EMPTY, EMPTY]
      ensures Valid() <==>
        && region.vmAddr == old(regions)[index].vmAddr
        && (index + 1 < |old(regions)| ==> RangeEnd(region) <= old(regions)[index + 1].vmAddr)
    {
      ghost var before := regions;
      regions := regions[index := region];
      cache.Flush();
      IndexAfter(before, index, region);
      OrderAfter(before, index, region);
      hide Ordered, NonOverlapping, Indexed, RangeEnd;
    }

    /** The index still fits exactly if the start stays. */
    lemma IndexAfter(before: seq<Region>, index: nat, region: Region)
      requires index < |before| && regions == before[index := region]
      requires regionAddresses.Length == regionIndexLookup.Length == |regions|
      requires (regionAddresses as object) != regionIndexLookup
      requires forall j :: 0 <= j < |before| ==> Indexed(before, j, regionAddresses[j], regionIndexLookup[j])
      ensures IndexValid() <==> region.vmAddr == before[index].vmAddr
    {
      hide InPos;
      RootCovers(|before|, index);
      var node := NodeOf(|before|, 0, index);
      assert Indexed(before, node, regionAddresses[node], regionIndexLookup[node]);
      if region.vmAddr == before[index].vmAddr {
        forall j | 0 <= j < |regions| ensures Indexed(regions, j, regionAddresses[j], regionIndexLookup[j]) {
          assert Indexed(before, j, regionAddresses[j], regionIndexLookup[j]);
        }
      } else {
        assert !Indexed(regions, node, regionAddresses[node], regionIndexLookup[node]);
      }
    }

    /** Sorts the regions, refuses overlapping ones and builds the index. */
    static method New(regions: seq<Region>) returns (result: Result<UnalignedMemoryMapping>)
      ensures result.Ok? <==> NonOverlapping(SortedOf(regions))
      ensures result.Ok? ==>
        && fresh(result.value.Repr()) && result.value.Valid()
        && result.value.regions == SortedOf(regions)
      ensures result.Err? ==>
        var sorted := SortedOf(regions);
        && 0 < result.index < |sorted| && RangeEnd(sorted[result.index - 1]) > sorted[result.index].vmAddr
        && NonOverlapping(sorted[..result.index])
    {
      hide SortedOf;
      var sorted := SortedOf(regions);
      var index := 1;
      while index < |sorted|
        invariant 1 <= index
        invariant forall i :: 0 <= i < index - 1 && i < |sorted| - 1 ==> RangeEnd(sorted[i]) <= sorted[i + 1].vmAddr
      {
        if RangeEnd(sorted[index - 1]) > sorted[index].vmAddr {
          return Err(index);
        }
        index := index + 1;
      }
      var mapping := new UnalignedMemoryMapping.Allocate(sorted);
      var _ := mapping.ConstructEytzingerOrder(0, 0);
      forall j: nat { AllBelowRoot(j); }
      return Ok(mapping);
    }
  }

  lemma RootCovers(n: nat, p: nat)
    requires p < n
    ensures Start(n, 0) <= p < Start(n, 0) + Size(n, 0)
  {
    RootSize(n);
  }

  /** Order and disjointness after a replacement that keeps the start */
  lemma OrderAfter(before: seq<Region>, index: nat, region: Region)
    requires index < |before| && Ordered(before) && NonOverlapping(before)
    ensures var after := before[index := region];
      && (region.vmAddr == before[index].vmAddr ==> Ordered(after))
      && (region.vmAddr == before[index].vmAddr ==>
            (NonOverlapping(after) <==> (index + 1 < |before| ==> RangeEnd(region) <= before[index + 1].vmAddr)))
  {
    hide RangeEnd;
    var after := before[index := region];
    if region.vmAddr == before[index].vmAddr && index + 1 < |before| && NonOverlapping(after) {
      assert RangeEnd(after[index]) <= after[index + 1].vmAddr;
    }
  }

  /** The search stands at node `index - 1`; its last right turn was at node `turn - 1`, followed
      by `lefts` left turns. */
  ghost predicate At(n: nat, index: nat, turn: nat, lefts: nat) {
    && 1 <= index && turn <= n && index == (2 * turn + 1) * Pow2(lefts)
    && (index == 1 || (index - 2) / 2 < n)
    && Start(n, index - 1) == if turn == 0 then 0 else InPos(n, turn - 1) + 1
  }

  lemma SearchStart(rs: seq<Region>, addr: u64, index: nat)
    requires index == 1
    ensures At(|rs|, index, 0, 0)
    ensures Narrowed(rs, addr, Start(|rs|, index - 1), Start(|rs|, index - 1) + Size(|rs|, index - 1))
  {
    hide Size;
    RootSize(|rs|);
  }

  /** Past the leaves, the last right turn was at the last region that starts low enough. */
  lemma SearchEnd(rs: seq<Region>, addr: u64, index: nat, turn: nat, lefts: nat)
    requires At(|rs|, index, turn, lefts) && index > |rs|
    requires Narrowed(rs, addr, Start(|rs|, index - 1), Start(|rs|, index - 1) + Size(|rs|, index - 1))
    ensures index > 0 && index / Pow2(TrailingZeros(index) + 1) == turn <= |rs|
    ensures turn == 0 ==> FindLast(rs, addr) == None
    ensures turn > 0 ==> FindLast(rs, addr) == Some(InPos(|rs|, turn - 1))
  {
    UndoTurns(index, turn, lefts);
    assert Size(|rs|, index - 1) == 0;
    if turn > 0 {
      hide Start, Size, InPos, FindLast;
      FindLastUnique(rs, addr, InPos(|rs|, turn - 1));
    }
  }

  lemma TurnLeft(rs: seq<Region>, addr: u64, index: nat, turn: nat, lefts: nat)
    requires At(|rs|, index, turn, lefts) && index <= |rs| && Ordered(rs)
    requires Narrowed(rs, addr, Start(|rs|, index - 1), Start(|rs|, index - 1) + Size(|rs|, index - 1))
    ensures InPos(|rs|, index - 1) < |rs|
    ensures rs[InPos(|rs|, index - 1)].vmAddr > addr ==>
      && At(|rs|, 2 * index, turn, lefts + 1)
      && Narrowed(rs, addr, Start(|rs|, 2 * index - 1), Start(|rs|, 2 * index - 1) + Size(|rs|, 2 * index - 1))
  {
    hide Start, Size, InPos;
    var n, k := |rs|, index - 1;
    ChildPositions(n, k, 2 * k + 1, 2 * k + 2);
    assert 2 * index - 1 == 2 * k + 1;
    TwiceProduct(2 * turn + 1, Pow2(lefts));
  }

  lemma TurnRight(rs: seq<Region>, addr: u64, index: nat, turn: nat, lefts: nat)
    requires At(|rs|, index, turn, lefts) && index <= |rs| && Ordered(rs)
    requires Narrowed(rs, addr, Start(|rs|, index - 1), Start(|rs|, index - 1) + Size(|rs|, index - 1))
    ensures InPos(|rs|, index - 1) < |rs|
    ensures rs[InPos(|rs|, index - 1)].vmAddr <= addr ==>
      && At(|rs|, 2 * index + 1, index, 0)
      && Narrowed(rs, addr, Start(|rs|, 2 * index), Start(|rs|, 2 * index) + Size(|rs|, 2 * index))
  {
    hide Start, Size, InPos;
    var n, k := |rs|, index - 1;
    ChildPositions(n, k, 2 * k + 1, 2 * k + 2);
    assert 2 * index == 2 * k + 2 && Pow2(0) == 1;
  }

  /** The positions of a node's two subtrees follow each other, with the node in between. */
  lemma ChildPositions(n: nat, k: nat, l: nat, r: nat)
    requires k < n && (k == 0 || (k - 1) / 2 < n) && l == 2 * k + 1 && r == 2 * k + 2
    ensures Start(n, l) == Start(n, k)
    ensures Start(n, k) + Size(n, l) == InPos(n, k) < n
    ensures Start(n, r) == InPos(n, k) + 1
    ensures Start(n, k) + Size(n, k) == Start(n, r) + Size(n, r)
    ensures (l - 1) / 2 == k && (r - 1) / 2 == k
  {
    hide Start;
    StartChildren(n, k);
    SubtreeInRange(n, k);
  }

  /** The nodes below `k` are `k` itself and those below either child. */
  lemma ChildrenBelow(n: nat, k: nat, l: nat, r: nat)
    requires l == 2 * k + 1 && r == 2 * k + 2
    ensures forall j :: 0 <= j < n ==> (Below(k, j) <==> j == k || Below(l, j) || Below(r, j))
    ensures forall j :: 0 <= j < n && Below(l, j) ==> !Below(r, j)
    ensures !Below(l, k) && !Below(r, k)
  {
    forall j | 0 <= j < n
      ensures Below(k, j) <==> j == k || Below(l, j) || Below(r, j)
      ensures Below(l, j) ==> !Below(r, j)
    {
      if j > k { BelowChild(k, j); }
    }
  }
}
