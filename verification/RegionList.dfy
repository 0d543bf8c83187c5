/** Lists of memory regions: sorting, disjointness and the linear search that the mappings have to
    agree with. */
module RegionList {
  import opened Words
  import opened MemoryRegion

  ghost predicate Ordered(rs: seq<Region>) {
    forall i, j :: 0 <= i < j < |rs| ==> rs[i].vmAddr <= rs[j].vmAddr
  }

  ghost predicate NonOverlapping(rs: seq<Region>) {
    forall i :: 0 <= i < |rs| - 1 ==> RangeEnd(rs[i]) <= rs[i + 1].vmAddr
  }

  /** The last of the first `n` regions that starts at or below the address, by linear scan */
  function LinearFind(rs: seq<Region>, addr: u64, n: nat): (r: Option<nat>)
    requires n <= |rs|
    ensures r.Some? ==> r.value < n && rs[r.value].vmAddr <= addr
    ensures forall k :: 0 <= k < n && (r.Some? ==> k > r.value) ==> rs[k].vmAddr > addr
  {
    if n == 0 then None
    else if rs[n - 1].vmAddr <= addr then Some(n - 1)
    else LinearFind(rs, addr, n - 1)
  }

  function FindLast(rs: seq<Region>, addr: u64): (r: Option<nat>)
    ensures r.Some? ==> r.value < |rs| && rs[r.value].vmAddr <= addr
    ensures forall k :: 0 <= k < |rs| && (r.Some? ==> k > r.value) ==> rs[k].vmAddr > addr
  {
    LinearFind(rs, addr, |rs|)
  }

  /** The answer is determined by the region starts. */
  lemma FindLastUnique(rs: seq<Region>, addr: u64, i: nat)
    requires i < |rs| && rs[i].vmAddr <= addr
    requires forall k :: i < k < |rs| ==> rs[k].vmAddr > addr
    ensures FindLast(rs, addr) == Some(i)
  {
  }

  lemma FindLastStarts(rs: seq<Region>, rs': seq<Region>, addr: u64)
    requires |rs| == |rs'| && forall k :: 0 <= k < |rs| ==> rs[k].vmAddr == rs'[k].vmAddr
    ensures FindLast(rs, addr) == FindLast(rs', addr)
  {
    match FindLast(rs, addr)
    case Some(i) => FindLastUnique(rs', addr, i);
    case None =>
  }

  /** In a sorted list without overlaps, an address inside a region's range is found there. */
  lemma {:induction false} InsideIsLast(rs: seq<Region>, addr: u64, i: nat)
    requires Ordered(rs) && NonOverlapping(rs)
    requires i < |rs| && rs[i].vmAddr <= addr < RangeEnd(rs[i])
    ensures FindLast(rs, addr) == Some(i)
  {
    if i + 1 < |rs| {
      assert RangeEnd(rs[i]) <= rs[i + 1].vmAddr;
    }
    forall k | i < k < |rs| ensures rs[k].vmAddr > addr {
      assert k > i + 1 ==> rs[i + 1].vmAddr <= rs[k].vmAddr;
    }
    FindLastUnique(rs, addr, i);
  }

  /** Stable insertion: after every region that starts no later */
  function Inserted(sorted: seq<Region>, r: Region): (out: seq<Region>)
    ensures Ordered(sorted) ==> Ordered(out)
    ensures multiset(out) == multiset(sorted) + multiset{r}
  {
    if |sorted| == 0 || sorted[|sorted| - 1].vmAddr <= r.vmAddr then
      OrderedAtEnd(sorted, r);
      sorted + [r]
    else
      var init, last := sorted[..|sorted| - 1], sorted[|sorted| - 1];
      assert sorted == init + [last];
      var out := Inserted(init, r);
      AppendLast(init, last, r, out);
      out + [last]
  }

  lemma OrderedAtEnd(sorted: seq<Region>, r: Region)
    requires |sorted| == 0 || sorted[|sorted| - 1].vmAddr <= r.vmAddr
    ensures Ordered(sorted) ==> Ordered(sorted + [r])
  {
  }

  lemma AppendLast(init: seq<Region>, last: Region, r: Region, out: seq<Region>)
    requires last.vmAddr > r.vmAddr && multiset(out) == multiset(init) + multiset{r}
    ensures Ordered(init + [last]) ==> Ordered(init)
    ensures Ordered(init + [last]) && Ordered(out) ==> Ordered(out + [last])
  {
    if Ordered(init + [last]) {
      assert init == (init + [last])[..|init|];
      forall k | 0 <= k < |out| ensures out[k].vmAddr <= last.vmAddr {
        assert out[k] in multiset(out);
        if out[k] != r {
          assert out[k] in init;
          var m :| 0 <= m < |init| && init[m] == out[k];
          assert (init + [last])[m].vmAddr <= (init + [last])[|init|].vmAddr;
        }
      }
    }
  }

  /** `Vec::sort`, which orders regions by their start address and is stable */
  function SortedOf(rs: seq<Region>): (out: seq<Region>)
    ensures Ordered(out) && multiset(out) == multiset(rs)
  {
    if rs == [] then []
    else
      assert rs == rs[..|rs| - 1] + [rs[|rs| - 1]];
      Inserted(SortedOf(rs[..|rs| - 1]), rs[|rs| - 1])
  }

  lemma {:induction false} InsertedBehind(f: Region, sorted: seq<Region>, r: Region)
    requires f.vmAddr <= r.vmAddr
    ensures Inserted([f] + sorted, r) == [f] + Inserted(sorted, r)
  {
    var all := [f] + sorted;
    if sorted != [] && sorted[|sorted| - 1].vmAddr > r.vmAddr {
      InsertedBehind(f, sorted[..|sorted| - 1], r);
      assert all[..|all| - 1] == [f] + sorted[..|sorted| - 1];
    } else {
      assert all + [r] == [f] + (sorted + [r]);
    }
  }

  lemma SortedStep(rs: seq<Region>, r: Region)
    ensures SortedOf(rs + [r]) == Inserted(SortedOf(rs), r)
  {
    assert (rs + [r])[..|rs|] == rs;
    hide Inserted;
  }

  lemma SortedSingle(r: Region)
    ensures SortedOf([r]) == [r] && SortedOf([]) == []
  {
    SortedStep([], r);
    assert [] + [r] == [r];
  }

  /** A region in front that starts lowest stays in front. */
  lemma {:induction false} SortedBehind(f: Region, rs: seq<Region>)
    requires forall k :: 0 <= k < |rs| ==> f.vmAddr <= rs[k].vmAddr
    ensures SortedOf([f] + rs) == [f] + SortedOf(rs)
  {
    hide SortedOf, Inserted;
    if rs == [] {
      SortedSingle(f);
      assert [f] + [] == [f];
    } else {
      var init, last := rs[..|rs| - 1], rs[|rs| - 1];
      SortedBehind(f, init);
      InsertedBehind(f, SortedOf(init), last);
      SortedStep([f] + init, last);
      SortedStep(init, last);
      assert init + [last] == rs && [f] + init + [last] == [f] + rs;
    }
  }
}
