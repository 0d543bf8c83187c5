/** The tracker that records reads of watched address ranges. */
module AccessTracker {
  import opened Words

  datatype Range = Range(start: u64, end: u64)

  datatype Access = Access(addr: u64, len: u64)

  predicate IsEmpty(r: Range) { r.start >= r.end }

  /** The comparison the tracker makes, with a saturating end */
  predicate Overlaps(a: Access, r: Range) {
    a.addr < r.end && SatAdd(a.addr, a.len) > r.start
  }

  predicate Forbidden(watched: seq<Range>, a: Access) {
    exists i :: 0 <= i < |watched| && Overlaps(a, watched[i])
  }

  predicate Reads(a: Access, b: u64) { a.addr <= b < a.addr + a.len }

  predicate Contains(r: Range, b: u64) { r.start <= b < r.end }

  /** Some address belongs to both the access and the range. */
  ghost predicate ShareByte(a: Access, r: Range) {
    exists b: u64 :: Reads(a, b) && Contains(r, b)
  }

  /** For accesses of at least one byte the comparison means sharing a byte, even where the end of
      the access saturates. */
  lemma OverlapIsSharing(a: Access, r: Range)
    requires !IsEmpty(r) && a.len > 0
    ensures Overlaps(a, r) <==> ShareByte(a, r)
  {
    if Overlaps(a, r) {
      var b: u64 := if a.addr < r.start then r.start else a.addr;
      assert Reads(a, b) && Contains(r, b);
    }
  }

  /** An empty access shares no byte, yet it is reported exactly when it points strictly inside. */
  lemma EmptyAccessReported(a: Access, r: Range)
    requires a.len == 0
    ensures !ShareByte(a, r)
    ensures Overlaps(a, r) <==> r.start < a.addr < r.end
  {
  }

  /** Hence tracking is exact for an access and a range if and only if the access is not an empty
      one that points strictly inside the range. */
  lemma TrackingExact(a: Access, r: Range)
    requires !IsEmpty(r)
    ensures (Overlaps(a, r) <==> ShareByte(a, r)) <==> !(a.len == 0 && r.start < a.addr < r.end)
  {
    if a.len > 0 {
      OverlapIsSharing(a, r);
    } else {
      EmptyAccessReported(a, r);
    }
  }

  /** The accesses of a run that the tracker has to record, in order */
  function Recorded(watched: seq<Range>, accesses: seq<Access>): seq<Access> {
    if accesses == [] then []
    else
      var init, last := accesses[..|accesses| - 1], accesses[|accesses| - 1];
      Recorded(watched, init) + (if Forbidden(watched, last) then [last] else [])
  }

  lemma {:induction false} RecordedConcat(watched: seq<Range>, xs: seq<Access>, ys: seq<Access>)
    ensures Recorded(watched, xs + ys) == Recorded(watched, xs) + Recorded(watched, ys)
  {
    if ys == [] {
      assert xs + ys == xs;
    } else {
      var init, last := ys[..|ys| - 1], ys[|ys| - 1];
      RecordedConcat(watched, xs, init);
      assert (xs + ys)[..|xs + ys| - 1] == xs + init && (xs + ys)[|xs + ys| - 1] == last;
    }
  }

  /** The accesses of a run that share a byte with a watched range, in order */
  ghost function Sharing(watched: seq<Range>, accesses: seq<Access>): seq<Access> {
    if accesses == [] then []
    else
      var init, last := accesses[..|accesses| - 1], accesses[|accesses| - 1];
      Sharing(watched, init) + (if SharesByte(watched, last) then [last] else [])
  }

  ghost predicate SharesByte(watched: seq<Range>, a: Access) {
    exists i :: 0 <= i < |watched| && ShareByte(a, watched[i])
  }

  /** An empty access that points strictly inside a watched range */
  predicate Spurious(watched: seq<Range>, a: Access) {
    a.len == 0 && exists i :: 0 <= i < |watched| && watched[i].start < a.addr < watched[i].end
  }

  ghost predicate AllNonEmpty(watched: seq<Range>) {
    forall i :: 0 <= i < |watched| ==> !IsEmpty(watched[i])
  }

  lemma ForbiddenMeaning(watched: seq<Range>, a: Access)
    requires AllNonEmpty(watched)
    ensures Forbidden(watched, a) <==> SharesByte(watched, a) || Spurious(watched, a)
    ensures !(SharesByte(watched, a) && Spurious(watched, a))
  {
    forall i | 0 <= i < |watched|
      ensures Overlaps(a, watched[i]) <==>
        ShareByte(a, watched[i]) || (a.len == 0 && watched[i].start < a.addr < watched[i].end)
      ensures a.len == 0 ==> !ShareByte(a, watched[i])
    {
      TrackingExact(a, watched[i]);
      if a.len == 0 { EmptyAccessReported(a, watched[i]); }
    }
  }

  /** The log of a run is exactly its accesses that share a byte with a watched range if and only if
      the run makes no empty access strictly inside one. */
  lemma {:induction false} LogIsExact(watched: seq<Range>, accesses: seq<Access>)
    requires AllNonEmpty(watched)
    ensures |Sharing(watched, accesses)| <= |Recorded(watched, accesses)|
    ensures Recorded(watched, accesses) == Sharing(watched, accesses) <==>
      forall k :: 0 <= k < |accesses| ==> !Spurious(watched, accesses[k])
    ensures Recorded(watched, accesses) == Sharing(watched, accesses) <==>
      |Recorded(watched, accesses)| == |Sharing(watched, accesses)|
  {
    if accesses != [] {
      var init, last := accesses[..|accesses| - 1], accesses[|accesses| - 1];
      LogIsExact(watched, init);
      ForbiddenMeaning(watched, last);
      hide SharesByte, Forbidden, Spurious;
      assert forall k :: 0 <= k < |init| ==> accesses[k] == init[k];
    }
  }

  class MemoryAccessTracker {
    var watchedRanges: seq<Range>
    var forbiddenAccesses: seq<Access>
    var enabled: bool

    /** Tracking is enabled exactly when a range is watched, and no watched range is empty. */
    ghost predicate Valid()
      reads this
    {
      && (enabled <==> watchedRanges != [])
      && (forall i :: 0 <= i < |watchedRanges| ==> !IsEmpty(watchedRanges[i]))
    }

    constructor ()
      ensures Valid() && watchedRanges == [] && forbiddenAccesses == []
    {
      watchedRanges, forbiddenAccesses, enabled := [], [], false;
    }

    method AddWatchedRanges(rs: seq<Range>)
      requires Valid()
      modifies this
      ensures Valid() && forbiddenAccesses == old(forbiddenAccesses)
      ensures watchedRanges == old(watchedRanges) + NonEmpty(rs)
    {
      for i := 0 to |rs|
        invariant watchedRanges == old(watchedRanges) + NonEmpty(rs[..i])
        invariant enabled == old(enabled) && forbiddenAccesses == old(forbiddenAccesses)
        invariant forall k :: 0 <= k < |watchedRanges| ==> !IsEmpty(watchedRanges[k])
      {
        assert rs[..i + 1][..i] == rs[..i];
        if !IsEmpty(rs[i]) {
          watchedRanges := watchedRanges + [rs[i]];
        }
      }
      assert rs[..|rs|] == rs;
      if watchedRanges != [] {
        enabled := true;
      }
    }

    /** Records the access once if it overlaps any watched range. */
    method CheckAccess(a: Access)
      requires Valid()
      modifies this`forbiddenAccesses
      ensures Valid()
      ensures forbiddenAccesses == old(forbiddenAccesses) + Recorded(watchedRanges, [a])
    {
      assert Recorded(watchedRanges, [a]) == if Forbidden(watchedRanges, a) then [a] else [];
      if !enabled {
        return;
      }
      for i := 0 to |watchedRanges|
        invariant forall k :: 0 <= k < i ==> !Overlaps(a, watchedRanges[k])
        invariant forbiddenAccesses == old(forbiddenAccesses)
      {
        if Overlaps(a, watchedRanges[i]) {
          forbiddenAccesses := forbiddenAccesses + [a];
          return;
        }
      }
    }
  }

  function NonEmpty(rs: seq<Range>): seq<Range> {
    if rs == [] then []
    else NonEmpty(rs[..|rs| - 1]) + (if IsEmpty(rs[|rs| - 1]) then [] else [rs[|rs| - 1]])
  }
}
