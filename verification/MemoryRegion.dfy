/** A memory region: guest addresses, host addresses and the gapped translation between them. */
module MemoryRegion {
  import opened Words
  import opened Bits

  datatype AccessType = Load | Store

  /** `gapShift` is the binary logarithm of the frame size; 63 means the region is continuous. */
  datatype Region = Region(hostAddr: u64, vmAddr: u64, len: u64, gapShift: u8, writable: bool,
                           payload: Option<nat>)

  const CONTINUOUS: u8 := 63

  /** End of the covered guest addresses, saturating */
  function RangeEnd(r: Region): u64 {
    if r.gapShift == CONTINUOUS then SatAdd(r.vmAddr, r.len) else SatAdd(r.vmAddr, SatMul(r.len, 2))
  }

  function GapMask(s: nat): (mask: u64) {
    if s < 64 then Pow2Bound(s); TWO64 - Pow2(s) else 0
  }

  predicate IsInGap(beginOffset: u64, s: nat) {
    SmallQuotient(beginOffset, Pow2(s));
    And(if s < 64 then beginOffset / Pow2(s) else 0, 1) == 1
  }

  function GappedOffset(beginOffset: u64, s: nat): nat {
    Or(And(beginOffset, GapMask(s)) / 2, And(beginOffset, U64_MAX - GapMask(s)))
  }

  /** Translates a guest address to a host address, if the access is allowed and in bounds. */
  function VmToHost(r: Region, access: AccessType, vmAddr: u64, len: u64): Option<u64> {
    if access == Store && !r.writable then None
    else if vmAddr < r.vmAddr then None
    else
      var beginOffset := vmAddr - r.vmAddr;
      if r.gapShift == CONTINUOUS then
        match CheckedAdd(beginOffset, len)
        case Some(endOffset) =>
          if endOffset <= r.len then Some(SatAdd(r.hostAddr, beginOffset)) else None
        case None => None
      else
        GappedOffsetBound(beginOffset, r.gapShift);
        var gappedOffset := GappedOffset(beginOffset, r.gapShift);
        match CheckedAdd(gappedOffset, len)
        case Some(endOffset) =>
          if endOffset <= r.len && !IsInGap(beginOffset, r.gapShift)
          then Some(SatAdd(r.hostAddr, gappedOffset)) else None
        case None => None
  }

  // ----- what the mask arithmetic means -----

  lemma {:induction false} Pow2Mono(j: nat, k: nat)
    requires j <= k
    ensures Pow2(j) <= Pow2(k)
  {
    if j < k { Pow2Mono(j, k - 1); }
  }

  lemma Pow2Bound(s: nat)
    requires s < 64
    ensures 1 <= Pow2(s) <= TWO63
  {
    Pow2Values();
    Pow2Mono(s, 63);
  }

  lemma GappedOffsetBound(beginOffset: u64, s: nat)
    ensures GappedOffset(beginOffset, s) < TWO64
  {
    Pow2Values();
    OrBound(And(beginOffset, GapMask(s)) / 2, And(beginOffset, U64_MAX - GapMask(s)), 64);
  }

  /** An offset is in a gap exactly when its frame number is odd. */
  lemma InGapMeaning(beginOffset: u64, s: nat)
    requires s < 64
    ensures IsInGap(beginOffset, s) <==> beginOffset / Pow2(s) % 2 == 1
  {
    assert Pow2(1) == 2;
    AndLowMask(beginOffset / Pow2(s), 1);
  }

  /** An offset `o` into guest frame `2f` becomes offset `o` into host frame `f`. */
  lemma GappedOffsetMeaning(beginOffset: u64, s: nat, f: nat)
    requires s < 64 && beginOffset / Pow2(s) == 2 * f
    ensures GappedOffset(beginOffset, s) == f * Pow2(s) + beginOffset % Pow2(s)
  {
    hide And, Or, Pow2;
    var g := Pow2(s);
    Pow2Values();
    Pow2Bound(s);
    AndHighMask(beginOffset, s, 64);
    AndLowMask(beginOffset, s);
    FrameSplit(beginOffset, g, 2 * f);
    HalveFrames(f, g);
    OrDisjoint(f, beginOffset % g, s);
  }

  lemma FrameSplit(x: nat, g: nat, q: nat)
    requires g > 0 && x / g == q
    ensures x - x % g == q * g
  {
  }

  lemma HalveFrames(f: nat, g: nat)
    ensures (2 * f) * g / 2 == f * g
  {
    assert (2 * f) * g == 2 * (f * g);
  }

  // ----- translation through gaps -----

  ghost predicate Gapped(r: Region) { r.gapShift < CONTINUOUS }

  /** The backing host slice lies inside the address space. */
  ghost predicate HostSliceValid(r: Region) { r.hostAddr + r.len <= U64_MAX }

  ghost predicate Allowed(r: Region, access: AccessType) { access == Store ==> r.writable }

  /** The host offset of a guest offset that is not in a gap */
  ghost function FrameOffset(off: nat, g: nat): nat
    requires g > 0
  {
    off / g / 2 * g + off % g
  }

  /** The guest offset of a host offset */
  ghost function GuestOffset(h: nat, g: nat): nat
    requires g > 0
  {
    h / g * (2 * g) + h % g
  }

  /** A gapped translation succeeds exactly for in-bounds offsets into even frames, and moves frame
      `2f` to frame `f`. */
  lemma GappedTranslation(r: Region, access: AccessType, addr: u64, len: u64)
    requires Gapped(r)
    ensures var g := Pow2(r.gapShift);
      var ok := Allowed(r, access) && addr >= r.vmAddr
        && (addr - r.vmAddr) / g % 2 == 0 && FrameOffset(addr - r.vmAddr, g) + len <= r.len;
      VmToHost(r, access, addr, len) ==
      if ok then Some(SatAdd(r.hostAddr, FrameOffset(addr - r.vmAddr, g))) else None
  {
    hide And, Or, Pow2, IsInGap, GappedOffset;
    if addr >= r.vmAddr {
      var off := addr - r.vmAddr;
      var g := Pow2(r.gapShift);
      InGapMeaning(off, r.gapShift);
      if off / g % 2 == 0 {
        GappedOffsetMeaning(off, r.gapShift, off / g / 2);
      }
    }
  }

  /** A continuous translation succeeds exactly for allowed accesses that lie inside the region, and keeps
      their distance from the start; a shift of 64 and more means the same. */
  lemma ContinuousTranslation(r: Region, access: AccessType, addr: u64, len: u64)
    requires r.gapShift >= CONTINUOUS
    ensures var ok := Allowed(r, access) && addr >= r.vmAddr && addr - r.vmAddr + len <= r.len;
      VmToHost(r, access, addr, len) == if ok then Some(SatAdd(r.hostAddr, addr - r.vmAddr)) else None
  {
    hide And, Or, Pow2, GappedOffset, IsInGap;
    if r.gapShift > CONTINUOUS && addr >= r.vmAddr {
      WideShift(addr - r.vmAddr, r.gapShift);
      NoGap(addr - r.vmAddr, r.gapShift);
    }
  }

  /** Every byte of a translated access to a continuous region translates to its own byte of the host range. */
  lemma ContinuousBytes(r: Region, access: AccessType, addr: u64, len: u64, k: nat)
    requires r.gapShift >= CONTINUOUS && HostSliceValid(r) && k < len && addr + k <= U64_MAX
    requires VmToHost(r, access, addr, len).Some?
    ensures ByteAgrees(r, access, addr, VmToHost(r, access, addr, len).value, k)
  {
    hide VmToHost;
    ContinuousTranslation(r, access, addr, len);
    ContinuousTranslation(r, access, addr + k, 1);
  }

  lemma NoGap(off: u64, s: nat)
    requires s >= 64
    ensures !IsInGap(off, s)
  {
  }

  lemma GuestOffsetFrames(h: nat, g: nat)
    requires g > 0
    ensures GuestOffset(h, g) / g == 2 * (h / g) && GuestOffset(h, g) % g == h % g
    ensures FrameOffset(GuestOffset(h, g), g) == h
    ensures GuestOffset(h, g) <= 2 * h
  {
    assert h / g * (2 * g) == (2 * (h / g)) * g;
    DivModUnique(GuestOffset(h, g), g, 2 * (h / g), h % g);
    assert h == h / g * g + h % g;
  }

  /** Two offsets into even frames with the same host offset are equal. */
  lemma FrameOffsetInjective(off: nat, g: nat, h: nat)
    requires g > 0 && off / g % 2 == 0 && FrameOffset(off, g) == h
    ensures off == GuestOffset(h, g)
  {
    DivModUnique(h, g, off / g / 2, off % g);
    assert off == off / g * g + off % g;
    assert off / g == 2 * (h / g);
    assert (2 * (h / g)) * g == h / g * (2 * g);
  }

  /** Every host byte of a gapped region is the translation of exactly one guest address, provided that
      address exists, and the region covers it unless it is the last address of all. */
  lemma HostByteHasOneGuest(r: Region, h: nat)
    requires Gapped(r) && HostSliceValid(r) && h < r.len
    ensures var guest := r.vmAddr + GuestOffset(h, Pow2(r.gapShift));
      && (forall addr: u64 :: VmToHost(r, Load, addr, 1) == Some(r.hostAddr + h) <==> addr == guest)
      && (guest < RangeEnd(r) <==> guest < U64_MAX)
  {
    hide Pow2, VmToHost;
    var size := Pow2(r.gapShift);
    var g := GuestOffset(h, size);
    GuestOffsetFrames(h, size);
    forall addr: u64
      ensures VmToHost(r, Load, addr, 1) == Some(r.hostAddr + h) <==> addr == r.vmAddr + g
    {
      GappedTranslation(r, Load, addr, 1);
      if VmToHost(r, Load, addr, 1) == Some(r.hostAddr + h) {
        FrameOffsetInjective(addr - r.vmAddr, size, h);
      }
    }
    hide GuestOffset, FrameOffset;
  }

  /** A successful translation stays inside the backing host slice. */
  lemma TranslationInSlice(r: Region, access: AccessType, addr: u64, len: u64)
    requires HostSliceValid(r) && VmToHost(r, access, addr, len).Some?
    ensures var host := VmToHost(r, access, addr, len).value;
      r.hostAddr <= host && host + len <= r.hostAddr + r.len
  {
    hide VmToHost;
    if Gapped(r) {
      GappedTranslation(r, access, addr, len);
    } else {
      ContinuousTranslation(r, access, addr, len);
    }
  }

  lemma WideShift(off: u64, s: nat)
    requires s >= 64
    ensures GappedOffset(off, s) == off
  {
    hide And, Or;
    Pow2Values();
    AndLowMask(off, 64);
    hide Pow2;
    AndZero(off);
    OrZero(off);
  }

  lemma AndZero(x: nat)
    ensures And(x, 0) == 0
  {
  }

  lemma OrZero(x: nat)
    ensures Or(0, x) == x
  {
  }

  /** Byte `k` of the access translates to byte `k` of the host range. */
  ghost predicate ByteAgrees(r: Region, access: AccessType, addr: u64, host: int, k: int) {
    && addr + k <= U64_MAX && 0 <= k
    && VmToHost(r, access, addr + k, 1) == Some(Wrap(host + k))
  }

  lemma SameFrame(off: nat, g: nat, k: nat)
    requires g > 0 && off % g + k < g
    ensures (off + k) / g == off / g && (off + k) % g == off % g + k
    ensures FrameOffset(off + k, g) == FrameOffset(off, g) + k
  {
    DivModUnique(off + k, g, off / g, off % g + k);
  }

  lemma NextFrame(off: nat, g: nat)
    requires g > 0
    ensures (off + (g - off % g)) / g == off / g + 1
  {
    assert (off / g + 1) * g == off / g * g + g;
    DivModUnique(off + (g - off % g), g, off / g + 1, 0);
  }

  lemma ByteInFrameAgrees(r: Region, access: AccessType, addr: u64, len: u64, k: nat)
    requires Gapped(r) && HostSliceValid(r) && k < len && addr + k <= U64_MAX
    requires VmToHost(r, access, addr, len).Some?
    requires addr >= r.vmAddr && (addr - r.vmAddr) % Pow2(r.gapShift) + len <= Pow2(r.gapShift)
    ensures ByteAgrees(r, access, addr, VmToHost(r, access, addr, len).value, k)
  {
    hide Pow2, VmToHost, FrameOffset;
    var g := Pow2(r.gapShift);
    GappedTranslation(r, access, addr, len);
    var off := addr - r.vmAddr;
    SameFrame(off, g, k);
    assert addr + k - r.vmAddr == off + k;
    GappedTranslation(r, access, addr + k, 1);
  }

  lemma ByteInGapDisagrees(r: Region, access: AccessType, addr: u64, host: int, k: nat)
    requires Gapped(r) && addr >= r.vmAddr && (addr - r.vmAddr) / Pow2(r.gapShift) % 2 == 0
    requires k == Pow2(r.gapShift) - (addr - r.vmAddr) % Pow2(r.gapShift)
    ensures !ByteAgrees(r, access, addr, host, k)
  {
    hide Pow2, VmToHost;
    NextFrame(addr - r.vmAddr, Pow2(r.gapShift));
    assert addr + k - r.vmAddr == addr - r.vmAddr + k;
    if addr + k <= U64_MAX { GappedTranslation(r, access, addr + k, 1); }
  }

  lemma PastAllAddresses(r: Region, access: AccessType, addr: u64, host: int, k: nat)
    requires addr + k > U64_MAX
    ensures !ByteAgrees(r, access, addr, host, k)
  {
  }

  /** A translated access of several bytes agrees with the translation of each of its bytes exactly
      when it does not run past the end of its frame or of the address space; the code checks only the
      first byte. */
  lemma AccessAgreesUnlessCrossing(r: Region, access: AccessType, addr: u64, len: u64)
    requires Gapped(r) && HostSliceValid(r) && len > 0
    requires VmToHost(r, access, addr, len).Some?
    ensures var host := VmToHost(r, access, addr, len).value;
      (forall k :: 0 <= k < len ==> ByteAgrees(r, access, addr, host, k))
      <==> (addr - r.vmAddr) % Pow2(r.gapShift) + len <= Pow2(r.gapShift) && addr + len - 1 <= U64_MAX
  {
    hide Pow2, VmToHost, ByteAgrees;
    var g := Pow2(r.gapShift);
    GappedTranslation(r, access, addr, len);
    var host := VmToHost(r, access, addr, len).value;
    var off := addr - r.vmAddr;
    if off % g + len <= g && addr + len - 1 <= U64_MAX {
      forall k | 0 <= k < len ensures ByteAgrees(r, access, addr, host, k) {
        ByteInFrameAgrees(r, access, addr, len, k);
      }
    } else if off % g + len > g {
      ByteInGapDisagrees(r, access, addr, host, g - off % g);
    } else {
      PastAllAddresses(r, access, addr, host, len - 1);
    }
  }

  lemma GuestInRange(off: nat, g: nat, bound: int)
    requires g > 0 && off / g % 2 == 0 && FrameOffset(off, g) <= bound
    ensures off <= 2 * bound
  {
    GuestOffsetFrames(FrameOffset(off, g), g);
    FrameOffsetInjective(off, g, FrameOffset(off, g));
  }

  /** Such a crossing access exists: its last byte is accepted although its address is in a gap. */
  lemma CrossingIsAccepted()
    ensures var r := Region(0x10000, 0, 8192, 12, false, None);
      && VmToHost(r, Load, 4095, 2) == Some(0x10000 + 4095)
      && VmToHost(r, Load, 4096, 1) == None
  {
    hide VmToHost, Pow2;
    var r := Region(0x10000, 0, 8192, 12, false, None);
    FrameOf4096();
    assert FrameOffset(4095, 4096) == 4095;
    GappedTranslation(r, Load, 4095, 2);
    GappedTranslation(r, Load, 4096, 1);
  }

  lemma FrameOf4096()
    ensures Pow2(12) == 4096
  {
    Pow2Values();
    hide Pow2;
    Pow2Add(8, 4);
  }
}
