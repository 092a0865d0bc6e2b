/** What the set-up bitmap and any run of allocations mean, in whole bytes of physical memory. */
module AllocatorProperties {
  import opened Words
  import opened Bitmap
  import opened FrameAllocator

  /** Page p lies wholly inside the region, in unbounded arithmetic. */
  ghost predicate Contains(r: Region, p: nat) {
    r.base <= 4096 * p && 4096 * p + 4096 <= r.base + r.length
  }

  ghost predicate FreesWholePages(r: Region) {
    forall p: nat :: p in FreedBy(r) <==> p < TOTAL_PAGES && Contains(r, p)
  }

  /** The regions on which no 32-bit or 64-bit sum misleads the code. */
  predicate Representable(r: Region) {
    || TWO_32 <= r.base
    || (r.base <= 0xFFFF_F000 && r.base + r.length < TWO_32)
    || (0xFFFF_F000 < r.base && TWO_32 <= r.base + r.length < TWO_64 + 4096)
  }

  lemma Wraps(x: nat)
    ensures x < TWO_32 ==> Wrap32(x) == x
    ensures TWO_32 <= x < 2 * TWO_32 ==> Wrap32(x) == x - TWO_32
    ensures x < TWO_64 ==> Wrap64(x) == x
    ensures TWO_64 <= x < 2 * TWO_64 ==> Wrap64(x) == x - TWO_64 && Wrap32(x) == Wrap32(x - TWO_64)
  {
  }

  lemma WrapAdd(a: nat, b: nat)
    ensures Wrap32(a + Wrap32(b)) == Wrap32(a + b)
  {
    var q := b / TWO_32;
    assert a + b == (a + Wrap32(b)) + q * TWO_32;
  }

  /** Where the code thinks a region ends: at 0 once it reaches 2^32, and at the wrapped end past 2^64. */
  lemma EndAddress(r: Region)
    requires r.base < TWO_32
    ensures Wrap32(r.base + ClampedLength(r))
         == if r.base + r.length < TWO_32 then r.base + r.length
            else if r.base + r.length < TWO_64 then 0
            else r.base + r.length - TWO_64
  {
    var end := r.base + r.length;
    Wraps(end);
    Wraps(r.length);
    if end < TWO_32 {
    } else if Wrap64(end) > TWO_32 {
      Wraps(TWO_32 - r.base);
    } else {
      WrapAdd(r.base, r.length);
    }
  }

  /** The pages a region frees, by its base and by where the code thinks it ends. */
  lemma FreedRange(r: Region)
    requires r.base < TWO_32
    ensures var first := if r.base <= 0xFFFF_F000 then (r.base + 4095) / 4096 else 0;
      var end := r.base + r.length;
      var seen := if end < TWO_32 then end else if end < TWO_64 then 0 else end - TWO_64;
      forall p :: p in FreedBy(r) <==> first <= p < seen / 4096
  {
    var (first, last) := PageBounds(r.base, ClampedLength(r), false);
    assert FreedBy(r) == Pages(first, last);
    assert first == if r.base <= 0xFFFF_F000 then (r.base + 4095) / 4096 else 0 by {
      RoundedUp(r.base);
    }
    assert last == Wrap32(r.base + ClampedLength(r)) / 4096;
    EndAddress(r);
  }

  lemma RoundedUp(base: Word)
    ensures Wrap32(base + 4095) / 4096 == if base <= 0xFFFF_F000 then (base + 4095) / 4096 else 0
  {
    Wraps(base + 4095);
  }

  /** A region frees exactly the pages it contains if and only if it is representable. */
  lemma RegionExactIffRepresentable(r: Region)
    ensures FreesWholePages(r) <==> Representable(r)
  {
    if r.base < TWO_32 {
      FreedRange(r);
      if Representable(r) {
      } else if r.base <= 0xFFFF_F000 {
        assert Contains(r, 0xF_FFFF);
        assert 0xF_FFFF !in FreedBy(r);
      } else {
        assert 0 in FreedBy(r);
      }
    }
  }

  /** A region frees no page but those it contains. */
  ghost predicate FreesOnlyItsOwn(r: Region) {
    forall p: nat :: p in FreedBy(r) ==> p < TOTAL_PAGES && Contains(r, p)
  }

  /** The regions that can do no harm: below the last page every wrapped end is too low, if anything. */
  predicate Harmless(r: Region) {
    r.base <= 0xFFFF_F000 || TWO_32 <= r.base || TWO_32 <= r.base + r.length < TWO_64 + 4096
  }

  /** A region frees nothing but pages it contains if and only if it is harmless. */
  lemma RegionSafeIffHarmless(r: Region)
    ensures FreesOnlyItsOwn(r) <==> Harmless(r)
  {
    if r.base < TWO_32 {
      FreedRange(r);
      if !Harmless(r) {
        assert 0 in FreedBy(r);
      }
    }
  }

  /** Two regions it gets wrong: the 64 KiB below 2^32 free nothing, and one byte near the top frees page 0. */
  lemma UnrepresentableRegions()
    ensures var top := Region(0xFFFF_0000, 0x1_0000);
      Contains(top, 0xF_FFF0) && 0xF_FFF0 !in FreedBy(top)
    ensures var byte := Region(0xFFFF_F001, 1);
      !Contains(byte, 0) && 0 in FreedBy(byte)
  {
    EndAddress(Region(0xFFFF_0000, 0x1_0000));
    EndAddress(Region(0xFFFF_F001, 1));
  }

  lemma {:induction false} FreedByAllMember(regions: seq<Region>, p: nat)
    ensures p in FreedByAll(regions) <==> exists i :: 0 <= i < |regions| && p in FreedBy(regions[i])
  {
    if regions != [] {
      FreedByAllMember(regions[..|regions| - 1], p);
    }
  }

  /** The kernel image is linked at its load address plus 0xC0000000. */
  predicate HigherHalf(kernelStart: Word, kernelEnd: Word) {
    KERNEL_OFFSET <= kernelStart <= kernelEnd
  }

  /** Page p meets the physical range [start, end) rounded outwards to whole pages. */
  predicate MeetsRoundedOut(p: nat, start: nat, end: nat) {
    start / 4096 <= p < (end + 4095) / 4096
  }

  lemma OutsideRoundedOut(p: nat, start: nat, end: nat)
    requires !MeetsRoundedOut(p, start, end)
    ensures 4096 * p + 4096 <= start || end <= 4096 * p
  {
  }

  lemma KernelSpanExact(kernelStart: Word, kernelEnd: Word, p: nat)
    requires HigherHalf(kernelStart, kernelEnd)
    ensures p in KernelSpan(kernelStart, kernelEnd)
       <==> MeetsRoundedOut(p, kernelStart - KERNEL_OFFSET, kernelEnd - KERNEL_OFFSET)
  {
    var start: int, end: int := kernelStart - KERNEL_OFFSET, kernelEnd - KERNEL_OFFSET;
    assert VirtToPhys(kernelStart) == start && VirtToPhys(kernelEnd) == end;
    assert Wrap32(end - start) == end - start;
    assert Wrap32(start + (end - start) + 4095) == end + 4095;
  }

  /** setup_bitmap is exact: for any number and overlap of representable regions, a page is free if and only
      if one region contains it whole, it does not meet the kernel, and it is not in the lowest 16 KiB. */
  lemma SetupExact(regions: seq<Region>, kernelStart: Word, kernelEnd: Word, p: nat)
    requires HigherHalf(kernelStart, kernelEnd)
    requires forall i :: 0 <= i < |regions| ==> Representable(regions[i])
    ensures p in SetupFree(regions, kernelStart, kernelEnd)
       <==> && p < TOTAL_PAGES
            && (exists i :: 0 <= i < |regions| && Contains(regions[i], p))
            && !MeetsRoundedOut(p, kernelStart - KERNEL_OFFSET, kernelEnd - KERNEL_OFFSET)
            && 4 <= p
  {
    FreedByAllMember(regions, p);
    KernelSpanExact(kernelStart, kernelEnd, p);
    forall i | 0 <= i < |regions|
      ensures p in FreedBy(regions[i]) <==> p < TOTAL_PAGES && Contains(regions[i], p)
    {
      RegionExactIffRepresentable(regions[i]);
    }
    assert Span(0, 0x4000, true) == Pages(0, 4);
  }

  /** Safety needs less than exactness: with harmless regions every free page lies whole in one of them, does not meet
      the kernel, and is not in the lowest 16 KiB. */
  lemma SetupSafe(regions: seq<Region>, kernelStart: Word, kernelEnd: Word, p: nat)
    requires HigherHalf(kernelStart, kernelEnd)
    requires forall i :: 0 <= i < |regions| ==> Harmless(regions[i])
    requires p in SetupFree(regions, kernelStart, kernelEnd)
    ensures exists i :: 0 <= i < |regions| && Contains(regions[i], p)
    ensures !MeetsRoundedOut(p, kernelStart - KERNEL_OFFSET, kernelEnd - KERNEL_OFFSET) && 4 <= p < TOTAL_PAGES
  {
    FreeIsHarmless(regions, kernelStart, kernelEnd, p);
    KernelSpanExact(kernelStart, kernelEnd, p);
  }

  /** Whatever the kernel's range, a free page lies in a region and not in the lowest 16 KiB. */
  lemma FreeIsHarmless(regions: seq<Region>, kernelStart: Word, kernelEnd: Word, p: nat)
    requires forall i :: 0 <= i < |regions| ==> Harmless(regions[i])
    requires p in SetupFree(regions, kernelStart, kernelEnd)
    ensures exists i :: 0 <= i < |regions| && Contains(regions[i], p)
    ensures 4 <= p < TOTAL_PAGES
  {
    FreedByAllMember(regions, p);
    var i :| 0 <= i < |regions| && p in FreedBy(regions[i]);
    RegionSafeIffHarmless(regions[i]);
    assert Contains(regions[i], p);
    assert Span(0, 0x4000, true) == Pages(0, 4);
  }

  /** linker.ld defines kernel_start before it adds the offset; with that value the kernel range is empty. */
  const LINKER_KERNEL_START: Word := 0x10_0000

  lemma LinkerValueReservesNothing(kernelEnd: Word)
    requires KERNEL_OFFSET <= kernelEnd
    ensures LINKER_KERNEL_START == 0x10_0000 && KernelSpan(0x10_0000, kernelEnd) == {}
  {
    var start: int, end: int := VirtToPhys(LINKER_KERNEL_START), VirtToPhys(kernelEnd);
    assert start == 0x4010_0000 && end == kernelEnd - KERNEL_OFFSET < 0x4000_0000;
    var length: int := Wrap32(end - start);
    assert length == TWO_32 + end - start;
    assert Wrap32(start + length + 4095) == end + 4095;
  }

  /** The frame the first allocation finds after set-up. */
  ghost function FirstFrame(regions: seq<Region>, kernelStart: Word, kernelEnd: Word): Option<nat> {
    FirstFree(SetupFree(regions, kernelStart, kernelEnd), StartPage(kernelEnd))
  }

  /** No frame below the end of the kernel image is ever found, whatever the boot map says. */
  ghost predicate ImageKept(kernelStart: Word, kernelEnd: Word) {
    forall regions: seq<Region> ::
      FirstFrame(regions, kernelStart, kernelEnd).Some? ==>
        VirtToPhys(kernelEnd) <= 4096 * FirstFrame(regions, kernelStart, kernelEnd).value
  }

  lemma StartPageBounds(kernelEnd: Word)
    requires KERNEL_OFFSET <= kernelEnd
    ensures VirtToPhys(kernelEnd) == kernelEnd - KERNEL_OFFSET
    ensures 4096 * StartPage(kernelEnd) <= VirtToPhys(kernelEnd) < 0x4000_0000
    ensures 4096 * StartPage(kernelEnd) == VirtToPhys(kernelEnd) <==> kernelEnd % 0x8000 == 0
    ensures KERNEL_OFFSET + 0x10_0000 <= kernelEnd ==> 256 <= StartPage(kernelEnd) < 0x4_0000
  {
  }

  const LOW_GIGABYTE: Region := Region(0x10_0000, 0x3FF0_0000)

  lemma LowGigabyteIsFree(kernelEnd: Word, p: nat)
    requires KERNEL_OFFSET <= kernelEnd && 256 <= p < 0x4_0000
    ensures p in SetupFree([LOW_GIGABYTE], LINKER_KERNEL_START, kernelEnd)
  {
    LinkerValueReservesNothing(kernelEnd);
    FreedByAllMember([LOW_GIGABYTE], p);
    RegionExactIffRepresentable(LOW_GIGABYTE);
    assert Contains(LOW_GIGABYTE, p);
    assert Span(0, 0x4000, true) == Pages(0, 4);
  }

  /** With the linker's value the image is kept exactly when the kernel happens to end on a 32 KiB boundary:
      only the start index of the search protects it, and that is rounded down to eight pages. */
  lemma LinkerValueKeepsImageIff(kernelEnd: Word)
    requires KERNEL_OFFSET + 0x10_0000 <= kernelEnd
    ensures ImageKept(LINKER_KERNEL_START, kernelEnd) <==> kernelEnd % 0x8000 == 0
  {
    StartPageBounds(kernelEnd);
    if kernelEnd % 0x8000 == 0 {
      forall regions: seq<Region> | FirstFrame(regions, LINKER_KERNEL_START, kernelEnd).Some?
        ensures VirtToPhys(kernelEnd) <= 4096 * FirstFrame(regions, LINKER_KERNEL_START, kernelEnd).value
      {
        FirstFreeIsLowest(SetupFree(regions, LINKER_KERNEL_START, kernelEnd), StartPage(kernelEnd));
      }
    } else {
      var start := StartPage(kernelEnd);
      LowGigabyteIsFree(kernelEnd, start);
      FirstFreeIs(SetupFree([LOW_GIGABYTE], LINKER_KERNEL_START, kernelEnd), start, start);
      assert FirstFrame([LOW_GIGABYTE], LINKER_KERNEL_START, kernelEnd) == Some(start);
    }
  }

  /** A boot map with exactly 384 free pages above a kernel that ends at 2 MiB. */
  const SMALL_MEMORY: Region := Region(0x20_0000, 0x18_0000)
  const SMALL_KERNEL_END: Word := 0xC020_0000

  lemma SmallMemoryIsFree(p: nat)
    ensures p in SetupFree([SMALL_MEMORY], LINKER_KERNEL_START, SMALL_KERNEL_END) <==> 512 <= p < 896
  {
    LinkerValueReservesNothing(SMALL_KERNEL_END);
    FreedByAllMember([SMALL_MEMORY], p);
    RegionExactIffRepresentable(SMALL_MEMORY);
    assert [SMALL_MEMORY][0] == SMALL_MEMORY;
    assert Contains(SMALL_MEMORY, p) <==> 512 <= p < 896;
    assert Span(0, 0x4000, true) == Pages(0, 4);
  }

  lemma SmallMemoryStart()
    ensures StartPage(SMALL_KERNEL_END) == 512
  {
  }

  /** For instance, a kernel that ends at 0xC0101000 gives away its own first page. */
  lemma LinkerValueExample()
    ensures FirstFrame([LOW_GIGABYTE], LINKER_KERNEL_START, 0xC010_1000) == Some(0x100)
  {
    assert StartPage(0xC010_1000) == 0x100;
    LowGigabyteIsFree(0xC010_1000, 0x100);
    FirstFreeIs(SetupFree([LOW_GIGABYTE], LINKER_KERNEL_START, 0xC010_1000), 0x100, 0x100);
  }

  // ----- Runs of alloc_frame

  /** The free pages left after n calls. */
  ghost function Remaining(free: set<nat>, start: nat, n: nat): set<nat> {
    if n == 0 then free else Taken(Remaining(free, start, n - 1), start)
  }

  /** What call number k (from 0) finds. */
  ghost function Found(free: set<nat>, start: nat, k: nat): Option<nat> {
    FirstFree(Remaining(free, start, k), start)
  }

  /** The pages allocation can ever hand out. */
  ghost function Pool(free: set<nat>, start: nat): set<nat> {
    set p | p in free && start <= p < TOTAL_PAGES
  }

  /** Free plus handed out is conserved: call k succeeds exactly while k is below the size of the pool,
      and each success takes one page out of it. */
  lemma {:induction false} RunConserves(free: set<nat>, start: nat, n: nat)
    ensures Remaining(free, start, n) <= free
    ensures |Pool(Remaining(free, start, n), start)| == if n <= |Pool(free, start)| then |Pool(free, start)| - n else 0
    ensures Found(free, start, n).Some? <==> n < |Pool(free, start)|
    ensures Found(free, start, n).Some? ==> Found(free, start, n).value in Pool(free, start)
  {
    var now := Remaining(free, start, n);
    FirstFreeIsLowest(now, start);
    if n > 0 {
      var before := Remaining(free, start, n - 1);
      RunConserves(free, start, n - 1);
      FirstFreeIsLowest(before, start);
      if FirstFree(before, start).Some? {
        assert Pool(now, start) == Pool(before, start) - {FirstFree(before, start).value};
      }
    }
    if FirstFree(now, start).Some? {
      assert FirstFree(now, start).value in Pool(now, start);
    } else {
      assert Pool(now, start) == {};
    }
  }

  /** Results strictly increase until the first failure, and nothing succeeds after it. */
  lemma {:induction false} RunIncreases(free: set<nat>, start: nat, i: nat, j: nat)
    requires i < j && Found(free, start, j).Some?
    ensures Found(free, start, i).Some? && Found(free, start, i).value < Found(free, start, j).value
    ensures Found(free, start, j).value !in Remaining(free, start, j + 1)
    decreases j
  {
    var before, now := Remaining(free, start, j - 1), Remaining(free, start, j);
    FirstFreeIsLowest(before, start);
    FirstFreeIsLowest(now, start);
    if i < j - 1 {
      RunIncreases(free, start, i, j - 1);
    }
  }

  /** Only the pool matters: a run finds the same pages in it, and leaves its pool. */
  lemma {:induction false} RunInPool(free: set<nat>, start: nat, n: nat)
    ensures Remaining(Pool(free, start), start, n) == Pool(Remaining(free, start, n), start)
    ensures Found(Pool(free, start), start, n) == Found(free, start, n)
  {
    if n > 0 {
      RunInPool(free, start, n - 1);
      CallInPool(Remaining(free, start, n - 1), start);
    }
    CallInPool(Remaining(free, start, n), start);
  }

  lemma CallInPool(free: set<nat>, start: nat)
    ensures FirstFree(Pool(free, start), start) == FirstFree(free, start)
    ensures Taken(Pool(free, start), start) == Pool(Taken(free, start), start)
  {
    FirstFreeIsLowest(free, start);
    FirstFreeIsLowest(Pool(free, start), start);
    match FirstFree(free, start)
    case Some(p) =>
      FirstFreeIs(Pool(free, start), start, p);
      assert Pool(free - {p}, start) == Pool(free, start) - {p};
    case None =>
      assert Taken(free, start) == free && Pool(free, start) == {};
  }

  /** The free pages from the start page on that lie below `end`. */
  ghost function FreeBetween(free: set<nat>, start: nat, end: nat): set<nat> {
    set p | p in free && start <= p < end
  }

  /** How far a run gets: call k finds a page below `end` if and only if more than k of them were free. */
  lemma {:induction false} RunBelow(free: set<nat>, start: nat, end: nat, n: nat)
    requires end <= TOTAL_PAGES
    ensures var all := |FreeBetween(free, start, end)|;
      && |FreeBetween(Remaining(free, start, n), start, end)| == (if n <= all then all - n else 0)
      && (Found(free, start, n).Some? && Found(free, start, n).value < end <==> n < all)
  {
    if n > 0 {
      RunBelow(free, start, end, n - 1);
      OneBelow(Remaining(free, start, n - 1), start, end);
    }
    OneBelow(Remaining(free, start, n), start, end);
  }

  lemma OneBelow(free: set<nat>, start: nat, end: nat)
    requires end <= TOTAL_PAGES
    ensures var all := FreeBetween(free, start, end);
      && (FirstFree(free, start).Some? && FirstFree(free, start).value < end <==> all != {})
      && |FreeBetween(Taken(free, start), start, end)| == if all == {} then 0 else |all| - 1
  {
    FirstFreeIsLowest(free, start);
    var all, after := FreeBetween(free, start, end), FreeBetween(Taken(free, start), start, end);
    match FirstFree(free, start)
    case None =>
      assert all == {} && after == {};
    case Some(p) =>
      if p < end {
        assert p in all && after == all - {p};
      } else {
        assert all == {} && after == {};
      }
  }

  /** On a stretch of free pages call k finds the k-th. */
  lemma {:induction false} RunOnStretch(free: set<nat>, start: nat, end: nat, k: nat)
    requires end <= TOTAL_PAGES && start + k < end && forall p :: start <= p < end ==> p in free
    ensures Found(free, start, k) == Some(start + k)
    ensures forall p :: start + k <= p < end ==> p in Remaining(free, start, k)
    ensures forall p :: p in Remaining(free, start, k) && start <= p ==> start + k <= p
  {
    var f: nat := start + k;
    if k > 0 {
      RunOnStretch(free, start, end, k - 1);
      assert Remaining(free, start, k) == Remaining(free, start, k - 1) - {f - 1};
    }
    FirstFreeIs(Remaining(free, start, k), start, f);
  }

  /** A stretch that is all there is, is used up by as many calls. */
  lemma StretchUsedUp(free: set<nat>, start: nat, end: nat, n: nat)
    requires start < end <= TOTAL_PAGES && n == end - start && forall p :: p in free <==> start <= p < end
    ensures FirstFree(Remaining(free, start, n), start).None?
  {
    var before := Remaining(free, start, n - 1);
    RunOnStretch(free, start, end, n - 1);
    RunConserves(free, start, n - 1);
    assert Remaining(free, start, n) == before - {end - 1};
    FirstFreeIsLowest(Remaining(free, start, n), start);
  }

  /** From the boot map to a frame: whatever page call k takes after set-up lies wholly in one available
      region, outside the kernel image and at or above 16 KiB, so its address is not 0. */
  lemma BootFrameIsSafe(regions: seq<Region>, kernelStart: Word, kernelEnd: Word, k: nat, p: nat)
    requires HigherHalf(kernelStart, kernelEnd)
    requires forall i :: 0 <= i < |regions| ==> Harmless(regions[i])
    requires Found(SetupFree(regions, kernelStart, kernelEnd), StartPage(kernelEnd), k) == Some(p)
    ensures exists i :: 0 <= i < |regions| && Contains(regions[i], p)
    ensures 4096 * p + 4096 <= kernelStart - KERNEL_OFFSET || kernelEnd - KERNEL_OFFSET <= 4096 * p
    ensures 4 <= p < TOTAL_PAGES
  {
    var free, start := SetupFree(regions, kernelStart, kernelEnd), StartPage(kernelEnd);
    RunConserves(free, start, k);
    SetupSafe(regions, kernelStart, kernelEnd, p);
    OutsideRoundedOut(p, kernelStart - KERNEL_OFFSET, kernelEnd - KERNEL_OFFSET);
  }

  /** The same for the machine as linked, where nothing but the start page protects the image: every page lies in one
      region and in or above the 32 KiB block the image ends in, hence above the image if that ends on such a block. */
  lemma LinkedFrameIsSafe(regions: seq<Region>, kernelEnd: Word, k: nat, p: nat)
    requires KERNEL_OFFSET <= kernelEnd && forall i :: 0 <= i < |regions| ==> Harmless(regions[i])
    requires Found(SetupFree(regions, LINKER_KERNEL_START, kernelEnd), StartPage(kernelEnd), k) == Some(p)
    ensures exists i :: 0 <= i < |regions| && Contains(regions[i], p)
    ensures (kernelEnd - KERNEL_OFFSET) / 0x8000 * 0x8000 <= 4096 * p
    ensures kernelEnd % 0x8000 == 0 ==> kernelEnd - KERNEL_OFFSET <= 4096 * p
    ensures 4 <= p < TOTAL_PAGES
  {
    FoundFromStart(SetupFree(regions, LINKER_KERNEL_START, kernelEnd), kernelEnd, k, p);
    FreeIsHarmless(regions, LINKER_KERNEL_START, kernelEnd, p);
  }

  lemma FoundFromStart(free: set<nat>, kernelEnd: Word, k: nat, p: nat)
    requires KERNEL_OFFSET <= kernelEnd && Found(free, StartPage(kernelEnd), k) == Some(p)
    ensures p in free && (kernelEnd - KERNEL_OFFSET) / 0x8000 * 0x8000 <= 4096 * p
    ensures kernelEnd % 0x8000 == 0 ==> kernelEnd - KERNEL_OFFSET <= 4096 * p
  {
    RunConserves(free, StartPage(kernelEnd), k);
    StartBlock(kernelEnd);
  }

  lemma StartBlock(kernelEnd: Word)
    requires KERNEL_OFFSET <= kernelEnd
    ensures 4096 * StartPage(kernelEnd) == (kernelEnd - KERNEL_OFFSET) / 0x8000 * 0x8000
    ensures kernelEnd % 0x8000 == 0 ==> 4096 * StartPage(kernelEnd) == kernelEnd - KERNEL_OFFSET
  {
    var end: nat := kernelEnd - KERNEL_OFFSET;
    assert VirtToPhys(kernelEnd) == end;
    EightPages(end);
  }

  lemma EightPages(x: nat)
    ensures x / 4096 / 8 == x / 0x8000
  {
    var q, r := x / 0x8000, x % 0x8000;
    assert x == 4096 * (8 * q) + r && x / 4096 == 8 * q + r / 4096;
  }
}
