/** The physical frame allocator of src/libraries/paging.c: set-up from the boot memory map, and allocation. */
module FrameAllocator {
  import opened Words
  import opened Bitmap

  const KERNEL_OFFSET: Word := 0xC000_0000

  function VirtToPhys(virt: Word): Word {
    Wrap32(virt - KERNEL_OFFSET)
  }

  /** A free region of the boot memory map, in 64-bit bytes. */
  datatype Region = Region(base: Quad, length: Quad)

  // ----- What the code computes, in its own widths

  /** First page and end page of `set_region_status`; every sum is 32 bits wide. */
  function PageBounds(base: Word, length: Word, status: bool): (nat, nat) {
    if status then (base / 4096, Wrap32(base + length + 4095) / 4096)
    else (Wrap32(base + 4095) / 4096, Wrap32(base + length) / 4096)
  }

  ghost function Span(base: Word, length: Word, status: bool): set<nat> {
    var (first, end) := PageBounds(base, length, status);
    Pages(first, end)
  }

  ghost function Pages(first: nat, end: nat): (pages: set<nat>)
    ensures forall p :: p in pages <==> first <= p < end
  {
    if end <= first then {} else Pages(first, end - 1) + {end - 1}
  }

  /** The length `setup_bitmap` passes on; the comparison is 64 bits wide, the argument 32. */
  function ClampedLength(r: Region): Word
    requires r.base < TWO_32
  {
    Wrap32(if Wrap64(r.base + r.length) > TWO_32 then TWO_32 - r.base else r.length)
  }

  ghost function FreedBy(r: Region): set<nat> {
    if r.base < TWO_32 then Span(r.base, ClampedLength(r), false) else {}
  }

  ghost function FreedByAll(regions: seq<Region>): set<nat> {
    if regions == [] then {} else FreedByAll(regions[..|regions| - 1]) + FreedBy(regions[|regions| - 1])
  }

  function ImageLength(kernelStart: Word, kernelEnd: Word): Word {
    Wrap32(VirtToPhys(kernelEnd) - VirtToPhys(kernelStart))
  }

  ghost function KernelSpan(kernelStart: Word, kernelEnd: Word): set<nat> {
    Span(VirtToPhys(kernelStart), ImageLength(kernelStart, kernelEnd), true)
  }

  ghost function SetupFree(regions: seq<Region>, kernelStart: Word, kernelEnd: Word): set<nat> {
    FreedByAll(regions) - KernelSpan(kernelStart, kernelEnd) - Span(0, 0x4000, true)
  }

  /** The first page `alloc_frame` looks at: kernel_end's page, rounded down to a whole bitmap byte. */
  function StartPage(kernelEnd: Word): nat {
    VirtToPhys(kernelEnd) / 4096 / 8 * 8
  }

  /** The lowest free page from `start` on. */
  ghost function FirstFree(free: set<nat>, start: nat): (found: Option<nat>)
    ensures found.Some? ==> found.value < TOTAL_PAGES
    decreases TOTAL_PAGES - start
  {
    if start >= TOTAL_PAGES then None
    else if start in free then Some(start)
    else FirstFree(free, start + 1)
  }

  lemma {:induction false} FirstFreeIsLowest(free: set<nat>, start: nat)
    ensures FirstFree(free, start).None? <==> forall p :: p in free && start <= p ==> p >= TOTAL_PAGES
    ensures FirstFree(free, start).Some? ==>
      var f := FirstFree(free, start).value;
      f in free && start <= f < TOTAL_PAGES && forall p :: p in free && start <= p ==> f <= p
    decreases TOTAL_PAGES - start
  {
    if start < TOTAL_PAGES && start !in free {
      FirstFreeIsLowest(free, start + 1);
    }
  }

  ghost function Taken(free: set<nat>, start: nat): set<nat> {
    match FirstFree(free, start)
    case None => free
    case Some(p) => free - {p}
  }

  /** The address `alloc_frame` returns; 0 stands for "none left". */
  ghost function Address(found: Option<nat>): nat {
    match found
    case None => 0
    case Some(p) => 4096 * p
  }

  lemma FirstFreeIs(free: set<nat>, start: nat, f: nat)
    requires f in free && start <= f < TOTAL_PAGES
    requires forall p :: p in free && start <= p ==> f <= p
    ensures FirstFree(free, start) == Some(f)
    ensures Taken(free, start) == free - {f}
    ensures Address(FirstFree(free, start)) == 4096 * f == Wrap32(f * 4096)
  {
    FirstFreeIsLowest(free, start);
  }

  // ----- The imperative allocator

  class FrameAllocator {
    const kernelStart: Word
    const kernelEnd: Word
    const bitmap: array<bv8>

    ghost predicate Valid() {
      bitmap.Length == BITMAP_SIZE
    }

    ghost function Free(): set<nat>
      requires Valid()
      reads bitmap
    {
      FreePages(bitmap[..])
    }

    ghost function Start(): nat {
      StartPage(kernelEnd)
    }

    constructor (kernelStart: Word, kernelEnd: Word)
      ensures Valid() && fresh(bitmap)
      ensures this.kernelStart == kernelStart && this.kernelEnd == kernelEnd
    {
      this.kernelStart := kernelStart;
      this.kernelEnd := kernelEnd;
      bitmap := new bv8[BITMAP_SIZE];
    }

    method SetPageStatus(page: nat, status: bool)
      requires Valid() && page < TOTAL_PAGES
      modifies bitmap
      ensures bitmap[..] == WithPage(old(bitmap[..]), page, status)
      ensures Free() == if status then old(Free()) - {page} else old(Free()) + {page}
    {
      SetPageIsSetUpdate(bitmap[..], page, status);
      var byte := page / 8;
      var bit := BitIndex(page);
      bitmap[byte] := WithBit(bitmap[byte], bit, status);
    }

    method CheckPageStatus(page: nat) returns (reserved: bool)
      requires Valid() && page < TOTAL_PAGES
      ensures reserved <==> page !in Free()
    {
      var byte := page / 8;
      var bit := BitIndex(page);
      FreePagesMember(bitmap[..], page);
      reserved := (bitmap[byte] >> bit) & 1 != 0;
    }

    method SetRegionStatus(base: Word, length: Word, status: bool)
      requires Valid()
      modifies bitmap
      ensures Free() == if status then old(Free()) - Span(base, length, status)
                                  else old(Free()) + Span(base, length, status)
    {
      var startPage, endPage;
      if status {
        startPage := base / 4096;
        endPage := Wrap32(base + length + 4095) / 4096;
      } else {
        startPage := Wrap32(base + 4095) / 4096;
        endPage := Wrap32(base + length) / 4096;
      }
      SetPages(startPage, endPage, status);
    }

    /** The loop of set_region_status. */
    method SetPages(startPage: nat, endPage: nat, status: bool)
      requires Valid() && endPage <= TOTAL_PAGES
      modifies bitmap
      ensures Free() == if status then old(Free()) - Pages(startPage, endPage)
                                  else old(Free()) + Pages(startPage, endPage)
    {
      ghost var free := Free();
      var i := startPage;
      while i < endPage
        invariant startPage <= i && (i == startPage || i <= endPage)
        invariant Free() == if status then free - Pages(startPage, i) else free + Pages(startPage, i)
      {
        SetPageStatus(i, status);
        i := i + 1;
      }
      assert Pages(startPage, i) == Pages(startPage, endPage);
    }

    /** Marks every page reserved. */
    method ReserveAll()
      requires Valid()
      modifies bitmap
      ensures Free() == {}
    {
      for i := 0 to BITMAP_SIZE
        invariant forall k :: 0 <= k < i ==> bitmap[k] == 0xFF
      {
        bitmap[i] := 0xFF;
      }
      AllOnes(bitmap[..]);
    }

    /** The body of the loop over the boot memory map. */
    method FreeRegion(region: Region)
      requires Valid()
      modifies bitmap
      ensures Free() == old(Free()) + FreedBy(region)
    {
      if region.base < TWO_32 {
        var length := region.length;
        if Wrap64(region.base + length) > TWO_32 {
          length := TWO_32 - region.base;
        }
        assert Wrap32(length) == ClampedLength(region);
        SetRegionStatus(region.base, Wrap32(length), false);
      }
    }

    /** The loop over the boot memory map. */
    method FreeRegions(regions: array<Region>, count: nat)
      requires Valid() && count <= regions.Length
      requires regions as object != bitmap // two static buffers
      modifies bitmap
      ensures Free() == old(Free()) + FreedByAll(regions[..count])
    {
      ghost var table, free := regions[..count], Free();
      for i := 0 to count
        invariant regions[..count] == table && Free() == free + FreedByAll(table[..i])
      {
        assert table[..i + 1][..i] == table[..i];
        FreeRegion(regions[i]);
      }
      assert table[..count] == table;
    }

    method SetupBitmap(regions: array<Region>, count: nat)
      requires Valid() && count <= regions.Length
      requires regions as object != bitmap
      modifies bitmap
      ensures Free() == SetupFree(regions[..count], kernelStart, kernelEnd)
    {
      ghost var table := regions[..count];
      ReserveAll();
      FreeRegions(regions, count);
      SetRegionStatus(VirtToPhys(kernelStart), ImageLength(kernelStart, kernelEnd), true);
      assert Free() == FreedByAll(table) - KernelSpan(kernelStart, kernelEnd);
      SetRegionStatus(0, 0x4000, true);
      assert regions[..count] == table;
    }

    lemma FullByte(i: nat)
      requires Valid() && i < BITMAP_SIZE
      ensures bitmap[i] == 0xFF <==> forall p :: p in Free() ==> p < 8 * i || 8 * i + 8 <= p
    {
      FullByteHoldsNoFreePage(bitmap[..], i);
      assert bitmap[..][i] == bitmap[i];
      if bitmap[i] != 0xFF {
        var p :| p in FreePages(bitmap[..]) && 8 * i <= p < 8 * i + 8;
        assert p in Free();
      } else {
        assert Free() == FreePages(bitmap[..]);
      }
    }

    method AllocFrame() returns (address: Word)
      requires Valid()
      modifies bitmap
      ensures address == Address(FirstFree(old(Free()), Start()))
      ensures Free() == Taken(old(Free()), Start())
    {
      ghost var free, start := Free(), Start();
      var startByte := VirtToPhys(kernelEnd) / 4096 / 8;
      var i := startByte;
      while i < BITMAP_SIZE
        invariant startByte <= i && (startByte <= BITMAP_SIZE ==> i <= BITMAP_SIZE)
        invariant Free() == free
        invariant forall p :: p in free && start <= p ==> 8 * i <= p
      {
        FullByte(i);
        if bitmap[i] != 0xFF {
          var j := 0;
          while j < 8
            invariant 0 <= j <= 8
            invariant Free() == free
            invariant forall p :: p in free && start <= p ==> 8 * i + j <= p
          {
            var page := j + i * 8;
            var reserved := CheckPageStatus(page);
            if !reserved {
              FirstFreeIs(free, start, page);
              SetPageStatus(page, true);
              return Wrap32(page * 4096);
            }
            j := j + 1;
          }
        }
        i := i + 1;
      }
      FirstFreeIsLowest(free, start);
      forall p | p in free ensures p < TOTAL_PAGES {
        FreePagesMember(bitmap[..], p);
      }
      return 0;
    }
  }
}
