/** `map_page` and `setup_paging` as they run: every access to a table or to the directory is a store to a kernel
    virtual address, translated by the tables under construction. */
module Paging {
  import opened Words
  import opened FrameAllocator
  import opened AllocatorProperties
  import opened Mmu
  import opened PageMapping
  import opened Execution
  import opened SetupPaging

  /** Where `frame address + KERNEL_OFFSET + 4 * i` lands. */
  lemma WindowAddress(f: nat, i: nat)
    requires f < FRAMES && i < 1024
    ensures var va := Wrap32(4096 * f + KERNEL_OFFSET) + 4 * i;
      va < TWO_32 && va / 4096 == WindowPage(f) && va % 4 == 0 && va % 4096 / 4 == i
  {
    assert Wrap32(4096 * f + KERNEL_OFFSET) == 4096 * WindowPage(f);
  }

  /** `(pde & ~0xFFF) + KERNEL_OFFSET` */
  lemma TableAddress(pde: Word)
    ensures Wrap32(pde / 4096 * 4096 + KERNEL_OFFSET) == Wrap32(4096 * FrameOf(pde) + KERNEL_OFFSET)
  {
  }

  /** The shifts of map_page pick the directory slot and the table entry of the page. */
  lemma DecodedIndices(virt: Word, phys: Word, flags: Word)
    ensures var r := Decode(virt, phys, flags); virt / 0x40_0000 == Slot(r) && virt / 0x1000 % 1024 == r.vpn % 1024
  {
  }

  lemma WindowToPhysical(f: nat)
    requires f < WINDOW_FRAMES
    ensures Wrap32(Wrap32(4096 * f + KERNEL_OFFSET) - KERNEL_OFFSET) == 4096 * f
  {
    assert Wrap32(4096 * f + KERNEL_OFFSET) == 4096 * f + KERNEL_OFFSET;
  }

  /** A table address or-ed with its directory flags. */
  lemma DirectoryOr(f: nat, user: bool)
    requires f < FRAMES
    ensures Or32(4096 * f, if user then 7 else 3) == EntryFor(f, user)
  {
    AlignedOr(4096 * f, if user then 7 else 3);
  }

  /** Changing frames that are neither the directory nor a table moves no page. */
  lemma UnusedFramesInvisible(m: Memory, m1: Memory, dir: nat, v: nat)
    requires dir < FRAMES && v < SELF_MAP && m1[dir] == m[dir]
    requires forall pd :: 0 <= pd < 1023 && Present(m[dir][pd]) ==> m1[FrameOf(m[dir][pd])] == m[FrameOf(m[dir][pd])]
    ensures Entry(m1, dir, v) == Entry(m, dir, v) && StoreTarget(m1, dir, v) == StoreTarget(m, dir, v)
  {
    assert v / 1024 < 1023;
  }

  /** A window slot that still has its old table, untouched, reaches what it did. */
  lemma OldTableReaches(m0: Memory, m: Memory, dir: nat, f: nat)
    requires dir < FRAMES && f < WINDOW_FRAMES && Reaches(m0, dir, f)
    requires var pde := m0[dir][WindowSlot(f)]; m[dir][WindowSlot(f)] == pde && m[FrameOf(pde)] == m0[FrameOf(pde)]
    ensures Reaches(m, dir, f)
  {
  }

  /** The addresses of the tables, kernel tables first. */
  ghost predicate Pointers(kernelPt: seq<Word>, userPt: seq<Word>, t: seq<nat>) {
    && |t| == TABLES && |kernelPt| == KERNEL_TABLES && |userPt| == USER_TABLES
    && (forall j :: 0 <= j < KERNEL_TABLES ==> kernelPt[j] == 4096 * t[j])
    && (forall j :: 0 <= j < USER_TABLES ==> userPt[j] == 4096 * t[KERNEL_TABLES + j])
  }

  /** No result is the boot directory or a table of the boot mapping. */
  lemma TablesApart(m: Memory, free: set<nat>, dir: nat, start: nat, t: seq<nat>)
    requires BootDirectory(m, free, dir) && AllocatedTables(free, start, t)
    ensures dir !in t && forall pd :: 0 <= pd < 1023 && Present(m[dir][pd]) ==> FrameOf(m[dir][pd]) !in t
  {
    TablesAreFresh(free, start, t);
  }

  class Pager {
    const mmu: Mmu
    const frames: FrameAllocator
    const pageDirectory: Word

    ghost predicate Valid()
      reads mmu, mmu.ram
    {
      && mmu.Valid() && frames.Valid() && mmu.ram as object != frames.bitmap
      && mmu.directory < WINDOW_FRAMES && pageDirectory == Wrap32(4096 * mmu.directory + KERNEL_OFFSET)
    }

    constructor (mmu: Mmu, frames: FrameAllocator, pageDirectory: Word)
      ensures this.mmu == mmu && this.frames == frames && this.pageDirectory == pageDirectory
    {
      this.mmu := mmu;
      this.frames := frames;
      this.pageDirectory := pageDirectory;
    }

    /** Physical memory and the pages allocation can still hand out. */
    ghost function State(): Kernel
      requires Valid()
      reads mmu, mmu.ram, frames.bitmap
    {
      Kernel(mmu.memory, Pool(frames.Free(), frames.Start()))
    }

    /** `pointer[i] = w`, for a pointer made from the address of frame f, wherever the store lands. */
    method StoreAt(pointer: Word, i: nat, w: Word, ghost f: nat)
      requires Valid() && i < 1024 && f < FRAMES && pointer == Wrap32(4096 * f + KERNEL_OFFSET)
      requires StoreThrough(mmu.memory, mmu.directory, WindowPage(f), i, w).Some?
      modifies mmu`memory, mmu.ram
      ensures Valid() && Some(mmu.memory) == StoreThrough(old(mmu.memory), mmu.directory, WindowPage(f), i, w)
    {
      WindowAddress(f, i);
      mmu.Store(pointer + 4 * i, w);
    }

    /** The same for a frame in view. */
    method StoreWord(pointer: Word, i: nat, w: Word, ghost f: nat)
      requires Valid() && i < 1024 && f < WINDOW_FRAMES && pointer == Wrap32(4096 * f + KERNEL_OFFSET)
      requires Reaches(mmu.memory, mmu.directory, f)
      modifies mmu`memory, mmu.ram
      ensures Valid() && mmu.memory == Write(old(mmu.memory), f, i, w)
    {
      StoreAt(pointer, i, w, f);
    }

    method LoadDirectory(pd: nat) returns (pde: Word)
      requires Valid() && pd < 1024
      requires LoadThrough(mmu.memory, mmu.directory, WindowPage(mmu.directory), pd).Some?
      ensures Some(pde) == LoadThrough(mmu.memory, mmu.directory, WindowPage(mmu.directory), pd)
    {
      WindowAddress(mmu.directory, pd);
      pde := mmu.Load(pageDirectory + 4 * pd);
    }

    /** map_page, whenever no access of it faults. */
    method MapPage(virt: Word, phys: Word, flags: Word)
      requires Valid() && Executed(State(), mmu.directory, frames.Start(), Decode(virt, phys, flags)).Some?
      modifies mmu`memory, mmu.ram, frames.bitmap
      ensures Valid()
      ensures Some(State()) == Executed(old(State()), mmu.directory, frames.Start(), Decode(virt, phys, flags))
    {
      ghost var r := Decode(virt, phys, flags);
      var pdIndex := virt / 0x40_0000;
      var ptIndex := virt / 0x1000 % 1024;
      DecodedIndices(virt, phys, flags);
      EnsureTable(pdIndex, flags, r);
      StoreEntry(pdIndex, ptIndex, Or32(phys, flags), r);
    }

    /** The second half: the word goes to the table the slot reads as having. */
    method StoreEntry(pdIndex: nat, ptIndex: nat, w: Word, ghost r: Request)
      requires Valid() && EntryStep(State(), mmu.directory, r).Some?
      requires pdIndex == Slot(r) && ptIndex == r.vpn % 1024 && w == r.pte
      modifies mmu`memory, mmu.ram
      ensures Valid() && Some(State()) == EntryStep(old(State()), mmu.directory, r)
    {
      var pde := LoadDirectory(pdIndex);
      TableAddress(pde);
      StoreAt(Wrap32(pde / 4096 * 4096 + KERNEL_OFFSET), ptIndex, w, FrameOf(pde));
    }

    /** The first half of map_page: a slot that reads as absent gets a table. */
    method EnsureTable(pdIndex: nat, flags: Word, ghost r: Request)
      requires Valid() && TableStep(State(), mmu.directory, frames.Start(), r).Some?
      requires pdIndex == Slot(r) && r.user == (flags / 4 % 2 == 1)
      modifies mmu`memory, mmu.ram, frames.bitmap
      ensures Valid() && Some(State()) == TableStep(old(State()), mmu.directory, frames.Start(), r)
    {
      var pde := LoadDirectory(pdIndex);
      if !Present(pde) {
        LinkNewTable(pdIndex, flags, r);
      }
    }

    method LinkNewTable(pdIndex: nat, flags: Word, ghost r: Request)
      requires Valid() && NewTableStep(State(), mmu.directory, frames.Start(), r).Some?
      requires pdIndex == Slot(r) && r.user == (flags / 4 % 2 == 1)
      modifies mmu`memory, mmu.ram, frames.bitmap
      ensures Valid() && Some(State()) == NewTableStep(old(State()), mmu.directory, frames.Start(), r)
    {
      ghost var f := NewTable(State().free, frames.Start());
      CallInPool(frames.Free(), frames.Start());
      var ptAddr := frames.AllocFrame();
      assert ptAddr == 4096 * f;
      ClearTable(Wrap32(ptAddr + KERNEL_OFFSET), f);
      var pdFlags := if flags / 4 % 2 == 1 then 7 else 3;
      DirectoryOr(f, r.user);
      StoreAt(pageDirectory, pdIndex, Or32(ptAddr, pdFlags), mmu.directory);
    }

    /** The clearing loop of map_page. */
    method ClearTable(pt: Word, ghost f: nat)
      requires Valid() && f < FRAMES && pt == Wrap32(4096 * f + KERNEL_OFFSET)
      requires Cleared(mmu.memory, mmu.directory, WindowPage(f), WORDS).Some?
      modifies mmu`memory, mmu.ram
      ensures Valid() && Some(mmu.memory) == Cleared(old(mmu.memory), mmu.directory, WindowPage(f), WORDS)
    {
      ghost var m, v := mmu.memory, WindowPage(f);
      for i := 0 to WORDS
        invariant Valid() && Some(mmu.memory) == Cleared(m, mmu.directory, v, i)
      {
        ClearedNext(m, mmu.memory, mmu.directory, v, i);
        StoreAt(pt, i, 0, f);
      }
    }

    // ----- setup_paging

    /** One of the two allocation loops, for the results from number `done` on. */
    method AllocTables(count: nat, ghost free: set<nat>, ghost done: nat, ghost t: seq<nat>) returns (tables: seq<Word>)
      requires Valid() && frames.Free() == Remaining(free, frames.Start(), done)
      requires AllocatedTables(free, frames.Start(), t) && done + count <= TABLES
      modifies frames.bitmap
      ensures Valid() && frames.Free() == Remaining(free, frames.Start(), done + count)
      ensures |tables| == count && forall j :: 0 <= j < count ==> tables[j] == 4096 * t[done + j]
    {
      tables := [];
      for i := 0 to count
        invariant Valid() && frames.Free() == Remaining(free, frames.Start(), done + i)
        invariant |tables| == i && forall j :: 0 <= j < i ==> tables[j] == 4096 * t[done + j]
      {
        var address := frames.AllocFrame();
        assert address == Address(Found(free, frames.Start(), done + i)) == 4096 * t[done + i];
        assert frames.Free() == Remaining(free, frames.Start(), done + i + 1);
        tables := tables + [address];
      }
    }

    /** The tables being filled are seen through the boot mapping, which none of the stores touches. */
    ghost predicate Filling(m0: Memory, t: seq<nat>)
      requires Valid()
      reads mmu, mmu.ram
    {
      && FrameList(t) && SameOutside(m0, mmu.memory, t)
      && (forall j, k :: 0 <= j < k < TABLES ==> t[j] != t[k])
      && mmu.directory !in t
      && (forall pd :: 0 <= pd < 1023 && Present(m0[mmu.directory][pd]) ==> FrameOf(m0[mmu.directory][pd]) !in t)
      && (forall k :: 0 <= k < TABLES ==> t[k] < WINDOW_FRAMES && Reaches(m0, mmu.directory, t[k]))
    }

    /** Row i of the first n tables is done. */
    ghost predicate RowFilled(m: Memory, t: seq<nat>, i: nat, n: nat)
      requires FrameList(t) && i < 1024 && n <= TABLES
    {
      forall k :: 0 <= k < n ==> m[t[k]][i] == TableWord(k, i)
    }

    ghost predicate RowsFilled(m: Memory, t: seq<nat>, rows: nat)
      requires FrameList(t) && rows <= 1024
    {
      forall k, i :: 0 <= k < TABLES && 0 <= i < rows ==> m[t[k]][i] == TableWord(k, i)
    }

    /** Entry i of table k: `table[i] = address | flags`. */
    method FillEntry(pointer: Word, k: nat, i: nat, w: Word, ghost m0: Memory, ghost t: seq<nat>)
      requires Valid() && Filling(m0, t) && k < TABLES && i < 1024 && w == TableWord(k, i)
      requires pointer == Wrap32(4096 * t[k] + KERNEL_OFFSET)
      requires RowsFilled(mmu.memory, t, i) && RowFilled(mmu.memory, t, i, k)
      modifies mmu`memory, mmu.ram
      ensures Valid() && Filling(m0, t)
      ensures RowsFilled(mmu.memory, t, i) && RowFilled(mmu.memory, t, i, k + 1)
    {
      UnusedFramesInvisible(m0, mmu.memory, mmu.directory, WINDOW_BASE + t[k]);
      StoreWord(pointer, i, w, t[k]);
    }

    method FillKernelRow(kernelPt: seq<Word>, i: nat, ghost m0: Memory, ghost t: seq<nat>)
      requires Valid() && Filling(m0, t) && i < 1024 && RowsFilled(mmu.memory, t, i)
      requires |kernelPt| == KERNEL_TABLES && forall j :: 0 <= j < KERNEL_TABLES ==> kernelPt[j] == 4096 * t[j]
      modifies mmu`memory, mmu.ram
      ensures Valid() && Filling(m0, t) && RowsFilled(mmu.memory, t, i) && RowFilled(mmu.memory, t, i, KERNEL_TABLES)
    {
      for j := 0 to KERNEL_TABLES
        invariant Valid() && Filling(m0, t) && RowsFilled(mmu.memory, t, i) && RowFilled(mmu.memory, t, i, j)
      {
        AlignedOr(j * 0x40_0000 + i * 0x1000, 3);
        FillEntry(Wrap32(kernelPt[j] + KERNEL_OFFSET), j, i, Or32(j * 0x40_0000 + i * 0x1000, 3), m0, t);
      }
    }

    method FillUserRow(userPt: seq<Word>, i: nat, ghost m0: Memory, ghost t: seq<nat>)
      requires Valid() && Filling(m0, t) && i < 1024
      requires RowsFilled(mmu.memory, t, i) && RowFilled(mmu.memory, t, i, KERNEL_TABLES)
      requires |userPt| == USER_TABLES && forall j :: 0 <= j < USER_TABLES ==> userPt[j] == 4096 * t[KERNEL_TABLES + j]
      modifies mmu`memory, mmu.ram
      ensures Valid() && Filling(m0, t) && RowsFilled(mmu.memory, t, i + 1)
    {
      for j := 0 to USER_TABLES
        invariant Valid() && Filling(m0, t) && RowsFilled(mmu.memory, t, i)
        invariant RowFilled(mmu.memory, t, i, KERNEL_TABLES + j)
      {
        AlignedOr((j + 1) * 0x40_0000 + i * 0x1000, 7);
        FillEntry(Wrap32(userPt[j] + KERNEL_OFFSET), KERNEL_TABLES + j, i,
                  Or32((j + 1) * 0x40_0000 + i * 0x1000, 7), m0, t);
      }
    }

    /** The interleaved loops: row i of every kernel table, then row i of every user table. */
    method FillTables(kernelPt: seq<Word>, userPt: seq<Word>, ghost m0: Memory, ghost t: seq<nat>)
      requires Valid() && Filling(m0, t) && Pointers(kernelPt, userPt, t)
      modifies mmu`memory, mmu.ram
      ensures Valid() && Filling(m0, t) && Filled(mmu.memory, t)
    {
      for i := 0 to 1024
        invariant Valid() && Filling(m0, t) && RowsFilled(mmu.memory, t, i)
      {
        FillKernelRow(kernelPt, i, m0, t);
        FillUserRow(userPt, i, m0, t);
      }
    }

    /** Directory slot pd after the first n of the 384 linking stores: 256 user slots, then 128 kernel slots. */
    ghost function LinkedSlot(m0: Memory, t: seq<nat>, n: nat, pd: nat): Word
      requires mmu.directory < FRAMES && FrameList(t) && pd < 1024
      reads mmu
    {
      if 1 <= pd <= USER_TABLES && pd - 1 < n then EntryFor(t[KERNEL_TABLES + pd - 1], true)
      else if 768 <= pd < 768 + KERNEL_TABLES && USER_TABLES + pd - 768 < n then EntryFor(t[pd - 768], false)
      else m0[mmu.directory][pd]
    }

    ghost predicate Linking(m0: Memory, t: seq<nat>, n: nat)
      requires Valid()
      reads mmu, mmu.ram
    {
      && FrameList(t) && Filled(mmu.memory, t) && mmu.directory !in t
      && (forall g :: 0 <= g < FRAMES && g !in t && g != mmu.directory ==> mmu.memory[g] == m0[g])
      && (forall pd :: 0 <= pd < 1024 ==> mmu.memory[mmu.directory][pd] == LinkedSlot(m0, t, n, pd))
      && (forall pd :: 0 <= pd < 1023 && Present(m0[mmu.directory][pd]) ==>
            FrameOf(m0[mmu.directory][pd]) !in t && FrameOf(m0[mmu.directory][pd]) != mmu.directory)
      && Reaches(m0, mmu.directory, mmu.directory)
    }

    /** The directory stays reachable while its own window slot is switched from the boot table to a new one. */
    lemma DirectoryReached(m0: Memory, t: seq<nat>, n: nat)
      requires Valid() && Linking(m0, t, n)
      ensures Reaches(mmu.memory, mmu.directory, mmu.directory)
    {
      var m, dir := mmu.memory, mmu.directory;
      var k := dir / 1024;
      assert WindowSlot(dir) == 768 + k && m[dir][768 + k] == LinkedSlot(m0, t, n, 768 + k);
      if USER_TABLES + k < n {
        assert m[t[k]][dir % 1024] == TableWord(k, dir % 1024);
        KernelTableReaches(m, dir, t[k], dir);
      } else {
        OldTableReaches(m0, m, dir, dir);
      }
    }

    /** One linking store: `page_directory[pd] = table | flags`. */
    method LinkSlot(pd: nat, table: Word, flags: Word, ghost m0: Memory, ghost t: seq<nat>, ghost n: nat)
      requires Valid() && Linking(m0, t, n) && n < TABLES
      requires pd == if n < USER_TABLES then n + 1 else 768 + (n - USER_TABLES)
      requires table == 4096 * (if n < USER_TABLES then t[KERNEL_TABLES + n] else t[n - USER_TABLES])
      requires flags == if n < USER_TABLES then 7 else 3
      modifies mmu`memory, mmu.ram
      ensures Valid() && Linking(m0, t, n + 1)
    {
      DirectoryReached(m0, t, n);
      DirectoryOr(FrameOf(table), n < USER_TABLES);
      StoreWord(pageDirectory, pd, Or32(table, flags), mmu.directory);
    }

    /** The two directory loops and the self map. */
    method LinkTables(kernelPt: seq<Word>, userPt: seq<Word>, ghost m0: Memory, ghost t: seq<nat>)
      requires Valid() && Linking(m0, t, 0) && Pointers(kernelPt, userPt, t)
      modifies mmu`memory, mmu.ram
      ensures Valid() && SetUp(m0, mmu.memory, mmu.directory, t)
    {
      ghost var dir := mmu.directory;
      for i := 0 to USER_TABLES
        invariant Valid() && Linking(m0, t, i)
      {
        LinkSlot(i + 1, userPt[i], 7, m0, t, i);
      }
      for i := 0 to KERNEL_TABLES
        invariant Valid() && Linking(m0, t, USER_TABLES + i)
      {
        LinkSlot(i + 768, kernelPt[i], 3, m0, t, USER_TABLES + i);
      }
      DirectoryReached(m0, t, TABLES);
      WindowToPhysical(dir);
      DirectoryOr(dir, false);
      StoreWord(pageDirectory, 1023, Or32(Wrap32(pageDirectory - KERNEL_OFFSET), 3), dir);
    }

    /** The 384 allocations. */
    method AllocAllTables(ghost free: set<nat>, ghost t: seq<nat>) returns (kernelPt: seq<Word>, userPt: seq<Word>)
      requires Valid() && frames.Free() == free && AllocatedTables(free, frames.Start(), t)
      modifies frames.bitmap
      ensures Valid() && frames.Free() == Remaining(free, frames.Start(), TABLES)
      ensures Pointers(kernelPt, userPt, t)
    {
      kernelPt := AllocTables(KERNEL_TABLES, free, 0, t);
      userPt := AllocTables(USER_TABLES, free, KERNEL_TABLES, t);
    }

    /** setup_paging: from the boot mapping to the tables, whenever the 384 results can serve as such. The invariant
        that map_page keeps holds if and only if none of them is the 0 of an exhausted allocator. */
    method SetupPaging(regions: array<Region>, count: nat) returns (ghost t: seq<nat>)
      requires Valid() && count <= regions.Length && regions as object != frames.bitmap
      requires var free := SetupFree(regions[..count], frames.kernelStart, frames.kernelEnd);
        && BootDirectory(mmu.memory, Pool(free, frames.Start()), mmu.directory)
        && Usable(mmu.memory, mmu.directory, Tables(free, frames.Start()))
      modifies mmu`memory, mmu.ram, frames.bitmap
      ensures Valid()
      ensures var free := SetupFree(old(regions[..count]), frames.kernelStart, frames.kernelEnd);
        t == Tables(free, frames.Start()) && frames.Free() == Remaining(free, frames.Start(), TABLES)
      ensures SetUp(old(mmu.memory), mmu.memory, mmu.directory, t)
      ensures Inv(State(), mmu.directory) <==> 0 !in t
    {
      frames.SetupBitmap(regions, count);
      t := BuildTables(frames.Free());
    }

    /** setup_paging after setup_bitmap. */
    method BuildTables(ghost free: set<nat>) returns (ghost t: seq<nat>)
      requires Valid() && frames.Free() == free
      requires BootDirectory(mmu.memory, Pool(free, frames.Start()), mmu.directory)
      requires Usable(mmu.memory, mmu.directory, Tables(free, frames.Start()))
      modifies mmu`memory, mmu.ram, frames.bitmap
      ensures Valid()
      ensures t == Tables(free, frames.Start()) && frames.Free() == Remaining(free, frames.Start(), TABLES)
      ensures SetUp(old(mmu.memory), mmu.memory, mmu.directory, t)
      ensures Inv(State(), mmu.directory) <==> 0 !in t
    {
      ghost var m0, dir, start := mmu.memory, mmu.directory, frames.Start();
      t := Tables(free, start);
      var kernelPt, userPt := AllocAllTables(free, t);
      TablesInPool(free, start, t);
      TablesApart(m0, Pool(free, start), dir, start, t);
      assert Filling(m0, t);
      FillTables(kernelPt, userPt, m0, t);
      LinkTables(kernelPt, userPt, m0, t);
      SetUpInvIff(m0, mmu.memory, Pool(free, start), dir, start, t);
    }
  }
}
