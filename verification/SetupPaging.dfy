/** What `setup_paging` leaves in memory, and what the walk then finds. */
module SetupPaging {
  import opened Words
  import opened FrameAllocator
  import opened AllocatorProperties
  import opened Mmu
  import opened PageMapping
  import opened Execution

  const KERNEL_TABLES: nat := 128
  const USER_TABLES: nat := 256
  const TABLES: nat := 384

  /** Entry i of table k: kernel tables first, then user tables, which start at 4 MiB. */
  function TableWord(k: nat, i: nat): (w: Word)
    requires k < TABLES && i < 1024
    ensures w == if k < KERNEL_TABLES then EntryFor(1024 * k + i, false)
                 else EntryFor(1024 * (k - KERNEL_TABLES + 1) + i, true)
  {
    if k < KERNEL_TABLES then k * 0x40_0000 + i * 0x1000 + 3
    else (k - KERNEL_TABLES + 1) * 0x40_0000 + i * 0x1000 + 7
  }

  /** Slots the set-up leaves as the boot code made them. */
  predicate Kept(pd: nat) {
    pd < 1023 && !(1 <= pd <= USER_TABLES) && !(768 <= pd < 768 + KERNEL_TABLES)
  }

  predicate FrameList(t: seq<nat>) {
    |t| == TABLES && (forall k :: 0 <= k < TABLES ==> t[k] < FRAMES)
  }

  function SlotAfter(m0: Memory, dir: nat, t: seq<nat>, pd: nat): Word
    requires dir < FRAMES && FrameList(t) && pd < 1024
  {
    if 1 <= pd <= USER_TABLES then EntryFor(t[KERNEL_TABLES + pd - 1], true)
    else if 768 <= pd < 768 + KERNEL_TABLES then EntryFor(t[pd - 768], false)
    else if pd == 1023 then EntryFor(dir, false)
    else m0[dir][pd]
  }

  ghost predicate Filled(m: Memory, t: seq<nat>) {
    FrameList(t) && forall k, i :: 0 <= k < TABLES && 0 <= i < 1024 ==> m[t[k]][i] == TableWord(k, i)
  }

  ghost predicate SameOutside(m0: Memory, m: Memory, t: seq<nat>) {
    forall g :: 0 <= g < FRAMES && g !in t ==> m[g] == m0[g]
  }

  ghost predicate SetUp(m0: Memory, m: Memory, dir: nat, t: seq<nat>) {
    && dir < FRAMES && FrameList(t) && Filled(m, t)
    && (forall pd :: 0 <= pd < 1024 ==> m[dir][pd] == SlotAfter(m0, dir, t, pd))
    && (forall g :: 0 <= g < FRAMES && g !in t && g != dir ==> m[g] == m0[g])
  }

  // ----- What the boot code and the boot map must provide

  /** The frames the 384 calls of alloc_frame return, with the unchecked 0 where none is left. */
  ghost predicate AllocatedTables(free: set<nat>, start: nat, t: seq<nat>) {
    FrameList(t) && forall k :: 0 <= k < TABLES ==> 4096 * t[k] == Address(Found(free, start, k))
  }

  ghost function Tables(free: set<nat>, start: nat): (t: seq<nat>)
    ensures AllocatedTables(free, start, t)
  {
    seq(TABLES, k requires 0 <= k < TABLES => NewTable(Remaining(free, start, k), start))
  }

  lemma TheseTables(free: set<nat>, start: nat, t: seq<nat>)
    requires AllocatedTables(free, start, t)
    ensures t == Tables(free, start)
  {
  }

  /** Allocation hands out neither the boot directory nor its tables, and the boot mapping reaches the directory through
      the window. */
  ghost predicate BootDirectory(m: Memory, free: set<nat>, dir: nat) {
    && 0 < dir < WINDOW_FRAMES && dir !in free && 0 !in free && Reaches(m, dir, dir)
    && (forall pd :: 0 <= pd < 1023 && Present(m[dir][pd]) ==>
          FrameOf(m[dir][pd]) != dir && FrameOf(m[dir][pd]) !in free && 0 < FrameOf(m[dir][pd]))
    && (forall pd: nat :: Kept(pd) && Present(m[dir][pd]) ==> FrameOf(m[dir][pd]) < WINDOW_FRAMES)
    && (forall p: nat, q: nat :: Kept(p) && Kept(q) && p < q && Present(m[dir][p]) && Present(m[dir][q]) ==>
          FrameOf(m[dir][p]) != FrameOf(m[dir][q]))
  }

  ghost predicate InView(m: Memory, dir: nat, f: nat)
    requires dir < FRAMES
  {
    f < WINDOW_FRAMES && Reaches(m, dir, f)
  }

  /** The results can serve as 384 tables: they are distinct, and the boot mapping reaches each through the window. */
  ghost predicate Usable(m: Memory, dir: nat, t: seq<nat>)
    requires dir < FRAMES && FrameList(t)
  {
    && (forall j, k :: 0 <= j < k < TABLES ==> t[j] != t[k])
    && (forall k :: 0 <= k < TABLES ==> InView(m, dir, t[k]))
  }

  /** Two tables in one frame cannot both be right. */
  lemma SharedTableFails(m: Memory, t: seq<nat>, j: nat, k: nat)
    requires FrameList(t) && j < k < TABLES && t[j] == t[k]
    ensures !Filled(m, t)
  {
    assert TableWord(j, 0) != TableWord(k, 0);
    assert !(m[t[j]][0] == TableWord(j, 0) && m[t[k]][0] == TableWord(k, 0));
  }

  /** Results other than 0 were free and are taken; everything below rests on this. */
  lemma TablesAreFresh(free: set<nat>, start: nat, t: seq<nat>)
    requires AllocatedTables(free, start, t) && 0 !in free
    ensures forall k :: 0 <= k < TABLES ==> t[k] !in Remaining(free, start, TABLES) && (t[k] in free || t[k] == 0)
    ensures forall j, k :: 0 <= j < k < TABLES && t[j] == t[k] ==> t[k] == 0
    ensures 0 in t <==> |Pool(free, start)| < TABLES
  {
    forall j, k | 0 <= j < k < TABLES && t[j] == t[k] ensures t[k] == 0 {
      if Found(free, start, k).Some? {
        RunIncreases(free, start, j, k);
      }
    }
    RunConserves(free, start, TABLES);
    forall k | 0 <= k < TABLES ensures t[k] !in Remaining(free, start, TABLES) && (t[k] in free || t[k] == 0) {
      ResultIsFresh(free, start, k);
    }
    ResultIsFresh(free, start, TABLES - 1);
    if |Pool(free, start)| < TABLES {
      assert t[TABLES - 1] == 0;
    } else {
      forall k | 0 <= k < TABLES ensures t[k] != 0 {
        ResultIsFresh(free, start, k);
      }
    }
  }

  lemma ResultIsFresh(free: set<nat>, start: nat, k: nat)
    requires k < TABLES && 0 !in free
    ensures Found(free, start, k).Some? <==> k < |Pool(free, start)|
    ensures Found(free, start, k).Some? ==>
              var f := Found(free, start, k).value; f in free && 0 < f && f !in Remaining(free, start, TABLES)
  {
    RunConserves(free, start, k);
    if Found(free, start, k).Some? {
      TakenStaysTaken(free, start, k, TABLES);
    }
  }

  lemma {:induction false} TakenStaysTaken(free: set<nat>, start: nat, k: nat, n: nat)
    requires k < n && Found(free, start, k).Some?
    ensures Found(free, start, k).value !in Remaining(free, start, n)
    decreases n
  {
    if k < n - 1 {
      TakenStaysTaken(free, start, k, n - 1);
    }
  }

  // ----- What the walk finds afterwards

  /** What the walk finds under a slot with a table. */
  lemma InSlot(m: Memory, dir: nat, table: nat, user: bool, pd: nat, pt: nat)
    requires dir < FRAMES && table < FRAMES && pd < 1024 && pt < 1024 && m[dir][pd] == EntryFor(table, user)
    ensures Entry(m, dir, 1024 * pd + pt) == Some(m[table][pt])
    ensures StoreTarget(m, dir, 1024 * pd + pt)
         == if Present(m[table][pt]) && Writable(m[table][pt]) then Some(FrameOf(m[table][pt])) else None
  {
    assert (1024 * pd + pt) / 1024 == pd && (1024 * pd + pt) % 1024 == pt;
  }

  /** Identity with flags 7 on [0x400000, 0x40400000). */
  lemma UserIdentity(m0: Memory, m: Memory, dir: nat, t: seq<nat>, v: nat)
    requires SetUp(m0, m, dir, t) && 0x400 <= v < 0x4_0400
    ensures Entry(m, dir, v) == Some(4096 * v + 7) && Translate(m, dir, v) == Some(v)
  {
    var pd, pt := v / 1024, v % 1024;
    assert m[dir][pd] == EntryFor(t[KERNEL_TABLES + pd - 1], true);
    assert m[t[KERNEL_TABLES + pd - 1]][pt] == TableWord(KERNEL_TABLES + pd - 1, pt) == EntryFor(v, true);
    InSlot(m, dir, t[KERNEL_TABLES + pd - 1], true, pd, pt);
  }

  lemma KernelTableReaches(m: Memory, dir: nat, table: nat, f: nat)
    requires dir < FRAMES && table < FRAMES && f < WINDOW_FRAMES && m[dir][768 + f / 1024] == EntryFor(table, false)
    requires m[table][f % 1024] == TableWord(f / 1024, f % 1024)
    ensures Entry(m, dir, WINDOW_BASE + f) == Some(EntryFor(f, false)) && Reaches(m, dir, f)
  {
    var k, i: nat := f / 1024, f % 1024;
    assert f == 1024 * k + i && WINDOW_BASE + f == 1024 * (768 + k) + i;
    InSlot(m, dir, table, false, 768 + k, i);
  }

  /** virt_to_phys with flags 3 on [0xC0000000, 0xE0000000). */
  lemma KernelWindow(m0: Memory, m: Memory, dir: nat, t: seq<nat>, f: nat)
    requires SetUp(m0, m, dir, t) && f < 0x2_0000
    ensures Entry(m, dir, 0xC_0000 + f) == Some(4096 * f + 3) && Reaches(m, dir, f)
    ensures VirtToPhys(0xC000_0000 + 4096 * f) == 4096 * f
  {
    var k, i := f / 1024, f % 1024;
    assert m[dir][768 + k] == EntryFor(t[k], false) && m[t[k]][i] == TableWord(k, i);
    KernelTableReaches(m, dir, t[k], f);
  }

  /** Every page under a slot the set-up leaves alone keeps its entry. */
  lemma KeptPagesUnmoved(m0: Memory, m: Memory, free: set<nat>, dir: nat, start: nat, t: seq<nat>, v: nat)
    requires BootDirectory(m0, free, dir) && AllocatedTables(free, start, t) && SetUp(m0, m, dir, t)
    requires v < FRAMES && Kept(v / 1024)
    ensures m[dir][v / 1024] == m0[dir][v / 1024] && Entry(m, dir, v) == Entry(m0, dir, v)
  {
    TablesAreFresh(free, start, t);
    assert m[dir][v / 1024] == SlotAfter(m0, dir, t, v / 1024);
  }

  /** The set-up memory satisfies the invariant every map_page call keeps if and only if no result was 0. */
  lemma SetUpInvIff(m0: Memory, m: Memory, free: set<nat>, dir: nat, start: nat, t: seq<nat>)
    requires BootDirectory(m0, free, dir) && AllocatedTables(free, start, t) && Usable(m0, dir, t)
    requires SetUp(m0, m, dir, t)
    ensures Inv(Kernel(m, Remaining(free, start, TABLES)), dir) <==> 0 !in t
  {
    if 0 in t {
      ZeroTableSlot(m0, m, dir, t);
    } else {
      SetUpInv(m0, m, free, dir, start, t);
    }
  }

  lemma SetUpInv(m0: Memory, m: Memory, free: set<nat>, dir: nat, start: nat, t: seq<nat>)
    requires BootDirectory(m0, free, dir) && AllocatedTables(free, start, t) && Usable(m0, dir, t)
    requires SetUp(m0, m, dir, t) && 0 !in t
    ensures Inv(Kernel(m, Remaining(free, start, TABLES)), dir)
  {
    var left := Remaining(free, start, TABLES);
    RunConserves(free, start, TABLES);
    var k := Kernel(m, left);
    forall f | Needed(k, dir, f) ensures Reaches(m, dir, f) {
      KernelWindow(m0, m, dir, t, f);
    }
    forall p, q | 0 <= p < q < 1023 && Present(m[dir][p]) && Present(m[dir][q])
      ensures FrameOf(m[dir][p]) != FrameOf(m[dir][q])
    {
      TableOfSlot(m0, m, free, dir, start, t, p);
      TableOfSlot(m0, m, free, dir, start, t, q);
    }
    forall pd | 0 <= pd < 1023 && Present(m[dir][pd])
      ensures var f := FrameOf(m[dir][pd]); f != dir && f !in left && 0 < f < WINDOW_FRAMES
    {
      TableOfSlot(m0, m, free, dir, start, t, pd);
    }
  }

  /** A 0 result leaves a present slot with frame 0 as its table. */
  lemma ZeroTableSlot(m0: Memory, m: Memory, dir: nat, t: seq<nat>)
    requires SetUp(m0, m, dir, t) && 0 in t
    ensures exists pd :: 0 <= pd < 1023 && Present(m[dir][pd]) && FrameOf(m[dir][pd]) == 0
  {
    var k :| 0 <= k < TABLES && t[k] == 0;
    var pd := if k < KERNEL_TABLES then 768 + k else k - KERNEL_TABLES + 1;
    assert m[dir][pd] == SlotAfter(m0, dir, t, pd);
  }

  /** From the boot mapping to the self map: after the set-up and any run of map_page calls outside slot 1023 that run
      as they mean to, the page-table entry of every page, and every directory entry, is readable at its self-map
      address. */
  lemma SelfMapAfterBoot(m0: Memory, m: Memory, free: set<nat>, dir: nat, start: nat, t: seq<nat>, rs: seq<Request>,
                         v: nat, pd: nat)
    requires BootDirectory(m0, free, dir) && AllocatedTables(free, start, t) && Usable(m0, dir, t)
    requires SetUp(m0, m, dir, t) && v < FRAMES && pd < 1024
    requires forall i :: 0 <= i < |rs| ==> Slot(rs[i]) < 1023
    requires RunsThroughout(Kernel(m, Remaining(free, start, TABLES)), dir, start, rs)
    ensures var after := ExecutedRun(Kernel(m, Remaining(free, start, TABLES)), dir, start, rs);
      && after.Some?
      && WordAt(after.value.mem, dir, 0xFFC0_0000 + 4 * v) == Entry(after.value.mem, dir, v)
      && WordAt(after.value.mem, dir, 0xFFFF_F000 + 4 * pd) == Some(after.value.mem[dir][pd])
  {
    SetUpSelfMapped(m0, m, free, dir, start, t);
    SelfMapReads(Kernel(m, Remaining(free, start, TABLES)), dir, start, rs, v, pd);
  }

  lemma SetUpSelfMapped(m0: Memory, m: Memory, free: set<nat>, dir: nat, start: nat, t: seq<nat>)
    requires BootDirectory(m0, free, dir) && AllocatedTables(free, start, t) && Usable(m0, dir, t)
    requires SetUp(m0, m, dir, t)
    ensures SelfMapped(Kernel(m, Remaining(free, start, TABLES)), dir)
  {
    RunConserves(free, start, TABLES);
    assert m[dir][1023] == SlotAfter(m0, dir, t, 1023);
    forall p | 0 <= p < 1023 && Present(m[dir][p]) ensures FrameOf(m[dir][p]) != dir {
      TableOfSlot(m0, m, free, dir, start, t, p);
    }
  }

  /** The table number a slot below the self map points to. */
  ghost function TableIndex(pd: nat): int {
    if 1 <= pd <= USER_TABLES then KERNEL_TABLES + pd - 1
    else if 768 <= pd < 768 + KERNEL_TABLES then pd - 768
    else -1
  }

  lemma TableOfSlot(m0: Memory, m: Memory, free: set<nat>, dir: nat, start: nat, t: seq<nat>, pd: nat)
    requires BootDirectory(m0, free, dir) && AllocatedTables(free, start, t) && Usable(m0, dir, t)
    requires SetUp(m0, m, dir, t) && pd < 1023 && Present(m[dir][pd])
    ensures Kept(pd) ==> Present(m0[dir][pd]) && FrameOf(m[dir][pd]) == FrameOf(m0[dir][pd]) > 0
    ensures !Kept(pd) ==> 0 <= TableIndex(pd) < TABLES && FrameOf(m[dir][pd]) == t[TableIndex(pd)]
    ensures var f := FrameOf(m[dir][pd]);
      && f != dir && f < WINDOW_FRAMES && f !in Remaining(free, start, TABLES)
      && (f in free || f == 0 <==> !Kept(pd))
  {
    TablesAreFresh(free, start, t);
    RunConserves(free, start, TABLES);
    assert m[dir][pd] == SlotAfter(m0, dir, t, pd);
    if !Kept(pd) {
      assert InView(m0, dir, t[TableIndex(pd)]);
    }
  }

  // ----- The mapping src/boot/boot.s leaves

  /** boot_page_table1 maps the first 1023 pages and the VGA page; boot_page_table2 is linked but never filled;
      slots 0 and 768 share the first table, slots 1 and 769 the second. */
  ghost predicate BootCode(m: Memory, dir: nat, table1: nat, table2: nat) {
    && 0 < dir < WINDOW_FRAMES && 0 < table1 < WINDOW_FRAMES && 0 < table2 < WINDOW_FRAMES
    && dir != table1 && dir != table2 && table1 != table2
    && m[dir][0] == m[dir][768] == EntryFor(table1, false) && m[dir][1] == m[dir][769] == EntryFor(table2, false)
    && (forall pd :: 0 <= pd < 1024 && pd != 0 && pd != 1 && pd != 768 && pd != 769 ==> m[dir][pd] == 0)
    && (forall i :: 0 <= i < 1023 ==> m[table1][i] == EntryFor(i, false)) && m[table1][1023] == EntryFor(0xB8, false)
    && m[table2] == ZeroFrame()
  }

  /** Such a memory, for any three distinct low frames. */
  function BootMemory(dir: nat, table1: nat, table2: nat): Memory
    requires dir < WINDOW_FRAMES && table1 < WINDOW_FRAMES && table2 < WINDOW_FRAMES
  {
    var e1, e2 := EntryFor(table1, false), EntryFor(table2, false);
    seq<Frame>(0x10_0000, f => ZeroFrame())[table1 := BootTable()]
      [dir := ZeroFrame()[0 := e1][1 := e2][768 := e1][769 := e2]]
  }

  function BootTable(): Frame {
    seq<Word>(1024, i requires 0 <= i < 1024 => if i < 1023 then EntryFor(i, false) else EntryFor(0xB8, false))
  }

  lemma BootMemoryIsBootCode(dir: nat, table1: nat, table2: nat)
    requires 0 < dir < WINDOW_FRAMES && 0 < table1 < WINDOW_FRAMES && 0 < table2 < WINDOW_FRAMES
    requires dir != table1 && dir != table2 && table1 != table2
    ensures BootCode(BootMemory(dir, table1, table2), dir, table1, table2)
  {
    var e1, e2 := EntryFor(table1, false), EntryFor(table2, false);
    var m := BootMemory(dir, table1, table2);
    assert m[dir] == ZeroFrame()[0 := e1][1 := e2][768 := e1][769 := e2];
    assert m[table1] == BootTable() && m[table2] == ZeroFrame();
  }

  const VGA_FRAME: nat := 0xB8

  /** Where a store goes through the boot mapping: the first 4 MiB of either half reach the first 1023 frames and the
      VGA frame, and nothing else is reached. */
  function BootTarget(v: nat): Option<nat> {
    if v / 1024 == 0 || v / 1024 == 768 then Some(if v % 1024 < 1023 then v % 1024 else VGA_FRAME) else None
  }

  lemma BootTargetIs(m: Memory, dir: nat, table1: nat, table2: nat, v: nat)
    requires BootCode(m, dir, table1, table2) && v < FRAMES
    ensures StoreTarget(m, dir, v) == BootTarget(v)
  {
    var pd, pt: nat := v / 1024, v % 1024;
    assert v == 1024 * pd + pt;
    if pd == 0 || pd == 768 {
      InSlot(m, dir, table1, false, pd, pt);
    } else if pd == 1 || pd == 769 {
      InSlot(m, dir, table2, false, pd, pt);
    } else {
      EmptySlot(m, dir, pd, pt);
    }
  }

  lemma EmptySlot(m: Memory, dir: nat, pd: nat, pt: nat)
    requires dir < FRAMES && pd < 1024 && pt < 1024 && m[dir][pd] == 0
    ensures StoreTarget(m, dir, 1024 * pd + pt) == None
  {
    assert (1024 * pd + pt) / 1024 == pd;
  }

  /** The boot mapping reaches exactly the first 1023 frames. */
  lemma BootCodeReaches(m: Memory, dir: nat, table1: nat, table2: nat, f: nat)
    requires BootCode(m, dir, table1, table2) && f < WINDOW_FRAMES
    ensures Reaches(m, dir, f) <==> f < 1023
  {
    BootTargetIs(m, dir, table1, table2, WINDOW_BASE + f);
    assert (WINDOW_BASE + f) / 1024 == 768 + f / 1024 && (WINDOW_BASE + f) % 1024 == f % 1024;
  }

  /** No store through the boot mapping changes a frame from 1023 on. */
  lemma BootStoresLow(m: Memory, dir: nat, table1: nat, table2: nat, v: nat, i: nat, w: Word)
    requires BootCode(m, dir, table1, table2) && v < FRAMES && i < 1024
    ensures StoreThrough(m, dir, v, i, w).Some? ==> UnchangedFrom1023(m, StoreThrough(m, dir, v, i, w).value)
  {
    BootTargetIs(m, dir, table1, table2, v);
  }

  ghost predicate UnchangedFrom1023(m0: Memory, m: Memory) {
    forall f :: 1023 <= f < FRAMES ==> m[f] == m0[f]
  }

  /** So on that mapping, with the directory and its tables not free and low, the 384 results can serve as tables if and
      only if at least 384 pages from the start page on and below page 1023 are free, or exactly 383 pages from the
      start page on are free and all are below page 1023: then the last table is frame 0. */
  lemma BootCodeUsableIff(m: Memory, free: set<nat>, dir: nat, start: nat, table1: nat, table2: nat)
    requires BootCode(m, dir, table1, table2) && dir < 1023
    requires 0 !in free && dir !in free && table1 !in free && table2 !in free
    ensures BootDirectory(m, free, dir)
    ensures Usable(m, dir, Tables(free, start)) <==> EnoughFrames(free, start)
  {
    BootCodeReaches(m, dir, table1, table2, dir);
    var t := Tables(free, start);
    TablesAreFresh(free, start, t);
    forall k | 0 <= k < TABLES ensures InView(m, dir, t[k]) <==> t[k] < 1023 {
      if t[k] < WINDOW_FRAMES {
        BootCodeReaches(m, dir, table1, table2, t[k]);
      }
    }
    DistinctAndLowIff(free, start, t);
  }

  ghost predicate EnoughFrames(free: set<nat>, start: nat) {
    || TABLES <= |FreeBetween(free, start, 1023)|
    || |FreeBetween(free, start, 1023)| == |Pool(free, start)| == TABLES - 1
  }

  /** Otherwise set-up fails: as long as no frame from 1023 on changes, which no store through the boot mapping does,
      the tables can only be right if memory held one of those that are out of view from the start. */
  lemma NotEnoughFails(m0: Memory, m: Memory, free: set<nat>, dir: nat, start: nat)
    requires 0 !in free && !EnoughFrames(free, start) && UnchangedFrom1023(m0, m)
    ensures SetUp(m0, m, dir, Tables(free, start)) ==> HeldAlready(m0, Tables(free, start))
  {
    var t := Tables(free, start);
    DistinctAndLowIff(free, start, t);
    if j, k :| 0 <= j < k < TABLES && t[j] == t[k] {
      SharedTableFails(m, t, j, k);
    } else {
      var k :| 0 <= k < TABLES && t[k] >= 1023;
      if SetUp(m0, m, dir, t) {
        assert RightTable(m0, t[k], k);
      }
    }
  }

  /** Some table from frame 1023 on is right in m0. */
  ghost predicate HeldAlready(m0: Memory, t: seq<nat>)
    requires FrameList(t)
  {
    exists k :: 0 <= k < TABLES && t[k] >= 1023 && RightTable(m0, t[k], k)
  }

  ghost predicate RightTable(m: Memory, f: nat, k: nat)
    requires f < FRAMES && k < TABLES
  {
    forall i :: 0 <= i < 1024 ==> m[f][i] == TableWord(k, i)
  }

  /** The counting behind it. */
  lemma DistinctAndLowIff(free: set<nat>, start: nat, t: seq<nat>)
    requires AllocatedTables(free, start, t) && 0 !in free
    ensures (forall j, k :: 0 <= j < k < TABLES ==> t[j] != t[k]) && (forall k :: 0 <= k < TABLES ==> t[k] < 1023)
       <==> EnoughFrames(free, start)
  {
    var low, all := |FreeBetween(free, start, 1023)|, |Pool(free, start)|;
    forall k | 0 <= k < TABLES
      ensures t[k] == 0 <==> all <= k
      ensures t[k] < 1023 <==> k < low || all <= k
    {
      ResultIsFresh(free, start, k);
      RunBelow(free, start, 1023, k);
    }
    TablesAreFresh(free, start, t);
    LowFewer(free, start);
    if !EnoughFrames(free, start) {
      if low < all {
        assert t[low] >= 1023;
      } else {
        assert t[TABLES - 2] == t[TABLES - 1] == 0;
      }
    }
  }

  lemma LowFewer(free: set<nat>, start: nat)
    ensures |FreeBetween(free, start, 1023)| <= |Pool(free, start)|
  {
    RunBelow(free, start, 1023, |Pool(free, start)|);
    RunConserves(free, start, |Pool(free, start)|);
  }

  /** With the boot tables in pages the search never looks at, their pages need not be reserved: the same holds for any
      boot map. */
  lemma ImageBootsIff(m: Memory, free: set<nat>, dir: nat, start: nat, table1: nat, table2: nat)
    requires BootCode(m, dir, table1, table2) && dir < 1023 && dir < start && table1 < start && table2 < start
    ensures BootDirectory(m, Pool(free, start), dir)
    ensures Usable(m, dir, Tables(free, start)) <==> EnoughFrames(free, start)
  {
    BootCodeUsableIff(m, Pool(free, start), dir, start, table1, table2);
    TablesInPool(free, start, Tables(free, start));
    TheseTables(Pool(free, start), start, Tables(free, start));
    assert FreeBetween(Pool(free, start), start, 1023) == FreeBetween(free, start, 1023);
    assert Pool(Pool(free, start), start) == Pool(free, start);
  }

  lemma TablesInPool(free: set<nat>, start: nat, t: seq<nat>)
    requires AllocatedTables(free, start, t)
    ensures AllocatedTables(Pool(free, start), start, t)
    ensures Remaining(Pool(free, start), start, TABLES) == Pool(Remaining(free, start, TABLES), start)
  {
    forall k | 0 <= k < TABLES ensures 4096 * t[k] == Address(Found(Pool(free, start), start, k)) {
      RunInPool(free, start, k);
    }
    RunInPool(free, start, TABLES);
  }

  /** With every page from the start page up to 1 GiB free, as in LowGigabyteIsFree for the machine as linked, they can
      if and only if the kernel ends below 2.5 MiB of physical memory. */
  lemma FreeGigabyteBootsIff(m: Memory, free: set<nat>, dir: nat, table1: nat, table2: nat, kernelEnd: Word)
    requires BootCode(m, dir, table1, table2) && KERNEL_OFFSET <= kernelEnd
    requires dir < 1023 && dir < StartPage(kernelEnd) && table1 < StartPage(kernelEnd) && table2 < StartPage(kernelEnd)
    requires forall p :: StartPage(kernelEnd) <= p < 0x4_0000 ==> p in free
    ensures BootDirectory(m, Pool(free, StartPage(kernelEnd)), dir)
    ensures Usable(m, dir, Tables(free, StartPage(kernelEnd))) <==> kernelEnd < KERNEL_OFFSET + 0x28_0000
  {
    var start := StartPage(kernelEnd);
    StartPageBounds(kernelEnd);
    ImageBootsIff(m, free, dir, start, table1, table2);
    StretchEnough(free, start);
  }

  lemma StretchEnough(free: set<nat>, start: nat)
    requires start < 0x4_0000 && forall p :: start <= p < 0x4_0000 ==> p in free
    ensures EnoughFrames(free, start) <==> start < 640
  {
    RunBelow(free, start, 1023, TABLES - 1);
    RunBelow(free, start, 1023, TABLES - 2);
    RunConserves(free, start, TABLES - 1);
    RunConserves(free, start, TABLES - 2);
    if start + TABLES - 1 < 0x4_0000 {
      RunOnStretch(free, start, 0x4_0000, TABLES - 1);
    }
  }

  /** At that boundary no store faults: with the kernel ending at 2.5 MiB the results are the frames 640 to 1023, and
      the words of the last table go to the VGA frame. */
  lemma BoundaryExample(m: Memory, free: set<nat>, dir: nat, table1: nat, table2: nat, kernelEnd: Word, k: nat)
    requires BootCode(m, dir, table1, table2) && kernelEnd == KERNEL_OFFSET + 0x28_0000 && k < TABLES
    requires forall p :: StartPage(kernelEnd) <= p < 0x4_0000 ==> p in free
    ensures !EnoughFrames(free, StartPage(kernelEnd))
    ensures var f := Tables(free, StartPage(kernelEnd))[k];
      f == 640 + k && StoreTarget(m, dir, WindowPage(f)) == Some(if f < 1023 then f else VGA_FRAME)
  {
    var start := StartPage(kernelEnd);
    StartPageBounds(kernelEnd);
    assert start == 640;
    StretchEnough(free, start);
    RunOnStretch(free, start, 0x4_0000, k);
    var f := start + k;
    assert Tables(free, start)[k] == f;
    BootTargetIs(m, dir, table1, table2, WINDOW_BASE + f);
    assert (WINDOW_BASE + f) / 1024 == 768 && (WINDOW_BASE + f) % 1024 == f;
  }

  // ----- A machine that runs out of frames at once

  /** A machine whose only free pages are 512 to 895 boots, and setup_paging takes its last frame. */
  lemma SmallStretchBoots(m: Memory, free: set<nat>, start: nat, dir: nat, table1: nat, table2: nat)
    requires BootCode(m, dir, table1, table2) && dir < 512 && table1 < 512 && table2 < 512
    requires start == 512 && forall p :: p in free <==> 512 <= p < 896
    ensures BootDirectory(m, Pool(free, start), dir) && Usable(m, dir, Tables(free, start))
    ensures 0 !in Tables(free, start) && FirstFree(Remaining(free, start, TABLES), start).None?
  {
    ImageBootsIff(m, free, dir, start, table1, table2);
    assert TABLES <= |FreeBetween(free, start, 1023)| by {
      RunOnStretch(free, start, 896, TABLES - 1);
      RunBelow(free, start, 1023, TABLES - 1);
    }
    LowFewer(free, start);
    TablesAreFresh(free, start, Tables(free, start));
    StretchUsedUp(free, start, 896, TABLES);
  }

  const FIRST_CALL: Request := Request(0x8_0000, false, 0x1003)
  const SECOND_CALL: Request := Request(0x8_0401, false, 0x2003)

  /** Of two calls into absent slots, the second erases the mapping of the first. */
  ghost predicate SecondErasesFirst(k: Kernel, dir: nat, start: nat)
    requires dir < FRAMES
  {
    var one, two := ExecutedRun(k, dir, start, [FIRST_CALL]), ExecutedRun(k, dir, start, [FIRST_CALL, SECOND_CALL]);
    && one.Some? && Entry(one.value.mem, dir, FIRST_CALL.vpn) == Some(FIRST_CALL.pte)
    && two.Some? && Entry(two.value.mem, dir, FIRST_CALL.vpn) == Some(0)
  }

  lemma FirstAndSecondCall(k: Kernel, dir: nat, start: nat)
    requires Inv(k, dir) && FirstFree(k.free, start).None? && Reaches(k.mem, dir, 0)
    requires !Present(k.mem[dir][512]) && !Present(k.mem[dir][513])
    ensures SecondErasesFirst(k, dir, start)
  {
    ExhaustedCallsAlias(k, dir, start, FIRST_CALL, SECOND_CALL);
    RunsExecutes(k, dir, start, FIRST_CALL);
    RunsExecutes(AfterMapPage(k, dir, start, FIRST_CALL), dir, start, SECOND_CALL);
    TwoCalls(k, dir, start, FIRST_CALL, SECOND_CALL);
  }

  lemma SmallStretchAliases(m0: Memory, m: Memory, free: set<nat>, start: nat, dir: nat, table1: nat, table2: nat)
    requires BootCode(m0, dir, table1, table2) && dir < 512 && table1 < 512 && table2 < 512
    requires start == 512 && forall p :: p in free <==> 512 <= p < 896
    requires SetUp(m0, m, dir, Tables(free, start))
    ensures var k := Kernel(m, Pool(Remaining(free, start, TABLES), start));
      Inv(k, dir) && SecondErasesFirst(k, dir, start)
  {
    var t := Tables(free, start);
    SmallStretchBoots(m0, free, start, dir, table1, table2);
    assert Pool(free, start) == free;
    TablesInPool(free, start, t);
    SetUpInv(m0, m, free, dir, start, t);
    KernelWindow(m0, m, dir, t, 0);
    assert m[dir][512] == SlotAfter(m0, dir, t, 512) && m[dir][513] == SlotAfter(m0, dir, t, 513);
    FirstAndSecondCall(Kernel(m, Remaining(free, start, TABLES)), dir, start);
  }

  /** The machine of SMALL_MEMORY as linked boots, and setup_paging takes its last frame. */
  lemma SmallMemoryBoots(m: Memory, dir: nat, table1: nat, table2: nat)
    requires BootCode(m, dir, table1, table2) && dir < 512 && table1 < 512 && table2 < 512
    ensures var free := SetupFree([SMALL_MEMORY], LINKER_KERNEL_START, SMALL_KERNEL_END);
      var start := StartPage(SMALL_KERNEL_END);
      && BootDirectory(m, Pool(free, start), dir) && Usable(m, dir, Tables(free, start))
      && 0 !in Tables(free, start) && FirstFree(Remaining(free, start, TABLES), start).None?
  {
    var free := SetupFree([SMALL_MEMORY], LINKER_KERNEL_START, SMALL_KERNEL_END);
    forall p: nat ensures p in free <==> 512 <= p < 896 {
      SmallMemoryIsFree(p);
    }
    SmallMemoryStart();
    SmallStretchBoots(m, free, StartPage(SMALL_KERNEL_END), dir, table1, table2);
  }

  /** There the second of two map_page calls after setup_paging erases the mapping of the first. */
  lemma SmallMemoryAliases(m0: Memory, m: Memory, dir: nat, table1: nat, table2: nat)
    requires BootCode(m0, dir, table1, table2) && dir < 512 && table1 < 512 && table2 < 512
    requires var free := SetupFree([SMALL_MEMORY], LINKER_KERNEL_START, SMALL_KERNEL_END);
      SetUp(m0, m, dir, Tables(free, StartPage(SMALL_KERNEL_END)))
    ensures var free := SetupFree([SMALL_MEMORY], LINKER_KERNEL_START, SMALL_KERNEL_END);
      var start := StartPage(SMALL_KERNEL_END);
      var k := Kernel(m, Pool(Remaining(free, start, TABLES), start));
      Inv(k, dir) && SecondErasesFirst(k, dir, start)
  {
    var free := SetupFree([SMALL_MEMORY], LINKER_KERNEL_START, SMALL_KERNEL_END);
    forall p: nat ensures p in free <==> 512 <= p < 896 {
      SmallMemoryIsFree(p);
    }
    SmallMemoryStart();
    SmallStretchAliases(m0, m, free, StartPage(SMALL_KERNEL_END), dir, table1, table2);
  }
}
