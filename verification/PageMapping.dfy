/** What `map_page` does to physical memory and the free pages, and what that means for the address space. */
module PageMapping {
  import opened Words
  import opened FrameAllocator
  import opened Mmu

  /** The kernel's window: virtual pages 0xC0000.. for the frames below 512 MiB. */
  const WINDOW_BASE: nat := 0xC_0000
  const WINDOW_FRAMES: nat := 0x2_0000

  /** The first virtual page of the self map in directory slot 1023. */
  const SELF_MAP: nat := 0xF_FC00

  /** Physical memory and the free pages: those allocation can still hand out. */
  datatype Kernel = Kernel(mem: Memory, free: set<nat>)

  /** A call, decoded: the virtual page, whether a new table is a user one, and the entry to store. */
  type Page = v: nat | v < 0x10_0000
  datatype Request = Request(vpn: Page, user: bool, pte: Word)

  function Decode(virt: Word, phys: Word, flags: Word): Request {
    Request(virt / 4096, flags / 4 % 2 == 1, Or32(phys, flags))
  }

  function Slot(r: Request): (pd: nat)
    ensures pd < 1024
  {
    r.vpn / 1024
  }

  /** The frame a new table gets: the allocator's answer, unchecked, so 0 when there is none. */
  ghost function NewTable(free: set<nat>, start: nat): (f: nat)
    ensures f < FRAMES
  {
    match FirstFree(free, start)
    case None => 0
    case Some(f) => f
  }

  /** A page-aligned address or-ed with flags 7 or 3, for both levels of the tables. */
  function EntryFor(frame: nat, user: bool): (e: Word)
    requires frame < FRAMES
    ensures Present(e) && Writable(e) && FrameOf(e) == frame
  {
    4096 * frame + (if user then 7 else 3)
  }

  ghost function WithTable(k: Kernel, dir: nat, start: nat, r: Request): Kernel
    requires dir < FRAMES
  {
    if Present(k.mem[dir][Slot(r)]) then k
    else
      var f := NewTable(k.free, start);
      Kernel(Write(k.mem[f := ZeroFrame()], dir, Slot(r), EntryFor(f, r.user)), Taken(k.free, start))
  }

  ghost function AfterMapPage(k: Kernel, dir: nat, start: nat, r: Request): Kernel
    requires dir < FRAMES
  {
    var k1 := WithTable(k, dir, start, r);
    Kernel(Write(k1.mem, FrameOf(k1.mem[dir][Slot(r)]), r.vpn % 1024, r.pte), k1.free)
  }

  // ----- The invariant

  /** A store to the window page of frame f goes to frame f. */
  ghost predicate Reaches(m: Memory, dir: nat, f: nat)
    requires dir < FRAMES && f < WINDOW_FRAMES
  {
    StoreTarget(m, dir, WINDOW_BASE + f) == Some(f)
  }

  /** The directory slot the window page of frame f is under. */
  function WindowSlot(f: nat): (pd: nat)
    requires f < WINDOW_FRAMES
    ensures pd < 1023
  {
    (WINDOW_BASE + f) / 1024
  }

  ghost predicate IsTable(m: Memory, dir: nat, f: nat)
    requires dir < FRAMES
  {
    exists pd :: 0 <= pd < 1023 && Present(m[dir][pd]) && FrameOf(m[dir][pd]) == f
  }

  /** The table of every present slot below the self map is not free, is not frame 0 and not the directory,
      and lies below the end of the window. */
  ghost predicate TablesReserved(k: Kernel, dir: nat)
    requires dir < FRAMES
  {
    forall pd :: 0 <= pd < 1023 && Present(k.mem[dir][pd]) ==>
      var t := FrameOf(k.mem[dir][pd]);
      t != dir && t !in k.free && 0 < t < WINDOW_FRAMES
  }

  /** The frames the kernel must reach: the directory, the tables, and those it may still allocate. */
  ghost predicate Needed(k: Kernel, dir: nat, f: nat)
    requires dir < FRAMES
  {
    f < WINDOW_FRAMES && (f in k.free || f == dir || IsTable(k.mem, dir, f))
  }

  ghost predicate TablesDistinct(m: Memory, dir: nat)
    requires dir < FRAMES
  {
    forall p, q :: 0 <= p < q < 1023 && Present(m[dir][p]) && Present(m[dir][q]) ==>
                     FrameOf(m[dir][p]) != FrameOf(m[dir][q])
  }

  ghost predicate Inv(k: Kernel, dir: nat) {
    && 0 < dir < WINDOW_FRAMES && dir !in k.free && 0 !in k.free
    && k.mem[dir][1023] == EntryFor(dir, false)
    && TablesReserved(k, dir) && TablesDistinct(k.mem, dir)
    && (forall f :: Needed(k, dir, f) ==> Reaches(k.mem, dir, f))
  }

  /** If the target is the kernel's own view of a frame it still needs, the call leaves that view in place. */
  ghost predicate KeepsWindow(k: Kernel, dir: nat, r: Request)
    requires dir < FRAMES
  {
    WINDOW_BASE <= r.vpn < WINDOW_BASE + WINDOW_FRAMES && Needed(k, dir, r.vpn - WINDOW_BASE) ==>
      Present(r.pte) && Writable(r.pte) && FrameOf(r.pte) == r.vpn - WINDOW_BASE
  }

  /** If a table is needed, a frame is available for it that the window reaches. */
  ghost predicate TableAvailable(k: Kernel, dir: nat, start: nat, r: Request)
    requires dir < FRAMES
  {
    Present(k.mem[dir][Slot(r)]) || (FirstFree(k.free, start).Some? && FirstFree(k.free, start).value < WINDOW_FRAMES)
  }

  /** What the instructions of map_page need to run without a fault and to store where they mean to: the directory is
      reached, and so is the table, or the frame that becomes one. Clearing that frame must not tear down the view of
      it or of the directory. */
  ghost predicate Runs(k: Kernel, dir: nat, start: nat, r: Request) {
    && dir < WINDOW_FRAMES && Reaches(k.mem, dir, dir)
    && if Present(k.mem[dir][Slot(r)]) then
         var t := FrameOf(k.mem[dir][Slot(r)]);
         t < WINDOW_FRAMES && Reaches(k.mem, dir, t)
       else
         var f := NewTable(k.free, start);
         && f < WINDOW_FRAMES && f != dir && Reaches(k.mem, dir, f)
         && f != FrameOf(k.mem[dir][WindowSlot(f)]) && f != FrameOf(k.mem[dir][WindowSlot(dir)])
  }

  // ----- One call

  /** Linking a fresh empty table into an absent slot: its 1024 entries are 0, and no other page's entry changes. */
  lemma NewTableEntries(m: Memory, dir: nat, pd: nat, f: nat, e: Word, v: nat)
    requires dir < FRAMES && f < FRAMES && pd < 1023 && v < SELF_MAP
    requires !Present(m[dir][pd]) && Present(e) && FrameOf(e) == f && f != dir && !IsTable(m, dir, f)
    requires forall p :: 0 <= p < 1023 && Present(m[dir][p]) ==> FrameOf(m[dir][p]) != dir
    ensures Entry(Write(m[f := ZeroFrame()], dir, pd, e), dir, v)
         == if v / 1024 == pd then Some(0) else Entry(m, dir, v)
  {
    var m1 := Write(m[f := ZeroFrame()], dir, pd, e);
    assert v / 1024 < 1023;
    assert m1[dir][v / 1024] == if v / 1024 == pd then e else m[dir][v / 1024];
  }

  /** Writing one entry of a table changes that page's entry and no other. */
  lemma TableWriteEntries(m: Memory, dir: nat, pd: nat, pt: nat, w: Word, v: nat)
    requires dir < FRAMES && pd < 1023 && pt < 1024 && v < SELF_MAP
    requires Present(m[dir][pd]) && TablesDistinct(m, dir)
    requires forall p :: 0 <= p < 1023 && Present(m[dir][p]) ==> FrameOf(m[dir][p]) != dir
    ensures Entry(Write(m, FrameOf(m[dir][pd]), pt, w), dir, v)
         == if v == 1024 * pd + pt then Some(w) else Entry(m, dir, v)
  {
    var m1 := Write(m, FrameOf(m[dir][pd]), pt, w);
    assert v / 1024 < 1023 && m1[dir] == m[dir];
  }

  /** What the allocator hands to map_page is not in use anywhere: this is why tables do not alias. Even the 0 of an
      exhausted allocator is no table yet. */
  lemma FreshTable(k: Kernel, dir: nat, start: nat, r: Request)
    requires Inv(k, dir) && !Present(k.mem[dir][Slot(r)])
    ensures var f := NewTable(k.free, start);
      f != dir && !IsTable(k.mem, dir, f) && Taken(k.free, start) == k.free - {f}
    ensures TableAvailable(k, dir, start, r) ==>
              var f := NewTable(k.free, start); f in k.free && 0 < f < WINDOW_FRAMES
  {
    FirstFreeIsLowest(k.free, start);
  }

  /** The directory after the table step: the slot is present, and the structural facts survive. */
  lemma WithTableKeeps(k: Kernel, dir: nat, start: nat, r: Request)
    requires Inv(k, dir) && Slot(r) < 1023
    ensures var k1 := WithTable(k, dir, start, r);
      && Present(k1.mem[dir][Slot(r)]) && TablesDistinct(k1.mem, dir) && k1.free <= k.free
      && (forall p :: 0 <= p < 1024 && p != Slot(r) ==> k1.mem[dir][p] == k.mem[dir][p])
      && (forall p :: 0 <= p < 1023 && Present(k1.mem[dir][p]) ==>
            FrameOf(k1.mem[dir][p]) != dir && FrameOf(k1.mem[dir][p]) !in k1.free)
  {
    if !Present(k.mem[dir][Slot(r)]) {
      FreshTable(k, dir, start, r);
    }
  }

  /** With a frame available the tables stay among the frames the kernel can reach. */
  lemma WithTableReserves(k: Kernel, dir: nat, start: nat, r: Request)
    requires Inv(k, dir) && Slot(r) < 1023 && TableAvailable(k, dir, start, r)
    ensures var k1 := WithTable(k, dir, start, r);
      forall p :: 0 <= p < 1023 && Present(k1.mem[dir][p]) ==>
        var t := FrameOf(k1.mem[dir][p]);
        0 < t < WINDOW_FRAMES && (t in k.free || IsTable(k.mem, dir, t))
  {
    if !Present(k.mem[dir][Slot(r)]) {
      FreshTable(k, dir, start, r);
    }
  }

  /** The effect of one call on every page-table entry below the self map. */
  lemma MapPageEntries(k: Kernel, dir: nat, start: nat, r: Request, v: nat)
    requires Inv(k, dir) && Slot(r) < 1023 && v < SELF_MAP
    ensures Entry(AfterMapPage(k, dir, start, r).mem, dir, v)
         == if v == r.vpn then Some(r.pte)
            else if !Present(k.mem[dir][Slot(r)]) && v / 1024 == Slot(r) then Some(0)
            else Entry(k.mem, dir, v)
  {
    var k1 := WithTable(k, dir, start, r);
    WithTableKeeps(k, dir, start, r);
    TableWriteEntries(k1.mem, dir, Slot(r), r.vpn % 1024, r.pte, v);
    assert r.vpn == 1024 * Slot(r) + r.vpn % 1024;
    if !Present(k.mem[dir][Slot(r)]) {
      FreshTable(k, dir, start, r);
      var f := NewTable(k.free, start);
      NewTableEntries(k.mem, dir, Slot(r), f, EntryFor(f, r.user), v);
    }
  }

  /** The kernel's view of a frame it needs survives the call. */
  lemma ReachKept(k: Kernel, dir: nat, start: nat, r: Request, f: nat)
    requires Inv(k, dir) && Slot(r) < 1023 && KeepsWindow(k, dir, r) && Needed(k, dir, f)
    ensures Reaches(AfterMapPage(k, dir, start, r).mem, dir, f)
  {
    assert Reaches(k.mem, dir, f);
    MapPageEntries(k, dir, start, r, WINDOW_BASE + f);
    MapPageSlots(k, dir, start, r, WindowSlot(f));
  }

  /** A slot that has a table keeps its directory entry. */
  lemma MapPageSlots(k: Kernel, dir: nat, start: nat, r: Request, pd: nat)
    requires Inv(k, dir) && Slot(r) < 1023 && pd < 1024 && Present(k.mem[dir][pd])
    ensures AfterMapPage(k, dir, start, r).mem[dir][pd] == k.mem[dir][pd]
  {
    WithTableKeeps(k, dir, start, r);
  }

  /** map_page keeps the invariant. */
  lemma MapPageKeepsInv(k: Kernel, dir: nat, start: nat, r: Request)
    requires Inv(k, dir) && Slot(r) < 1023 && TableAvailable(k, dir, start, r) && KeepsWindow(k, dir, r)
    ensures Inv(AfterMapPage(k, dir, start, r), dir)
  {
    var k1, k2 := WithTable(k, dir, start, r), AfterMapPage(k, dir, start, r);
    WithTableKeeps(k, dir, start, r);
    WithTableReserves(k, dir, start, r);
    assert k2.mem[dir] == k1.mem[dir];
    forall f | Needed(k2, dir, f) ensures Reaches(k2.mem, dir, f) {
      assert Needed(k, dir, f);
      ReachKept(k, dir, start, r, f);
    }
  }

  // ----- The abstract address space

  /** Present virtual pages below the self map, each with its page-table entry. */
  ghost function AddressSpace(m: Memory, dir: nat): map<nat, Word>
    requires dir < FRAMES
  {
    map v: nat | v < SELF_MAP && Entry(m, dir, v).Some? && Present(Entry(m, dir, v).value) :: Entry(m, dir, v).value
  }

  /** The abstract operation: bind the page to the entry, or drop it when the entry is not present. */
  ghost function Bind(space: map<nat, Word>, r: Request): map<nat, Word> {
    if Present(r.pte) then space[r.vpn := r.pte] else space - {r.vpn}
  }

  /** With its word in its table, map_page refines the abstract map update, also when it finds no frame left. */
  lemma MapPageRefinesBind(k: Kernel, dir: nat, start: nat, r: Request)
    requires Inv(k, dir) && Slot(r) < 1023
    ensures AddressSpace(AfterMapPage(k, dir, start, r).mem, dir) == Bind(AddressSpace(k.mem, dir), r)
  {
    var after := AddressSpace(AfterMapPage(k, dir, start, r).mem, dir);
    var bound := Bind(AddressSpace(k.mem, dir), r);
    forall v: nat | v < SELF_MAP
      ensures (v in after <==> v in bound) && (v in after ==> after[v] == bound[v])
    {
      MapPageEntries(k, dir, start, r, v);
      BoundAt(k.mem, AfterMapPage(k, dir, start, r).mem, dir, r, v);
    }
    assert after.Keys == bound.Keys;
  }

  /** An entry changed as Bind says, or a 0 where there was no table, is the same in both maps. */
  lemma BoundAt(m: Memory, m1: Memory, dir: nat, r: Request, v: nat)
    requires dir < FRAMES && v < SELF_MAP
    requires if v == r.vpn then Entry(m1, dir, v) == Some(r.pte)
             else Entry(m1, dir, v) == Entry(m, dir, v) || (Entry(m, dir, v).None? && Entry(m1, dir, v) == Some(0))
    ensures var after, bound := AddressSpace(m1, dir), Bind(AddressSpace(m, dir), r);
      (v in after <==> v in bound) && (v in after ==> after[v] == bound[v])
  {
  }

  /** With an aligned address and flag bits below 4096, one of them Present, the page translates to the frame. */
  lemma MappedPageTranslates(k: Kernel, dir: nat, start: nat, virt: Word, phys: Word, flags: Word)
    requires Inv(k, dir) && phys % 4096 == 0 && flags < 4096 && flags % 2 == 1
    requires Slot(Decode(virt, phys, flags)) < 1023
    ensures var m := AfterMapPage(k, dir, start, Decode(virt, phys, flags)).mem;
      Entry(m, dir, virt / 4096) == Some(phys + flags) && Translate(m, dir, virt / 4096) == Some(phys / 4096)
  {
    var r := Decode(virt, phys, flags);
    AlignedOr(phys, flags);
    MapPageEntries(k, dir, start, r, r.vpn);
  }

  /** The directory entry of a new table is its address with flags 7 if the call's flags have bit 2, and 3 if not. */
  lemma NewDirectoryEntry(k: Kernel, dir: nat, start: nat, virt: Word, phys: Word, flags: Word)
    requires Inv(k, dir) && virt < 0xFFC0_0000 && !Present(k.mem[dir][virt / 0x40_0000])
    ensures AfterMapPage(k, dir, start, Decode(virt, phys, flags)).mem[dir][virt / 0x40_0000]
         == 4096 * NewTable(k.free, start) + if flags % 8 >= 4 then 7 else 3
  {
    var r := Decode(virt, phys, flags);
    SlotOf(virt);
    NewEntryOf(k, dir, start, r);
    UserFlag(flags);
  }

  lemma SlotOf(virt: Word)
    ensures virt / 4096 / 1024 == virt / 0x40_0000
    ensures virt < 0xFFC0_0000 ==> virt / 0x40_0000 < 1023
  {
  }

  lemma UserFlag(flags: Word)
    ensures flags / 4 % 2 == 1 <==> flags % 8 >= 4
  {
  }

  lemma NewEntryOf(k: Kernel, dir: nat, start: nat, r: Request)
    requires Inv(k, dir) && Slot(r) < 1023 && !Present(k.mem[dir][Slot(r)])
    ensures AfterMapPage(k, dir, start, r).mem[dir][Slot(r)] == EntryFor(NewTable(k.free, start), r.user)
  {
    FreshTable(k, dir, start, r);
  }

  // ----- Runs of calls

  ghost function Run(k: Kernel, dir: nat, start: nat, rs: seq<Request>): Kernel
    requires dir < FRAMES
  {
    if rs == [] then k else AfterMapPage(Run(k, dir, start, rs[..|rs| - 1]), dir, start, rs[|rs| - 1])
  }

  /** Every call of the run is made below the self map, keeps the window, and finds a frame where it needs one. */
  ghost predicate RunAllowed(k: Kernel, dir: nat, start: nat, rs: seq<Request>)
    requires dir < FRAMES
  {
    rs == [] ||
    var before, r := Run(k, dir, start, rs[..|rs| - 1]), rs[|rs| - 1];
    RunAllowed(k, dir, start, rs[..|rs| - 1])
    && Slot(r) < 1023 && TableAvailable(before, dir, start, r) && KeepsWindow(before, dir, r)
  }

  ghost function BindAll(space: map<nat, Word>, rs: seq<Request>): map<nat, Word> {
    if rs == [] then space else Bind(BindAll(space, rs[..|rs| - 1]), rs[|rs| - 1])
  }

  /** Any run of calls keeps the invariant and is the same run of abstract updates. */
  lemma {:induction false} RunRefines(k: Kernel, dir: nat, start: nat, rs: seq<Request>)
    requires Inv(k, dir) && RunAllowed(k, dir, start, rs)
    ensures Inv(Run(k, dir, start, rs), dir)
    ensures AddressSpace(Run(k, dir, start, rs).mem, dir) == BindAll(AddressSpace(k.mem, dir), rs)
  {
    if rs != [] {
      var before := Run(k, dir, start, rs[..|rs| - 1]);
      RunRefines(k, dir, start, rs[..|rs| - 1]);
      MapPageKeepsInv(before, dir, start, rs[|rs| - 1]);
      MapPageRefinesBind(before, dir, start, rs[|rs| - 1]);
    }
  }

  /** Every call of the run finds its directory and its table in view. */
  ghost predicate RunsThroughout(k: Kernel, dir: nat, start: nat, rs: seq<Request>)
    requires dir < FRAMES
  {
    rs == [] || (RunsThroughout(k, dir, start, rs[..|rs| - 1])
                 && Runs(Run(k, dir, start, rs[..|rs| - 1]), dir, start, rs[|rs| - 1]))
  }

  lemma {:induction false} AllowedRuns(k: Kernel, dir: nat, start: nat, rs: seq<Request>)
    requires Inv(k, dir) && RunAllowed(k, dir, start, rs)
    ensures RunsThroughout(k, dir, start, rs)
  {
    if rs != [] {
      AllowedRuns(k, dir, start, rs[..|rs| - 1]);
      RunRefines(k, dir, start, rs[..|rs| - 1]);
      RunsIff(Run(k, dir, start, rs[..|rs| - 1]), dir, start, rs[|rs| - 1]);
    }
  }

  // ----- The recursive self map

  /** All the self map needs: the directory is in slot 1023 and serves as no other slot's table. */
  ghost predicate SelfMapped(k: Kernel, dir: nat) {
    && 0 < dir < FRAMES && dir !in k.free && k.mem[dir][1023] == EntryFor(dir, false)
    && forall pd :: 0 <= pd < 1023 && Present(k.mem[dir][pd]) ==> FrameOf(k.mem[dir][pd]) != dir
  }

  lemma MapPageKeepsSelfMap(k: Kernel, dir: nat, start: nat, r: Request)
    requires SelfMapped(k, dir) && Slot(r) < 1023
    ensures SelfMapped(AfterMapPage(k, dir, start, r), dir)
  {
    FirstFreeIsLowest(k.free, start);
    var k1 := WithTable(k, dir, start, r);
    assert FrameOf(k1.mem[dir][Slot(r)]) != dir;
    assert AfterMapPage(k, dir, start, r).mem[dir] == k1.mem[dir];
  }

  lemma {:induction false} RunKeepsSelfMap(k: Kernel, dir: nat, start: nat, rs: seq<Request>)
    requires SelfMapped(k, dir) && forall i :: 0 <= i < |rs| ==> Slot(rs[i]) < 1023
    ensures SelfMapped(Run(k, dir, start, rs), dir)
  {
    if rs != [] {
      RunKeepsSelfMap(k, dir, start, rs[..|rs| - 1]);
      MapPageKeepsSelfMap(Run(k, dir, start, rs[..|rs| - 1]), dir, start, rs[|rs| - 1]);
    }
  }

  /** Through slot 1023 the directory serves as its own table, so a table's frame shows up as page SELF_MAP + slot. */
  lemma SelfMapTranslates(m: Memory, dir: nat, pd: nat)
    requires dir < FRAMES && pd < 1024 && m[dir][1023] == EntryFor(dir, false)
    ensures Translate(m, dir, SELF_MAP + pd) == if Present(m[dir][pd]) then Some(FrameOf(m[dir][pd])) else None
  {
    assert (SELF_MAP + pd) / 1024 == 1023 && (SELF_MAP + pd) % 1024 == pd;
    assert Entry(m, dir, SELF_MAP + pd) == Some(m[dir][pd]);
  }

  lemma SelfMapWord(m: Memory, dir: nat, v: nat)
    requires dir < FRAMES && v < FRAMES && m[dir][1023] == EntryFor(dir, false)
    ensures WordAt(m, dir, 0xFFC0_0000 + 4 * v) == Entry(m, dir, v)
  {
    var va := 0xFFC0_0000 + 4 * v;
    assert va / 4096 == SELF_MAP + v / 1024 && va % 4096 / 4 == v % 1024;
    SelfMapTranslates(m, dir, v / 1024);
  }

  lemma SelfMapBoth(m: Memory, dir: nat, v: nat, pd: nat)
    requires dir < FRAMES && v < FRAMES && pd < 1024 && m[dir][1023] == EntryFor(dir, false)
    ensures WordAt(m, dir, 0xFFC0_0000 + 4 * v) == Entry(m, dir, v)
    ensures WordAt(m, dir, 0xFFFF_F000 + 4 * pd) == Some(m[dir][pd])
  {
    SelfMapWord(m, dir, v);
    var own: nat := SELF_MAP + pd;
    SelfMapWord(m, dir, own);
    assert 0xFFFF_F000 + 4 * pd == 0xFFC0_0000 + 4 * own;
    assert own / 1024 == 1023 && own % 1024 == pd;
    assert Entry(m, dir, own) == Some(m[dir][pd]);
  }

  // ----- When the invariant breaks

  /** A call below the self map keeps the invariant if and only if its table is there or a frame is available for it,
      and it does not take away the kernel's view of a frame it needs. */
  lemma InvKeptIff(k: Kernel, dir: nat, start: nat, r: Request)
    requires Inv(k, dir) && Slot(r) < 1023
    ensures Inv(AfterMapPage(k, dir, start, r), dir) <==> TableAvailable(k, dir, start, r) && KeepsWindow(k, dir, r)
  {
    if !TableAvailable(k, dir, start, r) {
      NoTableBreaksInv(k, dir, start, r);
    } else if KeepsWindow(k, dir, r) {
      MapPageKeepsInv(k, dir, start, r);
    } else {
      var f := r.vpn - WINDOW_BASE;
      StillNeeded(k, dir, start, r, f);
      MapPageEntries(k, dir, start, r, r.vpn);
    }
  }

  lemma NoTableBreaksInv(k: Kernel, dir: nat, start: nat, r: Request)
    requires Inv(k, dir) && Slot(r) < 1023 && !TableAvailable(k, dir, start, r)
    ensures !Inv(AfterMapPage(k, dir, start, r), dir)
  {
    var k1, k2 := WithTable(k, dir, start, r), AfterMapPage(k, dir, start, r);
    var f := NewTable(k.free, start);
    FirstFreeIsLowest(k.free, start);
    assert f == 0 || WINDOW_FRAMES <= f;
    assert k1.mem[dir][Slot(r)] == EntryFor(f, r.user);
    assert k2.mem[dir] == k1.mem[dir];
  }

  /** A frame that was needed still is: a free frame stays free or becomes a table. */
  lemma StillNeeded(k: Kernel, dir: nat, start: nat, r: Request, f: nat)
    requires Inv(k, dir) && Slot(r) < 1023 && TableAvailable(k, dir, start, r) && Needed(k, dir, f)
    ensures Needed(AfterMapPage(k, dir, start, r), dir, f)
  {
    var k1, k2 := WithTable(k, dir, start, r), AfterMapPage(k, dir, start, r);
    WithTableKeeps(k, dir, start, r);
    assert k2.mem[dir] == k1.mem[dir];
    if !Present(k.mem[dir][Slot(r)]) {
      FreshTable(k, dir, start, r);
      assert f in k.free && f !in k1.free ==> FrameOf(k2.mem[dir][Slot(r)]) == f;
    }
    if IsTable(k.mem, dir, f) {
      var pd :| 0 <= pd < 1023 && Present(k.mem[dir][pd]) && FrameOf(k.mem[dir][pd]) == f;
      MapPageSlots(k, dir, start, r, pd);
    }
  }

  /** The invariant holds after every call of the run. */
  ghost predicate InvThroughout(k: Kernel, dir: nat, start: nat, rs: seq<Request>)
    requires dir < FRAMES
  {
    Inv(Run(k, dir, start, rs), dir) && (rs == [] || InvThroughout(k, dir, start, rs[..|rs| - 1]))
  }

  /** A run below the self map keeps the invariant throughout if and only if it is allowed. */
  lemma {:induction false} InvThroughoutIffAllowed(k: Kernel, dir: nat, start: nat, rs: seq<Request>)
    requires Inv(k, dir) && forall i :: 0 <= i < |rs| ==> Slot(rs[i]) < 1023
    ensures InvThroughout(k, dir, start, rs) <==> RunAllowed(k, dir, start, rs)
  {
    if rs != [] {
      var earlier := rs[..|rs| - 1];
      InvThroughoutIffAllowed(k, dir, start, earlier);
      if RunAllowed(k, dir, start, earlier) {
        RunRefines(k, dir, start, earlier);
        InvKeptIff(Run(k, dir, start, earlier), dir, start, rs[|rs| - 1]);
      }
    }
  }

  // ----- Running the code, and running out of frames

  /** Clearing a frame that is neither the directory nor the table of g's window slot leaves g in view. */
  lemma ReachAfterClear(m: Memory, m1: Memory, dir: nat, f: nat, g: nat)
    requires dir < FRAMES && f < FRAMES && g < WINDOW_FRAMES && Reaches(m, dir, g)
    requires f != dir && f != FrameOf(m[dir][WindowSlot(g)]) && m1 == m[f := m1[f]]
    ensures Reaches(m1, dir, g)
  {
  }

  /** Linking an absent slot leaves g in view. */
  lemma ReachAfterLink(m: Memory, dir: nat, pd: nat, e: Word, g: nat)
    requires dir < FRAMES && pd < 1024 && g < WINDOW_FRAMES && Reaches(m, dir, g) && !Present(m[dir][pd])
    ensures Reaches(Write(m, dir, pd, e), dir, g)
  {
  }

  /** After the table step of a call that runs, the directory and the table are in view. */
  lemma ReachAfterTable(k: Kernel, dir: nat, start: nat, r: Request)
    requires Runs(k, dir, start, r)
    ensures var m1 := WithTable(k, dir, start, r).mem;
      var t := FrameOf(m1[dir][Slot(r)]);
      Reaches(m1, dir, dir) && t < WINDOW_FRAMES && Reaches(m1, dir, t)
  {
    if !Present(k.mem[dir][Slot(r)]) {
      var f := NewTable(k.free, start);
      var m := k.mem[f := ZeroFrame()];
      ReachAfterClear(k.mem, m, dir, f, dir);
      ReachAfterClear(k.mem, m, dir, f, f);
      ReachAfterLink(m, dir, Slot(r), EntryFor(f, r.user), dir);
      ReachAfterLink(m, dir, Slot(r), EntryFor(f, r.user), f);
    }
  }

  /** Under the invariant a call below the self map runs if and only if its table is available, or no frame is left and
      the first window page reaches frame 0. */
  lemma RunsIff(k: Kernel, dir: nat, start: nat, r: Request)
    requires Inv(k, dir) && Slot(r) < 1023
    ensures Runs(k, dir, start, r)
       <==> TableAvailable(k, dir, start, r) || (FirstFree(k.free, start).None? && Reaches(k.mem, dir, 0))
  {
    assert Needed(k, dir, dir);
    if Present(k.mem[dir][Slot(r)]) {
      assert IsTable(k.mem, dir, FrameOf(k.mem[dir][Slot(r)]));
      assert Needed(k, dir, FrameOf(k.mem[dir][Slot(r)]));
    } else if TableAvailable(k, dir, start, r) {
      FreshTable(k, dir, start, r);
      assert Needed(k, dir, NewTable(k.free, start));
    }
  }

  /** The unchecked 0: with no frame left, calls into two absent slots both run and share frame 0 as their table, and
      the second erases what the first mapped. */
  lemma ExhaustedCallsAlias(k: Kernel, dir: nat, start: nat, r1: Request, r2: Request)
    requires Inv(k, dir) && FirstFree(k.free, start).None? && Reaches(k.mem, dir, 0)
    requires Slot(r1) < 1023 && Slot(r2) < 1023 && Slot(r1) != Slot(r2)
    requires !Present(k.mem[dir][Slot(r1)]) && !Present(k.mem[dir][Slot(r2)])
    ensures var k1 := AfterMapPage(k, dir, start, r1);
      && Runs(k, dir, start, r1) && Runs(k1, dir, start, r2)
      && Entry(k1.mem, dir, r1.vpn) == Some(r1.pte)
      && Entry(AfterMapPage(k1, dir, start, r2).mem, dir, r1.vpn)
           == if r1.vpn % 1024 == r2.vpn % 1024 then Some(r2.pte) else Some(0)
  {
    RunsIff(k, dir, start, r1);
    ZeroTable(k, dir, start, r1);
    var k1 := AfterMapPage(k, dir, start, r1);
    SecondCallRuns(k, dir, start, r1, r2);
    ZeroTable(k1, dir, start, r2);
  }

  /** What a call with no frame left does to memory. */
  lemma ZeroTable(k: Kernel, dir: nat, start: nat, r: Request)
    requires 0 < dir < FRAMES && FirstFree(k.free, start).None? && !Present(k.mem[dir][Slot(r)])
    ensures AfterMapPage(k, dir, start, r).free == k.free
    ensures var m := AfterMapPage(k, dir, start, r).mem;
      && m[dir] == k.mem[dir][Slot(r) := EntryFor(0, r.user)] && m[0] == ZeroFrame()[r.vpn % 1024 := r.pte]
      && forall f :: 0 < f < FRAMES && f != dir ==> m[f] == k.mem[f]
  {
  }

  lemma SecondCallRuns(k: Kernel, dir: nat, start: nat, r1: Request, r2: Request)
    requires Inv(k, dir) && FirstFree(k.free, start).None? && Reaches(k.mem, dir, 0)
    requires Slot(r1) < 1023 && Slot(r2) < 1023 && Slot(r1) != Slot(r2)
    requires !Present(k.mem[dir][Slot(r1)]) && !Present(k.mem[dir][Slot(r2)])
    ensures Runs(AfterMapPage(k, dir, start, r1), dir, start, r2)
  {
    ZeroTable(k, dir, start, r1);
    assert Needed(k, dir, dir);
    StillReached(k, dir, start, r1, dir);
    StillReached(k, dir, start, r1, 0);
  }

  lemma StillReached(k: Kernel, dir: nat, start: nat, r: Request, g: nat)
    requires Inv(k, dir) && FirstFree(k.free, start).None? && !Present(k.mem[dir][Slot(r)])
    requires g < WINDOW_FRAMES && Reaches(k.mem, dir, g)
    ensures var m := AfterMapPage(k, dir, start, r).mem;
      Reaches(m, dir, g) && m[dir][WindowSlot(g)] == k.mem[dir][WindowSlot(g)] && FrameOf(m[dir][WindowSlot(g)]) != 0
  {
    ZeroTable(k, dir, start, r);
  }
}
