/** `map_page` access by access: every load and store is translated by the tables as they are at that moment, so a store
    can fault, and it can land in another frame than the one it means. */
module Execution {
  import opened Words
  import opened FrameAllocator
  import opened Mmu
  import opened PageMapping

  /** The virtual page that `frame address + KERNEL_OFFSET` is in, in 32-bit arithmetic. */
  function WindowPage(f: nat): (v: nat)
    requires f < FRAMES
    ensures v < FRAMES
    ensures f < WINDOW_FRAMES ==> v == WINDOW_BASE + f
  {
    if f < FRAMES - WINDOW_BASE then WINDOW_BASE + f else f - (FRAMES - WINDOW_BASE)
  }

  /** Word i of virtual page v, if the load does not fault. */
  function LoadThrough(m: Memory, dir: nat, v: nat, i: nat): Option<Word>
    requires dir < FRAMES && v < FRAMES && i < 1024
  {
    match Translate(m, dir, v)
    case None => None
    case Some(f) => Some(m[f][i])
  }

  /** Memory after a store to word i of virtual page v, if the store does not fault. */
  function StoreThrough(m: Memory, dir: nat, v: nat, i: nat, w: Word): Option<Memory>
    requires dir < FRAMES && v < FRAMES && i < 1024
  {
    match StoreTarget(m, dir, v)
    case None => None
    case Some(f) => Some(Write(m, f, i, w))
  }

  const WORDS: nat := 1024

  /** Memory after the first n stores of the clearing loop. */
  function Cleared(m: Memory, dir: nat, v: nat, n: nat): Option<Memory>
    requires dir < FRAMES && v < FRAMES && n <= 1024
  {
    if n == 0 then Some(m)
    else
      match Cleared(m, dir, v, n - 1)
      case None => None
      case Some(m1) => StoreThrough(m1, dir, v, n - 1, 0)
  }

  /** If the loop gets through, no store of it faulted. */
  lemma {:induction false} NoFaultBefore(m: Memory, dir: nat, v: nat, i: nat, n: nat)
    requires dir < FRAMES && v < FRAMES && i <= n <= 1024 && Cleared(m, dir, v, n).Some?
    ensures Cleared(m, dir, v, i).Some?
  {
    if i < n {
      NoFaultBefore(m, dir, v, i, n - 1);
    }
  }

  lemma ClearedNext(m: Memory, m1: Memory, dir: nat, v: nat, i: nat)
    requires dir < FRAMES && v < FRAMES && i < WORDS && Cleared(m, dir, v, WORDS).Some?
    requires Cleared(m, dir, v, i) == Some(m1)
    ensures StoreThrough(m1, dir, v, i, 0).Some? && StoreThrough(m1, dir, v, i, 0) == Cleared(m, dir, v, i + 1)
  {
    NoFaultBefore(m, dir, v, i + 1, WORDS);
  }

  /** A slot that reads as absent gets the allocator's answer as its table. */
  ghost function NewTableStep(k: Kernel, dir: nat, start: nat, r: Request): Option<Kernel>
    requires dir < FRAMES
  {
    var f := NewTable(k.free, start);
    match Cleared(k.mem, dir, WindowPage(f), WORDS)
    case None => None
    case Some(m1) =>
      match StoreThrough(m1, dir, WindowPage(dir), Slot(r), EntryFor(f, r.user))
      case None => None
      case Some(m2) => Some(Kernel(m2, Taken(k.free, start)))
  }

  ghost function TableStep(k: Kernel, dir: nat, start: nat, r: Request): Option<Kernel>
    requires dir < FRAMES
  {
    match LoadThrough(k.mem, dir, WindowPage(dir), Slot(r))
    case None => None
    case Some(pde) => if Present(pde) then Some(k) else NewTableStep(k, dir, start, r)
  }

  ghost function EntryStep(k: Kernel, dir: nat, r: Request): Option<Kernel>
    requires dir < FRAMES
  {
    match LoadThrough(k.mem, dir, WindowPage(dir), Slot(r))
    case None => None
    case Some(pde) =>
      match StoreThrough(k.mem, dir, WindowPage(FrameOf(pde)), r.vpn % 1024, r.pte)
      case None => None
      case Some(m) => Some(Kernel(m, k.free))
  }

  /** The whole call, or None if an access faults. */
  ghost function Executed(k: Kernel, dir: nat, start: nat, r: Request): Option<Kernel>
    requires dir < FRAMES
  {
    match TableStep(k, dir, start, r)
    case None => None
    case Some(k1) => EntryStep(k1, dir, r)
  }

  // ----- Calls that run as they mean to

  lemma {:induction false} ClearedIs(m: Memory, dir: nat, f: nat, n: nat)
    requires dir < FRAMES && f < WINDOW_FRAMES && n <= 1024 && Reaches(m, dir, f)
    requires f != dir && f != FrameOf(m[dir][WindowSlot(f)])
    ensures Cleared(m, dir, WINDOW_BASE + f, n).Some?
    ensures var m1 := Cleared(m, dir, WINDOW_BASE + f, n).value;
      m1 == m[f := m1[f]] && forall j :: 0 <= j < n ==> m1[f][j] == 0
  {
    if n > 0 {
      ClearedIs(m, dir, f, n - 1);
      ReachAfterClear(m, Cleared(m, dir, WINDOW_BASE + f, n - 1).value, dir, f, f);
    }
  }

  lemma AllCleared(m: Memory, dir: nat, f: nat)
    requires dir < FRAMES && f < WINDOW_FRAMES && Reaches(m, dir, f)
    requires f != dir && f != FrameOf(m[dir][WindowSlot(f)])
    ensures Cleared(m, dir, WINDOW_BASE + f, WORDS) == Some(m[f := ZeroFrame()])
  {
    ClearedIs(m, dir, f, WORDS);
    assert Cleared(m, dir, WINDOW_BASE + f, WORDS).value[f] == ZeroFrame();
  }

  /** Accesses to a frame in view reach it. */
  lemma InViewAccess(m: Memory, dir: nat, f: nat, i: nat, w: Word)
    requires dir < FRAMES && f < WINDOW_FRAMES && Reaches(m, dir, f) && i < 1024
    ensures LoadThrough(m, dir, WindowPage(f), i) == Some(m[f][i])
    ensures StoreThrough(m, dir, WindowPage(f), i, w) == Some(Write(m, f, i, w))
  {
  }

  lemma NewTableStepIs(k: Kernel, dir: nat, start: nat, r: Request)
    requires Runs(k, dir, start, r) && !Present(k.mem[dir][Slot(r)])
    ensures NewTableStep(k, dir, start, r) == Some(WithTable(k, dir, start, r))
  {
    var f := NewTable(k.free, start);
    var m1 := k.mem[f := ZeroFrame()];
    AllCleared(k.mem, dir, f);
    ReachAfterClear(k.mem, m1, dir, f, dir);
    InViewAccess(m1, dir, dir, Slot(r), EntryFor(f, r.user));
  }

  lemma TableStepIs(k: Kernel, dir: nat, start: nat, r: Request)
    requires Runs(k, dir, start, r)
    ensures TableStep(k, dir, start, r) == Some(WithTable(k, dir, start, r))
  {
    InViewAccess(k.mem, dir, dir, Slot(r), 0);
    if !Present(k.mem[dir][Slot(r)]) {
      NewTableStepIs(k, dir, start, r);
    }
  }

  lemma EntryStepIs(k: Kernel, dir: nat, r: Request)
    requires dir < WINDOW_FRAMES && Reaches(k.mem, dir, dir)
    requires var t := FrameOf(k.mem[dir][Slot(r)]); t < WINDOW_FRAMES && Reaches(k.mem, dir, t)
    ensures var t := FrameOf(k.mem[dir][Slot(r)]);
      EntryStep(k, dir, r) == Some(Kernel(Write(k.mem, t, r.vpn % 1024, r.pte), k.free))
  {
    InViewAccess(k.mem, dir, dir, Slot(r), 0);
    InViewAccess(k.mem, dir, FrameOf(k.mem[dir][Slot(r)]), r.vpn % 1024, r.pte);
  }

  /** Under Runs no access faults, and each lands where it means to. */
  lemma RunsExecutes(k: Kernel, dir: nat, start: nat, r: Request)
    requires Runs(k, dir, start, r)
    ensures Executed(k, dir, start, r) == Some(AfterMapPage(k, dir, start, r))
  {
    TableStepIs(k, dir, start, r);
    ReachAfterTable(k, dir, start, r);
    EntryStepIs(WithTable(k, dir, start, r), dir, r);
  }

  /** A call that runs from the invariant is one abstract map update, also when it finds no frame left. */
  lemma CallRefinesBind(k: Kernel, dir: nat, start: nat, r: Request)
    requires Inv(k, dir) && Slot(r) < 1023 && Runs(k, dir, start, r)
    ensures Executed(k, dir, start, r).Some?
    ensures AddressSpace(Executed(k, dir, start, r).value.mem, dir) == Bind(AddressSpace(k.mem, dir), r)
  {
    RunsExecutes(k, dir, start, r);
    MapPageRefinesBind(k, dir, start, r);
  }

  // ----- Runs of calls

  ghost function ExecutedRun(k: Kernel, dir: nat, start: nat, rs: seq<Request>): Option<Kernel>
    requires dir < FRAMES
  {
    if rs == [] then Some(k)
    else
      match ExecutedRun(k, dir, start, rs[..|rs| - 1])
      case None => None
      case Some(before) => Executed(before, dir, start, rs[|rs| - 1])
  }

  lemma {:induction false} RunExecutes(k: Kernel, dir: nat, start: nat, rs: seq<Request>)
    requires dir < FRAMES && RunsThroughout(k, dir, start, rs)
    ensures ExecutedRun(k, dir, start, rs) == Some(Run(k, dir, start, rs))
  {
    if rs != [] {
      RunExecutes(k, dir, start, rs[..|rs| - 1]);
      RunsExecutes(Run(k, dir, start, rs[..|rs| - 1]), dir, start, rs[|rs| - 1]);
    }
  }

  /** An allowed run executes as the same run of abstract updates and keeps the invariant. */
  lemma ExecutedRunRefines(k: Kernel, dir: nat, start: nat, rs: seq<Request>)
    requires Inv(k, dir) && RunAllowed(k, dir, start, rs)
    ensures ExecutedRun(k, dir, start, rs).Some?
    ensures var k1 := ExecutedRun(k, dir, start, rs).value;
      Inv(k1, dir) && AddressSpace(k1.mem, dir) == BindAll(AddressSpace(k.mem, dir), rs)
  {
    AllowedRuns(k, dir, start, rs);
    RunExecutes(k, dir, start, rs);
    RunRefines(k, dir, start, rs);
  }

  /** One more call that runs is one more abstract update, whether or not it keeps the invariant. */
  lemma RunThenCallRefines(k: Kernel, dir: nat, start: nat, rs: seq<Request>, r: Request)
    requires Inv(k, dir) && RunAllowed(k, dir, start, rs)
    requires Slot(r) < 1023 && Runs(Run(k, dir, start, rs), dir, start, r)
    ensures ExecutedRun(k, dir, start, rs + [r]).Some?
    ensures AddressSpace(ExecutedRun(k, dir, start, rs + [r]).value.mem, dir)
         == BindAll(AddressSpace(k.mem, dir), rs + [r])
  {
    assert (rs + [r])[..|rs|] == rs;
    AllowedRuns(k, dir, start, rs);
    RunExecutes(k, dir, start, rs + [r]);
    RunRefines(k, dir, start, rs);
    MapPageRefinesBind(Run(k, dir, start, rs), dir, start, r);
  }

  /** After any run of calls outside slot 1023 that run as they mean to, the word at 0xFFC00000 + 4 * v is the entry the
      walk finds for page v, and unmapped where it finds none; the word at 0xFFFFF000 + 4 * pd is directory entry pd. */
  lemma SelfMapReads(k: Kernel, dir: nat, start: nat, rs: seq<Request>, v: nat, pd: nat)
    requires SelfMapped(k, dir) && RunsThroughout(k, dir, start, rs) && v < FRAMES && pd < 1024
    requires forall i :: 0 <= i < |rs| ==> Slot(rs[i]) < 1023
    ensures ExecutedRun(k, dir, start, rs).Some?
    ensures var m := ExecutedRun(k, dir, start, rs).value.mem;
      && WordAt(m, dir, 0xFFC0_0000 + 4 * v) == Entry(m, dir, v)
      && WordAt(m, dir, 0xFFFF_F000 + 4 * pd) == Some(m[dir][pd])
  {
    RunExecutes(k, dir, start, rs);
    RunKeepsSelfMap(k, dir, start, rs);
    SelfMapBoth(Run(k, dir, start, rs).mem, dir, v, pd);
  }

  // ----- Stores that land elsewhere

  /** A call into a slot that has a table, with the directory in view, stores its word wherever the table's window page
      leads: to frame g. That spares directory entry 1023, and all present slots, exactly as stated. */
  lemma StoreSparesIff(k: Kernel, dir: nat, start: nat, r: Request, g: nat)
    requires dir < WINDOW_FRAMES && Reaches(k.mem, dir, dir) && Present(k.mem[dir][Slot(r)])
    requires StoreTarget(k.mem, dir, WindowPage(FrameOf(k.mem[dir][Slot(r)]))) == Some(g)
    ensures Executed(k, dir, start, r) == Some(Kernel(Write(k.mem, g, r.vpn % 1024, r.pte), k.free))
    ensures var before, after, i := k.mem[dir], Executed(k, dir, start, r).value.mem[dir], r.vpn % 1024;
      && (after[1023] == before[1023] <==> g != dir || i != 1023 || r.pte == before[1023])
      && ((forall pd :: 0 <= pd < 1024 && Present(before[pd]) ==> after[pd] == before[pd])
          <==> g != dir || !Present(before[i]) || r.pte == before[i])
  {
    var before, i := k.mem[dir], r.vpn % 1024;
    var after := Write(k.mem, g, i, r.pte)[dir];
    assert forall pd :: 0 <= pd < 1024 ==> after[pd] == if g == dir && pd == i then r.pte else before[pd];
    assert g == dir ==> after[i] == r.pte;
  }

  /** A call that maps the window page of frame t to the directory, and one for the last page of slot pd. */
  function MapTableToDirectory(dir: nat, t: nat): Request
    requires dir < FRAMES && t < WINDOW_FRAMES
  {
    Request(WINDOW_BASE + t, false, EntryFor(dir, false))
  }

  function MapLastPage(pd: nat): Request
    requires pd < 1023
  {
    Request(1024 * pd + 1023, false, 0x5003)
  }

  /** Where stores to page v go after a call into a slot that has a table. */
  lemma TargetAfter(k: Kernel, dir: nat, start: nat, r: Request, v: nat)
    requires Inv(k, dir) && Slot(r) < 1023 && v < SELF_MAP
    requires Present(k.mem[dir][Slot(r)]) && Present(k.mem[dir][v / 1024])
    ensures v != r.vpn ==> StoreTarget(AfterMapPage(k, dir, start, r).mem, dir, v) == StoreTarget(k.mem, dir, v)
    ensures v == r.vpn && Present(r.pte) && Writable(r.pte) && Writable(k.mem[dir][Slot(r)]) ==>
              StoreTarget(AfterMapPage(k, dir, start, r).mem, dir, v) == Some(FrameOf(r.pte))
  {
    MapPageEntries(k, dir, start, r, v);
    MapPageSlots(k, dir, start, r, v / 1024);
  }

  lemma TableRedirected(k: Kernel, dir: nat, start: nat, pd: nat)
    requires Inv(k, dir) && pd < 1023 && Present(k.mem[dir][pd])
    ensures var t := FrameOf(k.mem[dir][pd]);
      var r1 := MapTableToDirectory(dir, t);
      && Runs(k, dir, start, r1) && !KeepsWindow(k, dir, r1)
      && var m1 := AfterMapPage(k, dir, start, r1).mem;
         && Reaches(m1, dir, dir) && StoreTarget(m1, dir, WINDOW_BASE + t) == Some(dir)
         && m1[dir][pd] == k.mem[dir][pd]
  {
    var t := FrameOf(k.mem[dir][pd]);
    var r1 := MapTableToDirectory(dir, t);
    assert IsTable(k.mem, dir, t) && Needed(k, dir, t) && Needed(k, dir, dir);
    assert Slot(r1) == WindowSlot(t);
    RunsIff(k, dir, start, r1);
    TargetAfter(k, dir, start, r1, WINDOW_BASE + t);
    TargetAfter(k, dir, start, r1, WINDOW_BASE + dir);
    MapPageSlots(k, dir, start, r1, pd);
  }

  /** Under the invariant any slot with a table can be used to lose the self map: after the first call, the second
      stores through the table's window page into the directory, where it overwrites entry 1023, and maps nothing. */
  lemma SelfMapLost(k: Kernel, dir: nat, start: nat, pd: nat)
    requires Inv(k, dir) && pd < 1023 && Present(k.mem[dir][pd])
    ensures var r1, r2 := MapTableToDirectory(dir, FrameOf(k.mem[dir][pd])), MapLastPage(pd);
      && ExecutedRun(k, dir, start, [r1]).Some? && ExecutedRun(k, dir, start, [r1, r2]).Some?
      && var m1, m2 := ExecutedRun(k, dir, start, [r1]).value.mem, ExecutedRun(k, dir, start, [r1, r2]).value.mem;
         m2[dir][1023] == 0x5003 && Entry(m2, dir, r2.vpn) == Entry(m1, dir, r2.vpn)
  {
    var r1, r2 := MapTableToDirectory(dir, FrameOf(k.mem[dir][pd])), MapLastPage(pd);
    BothCallsExecute(k, dir, start, pd);
    TwoCalls(k, dir, start, r1, r2);
  }

  lemma BothCallsExecute(k: Kernel, dir: nat, start: nat, pd: nat)
    requires Inv(k, dir) && pd < 1023 && Present(k.mem[dir][pd])
    ensures var k1 := Executed(k, dir, start, MapTableToDirectory(dir, FrameOf(k.mem[dir][pd])));
      && k1.Some? && Executed(k1.value, dir, start, MapLastPage(pd)).Some?
      && var m1, m2 := k1.value.mem, Executed(k1.value, dir, start, MapLastPage(pd)).value.mem;
         m2[dir][1023] == 0x5003 && Entry(m2, dir, MapLastPage(pd).vpn) == Entry(m1, dir, MapLastPage(pd).vpn)
  {
    var r1 := MapTableToDirectory(dir, FrameOf(k.mem[dir][pd]));
    TableRedirected(k, dir, start, pd);
    RunsExecutes(k, dir, start, r1);
    SecondCallOverwrites(AfterMapPage(k, dir, start, r1), dir, start, pd);
  }

  lemma SecondCallOverwrites(k: Kernel, dir: nat, start: nat, pd: nat)
    requires dir < WINDOW_FRAMES && pd < 1023 && Reaches(k.mem, dir, dir) && Present(k.mem[dir][pd])
    requires FrameOf(k.mem[dir][pd]) != dir
    requires StoreTarget(k.mem, dir, WindowPage(FrameOf(k.mem[dir][pd]))) == Some(dir)
    ensures Executed(k, dir, start, MapLastPage(pd)).Some?
    ensures var m2 := Executed(k, dir, start, MapLastPage(pd)).value.mem;
      m2[dir][1023] == 0x5003 && Entry(m2, dir, MapLastPage(pd).vpn) == Entry(k.mem, dir, MapLastPage(pd).vpn)
  {
    assert Slot(MapLastPage(pd)) == pd && MapLastPage(pd).vpn % 1024 == 1023;
    StoreSparesIff(k, dir, start, MapLastPage(pd), dir);
    LastPageUnmapped(k.mem, dir, pd);
  }

  lemma LastPageUnmapped(m: Memory, dir: nat, pd: nat)
    requires dir < FRAMES && pd < 1023 && FrameOf(m[dir][pd]) != dir
    ensures Entry(Write(m, dir, 1023, 0x5003), dir, MapLastPage(pd).vpn) == Entry(m, dir, MapLastPage(pd).vpn)
  {
    assert (1024 * pd + 1023) / 1024 == pd;
  }

  lemma TwoCalls(k: Kernel, dir: nat, start: nat, r1: Request, r2: Request)
    requires dir < FRAMES && Executed(k, dir, start, r1).Some?
    ensures ExecutedRun(k, dir, start, [r1]) == Executed(k, dir, start, r1)
    ensures ExecutedRun(k, dir, start, [r1, r2]) == Executed(Executed(k, dir, start, r1).value, dir, start, r2)
  {
    assert [r1][..0] == [] && [r1, r2][..1] == [r1];
    assert ExecutedRun(k, dir, start, []) == Some(k);
  }
}
