/** Physical memory and the two-level hardware walk: section 4.3, "32-Bit Paging", of the Intel 64 and IA-32
    Architectures Software Developer's Manual, volume 3A, with CR4.PSE clear (the kernel never sets it) and CR0.WP set
    (src/boot/boot.s sets it), so that a supervisor store needs the read/write bit of both entries. */
module Mmu {
  import opened Words

  const FRAMES: nat := 0x10_0000

  /** A frame as 1024 words, and the 2^20 frames of a 32-bit physical address space. */
  type Frame = f: seq<Word> | |f| == 1024 witness seq(1024, i => 0)
  type Memory = m: seq<Frame> | |m| == 0x10_0000 witness seq<Frame>(0x10_0000, f => ZeroFrame())

  function ZeroFrame(): Frame {
    seq(1024, i => 0)
  }

  predicate Present(entry: Word) {
    entry % 2 == 1
  }

  predicate Writable(entry: Word) {
    entry / 2 % 2 == 1
  }

  function FrameOf(entry: Word): (f: nat)
    ensures f < FRAMES
  {
    entry / 4096
  }

  /** In literal bits: bit 0 is Present, bit 1 is read/write, and the frame is in the upper 20 bits. */
  lemma EntryBits(f: nat, flags: nat)
    requires f < FRAMES && flags < 4096
    ensures FrameOf(4096 * f + flags) == f
    ensures Present(4096 * f + flags) <==> flags % 2 == 1
    ensures Writable(4096 * f + flags) <==> flags % 4 == 2 || flags % 4 == 3
  {
    var q, r: nat := flags / 4, flags % 4;
    LowBits(1024 * f + q, r);
  }

  lemma LowBits(q: nat, r: nat)
    requires r < 4
    ensures (4 * q + r) % 2 == r % 2 && (4 * q + r) / 2 % 2 == r / 2
  {
    assert (4 * q + r) / 2 == 2 * q + r / 2;
  }

  function Write(m: Memory, f: nat, i: nat, w: Word): Memory
    requires f < FRAMES && i < 1024
  {
    m[f := m[f][i := w]]
  }

  /** The page-table entry the walk finds for a virtual page, if its directory entry is present. */
  function Entry(m: Memory, dir: nat, vpn: nat): Option<Word>
    requires dir < FRAMES && vpn < FRAMES
  {
    var pde := m[dir][vpn / 1024];
    if Present(pde) then Some(m[FrameOf(pde)][vpn % 1024]) else None
  }

  /** The frame a virtual page is mapped to. */
  function Translate(m: Memory, dir: nat, vpn: nat): (frame: Option<nat>)
    requires dir < FRAMES && vpn < FRAMES
    ensures frame.Some? ==> frame.value < FRAMES
  {
    match Entry(m, dir, vpn)
    case None => None
    case Some(pte) => if Present(pte) then Some(FrameOf(pte)) else None
  }

  /** The frame a supervisor store to a virtual page goes to, if it does not fault. */
  function StoreTarget(m: Memory, dir: nat, vpn: nat): (frame: Option<nat>)
    requires dir < FRAMES && vpn < FRAMES
    ensures frame.Some? ==> frame == Translate(m, dir, vpn)
  {
    match Entry(m, dir, vpn)
    case None => None
    case Some(pte) =>
      if Present(pte) && Writable(pte) && Writable(m[dir][vpn / 1024]) then Some(FrameOf(pte)) else None
  }

  /** The word at a virtual address, if it is mapped. */
  function WordAt(m: Memory, dir: nat, va: Word): Option<Word>
    requires dir < FRAMES
  {
    match Translate(m, dir, va / 4096)
    case None => None
    case Some(f) => Some(m[f][va % 4096 / 4])
  }

  /** The machine: RAM, and the directory frame in CR3. Loads and stores go through the walk. */
  class Mmu {
    const directory: nat
    const ram: array2<Word>
    ghost var memory: Memory

    ghost predicate Valid()
      reads this, ram
    {
      && directory < FRAMES && ram.Length0 == FRAMES && ram.Length1 == 1024
      && forall f: nat, i: nat :: f < FRAMES && i < 1024 ==> ram[f, i] == memory[f][i]
    }

    method Load(va: Word) returns (w: Word)
      requires Valid() && va % 4 == 0
      requires Translate(memory, directory, va / 4096).Some?
      ensures Some(w) == WordAt(memory, directory, va)
    {
      var pde := ram[directory, va / 0x40_0000];
      var pte := ram[pde / 4096, va / 0x1000 % 1024];
      w := ram[pte / 4096, va % 4096 / 4];
    }

    method Store(va: Word, w: Word)
      requires Valid() && va % 4 == 0
      requires StoreTarget(memory, directory, va / 4096).Some?
      modifies this`memory, ram
      ensures Valid()
      ensures memory == Write(old(memory), StoreTarget(old(memory), directory, va / 4096).value, va % 4096 / 4, w)
    {
      var pde := ram[directory, va / 0x40_0000];
      var pte := ram[pde / 4096, va / 0x1000 % 1024];
      ram[pte / 4096, va % 4096 / 4] := w;
      memory := Write(memory, FrameOf(pte), va % 4096 / 4, w);
    }
  }
}
