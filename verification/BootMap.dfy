/** The walk over the Multiboot2 boot information in src/boot/boot.c, against an encoder of that structure
    (sections 3.4 to 3.6 of the Multiboot2 Specification 2.0). Memory is read in aligned 32-bit words. */
module BootMap {
  import opened Words
  import opened FrameAllocator
  import opened AllocatorProperties

  const MAX_MEM_REGIONS: nat := 128
  const TAG_TYPE_END: Word := 0
  const TAG_TYPE_MMAP: Word := 6
  const MEMORY_AVAILABLE: Word := 1

  // ----- The structure a boot loader builds

  /** One memory map entry; `extra` is its reserved word and any words a larger entry size adds. */
  datatype Entry = Entry(addr: Quad, len: Quad, kind: Word, extra: seq<Word>)

  datatype Tag =
    | MemoryMap(entrySize: Word, version: Word, entries: seq<Entry>)
    | Other(kind: Word, size: Word, body: seq<Word>)

  function Low(q: Quad): Word { q % 0x1_0000_0000 }

  function High(q: Quad): Word { q / 0x1_0000_0000 }

  /** A 64-bit little-endian field read as two words. */
  function Join(low: Word, high: Word): (q: Quad)
    ensures Low(q) == low && High(q) == high
  {
    low + 0x1_0000_0000 * high
  }

  function EncodeEntry(e: Entry): seq<Word> {
    [Low(e.addr), High(e.addr), Low(e.len), High(e.len), e.kind] + e.extra
  }

  function EncodeEntries(entries: seq<Entry>): seq<Word> {
    if entries == [] then [] else EncodeEntry(entries[0]) + EncodeEntries(entries[1..])
  }

  ghost predicate SizedEntries(entries: seq<Entry>, entrySize: Word) {
    forall i :: 0 <= i < |entries| ==> 20 + 4 * |entries[i].extra| == entrySize
  }

  ghost predicate WellFormedTags(tags: seq<Tag>) {
    forall i :: 0 <= i < |tags| ==> WellFormed(tags[i])
  }

  /** Sizes are in bytes, at least 8, and a tag fills its size rounded up to 8 bytes. */
  ghost predicate WellFormed(tag: Tag) {
    match tag
    case MemoryMap(entrySize, _, entries) =>
      && entrySize % 8 == 0 && SizedEntries(entries, entrySize)
      && 16 + 4 * |EncodeEntries(entries)| + 7 < TWO_32
    case Other(kind, size, body) =>
      && kind != TAG_TYPE_END && kind != TAG_TYPE_MMAP
      && 8 <= size && size + 7 < TWO_32 && 4 * |body| + 8 == (size + 7) / 8 * 8
  }

  function EncodeTag(tag: Tag): seq<Word>
    requires WellFormed(tag)
  {
    match tag
    case MemoryMap(entrySize, version, entries) =>
      [TAG_TYPE_MMAP, 16 + 4 * |EncodeEntries(entries)|, entrySize, version] + EncodeEntries(entries)
    case Other(kind, size, body) => [kind, size] + body
  }

  function EncodeTags(tags: seq<Tag>): seq<Word>
    requires WellFormedTags(tags)
  {
    if tags == [] then [] else EncodeTag(tags[0]) + EncodeTags(tags[1..])
  }

  /** The whole structure: fixed part, tags, end tag, and whatever memory follows it. */
  function EncodeInfo(total: Word, reserved: Word, tags: seq<Tag>, beyond: seq<Word>): seq<Word>
    requires WellFormedTags(tags)
  {
    [total, reserved] + EncodeTags(tags) + [TAG_TYPE_END, 8] + beyond
  }

  // ----- What the walk should collect

  function AvailableEntries(entries: seq<Entry>): seq<Region> {
    if entries == [] then []
    else (if entries[0].kind == MEMORY_AVAILABLE then [Region(entries[0].addr, entries[0].len)] else [])
         + AvailableEntries(entries[1..])
  }

  function Available(tags: seq<Tag>): seq<Region> {
    if tags == [] then []
    else (if tags[0].MemoryMap? then AvailableEntries(tags[0].entries) else []) + Available(tags[1..])
  }

  function EndOf(r: Region): Quad {
    Wrap64(r.base + r.length)
  }

  function PageCount(end: Quad): Word {
    Wrap32(end / 4096)
  }

  function MaxEnd(regions: seq<Region>): Quad {
    if regions == [] then 0
    else
      var m, e := MaxEnd(regions[..|regions| - 1]), EndOf(regions[|regions| - 1]);
      if e > m then e else m
  }

  lemma {:induction false} MaxEndIsMaximum(regions: seq<Region>)
    ensures forall i :: 0 <= i < |regions| ==> EndOf(regions[i]) <= MaxEnd(regions)
    ensures regions != [] ==> exists i :: 0 <= i < |regions| && EndOf(regions[i]) == MaxEnd(regions)
  {
    if |regions| > 0 {
      var n := |regions| - 1;
      MaxEndIsMaximum(regions[..n]);
      assert EndOf(regions[n]) <= MaxEnd(regions);
      if regions[..n] != [] {
        var i :| 0 <= i < n && EndOf(regions[..n][i]) == MaxEnd(regions[..n]);
        assert EndOf(regions[i]) == MaxEnd(regions[..n]);
      }
    }
  }

  /** In sums: the value left is the greatest end address, modulo 2^64, and the page count is that over 4096. */
  lemma MaxEndInSums(regions: seq<Region>)
    requires regions != []
    ensures forall i :: 0 <= i < |regions| ==>
              (regions[i].base + regions[i].length) % 0x1_0000_0000_0000_0000 <= MaxEnd(regions)
    ensures exists i :: 0 <= i < |regions|
                        && (regions[i].base + regions[i].length) % 0x1_0000_0000_0000_0000 == MaxEnd(regions)
    ensures MaxEnd(regions) < 0x1000_0000_0000 ==> PageCount(MaxEnd(regions)) == MaxEnd(regions) / 4096
  {
    MaxEndIsMaximum(regions);
    forall i | 0 <= i < |regions|
      ensures EndOf(regions[i]) == (regions[i].base + regions[i].length) % 0x1_0000_0000_0000_0000
    {
    }
    var i :| 0 <= i < |regions| && EndOf(regions[i]) == MaxEnd(regions);
    assert (regions[i].base + regions[i].length) % 0x1_0000_0000_0000_0000 == MaxEnd(regions);
  }

  /** Where no end passes 2^64 it is the greatest sum. */
  lemma MaxEndPlain(regions: seq<Region>)
    requires regions != [] && forall r :: r in regions ==> r.base + r.length < 0x1_0000_0000_0000_0000
    ensures forall r :: r in regions ==> r.base + r.length <= MaxEnd(regions)
    ensures exists r :: r in regions && r.base + r.length == MaxEnd(regions)
  {
    MaxEndInSums(regions);
    forall i | 0 <= i < |regions|
      ensures (regions[i].base + regions[i].length) % 0x1_0000_0000_0000_0000 == regions[i].base + regions[i].length
    {
      assert regions[i] in regions;
    }
    var i :| 0 <= i < |regions|
             && (regions[i].base + regions[i].length) % 0x1_0000_0000_0000_0000 == MaxEnd(regions);
    assert regions[i] in regions;
  }

  /** An AVAILABLE entry of the boot information: type 1. */
  ghost predicate HasAvailable(tags: seq<Tag>, r: Region) {
    exists t, e :: t in tags && t.MemoryMap? && e in t.entries && e.kind == 1 && e.addr == r.base && e.len == r.length
  }

  /** End to end: the greatest end of an AVAILABLE entry. */
  lemma MaximumOfEntries(tags: seq<Tag>)
    requires Available(tags) != []
    requires forall r: Region :: HasAvailable(tags, r) ==> r.base + r.length < 0x1_0000_0000_0000_0000
    ensures forall r: Region :: HasAvailable(tags, r) ==> r.base + r.length <= MaxEnd(Available(tags))
    ensures exists r: Region :: HasAvailable(tags, r) && r.base + r.length == MaxEnd(Available(tags))
  {
    var regions := Available(tags);
    forall r: Region ensures HasAvailable(tags, r) <==> r in regions {
      AvailableIsFromEntries(tags, r);
    }
    MaxEndPlain(regions);
    var r :| r in regions && r.base + r.length == MaxEnd(regions);
    assert HasAvailable(tags, r);
  }

  lemma {:induction false} MaxEndGrows(a: seq<Region>, b: seq<Region>)
    ensures MaxEnd(a) <= MaxEnd(a + b)
  {
    if b == [] {
      assert a + b == a;
    } else {
      assert (a + b)[..|a + b| - 1] == a + b[..|b| - 1];
      MaxEndGrows(a, b[..|b| - 1]);
    }
  }

  /** An entry is available memory exactly when its region is collected. */
  lemma {:induction false} AvailableIsFromEntries(tags: seq<Tag>, r: Region)
    ensures r in Available(tags) <==>
      exists t, e :: t in tags && t.MemoryMap? && e in t.entries && e.kind == MEMORY_AVAILABLE
                     && r == Region(e.addr, e.len)
  {
    if tags != [] {
      AvailableIsFromEntries(tags[1..], r);
      if tags[0].MemoryMap? {
        AvailableEntriesMember(tags[0].entries, r);
      }
    }
  }

  lemma {:induction false} AvailableEntriesMember(entries: seq<Entry>, r: Region)
    ensures r in AvailableEntries(entries) <==>
      exists e :: e in entries && e.kind == MEMORY_AVAILABLE && r == Region(e.addr, e.len)
  {
    if entries != [] {
      AvailableEntriesMember(entries[1..], r);
    }
  }

  lemma Concat3<T>(a: seq<T>, b: seq<T>, c: seq<T>)
    ensures (a + b) + c == a + (b + c)
  {
  }

  lemma {:induction false} StepEntries(before: seq<Region>, rest: seq<Entry>)
    requires rest != []
    ensures before + AvailableEntries(rest) == WithEntry(before, rest[0]) + AvailableEntries(rest[1..])
  {
    if rest[0].kind == MEMORY_AVAILABLE {
      Concat3(before, [Region(rest[0].addr, rest[0].len)], AvailableEntries(rest[1..]));
    } else {
      assert AvailableEntries(rest) == AvailableEntries(rest[1..]);
    }
  }

  /** The regions after one more entry. */
  function WithEntry(before: seq<Region>, e: Entry): seq<Region> {
    if e.kind == MEMORY_AVAILABLE then before + [Region(e.addr, e.len)] else before
  }

  lemma {:induction false} StepTags(before: seq<Region>, rest: seq<Tag>)
    requires rest != []
    ensures before + Available(rest) == WithTag(before, rest[0]) + Available(rest[1..])
  {
    if rest[0].MemoryMap? {
      Concat3(before, AvailableEntries(rest[0].entries), Available(rest[1..]));
    } else {
      assert Available(rest) == Available(rest[1..]);
    }
  }

  /** The regions after one more tag. */
  function WithTag(before: seq<Region>, t: Tag): seq<Region> {
    if t.MemoryMap? then before + AvailableEntries(t.entries) else before
  }

  /** End to end: after the walk and setup_bitmap, the page any call of alloc_frame takes lies wholly inside one
      AVAILABLE entry of the boot information, outside the kernel image, and at or above 16 KiB. */
  lemma AllocatedFrameIsAvailable(tags: seq<Tag>, kernelStart: Word, kernelEnd: Word, k: nat, p: nat)
    requires HigherHalf(kernelStart, kernelEnd)
    requires forall t, e :: t in tags && t.MemoryMap? && e in t.entries && e.kind == MEMORY_AVAILABLE ==>
                              Harmless(Region(e.addr, e.len))
    requires Found(SetupFree(Available(tags), kernelStart, kernelEnd), StartPage(kernelEnd), k) == Some(p)
    ensures exists t, e :: t in tags && t.MemoryMap? && e in t.entries && e.kind == MEMORY_AVAILABLE
                           && e.addr <= 4096 * p && 4096 * p + 4096 <= e.addr + e.len
    ensures 4096 * p + 4096 <= kernelStart - KERNEL_OFFSET || kernelEnd - KERNEL_OFFSET <= 4096 * p
    ensures 0x4000 <= 4096 * p < TWO_32
  {
    var regions := Available(tags);
    forall i | 0 <= i < |regions| ensures Harmless(regions[i]) {
      AvailableIsFromEntries(tags, regions[i]);
    }
    BootFrameIsSafe(regions, kernelStart, kernelEnd, k, p);
    var i :| 0 <= i < |regions| && Contains(regions[i], p);
    AvailableIsFromEntries(tags, regions[i]);
  }

  /** End to end for the machine as linked. */
  lemma LinkedFrameIsAvailable(tags: seq<Tag>, kernelEnd: Word, k: nat, p: nat)
    requires KERNEL_OFFSET <= kernelEnd
    requires forall t, e :: t in tags && t.MemoryMap? && e in t.entries && e.kind == MEMORY_AVAILABLE ==>
                              Harmless(Region(e.addr, e.len))
    requires Found(SetupFree(Available(tags), LINKER_KERNEL_START, kernelEnd), StartPage(kernelEnd), k) == Some(p)
    ensures exists t, e :: t in tags && t.MemoryMap? && e in t.entries && e.kind == MEMORY_AVAILABLE
                           && e.addr <= 4096 * p && 4096 * p + 4096 <= e.addr + e.len
    ensures (kernelEnd - KERNEL_OFFSET) / 0x8000 * 0x8000 <= 4096 * p < TWO_32 && 0x4000 <= 4096 * p
    ensures kernelEnd % 0x8000 == 0 ==> kernelEnd - KERNEL_OFFSET <= 4096 * p
  {
    var regions := Available(tags);
    forall i | 0 <= i < |regions| ensures Harmless(regions[i]) {
      AvailableIsFromEntries(tags, regions[i]);
    }
    LinkedFrameIsSafe(regions, kernelEnd, k, p);
    var i :| 0 <= i < |regions| && Contains(regions[i], p);
    AvailableIsFromEntries(tags, regions[i]);
  }

  // ----- Reading it back

  /** The next tag's word index: the size, in 32-bit bytes, rounded up to a multiple of 8. */
  function NextTag(w: nat, size: Word): nat {
    w + Wrap32(size + 7) / 8 * 2
  }

  lemma WholeQuads(extra: nat, entrySize: Word)
    requires 20 + 4 * extra == entrySize && entrySize % 8 == 0
    ensures (5 + extra) % 2 == 0
  {
    var pairs := entrySize / 8;
    assert 5 + extra == 2 * pairs;
  }

  lemma {:induction false} EntriesAreWholeQuads(entries: seq<Entry>, entrySize: Word)
    requires SizedEntries(entries, entrySize) && entrySize % 8 == 0
    ensures |EncodeEntries(entries)| % 2 == 0
  {
    if entries != [] {
      EntriesAreWholeQuads(entries[1..], entrySize);
      WholeQuads(|entries[0].extra|, entrySize);
      assert |EncodeEntry(entries[0])| == 5 + |entries[0].extra|;
    }
  }

  /** The step of the tag loop is the encoded length of the tag. */
  lemma {:induction false} EncodedSize(t: Tag)
    requires WellFormed(t)
    ensures |EncodeTag(t)| >= 2
    ensures NextTag(0, EncodeTag(t)[1]) == |EncodeTag(t)|
  {
    if t.MemoryMap? {
      EntriesAreWholeQuads(t.entries, t.entrySize);
    }
  }

  /** The memory from word w on is these entries, or these tags, and then `after`. */
  ghost predicate AtEntries(info: seq<Word>, w: nat, entries: seq<Entry>, after: seq<Word>) {
    w <= |info| && info[w..] == EncodeEntries(entries) + after
  }

  ghost predicate AtTags(info: seq<Word>, w: nat, tags: seq<Tag>, after: seq<Word>) {
    WellFormedTags(tags) && w <= |info| && info[w..] == EncodeTags(tags) + after
  }

  lemma {:induction false} Skip(info: seq<Word>, w: nat, a: seq<Word>, b: seq<Word>)
    requires w <= |info| && info[w..] == a + b
    ensures w + |a| <= |info| && info[w + |a|..] == b
    ensures forall k {:trigger a[k]} :: 0 <= k < |a| ==> info[w + k] == a[k]
  {
    assert info[w + |a|..] == info[w..][|a|..];
    forall k | 0 <= k < |a| ensures info[w + k] == a[k] {
      assert info[w..][k] == info[w + k];
    }
  }

  /** Reading the first of some encoded tags, and where the next one is. */
  lemma {:induction false} ReadTag(info: seq<Word>, w: nat, tags: seq<Tag>, after: seq<Word>)
    requires AtTags(info, w, tags, after) && tags != []
    ensures w + 1 < |info| && info[w] == EncodeTag(tags[0])[0] && info[w + 1] == EncodeTag(tags[0])[1]
    ensures w < NextTag(w, info[w + 1]) && AtTags(info, NextTag(w, info[w + 1]), tags[1..], after)
  {
    EncodedSize(tags[0]);
    SkipFirst(info, w, EncodeTag(tags[0]), EncodeTags(tags[1..]), after);
  }

  lemma SkipFirst(info: seq<Word>, w: nat, a: seq<Word>, b: seq<Word>, c: seq<Word>)
    requires w <= |info| && info[w..] == (a + b) + c && |a| >= 2
    ensures w + |a| <= |info| && info[w + |a|..] == b + c
    ensures w + 1 < |info| && info[w] == a[0] && info[w + 1] == a[1]
  {
    Concat3(a, b, c);
    Skip(info, w, a, b + c);
    assert info[w] == info[w + 0] == a[0];
  }

  /** Reading the rest of a memory map tag's header, and where its entries are. */
  lemma {:induction false} ReadMemoryMap(info: seq<Word>, w: nat, tags: seq<Tag>, after: seq<Word>)
    requires AtTags(info, w, tags, after) && tags != [] && tags[0].MemoryMap?
    ensures w + 3 < |info| && info[w + 2] == tags[0].entrySize
    ensures AtEntries(info, w + 4, tags[0].entries, EncodeTags(tags[1..]) + after)
  {
    var t := tags[0];
    var header := [TAG_TYPE_MMAP, 16 + 4 * |EncodeEntries(t.entries)|, t.entrySize, t.version];
    assert EncodeTag(t) == header + EncodeEntries(t.entries);
    SkipFront(info, w, header, EncodeEntries(t.entries), EncodeTags(tags[1..]), after);
  }

  lemma SkipFront(info: seq<Word>, w: nat, a: seq<Word>, b: seq<Word>, c: seq<Word>, d: seq<Word>)
    requires w <= |info| && info[w..] == ((a + b) + c) + d && |a| == 4
    ensures w + 4 <= |info| && info[w + 4..] == b + (c + d) && info[w + 2] == a[2]
  {
    assert ((a + b) + c) + d == a + (b + (c + d));
    Skip(info, w, a, b + (c + d));
    assert info[w + 2] == a[2];
  }

  /** The type word is 0 exactly at the end tag. */
  lemma {:induction false} AtEnd(info: seq<Word>, w: nat, tags: seq<Tag>, after: seq<Word>)
    requires AtTags(info, w, tags, after) && after != [] && after[0] == TAG_TYPE_END
    ensures w < |info| && (info[w] == TAG_TYPE_END <==> tags == [])
  {
    if tags == [] {
      assert info[w] == info[w..][0];
    } else {
      ReadTag(info, w, tags, after);
    }
  }

  lemma SkipHeader(header: seq<Word>, a: seq<Word>, b: seq<Word>, c: seq<Word>)
    ensures (header + a + b + c)[|header|..] == a + (b + c)
  {
  }

  lemma {:induction false} AtStart(info: seq<Word>, total: Word, reserved: Word, tags: seq<Tag>, beyond: seq<Word>)
    requires WellFormedTags(tags) && info == EncodeInfo(total, reserved, tags, beyond)
    ensures AtTags(info, 2, tags, [TAG_TYPE_END, 8] + beyond)
    ensures 2 < |info| && (info[2] == TAG_TYPE_END <==> tags == [])
  {
    SkipHeader([total, reserved], EncodeTags(tags), [TAG_TYPE_END, 8], beyond);
    AtEnd(info, 2, tags, [TAG_TYPE_END, 8] + beyond);
  }

  /** Reading the first of some encoded entries. */
  lemma {:induction false} ReadEntry(info: seq<Word>, w: nat, entries: seq<Entry>, after: seq<Word>)
    requires AtEntries(info, w, entries, after) && entries != []
    ensures var e := entries[0]; var next := w + 5 + |e.extra|;
      && w + 4 < |info| && info[w + 4] == e.kind
      && Join(info[w], info[w + 1]) == e.addr && Join(info[w + 2], info[w + 3]) == e.len
      && AtEntries(info, next, entries[1..], after)
      && next + |EncodeEntries(entries[1..])| == w + |EncodeEntries(entries)|
  {
    var e := entries[0];
    var rest := EncodeEntries(entries[1..]) + after;
    assert info[w..] == EncodeEntry(e) + rest;
    assert info[w] == info[w..][0] && info[w + 1] == info[w..][1] && info[w + 2] == info[w..][2]
        && info[w + 3] == info[w..][3] && info[w + 4] == info[w..][4];
    assert info[w + 5 + |e.extra|..] == info[w..][5 + |e.extra|..] == rest;
  }

  /** The layout in literal words: 64-bit fields low word first, type 1 for available memory, and tag types 6 and 0. */
  lemma Layout(e: Entry, entrySize: Word, version: Word, total: Word, reserved: Word)
    ensures var w := EncodeEntry(e);
      && |w| >= 5 && w[0] == e.addr % 0x1_0000_0000 && w[1] == e.addr / 0x1_0000_0000
      && w[2] == e.len % 0x1_0000_0000 && w[3] == e.len / 0x1_0000_0000 && w[4] == e.kind
    ensures AvailableEntries([e]) == if e.kind == 1 then [Region(e.addr, e.len)] else []
    ensures EncodeTags([]) == [] && EncodeInfo(total, reserved, [], []) == [total, reserved, 0, 8]
    ensures entrySize % 8 == 0 ==> EncodeTag(MemoryMap(entrySize, version, [])) == [6, 16, entrySize, version]
  {
    assert [e][1..] == [];
  }

  lemma SizeInWords(entries: seq<Entry>, entrySize: Word)
    requires SizedEntries(entries, entrySize) && entries != []
    ensures entrySize / 4 == 5 + |entries[0].extra| && SizedEntries(entries[1..], entrySize)
  {
  }

  // ----- The walk

  class BootMap {
    const freeRegions: array<Region>
    var freeRegionCount: nat
    var maxAddr: Quad
    var totalPages: Word

    ghost predicate Valid()
      reads this
    {
      freeRegions.Length == MAX_MEM_REGIONS && freeRegionCount <= MAX_MEM_REGIONS
    }

    ghost function Regions(): seq<Region>
      requires Valid()
      reads this, freeRegions
    {
      freeRegions[..freeRegionCount]
    }

    constructor ()
      ensures Valid() && fresh(freeRegions) && Regions() == [] && maxAddr == 0 && totalPages == 0
    {
      freeRegions := new Region[MAX_MEM_REGIONS](_ => Region(0, 0));
      freeRegionCount := 0;
      maxAddr := 0;
      totalPages := 0;
    }

    method Append(r: Region)
      requires Valid() && freeRegionCount < MAX_MEM_REGIONS
      modifies this`freeRegionCount, freeRegions
      ensures Valid() && Regions() == old(Regions()) + [r]
    {
      freeRegions[freeRegionCount] := r;
      freeRegionCount := freeRegionCount + 1;
    }

    /** The entry loop of the memory map tag at word `tag` of `info`. */
    method WalkEntries(info: seq<Word>, tag: nat, ghost entries: seq<Entry>, ghost beyond: seq<Word>)
      requires Valid() && tag + 3 < |info|
      requires AtEntries(info, tag + 4, entries, beyond) && SizedEntries(entries, info[tag + 2])
      requires info[tag + 1] == 16 + 4 * |EncodeEntries(entries)|
      requires freeRegionCount + |AvailableEntries(entries)| <= MAX_MEM_REGIONS
      modifies this`freeRegionCount, freeRegions
      ensures Valid() && Regions() == old(Regions()) + AvailableEntries(entries)
    {
      ghost var rest := entries;
      var end := 4 * tag + info[tag + 1];
      var mmap: nat := tag + 4;
      while 4 * mmap < end
        invariant Valid() && AtEntries(info, mmap, rest, beyond) && SizedEntries(rest, info[tag + 2])
        invariant end == 4 * (mmap + |EncodeEntries(rest)|)
        invariant Regions() + AvailableEntries(rest) == old(Regions()) + AvailableEntries(entries)
        decreases |rest|
      {
        ReadEntry(info, mmap, rest, beyond);
        ghost var before := Regions();
        StepEntries(before, rest);
        SizeInWords(rest, info[tag + 2]);
        TakeEntry(info, mmap, rest[0]);
        mmap := mmap + info[tag + 2] / 4;
        rest := rest[1..];
      }
    }

    /** The body of the entry loop. */
    method TakeEntry(info: seq<Word>, mmap: nat, ghost e: Entry)
      requires Valid() && mmap + 4 < |info| && info[mmap + 4] == e.kind
      requires Join(info[mmap], info[mmap + 1]) == e.addr && Join(info[mmap + 2], info[mmap + 3]) == e.len
      requires e.kind == MEMORY_AVAILABLE ==> freeRegionCount < MAX_MEM_REGIONS
      modifies this`freeRegionCount, freeRegions
      ensures Valid() && Regions() == WithEntry(old(Regions()), e)
    {
      if info[mmap + 4] == MEMORY_AVAILABLE {
        Append(Region(Join(info[mmap], info[mmap + 1]), Join(info[mmap + 2], info[mmap + 3])));
      }
    }

    method UpdateMax()
      requires Valid()
      modifies this`maxAddr, this`totalPages
      ensures maxAddr == if MaxEnd(Regions()) > old(maxAddr) then MaxEnd(Regions()) else old(maxAddr)
      ensures totalPages == PageCount(maxAddr)
    {
      ghost var regions := Regions();
      for i := 0 to freeRegionCount
        invariant maxAddr == if MaxEnd(regions[..i]) > old(maxAddr) then MaxEnd(regions[..i]) else old(maxAddr)
      {
        assert regions[..i + 1][..i] == regions[..i];
        var endAddr := Wrap64(freeRegions[i].base + freeRegions[i].length);
        if endAddr > maxAddr {
          maxAddr := endAddr;
        }
      }
      assert regions[..freeRegionCount] == regions;
      totalPages := PageCount(maxAddr);
    }

    /** The memory map case of the tag switch. */
    method WalkMemoryMap(info: seq<Word>, tag: nat, ghost tags: seq<Tag>, ghost after: seq<Word>)
      requires Valid() && AtTags(info, tag, tags, after) && tags != [] && tags[0].MemoryMap?
      requires freeRegionCount + |AvailableEntries(tags[0].entries)| <= MAX_MEM_REGIONS
      requires maxAddr == MaxEnd(Regions())
      modifies this, freeRegions
      ensures Valid() && Regions() == old(Regions()) + AvailableEntries(tags[0].entries)
      ensures maxAddr == MaxEnd(Regions()) && totalPages == PageCount(maxAddr)
    {
      ReadTag(info, tag, tags, after);
      ReadMemoryMap(info, tag, tags, after);
      WalkEntries(info, tag, tags[0].entries, EncodeTags(tags[1..]) + after);
      MaxEndGrows(old(Regions()), AvailableEntries(tags[0].entries));
      UpdateMax();
    }

    /** Collects the available regions, in order, and the highest end. */
    method Walk(info: seq<Word>, ghost total: Word, ghost reserved: Word, ghost tags: seq<Tag>, ghost beyond: seq<Word>)
      requires Valid() && Regions() == [] && maxAddr == 0 && totalPages == 0
      requires WellFormedTags(tags) && info == EncodeInfo(total, reserved, tags, beyond)
      requires |Available(tags)| <= 128
      modifies this, freeRegions
      ensures Valid() && Regions() == Available(tags)
      ensures maxAddr == MaxEnd(Available(tags)) && totalPages == PageCount(maxAddr)
    {
      ghost var rest, after := tags, [TAG_TYPE_END, 8] + beyond;
      var tag: nat := 2;
      AtStart(info, total, reserved, tags, beyond);
      while info[tag] != TAG_TYPE_END
        invariant Valid() && AtTags(info, tag, rest, after) && tag < |info|
        invariant info[tag] == TAG_TYPE_END <==> rest == []
        invariant Regions() + Available(rest) == Available(tags)
        invariant maxAddr == MaxEnd(Regions()) && totalPages == PageCount(maxAddr)
        decreases |info| - tag
      {
        ReadTag(info, tag, rest, after);
        ghost var before := Regions();
        StepTags(before, rest);
        if info[tag] == TAG_TYPE_MMAP {
          WalkMemoryMap(info, tag, rest, after);
        }
        assert Regions() == WithTag(before, rest[0]);
        tag := NextTag(tag, info[tag + 1]);
        rest := rest[1..];
        AtEnd(info, tag, rest, after);
      }
    }
  }
}
