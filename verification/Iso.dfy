/** The ISO 9660 driver as it runs: fixed buffers, record pointers and the current directory's LBA. */
module Iso {
  import opened Words
  import opened CStrings
  import opened Splitting
  import opened IsoRecords
  import opened IsoPaths

  /** A successful read of one sector. */
  method AtapiRead(disc: Disc, lba: Word, buffer: array<Byte>)
    requires buffer.Length == SECTOR
    modifies buffer
    ensures buffer[..] == disc(lba)
  {
    var sector := disc(lba);
    for i := 0 to SECTOR
      invariant buffer[..i] == sector[..i]
    {
      buffer[i] := sector[i];
      assert buffer[..i + 1] == sector[..i] + [sector[i]];
    }
    assert buffer[..] == buffer[..SECTOR] && sector[..SECTOR] == sector;
  }

  /** Does the record carry the name at `str[start..]`, version suffix aside? */
  method NameMatches(entry: Record, str: array<char>, start: nat) returns (equal: bool)
    requires start <= str.Length && HasNul(str[start..])
    ensures equal <==> Stripped(entry.name) == CString(str[start..])
  {
    var cmpLen := |entry.name|;
    if cmpLen >= 2 && entry.name[cmpLen - 2] == ';' {
      cmpLen := cmpLen - 2;
    }
    equal := StringEqualsLen(entry.name, str, start, cmpLen);
    assert entry.name[..|entry.name|] == entry.name;
  }

  /** What a record loop should answer: the first record of the wanted kind and name. */
  ghost predicate Hit(rs: seq<Record>, wantDir: bool, name: string, hit: Option<Record>) {
    if wantDir then FindDir(rs, name) == (if hit.Some? then Some(hit.value.lba) else None)
    else FindFile(rs, name) == (if hit.Some? then Some(File(hit.value.lba, hit.value.size)) else None)
  }

  lemma HitStep(b: Sector, p: nat, wantDir: bool, name: string, hit: Option<Record>)
    requires WellFormed(b, p) && b[p] != 0
    ensures var entry := RecordAt(b, p);
      var found := entry.isDir == wantDir && Stripped(entry.name) == name;
      && (found ==> Hit(Records(b, p), wantDir, name, Some(entry)))
      && (!found && Hit(Records(b, p + b[p]), wantDir, name, hit) ==> Hit(Records(b, p), wantDir, name, hit))
  {
    assert Records(b, p)[1..] == Records(b, p + b[p]);
  }

  /** The record loop from offset p on. */
  method Scan(buffer: array<Byte>, str: array<char>, start: nat, wantDir: bool) returns (hit: Option<Record>)
    requires buffer.Length == SECTOR && WellFormed(buffer[..], 0)
    requires start <= str.Length && HasNul(str[start..])
    ensures Hit(RecordsOf(buffer[..]), wantDir, CString(str[start..]), hit)
  {
    ghost var b, name := buffer[..], CString(str[start..]);
    hit := None;
    var p: nat := 0;
    while buffer[p] != 0
      invariant WellFormed(b, p)
      invariant forall h :: Hit(Records(b, p), wantDir, name, h) ==> Hit(RecordsOf(b), wantDir, name, h)
      decreases SECTOR - p
    {
      var entry := RecordAt(buffer[..], p);
      var matches := NameMatches(entry, str, start);
      if entry.isDir == wantDir && matches {
        HitStep(b, p, wantDir, name, None);
        return Some(entry);
      }
      forall h | Hit(Records(b, p + b[p]), wantDir, name, h) ensures Hit(RecordsOf(b), wantDir, name, h) {
        HitStep(b, p, wantDir, name, h);
      }
      p := p + buffer[p];
    }
    assert Hit(Records(b, p), wantDir, name, None);
  }

  /** get_pvd, and the root directory record inside it. */
  method RootFromPvd(disc: Disc) returns (root: Word)
    ensures root == RootLba(disc)
  {
    var pvd := new Byte[SECTOR](_ => 0);
    AtapiRead(disc, PVD_SECTOR, pvd);
    root := Little32(pvd[..], 158);
  }

  /** strncpy, to_upper_case and strsplit: what both routines do to their argument first. */
  method SplitPath(name: array<char>) returns (filename: array<char>, path: array<nat>, a: nat)
    requires HasNul(name[..]) && |CString(name[..])| < 255
    ensures fresh(filename) && fresh(path) && filename as object != path
    ensures filename.Length == 255 && a <= path.Length == PATH_PARTS
    ensures AllReadBack(filename[..], path[..a], Components(CString(name[..])))
  {
    filename := new char[255](_ => NUL);
    path := new nat[PATH_PARTS](_ => 0);
    assert name[0..] == name[..];
    StrNCpy(filename, name, 0, 255);
    ToUpperCase(filename);
    a := StrSplit(filename, '/', path, PATH_PARTS);
  }

  lemma PartAt(b: seq<char>, offsets: seq<nat>, parts: seq<string>, i: nat)
    requires AllReadBack(b, offsets, parts) && i < |parts|
    ensures offsets[i] < |b| && HasNul(b[offsets[i]..]) && CString(b[offsets[i]..]) == parts[i]
  {
    assert ReadBack(b, offsets[i], parts[i]);
  }

  lemma DescendStep(disc: Disc, dirs: set<Word>, at: Word, path: seq<string>, i: nat, hit: Option<Record>)
    requires Directories(disc, dirs) && at in dirs && i < |path| && Hit(RecordsOf(disc(at)), true, path[i], hit)
    ensures var next := if hit.Some? then hit.value.lba else at;
      next in dirs && Descend(disc, dirs, at, path[i..]) == Descend(disc, dirs, next, path[i + 1..])
  {
    assert path[i..][0] == path[i] && path[i..][1..] == path[i + 1..];
    assert Child(disc, dirs, at, path[i]) == if hit.Some? then Some(hit.value.lba) else None;
  }

  /** The descent loop of get_lba_file: a component without a directory leaves the current one in place. */
  method FollowPath(disc: Disc, buffer: array<Byte>, filename: array<char>, path: array<nat>, a: nat, root: Word,
                    ghost dirs: set<Word>, ghost parts: seq<string>) returns (currentLba: Word)
    requires buffer.Length == SECTOR && a <= |parts| <= path.Length
    requires buffer as object != filename && buffer as object != path
    requires AllReadBack(filename[..], path[..|parts|], parts) && Directories(disc, dirs) && root in dirs
    modifies buffer
    ensures currentLba == Descend(disc, dirs, root, parts[..a])
  {
    ghost var front, text, offsets := parts[..a], filename[..], path[..|parts|];
    currentLba := root;
    assert front[0..] == front;
    for i := 0 to a
      invariant currentLba in dirs && filename[..] == text && path[..|parts|] == offsets
      invariant Descend(disc, dirs, currentLba, front[i..]) == Descend(disc, dirs, root, front)
    {
      AtapiRead(disc, currentLba, buffer);
      PartAt(text, offsets, parts, i);
      assert text[offsets[i]..] == filename[path[i]..];
      var hit := Scan(buffer, filename, path[i], true);
      DescendStep(disc, dirs, currentLba, front, i, hit);
      if hit.Some? {
        currentLba := hit.value.lba;
      }
    }
  }

  /** `strncpy(last, path[i], 255)` */
  method CopyPart(filename: array<char>, offset: nat, ghost part: string) returns (last: array<char>)
    requires filename.Length == 255 && ReadBack(filename[..], offset, part)
    ensures fresh(last) && HasNul(last[0..]) && CString(last[0..]) == part
  {
    last := new char[255](_ => NUL);
    assert filename[..][offset..] == filename[offset..];
    StrNCpy(last, filename, offset, 255);
    assert last[0..] == last[..];
  }

  /** The lookup of the last component in the directory the descent ended in. */
  method FindLast(disc: Disc, buffer: array<Byte>, last: array<char>, at: Word, ghost name: string) returns (file: File)
    requires buffer.Length == SECTOR && buffer as object != last && WellFormed(disc(at), 0)
    requires HasNul(last[0..]) && CString(last[0..]) == name
    modifies buffer
    ensures file == Answer(FindFile(RecordsOf(disc(at)), name))
  {
    AtapiRead(disc, at, buffer);
    var hit := Scan(buffer, last, 0, false);
    if hit.Some? {
      return File(hit.value.lba, hit.value.size);
    }
    return File(0, 0);
  }

  method GetLbaFile(disc: Disc, name: array<char>, ghost dirs: set<Word>) returns (file: File)
    requires HasNul(name[..]) && |CString(name[..])| < 255 && Components(CString(name[..])) != []
    requires Directories(disc, dirs) && RootLba(disc) in dirs
    ensures file == Resolve(disc, dirs, RootLba(disc), Components(CString(name[..])))
  {
    var root := RootFromPvd(disc);
    var filename, path, a := SplitPath(name);
    file := FindPath(disc, filename, path, a, root, dirs, Components(CString(name[..])));
  }

  /** get_lba_file on the split path. */
  method FindPath(disc: Disc, filename: array<char>, path: array<nat>, a: nat, root: Word,
                  ghost dirs: set<Word>, ghost parts: seq<string>) returns (file: File)
    requires filename.Length == 255 && 0 < a == |parts| <= path.Length && AllReadBack(filename[..], path[..a], parts)
    requires Directories(disc, dirs) && root in dirs
    ensures file == Resolve(disc, dirs, root, parts)
  {
    assert ReadBack(filename[..], path[..a][a - 1], parts[a - 1]);
    var last := CopyPart(filename, path[a - 1], parts[a - 1]);
    var buffer := new Byte[SECTOR](_ => 0);
    var currentLba := FollowPath(disc, buffer, filename, path, a - 1, root, dirs, parts);
    file := FindLast(disc, buffer, last, currentLba, parts[a - 1]);
    ResolveIs(disc, dirs, root, parts, currentLba, file);
  }

  lemma ResolveIs(disc: Disc, dirs: set<Word>, root: Word, path: seq<string>, dir: Word, file: File)
    requires Directories(disc, dirs) && root in dirs && path != []
    requires dir == Descend(disc, dirs, root, path[..|path| - 1])
    requires file == Answer(FindFile(RecordsOf(disc(dir)), path[|path| - 1]))
    ensures file == Resolve(disc, dirs, root, path)
  {
  }

  // ----- list_items

  lemma StrictStep(disc: Disc, dirs: set<Word>, at: Word, path: seq<string>, i: nat, hit: Option<Record>)
    requires Directories(disc, dirs) && at in dirs && i < |path| && Hit(RecordsOf(disc(at)), true, path[i], hit)
    ensures hit.None? ==> Strict(disc, dirs, at, path[i..]).None?
    ensures hit.Some? ==> hit.value.lba in dirs
                          && Strict(disc, dirs, at, path[i..]) == Strict(disc, dirs, hit.value.lba, path[i + 1..])
  {
    assert path[i..][0] == path[i] && path[i..][1..] == path[i + 1..];
    assert Child(disc, dirs, at, path[i]) == if hit.Some? then Some(hit.value.lba) else None;
  }

  /** The descent loop of list_items: a component without a directory ends it. */
  method FollowStrict(disc: Disc, buffer: array<Byte>, filename: array<char>, path: array<nat>, a: nat, root: Word,
                      ghost dirs: set<Word>, ghost parts: seq<string>) returns (found: bool, currentLba: Word)
    requires buffer.Length == SECTOR && a == |parts| <= path.Length
    requires buffer as object != filename && buffer as object != path
    requires AllReadBack(filename[..], path[..a], parts) && Directories(disc, dirs) && root in dirs
    modifies buffer
    ensures Strict(disc, dirs, root, parts) == if found then Some(currentLba) else None
  {
    ghost var text, offsets := filename[..], path[..a];
    currentLba := root;
    assert parts[0..] == parts;
    for i := 0 to a
      invariant currentLba in dirs && filename[..] == text && path[..a] == offsets
      invariant Strict(disc, dirs, currentLba, parts[i..]) == Strict(disc, dirs, root, parts)
    {
      AtapiRead(disc, currentLba, buffer);
      PartAt(text, offsets, parts, i);
      assert text[offsets[i]..] == filename[path[i]..];
      var hit := Scan(buffer, filename, path[i], true);
      StrictStep(disc, dirs, currentLba, parts, i, hit);
      if hit.None? {
        return false, 0;
      }
      currentLba := hit.value.lba;
    }
    found := true;
  }

  /** The names so far, the room left, and the records still to be listed, of a listing that should come to `all`. */
  ghost predicate Listing(all: seq<string>, names: seq<string>, sizes: seq<nat>, rest: seq<Record>) {
    |names| <= |sizes| && names + ListedNames(rest) == all && HaveRoom(rest, sizes[|names|..])
  }

  lemma ListStep(all: seq<string>, names: seq<string>, sizes: seq<nat>, rest: seq<Record>)
    requires Listing(all, names, sizes, rest) && rest != []
    ensures IsDot(rest[0]) ==> Listing(all, names, sizes, rest[1..])
    ensures !IsDot(rest[0]) ==> && |names| < |sizes| && |Stripped(rest[0].name)| < sizes[|names|]
                                && Listing(all, names + [ListedName(rest[0])], sizes, rest[1..])
  {
    if IsDot(rest[0]) {
      assert ListedNames(rest) == ListedNames(rest[1..]);
    } else {
      var name := ListedName(rest[0]);
      assert names + ([name] + ListedNames(rest[1..])) == (names + [name]) + ListedNames(rest[1..]);
      assert sizes[|names|..][0] == sizes[|names|] && sizes[|names|..][1..] == sizes[|names + [name]|..];
    }
  }

  /** Moving to the next record. */
  lemma NextRecord(b: Sector, p: nat)
    requires WellFormed(b, p) && b[p] != 0
    ensures p < p + b[p] < SECTOR && WellFormed(b, p + b[p])
    ensures Records(b, p) != [] && Records(b, p)[0] == RecordAt(b, p) && Records(b, p)[1..] == Records(b, p + b[p])
  {
  }

  /** The caller's buffers are different arrays. */
  ghost predicate Separate(items: seq<array<char>>) {
    forall j, k :: 0 <= j < k < |items| ==> items[j] != items[k]
  }

  ghost function Sizes(items: seq<array<char>>): (sizes: seq<nat>)
    ensures |sizes| == |items|
  {
    seq(|items|, k requires 0 <= k < |items| => items[k].Length)
  }

  ghost function Buffers(items: seq<array<char>>): (buffers: seq<seq<char>>)
    reads items
    ensures |buffers| == |items|
  {
    seq(|items|, k requires 0 <= k < |items| reads items => items[k][..])
  }

  /** The first buffers hold these names as C strings; from there on nothing has changed. */
  ghost predicate Hold(was: seq<seq<char>>, now: seq<seq<char>>, names: seq<string>) {
    && |names| <= |was| == |now| && now[|names|..] == was[|names|..]
    && forall k :: 0 <= k < |names| ==> HasNul(now[k]) && CString(now[k]) == names[k]
  }

  lemma HoldMore(was: seq<seq<char>>, now: seq<seq<char>>, names: seq<string>, text: seq<char>)
    requires Hold(was, now, names) && |names| < |now| && HasNul(text)
    ensures Hold(was, now[|names| := text], names + [CString(text)])
  {
    var i := |names|;
    var more := now[i := text];
    assert more[i + 1..] == now[i..][1..] == was[i..][1..] == was[i + 1..];
  }

  /** The copying of one name: strncpy of the name without its version suffix, and the NUL after it. */
  method CopyName(entry: Record, item: array<char>)
    requires |Stripped(entry.name)| < item.Length
    modifies item
    ensures HasNul(item[..]) && CString(item[..]) == ListedName(entry)
  {
    var cmpLen := |entry.name|;
    if cmpLen >= 2 && entry.name[cmpLen - 2] == ';' {
      cmpLen := cmpLen - 2;
    }
    assert entry.name[..|entry.name|] == entry.name;
    CopyCounted(entry.name[..cmpLen], item);
  }

  /** `strncpy(item, name, cmp_len)` and the NUL after it. */
  method CopyCounted(name: string, item: array<char>)
    requires |name| < item.Length
    modifies item
    ensures HasNul(item[..]) && CString(item[..]) == CString(name)
  {
    CStringFacts(name);
    var i := 0;
    while i < |name| && name[i] != NUL
      invariant i <= |CString(name)| && forall k :: 0 <= k < i ==> item[k] == CString(name)[k]
    {
      item[i] := name[i];
      i := i + 1;
    }
    item[i] := NUL;
    item[|name|] := NUL;
    CStringIs(item[..], CString(name));
  }

  /** The listing loop at offset p: `names` are in the first buffers. */
  ghost predicate Working(b: Sector, p: nat, names: seq<string>, sizes: seq<nat>, was: seq<seq<char>>,
                          now: seq<seq<char>>)
  {
    && WellFormed(b, 0) && WellFormed(b, p) && Hold(was, now, names)
    && Listing(ListedNames(RecordsOf(b)), names, sizes, Records(b, p))
  }

  function NamesAfter(names: seq<string>, entry: Record): seq<string> {
    if IsDot(entry) then names else names + [ListedName(entry)]
  }

  /** What the loop body may rely on for the next record. */
  lemma NextHasRoom(b: Sector, p: nat, names: seq<string>, sizes: seq<nat>, was: seq<seq<char>>, now: seq<seq<char>>)
    requires Working(b, p, names, sizes, was, now) && b[p] != 0
    ensures p < p + b[p] < SECTOR
    ensures var entry := RecordAt(b, p);
      IsDot(entry) || (|names| < |sizes| && |Stripped(entry.name)| < sizes[|names|])
  {
    NextRecord(b, p);
    ListStep(ListedNames(RecordsOf(b)), names, sizes, Records(b, p));
  }

  /** After the record is copied out, or skipped. */
  lemma WorkOn(b: Sector, p: nat, names: seq<string>, sizes: seq<nat>, was: seq<seq<char>>, now: seq<seq<char>>,
               after: seq<seq<char>>)
    requires Working(b, p, names, sizes, was, now) && b[p] != 0 && |now| == |sizes|
    requires Copied(now, after, |names|, RecordAt(b, p))
    ensures p + b[p] < SECTOR && Working(b, p + b[p], NamesAfter(names, RecordAt(b, p)), sizes, was, after)
  {
    NextRecord(b, p);
    ListStep(ListedNames(RecordsOf(b)), names, sizes, Records(b, p));
    if !IsDot(RecordAt(b, p)) {
      HoldMore(was, now, names, after[|names|]);
    }
  }

  /** Buffer i, and no other, holds the record's name; a dot record changes nothing. */
  ghost predicate Copied(now: seq<seq<char>>, after: seq<seq<char>>, i: nat, entry: Record) {
    if IsDot(entry) then after == now
    else
      && i < |now| == |after| && after == now[i := after[i]]
      && HasNul(after[i]) && CString(after[i]) == ListedName(entry)
  }

  /** One record of the listing: copied out unless it is a dot record. */
  method ListRecord(entry: Record, items: seq<array<char>>, i: nat) returns (next: nat)
    requires Separate(items) && (IsDot(entry) || (i < |items| && |Stripped(entry.name)| < items[i].Length))
    modifies if i < |items| then {items[i]} else {}
    ensures next == (if IsDot(entry) then i else i + 1) && Copied(old(Buffers(items)), Buffers(items), i, entry)
  {
    if |entry.name| == 1 && (entry.name[0] == '\0' || entry.name[0] == '\U{1}') {
      return i;
    }
    CopyName(entry, items[i]);
    assert Buffers(items)[i] == items[i][..];
    return i + 1;
  }

  /** The body of the listing loop. */
  method ListAt(buffer: array<Byte>, p: nat, items: seq<array<char>>, i: nat, ghost names: seq<string>,
                ghost sizes: seq<nat>, ghost was: seq<seq<char>>) returns (next: nat, ghost more: seq<string>)
    requires buffer.Length == SECTOR && p < SECTOR && buffer[p] != 0 && Separate(items) && sizes == Sizes(items)
    requires Working(buffer[..], p, names, sizes, was, Buffers(items)) && i == |names|
    modifies items
    ensures buffer[..] == old(buffer[..]) && p + buffer[p] < SECTOR && next == |more|
    ensures Working(buffer[..], p + buffer[p], more, sizes, was, Buffers(items))
  {
    ghost var b, now := buffer[..], Buffers(items);
    NextHasRoom(b, p, names, sizes, was, now);
    var entry := RecordAt(buffer[..], p);
    next := ListRecord(entry, items, i);
    assert buffer[..] == b;
    WorkOn(b, p, names, sizes, was, now, Buffers(items));
    more := NamesAfter(names, entry);
  }

  /** The listing loop. */
  method ListRecords(buffer: array<Byte>, items: seq<array<char>>) returns (i: nat)
    requires buffer.Length == SECTOR && WellFormed(buffer[..], 0)
    requires Separate(items) && HaveRoom(RecordsOf(buffer[..]), Sizes(items))
    modifies items
    ensures i == |ListedNames(RecordsOf(old(buffer[..])))|
    ensures Hold(old(Buffers(items)), Buffers(items), ListedNames(RecordsOf(old(buffer[..]))))
  {
    ghost var b, names, sizes, was := buffer[..], [], Sizes(items), Buffers(items);
    ListStart(RecordsOf(b), sizes);
    i := 0;
    var p: nat := 0;
    while buffer[p] != 0
      invariant p < SECTOR && buffer[..] == b && i == |names| && Working(b, p, names, sizes, was, Buffers(items))
      decreases SECTOR - p
    {
      i, names := ListAt(buffer, p, items, i, names, sizes, was);
      p := p + buffer[p];
    }
    assert names + [] == names;
  }

  lemma ListStart(rs: seq<Record>, sizes: seq<nat>)
    requires HaveRoom(rs, sizes)
    ensures Listing(ListedNames(rs), [], sizes, rs)
  {
    assert [] + ListedNames(rs) == ListedNames(rs);
    assert sizes[0..] == sizes;
  }

  /** -1, and nothing written, if some component is missing; otherwise the number of names, with the names in the
      caller's buffers. */
  method ListItems(disc: Disc, dir: array<char>, items: seq<array<char>>, ghost dirs: set<Word>) returns (count: int)
    requires HasNul(dir[..]) && |CString(dir[..])| < 255
    requires Directories(disc, dirs) && RootLba(disc) in dirs && Separate(items)
    requires var at := Strict(disc, dirs, RootLba(disc), Components(CString(dir[..])));
      at.Some? ==> HaveRoom(RecordsOf(disc(at.value)), Sizes(items))
    modifies items
    ensures match Strict(disc, dirs, RootLba(disc), Components(CString(old(dir[..]))))
            case None => count == -1 && Buffers(items) == old(Buffers(items))
            case Some(at) =>
              var names := ListedNames(RecordsOf(disc(at)));
              count == |names| && Hold(old(Buffers(items)), Buffers(items), names)
  {
    var buffer := new Byte[SECTOR](_ => 0);
    var found, at := FindDirectory(disc, dir, buffer, dirs);
    if !found {
      return -1;
    }
    count := ListDirectory(disc, at, buffer, items);
  }

  /** The beginning of list_items: the path is split and followed. */
  method FindDirectory(disc: Disc, dir: array<char>, buffer: array<Byte>, ghost dirs: set<Word>)
    returns (found: bool, at: Word)
    requires HasNul(dir[..]) && |CString(dir[..])| < 255 && buffer.Length == SECTOR
    requires Directories(disc, dirs) && RootLba(disc) in dirs
    modifies buffer
    ensures Strict(disc, dirs, RootLba(disc), Components(CString(old(dir[..])))) == if found then Some(at) else None
  {
    ghost var parts := Components(CString(dir[..]));
    var root := RootFromPvd(disc);
    var filename, path, a := SplitPath(dir);
    assert a == |parts|;
    found, at := FollowStrict(disc, buffer, filename, path, a, root, dirs, parts);
  }

  /** The end of list_items, in the directory the descent ended in. */
  method ListDirectory(disc: Disc, at: Word, buffer: array<Byte>, items: seq<array<char>>) returns (count: nat)
    requires buffer.Length == SECTOR && WellFormed(disc(at), 0)
    requires Separate(items) && HaveRoom(RecordsOf(disc(at)), Sizes(items))
    modifies buffer, items
    ensures count == |ListedNames(RecordsOf(disc(at)))|
    ensures Hold(old(Buffers(items)), Buffers(items), ListedNames(RecordsOf(disc(at))))
  {
    AtapiRead(disc, at, buffer);
    assert Buffers(items) == old(Buffers(items));
    count := ListRecords(buffer, items);
  }
}
