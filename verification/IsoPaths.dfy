/** Path resolution over directory records, against lookup in a directory tree (ECMA-119, section 6.8). */
module IsoPaths {
  import opened Words
  import opened CStrings
  import opened Splitting
  import opened IsoRecords

  const PATH_PARTS: nat := 16

  /** A record's name without its version suffix. */
  function Stripped(name: string): string {
    if |name| >= 2 && name[|name| - 2] == ';' then name[..|name| - 2] else name
  }

  /** A suffix of ';' and one character is dropped, and any other name is kept. */
  lemma StrippedFacts(n: string, c: char)
    ensures Stripped(n + [';', c]) == n
    ensures |n| < 2 || n[|n| - 2] != ';' ==> Stripped(n) == n
  {
  }

  function FindDir(rs: seq<Record>, name: string): Option<Word> {
    if rs == [] then None
    else if rs[0].isDir && Stripped(rs[0].name) == name then Some(rs[0].lba)
    else FindDir(rs[1..], name)
  }

  datatype File = File(lba: Word, size: Word)

  function FindFile(rs: seq<Record>, name: string): Option<File> {
    if rs == [] then None
    else if !rs[0].isDir && Stripped(rs[0].name) == name then Some(File(rs[0].lba, rs[0].size))
    else FindFile(rs[1..], name)
  }

  /** A set of directory sectors closed under the directory records in them. */
  ghost predicate Directories(disc: Disc, dirs: set<Word>) {
    forall l :: l in dirs ==>
      WellFormed(disc(l), 0) &&
      forall i :: 0 <= i < |RecordsOf(disc(l))| && RecordsOf(disc(l))[i].isDir ==> RecordsOf(disc(l))[i].lba in dirs
  }

  lemma {:induction false} FindDirIsRecord(rs: seq<Record>, name: string)
    ensures FindDir(rs, name).Some? ==>
              exists i :: 0 <= i < |rs| && rs[i].isDir && Stripped(rs[i].name) == name
                          && rs[i].lba == FindDir(rs, name).value
  {
    if rs != [] && !(rs[0].isDir && Stripped(rs[0].name) == name) {
      FindDirIsRecord(rs[1..], name);
      if FindDir(rs, name).Some? {
        var i :| 0 <= i < |rs[1..]| && rs[1..][i].isDir && Stripped(rs[1..][i].name) == name
                 && rs[1..][i].lba == FindDir(rs, name).value;
        assert rs[i + 1] == rs[1..][i];
      }
    }
  }

  /** A record that carries the name as a directory, or as a file. */
  predicate Carries(r: Record, name: string, isDir: bool) {
    r.isDir == isDir && Stripped(r.name) == name
  }

  /** The first record of the kind and name is found, and none if there is none. */
  lemma {:induction false} FindsFirst(rs: seq<Record>, name: string, i: nat)
    requires i < |rs| && forall j :: 0 <= j < i ==> !Carries(rs[j], name, true)
    ensures Carries(rs[i], name, true) ==> FindDir(rs, name) == Some(rs[i].lba)
    ensures !Carries(rs[i], name, true) && i + 1 == |rs| ==> FindDir(rs, name).None?
  {
    if i > 0 {
      assert !Carries(rs[0], name, true);
      forall j | 0 <= j < i - 1 ensures !Carries(rs[1..][j], name, true) {
        assert rs[1..][j] == rs[j + 1];
      }
      FindsFirst(rs[1..], name, i - 1);
    }
  }

  lemma {:induction false} FindsFirstFile(rs: seq<Record>, name: string, i: nat)
    requires i < |rs| && forall j :: 0 <= j < i ==> !Carries(rs[j], name, false)
    ensures Carries(rs[i], name, false) ==> FindFile(rs, name) == Some(File(rs[i].lba, rs[i].size))
    ensures !Carries(rs[i], name, false) && i + 1 == |rs| ==> FindFile(rs, name).None?
  {
    if i > 0 {
      assert !Carries(rs[0], name, false);
      forall j | 0 <= j < i - 1 ensures !Carries(rs[1..][j], name, false) {
        assert rs[1..][j] == rs[j + 1];
      }
      FindsFirstFile(rs[1..], name, i - 1);
    }
  }

  /** Where one component leads, if it names a directory. */
  ghost function Child(disc: Disc, dirs: set<Word>, at: Word, name: string): (next: Option<Word>)
    requires Directories(disc, dirs) && at in dirs
    ensures next.Some? ==> next.value in dirs
  {
    FindDirIsRecord(RecordsOf(disc(at)), name);
    FindDir(RecordsOf(disc(at)), name)
  }

  /** The primary volume descriptor is sector 16; its root directory record is at offset 156 (section 8.4). */
  const PVD_SECTOR: Word := 16

  function RootLba(disc: Disc): Word {
    Little32(disc(PVD_SECTOR), 158)
  }

  /** It is the LBA of the root record encoded in sector 16. */
  lemma RootIsEncoded(disc: Disc, r: Raw)
    requires disc(16)[156..156 + |EncodeRecord(r)|] == EncodeRecord(r)
    ensures RootLba(disc) == r.lba
  {
    RecordReadsBack(disc(16), 156, r);
  }

  // ----- The two descents

  /** get_lba_file: a component that names no directory is passed over. */
  ghost function Descend(disc: Disc, dirs: set<Word>, at: Word, path: seq<string>): (dir: Word)
    requires Directories(disc, dirs) && at in dirs
    ensures dir in dirs
    decreases |path|
  {
    if path == [] then at
    else
      var next := Child(disc, dirs, at, path[0]);
      Descend(disc, dirs, if next.Some? then next.value else at, path[1..])
  }

  /** list_items: a component that names no directory ends the descent. */
  ghost function Strict(disc: Disc, dirs: set<Word>, at: Word, path: seq<string>): (dir: Option<Word>)
    requires Directories(disc, dirs) && at in dirs
    ensures dir.Some? ==> dir.value in dirs
    decreases |path|
  {
    if path == [] then Some(at)
    else
      var next := Child(disc, dirs, at, path[0]);
      if next.None? then None else Strict(disc, dirs, next.value, path[1..])
  }

  /** The components that name a directory where the descent meets them. */
  ghost function Existing(disc: Disc, dirs: set<Word>, at: Word, path: seq<string>): (kept: seq<string>)
    requires Directories(disc, dirs) && at in dirs
    ensures |kept| <= |path|
    decreases |path|
  {
    if path == [] then []
    else
      var next := Child(disc, dirs, at, path[0]);
      if next.None? then Existing(disc, dirs, at, path[1..])
      else [path[0]] + Existing(disc, dirs, next.value, path[1..])
  }

  /** The lenient descent is the strict one along the components that exist, and nothing is dropped if and only if
      the strict descent of the whole path succeeds. */
  lemma {:induction false} DescendIsStrictOnExisting(disc: Disc, dirs: set<Word>, at: Word, path: seq<string>)
    requires Directories(disc, dirs) && at in dirs
    ensures Strict(disc, dirs, at, Existing(disc, dirs, at, path)) == Some(Descend(disc, dirs, at, path))
    ensures |Existing(disc, dirs, at, path)| == |path| <==> Strict(disc, dirs, at, path).Some?
    ensures Strict(disc, dirs, at, path).Some? ==> Existing(disc, dirs, at, path) == path
    decreases |path|
  {
    if path != [] {
      var next := Child(disc, dirs, at, path[0]);
      if next.None? {
        DescendIsStrictOnExisting(disc, dirs, at, path[1..]);
      } else {
        DescendIsStrictOnExisting(disc, dirs, next.value, path[1..]);
        var kept := Existing(disc, dirs, next.value, path[1..]);
        assert ([path[0]] + kept)[1..] == kept;
        assert path == [path[0]] + path[1..];
      }
    }
  }

  /** A result as get_lba_file returns it: (0, 0) stands for "not found". */
  function Answer(found: Option<File>): File {
    match found
    case Some(f) => f
    case None => File(0, 0)
  }

  /** What get_lba_file answers: the last component is the file. */
  ghost function Resolve(disc: Disc, dirs: set<Word>, root: Word, path: seq<string>): File
    requires Directories(disc, dirs) && root in dirs && path != []
  {
    var dir := Descend(disc, dirs, root, path[..|path| - 1]);
    Answer(FindFile(RecordsOf(disc(dir)), path[|path| - 1]))
  }

  // ----- Against a directory tree

  datatype Node =
    | Leaf(name: string, lba: Word, size: Word)
    | Dir(name: string, lba: Word, size: Word, kids: seq<Node>)

  function NodeRecord(n: Node): Record {
    Record(n.name, n.lba, n.size, n.Dir?)
  }

  function NodeRecords(kids: seq<Node>): seq<Record> {
    if kids == [] then [] else [NodeRecord(kids[0])] + NodeRecords(kids[1..])
  }

  const DOT: string := "\0"
  const DOT_DOT: string := ['\U{1}']

  /** The sector at `at` lists the two dot records and then the children; the children's directories likewise. */
  ghost predicate Represents(disc: Disc, at: Word, kids: seq<Node>)
    decreases kids, 1
  {
    && WellFormed(disc(at), 0) && |RecordsOf(disc(at))| >= 2
    && RecordsOf(disc(at))[0].name == DOT && RecordsOf(disc(at))[1].name == DOT_DOT
    && RecordsOf(disc(at))[0].isDir && RecordsOf(disc(at))[1].isDir
    && RecordsOf(disc(at))[2..] == NodeRecords(kids)
    && forall k :: 0 <= k < |kids| && kids[k].Dir? ==> Represents(disc, kids[k].lba, kids[k].kids)
  }

  /** A sector encoded from the dot records and one record a child does represent the children. */
  lemma {:induction false} EncodedDirectoryRepresents(disc: Disc, at: Word, raws: seq<Raw>, kids: seq<Node>)
    requires |raws| >= 2 && |EncodeRecords(raws)| < SECTOR && disc(at)[..|EncodeRecords(raws)|] == EncodeRecords(raws)
    requires disc(at)[|EncodeRecords(raws)|] == 0
    requires Meaning(raws[0]).name == DOT && Meaning(raws[1]).name == DOT_DOT
    requires Meaning(raws[0]).isDir && Meaning(raws[1]).isDir && Meanings(raws[2..]) == NodeRecords(kids)
    requires forall k :: 0 <= k < |kids| && kids[k].Dir? ==> Represents(disc, kids[k].lba, kids[k].kids)
    ensures Represents(disc, at, kids)
  {
    var b := disc(at);
    assert b[0..0 + |EncodeRecords(raws)|] == b[..|EncodeRecords(raws)|];
    RecordsReadBack(b, 0, raws);
    assert raws[1..][0] == raws[1] && raws[1..][1..] == raws[2..];
    assert Meanings(raws) == [Meaning(raws[0])] + ([Meaning(raws[1])] + Meanings(raws[2..]));
  }

  /** The first child directory, and the first child file, of a name. */
  function ChildDir(kids: seq<Node>, name: string): (n: Option<Node>)
    ensures n.Some? ==> n.value.Dir? && n.value in kids
  {
    if kids == [] then None
    else if kids[0].Dir? && Stripped(kids[0].name) == name then Some(kids[0])
    else ChildDir(kids[1..], name)
  }

  function ChildFile(kids: seq<Node>, name: string): Option<File> {
    if kids == [] then None
    else if kids[0].Leaf? && Stripped(kids[0].name) == name then Some(File(kids[0].lba, kids[0].size))
    else ChildFile(kids[1..], name)
  }

  /** Recursive lookup. */
  function Lookup(kids: seq<Node>, path: seq<string>): Option<File>
    requires path != []
    decreases |path|
  {
    if |path| == 1 then ChildFile(kids, path[0])
    else
      match ChildDir(kids, path[0])
      case None => None
      case Some(d) => Lookup(d.kids, path[1..])
  }

  /** Every component but the last names a directory of the tree. */
  predicate DirsExist(kids: seq<Node>, path: seq<string>)
    requires path != []
    decreases |path|
  {
    |path| == 1 || (ChildDir(kids, path[0]).Some? && DirsExist(ChildDir(kids, path[0]).value.kids, path[1..]))
  }

  /** The path without the directory components that the tree does not have where the descent meets them. */
  function KeptPath(kids: seq<Node>, path: seq<string>): (kept: seq<string>)
    requires path != []
    ensures kept != []
    decreases |path|
  {
    if |path| == 1 then path
    else
      match ChildDir(kids, path[0])
      case None => KeptPath(kids, path[1..])
      case Some(d) => [path[0]] + KeptPath(d.kids, path[1..])
  }

  lemma {:induction false} FindInKids(kids: seq<Node>, name: string)
    ensures FindDir(NodeRecords(kids), name)
         == if ChildDir(kids, name).Some? then Some(ChildDir(kids, name).value.lba) else None
    ensures FindFile(NodeRecords(kids), name) == ChildFile(kids, name)
  {
    if kids != [] {
      FindInKids(kids[1..], name);
      assert NodeRecords(kids)[1..] == NodeRecords(kids[1..]);
    }
  }

  /** The dot records match no component that is neither of their names. */
  lemma FindPastDots(disc: Disc, at: Word, kids: seq<Node>, name: string)
    requires Represents(disc, at, kids) && name != DOT && name != DOT_DOT
    ensures FindDir(RecordsOf(disc(at)), name) == FindDir(NodeRecords(kids), name)
    ensures FindFile(RecordsOf(disc(at)), name) == FindFile(NodeRecords(kids), name)
  {
    var rs := RecordsOf(disc(at));
    assert rs[1..][1..] == rs[2..];
  }

  predicate NoDots(path: seq<string>) {
    forall i :: 0 <= i < |path| ==> path[i] != DOT && path[i] != DOT_DOT
  }

  /** Where a component leads on a disc that represents a tree. */
  lemma ChildIsChildDir(disc: Disc, dirs: set<Word>, at: Word, kids: seq<Node>, name: string)
    requires Directories(disc, dirs) && at in dirs && Represents(disc, at, kids) && name != DOT && name != DOT_DOT
    ensures var d := ChildDir(kids, name);
      && Child(disc, dirs, at, name) == (if d.Some? then Some(d.value.lba) else None)
      && (d.Some? ==> Represents(disc, d.value.lba, d.value.kids))
  {
    FindPastDots(disc, at, kids, name);
    FindInKids(kids, name);
    if ChildDir(kids, name).Some? {
      SubtreeRepresented(disc, at, kids, ChildDir(kids, name).value);
    }
  }

  lemma SubtreeRepresented(disc: Disc, at: Word, kids: seq<Node>, d: Node)
    requires Represents(disc, at, kids) && d in kids && d.Dir?
    ensures Represents(disc, d.lba, d.kids)
  {
    var k :| 0 <= k < |kids| && kids[k] == d;
  }

  lemma ResolveStep(disc: Disc, dirs: set<Word>, at: Word, path: seq<string>)
    requires Directories(disc, dirs) && at in dirs && |path| > 1
    ensures var next := Child(disc, dirs, at, path[0]);
      Resolve(disc, dirs, at, path) == Resolve(disc, dirs, if next.Some? then next.value else at, path[1..])
  {
    var front := path[..|path| - 1];
    assert front[0] == path[0] && front[1..] == path[1..][..|path[1..]| - 1];
  }

  lemma ResolveLast(disc: Disc, dirs: set<Word>, at: Word, kids: seq<Node>, path: seq<string>)
    requires Directories(disc, dirs) && at in dirs && Represents(disc, at, kids) && |path| == 1 && NoDots(path)
    ensures Resolve(disc, dirs, at, path) == Answer(Lookup(kids, path))
  {
    FindPastDots(disc, at, kids, path[0]);
    FindInKids(kids, path[0]);
  }

  /** On a disc that represents a tree, get_lba_file is recursive tree lookup of the path without its missing
      directory components. */
  lemma {:induction false} ResolveIsLookup(disc: Disc, dirs: set<Word>, at: Word, kids: seq<Node>, path: seq<string>)
    requires Directories(disc, dirs) && at in dirs && Represents(disc, at, kids)
    requires path != [] && NoDots(path)
    ensures Resolve(disc, dirs, at, path) == Answer(Lookup(kids, KeptPath(kids, path)))
    decreases |path|
  {
    if |path| == 1 {
      ResolveLast(disc, dirs, at, kids, path);
    } else {
      ChildIsChildDir(disc, dirs, at, kids, path[0]);
      ResolveStep(disc, dirs, at, path);
      match ChildDir(kids, path[0])
      case None =>
        ResolveIsLookup(disc, dirs, at, kids, path[1..]);
      case Some(d) =>
        ResolveIsLookup(disc, dirs, d.lba, d.kids, path[1..]);
        LookupBelow(kids, d, path[0], KeptPath(d.kids, path[1..]));
    }
  }

  lemma LookupBelow(kids: seq<Node>, d: Node, name: string, rest: seq<string>)
    requires ChildDir(kids, name) == Some(d) && rest != []
    ensures Lookup(kids, [name] + rest) == Lookup(d.kids, rest)
  {
    assert ([name] + rest)[1..] == rest;
  }

  /** Nothing is dropped if and only if every directory component exists; otherwise plain lookup finds nothing. */
  lemma {:induction false} KeptPathFacts(kids: seq<Node>, path: seq<string>)
    requires path != []
    ensures DirsExist(kids, path) ==> KeptPath(kids, path) == path
    ensures !DirsExist(kids, path) ==> |KeptPath(kids, path)| < |path| && Lookup(kids, path).None?
    ensures |KeptPath(kids, path)| <= |path|
    decreases |path|
  {
    if |path| > 1 {
      match ChildDir(kids, path[0])
      case None =>
        KeptPathFacts(kids, path[1..]);
      case Some(d) =>
        KeptPathFacts(d.kids, path[1..]);
        assert path == [path[0]] + path[1..];
    }
  }

  /** So get_lba_file is recursive tree lookup of the path itself if and only if every directory component exists, or
      the file is absent under those that do (or is the empty file at sector 0, which looks the same). */
  lemma ResolveIsLookupIff(disc: Disc, dirs: set<Word>, at: Word, kids: seq<Node>, path: seq<string>)
    requires Directories(disc, dirs) && at in dirs && Represents(disc, at, kids)
    requires path != [] && NoDots(path)
    ensures Resolve(disc, dirs, at, path) == Answer(Lookup(kids, path))
       <==> DirsExist(kids, path) || Answer(Lookup(kids, KeptPath(kids, path))) == File(0, 0)
  {
    ResolveIsLookup(disc, dirs, at, kids, path);
    KeptPathFacts(kids, path);
  }

  /** For instance, where there is a file F and no directory X, the path X/F finds F. */
  lemma MissingDirectoryExample(disc: Disc, dirs: set<Word>, at: Word)
    requires Directories(disc, dirs) && at in dirs && Represents(disc, at, [Leaf("F;1", 20, 9)])
    ensures Lookup([Leaf("F;1", 20, 9)], ["X", "F"]).None?
    ensures Resolve(disc, dirs, at, ["X", "F"]) == File(20, 9)
  {
    var kids := [Leaf("F;1", 20, 9)];
    assert Stripped("F;1") == "F";
    assert ["X", "F"][1..] == ["F"];
    assert ChildDir(kids, "X").None? && ChildFile(kids, "F") == Some(File(20, 9));
    ResolveIsLookup(disc, dirs, at, kids, ["X", "F"]);
  }

  // ----- Listing a directory

  predicate IsDot(r: Record) {
    |r.name| == 1 && (r.name[0] == '\0' || r.name[0] == '\U{1}')
  }

  /** What list_items writes for a record: the stripped name as a C string. */
  function ListedName(r: Record): string {
    CString(Stripped(r.name))
  }

  /** The names in disc order, dot records left out. */
  function ListedNames(rs: seq<Record>): seq<string> {
    if rs == [] then []
    else (if IsDot(rs[0]) then [] else [ListedName(rs[0])]) + ListedNames(rs[1..])
  }

  /** Buffers of these sizes have room for what list_items writes: a name, uncut, and a NUL. */
  predicate HaveRoom(rs: seq<Record>, sizes: seq<nat>) {
    if rs == [] then true
    else if IsDot(rs[0]) then HaveRoom(rs[1..], sizes)
    else sizes != [] && |Stripped(rs[0].name)| < sizes[0] && HaveRoom(rs[1..], sizes[1..])
  }

  lemma {:induction false} ListedNamesExact(rs: seq<Record>, name: string)
    ensures name in ListedNames(rs) <==> exists i :: 0 <= i < |rs| && !IsDot(rs[i]) && ListedName(rs[i]) == name
  {
    if rs != [] {
      ListedNamesExact(rs[1..], name);
      forall i | 0 <= i < |rs[1..]| ensures rs[1..][i] == rs[i + 1] {}
      if exists i :: 0 <= i < |rs| && !IsDot(rs[i]) && ListedName(rs[i]) == name {
        var i :| 0 <= i < |rs| && !IsDot(rs[i]) && ListedName(rs[i]) == name;
        if i > 0 {
          assert rs[1..][i - 1] == rs[i];
        }
      }
    }
  }

  /** On a disc that represents a tree of plain names, the list is exactly the children's stripped names. */
  lemma ListingIsKids(disc: Disc, at: Word, kids: seq<Node>)
    requires Represents(disc, at, kids)
    requires PlainNames(kids)
    ensures ListedNames(RecordsOf(disc(at))) == KidNames(kids)
  {
    var rs := RecordsOf(disc(at));
    assert rs[1..][1..] == rs[2..];
    KidsListed(kids);
  }

  /** The children of the directory a path leads to in the tree. */
  function Walk(kids: seq<Node>, path: seq<string>): Option<seq<Node>>
    decreases |path|
  {
    if path == [] then Some(kids)
    else
      match ChildDir(kids, path[0])
      case None => None
      case Some(d) => Walk(d.kids, path[1..])
  }

  /** list_items' descent is the walk in the tree, and ends in a sector that represents the children there. */
  lemma {:induction false} StrictIsWalk(disc: Disc, dirs: set<Word>, at: Word, kids: seq<Node>, path: seq<string>)
    requires Directories(disc, dirs) && at in dirs && Represents(disc, at, kids) && NoDots(path)
    ensures Strict(disc, dirs, at, path).Some? <==> Walk(kids, path).Some?
    ensures Walk(kids, path).Some? ==> Represents(disc, Strict(disc, dirs, at, path).value, Walk(kids, path).value)
    decreases |path|
  {
    if path != [] {
      ChildIsChildDir(disc, dirs, at, kids, path[0]);
      match ChildDir(kids, path[0])
      case None =>
      case Some(d) => StrictIsWalk(disc, dirs, d.lba, d.kids, path[1..]);
    }
  }

  predicate PlainNames(kids: seq<Node>) {
    forall k :: 0 <= k < |kids| ==>
      kids[k].name != DOT && kids[k].name != DOT_DOT && NoNul(Stripped(kids[k].name))
  }

  /** So list_items fails if and only if the path leads nowhere in the tree, and otherwise lists the children there. */
  lemma ListingIsWalk(disc: Disc, dirs: set<Word>, at: Word, kids: seq<Node>, path: seq<string>)
    requires Directories(disc, dirs) && at in dirs && Represents(disc, at, kids) && NoDots(path)
    requires Walk(kids, path).Some? ==> PlainNames(Walk(kids, path).value)
    ensures match Walk(kids, path)
            case None => Strict(disc, dirs, at, path).None?
            case Some(there) =>
              && Strict(disc, dirs, at, path).Some?
              && ListedNames(RecordsOf(disc(Strict(disc, dirs, at, path).value))) == KidNames(there)
  {
    StrictIsWalk(disc, dirs, at, kids, path);
    if Walk(kids, path).Some? {
      ListingIsKids(disc, Strict(disc, dirs, at, path).value, Walk(kids, path).value);
    }
  }

  function KidNames(kids: seq<Node>): seq<string> {
    if kids == [] then [] else [Stripped(kids[0].name)] + KidNames(kids[1..])
  }

  lemma {:induction false} KidsListed(kids: seq<Node>)
    requires PlainNames(kids)
    ensures ListedNames(NodeRecords(kids)) == KidNames(kids)
  {
    if kids != [] {
      KidsListed(kids[1..]);
      assert NodeRecords(kids)[1..] == NodeRecords(kids[1..]);
      WholeCString(Stripped(kids[0].name));
    }
  }

  lemma {:induction false} WholeCString(s: string)
    requires NoNul(s)
    ensures CString(s) == s
  {
    if s != "" {
      WholeCString(s[1..]);
    }
  }

  // ----- From path strings

  /** The components both routines work on. */
  function Components(path: string): seq<string> {
    Split(Upper(path), '/', PATH_PARTS)
  }

  /** Paths that differ only in the case of letters have the same components. */
  lemma CaseIsIgnored(path1: string, path2: string)
    requires SameLetters(path1, path2)
    ensures Components(path1) == Components(path2)
  {
    UpperIdentifies(path1, path2);
  }

  /** At most 16 components: without a doubled leading slash they are the first 16 of the runs between slashes, where
      the sixteenth keeps the rest. */
  lemma ComponentsAre(path: string, max: nat)
    requires !DoubledLeading(Upper(path), '/') && max >= 16
    ensures var all := Runs(Upper(path), '/', max);
      && |Components(path)| == (if |all| < 16 then |all| else 16)
      && forall k :: 0 <= k < |Components(path)| && k < 15 ==> Components(path)[k] == all[k]
  {
    SplitIsRunsIff(Upper(path), '/', 16);
    RunsPrefix(Upper(path), '/', 16, max);
  }

  function Join(u: string, d: char, n: string): (s: string)
    ensures |s| == |u| + 1 + |n|
  {
    u + [d] + n
  }

  lemma JoinDrop(u: string, d: char, n: string, k: nat)
    requires k <= |u|
    ensures Join(u, d, n)[k..] == Join(u[k..], d, n)
    ensures k < |u| ==> Join(u, d, n)[k] == u[k]
    ensures Join(u, d, n)[|u|] == d && Join(u, d, n)[|u| + 1..] == n
  {
  }

  /** Appending "/name" appends one component. */
  lemma {:induction false} RunsAppend(u: string, n: string, d: char, max: nat)
    requires max > 0 && n != "" && d !in n && |Runs(u, d, max)| < max
    ensures Runs(Join(u, d, n), d, max) == Runs(u, d, max) + [n]
    decreases max
  {
    var v := SkipDelims(u, d);
    SkipAppend(u, n, d);
    RunsSkip(u, d, max);
    RunsSkip(Join(u, d, n), d, max);
    if v == "" {
      OneRun(n, d, max);
    } else {
      RunsAppendHead(v, n, d, max);
      RunsAppend(v[|FirstRun(v, d)|..], n, d, max - 1);
      Shift(FirstRun(v, d), Runs(v[|FirstRun(v, d)|..], d, max - 1), n);
    }
  }

  lemma Shift(w: string, parts: seq<string>, n: string)
    ensures [w] + (parts + [n]) == ([w] + parts) + [n]
  {
  }

  lemma RunsAppendHead(v: string, n: string, d: char, max: nat)
    requires max > 0 && v != "" && v[0] != d && |Runs(v, d, max)| < max
    ensures max > 1 && Runs(v, d, max) == [FirstRun(v, d)] + Runs(v[|FirstRun(v, d)|..], d, max - 1)
    ensures Runs(Join(v, d, n), d, max) == [FirstRun(v, d)] + Runs(Join(v[|FirstRun(v, d)|..], d, n), d, max - 1)
  {
    JoinDrop(v, d, n, 0);
    JoinDrop(v, d, n, |FirstRun(v, d)|);
    FirstRunAppend(v, n, d);
    RunsCons(v, d, max);
    RunsCons(Join(v, d, n), d, max);
  }

  lemma OneRun(n: string, d: char, max: nat)
    requires max > 0 && n != "" && d !in n
    ensures Runs(n, d, max) == [n] && SkipDelims(n, d) == n
  {
    assert n[0] in n;
    assert n[..|n|] == n && n[|n|..] == "";
    FirstRunIs(n, |n|, d);
  }

  lemma RunsSkip(u: string, d: char, max: nat)
    requires max > 0
    ensures Runs(u, d, max) == Runs(SkipDelims(u, d), d, max)
  {
    SkipTwice(u, d);
  }

  lemma RunsCons(v: string, d: char, max: nat)
    requires max > 1 && v != "" && v[0] != d
    ensures Runs(v, d, max) == [FirstRun(v, d)] + Runs(v[|FirstRun(v, d)|..], d, max - 1)
  {
  }

  lemma {:induction false} SkipAppend(u: string, n: string, d: char)
    requires n != "" && d !in n
    ensures SkipDelims(Join(u, d, n), d) == if SkipDelims(u, d) == "" then n else Join(SkipDelims(u, d), d, n)
  {
    if u == "" {
      OneRun(n, d, 1);
      JoinDrop(u, d, n, 0);
    } else {
      JoinDrop(u, d, n, 1);
      JoinDrop(u, d, n, 0);
      if u[0] == d {
        SkipAppend(u[1..], n, d);
      }
    }
  }

  lemma {:induction false} FirstRunAppend(v: string, n: string, d: char)
    ensures FirstRun(Join(v, d, n), d) == FirstRun(v, d)
  {
    JoinDrop(v, d, n, 0);
    if v != "" && v[0] != d {
      JoinDrop(v, d, n, 1);
      FirstRunAppend(v[1..], n, d);
    }
  }

  lemma {:induction false} FindFileFinds(rs: seq<Record>, i: nat)
    requires i < |rs| && !rs[i].isDir
    ensures FindFile(rs, Stripped(rs[i].name)).Some?
  {
    if i > 0 {
      assert rs[1..][i - 1] == rs[i];
      FindFileFinds(rs[1..], i - 1);
    }
  }

  /** The string work: the components of "dir/name". */
  lemma ComponentsAppend(dir: string, name: string)
    requires name != "" && '/' !in name && Upper(name) == name && |Components(dir)| < PATH_PARTS
    requires !DoubledLeading(Join(Upper(dir), '/', name), '/')
    ensures Components(Join(dir, '/', name)) == Components(dir) + [name]
  {
    var u := Upper(dir);
    UpperJoin(dir, name);
    if DoubledLeading(u, '/') {
      JoinDrop(u, '/', name, 0);
      JoinDrop(u, '/', name, 1);
      assert false;
    }
    SplitAppend(u, name);
  }

  lemma UpperJoin(dir: string, name: string)
    ensures Upper(Join(dir, '/', name)) == Join(Upper(dir), '/', Upper(name))
  {
  }

  lemma SplitAppend(u: string, name: string)
    requires name != "" && '/' !in name && |Split(u, '/', PATH_PARTS)| < PATH_PARTS
    requires !DoubledLeading(u, '/') && !DoubledLeading(Join(u, '/', name), '/')
    ensures Split(Join(u, '/', name), '/', PATH_PARTS) == Split(u, '/', PATH_PARTS) + [name]
  {
    SplitIsRunsIff(u, '/', PATH_PARTS);
    SplitIsRunsIff(Join(u, '/', name), '/', PATH_PARTS);
    RunsAppend(u, name, '/', PATH_PARTS);
  }

  /** Every listed upper-case, slash-free, non-empty file name is found by get_lba_file under the same directory:
      the answer is the first file record of that name. */
  lemma ListedFileIsFound(disc: Disc, dirs: set<Word>, root: Word, dir: string, at: Word, i: nat, name: string)
    requires Directories(disc, dirs) && root in dirs
    requires Strict(disc, dirs, root, Components(dir)) == Some(at) && |Components(dir)| < PATH_PARTS
    requires i < |RecordsOf(disc(at))| && !RecordsOf(disc(at))[i].isDir && !IsDot(RecordsOf(disc(at))[i])
    requires name == Stripped(RecordsOf(disc(at))[i].name) && NoNul(name)
    requires name != "" && '/' !in name && Upper(name) == name && !DoubledLeading(Join(Upper(dir), '/', name), '/')
    ensures name in ListedNames(RecordsOf(disc(at)))
    ensures FindFile(RecordsOf(disc(at)), name).Some?
    ensures Resolve(disc, dirs, root, Components(Join(dir, '/', name))) == FindFile(RecordsOf(disc(at)), name).value
  {
    var rs := RecordsOf(disc(at));
    WholeCString(name);
    assert ListedName(rs[i]) == name;
    ListedNamesExact(rs, name);
    ComponentsAppend(dir, name);
    DescendIsStrictOnExisting(disc, dirs, root, Components(dir));
    FindFileFinds(rs, i);
    var path := Components(dir) + [name];
    assert path[..|path| - 1] == Components(dir);
  }

  // ----- From the disc

  /** On a disc whose root record leads to a sector that represents a tree, get_lba_file is lookup in that tree of the
      path without its missing directories. */
  lemma FileOnDisc(disc: Disc, dirs: set<Word>, r: Raw, kids: seq<Node>, path: string)
    requires disc(16)[156..156 + |EncodeRecord(r)|] == EncodeRecord(r)
    requires Directories(disc, dirs) && r.lba in dirs && Represents(disc, r.lba, kids)
    requires Components(path) != [] && NoDots(Components(path))
    ensures RootLba(disc) in dirs
    ensures Resolve(disc, dirs, RootLba(disc), Components(path))
         == Answer(Lookup(kids, KeptPath(kids, Components(path))))
  {
    RootIsEncoded(disc, r);
    ResolveIsLookup(disc, dirs, r.lba, kids, Components(path));
  }

  /** And list_items is the walk in it. */
  lemma ListingOnDisc(disc: Disc, dirs: set<Word>, r: Raw, kids: seq<Node>, path: string)
    requires disc(16)[156..156 + |EncodeRecord(r)|] == EncodeRecord(r)
    requires Directories(disc, dirs) && r.lba in dirs && Represents(disc, r.lba, kids) && NoDots(Components(path))
    requires Walk(kids, Components(path)).Some? ==> PlainNames(Walk(kids, Components(path)).value)
    ensures RootLba(disc) in dirs
    ensures match Walk(kids, Components(path))
            case None => Strict(disc, dirs, RootLba(disc), Components(path)).None?
            case Some(there) =>
              var at := Strict(disc, dirs, RootLba(disc), Components(path));
              at.Some? && ListedNames(RecordsOf(disc(at.value))) == KidNames(there)
  {
    RootIsEncoded(disc, r);
    ListingIsWalk(disc, dirs, r.lba, kids, Components(path));
  }

  lemma MeowUpper()
    ensures Upper("/docs/meow.txt") == "/DOCS/MEOW.TXT"
  {
  }

  lemma MeowComponents()
    ensures Components("/docs/meow.txt") == ["DOCS", "MEOW.TXT"]
  {
    MeowUpper();
    assert "/DOCS/MEOW.TXT" == Join("/DOCS", '/', "MEOW.TXT");
    assert Split("/DOCS", '/', 16) == ["DOCS"] by {
      assert "/DOCS"[1..] == "DOCS";
      OpenToEnd("DOCS", '/', 16);
    }
    SplitAppend("/DOCS", "MEOW.TXT");
  }

  /** For instance, the path /docs/meow.txt finds DOCS and in it MEOW.TXT;1. */
  lemma MeowIsFound(disc: Disc, dirs: set<Word>, r: Raw)
    requires disc(16)[156..156 + |EncodeRecord(r)|] == EncodeRecord(r)
    requires Directories(disc, dirs) && r.lba in dirs
    requires Represents(disc, r.lba, [Dir("DOCS", 21, 2048, [Leaf("MEOW.TXT;1", 30, 9)])])
    ensures RootLba(disc) in dirs
    ensures Resolve(disc, dirs, RootLba(disc), Components("/docs/meow.txt")) == File(30, 9)
  {
    MeowComponents();
    FileOnDisc(disc, dirs, r, [Dir("DOCS", 21, 2048, [Leaf("MEOW.TXT;1", 30, 9)])], "/docs/meow.txt");
    MeowLookup(Leaf("MEOW.TXT;1", 30, 9));
  }

  lemma MeowLookup(leaf: Node)
    requires leaf == Leaf("MEOW.TXT;1", 30, 9)
    ensures var kids, path := [Dir("DOCS", 21, 2048, [leaf])], ["DOCS", "MEOW.TXT"];
      KeptPath(kids, path) == path && Lookup(kids, path) == Some(File(30, 9))
  {
    var docs, path := Dir("DOCS", 21, 2048, [leaf]), ["DOCS", "MEOW.TXT"];
    assert "MEOW.TXT;1" == "MEOW.TXT" + [';', '1'];
    StrippedFacts("MEOW.TXT", '1');
    StrippedFacts("DOCS", '1');
    assert path[1..] == ["MEOW.TXT"];
    assert ChildDir([docs], "DOCS") == Some(docs) && ChildFile([leaf], "MEOW.TXT") == Some(File(30, 9));
    KeptPathFacts([docs], path);
  }
}
