/** ISO 9660 directory records (ECMA-119, section 9.1) in one 2048-byte sector, and their walk. */
module IsoRecords {
  import opened Words

  const SECTOR: nat := 2048

  type Sector = b: seq<Byte> | |b| == 2048 witness seq(2048, i => 0)

  /** A disc: every logical block address has a sector. */
  type Disc = Word -> Sector

  /** What the driver uses of a directory record. */
  datatype Record = Record(name: string, lba: Word, size: Word, isDir: bool)

  function Little32(b: seq<Byte>, o: nat): Word
    requires o + 4 <= |b|
  {
    var b0: int, b1: int, b2: int, b3: int := b[o], b[o + 1], b[o + 2], b[o + 3];
    b0 + 0x100 * b1 + 0x1_0000 * b2 + 0x100_0000 * b3
  }

  function Chars(b: seq<Byte>): (s: string)
    ensures |s| == |b|
  {
    seq(|b|, i requires 0 <= i < |b| => b[i] as char)
  }

  /** The record at offset o: length at 0, LBA at 2, size at 10, flags at 25, name length at 32, name at 33. */
  function RecordAt(b: seq<Byte>, o: nat): Record
    requires o + 33 <= |b| && o + 33 + b[o + 32] <= |b|
  {
    Record(Chars(b[o + 33..o + 33 + b[o + 32]]), Little32(b, o + 2), Little32(b, o + 10), b[o + 25] / 2 % 2 == 1)
  }

  /** From offset o on there are whole records up to a zero length byte inside the sector. */
  predicate WellFormed(b: Sector, o: nat)
    decreases SECTOR - o
  {
    o < SECTOR &&
    (b[o] == 0 || (o + b[o] < SECTOR && 33 <= b[o] && b[o + 32] <= b[o] - 33 && WellFormed(b, o + b[o])))
  }

  function Records(b: Sector, o: nat): seq<Record>
    requires WellFormed(b, o)
    decreases SECTOR - o
  {
    if b[o] == 0 then [] else [RecordAt(b, o)] + Records(b, o + b[o])
  }

  function RecordsOf(b: Sector): seq<Record>
    requires WellFormed(b, 0)
  {
    Records(b, 0)
  }

  // ----- An encoder, following the layout of the standard

  /** A record with its fields as stored; `tail` pads it. */
  datatype RawFields = Raw(extLength: Byte, lba: Word, size: Word, date: seq<Byte>, flags: Byte, unit: seq<Byte>,
                           name: seq<Byte>, tail: seq<Byte>)

  type Raw = r: RawFields | |r.date| == 7 && |r.unit| == 6 && 33 + |r.name| + |r.tail| < 0x100
    witness Raw(0, 0, 0, [0, 0, 0, 0, 0, 0, 0], 0, [0, 0, 0, 0, 0, 0], [], [])

  function Bytes32(x: Word): (b: seq<Byte>)
    ensures |b| == 4
  {
    [x % 0x100, x / 0x100 % 0x100, x / 0x100 / 0x100 % 0x100, x / 0x100 / 0x100 / 0x100]
  }

  function BothEndian(x: Word): (b: seq<Byte>)
    ensures |b| == 8
  {
    var le := Bytes32(x);
    le + [le[3], le[2], le[1], le[0]]
  }

  function EncodeRecord(r: Raw): (b: seq<Byte>)
    ensures |b| == 33 + |r.name| + |r.tail|
  {
    [33 + |r.name| + |r.tail|, r.extLength] + BothEndian(r.lba) + BothEndian(r.size) + r.date + [r.flags] + r.unit
    + [|r.name|] + r.name + r.tail
  }

  function EncodeRecords(rs: seq<Raw>): seq<Byte>
  {
    if rs == [] then [] else EncodeRecord(rs[0]) + EncodeRecords(rs[1..])
  }

  function Meaning(r: Raw): Record {
    Record(Chars(r.name), r.lba, r.size, r.flags / 2 % 2 == 1)
  }

  function Meanings(rs: seq<Raw>): seq<Record> {
    if rs == [] then [] else [Meaning(rs[0])] + Meanings(rs[1..])
  }

  lemma Little32Inverts(x: Word)
    ensures Little32(Bytes32(x), 0) == x
  {
    var a: int, b: int, c: int := x / 0x100, x / 0x100 / 0x100, x / 0x100 / 0x100 / 0x100;
    assert x % 0x100 == x - 0x100 * a && a % 0x100 == a - 0x100 * b && b % 0x100 == b - 0x100 * c;
  }

  lemma FieldsOf(r: Raw)
    ensures var e := EncodeRecord(r);
      && e[0] == |e| && e[25] == r.flags && e[32] == |r.name| && e[33..33 + |r.name|] == r.name
      && e[2..6] == Bytes32(r.lba) && e[10..14] == Bytes32(r.size)
  {
  }

  /** Reading a record back where it is encoded. */
  lemma RecordReadsBack(b: seq<Byte>, o: nat, r: Raw)
    requires o + |EncodeRecord(r)| <= |b| && b[o..o + |EncodeRecord(r)|] == EncodeRecord(r)
    ensures b[o] == |EncodeRecord(r)| && 33 + b[o + 32] <= b[o] && RecordAt(b, o) == Meaning(r)
  {
    var e := EncodeRecord(r);
    FieldsOf(r);
    forall k | 0 <= k < |e| ensures b[o + k] == e[k] {
      assert b[o..o + |e|][k] == e[k];
    }
    assert b[o] == b[o + 0] == e[0];
    assert b[o + 33..o + 33 + |r.name|] == e[33..33 + |r.name|];
    Little32Inverts(r.lba);
    Little32Inverts(r.size);
    assert e[2] == e[2..6][0] && e[3] == e[2..6][1] && e[4] == e[2..6][2] && e[5] == e[2..6][3];
    assert e[10] == e[10..14][0] && e[11] == e[10..14][1] && e[12] == e[10..14][2] && e[13] == e[10..14][3];
  }

  /** The record in literal bytes: character k of the name is byte 33 + k, numbers are little-endian, and a directory
      has bit 1 of the flags. */
  lemma RecordBytes(b: seq<Byte>, o: nat, k: nat)
    requires o + 33 <= |b| && o + 33 + b[o + 32] <= |b| && k < b[o + 32]
    ensures |RecordAt(b, o).name| == b[o + 32] && RecordAt(b, o).name[k] as int == b[o + 33 + k]
    ensures RecordAt(b, o).isDir <==> b[o + 25] % 4 == 2 || b[o + 25] % 4 == 3
    ensures RecordAt(b, o).lba % 0x100 == b[o + 2] && RecordAt(b, o).lba / 0x100_0000 == b[o + 5]
    ensures RecordAt(b, o).size % 0x100 == b[o + 10] && RecordAt(b, o).size / 0x100_0000 == b[o + 13]
  {
  }

  lemma TwoSlices(b: seq<Byte>, o: nat, e: seq<Byte>, rest: seq<Byte>)
    requires o + |e| + |rest| <= |b| && b[o..o + |e| + |rest|] == e + rest
    ensures b[o..o + |e|] == e && b[o + |e|..o + |e| + |rest|] == rest
  {
    var both := b[o..o + |e| + |rest|];
    assert both[..|e|] == e && both[|e|..] == rest;
  }

  /** The first of some encoded records is read back, and the others follow it. */
  lemma FirstReadsBack(b: seq<Byte>, o: nat, r: Raw, rest: seq<Byte>)
    requires o + |EncodeRecord(r)| + |rest| <= |b|
    requires b[o..o + |EncodeRecord(r)| + |rest|] == EncodeRecord(r) + rest
    ensures b[o] == |EncodeRecord(r)| && 33 + b[o + 32] <= b[o] && RecordAt(b, o) == Meaning(r)
    ensures b[o + b[o]..o + b[o] + |rest|] == rest
  {
    TwoSlices(b, o, EncodeRecord(r), rest);
    RecordReadsBack(b, o, r);
  }

  /** A record in front of a well-formed rest. */
  lemma WalkOne(b: Sector, o: nat)
    requires o < SECTOR && 33 <= b[o] && o + b[o] < SECTOR && b[o + 32] <= b[o] - 33 && WellFormed(b, o + b[o])
    ensures WellFormed(b, o) && Records(b, o) == [RecordAt(b, o)] + Records(b, o + b[o])
  {
  }

  /** A sector that starts with encoded records and then a zero byte is walked as exactly those records. */
  lemma {:induction false} RecordsReadBack(b: Sector, o: nat, rs: seq<Raw>)
    requires o + |EncodeRecords(rs)| < SECTOR
    requires b[o..o + |EncodeRecords(rs)|] == EncodeRecords(rs) && b[o + |EncodeRecords(rs)|] == 0
    ensures WellFormed(b, o) && Records(b, o) == Meanings(rs)
    decreases |rs|
  {
    if rs != [] {
      var all, rest := EncodeRecords(rs), EncodeRecords(rs[1..]);
      assert all == EncodeRecord(rs[0]) + rest;
      FirstReadsBack(b, o, rs[0], rest);
      assert o + b[o] + |rest| == o + |all|;
      RecordsReadBack(b, o + b[o], rs[1..]);
      WalkOne(b, o);
    }
  }
}
