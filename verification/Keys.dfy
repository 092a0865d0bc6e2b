/** The scan-code queue and decoder of src/boot/isr.c and src/drivers/keyboard.c, as values. */
module Keys {
  import opened Words

  const BREAK: Byte := 0xF0
  const LEFT_SHIFT: Byte := 0x12

  // ----- The queue

  /** The write index is not reduced modulo 256, so it ranges over 511 slots; both counters are 8 bits wide. */
  type Slots = b: seq<Byte> | |b| == 511 witness seq(511, i => 0)
  datatype Queue = Queue(slots: Slots, read: Byte, length: Byte)

  /** keyboard_handler */
  function Deliver(q: Queue, code: Byte): Queue {
    Queue(q.slots[q.read + q.length := code], q.read, Wrap8(q.length + 1))
  }

  /** The consuming half of poll_char, on a queue that is not empty. */
  function Rest(q: Queue): Queue
    requires q.length > 0
  {
    Queue(q.slots, Wrap8(q.read + 1), q.length - 1)
  }

  /** What the next `length` polls will read. */
  function Contents(q: Queue): (codes: seq<Byte>)
    ensures |codes| == q.length
    decreases q.length
  {
    if q.length == 0 then [] else [q.slots[q.read]] + Contents(Rest(q))
  }

  lemma {:induction false} ContentsAt(q: Queue, k: nat)
    requires k < q.length
    ensures Contents(q)[k] == q.slots[Wrap8(q.read + k)]
    decreases q.length
  {
    if k > 0 {
      ContentsAt(Rest(q), k - 1);
    }
  }

  /** Below the wrap the contents are a plain slice of the slots. */
  lemma {:induction false} ContentsSlice(q: Queue)
    requires q.read + q.length <= 0x100
    ensures Contents(q) == q.slots[q.read..q.read + q.length]
    decreases q.length
  {
    if q.length > 1 {
      assert Rest(q).read == q.read + 1;
      ContentsSlice(Rest(q));
    }
  }

  predicate RoomFor(q: Queue) {
    q.read + q.length <= 255 && q.length < 255
  }

  /** Delivery appends at the back of the queue if and only if the write index is at most 255 and the length does
      not wrap. */
  lemma {:induction false} DeliverAppendsIff(q: Queue)
    ensures (forall code: Byte :: Contents(Deliver(q, code)) == Contents(q) + [code]) <==> RoomFor(q)
  {
    if RoomFor(q) {
      forall code: Byte ensures Contents(Deliver(q, code)) == Contents(q) + [code] {
        DeliverAppends(q, code);
      }
    } else {
      var stale: Byte := q.slots[Wrap8(q.read + q.length)];
      var code: Byte := Wrap8(stale + 1);
      if q.length < 255 {
        ContentsAt(Deliver(q, code), q.length);
        assert Contents(Deliver(q, code))[q.length] == stale;
        assert (Contents(q) + [code])[q.length] == code;
      } else {
        assert |Contents(Deliver(q, code))| != |Contents(q) + [code]|;
      }
    }
  }

  /** For instance, with read index 255 and one code queued, the next code is stored past the slots that are read. */
  lemma PastTheEndExample()
    ensures var q := Queue(seq(511, i => 0), 255, 1); Contents(Deliver(q, 7)) == [0, 0]
  {
    var q := Queue(seq(511, i => 0), 255, 1);
    var q1 := Deliver(q, 7);
    assert q1.length == 2 && q1.slots[255] == 0 && q1.slots[0] == 0;
    assert Rest(q1).read == 0 && Rest(q1).length == 1 && Rest(q1).slots == q1.slots;
    assert Contents(Rest(q1)) == [0];
  }

  lemma DeliverAppends(q: Queue, code: Byte)
    requires RoomFor(q)
    ensures Contents(Deliver(q, code)) == Contents(q) + [code]
  {
    ContentsSlice(q);
    ContentsSlice(Deliver(q, code));
  }

  /** A poll torn between `read++` and `length--` by one delivery: the code lands one slot too far and the queue
      ends with whatever its intended slot held before. */
  function TornPoll(q: Queue, code: Byte): Queue
    requires q.length > 0
  {
    var advanced := Queue(q.slots, Wrap8(q.read + 1), q.length);
    var delivered := Deliver(advanced, code);
    Queue(delivered.slots, delivered.read, if delivered.length == 0 then 255 else delivered.length - 1)
  }

  lemma TornPollState(q: Queue, code: Byte)
    requires q.length > 0
    ensures var read: Byte := Wrap8(q.read + 1);
      TornPoll(q, code) == Queue(q.slots[read + q.length := code], read, q.length)
  {
  }

  /** The code's slot is not among those the torn queue reads. */
  lemma {:induction false} TornPollAt(q: Queue, code: Byte, k: nat)
    requires k < q.length
    ensures Contents(TornPoll(q, code))[k] == q.slots[Wrap8(q.read + k + 1)]
  {
    TornPollState(q, code);
    ContentsAt(TornPoll(q, code), k);
  }

  lemma ShiftedIs(a: seq<Byte>, b: seq<Byte>)
    requires |a| == |b| > 0 && forall k :: 0 <= k < |a| - 1 ==> a[k] == b[k + 1]
    ensures a == b[1..] + [a[|a| - 1]]
  {
  }

  /** Whatever the indices, the queue ends with the old value of the slot the code was meant for. */
  lemma {:induction false} TornPollContents(q: Queue, code: Byte)
    requires q.length > 0
    ensures Contents(TornPoll(q, code)) == Contents(q)[1..] + [q.slots[Wrap8(q.read + q.length)]]
  {
    var torn, before, n := Contents(TornPoll(q, code)), Contents(q), q.length;
    assert |torn| == n by {
      TornPollState(q, code);
    }
    forall k | 0 <= k < n - 1 ensures torn[k] == before[k + 1] {
      TornPollAt(q, code, k);
      ContentsAt(q, k + 1);
    }
    TornPollAt(q, code, n - 1);
    ShiftedIs(torn, before);
  }

  /** A torn poll delivers the code if and only if the slot it was meant for held that code already. */
  lemma TornPollLosesCodeIff(q: Queue, code: Byte)
    requires q.length > 0
    ensures Contents(TornPoll(q, code)) == Contents(q)[1..] + [code] <==> q.slots[Wrap8(q.read + q.length)] == code
  {
    TornPollContents(q, code);
    SameLast(Contents(q)[1..], q.slots[Wrap8(q.read + q.length)], code);
  }

  lemma SameLast(s: seq<Byte>, a: Byte, b: Byte)
    ensures s + [a] == s + [b] <==> a == b
  {
    assert (s + [a])[|s|] == a && (s + [b])[|s|] == b;
  }

  /** For instance, with one code queued in an empty buffer, the next code is lost and a 0 is queued. */
  lemma TornPollExample()
    ensures var q := Queue(seq(511, i => 0)[0 := 5], 0, 1);
      Contents(q) == [5] && Contents(TornPoll(q, 7)) == [0] && Contents(Rest(Deliver(q, 7))) == [7]
  {
    var q := Queue(seq(511, i => 0)[0 := 5], 0, 1);
    assert Contents(q) == [5];
    TornPollContents(q, 7);
    DeliveryBeforePoll(q, 7);
  }

  /** A poll torn inside `length--`, between the load of the length and the store: the count of the delivery is lost. */
  function TornDecrement(q: Queue, code: Byte): Queue
    requires q.length > 0
  {
    var advanced := Queue(q.slots, Wrap8(q.read + 1), q.length);
    Queue(Deliver(advanced, code).slots, advanced.read, q.length - 1)
  }

  /** Then the code is lost whatever its slot held. */
  lemma {:induction false} TornDecrementLosesCode(q: Queue, code: Byte)
    requires q.length > 0
    ensures Contents(TornDecrement(q, code)) == Contents(q)[1..]
  {
    var torn, before := Contents(TornDecrement(q, code)), Contents(q);
    forall k: nat | k < q.length - 1 ensures torn[k] == before[k + 1] {
      TornDecrementAt(q, code, k);
      ContentsAt(q, k + 1);
    }
  }

  lemma {:induction false} TornDecrementAt(q: Queue, code: Byte, k: nat)
    requires k < q.length - 1
    ensures Contents(TornDecrement(q, code))[k] == q.slots[Wrap8(q.read + k + 1)]
  {
    ContentsAt(TornDecrement(q, code), k);
  }

  /** The same delivery before the whole poll, or after it, loses nothing. */
  lemma {:induction false} DeliveryBeforePoll(q: Queue, code: Byte)
    requires q.length > 0 && RoomFor(q)
    ensures Contents(Rest(Deliver(q, code))) == Contents(q)[1..] + [code]
  {
    DeliverAppends(q, code);
    RestDrops(Deliver(q, code));
  }

  lemma {:induction false} DeliveryAfterPoll(q: Queue, code: Byte)
    requires q.length > 0 && RoomFor(Rest(q))
    ensures Contents(Deliver(Rest(q), code)) == Contents(q)[1..] + [code]
  {
    RestDrops(q);
    DeliverAppends(Rest(q), code);
  }

  lemma RestDrops(q: Queue)
    requires q.length > 0
    ensures Contents(Rest(q)) == Contents(q)[1..] && Contents(q)[0] == q.slots[q.read]
  {
  }

  // ----- The decoder

  datatype Decoder = Decoder(lastF0: bool, shift: bool)

  /** The key table, in the source's order. */
  function KeyChar(code: Byte, shift: bool): char {
    if code == 0x1C then if shift then 'A' else 'a'
    else if code == 0x32 then if shift then 'B' else 'b'
    else if code == 0x21 then if shift then 'C' else 'c'
    else if code == 0x23 then if shift then 'D' else 'd'
    else if code == 0x24 then if shift then 'E' else 'e'
    else if code == 0x2B then if shift then 'F' else 'f'
    else if code == 0x34 then if shift then 'G' else 'g'
    else if code == 0x33 then if shift then 'H' else 'h'
    else if code == 0x43 then if shift then 'I' else 'i'
    else if code == 0x3B then if shift then 'J' else 'j'
    else if code == 0x42 then if shift then 'K' else 'k'
    else if code == 0x4B then if shift then 'L' else 'l'
    else if code == 0x3A then if shift then 'M' else 'm'
    else if code == 0x31 then if shift then 'N' else 'n'
    else if code == 0x44 then if shift then 'O' else 'o'
    else if code == 0x4D then if shift then 'P' else 'p'
    else if code == 0x15 then if shift then 'Q' else 'q'
    else if code == 0x2D then if shift then 'R' else 'r'
    else if code == 0x1B then if shift then 'S' else 's'
    else if code == 0x2C then if shift then 'T' else 't'
    else if code == 0x3C then if shift then 'U' else 'u'
    else if code == 0x2A then if shift then 'V' else 'v'
    else if code == 0x1D then if shift then 'W' else 'w'
    else if code == 0x22 then if shift then 'X' else 'x'
    else if code == 0x35 then if shift then 'Y' else 'y'
    else if code == 0x1A then if shift then 'Z' else 'z'
    else if code == 0x29 then ' '
    else if code == 0x66 then '\U{8}'
    else if code == 0x5A then '\n'
    else if code == 0x49 then if shift then '>' else '.'
    else if code == 0x41 then if shift then '<' else ','
    else if code == 0x0D then '\t'
    else if code == 0x4C then if shift then ':' else ';'
    else if code == 0x16 then if shift then '!' else '1'
    else if code == 0x1E then if shift then '@' else '2'
    else if code == 0x26 then if shift then '#' else '3'
    else if code == 0x25 then if shift then '$' else '4'
    else if code == 0x2E then if shift then '%' else '5'
    else if code == 0x36 then if shift then '^' else '6'
    else if code == 0x3D then if shift then '&' else '7'
    else if code == 0x3E then if shift then '*' else '8'
    else if code == 0x46 then if shift then '(' else '9'
    else if code == 0x45 then if shift then ')' else '0'
    else if code == 0x4E then if shift then '_' else '-'
    else if code == 0x55 then if shift then '+' else '='
    else if code == 0x4A then if shift then '?' else '/'
    else NUL
  }

  /** The codes of the keys A to Z and 0 to 9 in Scan Code Set 2. */
  const LETTER_KEYS: seq<Byte> :=
    [0x1C, 0x32, 0x21, 0x23, 0x24, 0x2B, 0x34, 0x33, 0x43, 0x3B, 0x42, 0x4B, 0x3A,
     0x31, 0x44, 0x4D, 0x15, 0x2D, 0x1B, 0x2C, 0x3C, 0x2A, 0x1D, 0x22, 0x35, 0x1A]
  const DIGIT_KEYS: seq<Byte> := [0x45, 0x16, 0x1E, 0x26, 0x25, 0x2E, 0x36, 0x3D, 0x3E, 0x46]

  lemma SmallLetters(i: nat)
    requires i < 26
    ensures KeyChar(LETTER_KEYS[i], false) == 'a' + (i as char)
  {
    match i
    case 0 => case 1 => case 2 => case 3 => case 4 => case 5 => case 6 => case 7 => case 8 => case 9 =>
    case 10 => case 11 => case 12 => case 13 => case 14 => case 15 => case 16 => case 17 => case 18 => case 19 =>
    case 20 => case 21 => case 22 => case 23 => case 24 => case _ =>
  }

  lemma CapitalLetters(i: nat)
    requires i < 26
    ensures KeyChar(LETTER_KEYS[i], true) == 'A' + (i as char)
  {
    match i
    case 0 => case 1 => case 2 => case 3 => case 4 => case 5 => case 6 => case 7 => case 8 => case 9 =>
    case 10 => case 11 => case 12 => case 13 => case 14 => case 15 => case 16 => case 17 => case 18 => case 19 =>
    case 20 => case 21 => case 22 => case 23 => case 24 => case _ =>
  }

  lemma Digits(i: nat)
    requires i < 10
    ensures KeyChar(DIGIT_KEYS[i], false) == '0' + (i as char)
  {
    match i
    case 0 => case 1 => case 2 => case 3 => case 4 => case 5 => case 6 => case 7 => case 8 => case _ =>
  }

  /** The keys of Scan Code Set 2 in literal bytes: letters A to M, N to Z, and digits 0 to 9. */
  lemma Set2Codes()
    ensures LETTER_KEYS[..13] == [0x1C, 0x32, 0x21, 0x23, 0x24, 0x2B, 0x34, 0x33, 0x43, 0x3B, 0x42, 0x4B, 0x3A]
    ensures LETTER_KEYS[13..] == [0x31, 0x44, 0x4D, 0x15, 0x2D, 0x1B, 0x2C, 0x3C, 0x2A, 0x1D, 0x22, 0x35, 0x1A]
    ensures DIGIT_KEYS == [0x45, 0x16, 0x1E, 0x26, 0x25, 0x2E, 0x36, 0x3D, 0x3E, 0x46]
  {
  }

  lemma ShiftedDigits(i: nat)
    requires i < 10
    ensures KeyChar(DIGIT_KEYS[i], true) == ")!@#$%^&*("[i]
  {
    match i
    case 0 => case 1 => case 2 => case 3 => case 4 => case 5 => case 6 => case 7 => case 8 => case _ =>
  }

  /** The keys that are neither letters nor digits, in literal codes and characters. */
  lemma OtherKeys(i: nat)
    requires i < 6
    ensures var k := [0x49, 0x41, 0x4C, 0x4E, 0x55, 0x4A][i];
      KeyChar(k, false) == ".,;-=/"[i] && KeyChar(k, true) == "><:_+?"[i]
    ensures i < 4 ==> var k := [0x29, 0x66, 0x5A, 0x0D][i];
                      KeyChar(k, false) == KeyChar(k, true) == [' ', 8 as char, 10 as char, 9 as char][i]
  {
    match i case 0 => case 1 => case 2 => case 3 => case 4 => case _ =>
  }

  /** The key of a character, and whether shift is held with it: the keyboard read the other way. */
  function KeyFor(c: char): Option<(Byte, bool)> {
    if 'a' <= c <= 'z' then Some((LETTER_KEYS[(c - 'a') as int], false))
    else if 'A' <= c <= 'Z' then Some((LETTER_KEYS[(c - 'A') as int], true))
    else if '0' <= c <= '9' then Some((DIGIT_KEYS[(c - '0') as int], false))
    else OtherKey(c)
  }

  function OtherKey(c: char): Option<(Byte, bool)> {
    if c == ' ' then Some((0x29, false))
    else if c == '\U{8}' then Some((0x66, false))
    else if c == '\n' then Some((0x5A, false))
    else if c == '\t' then Some((0x0D, false))
    else if c == '.' then Some((0x49, false))
    else if c == '>' then Some((0x49, true))
    else if c == ',' then Some((0x41, false))
    else if c == '<' then Some((0x41, true))
    else if c == ';' then Some((0x4C, false))
    else if c == ':' then Some((0x4C, true))
    else if c == '-' then Some((0x4E, false))
    else if c == '_' then Some((0x4E, true))
    else if c == '=' then Some((0x55, false))
    else if c == '+' then Some((0x55, true))
    else if c == '/' then Some((0x4A, false))
    else if c == '?' then Some((0x4A, true))
    else if c == ')' then Some((0x45, true))
    else if c == '!' then Some((0x16, true))
    else if c == '@' then Some((0x1E, true))
    else if c == '#' then Some((0x26, true))
    else if c == '$' then Some((0x25, true))
    else if c == '%' then Some((0x2E, true))
    else if c == '^' then Some((0x36, true))
    else if c == '&' then Some((0x3D, true))
    else if c == '*' then Some((0x3E, true))
    else if c == '(' then Some((0x46, true))
    else None
  }

  /** The keys whose character does not depend on shift: space, backspace, newline and tab. */
  predicate IgnoresShift(code: Byte) {
    code in {0x29, 0x66, 0x5A, 0x0D}
  }

  lemma OtherKeyTypes(c: char)
    requires OtherKey(c).Some?
    ensures c != NUL && KeyChar(OtherKey(c).value.0, OtherKey(c).value.1) == c
  {
  }

  lemma KeyForTypes(c: char)
    requires KeyFor(c).Some?
    ensures c != NUL && KeyChar(KeyFor(c).value.0, KeyFor(c).value.1) == c
  {
    if 'a' <= c <= 'z' {
      SmallLetters((c - 'a') as int);
    } else if 'A' <= c <= 'Z' {
      CapitalLetters((c - 'A') as int);
    } else if '0' <= c <= '9' {
      Digits((c - '0') as int);
    } else {
      OtherKeyTypes(c);
    }
  }

  /** The table has an inverse: no character belongs to two keys, and where it belongs to one key twice, that key
      ignores shift. */
  lemma KeyTableInverts(code: Byte, shift: bool)
    requires KeyChar(code, shift) != NUL
    ensures KeyFor(KeyChar(code, shift)) == Some((code, shift && !IgnoresShift(code)))
  {
    if shift {
      ShiftedInverts(code);
    } else {
      UnshiftedInverts(code);
    }
  }

  lemma ShiftedInverts(code: Byte)
    requires KeyChar(code, true) != NUL
    ensures KeyFor(KeyChar(code, true)) == Some((code, !IgnoresShift(code)))
  {
    if code < 0x33 {
      ShiftedInvertsLow(code);
    } else {
      ShiftedInvertsHigh(code);
    }
  }

  lemma ShiftedInvertsLow(code: Byte)
    requires code < 0x33 && KeyChar(code, true) != NUL
    ensures KeyFor(KeyChar(code, true)) == Some((code, !IgnoresShift(code)))
  {
  }

  lemma ShiftedInvertsHigh(code: Byte)
    requires code >= 0x33 && KeyChar(code, true) != NUL
    ensures KeyFor(KeyChar(code, true)) == Some((code, !IgnoresShift(code)))
  {
  }

  lemma UnshiftedInverts(code: Byte)
    requires KeyChar(code, false) != NUL
    ensures KeyFor(KeyChar(code, false)) == Some((code, false))
  {
  }

  /** The state machine of poll_char on one scan code. */
  function Decode(d: Decoder, code: Byte): (Decoder, char) {
    if code == BREAK then (Decoder(true, d.shift), NUL)
    else if d.lastF0 then (Decoder(false, d.shift && code != LEFT_SHIFT), NUL)
    else if code == LEFT_SHIFT then (Decoder(false, true), NUL)
    else (d, KeyChar(code, d.shift))
  }

  /** A character poll_char returned, as text: NUL means "nothing". */
  function Visible(c: char): string {
    if c == NUL then "" else [c]
  }

  function DecodeState(d: Decoder, codes: seq<Byte>): Decoder
    decreases |codes|
  {
    if codes == [] then d else DecodeState(Decode(d, codes[0]).0, codes[1..])
  }

  function DecodeText(d: Decoder, codes: seq<Byte>): string
    decreases |codes|
  {
    if codes == [] then "" else Visible(Decode(d, codes[0]).1) + DecodeText(Decode(d, codes[0]).0, codes[1..])
  }

  lemma {:induction false} DecodeAppend(d: Decoder, a: seq<Byte>, b: seq<Byte>)
    ensures DecodeState(d, a + b) == DecodeState(DecodeState(d, a), b)
    ensures DecodeText(d, a + b) == DecodeText(d, a) + DecodeText(DecodeState(d, a), b)
    decreases |a|
  {
    if a == [] {
      assert a + b == b;
    } else {
      assert (a + b)[1..] == a[1..] + b;
      DecodeAppend(Decode(d, a[0]).0, a[1..], b);
    }
  }

  // ----- Key presses

  /** A key with a one-byte Scan Code Set 2 code goes down or comes up. */
  datatype Key = Make(code: Byte) | Break(code: Byte)

  predicate OneByte(keys: seq<Key>) {
    forall i :: 0 <= i < |keys| ==> keys[i].code != BREAK
  }

  function KeyCodes(key: Key): seq<Byte> {
    match key
    case Make(c) => [c]
    case Break(c) => [BREAK, c]
  }

  function Codes(keys: seq<Key>): seq<Byte> {
    if keys == [] then [] else KeyCodes(keys[0]) + Codes(keys[1..])
  }

  /** Left shift is held: the last event of its key, if there was one, was a make. */
  predicate ShiftHeld(keys: seq<Key>, before: bool) {
    if keys == [] then before
    else if keys[|keys| - 1].code == LEFT_SHIFT then keys[|keys| - 1].Make?
    else ShiftHeld(keys[..|keys| - 1], before)
  }

  /** The text of a stream of key events: each other key that goes down, under the shift held at that moment. */
  function Typed(keys: seq<Key>, before: bool): string {
    if keys == [] then ""
    else
      var earlier, key := keys[..|keys| - 1], keys[|keys| - 1];
      Typed(earlier, before)
      + (if key.Make? && key.code != LEFT_SHIFT then Visible(KeyChar(key.code, ShiftHeld(earlier, before))) else "")
  }

  /** For any stream of make and break events, the decoder's shift flag is "the last left-shift event was a make",
      its break flag is clear, and the text is what was typed. */
  lemma {:induction false} DecoderTracksKeys(keys: seq<Key>, shift: bool)
    requires OneByte(keys)
    ensures DecodeState(Decoder(false, shift), Codes(keys)) == Decoder(false, ShiftHeld(keys, shift))
    ensures DecodeText(Decoder(false, shift), Codes(keys)) == Typed(keys, shift)
  {
    if keys != [] {
      var earlier, key := keys[..|keys| - 1], keys[|keys| - 1];
      DecoderTracksKeys(earlier, shift);
      assert keys == earlier + [key];
      CodesAppend(earlier, [key]);
      DecodeAppend(Decoder(false, shift), Codes(earlier), Codes([key]));
      AnyKey(Decoder(false, ShiftHeld(earlier, shift)), key);
    }
  }

  lemma {:induction false} CodesAppend(a: seq<Key>, b: seq<Key>)
    ensures Codes(a + b) == Codes(a) + Codes(b)
  {
    if a == [] {
      assert a + b == b;
    } else {
      assert (a + b)[1..] == a[1..] + b;
      CodesAppend(a[1..], b);
    }
  }

  /** What one key event does to a decoder in any state: a pending break swallows a make. */
  lemma AnyKey(d: Decoder, key: Key)
    requires key.code != BREAK
    ensures DecodeState(d, Codes([key]))
         == Decoder(false, if key.code == LEFT_SHIFT then key.Make? && !d.lastF0 else d.shift)
    ensures DecodeText(d, Codes([key]))
         == if key.Make? && key.code != LEFT_SHIFT && !d.lastF0 then Visible(KeyChar(key.code, d.shift)) else ""
  {
    assert Codes([key]) == KeyCodes(key);
    if key.Break? {
      var d1 := Decode(d, BREAK).0;
      assert KeyCodes(key)[1..] == [key.code];
      assert DecodeState(d1, [key.code]) == Decode(d1, key.code).0;
      assert DecodeText(d1, [key.code]) == Visible(Decode(d1, key.code).1);
    }
  }

  /** In literal bytes: 0x12 presses shift, 0xF0 announces that the next key comes up, and only its release of 0x12
      means anything. */
  lemma LiteralCodes(d: Decoder, code: Byte)
    requires code != 0xF0
    ensures DecodeState(d, [0xF0, code]) == Decoder(false, d.shift && code != 0x12)
    ensures DecodeText(d, [0xF0, code]) == ""
    ensures DecodeState(Decoder(false, d.shift), [0x12]) == Decoder(false, true)
    ensures DecodeText(Decoder(false, d.shift), [0x12]) == ""
    ensures code != 0x12 ==> DecodeState(Decoder(false, d.shift), [code]) == Decoder(false, d.shift)
                             && DecodeText(Decoder(false, d.shift), [code]) == Visible(KeyChar(code, d.shift))
  {
    AnyKey(d, Break(code));
    AnyKey(Decoder(false, d.shift), Make(0x12));
    AnyKey(Decoder(false, d.shift), Make(code));
    assert Codes([Break(code)]) == KeyCodes(Break(code)) == [0xF0, code];
    assert Codes([Make(0x12)]) == KeyCodes(Make(0x12)) == [0x12];
    assert Codes([Make(code)]) == KeyCodes(Make(code)) == [code];
  }

  // ----- Typing a text

  predicate Produces(code: Byte, shift: bool, c: char) {
    c != NUL && KeyChar(code, shift) == c
  }

  predicate Supported(c: char) {
    KeyFor(c).Some?
  }

  /** Nothing typable is left out. */
  lemma SupportedIff(c: char)
    ensures Supported(c) <==> exists code, shift :: Produces(code, shift, c)
  {
    if Supported(c) {
      KeyForTypes(c);
      assert Produces(KeyFor(c).value.0, KeyFor(c).value.1, c);
    }
    forall code, shift | Produces(code, shift, c) ensures Supported(c) {
      KeyTableInverts(code, shift);
    }
  }

  /** The events of typing a key, holding left shift around it if asked. */
  function Press(code: Byte, shift: bool): seq<Key> {
    if shift then [Make(LEFT_SHIFT)] + [Make(code)] + [Break(code)] + [Break(LEFT_SHIFT)]
    else [Make(code)] + [Break(code)]
  }

  function KeysFor(c: char): seq<Key>
    requires Supported(c)
  {
    Press(KeyFor(c).value.0, KeyFor(c).value.1)
  }

  /** The bytes the keyboard sends for one character. */
  lemma CodesOfCharacter(c: char)
    requires Supported(c)
    ensures var (k, shift) := KeyFor(c).value;
      Codes(KeysFor(c)) == if shift then [0x12, k, 0xF0, k, 0xF0, 0x12] else [k, 0xF0, k]
  {
    var (k, shift) := KeyFor(c).value;
    if shift {
      var down, up := [Make(0x12)] + [Make(k)], [Break(k)] + [Break(0x12)];
      CodesAppend([Make(0x12)], [Make(k)]);
      CodesAppend([Break(k)], [Break(0x12)]);
      CodesAppend(down, up);
      assert KeysFor(c) == down + up;
    } else {
      CodesAppend([Make(k)], [Break(k)]);
    }
  }

  predicate SupportedText(text: string) {
    forall i :: 0 <= i < |text| ==> Supported(text[i])
  }

  function TypeText(text: string): seq<Key>
    requires SupportedText(text)
  {
    if text == "" then [] else TypeText(text[..|text| - 1]) + KeysFor(text[|text| - 1])
  }

  lemma {:induction false} TypeTextCons(text: string)
    requires SupportedText(text) && text != ""
    ensures TypeText(text) == KeysFor(text[0]) + TypeText(text[1..])
  {
    if |text| > 1 {
      var front := text[..|text| - 1];
      TypeTextCons(front);
      assert front[1..] == text[1..][..|text| - 2] && front[0] == text[0];
      var first, middle, last := KeysFor(text[0]), TypeText(front[1..]), KeysFor(text[|text| - 1]);
      assert (first + middle) + last == first + (middle + last);
    } else {
      assert text[..0] == "" && text[1..] == "" && TypeText("") == [];
    }
  }

  lemma TwoStreams(d: Decoder, a: seq<Key>, b: seq<Key>)
    ensures DecodeState(d, Codes(a + b)) == DecodeState(DecodeState(d, Codes(a)), Codes(b))
    ensures DecodeText(d, Codes(a + b)) == DecodeText(d, Codes(a)) + DecodeText(DecodeState(d, Codes(a)), Codes(b))
  {
    CodesAppend(a, b);
    DecodeAppend(d, Codes(a), Codes(b));
  }

  /** What typing one character does to a decoder in any state. */
  lemma OneCharacter(d: Decoder, c: char)
    requires Supported(c)
    ensures var (code, shift) := KeyFor(c).value;
      && DecodeState(d, Codes(KeysFor(c))) == Decoder(false, d.shift && !shift)
      && DecodeText(d, Codes(KeysFor(c)))
         == (if d.lastF0 then (if shift then Visible(KeyChar(code, false)) else "")
             else Visible(KeyChar(code, d.shift || shift)))
  {
    var (code, shift) := KeyFor(c).value;
    KeyForTypes(c);
    assert code != LEFT_SHIFT && code != BREAK;
    if shift {
      ShiftedPress(d, code);
    } else {
      PlainPress(d, code);
    }
  }

  lemma PlainPress(d: Decoder, code: Byte)
    requires code != LEFT_SHIFT && code != BREAK
    ensures DecodeState(d, Codes(Press(code, false))) == Decoder(false, d.shift)
    ensures DecodeText(d, Codes(Press(code, false))) == if d.lastF0 then "" else Visible(KeyChar(code, d.shift))
  {
    TwoStreams(d, [Make(code)], [Break(code)]);
    AnyKey(d, Make(code));
    AnyKey(Decoder(false, d.shift), Break(code));
  }

  lemma ShiftedPress(d: Decoder, code: Byte)
    requires code != LEFT_SHIFT && code != BREAK
    ensures DecodeState(d, Codes(Press(code, true))) == Decoder(false, false)
    ensures DecodeText(d, Codes(Press(code, true))) == Visible(KeyChar(code, !d.lastF0))
  {
    var down, held := [Make(LEFT_SHIFT)], Decoder(false, !d.lastF0);
    AnyKey(d, Make(LEFT_SHIFT));
    TwoStreams(d, down, [Make(code)]);
    AnyKey(held, Make(code));
    TwoStreams(d, down + [Make(code)], [Break(code)]);
    AnyKey(held, Break(code));
    TwoStreams(d, down + [Make(code)] + [Break(code)], [Break(LEFT_SHIFT)]);
    AnyKey(held, Break(LEFT_SHIFT));
  }

  lemma FirstCharacter(d: Decoder, text: string)
    requires SupportedText(text) && text != ""
    ensures var d1 := DecodeState(d, Codes(KeysFor(text[0])));
      && DecodeState(d, Codes(TypeText(text))) == DecodeState(d1, Codes(TypeText(text[1..])))
      && DecodeText(d, Codes(TypeText(text)))
         == DecodeText(d, Codes(KeysFor(text[0]))) + DecodeText(d1, Codes(TypeText(text[1..])))
  {
    TypeTextCons(text);
    CodesAppend(KeysFor(text[0]), TypeText(text[1..]));
    DecodeAppend(d, Codes(KeysFor(text[0])), Codes(TypeText(text[1..])));
  }

  /** Typing any supported text and decoding its scan codes gives the text back. */
  lemma {:induction false} TextRoundTrip(text: string)
    requires SupportedText(text)
    ensures DecodeState(Decoder(false, false), Codes(TypeText(text))) == Decoder(false, false)
    ensures DecodeText(Decoder(false, false), Codes(TypeText(text))) == text
  {
    if text != "" {
      FirstCharacter(Decoder(false, false), text);
      OneCharacter(Decoder(false, false), text[0]);
      KeyForTypes(text[0]);
      TextRoundTrip(text[1..]);
    }
  }

  // ----- Typing into a decoder that is not idle

  /** Up to the first character that is typed with shift, only keys that ignore it. */
  predicate UntouchedByShift(text: string)
    requires SupportedText(text)
  {
    text == "" || KeyFor(text[0]).value.1
    || (IgnoresShift(KeyFor(text[0]).value.0) && UntouchedByShift(text[1..]))
  }

  /** When a text typed into a decoder in state d comes out. */
  predicate Arrives(d: Decoder, text: string)
    requires SupportedText(text)
  {
    text == "" || (!d.lastF0 && (!d.shift || UntouchedByShift(text)))
  }

  /** No state makes a text longer. */
  lemma {:induction false} NeverLonger(d: Decoder, text: string)
    requires SupportedText(text)
    ensures |DecodeText(d, Codes(TypeText(text)))| <= |text|
    decreases |text|
  {
    if text != "" {
      FirstCharacter(d, text);
      OneCharacter(d, text[0]);
      NeverLonger(DecodeState(d, Codes(KeysFor(text[0]))), text[1..]);
    }
  }

  /** A typed text comes out of a decoder if and only if it is empty, or no break is pending and a shift already held
      does not change it. */
  lemma {:induction false} TextArrivesIff(d: Decoder, text: string)
    requires SupportedText(text)
    ensures DecodeText(d, Codes(TypeText(text))) == text <==> Arrives(d, text)
    decreases |text|
  {
    if text != "" {
      var c, rest := text[0], text[1..];
      var d1 := DecodeState(d, Codes(KeysFor(c)));
      FirstCharacter(d, text);
      CharacterArrivesIff(d, c);
      NeverLonger(d1, rest);
      TextArrivesIff(d1, rest);
      HeadAndTail(text, DecodeText(d, Codes(KeysFor(c))), DecodeText(d1, Codes(TypeText(rest))));
    }
  }

  lemma HeadAndTail(text: string, head: string, tail: string)
    requires text != "" && |head| <= 1 && |tail| <= |text[1..]|
    ensures head + tail == text <==> head == [text[0]] && tail == text[1..]
  {
    assert text == [text[0]] + text[1..];
    if head + tail == text {
      assert |head| == 1 && (head + tail)[0] == head[0] && (head + tail)[1..] == tail;
    }
  }

  lemma CharacterArrivesIff(d: Decoder, c: char)
    requires Supported(c)
    ensures var (code, shift) := KeyFor(c).value;
      && DecodeState(d, Codes(KeysFor(c))) == Decoder(false, d.shift && !shift)
      && |DecodeText(d, Codes(KeysFor(c)))| <= 1
      && (DecodeText(d, Codes(KeysFor(c))) == [c] <==> !d.lastF0 && (!d.shift || shift || IgnoresShift(code)))
  {
    OneCharacter(d, c);
    KeyUnderShift(c);
  }

  /** The same key under the other shift gives another character, or ignores shift. */
  lemma KeyUnderShift(c: char)
    requires Supported(c)
    ensures var (code, shift) := KeyFor(c).value;
      && KeyChar(code, shift) == c != NUL
      && (shift ==> KeyChar(code, false) != c)
      && (!shift ==> (KeyChar(code, true) == c <==> IgnoresShift(code)))
  {
    var (code, shift) := KeyFor(c).value;
    KeyForTypes(c);
    if KeyChar(code, !shift) == c {
      KeyTableInverts(code, !shift);
      KeyTableInverts(code, shift);
    }
  }

  /** So every text comes out if and only if the decoder is idle. */
  lemma AllTextsArriveIff(d: Decoder)
    ensures (forall text :: SupportedText(text) ==> DecodeText(d, Codes(TypeText(text))) == text)
       <==> d == Decoder(false, false)
  {
    forall text | SupportedText(text)
      ensures DecodeText(d, Codes(TypeText(text))) == text <==> Arrives(d, text)
    {
      TextArrivesIff(d, text);
    }
    assert SupportedText("a") && !UntouchedByShift("a");
  }

  lemma LetterACodes()
    ensures SupportedText("a") && Codes(TypeText("a")) == [0x1C, BREAK, 0x1C]
  {
    TypeTextCons("a");
    assert "a"[1..] == "" && TypeText("") == [];
  }
}
