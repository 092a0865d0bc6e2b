/** The keyboard driver as it runs, and every interleaving of interrupts, polls and program exits. */
module Keyboard {
  import opened Words
  import opened Keys

  // ----- The driver

  class Keyboard {
    const keyBuffer: array<Byte>
    var keyBufferRead: Byte
    var keyBufferLength: Byte
    var lastF0: bool
    var shift: bool

    ghost predicate Valid() {
      keyBuffer.Length == 511
    }

    ghost function Pending(): Queue
      requires Valid()
      reads this, keyBuffer
    {
      Queue(keyBuffer[..], keyBufferRead, keyBufferLength)
    }

    ghost function Decoding(): Decoder
      reads this
    {
      Decoder(lastF0, shift)
    }

    constructor ()
      ensures Valid() && fresh(keyBuffer)
      ensures keyBufferRead == 0 && keyBufferLength == 0 && Decoding() == Decoder(false, false)
    {
      keyBuffer := new Byte[511](_ => 0);
      keyBufferRead, keyBufferLength, lastF0, shift := 0, 0, false, false;
    }

    method KeyboardHandler(scancode: Byte)
      requires Valid()
      modifies this`keyBufferLength, keyBuffer
      ensures Pending() == Deliver(old(Pending()), scancode)
      ensures RoomFor(old(Pending())) ==> Contents(Pending()) == Contents(old(Pending())) + [scancode]
    {
      if RoomFor(Pending()) {
        DeliverAppends(Pending(), scancode);
      }
      keyBuffer[keyBufferRead + keyBufferLength] := scancode;
      Wrap8IsModulo(keyBufferLength + 1);
      keyBufferLength := (keyBufferLength + 1) % 0x100;
    }

    method PollChar() returns (c: char)
      requires Valid()
      modifies this
      ensures old(keyBufferLength) == 0 ==> c == NUL && Pending() == old(Pending()) && Decoding() == old(Decoding())
      ensures old(keyBufferLength) > 0 ==>
                && Pending() == Rest(old(Pending()))
                && (Decoding(), c) == Decode(old(Decoding()), Contents(old(Pending()))[0])
    {
      var scancode: Byte;
      if keyBufferLength > 0 {
        scancode := keyBuffer[keyBufferRead];
        Wrap8IsModulo(keyBufferRead + 1);
        keyBufferRead := (keyBufferRead + 1) % 0x100;
        keyBufferLength := keyBufferLength - 1;
      } else {
        return NUL;
      }
      if scancode == BREAK {
        lastF0 := true;
        return NUL;
      }
      if lastF0 {
        lastF0 := false;
        if scancode == LEFT_SHIFT {
          shift := false;
        }
        return NUL;
      }
      if scancode == LEFT_SHIFT {
        shift := true;
        return NUL;
      }
      return KeyChar(scancode, shift);
    }

    /** The exit branch of syscall_handler empties the queue; the decoder keeps its flags. */
    method ExitReset()
      requires Valid()
      modifies this`keyBufferRead, this`keyBufferLength
      ensures Contents(Pending()) == [] && keyBufferRead == 0 && Decoding() == old(Decoding())
    {
      keyBufferRead := 0;
      keyBufferLength := 0;
    }
  }

  // ----- Runs

  datatype Event = Interrupt(code: Byte) | Poll | Exit

  /** The driver's state, with what happened since the last exit: codes delivered and polled, text returned, and the
      decoder flags the exit left. */
  datatype Trace = Trace(q: Queue, decoder: Decoder, delivered: seq<Byte>, polled: seq<Byte>, text: string,
                         entry: Decoder)

  function Step(t: Trace, e: Event): Trace {
    match e
    case Interrupt(code) => t.(q := Deliver(t.q, code), delivered := t.delivered + [code])
    case Poll =>
      if t.q.length == 0 then t
      else
        var code := t.q.slots[t.q.read];
        var (decoder, c) := Decode(t.decoder, code);
        Trace(Rest(t.q), decoder, t.delivered, t.polled + [code], t.text + Visible(c), t.entry)
    case Exit => Trace(Queue(t.q.slots, 0, 0), t.decoder, [], [], "", t.decoder)
  }

  function Run(t: Trace, events: seq<Event>): Trace {
    if events == [] then t else Step(Run(t, events[..|events| - 1]), events[|events| - 1])
  }

  /** Every interrupt of the run finds its slot below index 256 and the length below 255. */
  predicate InRange(t: Trace, events: seq<Event>) {
    events == [] ||
    (InRange(t, events[..|events| - 1])
     && (events[|events| - 1].Interrupt? ==> RoomFor(Run(t, events[..|events| - 1]).q)))
  }

  ghost predicate Consistent(t: Trace) {
    && t.q.read + t.q.length <= 0x100
    && t.polled + Contents(t.q) == t.delivered
    && t.decoder == DecodeState(t.entry, t.polled) && t.text == DecodeText(t.entry, t.polled)
  }

  lemma StepConsistent(t: Trace, e: Event)
    requires Consistent(t) && (e.Interrupt? ==> RoomFor(t.q))
    ensures Consistent(Step(t, e))
    ensures Step(t, e).q.read == 0 ==> t.q.read == 0 || Step(t, e).q.length == 0
  {
    match e
    case Interrupt(code) =>
      DeliverAppends(t.q, code);
      assert t.polled + (Contents(t.q) + [code]) == (t.polled + Contents(t.q)) + [code];
    case Poll =>
      if t.q.length > 0 {
        PollConsistent(t);
      }
    case Exit =>
  }

  lemma PollConsistent(t: Trace)
    requires Consistent(t) && t.q.length > 0
    ensures Consistent(Step(t, Poll))
    ensures Step(t, Poll).q.read == 0 ==> t.q.read == 0 || Step(t, Poll).q.length == 0
  {
    RestDrops(t.q);
    var code := t.q.slots[t.q.read];
    assert Contents(t.q) == [code] + Contents(Rest(t.q));
    assert t.polled + ([code] + Contents(Rest(t.q))) == (t.polled + [code]) + Contents(Rest(t.q));
    DecodeAppend(t.entry, t.polled, [code]);
    OneCode(t.decoder, code);
  }

  lemma OneCode(d: Decoder, code: Byte)
    ensures DecodeState(d, [code]) == Decode(d, code).0 && DecodeText(d, [code]) == Visible(Decode(d, code).1)
  {
  }

  /** FIFO over every interleaving in range: since the last exit, what was polled is a prefix of what was delivered,
      the rest is still queued in order, and the text returned is the decoding of what was polled. */
  lemma {:induction false} RunConsistent(t: Trace, events: seq<Event>)
    requires Consistent(t) && InRange(t, events)
    ensures Consistent(Run(t, events)) && Run(t, events).polled <= Run(t, events).delivered
  {
    if events != [] {
      RunConsistent(t, events[..|events| - 1]);
      StepConsistent(Run(t, events[..|events| - 1]), events[|events| - 1]);
    }
  }

  function PowerOn(slots: Slots): Trace {
    Trace(Queue(slots, 0, 0), Decoder(false, false), [], [], "", Decoder(false, false))
  }

  /** A run is in range whenever no more than 255 codes arrive between two exits. */
  predicate AtMost255(t: Trace, events: seq<Event>) {
    |Run(t, events).delivered| <= 255 && (events == [] || AtMost255(t, events[..|events| - 1]))
  }

  lemma {:induction false} FewDeliveriesAreInRange(slots: Slots, events: seq<Event>)
    requires AtMost255(PowerOn(slots), events)
    ensures InRange(PowerOn(slots), events)
    ensures var t := Run(PowerOn(slots), events); t.q.read + t.q.length == |t.delivered|
  {
    if events != [] {
      FewDeliveriesAreInRange(slots, events[..|events| - 1]);
      StepCounts(Run(PowerOn(slots), events[..|events| - 1]), events[|events| - 1]);
    }
  }

  lemma StepCounts(t: Trace, e: Event)
    requires t.q.read + t.q.length == |t.delivered| && |Step(t, e).delivered| <= 255
    ensures Step(t, e).q.read + Step(t, e).q.length == |Step(t, e).delivered|
    ensures e.Interrupt? ==> RoomFor(t.q)
  {
    match e
    case Interrupt(code) =>
    case Poll =>
    case Exit =>
  }

  /** End to end: type a supported text after the last exit, let polls interleave with the interrupts in any way, and
      once the queue is empty the characters returned, NULs dropped, are the text if and only if the flags the exit
      left let it arrive. */
  lemma TypedTextArrivesIff(slots: Slots, events: seq<Event>, text: string)
    requires InRange(PowerOn(slots), events) && SupportedText(text)
    requires Run(PowerOn(slots), events).delivered == Codes(TypeText(text))
    requires Run(PowerOn(slots), events).q.length == 0
    ensures Run(PowerOn(slots), events).text == text <==> Arrives(Run(PowerOn(slots), events).entry, text)
  {
    var t := Run(PowerOn(slots), events);
    RunConsistent(PowerOn(slots), events);
    assert Contents(t.q) == [] && t.polled == t.delivered;
    TextArrivesIff(t.entry, text);
  }

  /** Without an exit the decoder started idle, so the text arrives. */
  lemma {:induction false} EntryKept(t: Trace, events: seq<Event>)
    requires Exit !in events
    ensures Run(t, events).entry == t.entry
  {
    if events != [] {
      EntryKept(t, events[..|events| - 1]);
    }
  }

  lemma TypedTextArrives(slots: Slots, events: seq<Event>, text: string)
    requires InRange(PowerOn(slots), events) && SupportedText(text) && Exit !in events
    requires Run(PowerOn(slots), events).delivered == Codes(TypeText(text))
    requires Run(PowerOn(slots), events).q.length == 0
    ensures Run(PowerOn(slots), events).text == text
  {
    EntryKept(PowerOn(slots), events);
    TypedTextArrivesIff(slots, events, text);
  }

  /** The exit keeps the decoder's flags. If it comes between the two codes of a break, the next make is dropped: here
      the letter a is typed after the exit, every code is polled, and nothing is returned. */
  const EXIT_INSIDE_BREAK: seq<Event> := [Interrupt(BREAK), Poll, Exit]
  const TYPE_A: seq<Event> := [Interrupt(0x1C), Interrupt(BREAK), Interrupt(0x1C), Poll, Poll, Poll]

  lemma ExitLosesKey(slots: Slots)
    ensures var t := Run(PowerOn(slots), EXIT_INSIDE_BREAK + TYPE_A);
      t.delivered == Codes(TypeText("a")) && t.q.length == 0 && t.text == ""
  {
    AfterExit(slots);
    TypingA(PowerOn(slots), EXIT_INSIDE_BREAK);
    LetterACodes();
  }

  lemma {:induction false} AfterExit(slots: Slots)
    ensures var t := Run(PowerOn(slots), EXIT_INSIDE_BREAK);
      t.q.read == 0 && t.q.length == 0 && t.delivered == [] && t.decoder == Decoder(true, false) && t.text == ""
  {
    RunThree(PowerOn(slots), [], Interrupt(BREAK), Poll, Exit);
    assert [] + [Interrupt(BREAK)] + [Poll] + [Exit] == EXIT_INSIDE_BREAK;
  }

  lemma {:induction false} TypingA(t0: Trace, events: seq<Event>)
    requires var t := Run(t0, events);
      t.q.read == 0 && t.q.length == 0 && t.delivered == [] && t.decoder == Decoder(true, false) && t.text == ""
    ensures var t := Run(t0, events + TYPE_A);
      t.delivered == [0x1C, BREAK, 0x1C] && t.q.length == 0 && t.text == ""
  {
    var middle := events + [Interrupt(0x1C)] + [Interrupt(BREAK)] + [Interrupt(0x1C)];
    assert Run(t0, middle).delivered == [0x1C, BREAK, 0x1C] && Waiting(Run(t0, middle)) by {
      RunThree(t0, events, Interrupt(0x1C), Interrupt(BREAK), Interrupt(0x1C));
      DeliverA(Run(t0, events));
    }
    assert Run(t0, events + TYPE_A) == Step(Step(Step(Run(t0, middle), Poll), Poll), Poll) by {
      RunThree(t0, middle, Poll, Poll, Poll);
      SameEvents(events);
    }
    PollA(Run(t0, middle));
  }

  lemma SameEvents(events: seq<Event>)
    ensures events + [Interrupt(0x1C)] + [Interrupt(BREAK)] + [Interrupt(0x1C)] + [Poll] + [Poll] + [Poll]
         == events + TYPE_A
  {
  }

  /** The three codes are queued behind a pending break. */
  ghost predicate Waiting(t: Trace) {
    && t.q.read == 0 && t.q.length == 3
    && t.q.slots[0] == 0x1C && t.q.slots[1] == BREAK && t.q.slots[2] == 0x1C
    && t.decoder == Decoder(true, false) && t.text == ""
  }

  lemma DeliverA(t: Trace)
    requires t.q.read == 0 && t.q.length == 0 && t.delivered == [] && t.decoder == Decoder(true, false) && t.text == ""
    ensures var t1 := Step(Step(Step(t, Interrupt(0x1C)), Interrupt(BREAK)), Interrupt(0x1C));
      t1.delivered == [0x1C, BREAK, 0x1C] && Waiting(t1)
  {
  }

  lemma PollA(t: Trace)
    requires Waiting(t)
    ensures var t1 := Step(Step(Step(t, Poll), Poll), Poll);
      t1.q.length == 0 && t1.delivered == t.delivered && t1.text == ""
  {
  }

  lemma {:induction false} RunOne(t: Trace, events: seq<Event>, e: Event)
    ensures Run(t, events + [e]) == Step(Run(t, events), e)
  {
    assert (events + [e])[..|events|] == events;
  }

  lemma {:induction false} RunThree(t: Trace, events: seq<Event>, a: Event, b: Event, c: Event)
    ensures Run(t, events + [a] + [b] + [c]) == Step(Step(Step(Run(t, events), a), b), c)
  {
    RunOne(t, events, a);
    RunOne(t, events + [a], b);
    RunOne(t, events + [a] + [b], c);
  }
}
