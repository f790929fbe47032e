/** The keyboard driver: a byte machine that decodes scancodes, tracks modifiers and queues events. */
module Keyboard {
  import opened Words
  import opened KeyTables

  const QUEUE_LIMIT: nat := 100
  const EXTENDED_PREFIX: u8 := 0xE0

  datatype Modifiers = Modifiers(shift: bool, ctrl: bool, alt: bool, capsLock: bool, numLock: bool)
  datatype KeyEvent = KeyEvent(scancode: u8, keycode: KeyCode, modifiers: Modifiers, pressed: bool)

  const NO_MODIFIERS := Modifiers(false, false, false, false, false)

  /** What the driver remembers between bytes, apart from the queue. */
  datatype Decoder = Decoder(extended: bool, modifiers: Modifiers)

  const START := Decoder(false, NO_MODIFIERS)

  function KeycodeOf(scancode: u8, extended: bool): KeyCode {
    if extended then ExtendedScancodeToKeycode(scancode % 0x80) else ScancodeToKeycode(scancode % 0x80)
  }

  function UpdateModifiers(m: Modifiers, key: KeyCode, pressed: bool): Modifiers {
    match key
    case LeftShift => m.(shift := pressed)
    case RightShift => m.(shift := pressed)
    case LeftCtrl => m.(ctrl := pressed)
    case RightCtrl => m.(ctrl := pressed)
    case LeftAlt => m.(alt := pressed)
    case RightAlt => m.(alt := pressed)
    case CapsLock => if pressed then m.(capsLock := !m.capsLock) else m
    case NumLock => if pressed then m.(numLock := !m.numLock) else m
    case _ => m
  }

  /** The event a byte decodes to; the prefix byte decodes to none. */
  function EventOf(d: Decoder, byte: u8): Option<KeyEvent> {
    if byte == EXTENDED_PREFIX then None
    else
      var keycode, pressed := KeycodeOf(byte, d.extended), byte < 0x80;
      Some(KeyEvent(byte, keycode, UpdateModifiers(d.modifiers, keycode, pressed), pressed))
  }

  function Decode(d: Decoder, byte: u8): Decoder {
    match EventOf(d, byte)
    case None => d.(extended := true)
    case Some(event) => Decoder(false, event.modifiers)
  }

  function EventChar(e: KeyEvent): Option<char> {
    if e.pressed then CharOf(e.keycode, e.modifiers.shift, e.modifiers.capsLock) else None
  }

  /** How many events `get_char` takes off a queue: up to and including the first printable one. */
  function TakenByGetChar(queue: seq<KeyEvent>): (n: nat)
    ensures n <= |queue|
    ensures forall i | 0 <= i < n - 1 :: EventChar(queue[i]).None?
    ensures n < |queue| ==> n > 0 && EventChar(queue[n - 1]).Some?
  {
    if queue == [] then 0
    else if EventChar(queue[0]).Some? then 1
    else 1 + TakenByGetChar(queue[1..])
  }

  class Keyboard {
    var extendedKey: bool
    var modifiers: Modifiers
    var buffer: seq<KeyEvent>

    ghost predicate Valid()
      reads this
    {
      |buffer| <= QUEUE_LIMIT
    }

    constructor ()
      ensures Valid() && Decoder(extendedKey, modifiers) == START && buffer == []
    {
      extendedKey, modifiers, buffer := false, NO_MODIFIERS, [];
    }

    /** One interrupt; `scancode` is the byte read from the port. */
    method HandleInterrupt(scancode: u8)
      requires Valid()
      modifies this
      ensures Valid()
      ensures Decoder(extendedKey, modifiers) == Decode(Decoder(old(extendedKey), old(modifiers)), scancode)
      ensures buffer == Queued(old(buffer), EventOf(Decoder(old(extendedKey), old(modifiers)), scancode))
    {
      if scancode == EXTENDED_PREFIX {
        extendedKey := true;
        return;
      }
      var isExtended := extendedKey;
      extendedKey := false;
      var event := HandleScancode(scancode, isExtended);
      if |buffer| < QUEUE_LIMIT {
        buffer := buffer + [event];
      }
    }

    method HandleScancode(scancode: u8, extended: bool) returns (event: KeyEvent)
      modifies this`modifiers
      ensures modifiers == UpdateModifiers(old(modifiers), KeycodeOf(scancode, extended), scancode < 0x80)
      ensures event == KeyEvent(scancode, KeycodeOf(scancode, extended), modifiers, scancode < 0x80)
    {
      var pressed := scancode < 0x80;
      var code := scancode % 0x80;
      var keycode := if extended then ExtendedScancodeToKeycode(code) else ScancodeToKeycode(code);
      modifiers := UpdateModifiers(modifiers, keycode, pressed);
      return KeyEvent(scancode, keycode, modifiers, pressed);
    }

    method ReadKey() returns (r: Option<KeyEvent>)
      requires Valid()
      modifies this`buffer
      ensures Valid()
      ensures if old(buffer) == [] then r == None && buffer == []
              else r == Some(old(buffer)[0]) && buffer == old(buffer)[1..]
    {
      if buffer == [] { return None; }
      r := Some(buffer[0]);
      buffer := buffer[1..];
    }

    /** The character of the first printable event; it and everything before it leave the queue. */
    method GetChar() returns (r: Option<char>)
      requires Valid()
      modifies this`buffer
      ensures Valid()
      ensures buffer == old(buffer)[TakenByGetChar(old(buffer))..]
      ensures r == if exists i | 0 <= i < |old(buffer)| :: EventChar(old(buffer)[i]).Some?
                   then EventChar(old(buffer)[TakenByGetChar(old(buffer)) - 1]) else None
    {
      ghost var all := buffer;
      ghost var taken := 0;
      while buffer != []
        invariant taken <= |all| && buffer == all[taken..] && Valid()
        invariant forall i | 0 <= i < taken :: EventChar(all[i]).None?
        invariant TakenByGetChar(all) == taken + TakenByGetChar(all[taken..])
        decreases |buffer|
      {
        var event := ReadKey();
        taken := taken + 1;
        assert all[taken - 1..][1..] == all[taken..];
        if event.Some? {
          r := EventChar(event.value);
          if r.Some? { return; }
        }
      }
      return None;
    }
  }

  /** The queue after an event arrives: dropped when it already holds 100. */
  function Queued(queue: seq<KeyEvent>, event: Option<KeyEvent>): seq<KeyEvent> {
    if event.Some? && |queue| < QUEUE_LIMIT then queue + [event.value] else queue
  }

  // ---------------------------------------------------------------- whole runs

  datatype Op = Byte(byte: u8) | Read | GetChar

  /** The driver during a run, with the events it has delivered so far and how many it dropped. */
  datatype Session = Session(decoder: Decoder, queue: seq<KeyEvent>, delivered: seq<KeyEvent>, dropped: nat)

  function Act(s: Session, op: Op): Session {
    match op
    case Byte(b) =>
      var event := EventOf(s.decoder, b);
      Session(Decode(s.decoder, b), Queued(s.queue, event), s.delivered,
              s.dropped + if event.Some? && |s.queue| >= QUEUE_LIMIT then 1 else 0)
    case Read => Deliver(s, Min(1, |s.queue|))
    case GetChar => Deliver(s, TakenByGetChar(s.queue))
  }

  function Deliver(s: Session, n: nat): Session
    requires n <= |s.queue|
  {
    s.(queue := s.queue[n..], delivered := s.delivered + s.queue[..n])
  }

  function After(ops: seq<Op>): Session {
    if ops == [] then Session(START, [], [], 0)
    else Act(After(ops[..|ops| - 1]), ops[|ops| - 1])
  }

  /** The bytes of a run, reads left out. */
  function BytesOf(ops: seq<Op>): seq<u8> {
    if ops == [] then []
    else
      var op := ops[|ops| - 1];
      BytesOf(ops[..|ops| - 1]) + if op.Byte? then [op.byte] else []
  }

  /** The decoder after a stream of bytes, and the events it decodes to, with no queue in sight. */
  function DecoderAfter(bytes: seq<u8>): Decoder {
    if bytes == [] then START else Decode(DecoderAfter(bytes[..|bytes| - 1]), bytes[|bytes| - 1])
  }

  function EventsOf(bytes: seq<u8>): seq<KeyEvent> {
    if bytes == [] then []
    else
      var event := EventOf(DecoderAfter(bytes[..|bytes| - 1]), bytes[|bytes| - 1]);
      EventsOf(bytes[..|bytes| - 1]) + if event.Some? then [event.value] else []
  }

  predicate IsSubsequence(a: seq<KeyEvent>, b: seq<KeyEvent>) {
    if b == [] then a == []
    else
      || IsSubsequence(a, b[..|b| - 1])
      || (a != [] && a[|a| - 1] == b[|b| - 1] && IsSubsequence(a[..|a| - 1], b[..|b| - 1]))
  }

  /** How often a key was pressed. */
  function Presses(events: seq<KeyEvent>, key: KeyCode): nat {
    if events == [] then 0
    else
      var e := events[|events| - 1];
      Presses(events[..|events| - 1], key) + if e.keycode == key && e.pressed then 1 else 0
  }

  /** The last event of one of these keys. */
  function LastOf(events: seq<KeyEvent>, keys: set<KeyCode>): Option<KeyEvent> {
    if events == [] then None
    else
      var e := events[|events| - 1];
      if e.keycode in keys then Some(e) else LastOf(events[..|events| - 1], keys)
  }

  /** Whether that event was a press. */
  predicate Held(events: seq<KeyEvent>, keys: set<KeyCode>) {
    match LastOf(events, keys)
    case Some(e) => e.pressed
    case None => false
  }

  /** The modifiers a stream of events stands for: shift, control and alt follow the last event of
      either of their keys, the locks are the parity of their presses. */
  function ModifiersOf(events: seq<KeyEvent>): Modifiers {
    Modifiers(Held(events, {LeftShift, RightShift}), Held(events, {LeftCtrl, RightCtrl}),
              Held(events, {LeftAlt, RightAlt}),
              Presses(events, CapsLock) % 2 == 1, Presses(events, NumLock) % 2 == 1)
  }

  lemma {:induction false} ByteStep(bytes: seq<u8>, b: u8)
    ensures DecoderAfter(bytes + [b]) == Decode(DecoderAfter(bytes), b)
    ensures EventsOf(bytes + [b]) ==
            EventsOf(bytes) + match EventOf(DecoderAfter(bytes), b) case Some(e) => [e] case None => []
  {
    assert (bytes + [b])[..|bytes + [b]| - 1] == bytes;
  }

  lemma {:induction false} SubsequenceAppend(a: seq<KeyEvent>, b: seq<KeyEvent>, e: KeyEvent)
    requires IsSubsequence(a, b)
    ensures IsSubsequence(a, b + [e]) && IsSubsequence(a + [e], b + [e])
  {
    assert (b + [e])[..|b + [e]| - 1] == b && (a + [e])[..|a + [e]| - 1] == a;
  }

  lemma {:induction false} FullSubsequence(a: seq<KeyEvent>, b: seq<KeyEvent>)
    requires IsSubsequence(a, b)
    ensures |a| <= |b| && (|a| == |b| ==> a == b)
    decreases |b|
  {
    if b != [] {
      var front := b[..|b| - 1];
      if IsSubsequence(a, front) {
        FullSubsequence(a, front);
      } else {
        FullSubsequence(a[..|a| - 1], front);
      }
    }
  }

  /** The queue stays within 100; the events delivered and queued are, in order, a subsequence of
      the decoded stream, short by exactly the dropped ones; and the decoder has followed every
      byte, those of dropped events included. */
  ghost predicate Faithful(s: Session, bytes: seq<u8>) {
    && |s.queue| <= QUEUE_LIMIT
    && s.decoder == DecoderAfter(bytes)
    && IsSubsequence(s.delivered + s.queue, EventsOf(bytes))
    && |s.delivered + s.queue| + s.dropped == |EventsOf(bytes)|
  }

  lemma ByteKeepsFaithful(s: Session, bytes: seq<u8>, b: u8)
    requires Faithful(s, bytes)
    ensures Faithful(Act(s, Byte(b)), bytes + [b])
  {
    hide EventOf, Decode, IsSubsequence, EventsOf, DecoderAfter;
    ByteStep(bytes, b);
    var event := EventOf(s.decoder, b);
    if event.Some? {
      SubsequenceAppend(s.delivered + s.queue, EventsOf(bytes), event.value);
      assert s.delivered + (s.queue + [event.value]) == s.delivered + s.queue + [event.value];
    } else {
      assert EventsOf(bytes) + [] == EventsOf(bytes);
    }
  }

  lemma ReadKeepsFaithful(s: Session, bytes: seq<u8>, n: nat)
    requires Faithful(s, bytes) && n <= |s.queue|
    ensures Faithful(Deliver(s, n), bytes)
  {
    assert s.delivered + s.queue[..n] + s.queue[n..] == s.delivered + s.queue;
  }

  /** Every interleaving of interrupts and reads is faithful to its bytes. */
  lemma {:induction false} KeyboardRuns(ops: seq<Op>)
    ensures Faithful(After(ops), BytesOf(ops))
    decreases |ops|
  {
    hide Faithful, EventOf, Decode, Deliver, TakenByGetChar;
    if ops == [] {
      NothingYet();
    } else {
      var front, op := ops[..|ops| - 1], ops[|ops| - 1];
      KeyboardRuns(front);
      var s := After(front);
      match op
      case Byte(b) => ByteKeepsFaithful(s, BytesOf(front), b);
      case Read => ReadKeepsFaithful(s, BytesOf(front), Min(1, |s.queue|));
      case GetChar => ReadKeepsFaithful(s, BytesOf(front), TakenByGetChar(s.queue));
      assert BytesOf(front) + [] == BytesOf(front);
    }
  }

  lemma NothingYet()
    ensures Faithful(After([]), BytesOf([]))
  {
  }

  /** A run that never meets a full queue loses nothing. */
  lemma NothingLost(ops: seq<Op>)
    requires After(ops).dropped == 0
    ensures After(ops).delivered + After(ops).queue == EventsOf(BytesOf(ops))
  {
    KeyboardRuns(ops);
    FullSubsequence(After(ops).delivered + After(ops).queue, EventsOf(BytesOf(ops)));
  }

  lemma HeldByKey(m: Modifiers, key: KeyCode, pressed: bool)
    ensures var t := UpdateModifiers(m, key, pressed);
            && t.shift == (if key in {LeftShift, RightShift} then pressed else m.shift)
            && t.ctrl == (if key in {LeftCtrl, RightCtrl} then pressed else m.ctrl)
            && t.alt == (if key in {LeftAlt, RightAlt} then pressed else m.alt)
  {
  }

  lemma LocksByKey(m: Modifiers, key: KeyCode, pressed: bool)
    ensures var t := UpdateModifiers(m, key, pressed);
            && t.capsLock == (if key == CapsLock && pressed then !m.capsLock else m.capsLock)
            && t.numLock == (if key == NumLock && pressed then !m.numLock else m.numLock)
  {
  }

  lemma {:induction false} ModifiersAppend(events: seq<KeyEvent>, e: KeyEvent)
    ensures ModifiersOf(events + [e]) == UpdateModifiers(ModifiersOf(events), e.keycode, e.pressed)
  {
    hide Presses, Held, UpdateModifiers;
    HeldByKey(ModifiersOf(events), e.keycode, e.pressed);
    LocksByKey(ModifiersOf(events), e.keycode, e.pressed);
    HeldAppend(events, e, {LeftShift, RightShift});
    HeldAppend(events, e, {LeftCtrl, RightCtrl});
    HeldAppend(events, e, {LeftAlt, RightAlt});
    PressesAppend(events, e, CapsLock);
    PressesAppend(events, e, NumLock);
  }

  lemma {:induction false} HeldAppend(events: seq<KeyEvent>, e: KeyEvent, keys: set<KeyCode>)
    ensures Held(events + [e], keys) == if e.keycode in keys then e.pressed else Held(events, keys)
  {
    assert (events + [e])[..|events|] == events;
  }

  lemma {:induction false} PressesAppend(events: seq<KeyEvent>, e: KeyEvent, key: KeyCode)
    ensures Presses(events + [e], key) == Presses(events, key) + if e.keycode == key && e.pressed then 1 else 0
  {
    assert (events + [e])[..|events|] == events;
  }

  /** After any bytes the modifiers are those the decoded events stand for, and the last event
      carries them. */
  lemma {:induction false} ModifiersFollowEvents(bytes: seq<u8>)
    ensures DecoderAfter(bytes).modifiers == ModifiersOf(EventsOf(bytes))
    ensures forall i | 0 <= i < |EventsOf(bytes)| :: EventsOf(bytes)[i].modifiers == ModifiersOf(EventsOf(bytes)[..i + 1])
    decreases |bytes|
  {
    hide KeycodeOf, UpdateModifiers, ModifiersOf;
    if bytes == [] {
      NoModifiersYet();
    } else {
      var front, b := bytes[..|bytes| - 1], bytes[|bytes| - 1];
      ModifiersFollowEvents(front);
      var events, event := EventsOf(front), EventOf(DecoderAfter(front), b);
      if event.Some? {
        ModifiersAppend(events, event.value);
        var all := events + [event.value];
        assert EventsOf(bytes) == all;
        forall i | 0 <= i < |all| ensures all[i].modifiers == ModifiersOf(all[..i + 1]) {
          if i < |events| { assert all[..i + 1] == events[..i + 1]; } else { assert all[..i + 1] == all; }
        }
      } else {
        assert events + [] == events;
      }
    }
  }

  lemma NoModifiersYet()
    ensures ModifiersOf([]) == NO_MODIFIERS
  {
  }

  // ---------------------------------------------------------------- what a stream of bytes means

  /** A byte that is not the prefix, and whether the prefix stood right before it. */
  datatype Stroke = Stroke(byte: u8, prefixed: bool)

  function StrokesOf(bytes: seq<u8>): seq<Stroke> {
    if bytes == [] then []
    else
      var n := |bytes| - 1;
      StrokesOf(bytes[..n]) + if bytes[n] == 0xE0 then [] else [Stroke(bytes[n], n > 0 && bytes[n - 1] == 0xE0)]
  }

  /** The stroke an event stands for: bit 7 tells a release, and the prefix chooses the table. */
  predicate IsStroke(e: KeyEvent, s: Stroke) {
    && e.scancode == s.byte
    && e.pressed == (s.byte < 0x80)
    && e.keycode == if s.prefixed then ExtendedScancodeToKeycode(s.byte % 0x80) else ScancodeToKeycode(s.byte % 0x80)
  }

  /** Every byte but the prefix makes one event, decoded by the byte before it alone; the extended
      flag says no more than that the last byte was the prefix. */
  lemma {:induction false} EventsFollowStrokes(bytes: seq<u8>)
    ensures DecoderAfter(bytes).extended <==> bytes != [] && bytes[|bytes| - 1] == 0xE0
    ensures |EventsOf(bytes)| == |StrokesOf(bytes)|
    ensures forall i | 0 <= i < |EventsOf(bytes)| :: IsStroke(EventsOf(bytes)[i], StrokesOf(bytes)[i])
    decreases |bytes|
  {
    hide UpdateModifiers, ScancodeToKeycode, ExtendedScancodeToKeycode;
    if bytes != [] { EventsFollowStrokes(bytes[..|bytes| - 1]); }
  }

  /** One step of a session, against the queue limit of the driver: a byte is queued unless it is
      the prefix or 100 events wait, a read delivers the oldest event, and `get_char` delivers up to
      the first press that types something. */
  lemma SessionSteps(s: Session, op: Op)
    requires |s.queue| <= 100
    ensures var t := Act(s, op);
            match op
            case Byte(b) =>
              && t.delivered == s.delivered
              && (b == 0xE0 || |s.queue| == 100 ==> t.queue == s.queue)
              && (b != 0xE0 && |s.queue| < 100 ==> |t.queue| == |s.queue| + 1 && t.queue[..|s.queue|] == s.queue
                                                   && t.queue[|s.queue|].scancode == b)
              && t.dropped == s.dropped + if b != 0xE0 && |s.queue| == 100 then 1 else 0
            case Read =>
              && (s.queue == [] ==> t == s)
              && (s.queue != [] ==> t.queue == s.queue[1..] && t.delivered == s.delivered + [s.queue[0]]
                                    && t.decoder == s.decoder && t.dropped == s.dropped)
            case GetChar =>
              exists n :: && 0 <= n <= |s.queue|
                          && t == s.(queue := s.queue[n..], delivered := s.delivered + s.queue[..n])
                          && (forall i | 0 <= i < n - 1 :: EventChar(s.queue[i]).None?)
                          && (n < |s.queue| ==> n > 0 && EventChar(s.queue[n - 1]).Some? && s.queue[n - 1].pressed)
  {
    hide UpdateModifiers, KeycodeOf, CharOf;
    match op
    case Byte(b) =>
    case Read =>
      if s.queue == [] { assert s.delivered + s.queue[..0] == s.delivered; }
    case GetChar =>
      var n := TakenByGetChar(s.queue);
      assert n < |s.queue| ==> s.queue[n - 1].pressed;
  }

  // ---------------------------------------------------------------- the layout

  /** Only a press types anything, and what it types depends on its key, shift and caps lock. */
  lemma PressesType(e: KeyEvent)
    ensures !e.pressed ==> EventChar(e) == None
    ensures e.pressed ==> EventChar(e) == CharOf(e.keycode, e.modifiers.shift, e.modifiers.capsLock)
  {
  }

  /** A row of keys, by consecutive scancodes. */
  ghost predicate Row(start: nat, keys: seq<KeyCode>) {
    start + |keys| <= 0x80 && forall i: nat | i < |keys| :: ScancodeToKeycode(start + i) == keys[i]
  }

  lemma DigitRow()
    ensures Row(0x02, [Key1, Key2, Key3, Key4, Key5, Key6, Key7, Key8, Key9, Key0, Minus, Equals])
  {
  }

  lemma TopRow()
    ensures Row(0x10, [Q, W, E, R, T, Y, U, I, O, P, LeftBracket, RightBracket, Enter])
  {
  }

  lemma HomeRow()
    ensures Row(0x1E, [A, S, D, F, G, H, J, K, L, Semicolon, Quote, Grave])
  {
  }

  lemma BottomRow()
    ensures Row(0x2B, [Backslash, Z, X, C, V, B, N, M, Comma, Period, Slash])
  {
  }

  /** Letters follow shift and caps lock. */
  lemma LettersType(keys: seq<KeyCode>, i: nat, shift: bool, caps: bool)
    requires i < |keys| == 13
    requires keys == [A, B, C, D, E, F, G, H, I, J, K, L, M] || keys == [N, O, P, Q, R, S, T, U, V, W, X, Y, Z]
    ensures var c := (if keys[0] == A then 'a' else 'n') + i as char;
            CharOf(keys[i], shift, caps) == Some(if shift != caps then c - 32 as char else c)
  {
  }

  /** The digit row follows shift and ignores caps lock. */
  lemma DigitsType(keys: seq<KeyCode>, i: nat, shift: bool, caps: bool)
    requires keys == [Key1, Key2, Key3, Key4, Key5, Key6] && i < 6
    ensures CharOf(keys[i], shift, caps) == Some(if shift then "!@#$%^"[i] else "123456"[i])
  {
  }

  lemma MoreDigitsType(keys: seq<KeyCode>, i: nat, shift: bool, caps: bool)
    requires keys == [Key7, Key8, Key9, Key0, Minus, Equals] && i < 6
    ensures CharOf(keys[i], shift, caps) == Some(if shift then "&*()_+"[i] else "7890-="[i])
  {
  }

  /** So do the symbols beside the letters. */
  lemma BracketsType(keys: seq<KeyCode>, i: nat, shift: bool, caps: bool)
    requires keys == [LeftBracket, RightBracket, Semicolon, Quote, Grave] && i < 5
    ensures CharOf(keys[i], shift, caps) == Some(if shift then "{}:\"~"[i] else "[];'`"[i])
  {
  }

  lemma SlashesType(keys: seq<KeyCode>, i: nat, shift: bool, caps: bool)
    requires keys == [Backslash, Comma, Period, Slash] && i < 4
    ensures CharOf(keys[i], shift, caps) == Some(if shift then "|<>?"[i] else "\\,./"[i])
  {
  }

  /** The scancodes that act on each modifier, alone and after the prefix. */
  lemma ModifierScancodes(code: u8)
    ensures ScancodeToKeycode(code) in {LeftShift, RightShift} <==> code == 0x2A || code == 0x36
    ensures ScancodeToKeycode(code) in {LeftCtrl, RightCtrl} <==> code == 0x1D
    ensures ScancodeToKeycode(code) in {LeftAlt, RightAlt} <==> code == 0x38
    ensures ScancodeToKeycode(code) == CapsLock <==> code == 0x3A
    ensures ScancodeToKeycode(code) == NumLock <==> code == 0x45
    ensures ExtendedScancodeToKeycode(code) !in {LeftShift, RightShift, CapsLock, NumLock}
    ensures ExtendedScancodeToKeycode(code) in {LeftCtrl, RightCtrl} <==> code == 0x1D
    ensures ExtendedScancodeToKeycode(code) in {LeftAlt, RightAlt} <==> code == 0x38
  {
  }
}
