/**
  A mounted control driven by an arbitrary sequence of handler calls. The
  session keeps the committed buffer and the slot that focus was last moved
  to by the control's own focus commands.
 */
module OtpSession {
  import opened Wrappers
  import opened OtpEntry

  /** One handler call: a value change or a key-down, on the slot it was dispatched to. */
  datatype Event =
    | Change(index: nat, value: string)
    | KeyDown(index: nat, key: string)

  datatype Session = Session(buffer: Buffer, focused: nat)

  predicate InRange(e: Event) {
    e.index < SlotCount
  }

  predicate AllInRange(events: seq<Event>) {
    forall k :: 0 <= k < |events| ==> InRange(events[k])
  }

  /** Six slots and focus on one of them: what the handlers need to be called. */
  predicate Shape(s: Session) {
    |s.buffer| == SlotCount && s.focused < SlotCount
  }

  /** What every reachable session satisfies. */
  predicate Invariant(s: Session) {
    WellFormed(s.buffer) && s.focused < SlotCount
  }

  /** The session right after mount: all slots empty, focus on slot 0. */
  function Start(): (s: Session)
    ensures Invariant(s)
    ensures FilledCount(s.buffer) == 0 && s.focused == 0
  {
    var m := Mount();
    Session(m.buffer, m.focus.GetOr(0))
  }

  /** The buffer commit and the focus move that follow one handler call. */
  function Commit(s: Session, step: Step): Session {
    Session(step.buffer, step.focus.GetOr(s.focused))
  }

  function Apply(s: Session, e: Event): (t: Session)
    requires |s.buffer| == SlotCount && InRange(e)
    ensures |t.buffer| == SlotCount
    ensures s.focused < SlotCount ==> t.focused < SlotCount
    ensures Invariant(s) ==> Invariant(t)
  {
    match e
    case Change(i, v) => Commit(s, HandleChange(s.buffer, i, v))
    case KeyDown(i, k) => Commit(s, HandleKeyDown(s.buffer, i, k))
  }

  /** The session after handling `events` in order. */
  function Run(s: Session, events: seq<Event>): (t: Session)
    requires |s.buffer| == SlotCount && AllInRange(events)
    ensures |t.buffer| == SlotCount
    decreases |events|
  {
    if |events| == 0 then s else Run(Apply(s, events[0]), events[1..])
  }

  /** Every handler sequence keeps the invariant. */
  lemma {:induction false} RunPreservesInvariant(s: Session, events: seq<Event>)
    requires Invariant(s) && AllInRange(events)
    ensures Invariant(Run(s, events))
    decreases |events|
  {
    if |events| > 0 {
      RunPreservesInvariant(Apply(s, events[0]), events[1..]);
    }
  }

  /** From mount on, every slot is empty or a single digit and focus is on a slot. */
  lemma ReachableInvariant(events: seq<Event>)
    requires AllInRange(events)
    ensures Invariant(Run(Start(), events))
  {
    RunPreservesInvariant(Start(), events);
  }

  predicate WrittenBy(events: seq<Event>, j: nat, v: string) {
    exists k :: 0 <= k < |events| && events[k] == Change(j, v)
  }

  /**
    Where a slot's content comes from: it was there at the start, or it is
    empty, or it is the value of a change event on that very slot. Key-down
    events never put anything but the empty string in a slot.
   */
  lemma {:induction false} SlotProvenance(s: Session, events: seq<Event>, j: nat)
    requires |s.buffer| == SlotCount && AllInRange(events) && j < SlotCount
    ensures var v := Run(s, events).buffer[j];
            v == "" || v == s.buffer[j] || WrittenBy(events, j, v)
    decreases |events|
  {
    if |events| > 0 {
      var s1 := Apply(s, events[0]);
      var v := Run(s, events).buffer[j];
      SlotProvenance(s1, events[1..], j);
      if WrittenBy(events[1..], j, v) {
        var k :| 0 <= k < |events[1..]| && events[1..][k] == Change(j, v);
        assert events[k + 1] == Change(j, v);
      } else if v == s1.buffer[j] && v != "" && v != s.buffer[j] {
        assert events[0] == Change(j, v);
      }
    }
  }

  /** Key-down events alone never fill a slot. */
  lemma {:induction false} KeyDownsNeverFill(s: Session, events: seq<Event>)
    requires |s.buffer| == SlotCount && AllInRange(events)
    requires forall k :: 0 <= k < |events| ==> events[k].KeyDown?
    ensures FilledCount(Run(s, events).buffer) <= FilledCount(s.buffer)
    decreases |events|
  {
    if |events| > 0 {
      KeyDownsNeverFill(Apply(s, events[0]), events[1..]);
    }
  }

  /**
    The change event of a keystroke that types `c`, dispatched to the slot
    that holds focus. The key-down event that precedes it in the same
    keystroke is not part of this function.
   */
  function TypeChar(s: Session, c: char): Session
    requires Shape(s)
  {
    Apply(s, Change(s.focused, [c]))
  }

  /**
    A whole keystroke that types `c` on the focused slot: the key-down event
    with key name `c`, then the change event carrying `c`, both on that slot.
   */
  function KeyStroke(s: Session, c: char): Session
    requires Shape(s)
  {
    var afterKeyDown := Apply(s, KeyDown(s.focused, [c]));
    Apply(afterKeyDown, Change(s.focused, [c]))
  }

  /**
    For a digit, the key-down half of a keystroke makes no difference: on an
    empty slot it does nothing, and on a filled slot it clears the slot that
    the change event then overwrites, keeping focus where it was.
   */
  lemma DigitKeyStrokeIsChange(s: Session, c: char)
    requires Shape(s) && IsDigitChar(c)
    ensures KeyStroke(s, c) == TypeChar(s, c)
  {
  }

  /** The user types the first `m` characters of `code`, one at a time, starting from `s`. */
  function TypePrefix(s: Session, code: string, m: nat): (t: Session)
    requires Shape(s) && m <= |code|
    ensures Shape(t)
    ensures Invariant(s) ==> Invariant(t)
  {
    if m == 0 then s else TypeChar(TypePrefix(s, code, m - 1), code[m - 1])
  }

  /** The user types all of `code`, starting from `s`. */
  function TypeAll(s: Session, code: string): (t: Session)
    requires Invariant(s)
    ensures Invariant(t)
  {
    TypePrefix(s, code, |code|)
  }

  /** Typing one digit writes it into the focused slot and moves focus on, except from the last slot. */
  lemma TypeDigit(s: Session, c: char)
    requires Shape(s) && IsDigitChar(c)
    ensures var t := TypeChar(s, c);
            && t.buffer == s.buffer[s.focused := [c]]
            && t.focused == (if s.focused < SlotCount - 1 then s.focused + 1 else s.focused)
  {
  }

  /**
    The buffer after typing the first `m` characters of `code` from an
    all-empty buffer, built one replaced slot at a time. Its contract gives
    the closed form: slot j holds character j when it was typed, else "".
   */
  function PrefixBuffer(code: string, m: nat): (b: Buffer)
    ensures |b| == SlotCount
    ensures forall j :: 0 <= j < SlotCount ==> b[j] == (if j < m && j < |code| then [code[j]] else "")
  {
    if m == 0 then ["", "", "", "", "", ""]
    else
      var prev := PrefixBuffer(code, m - 1);
      if m - 1 < SlotCount && m - 1 < |code| then Replace(prev, m - 1, [code[m - 1]]) else prev
  }

  /** A typed prefix of a digit string is a well-formed buffer. */
  lemma PrefixBufferWellFormed(code: string, m: nat)
    requires forall k :: 0 <= k < |code| ==> IsDigitChar(code[k])
    ensures WellFormed(PrefixBuffer(code, m))
  {
  }

  /** Slots 0..m-1 hold the first m characters of `code`, the rest are empty, and focus is on slot m (slot 5 at the end). */
  predicate TypedPrefix(t: Session, code: string, m: nat) {
    && m <= |code|
    && t.buffer == PrefixBuffer(code, m)
    && t.focused == (if m < SlotCount then m else SlotCount - 1)
  }

  /** One more typed digit extends the typed prefix by one slot. */
  lemma TypedPrefixStep(s: Session, code: string, m: nat)
    requires Shape(s) && m < |code| <= SlotCount && IsDigitChar(code[m])
    requires TypedPrefix(TypePrefix(s, code, m), code, m)
    ensures TypedPrefix(TypePrefix(s, code, m + 1), code, m + 1)
  {
    TypeDigit(TypePrefix(s, code, m), code[m]);
  }

  /**
    Typing the first `m` digits of a code into a session whose slots are all
    empty, with focus on slot 0, leaves them in slots 0..m-1.
   */
  lemma {:induction false} TypingFillsPrefix(s: Session, code: string, m: nat)
    requires TypedPrefix(s, code, 0)
    requires m <= |code| <= SlotCount
    requires forall k :: 0 <= k < |code| ==> IsDigitChar(code[k])
    ensures TypedPrefix(TypePrefix(s, code, m), code, m)
  {
    if m > 0 {
      TypingFillsPrefix(s, code, m - 1);
      TypedPrefixStep(s, code, m - 1);
    }
  }

  /** Typing a six-digit code from mount leaves exactly that code in the buffer. */
  lemma TypingFillsCode(code: string)
    requires |code| == SlotCount
    requires forall k :: 0 <= k < |code| ==> IsDigitChar(code[k])
    ensures var t := TypeAll(Start(), code);
            && FilledCount(t.buffer) == SlotCount
            && (forall j :: 0 <= j < SlotCount ==> t.buffer[j] == [code[j]])
            && t.focused == SlotCount - 1
  {
    var s := Start();
    assert TypedPrefix(s, code, 0);
    TypingFillsPrefix(s, code, SlotCount);
  }

  /** The buffers the walk-through below passes through. */
  const Empty: Buffer := ["", "", "", "", "", ""]
  const Typed1: Buffer := ["1", "", "", "", "", ""]
  const Typed12: Buffer := ["1", "2", "", "", "", ""]

  lemma WalkThroughType1()
    ensures Apply(Session(Empty, 0), Change(0, "1")) == Session(Typed1, 1)
  {
  }

  lemma WalkThroughType2()
    ensures Apply(Session(Typed1, 1), Change(1, "2")) == Session(Typed12, 2)
  {
  }

  lemma WalkThroughBack2()
    ensures Apply(Session(Typed12, 2), KeyDown(2, Backspace)) == Session(Typed1, 1)
  {
  }

  lemma WalkThroughBack1()
    ensures Apply(Session(Typed1, 1), KeyDown(1, Backspace)) == Session(Empty, 0)
  {
  }

  lemma WalkThroughBack0()
    ensures Apply(Session(Empty, 0), KeyDown(0, Backspace)) == Session(Empty, 0)
  {
  }

  /**
    A walk-through: type 1 and 2, then three backspaces at the
    focused slot; the second backspace on an empty slot reaches slot 0, and
    the third is a no-op there.
   */
  lemma BackspaceWalkThrough()
    ensures var s0 := Start();
            var s1 := Apply(s0, Change(0, "1"));
            var s2 := Apply(s1, Change(1, "2"));
            var s3 := Apply(s2, KeyDown(2, Backspace));
            var s4 := Apply(s3, KeyDown(1, Backspace));
            var s5 := Apply(s4, KeyDown(0, Backspace));
            && s1 == Session(Typed1, 1)
            && s2 == Session(Typed12, 2)
            && s3 == Session(Typed1, 1)
            && s4 == Session(Empty, 0)
            && s5 == s4
  {
    assert Start() == Session(Empty, 0);
    WalkThroughType1();
    WalkThroughType2();
    WalkThroughBack2();
    WalkThroughBack1();
    WalkThroughBack0();
  }

  /**
    Overwrite: the keystroke 5 on slot 3 holding 9. Its key-down clears the
    slot (any key on a filled slot does), then its change event writes 5 and
    advances focus.
   */
  lemma OverwriteWalkThrough(b: Buffer)
    requires WellFormed(b) && b[3] == "9"
    ensures Apply(Session(b, 3), KeyDown(3, "5")) == Session(b[3 := ""], 3)
    ensures var t := KeyStroke(Session(b, 3), '5');
            && t.buffer == b[3 := "5"]
            && t.focused == 4
  {
  }
}
