/**
  The segmented one-time-passcode entry control: a buffer of six one-character
  slots, and the two event handlers that rewrite it. Each handler is a pure
  transition from the current buffer to the next buffer plus the focus command
  it issues (`Some(k)`: move input focus to slot k; `None`: no command).
 */
module OtpEntry {
  import opened Wrappers

  /** Number of boxes in the control. */
  const SlotCount: nat := 6

  /** The key name the keyboard event carries for the backspace key. */
  const Backspace: string := "Backspace"

  /** The ten strings the value check accepts. */
  const DigitStrings: set<string> := {"0", "1", "2", "3", "4", "5", "6", "7", "8", "9"}

  /** The code buffer: one string per slot. */
  type Buffer = seq<string>

  /** What a handler produces: the committed buffer and the focus command. */
  datatype Step = Step(buffer: Buffer, focus: Option<nat>)

  predicate IsDigitChar(c: char) {
    '0' <= c <= '9'
  }

  /** The value check of the change handler: the whole value is one decimal digit. */
  predicate IsDigitValue(value: string) {
    |value| == 1 && IsDigitChar(value[0])
  }

  /** A slot is filled when its string is truthy, that is, non-empty ("0" is filled). */
  predicate IsFilled(slot: string) {
    slot != ""
  }

  predicate WellFormedSlot(slot: string) {
    slot == "" || IsDigitValue(slot)
  }

  /** The buffer invariant: six slots, each empty or a single digit. */
  predicate WellFormed(b: Buffer) {
    |b| == SlotCount && forall j :: 0 <= j < |b| ==> WellFormedSlot(b[j])
  }

  /** Number of filled slots. */
  function FilledCount(b: Buffer): (r: nat)
    ensures r <= |b|
    ensures r == 0 <==> forall j :: 0 <= j < |b| ==> !IsFilled(b[j])
    ensures r == |b| <==> forall j :: 0 <= j < |b| ==> IsFilled(b[j])
  {
    if |b| == 0 then 0
    else (if IsFilled(b[0]) then 1 else 0) + FilledCount(b[1..])
  }

  /** Copy-on-write update of one slot: the copy differs from `b` at slot `i` only. */
  function Replace(b: Buffer, i: nat, v: string): (r: Buffer)
    requires i < |b|
    ensures |r| == |b|
    ensures r[i] == v
    ensures forall j :: 0 <= j < |b| && j != i ==> r[j] == b[j]
    ensures FilledCount(r) == FilledCount(b) - (if IsFilled(b[i]) then 1 else 0) + (if IsFilled(v) then 1 else 0)
  {
    ReplaceFilledCount(b, i, v);
    b[i := v]
  }

  lemma {:induction false} ReplaceFilledCount(b: Buffer, i: nat, v: string)
    requires i < |b|
    ensures FilledCount(b[i := v]) == FilledCount(b) - (if IsFilled(b[i]) then 1 else 0) + (if IsFilled(v) then 1 else 0)
  {
    if i == 0 {
      assert b[i := v][1..] == b[1..];
    } else {
      assert b[i := v][1..] == b[1..][i - 1 := v];
      ReplaceFilledCount(b[1..], i - 1, v);
    }
  }

  /** The value check agrees with membership in the ten one-digit strings. */
  lemma DigitValueIsDigitString(value: string)
    ensures IsDigitValue(value) <==> value in DigitStrings
  {
    if IsDigitValue(value) {
      assert value == [value[0]];
      var c := value[0];
      assert c == '0' || c == '1' || c == '2' || c == '3' || c == '4'
          || c == '5' || c == '6' || c == '7' || c == '8' || c == '9';
    }
  }

  /** The mount: an all-empty buffer and the one-time focus command to slot 0. */
  function Mount(): (r: Step)
    ensures WellFormed(r.buffer)
    ensures FilledCount(r.buffer) == 0
    ensures r.focus == Some(0)
  {
    Step(["", "", "", "", "", ""], Some(0))
  }

  /**
    The value-change handler for slot `index`, with `value` the text the
    element holds after the keystroke.
   */
  function HandleChange(otp: Buffer, index: nat, value: string): (r: Step)
    requires |otp| == SlotCount && index < SlotCount
    ensures |r.buffer| == |otp|
    // an accepted value lands in slot `index` (overwriting whatever was there) and nowhere else
    ensures IsDigitValue(value) ==> r.buffer[index] == value
    ensures forall j :: 0 <= j < |otp| && j != index ==> r.buffer[j] == otp[j]
    // anything else is ignored: no state change, no focus command
    ensures !IsDigitValue(value) ==> r.buffer == otp && r.focus == None
    // focus advances to the next slot, except from the last one
    ensures r.focus.Some? <==> IsDigitValue(value) && index < SlotCount - 1
    ensures r.focus.Some? ==> r.focus.value == index + 1 && r.focus.value < SlotCount
    ensures WellFormed(otp) ==> WellFormed(r.buffer)
    ensures FilledCount(r.buffer) == FilledCount(otp) + (if IsDigitValue(value) && !IsFilled(otp[index]) then 1 else 0)
  {
    if IsDigitValue(value) then
      var next := Replace(otp, index, value);
      if index < SlotCount - 1 then Step(next, Some(index + 1)) else Step(next, None)
    else
      Step(otp, None)
  }

  /**
    The key-down handler for slot `index`, with `key` the key name. It reads
    only the committed buffer and only ever writes the empty string.
   */
  function HandleKeyDown(otp: Buffer, index: nat, key: string): (r: Step)
    requires |otp| == SlotCount && index < SlotCount
    ensures |r.buffer| == |otp|
    // every slot keeps its value or is cleared
    ensures forall j :: 0 <= j < |otp| ==> r.buffer[j] == otp[j] || r.buffer[j] == ""
    // backspace on an empty slot after the first: clear the previous slot and step back to it
    ensures key == Backspace && index > 0 && !IsFilled(otp[index]) ==>
              && r.buffer[index - 1] == ""
              && r.focus == Some(index - 1)
              && forall j :: 0 <= j < |otp| && j != index - 1 ==> r.buffer[j] == otp[j]
    // any key on a filled slot: clear it in place and re-focus it
    ensures IsFilled(otp[index]) ==>
              && r.buffer[index] == ""
              && r.focus == Some(index)
              && forall j :: 0 <= j < |otp| && j != index ==> r.buffer[j] == otp[j]
    // backspace on empty slot 0, or another key on an empty slot: nothing happens
    ensures !IsFilled(otp[index]) && (key != Backspace || index == 0) ==> r == Step(otp, None)
    ensures r.focus.Some? ==> r.focus.value < SlotCount
    ensures WellFormed(otp) ==> WellFormed(r.buffer)
    ensures FilledCount(r.buffer) <= FilledCount(otp)
    ensures r.buffer != otp ==> FilledCount(r.buffer) == FilledCount(otp) - 1
  {
    if key == Backspace && index > 0 && !IsFilled(otp[index]) then
      Step(Replace(otp, index - 1, ""), Some(index - 1))
    else if IsFilled(otp[index]) then
      Step(Replace(otp, index, ""), Some(index))
    else
      Step(otp, None)
  }
}
