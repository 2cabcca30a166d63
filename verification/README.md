# Segmented OTP entry control — Dafny model

The control shows six one-character input boxes that together hold a numeric
one-time passcode. Its state is the code buffer: six strings, one per box,
initially all empty. Two event handlers rewrite it:

- the value-change handler (`handleChange`) gets the value the box holds after
  the keystroke. It accepts the value only when it is exactly one decimal digit.
  An accepted value goes into that box, and focus moves to the next box unless
  the box is the last one;
- the key-down handler (`handleKeyDown`) gets the key name. It never writes a
  digit. Backspace on an empty box other than the first clears the previous box
  and moves focus back to it. Any key on a filled box clears that box and keeps
  focus on it.

The model drops React and the DOM. `setOtp` becomes the buffer a handler
returns. `.focus()` becomes a focus command, `Some(k)` or `None`. Each handler
is a pure function from the committed buffer, the box index and the event
payload to a `Step`: the next buffer plus the focus command.

- `wrappers.dfy` — `Option`, the type of the focus command.
- `otp_entry.dfy` (module `OtpEntry`) — the buffer, the value check, the mount
  step and the two handlers.
- `otp_session.dfy` (module `OtpSession`) — a mounted control driven by any
  sequence of handler calls. It proves the buffer invariant, where slot contents
  come from, and what typing and backspacing do from mount.

A box counts as filled when its string is truthy in JavaScript, so any
non-empty string is filled, including `"0"`.

The second branch of `handleKeyDown` (App.js:30-34) fires for any key on a
filled box, not only for Backspace, although the program's own notes describe
the key-down handler as Backspace navigation (App.js:78, App.js:144). The model
follows the code: `HandleKeyDown` clears a filled box whatever the key.

A keystroke runs the key-down handler and then the change handler on the same
box (`KeyStroke`). The typing lemmas (`TypeDigit`, `TypedPrefixStep`,
`TypingFillsPrefix`, `TypingFillsCode`) apply only the change event of each
keystroke. `DigitKeyStrokeIsChange` proves that for a digit the key-down half
changes nothing, on any box: an empty box is left alone, and a filled box is
cleared and keeps focus before the change event overwrites it. The typing
lemmas therefore describe whole keystrokes as well.

## Model

| member | source | states |
|---|---|---|
| OtpEntry.Mount | basic_otp_page/otp_page/src/App.js:4-11 | the initial buffer has six slots, all empty and well formed, and the mount issues one focus command, to slot 0 |
| OtpSession.Start | basic_otp_page/otp_page/src/App.js:4-11 | the session after mount satisfies the invariant, has no filled slot and has focus on slot 0 |
| OtpEntry.DigitValueIsDigitString | basic_otp_page/otp_page/src/App.js:15 | the value check accepts a string exactly when it is one of the ten one-digit strings "0".."9", so it rejects the empty string, longer strings and non-digits |
| OtpEntry.Replace | basic_otp_page/otp_page/src/App.js:16-18 | the copied buffer keeps its length, holds the new value at the index, equals the old buffer at every other index, and its filled-slot count changes by exactly the filled status of the old and new values |
| OtpEntry.HandleChange | basic_otp_page/otp_page/src/App.js:13-23 | an accepted value lands in the given slot, overwriting any old digit, and every other slot is unchanged. A rejected value leaves the buffer unchanged and issues no focus command. A focus command is issued exactly when the value is accepted below the last slot, and it targets the next slot. Well-formed buffers stay well formed, and the filled count grows by one exactly when an empty slot receives a digit |
| OtpEntry.HandleKeyDown | basic_otp_page/otp_page/src/App.js:24-36 | every slot keeps its value or becomes empty. Backspace on an empty slot i > 0 clears slot i-1 and focuses i-1, with every other slot unchanged. Any key on a filled slot clears it and re-focuses it, with every other slot unchanged. Backspace on empty slot 0, or another key on an empty slot, leaves buffer and focus untouched. Focus targets stay in range, well-formedness is kept, and the filled count never grows (it drops by one whenever the buffer changes) |
| OtpEntry.ReplaceFilledCount | basic_otp_page/otp_page/src/App.js:16-18 | replacing one slot changes the number of filled slots by the filled status of the new value minus that of the old one |
| OtpSession.Apply | basic_otp_page/otp_page/src/App.js:13-36 | committing either handler's result keeps the six-slot length and keeps the invariant: well-formed slots, focus on a slot |
| OtpSession.RunPreservesInvariant | basic_otp_page/otp_page/src/App.js:13-36 | after any sequence of in-range handler calls from a state that satisfies the invariant, every slot is still empty or a single digit, and focus is still on a slot |
| OtpSession.ReachableInvariant | basic_otp_page/otp_page/src/App.js:4-36 | every state reachable from mount has six slots, each empty or a single digit, and focus on a slot |
| OtpSession.SlotProvenance | basic_otp_page/otp_page/src/App.js:13-36 | after any sequence of handler calls, each slot is empty, or holds its original content, or holds the value of some change event on that same slot. Key-down events never write anything but the empty string |
| OtpSession.KeyDownsNeverFill | basic_otp_page/otp_page/src/App.js:24-36 | a sequence of key-down events alone never increases the number of filled slots |
| OtpSession.TypeDigit | basic_otp_page/otp_page/src/App.js:13-23 | typing a digit into the focused slot writes it there and moves focus to the next slot, except at the last slot, where focus stays |
| OtpSession.TypedPrefixStep | basic_otp_page/otp_page/src/App.js:13-23 | if typing the first m digits of a code put them in slots 0..m-1, with the rest empty and focus on slot m, then typing digit m extends that prefix by one slot and moves focus along |
| OtpSession.TypingFillsPrefix | basic_otp_page/otp_page/src/App.js:13-23 | from any session whose slots are all empty and whose focus is on slot 0, as after mount, typing the first m digits of a code fills slots 0..m-1 with them, leaves the rest empty, and leaves focus on slot m (slot 5 once all six are typed) |
| OtpSession.TypingFillsCode | basic_otp_page/otp_page/src/App.js:9-23 | from mount, typing a six-digit code fills every slot with its digit and leaves focus on the last slot |
| OtpSession.BackspaceWalkThrough | basic_otp_page/otp_page/src/App.js:13-36 | from mount: type 1, then type 2, then press Backspace three times at the focused slot. The buffer goes through ["1"], ["1","2"], ["1"] and [] (unlisted slots empty), and focus goes through 1, 2, 1 and 0. The last Backspace, on empty slot 0, changes nothing |
| OtpSession.DigitKeyStrokeIsChange | basic_otp_page/otp_page/src/App.js:13-36 | for every session and digit, the whole keystroke on the focused slot (key-down, then change) ends in the same buffer and focus as the change event alone |
| OtpSession.PrefixBuffer | basic_otp_page/otp_page/src/App.js:16-17 | writing the first m characters of a code into an all-empty buffer one slot at a time leaves character j in slot j for every typed j and leaves the other slots empty |
| OtpSession.OverwriteWalkThrough | basic_otp_page/otp_page/src/App.js:13-36 | the keystroke 5 on slot 3 holding 9: its key-down clears slot 3 and keeps focus there (the any-key branch), then its change event writes 5 and moves focus to slot 4 |

## Left out

- React plumbing is not modelled: `useState`, `useRef`, `useEffect`, the rendered boxes, class names and the stylesheet import. `setOtp` is the returned buffer. `.focus()` on a ref is the emitted focus command.
- Event ordering in general is not modelled: stale `otp` closures, and which box receives the change event after a key-down has moved focus. `Run` treats each handler call as an independent transition on the committed buffer, with its index in range (`index < 6`). `KeyStroke` fixes only the key-down-then-change order on the focused box. An out-of-range index cannot come from the rendered boxes.
- The `maxLength={1}` limit is host behaviour and is not modelled. The change handler's own check rejects longer values anyway.
- The focus the user moves by clicking or tabbing is not modelled. `Session.focused` is the slot named by the control's most recent focus command.
- The Verify button has no behaviour and is not modelled.
- The commented-out earlier implementation and the notes after the component are dead code and are not modelled.
- JavaScript strings are UTF-16 and Dafny strings are sequences of Unicode characters. They differ in length only for characters outside the Basic Multilingual Plane. The value check rejects every such character in both models, so the difference is not modelled.
