# Keyboard key-state bookkeeping (TestStack.White)

TestStack.White drives Windows applications for UI tests. Its `Keyboard` class
(`src/TestStack.White/InputDevices/Keyboard.cs`) sends key events through `SendInput` and keeps
two lists while doing so:

- `KeysHeld`: every key code this keyboard has pressed and not yet released. `SendKeyDown`
  refuses a code that is already in it and `SendKeyUp` refuses one that is not; both refusals
  throw `InputDeviceException`.
- `heldKeys`: the special keys held through `HoldKey` and not yet released through `LeaveKey`.
  `LeaveAllKeys` releases them all, and `Send` lowercases its text while any is held.

`Send(string)` switches caps lock off. Then, for each character except `'\r'`, it presses the
modifiers the character needs (shift, control, alt), presses the scanned key, and releases the
modifiers in the same order.

The project has four modules:

- `Lists` (`lists.dfy`) holds the `List<T>` operations the class relies on: `Remove` drops the
  first occurrence.
- `KeyboardSpec` (`keyboard_spec.dfy`) has one pure function per member of `Keyboard`. Each one
  maps the keyboard's state (`Keys`: both lists plus every event sent so far) to an `Outcome`.
  `Done` means the call returned normally. `Threw` carries the exception and the state as it
  stood when the exception left the call, because nothing is rolled back. The module also
  defines the invariant `Valid`:
  - `KeysHeld` has no duplicates.
  - `KeysHeld` holds exactly the codes with more downs than ups sent.
  - `heldKeys` has no duplicates.
  - Every held special key is down.
- `KeyboardProps` (`keyboard_props.dfy`) proves what those functions do: when each operation
  throws, the exact events it sends, round-trips, idempotence, and preservation of the
  invariant.
- `InputDevices` (`keyboard.dfy`) has the class `Keyboard`. Its `heldKeys` and `keysHeld` fields
  are updated in place, and a ghost field records the events sent. Every method is proved to
  end in the state, and with the exception, that the matching `KeyboardSpec` function gives.
  The public methods also keep `Valid`.

The operating system stays outside the model; it enters as parameters:

- A `Layout` value gives `VkKeyScan` and the three "modifier needed" queries.
- `lower` stands for `string.ToLower`.
- `capsOn` is the caps-lock state that `GetKeyState` reports.

## Model

| member | source | states |
|---|---|---|
| Lists.RemoveExactly | src/TestStack.White/InputDevices/Keyboard.cs:178 | On a list without duplicates, `List.Remove` takes out exactly the given element; the list stays duplicate-free and is one shorter exactly when the element was there |
| Lists.RemoveAfterPrefix | src/TestStack.White/InputDevices/Keyboard.cs:178 | Removing an element appended after a prefix that lacks it gives back prefix and suffix: the occurrence removed is the appended one |
| KeyboardProps.InitialValid | src/TestStack.White/InputDevices/Keyboard.cs:14-20 | A new keyboard, with both lists empty and nothing sent, satisfies the invariant |
| KeyboardProps.KeyDownOutcome | src/TestStack.White/InputDevices/Keyboard.cs:183-192 | SendKeyDown throws AlreadyPressed exactly when the code is already held, changing nothing; otherwise it appends the code to KeysHeld and sends one key down; KeysHeld keeps matching the pending codes |
| KeyboardProps.KeyUpOutcome | src/TestStack.White/InputDevices/Keyboard.cs:172-181 | SendKeyUp throws NotPressed exactly when the code is not held, changing nothing; otherwise only that code leaves KeysHeld, one key up is sent and heldKeys is untouched; KeysHeld keeps matching the pending codes |
| KeyboardProps.PressRoundTrip | src/TestStack.White/InputDevices/Keyboard.cs:161-165 | Press succeeds exactly when the key is not held; it then leaves KeysHeld as it was and sends just the key's down and up; on a held key it throws before anything changes |
| KeyboardProps.PressBalanced | src/TestStack.White/InputDevices/Keyboard.cs:161-170 | Press (and so Send(SpecialKeys, bool)) keeps KeysHeld equal to the set of pending codes |
| KeyboardProps.AddUsedKeyProps | src/TestStack.White/InputDevices/Keyboard.cs:194-201 | AddUsedKey is idempotent, keeps heldKeys duplicate-free, keeps the earlier entries as a prefix, and adds the key and nothing else |
| KeyboardProps.RemoveUsedKeyProps | src/TestStack.White/InputDevices/Keyboard.cs:203-210 | RemoveUsedKey is idempotent, keeps heldKeys duplicate-free, takes out the key and nothing else, and shortens the list by one exactly when the key was there |
| KeyboardProps.HoldKeyOutcome | src/TestStack.White/InputDevices/Keyboard.cs:98-103 | HoldKey throws exactly when the key is already down, before heldKeys changes; otherwise the key's code joins KeysHeld, the key joins heldKeys and one special-key down is sent; the invariant is kept either way |
| KeyboardProps.LeaveKeyOutcome | src/TestStack.White/InputDevices/Keyboard.cs:116-121 | LeaveKey throws exactly when the key is not down, before heldKeys changes; otherwise exactly that code and that key leave the two lists and one special-key up is sent; the invariant is kept either way |
| KeyboardProps.HoldThenLeave | src/TestStack.White/InputDevices/Keyboard.cs:98-121 | HoldKey of a key that is not down, followed by LeaveKey of it, restores both lists exactly; only its special-key down and up were sent |
| KeyboardProps.LeaveEachSends | src/TestStack.White/InputDevices/Keyboard.cs:158 | Leaving distinct keys whose codes are all down, one after another, succeeds; it sends their ups in order and removes exactly their codes from KeysHeld |
| KeyboardProps.LeaveEachKeepsValid | src/TestStack.White/InputDevices/Keyboard.cs:158 | Leaving keys one after another keeps the invariant, even when one throws; leaving distinct held keys removes exactly those keys from heldKeys |
| KeyboardProps.LeaveEachReleases | src/TestStack.White/InputDevices/Keyboard.cs:156-159 | Under the invariant, leaving distinct held keys in turn succeeds, keeps the invariant, sends their ups in order, and takes exactly those keys and their codes out of the two lists |
| KeyboardProps.LeaveAllKeysReleases | src/TestStack.White/InputDevices/Keyboard.cs:156-159 | Under the invariant, LeaveAllKeys succeeds and empties heldKeys; it sends one special-key up per held key, in the order they were held, and removes exactly their codes from KeysHeld |
| KeyboardProps.StrokesAppend | src/TestStack.White/InputDevices/Keyboard.cs:40-64 | Proof helper about the model's own `Strokes`: the events for a concatenation of modifier codes are the events for each part, in order |
| KeyboardProps.DownChain | src/TestStack.White/InputDevices/Keyboard.cs:40-51 | The three conditional modifier downs succeed exactly when no needed modifier is held; they then append the needed modifiers to KeysHeld and send their downs in shift, control, alt order; heldKeys is never touched and on a throw KeysHeld has only grown |
| KeyboardProps.ModifiersDownOutcome | src/TestStack.White/InputDevices/Keyboard.cs:40-51 | The same facts, stated with the list of modifiers a scanned code needs |
| KeyboardProps.UpChain | src/TestStack.White/InputDevices/Keyboard.cs:53-64 | After the press, the three conditional modifier ups succeed; they remove the modifiers the downs appended, leaving KeysHeld as before the downs, and send the ups in shift, control, alt order |
| KeyboardProps.ModifiersUpOutcome | src/TestStack.White/InputDevices/Keyboard.cs:53-64 | The same facts, stated with the list of modifiers a scanned code needs |
| KeyboardProps.TypeKeyDone | src/TestStack.White/InputDevices/Keyboard.cs:40-64 | A character that can be typed leaves both lists as they were and sends exactly: its modifiers down, the key down and up, its modifiers up |
| KeyboardProps.TypeKeyThrew | src/TestStack.White/InputDevices/Keyboard.cs:40-64 | A character that cannot be typed throws; heldKeys is unchanged and KeysHeld has only grown at its end |
| KeyboardProps.TypeKeyOutcome | src/TestStack.White/InputDevices/Keyboard.cs:40-64 | One character succeeds exactly when none of its key and its needed modifiers is held and the key is not one of those modifiers; success restores both lists and sends exactly the character's events |
| KeyboardProps.TypeKeyLeavesShiftDown | src/TestStack.White/InputDevices/Keyboard.cs:40-52 | A character needing shift and control while control is held throws AlreadyPressed(CONTROL) after shift went down, and shift stays in KeysHeld |
| KeyboardProps.TypeKeyKeepsValid | src/TestStack.White/InputDevices/Keyboard.cs:40-64 | One character keeps the invariant, whether it succeeds or throws |
| KeyboardProps.TextOkCons | src/TestStack.White/InputDevices/Keyboard.cs:38 | Proof helper about the model's own `TextOk`: a text can be typed exactly when its first character can be typed (or is '\r') and the rest can be typed |
| KeyboardProps.TypeTextDone | src/TestStack.White/InputDevices/Keyboard.cs:38-65 | When every character other than '\r' can be typed, the loop leaves both lists as they were and sends the characters' events in order, skipping '\r' |
| KeyboardProps.TypeTextThrew | src/TestStack.White/InputDevices/Keyboard.cs:38-65 | When some character cannot be typed, the loop throws; heldKeys is unchanged and KeysHeld has only grown at its end |
| KeyboardProps.TypeTextOutcome | src/TestStack.White/InputDevices/Keyboard.cs:38-65 | The loop succeeds exactly when every character other than '\r' can be typed against the starting KeysHeld; success restores both lists and sends exactly the text's events |
| KeyboardProps.TypeTextKeepsValid | src/TestStack.White/InputDevices/Keyboard.cs:38-65 | The loop keeps the invariant, whether it completes or throws |
| KeyboardProps.SetCapsLockOutcome | src/TestStack.White/InputDevices/Keyboard.cs:133-139 | The setter presses CAPS as a special key exactly when the reported state differs from the value asked for; that press throws AlreadyPressed(CAPS) exactly when CAPS is already down, changing nothing; otherwise both lists stay as they were and only the CAPS down and up are sent; the invariant is kept |
| KeyboardProps.SendOutcome | src/TestStack.White/InputDevices/Keyboard.cs:33-68 | Send types the text, lowered when a special key is held. It succeeds exactly when caps lock can be switched off and every character can be typed; it then restores both lists and sends the caps-lock press (when on) followed by the text's events; on a throw heldKeys is unchanged and KeysHeld has only grown; the invariant is kept |
| KeyboardProps.SendFailsOnHeldModifier | src/TestStack.White/InputDevices/Keyboard.cs:40-51 | Send throws when a character it types needs a modifier that is already held |
| InputDevices.Keyboard.constructor | src/TestStack.White/InputDevices/Keyboard.cs:14-20 | A new keyboard has both lists empty and nothing sent, and satisfies the invariant |
| InputDevices.Keyboard.SendKeyDown | src/TestStack.White/InputDevices/Keyboard.cs:183-192 | Ends in the state and with the exception that KeyboardSpec.SendKeyDown gives |
| InputDevices.Keyboard.SendKeyUp | src/TestStack.White/InputDevices/Keyboard.cs:172-181 | Ends as KeyboardSpec.SendKeyUp gives, removing the code from the list in place |
| InputDevices.Keyboard.Press | src/TestStack.White/InputDevices/Keyboard.cs:161-165 | Ends as KeyboardSpec.Press gives |
| InputDevices.Keyboard.SendSpecial | src/TestStack.White/InputDevices/Keyboard.cs:167-170 | Ends as KeyboardSpec.SendSpecial gives |
| InputDevices.Keyboard.PressSpecialKey | src/TestStack.White/InputDevices/Keyboard.cs:81-85 | Presses the key as a special key and ends as KeyboardSpec.SendSpecial gives; keeps the invariant |
| InputDevices.Keyboard.AddUsedKey | src/TestStack.White/InputDevices/Keyboard.cs:194-201 | heldKeys becomes KeyboardSpec.AddUsedKey of its old value; KeysHeld and the events sent do not change |
| InputDevices.Keyboard.RemoveUsedKey | src/TestStack.White/InputDevices/Keyboard.cs:203-210 | heldKeys becomes KeyboardSpec.RemoveUsedKey of its old value; KeysHeld and the events sent do not change |
| InputDevices.Keyboard.HoldKey | src/TestStack.White/InputDevices/Keyboard.cs:98-103 | Ends as KeyboardSpec.HoldKey gives; keeps the invariant |
| InputDevices.Keyboard.LeaveKey | src/TestStack.White/InputDevices/Keyboard.cs:116-121 | Ends as KeyboardSpec.LeaveKey gives; keeps the invariant |
| InputDevices.Keyboard.LeaveAllKeys | src/TestStack.White/InputDevices/Keyboard.cs:156-159 | Its loop over a copy of heldKeys ends as KeyboardSpec.LeaveAllKeys gives; under the invariant it does not throw, leaves heldKeys empty and keeps the invariant |
| InputDevices.Keyboard.HeldKeys | src/TestStack.White/InputDevices/Keyboard.cs:145-151 | Returns a new array holding heldKeys in order |
| InputDevices.Keyboard.SetCapsLock | src/TestStack.White/InputDevices/Keyboard.cs:133-139 | Presses CAPS as a special key exactly when the reported state differs from the value asked for; ends as KeyboardSpec.SetCapsLock gives; keeps the invariant |
| InputDevices.Keyboard.TypeKey | src/TestStack.White/InputDevices/Keyboard.cs:40-64 | One pass of Send's loop ends as KeyboardSpec.TypeKey gives for the scanned code's needs |
| InputDevices.Keyboard.Send | src/TestStack.White/InputDevices/Keyboard.cs:33-68 | Its loop over the characters ends as KeyboardSpec.Send gives; keeps the invariant |

## Left out

- BareMetalKeyboard's native calls are not modelled. `SendInput`, `GetInputFor` and
  `GetSpecialKeyCode` become the ghost event record: each event keeps its code, its
  direction, and the special flag that selects the extended-key flags. `VkKeyScan` and the
  three "modifier needed" queries come in as a `Layout` parameter.
- The CapsLockOn getter (Keyboard.cs:126-132) reads `GetKeyState`; its answer is the `capsOn`
  parameter of `SetCapsLock` and `Send`.
- `string.ToLower` and its culture rules are the opaque parameter `lower`.
- IActionListener is not modelled. That covers the listener overloads of `Enter`, `HoldKey`,
  `LeaveKey` and `PressSpecialKey` (Keyboard.cs:25-28, 73-76, 90-93, 108-111), which only add
  a listener call. It also covers the closing `ActionPerformed` calls and the `ActionPerformed`
  method (Keyboard.cs:216-219).
- Exception messages are not modelled; an exception is modelled as its kind and the code.
- The values of the `KeyboardInput.SpecialKeys` enum come from a file that is not part of this
  model. The Win32 virtual-key codes are used instead (SHIFT 0x10, CONTROL 0x11, ALT 0x12,
  CAPS 0x14). All special keys are taken to be below 0x100, so the `(short)` casts keep
  their value.
- Key codes are unbounded integers; the `short` range of `VkKeyScan`'s result is not modelled.
- `Send` asks each "modifier needed" query twice per character, once before the press and
  once after; the model asks once, taking the queries to depend on the code alone.
- TypeText and Send model the text as a Dafny `string`, a sequence of Unicode scalar values.
  The C# `foreach` walks UTF-16 code units, and `VkKeyScan` takes one code unit. So a
  character outside the Basic Multilingual Plane gets one pass of the loop in the model but
  two in the source, one per surrogate half. A lone surrogate cannot be represented.
- Send does not model a null `keysToType`. In the source it throws from `ToLower` at
  Keyboard.cs:35 when a special key is held. Otherwise it throws at Keyboard.cs:38, after the
  caps-lock press has already been sent.

## Behaviour of note

- When a modifier down or the key press throws in the middle of `Send`, the modifiers already
  pressed stay in `KeysHeld`, because the code has no `finally`. No key up is ever sent for
  them, so the operating system's modifier key also stays pressed. A later `SendKeyDown` of
  that modifier throws until something sends its up. `KeyboardProps.TypeKeyLeavesShiftDown`
  states this case: shift stays down after `AlreadyPressed(CONTROL)`. The model keeps this
  behaviour rather than correcting it.
