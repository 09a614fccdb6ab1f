/** The key-state bookkeeping of TestStack.White's Keyboard, as pure functions on a value of its
    state. Each function follows one member of Keyboard.cs; the class in module InputDevices runs
    the same steps in place and is proved to end where these functions say. */
module KeyboardSpec {
  import opened Lists

  /** A key code as held in KeysHeld (a .NET int; the values come from short casts). */
  type KeyCode = int

  /** KeyboardInput.SpecialKeys: Windows virtual-key codes, all below 0x100, so the (short)
      cast Keyboard.cs applies before sending one keeps its value. */
  newtype SpecialKey = k: int | 0 <= k < 0x100

  const SHIFT: SpecialKey := 0x10    // VK_SHIFT
  const CONTROL: SpecialKey := 0x11  // VK_CONTROL
  const ALT: SpecialKey := 0x12      // VK_MENU
  const CAPS: SpecialKey := 0x14     // VK_CAPITAL

  datatype Stroke = Down | Up

  /** One keyboard input handed to SendInput: the code, down or up, and whether it was sent
      as a special key (which selects the flags GetSpecialKeyCode adds). */
  datatype KeyEvent = KeyEvent(code: KeyCode, stroke: Stroke, special: bool)

  /** The InputDeviceException the two guards throw. */
  datatype KeyError = AlreadyPressed(code: KeyCode) | NotPressed(code: KeyCode)

  /** The keyboard's state: KeysHeld, heldKeys, and every event sent so far, oldest first. */
  datatype Keys = Keys(keysHeld: seq<KeyCode>, heldKeys: seq<SpecialKey>, sent: seq<KeyEvent>)

  /** How a call ends. An exception does not undo what ran before it, so Threw carries the
      state as it was when the exception left the call. */
  datatype Outcome = Done(keys: Keys) | Threw(keys: Keys, error: KeyError)

  /** The operating system's answers about a character: VkKeyScan, and ShiftKeyIsNeeded,
      CtrlKeyIsNeeded and AltKeyIsNeeded of the scanned code. */
  datatype Layout = Layout(
    vkKeyScan: char -> KeyCode,
    shiftNeeded: KeyCode -> bool,
    ctrlNeeded: KeyCode -> bool,
    altNeeded: KeyCode -> bool)

  /** SendKeyDown (Keyboard.cs:183-192). */
  function SendKeyDown(s: Keys, b: KeyCode, special: bool): Outcome {
    if b in s.keysHeld then Threw(s, AlreadyPressed(b))
    else Done(s.(keysHeld := s.keysHeld + [b], sent := s.sent + [KeyEvent(b, Down, special)]))
  }

  /** SendKeyUp (Keyboard.cs:172-181). */
  function SendKeyUp(s: Keys, b: KeyCode, special: bool): Outcome {
    if b !in s.keysHeld then Threw(s, NotPressed(b))
    else Done(s.(keysHeld := Remove(s.keysHeld, b), sent := s.sent + [KeyEvent(b, Up, special)]))
  }

  /** Press (Keyboard.cs:161-165): key down, then key up. */
  function Press(s: Keys, key: KeyCode, special: bool): Outcome {
    match SendKeyDown(s, key, special)
    case Threw(t, e) => Threw(t, e)
    case Done(t) => SendKeyUp(t, key, special)
  }

  /** Send(SpecialKeys, bool) (Keyboard.cs:167-170), which PressSpecialKey (Keyboard.cs:81-85) calls. */
  function SendSpecial(s: Keys, key: SpecialKey, special: bool): Outcome {
    Press(s, key as int, special)
  }

  /** AddUsedKey (Keyboard.cs:194-201). */
  function AddUsedKey(held: seq<SpecialKey>, key: SpecialKey): seq<SpecialKey> {
    if key in held then held else held + [key]
  }

  /** RemoveUsedKey (Keyboard.cs:203-210). */
  function RemoveUsedKey(held: seq<SpecialKey>, key: SpecialKey): seq<SpecialKey> {
    if key !in held then held else Remove(held, key)
  }

  /** HoldKey (Keyboard.cs:98-103): a special-key down, then the key is recorded as held. */
  function HoldKey(s: Keys, key: SpecialKey): Outcome {
    match SendKeyDown(s, key as int, true)
    case Threw(t, e) => Threw(t, e)
    case Done(t) => Done(t.(heldKeys := AddUsedKey(t.heldKeys, key)))
  }

  /** LeaveKey (Keyboard.cs:116-121): a special-key up, then the key is no longer recorded. */
  function LeaveKey(s: Keys, key: SpecialKey): Outcome {
    match SendKeyUp(s, key as int, true)
    case Threw(t, e) => Threw(t, e)
    case Done(t) => Done(t.(heldKeys := RemoveUsedKey(t.heldKeys, key)))
  }

  /** LeaveKey applied to each of keys in turn; the first exception ends the run (List.ForEach). */
  function LeaveEach(s: Keys, keys: seq<SpecialKey>): Outcome
    decreases keys
  {
    if keys == [] then Done(s)
    else match LeaveKey(s, keys[0])
      case Threw(t, e) => Threw(t, e)
      case Done(t) => LeaveEach(t, keys[1..])
  }

  /** LeaveAllKeys (Keyboard.cs:156-159): LeaveKey over a snapshot of heldKeys. */
  function LeaveAllKeys(s: Keys): Outcome {
    LeaveEach(s, s.heldKeys)
  }

  /** The CapsLockOn setter (Keyboard.cs:133-139); capsOn is what GetKeyState reports. */
  function SetCapsLock(s: Keys, value: bool, capsOn: bool): Outcome {
    if capsOn != value then SendSpecial(s, CAPS, true) else Done(s)
  }

  /** Send a modifier down when needed, unless an exception is already on its way. */
  function DownIf(r: Outcome, needed: bool, modifier: SpecialKey): Outcome {
    if r.Threw? || !needed then r else SendKeyDown(r.keys, modifier as int, false)
  }

  /** Send a modifier up when needed, unless an exception is already on its way. */
  function UpIf(r: Outcome, needed: bool, modifier: SpecialKey): Outcome {
    if r.Threw? || !needed then r else SendKeyUp(r.keys, modifier as int, false)
  }

  /** Which modifiers a scanned code needs. */
  datatype Needs = Needs(shift: bool, ctrl: bool, alt: bool)

  /** ShiftKeyIsNeeded, CtrlKeyIsNeeded and AltKeyIsNeeded of a scanned code. They depend on the
      code alone, so asking again after the press gives the same answers. */
  function NeedsOf(layout: Layout, key: KeyCode): Needs {
    Needs(layout.shiftNeeded(key), layout.ctrlNeeded(key), layout.altNeeded(key))
  }

  /** The modifier downs before a character's press (Keyboard.cs:40-51): shift, control, alt. */
  function ModifiersDown(r: Outcome, needs: Needs): Outcome {
    DownIf(DownIf(DownIf(r, needs.shift, SHIFT), needs.ctrl, CONTROL), needs.alt, ALT)
  }

  /** The modifier ups after a character's press (Keyboard.cs:53-64): shift, control, alt. */
  function ModifiersUp(r: Outcome, needs: Needs): Outcome {
    UpIf(UpIf(UpIf(r, needs.shift, SHIFT), needs.ctrl, CONTROL), needs.alt, ALT)
  }

  /** One pass of Send's loop (Keyboard.cs:40-64) for the scanned code key: modifier downs, the
      key pressed as a non-special key, modifier ups. */
  function TypeKey(s: Keys, key: KeyCode, needs: Needs): Outcome {
    var down := ModifiersDown(Done(s), needs);
    var pressed := if down.Threw? then down else Press(down.keys, key, false);
    ModifiersUp(pressed, needs)
  }

  /** The loop of Send (Keyboard.cs:38-65) over text: '\r' is skipped, every other character is
      scanned and typed, and the first exception ends the loop. */
  function TypeText(s: Keys, text: string, layout: Layout): Outcome
    decreases text
  {
    if text == [] then Done(s)
    else if text[0] == '\r' then TypeText(s, text[1..], layout)
    else var key := layout.vkKeyScan(text[0]);
      match TypeKey(s, key, NeedsOf(layout, key))
      case Threw(t, e) => Threw(t, e)
      case Done(t) => TypeText(t, text[1..], layout)
  }

  /** The text Send types: lowered (lower stands for string.ToLower) when a special key is held. */
  function TextToType(s: Keys, keysToType: string, lower: string -> string): string {
    if |s.heldKeys| > 0 then lower(keysToType) else keysToType
  }

  /** Send(string, IActionListener) (Keyboard.cs:33-68): lowercase when a special key is held,
      switch caps lock off, then type the text. */
  function Send(s: Keys, keysToType: string, layout: Layout, lower: string -> string, capsOn: bool): Outcome {
    var text := TextToType(s, keysToType, lower);
    match SetCapsLock(s, false, capsOn)
    case Threw(t, e) => Threw(t, e)
    case Done(t) => TypeText(t, text, layout)
  }

  /** How much a single event moves code c: +1 for its key down, -1 for its key up. */
  function Delta(e: KeyEvent, c: KeyCode): int {
    if e.code != c then 0 else if e.stroke == Down then 1 else -1
  }

  /** Key downs of c sent so far minus key ups of c sent so far. */
  function Pending(sent: seq<KeyEvent>, c: KeyCode): int {
    if sent == [] then 0 else Pending(sent[..|sent| - 1], c) + Delta(sent[|sent| - 1], c)
  }

  /** KeysHeld is duplicate-free and holds exactly the codes that have a key down sent without
      a matching key up. */
  ghost predicate Balanced(s: Keys) {
    NoDup(s.keysHeld) &&
    forall c :: Pending(s.sent, c) == if c in s.keysHeld then 1 else 0
  }

  /** The invariant the public operations keep: Balanced, heldKeys duplicate-free, and every
      held special key is down. */
  ghost predicate Valid(s: Keys) {
    Balanced(s) && NoDup(s.heldKeys) &&
    forall k :: k in s.heldKeys ==> k as int in s.keysHeld
  }

  /** A new keyboard: nothing held, nothing sent. */
  const Initial: Keys := Keys([], [], [])
}
