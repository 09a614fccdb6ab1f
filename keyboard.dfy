/** TestStack.White's Keyboard as a class: KeysHeld and heldKeys are fields the methods update in
    place, and the events handed to SendInput are recorded in a ghost field. Every method is
    proved to end in the state, and with the exception, that the matching function of
    KeyboardSpec gives for the state it started from; the public ones also keep the invariant. */
module InputDevices {
  import opened Lists
  import opened KeyboardSpec
  import KeyboardProps

  datatype Option<T> = None | Some(value: T)

  class Keyboard {
    /** The special keys held through HoldKey and not yet left. */
    var heldKeys: seq<SpecialKey>
    /** Every code this keyboard has sent down and not yet up. */
    var keysHeld: seq<KeyCode>
    /** Every event sent so far, oldest first. */
    ghost var sent: seq<KeyEvent>

    ghost function State(): Keys
      reads this
    {
      Keys(keysHeld, heldKeys, sent)
    }

    /** How a call that returned err ended, in the terms of KeyboardSpec. */
    ghost function Ended(err: Option<KeyError>): Outcome
      reads this
    {
      match err
      case None => Done(State())
      case Some(e) => Threw(State(), e)
    }

    /** Keyboard() (Keyboard.cs:17-20): both lists empty. */
    constructor()
      ensures State() == Initial && Valid(State())
    {
      heldKeys := [];
      keysHeld := [];
      sent := [];
      KeyboardProps.InitialValid();
    }

    /** SendKeyDown (Keyboard.cs:183-192). */
    method SendKeyDown(b: KeyCode, special: bool) returns (err: Option<KeyError>)
      modifies this
      ensures Ended(err) == KeyboardSpec.SendKeyDown(old(State()), b, special)
    {
      if b in keysHeld {
        return Some(AlreadyPressed(b));
      }
      keysHeld := keysHeld + [b];
      sent := sent + [KeyEvent(b, Down, special)];
      err := None;
    }

    /** SendKeyUp (Keyboard.cs:172-181). */
    method SendKeyUp(b: KeyCode, special: bool) returns (err: Option<KeyError>)
      modifies this
      ensures Ended(err) == KeyboardSpec.SendKeyUp(old(State()), b, special)
    {
      if b !in keysHeld {
        return Some(NotPressed(b));
      }
      keysHeld := Remove(keysHeld, b);
      sent := sent + [KeyEvent(b, Up, special)];
      err := None;
    }

    /** Press (Keyboard.cs:161-165). */
    method Press(key: KeyCode, special: bool) returns (err: Option<KeyError>)
      modifies this
      ensures Ended(err) == KeyboardSpec.Press(old(State()), key, special)
    {
      err := SendKeyDown(key, special);
      if err.Some? {
        return;
      }
      err := SendKeyUp(key, special);
    }

    /** Send(SpecialKeys, bool) (Keyboard.cs:167-170). */
    method SendSpecial(key: SpecialKey, special: bool) returns (err: Option<KeyError>)
      modifies this
      ensures Ended(err) == KeyboardSpec.SendSpecial(old(State()), key, special)
    {
      err := Press(key as int, special);
    }

    /** PressSpecialKey (Keyboard.cs:81-85): the key pressed as a special key. */
    method PressSpecialKey(key: SpecialKey) returns (err: Option<KeyError>)
      modifies this
      ensures Ended(err) == KeyboardSpec.SendSpecial(old(State()), key, true)
      ensures old(Valid(State())) ==> Valid(State())
    {
      ghost var s := State();
      err := SendSpecial(key, true);
      if Valid(s) {
        KeyboardProps.PressBalanced(s, key as int, true);
        KeyboardProps.PressRoundTrip(s, key as int, true);
      }
    }

    /** AddUsedKey (Keyboard.cs:194-201). */
    method AddUsedKey(key: SpecialKey)
      modifies this
      ensures heldKeys == KeyboardSpec.AddUsedKey(old(heldKeys), key)
      ensures keysHeld == old(keysHeld) && sent == old(sent)
    {
      if key in heldKeys {
        return;
      }
      heldKeys := heldKeys + [key];
    }

    /** RemoveUsedKey (Keyboard.cs:203-210). */
    method RemoveUsedKey(key: SpecialKey)
      modifies this
      ensures heldKeys == KeyboardSpec.RemoveUsedKey(old(heldKeys), key)
      ensures keysHeld == old(keysHeld) && sent == old(sent)
    {
      if key !in heldKeys {
        return;
      }
      heldKeys := Remove(heldKeys, key);
    }

    /** HoldKey (Keyboard.cs:98-103). */
    method HoldKey(key: SpecialKey) returns (err: Option<KeyError>)
      modifies this
      ensures Ended(err) == KeyboardSpec.HoldKey(old(State()), key)
      ensures old(Valid(State())) ==> Valid(State())
    {
      ghost var s := State();
      err := SendKeyDown(key as int, true);
      if err.None? {
        AddUsedKey(key);
      }
      if Valid(s) {
        KeyboardProps.HoldKeyOutcome(s, key);
      }
    }

    /** LeaveKey (Keyboard.cs:116-121). */
    method LeaveKey(key: SpecialKey) returns (err: Option<KeyError>)
      modifies this
      ensures Ended(err) == KeyboardSpec.LeaveKey(old(State()), key)
      ensures old(Valid(State())) ==> Valid(State())
    {
      ghost var s := State();
      err := SendKeyUp(key as int, true);
      if err.None? {
        RemoveUsedKey(key);
      }
      if Valid(s) {
        KeyboardProps.LeaveKeyOutcome(s, key);
      }
    }

    /** LeaveAllKeys (Keyboard.cs:156-159): LeaveKey for each key of a copy of heldKeys; an
        exception ends the run. With the invariant in place it succeeds and nothing stays held. */
    method LeaveAllKeys() returns (err: Option<KeyError>)
      modifies this
      ensures Ended(err) == KeyboardSpec.LeaveAllKeys(old(State()))
      ensures old(Valid(State())) ==> err.None? && heldKeys == [] && Valid(State())
    {
      ghost var s := State();
      var snapshot := heldKeys;
      var i := 0;
      while i < |snapshot|
        invariant 0 <= i <= |snapshot|
        invariant LeaveEach(State(), snapshot[i..]) == LeaveEach(s, snapshot)
      {
        assert snapshot[i..][1..] == snapshot[i + 1..];
        err := LeaveKey(snapshot[i]);
        if err.Some? {
          if Valid(s) {
            KeyboardProps.LeaveAllKeysReleases(s);
          }
          return;
        }
        i := i + 1;
      }
      err := None;
      if Valid(s) {
        KeyboardProps.LeaveAllKeysReleases(s);
      }
    }

    /** The HeldKeys getter (Keyboard.cs:145-151): a new array holding heldKeys in order. */
    method HeldKeys() returns (r: array<SpecialKey>)
      ensures fresh(r) && r[..] == heldKeys
    {
      r := new SpecialKey[|heldKeys|];
      var i := 0;
      while i < |heldKeys|
        invariant 0 <= i <= |heldKeys|
        invariant r[..i] == heldKeys[..i]
      {
        r[i] := heldKeys[i];
        i := i + 1;
      }
    }

    /** The CapsLockOn setter (Keyboard.cs:133-139); capsOn is what the getter reports. */
    method SetCapsLock(value: bool, capsOn: bool) returns (err: Option<KeyError>)
      modifies this
      ensures Ended(err) == KeyboardSpec.SetCapsLock(old(State()), value, capsOn)
      ensures old(Valid(State())) ==> Valid(State())
    {
      ghost var s := State();
      if capsOn != value {
        err := SendSpecial(CAPS, true);
      } else {
        err := None;
      }
      KeyboardProps.SetCapsLockOutcome(s, value, capsOn);
    }

    /** One pass of Send's loop (Keyboard.cs:40-64): the needed modifiers down, the key pressed,
        the needed modifiers up. */
    method TypeKey(key: KeyCode, layout: Layout) returns (err: Option<KeyError>)
      modifies this
      ensures Ended(err) == KeyboardSpec.TypeKey(old(State()), key, NeedsOf(layout, key))
    {
      var needs := NeedsOf(layout, key);
      ghost var r := Done(State());
      err := None;
      if needs.shift {
        err := SendKeyDown(SHIFT as int, false);
      }
      r := DownIf(r, needs.shift, SHIFT);
      assert Ended(err) == r;
      if err.None? && needs.ctrl {
        err := SendKeyDown(CONTROL as int, false);
      }
      r := DownIf(r, needs.ctrl, CONTROL);
      assert Ended(err) == r;
      if err.None? && needs.alt {
        err := SendKeyDown(ALT as int, false);
      }
      r := DownIf(r, needs.alt, ALT);
      assert Ended(err) == r;
      if err.None? {
        err := Press(key, false);
      }
      r := if r.Threw? then r else KeyboardSpec.Press(r.keys, key, false);
      assert Ended(err) == r;
      if err.None? && needs.shift {
        err := SendKeyUp(SHIFT as int, false);
      }
      r := UpIf(r, needs.shift, SHIFT);
      assert Ended(err) == r;
      if err.None? && needs.ctrl {
        err := SendKeyUp(CONTROL as int, false);
      }
      r := UpIf(r, needs.ctrl, CONTROL);
      assert Ended(err) == r;
      if err.None? && needs.alt {
        err := SendKeyUp(ALT as int, false);
      }
      r := UpIf(r, needs.alt, ALT);
    }

    /** Send(string, IActionListener) (Keyboard.cs:33-68): lower stands for string.ToLower,
        capsOn for what the CapsLockOn getter reports, layout for the operating system's answers
        about each character. */
    method Send(keysToType: string, layout: Layout, lower: string -> string, capsOn: bool)
      returns (err: Option<KeyError>)
      modifies this
      ensures Ended(err) == KeyboardSpec.Send(old(State()), keysToType, layout, lower, capsOn)
      ensures old(Valid(State())) ==> Valid(State())
    {
      ghost var s := State();
      var text := if |heldKeys| > 0 then lower(keysToType) else keysToType;
      err := SetCapsLock(false, capsOn);
      if err.None? {
        var i := 0;
        while i < |text|
          invariant 0 <= i <= |text|
          invariant err.None?
          invariant TypeText(State(), text[i..], layout) == KeyboardSpec.Send(s, keysToType, layout, lower, capsOn)
        {
          assert text[i..][1..] == text[i + 1..];
          if text[i] != '\r' {
            err := TypeKey(layout.vkKeyScan(text[i]), layout);
            if err.Some? {
              break;
            }
          }
          i := i + 1;
        }
      }
      if Valid(s) {
        KeyboardProps.SendOutcome(s, keysToType, layout, lower, capsOn);
      }
    }
  }
}
