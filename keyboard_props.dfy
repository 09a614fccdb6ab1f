/** What the keyboard's bookkeeping guarantees, proved about the functions of KeyboardSpec. */
module KeyboardProps {
  import opened Lists
  import opened KeyboardSpec

  /** A new keyboard satisfies the invariant. */
  lemma InitialValid()
    ensures Valid(Initial)
  {
  }

  lemma PendingAppend(sent: seq<KeyEvent>, e: KeyEvent, c: KeyCode)
    ensures Pending(sent + [e], c) == Pending(sent, c) + Delta(e, c)
  {
    assert (sent + [e])[..|sent|] == sent;
  }

  /** SendKeyDown throws exactly when b is already held, and then changes nothing; otherwise b
      joins KeysHeld, one key down of b is sent, and KeysHeld still holds exactly the pending
      codes. */
  lemma KeyDownOutcome(s: Keys, b: KeyCode, special: bool)
    requires Balanced(s)
    ensures var r := SendKeyDown(s, b, special);
      && (r.Threw? <==> b in s.keysHeld)
      && (r.Threw? ==> r == Threw(s, AlreadyPressed(b)))
      && (r.Done? ==> r.keys == s.(keysHeld := s.keysHeld + [b], sent := s.sent + [KeyEvent(b, Down, special)]))
      && Balanced(r.keys)
  {
    var r := SendKeyDown(s, b, special);
    if r.Done? {
      AppendFresh(s.keysHeld, b);
      forall c ensures Pending(r.keys.sent, c) == if c in r.keys.keysHeld then 1 else 0 {
        PendingAppend(s.sent, KeyEvent(b, Down, special), c);
      }
    }
  }

  /** SendKeyUp throws exactly when b is not held, and then changes nothing; otherwise its only
      occurrence leaves KeysHeld, every other code stays, one key up of b is sent, and KeysHeld
      still holds exactly the pending codes. */
  lemma KeyUpOutcome(s: Keys, b: KeyCode, special: bool)
    requires Balanced(s)
    ensures var r := SendKeyUp(s, b, special);
      && (r.Threw? <==> b !in s.keysHeld)
      && (r.Threw? ==> r == Threw(s, NotPressed(b)))
      && (r.Done? ==> r.keys.heldKeys == s.heldKeys && r.keys.sent == s.sent + [KeyEvent(b, Up, special)])
      && (r.Done? ==> forall c :: c in r.keys.keysHeld <==> c in s.keysHeld && c != b)
      && Balanced(r.keys)
  {
    var r := SendKeyUp(s, b, special);
    RemoveExactly(s.keysHeld, b);
    if r.Done? {
      forall c ensures Pending(r.keys.sent, c) == if c in r.keys.keysHeld then 1 else 0 {
        PendingAppend(s.sent, KeyEvent(b, Up, special), c);
      }
    }
  }

  /** Press on a key that is not held sends exactly its down and its up and leaves KeysHeld as it
      was; on a held key it throws before anything changes. */
  lemma {:induction false} PressRoundTrip(s: Keys, key: KeyCode, special: bool)
    ensures var r := Press(s, key, special);
      && (r.Done? <==> key !in s.keysHeld)
      && (r.Done? ==> r.keys == s.(sent := s.sent + [KeyEvent(key, Down, special), KeyEvent(key, Up, special)]))
      && (r.Threw? ==> r == Threw(s, AlreadyPressed(key)))
  {
    if key !in s.keysHeld {
      RemoveAfterPrefix(s.keysHeld, key, []);
      assert s.keysHeld + [key] + [] == s.keysHeld + [key];
      assert s.sent + [KeyEvent(key, Down, special)] + [KeyEvent(key, Up, special)]
          == s.sent + [KeyEvent(key, Down, special), KeyEvent(key, Up, special)];
    }
  }

  /** Press keeps KeysHeld equal to the pending codes. */
  lemma PressBalanced(s: Keys, key: KeyCode, special: bool)
    requires Balanced(s)
    ensures Balanced(Press(s, key, special).keys)
  {
    KeyDownOutcome(s, key, special);
    var d := SendKeyDown(s, key, special);
    if d.Done? {
      KeyUpOutcome(d.keys, key, special);
    }
  }

  /** AddUsedKey is idempotent, keeps heldKeys duplicate-free, adds key and keeps every other
      entry, in its place. */
  lemma AddUsedKeyProps(held: seq<SpecialKey>, key: SpecialKey)
    requires NoDup(held)
    ensures var r := AddUsedKey(held, key);
      && NoDup(r)
      && AddUsedKey(r, key) == r
      && held <= r
      && (forall k :: k in r <==> k in held || k == key)
  {
    if key !in held {
      AppendFresh(held, key);
    }
  }

  /** RemoveUsedKey is idempotent, keeps heldKeys duplicate-free, and takes out key and nothing
      else. */
  lemma RemoveUsedKeyProps(held: seq<SpecialKey>, key: SpecialKey)
    requires NoDup(held)
    ensures var r := RemoveUsedKey(held, key);
      && NoDup(r)
      && RemoveUsedKey(r, key) == r
      && (forall k :: k in r <==> k in held && k != key)
      && |r| == if key in held then |held| - 1 else |held|
  {
    RemoveExactly(held, key);
  }

  /** HoldKey throws exactly when the key is already down, before heldKeys is touched;
      otherwise the key is down and recorded as held once. The invariant is kept. */
  lemma HoldKeyOutcome(s: Keys, key: SpecialKey)
    requires Valid(s)
    ensures var r := HoldKey(s, key);
      && (r.Threw? <==> key as int in s.keysHeld)
      && (r.Threw? ==> r == Threw(s, AlreadyPressed(key as int)))
      && (r.Done? ==> r.keys == Keys(s.keysHeld + [key as int], s.heldKeys + [key], s.sent + [KeyEvent(key as int, Down, true)]))
      && Valid(r.keys)
  {
    KeyDownOutcome(s, key as int, true);
    AddUsedKeyProps(s.heldKeys, key);
  }

  /** LeaveKey throws exactly when the key is not down, before heldKeys is touched; otherwise
      the key is up and no longer recorded as held. The invariant is kept. */
  lemma LeaveKeyOutcome(s: Keys, key: SpecialKey)
    requires Valid(s)
    ensures var r := LeaveKey(s, key);
      && (r.Threw? <==> key as int !in s.keysHeld)
      && (r.Threw? ==> r == Threw(s, NotPressed(key as int)))
      && (r.Done? ==> r.keys.sent == s.sent + [KeyEvent(key as int, Up, true)])
      && (r.Done? ==> forall c :: c in r.keys.keysHeld <==> c in s.keysHeld && c != key as int)
      && (r.Done? ==> forall k :: k in r.keys.heldKeys <==> k in s.heldKeys && k != key)
      && (r.Done? ==> |r.keys.heldKeys| == if key in s.heldKeys then |s.heldKeys| - 1 else |s.heldKeys|)
      && Valid(r.keys)
  {
    KeyUpOutcome(s, key as int, true);
    RemoveUsedKeyProps(s.heldKeys, key);
  }

  /** Holding a key that is not down and then leaving it restores both lists exactly; only the
      special-key down and up have been sent. */
  lemma HoldThenLeave(s: Keys, key: SpecialKey)
    requires Valid(s) && key as int !in s.keysHeld
    ensures HoldKey(s, key).Done?
    ensures LeaveKey(HoldKey(s, key).keys, key)
         == Done(s.(sent := s.sent + [KeyEvent(key as int, Down, true), KeyEvent(key as int, Up, true)]))
  {
    HoldKeyOutcome(s, key);
    var h := HoldKey(s, key).keys;
    assert key !in s.heldKeys;
    RemoveAfterPrefix(s.keysHeld, key as int, []);
    assert h.keysHeld == s.keysHeld + [key as int] + [];
    RemoveAfterPrefix(s.heldKeys, key, []);
    assert h.heldKeys == s.heldKeys + [key] + [];
    assert h.sent + [KeyEvent(key as int, Up, true)]
        == s.sent + [KeyEvent(key as int, Down, true), KeyEvent(key as int, Up, true)];
  }

  /** The codes of a list of special keys, in order. */
  function Codes(keys: seq<SpecialKey>): seq<KeyCode> {
    if keys == [] then [] else [keys[0] as int] + Codes(keys[1..])
  }

  /** The special-key ups LeaveKey sends for keys, in order. */
  function Releases(keys: seq<SpecialKey>): seq<KeyEvent> {
    if keys == [] then [] else [KeyEvent(keys[0] as int, Up, true)] + Releases(keys[1..])
  }

  /** Leaving, in turn, distinct keys whose codes are all down succeeds: each key's up is sent in
      the order given and exactly their codes leave KeysHeld. */
  lemma {:induction false} LeaveEachSends(s: Keys, keys: seq<SpecialKey>)
    requires NoDup(s.keysHeld) && NoDup(keys)
    requires forall k :: k in keys ==> k as int in s.keysHeld
    decreases keys
    ensures var r := LeaveEach(s, keys);
      && r.Done?
      && r.keys.sent == s.sent + Releases(keys)
      && (forall c :: c in r.keys.keysHeld <==> c in s.keysHeld && c !in Codes(keys))
  {
    if keys != [] {
      var k := keys[0];
      var rest := keys[1..];
      assert k in keys;
      var t := LeaveKey(s, k).keys;
      assert t.sent == s.sent + [KeyEvent(k as int, Up, true)];
      assert NoDup(t.keysHeld) && forall c :: c in t.keysHeld <==> c in s.keysHeld && c != k as int by {
        RemoveExactly(s.keysHeld, k as int);
      }
      assert NoDup(rest) && k !in rest;
      assert forall j :: j in rest ==> j in keys;
      LeaveEachSends(t, rest);
      assert LeaveEach(t, rest) == LeaveEach(s, keys);
      ConcatAssoc(s.sent, [KeyEvent(k as int, Up, true)], Releases(rest), []);
      assert Codes(keys) == [k as int] + Codes(rest);
    }
  }

  /** Leaving keys in turn keeps the invariant, and leaving distinct held keys takes exactly
      those keys out of heldKeys. */
  lemma {:induction false} LeaveEachKeepsValid(s: Keys, keys: seq<SpecialKey>)
    requires Valid(s)
    decreases keys
    ensures var r := LeaveEach(s, keys);
      && Valid(r.keys)
      && (NoDup(keys) && (forall k :: k in keys ==> k in s.heldKeys) ==>
            |r.keys.heldKeys| == |s.heldKeys| - |keys| &&
            forall k :: k in r.keys.heldKeys <==> k in s.heldKeys && k !in keys)
  {
    if keys != [] {
      var k := keys[0];
      var rest := keys[1..];
      LeaveKeyOutcome(s, k);
      var t := LeaveKey(s, k).keys;
      LeaveEachKeepsValid(t, rest);
      if NoDup(keys) && (forall j :: j in keys ==> j in s.heldKeys) {
        assert k in keys && k !in rest && NoDup(rest);
        assert forall j :: j in rest ==> j in keys;
      }
    }
  }

  /** Leaving, in turn, distinct keys that are all held succeeds: each key's up is sent in the
      order given, those keys and their codes leave the two lists, and nothing else does. */
  lemma LeaveEachReleases(s: Keys, keys: seq<SpecialKey>)
    requires Valid(s) && NoDup(keys)
    requires forall k :: k in keys ==> k in s.heldKeys
    ensures var r := LeaveEach(s, keys);
      && r.Done?
      && Valid(r.keys)
      && |r.keys.heldKeys| == |s.heldKeys| - |keys|
      && r.keys.sent == s.sent + Releases(keys)
      && (forall k :: k in r.keys.heldKeys <==> k in s.heldKeys && k !in keys)
      && (forall c :: c in r.keys.keysHeld <==> c in s.keysHeld && c !in Codes(keys))
  {
    LeaveEachSends(s, keys);
    LeaveEachKeepsValid(s, keys);
  }

  /** With the invariant in place, LeaveAllKeys succeeds, empties heldKeys, sends one special-key
      up per held key in the order they were held, and removes exactly their codes from
      KeysHeld. */
  lemma LeaveAllKeysReleases(s: Keys)
    requires Valid(s)
    ensures var r := LeaveAllKeys(s);
      && r.Done?
      && Valid(r.keys)
      && r.keys.heldKeys == []
      && r.keys.sent == s.sent + Releases(s.heldKeys)
      && (forall c :: c in r.keys.keysHeld <==> c in s.keysHeld && c !in Codes(s.heldKeys))
  {
    LeaveEachReleases(s, s.heldKeys);
  }

  /** The code of modifier as a one-element list when needed, else the empty list. */
  function Opt(needed: bool, modifier: SpecialKey): seq<KeyCode> {
    if needed then [modifier as int] else []
  }

  /** The modifiers a scanned code needs, in the order Send presses them: shift, control, alt. */
  function Modifiers(needs: Needs): seq<KeyCode> {
    Opt(needs.shift, SHIFT) + Opt(needs.ctrl, CONTROL) + Opt(needs.alt, ALT)
  }

  /** Non-special events of one kind for codes, in order. */
  function Strokes(codes: seq<KeyCode>, stroke: Stroke): seq<KeyEvent> {
    if codes == [] then [] else [KeyEvent(codes[0], stroke, false)] + Strokes(codes[1..], stroke)
  }

  /** The events Send emits for one character: its modifiers down, the key down and up, its
      modifiers up, modifiers in shift, control, alt order both times. */
  function CharEvents(key: KeyCode, needs: Needs): seq<KeyEvent> {
    var mods := Modifiers(needs);
    Strokes(mods, Down) + [KeyEvent(key, Down, false), KeyEvent(key, Up, false)] + Strokes(mods, Up)
  }

  /** None of the modifiers the scanned code needs is down. */
  predicate ModifiersFree(held: seq<KeyCode>, needs: Needs) {
    && (needs.shift ==> SHIFT as int !in held)
    && (needs.ctrl ==> CONTROL as int !in held)
    && (needs.alt ==> ALT as int !in held)
  }

  /** A character can be typed while held is down: neither its code nor a modifier it needs is
      down, and its code is not one of those modifiers. */
  predicate CharOk(held: seq<KeyCode>, key: KeyCode, needs: Needs) {
    key !in held && key !in Modifiers(needs) && ModifiersFree(held, needs)
  }

  lemma {:induction false} StrokesAppend(a: seq<KeyCode>, b: seq<KeyCode>, stroke: Stroke)
    ensures Strokes(a + b, stroke) == Strokes(a, stroke) + Strokes(b, stroke)
  {
    if a == [] {
      assert a + b == b;
    } else {
      assert (a + b)[1..] == a[1..] + b;
      StrokesAppend(a[1..], b, stroke);
    }
  }

  lemma DownIfStep(r: Outcome, needed: bool, modifier: SpecialKey)
    requires r.Done?
    ensures var d := DownIf(r, needed, modifier);
      && (d.Done? <==> !(needed && modifier as int in r.keys.keysHeld))
      && (d.Done? ==> d.keys == r.keys.(keysHeld := r.keys.keysHeld + Opt(needed, modifier),
                                        sent := r.keys.sent + Strokes(Opt(needed, modifier), Down)))
      && (d.Threw? ==> d == Threw(r.keys, AlreadyPressed(modifier as int)))
  {
  }

  lemma UpIfStep(r: Outcome, needed: bool, modifier: SpecialKey, before: seq<KeyCode>, after: seq<KeyCode>)
    requires r.Done? && r.keys.keysHeld == before + Opt(needed, modifier) + after
    requires needed ==> modifier as int !in before
    ensures UpIf(r, needed, modifier)
         == Done(r.keys.(keysHeld := before + after, sent := r.keys.sent + Strokes(Opt(needed, modifier), Up)))
  {
    if needed {
      RemoveAfterPrefix(before, modifier as int, after);
    } else {
      assert before + Opt(needed, modifier) + after == before + after;
    }
  }

  lemma DownChain(r: Outcome, shift: bool, ctrl: bool, alt: bool)
    requires r.Done?
    ensures var d := DownIf(DownIf(DownIf(r, shift, SHIFT), ctrl, CONTROL), alt, ALT);
      && var held := r.keys.keysHeld;
      && (d.Done? <==> !(shift && SHIFT as int in held) && !(ctrl && CONTROL as int in held) && !(alt && ALT as int in held))
      && d.keys.heldKeys == r.keys.heldKeys
      && (d.Done? ==> d.keys.keysHeld == held + Opt(shift, SHIFT) + Opt(ctrl, CONTROL) + Opt(alt, ALT))
      && (d.Done? ==> d.keys.sent == r.keys.sent + Strokes(Opt(shift, SHIFT), Down) + Strokes(Opt(ctrl, CONTROL), Down) + Strokes(Opt(alt, ALT), Down))
      && (d.Threw? ==> held <= d.keys.keysHeld)
  {
    var d1 := DownIf(r, shift, SHIFT);
    var d2 := DownIf(d1, ctrl, CONTROL);
    DownIfStep(r, shift, SHIFT);
    if d1.Done? {
      DownIfStep(d1, ctrl, CONTROL);
      if d2.Done? {
        DownIfStep(d2, alt, ALT);
      }
    }
  }

  /** The modifier downs succeed exactly when none of the needed modifiers is down, and then
      append them to KeysHeld and send their downs in order. When one throws, heldKeys is
      unchanged and KeysHeld has only grown at its end. */
  lemma ModifiersDownOutcome(s: Keys, needs: Needs)
    ensures var d := ModifiersDown(Done(s), needs);
      && (d.Done? <==> ModifiersFree(s.keysHeld, needs))
      && d.keys.heldKeys == s.heldKeys
      && (d.Done? ==> d.keys.keysHeld == s.keysHeld + Modifiers(needs))
      && (d.Done? ==> d.keys.sent == s.sent + Strokes(Modifiers(needs), Down))
      && (d.Threw? ==> s.keysHeld <= d.keys.keysHeld)
  {
    var shift, ctrl, alt := needs.shift, needs.ctrl, needs.alt;
    var o1, o2, o3 := Opt(shift, SHIFT), Opt(ctrl, CONTROL), Opt(alt, ALT);
    var s1, s2, s3 := Strokes(o1, Down), Strokes(o2, Down), Strokes(o3, Down);
    DownChain(Done(s), shift, ctrl, alt);
    ConcatAssoc(s.keysHeld, o1, o2, o3);
    assert Strokes(Modifiers(needs), Down) == s1 + s2 + s3 by {
      StrokesAppend(o1, o2, Down);
      StrokesAppend(o1 + o2, o3, Down);
    }
    ConcatAssoc(s.sent, s1, s2, s3);
  }

  lemma UpChain(r: Outcome, shift: bool, ctrl: bool, alt: bool, before: seq<KeyCode>)
    requires r.Done?
    requires r.keys.keysHeld == before + Opt(shift, SHIFT) + Opt(ctrl, CONTROL) + Opt(alt, ALT)
    requires shift ==> SHIFT as int !in before
    requires ctrl ==> CONTROL as int !in before
    requires alt ==> ALT as int !in before
    ensures var u := UpIf(UpIf(UpIf(r, shift, SHIFT), ctrl, CONTROL), alt, ALT);
      && u.Done?
      && u.keys.keysHeld == before
      && u.keys.heldKeys == r.keys.heldKeys
      && u.keys.sent == r.keys.sent + Strokes(Opt(shift, SHIFT), Up) + Strokes(Opt(ctrl, CONTROL), Up) + Strokes(Opt(alt, ALT), Up)
  {
    var o1, o2, o3 := Opt(shift, SHIFT), Opt(ctrl, CONTROL), Opt(alt, ALT);
    var u1 := UpIf(r, shift, SHIFT);
    assert r.keys.keysHeld == before + o1 + (o2 + o3);
    UpIfStep(r, shift, SHIFT, before, o2 + o3);
    var u2 := UpIf(u1, ctrl, CONTROL);
    assert u1.keys.keysHeld == before + o2 + o3;
    UpIfStep(u1, ctrl, CONTROL, before, o3);
    assert u2.keys.keysHeld == before + o3 + [];
    UpIfStep(u2, alt, ALT, before, []);
  }

  /** After the press, the modifier ups take out of KeysHeld exactly the modifiers the downs
      appended, and send their ups in the same order. */
  lemma ModifiersUpOutcome(r: Outcome, needs: Needs, before: seq<KeyCode>)
    requires r.Done? && r.keys.keysHeld == before + Modifiers(needs)
    requires ModifiersFree(before, needs)
    ensures var u := ModifiersUp(r, needs);
      && u.Done?
      && u.keys.keysHeld == before
      && u.keys.heldKeys == r.keys.heldKeys
      && u.keys.sent == r.keys.sent + Strokes(Modifiers(needs), Up)
  {
    var shift, ctrl, alt := needs.shift, needs.ctrl, needs.alt;
    var o1, o2, o3 := Opt(shift, SHIFT), Opt(ctrl, CONTROL), Opt(alt, ALT);
    var s1, s2, s3 := Strokes(o1, Up), Strokes(o2, Up), Strokes(o3, Up);
    assert before + Modifiers(needs) == before + o1 + o2 + o3 by {
      ConcatAssoc(before, o1, o2, o3);
    }
    UpChain(r, shift, ctrl, alt, before);
    assert Strokes(Modifiers(needs), Up) == s1 + s2 + s3 by {
      StrokesAppend(o1, o2, Up);
      StrokesAppend(o1 + o2, o3, Up);
    }
    ConcatAssoc(r.keys.sent, s1, s2, s3);
  }

  lemma ConcatAssoc<T>(a: seq<T>, b: seq<T>, c: seq<T>, d: seq<T>)
    ensures a + (b + c + d) == a + b + c + d
  {
  }

  /** A character that can be typed leaves both lists as they were and sends CharEvents. */
  lemma TypeKeyDone(s: Keys, key: KeyCode, needs: Needs)
    requires CharOk(s.keysHeld, key, needs)
    ensures TypeKey(s, key, needs) == Done(s.(sent := s.sent + CharEvents(key, needs)))
  {
    var mods := Modifiers(needs);
    var d := ModifiersDown(Done(s), needs);
    ModifiersDownOutcome(s, needs);
    var dk := Keys(s.keysHeld + mods, s.heldKeys, s.sent + Strokes(mods, Down));
    assert d == Done(dk);
    var pk := dk.(sent := dk.sent + [KeyEvent(key, Down, false), KeyEvent(key, Up, false)]);
    assert Press(dk, key, false) == Done(pk) by {
      PressRoundTrip(dk, key, false);
    }
    assert TypeKey(s, key, needs) == ModifiersUp(Done(pk), needs);
    ModifiersUpOutcome(Done(pk), needs, s.keysHeld);
    CharEventsAfter(s.sent, key, needs);
  }

  lemma CharEventsAfter(sent: seq<KeyEvent>, key: KeyCode, needs: Needs)
    ensures sent + Strokes(Modifiers(needs), Down) + [KeyEvent(key, Down, false), KeyEvent(key, Up, false)]
              + Strokes(Modifiers(needs), Up)
         == sent + CharEvents(key, needs)
  {
  }

  /** A character that cannot be typed throws; heldKeys is unchanged and KeysHeld has only grown
      at its end. */
  lemma TypeKeyThrew(s: Keys, key: KeyCode, needs: Needs)
    requires !CharOk(s.keysHeld, key, needs)
    ensures var r := TypeKey(s, key, needs);
      r.Threw? && r.keys.heldKeys == s.heldKeys && s.keysHeld <= r.keys.keysHeld
  {
    var r := TypeKey(s, key, needs);
    var d := ModifiersDown(Done(s), needs);
    ModifiersDownOutcome(s, needs);
    if d.Threw? {
      assert r == d;
    } else {
      PressRoundTrip(d.keys, key, false);
      assert key in s.keysHeld + Modifiers(needs);
      assert r == Press(d.keys, key, false);
    }
  }

  /** One character of Send: it succeeds exactly when CharOk holds of KeysHeld, and then it
      leaves both lists as they were and has sent exactly CharEvents. When it throws, heldKeys is
      unchanged and KeysHeld has only grown at its end: the modifiers already pressed stay down. */
  lemma TypeKeyOutcome(s: Keys, key: KeyCode, needs: Needs)
    ensures var r := TypeKey(s, key, needs);
      && (r.Done? <==> CharOk(s.keysHeld, key, needs))
      && (r.Done? ==> r.keys == s.(sent := s.sent + CharEvents(key, needs)))
      && (r.Threw? ==> r.keys.heldKeys == s.heldKeys && s.keysHeld <= r.keys.keysHeld)
  {
    if CharOk(s.keysHeld, key, needs) {
      TypeKeyDone(s, key, needs);
    } else {
      TypeKeyThrew(s, key, needs);
    }
  }

  /** A character whose second modifier is already down throws after the first modifier went
      down, and nothing releases it: shift stays in KeysHeld (and pressed) after the exception. */
  lemma TypeKeyLeavesShiftDown(s: Keys, key: KeyCode, needs: Needs)
    requires needs.shift && needs.ctrl
    requires SHIFT as int !in s.keysHeld && CONTROL as int in s.keysHeld
    ensures TypeKey(s, key, needs)
         == Threw(s.(keysHeld := s.keysHeld + [SHIFT as int], sent := s.sent + [KeyEvent(SHIFT as int, Down, false)]),
                  AlreadyPressed(CONTROL as int))
  {
  }

  lemma DownIfBalanced(r: Outcome, needed: bool, modifier: SpecialKey)
    requires Balanced(r.keys)
    ensures Balanced(DownIf(r, needed, modifier).keys)
  {
    if r.Done? && needed {
      KeyDownOutcome(r.keys, modifier as int, false);
    }
  }

  lemma UpIfBalanced(r: Outcome, needed: bool, modifier: SpecialKey)
    requires Balanced(r.keys)
    ensures Balanced(UpIf(r, needed, modifier).keys)
  {
    if r.Done? && needed {
      KeyUpOutcome(r.keys, modifier as int, false);
    }
  }

  /** One character of Send keeps the invariant, whether it succeeds or throws. */
  lemma TypeKeyKeepsValid(s: Keys, key: KeyCode, needs: Needs)
    requires Valid(s)
    ensures Valid(TypeKey(s, key, needs).keys)
  {
    var shift, ctrl, alt := needs.shift, needs.ctrl, needs.alt;
    var d1 := DownIf(Done(s), shift, SHIFT);
    var d2 := DownIf(d1, ctrl, CONTROL);
    var d3 := DownIf(d2, alt, ALT);
    DownIfBalanced(Done(s), shift, SHIFT);
    DownIfBalanced(d1, ctrl, CONTROL);
    DownIfBalanced(d2, alt, ALT);
    var p := if d3.Threw? then d3 else Press(d3.keys, key, false);
    if d3.Done? {
      PressBalanced(d3.keys, key, false);
    }
    var u1 := UpIf(p, shift, SHIFT);
    var u2 := UpIf(u1, ctrl, CONTROL);
    UpIfBalanced(p, shift, SHIFT);
    UpIfBalanced(u1, ctrl, CONTROL);
    UpIfBalanced(u2, alt, ALT);
    assert TypeKey(s, key, needs) == UpIf(u2, alt, ALT);
    TypeKeyOutcome(s, key, needs);
  }

  /** The events Send emits for character c. */
  function CharEventsOf(layout: Layout, c: char): seq<KeyEvent> {
    var key := layout.vkKeyScan(c);
    CharEvents(key, NeedsOf(layout, key))
  }

  /** Character c can be typed while held is down. */
  predicate CharOkOf(held: seq<KeyCode>, layout: Layout, c: char) {
    var key := layout.vkKeyScan(c);
    CharOk(held, key, NeedsOf(layout, key))
  }

  /** The events Send emits for text, character by character; '\r' emits nothing. */
  function TextEvents(text: string, layout: Layout): seq<KeyEvent>
    decreases text
  {
    if text == [] then []
    else (if text[0] == '\r' then [] else CharEventsOf(layout, text[0])) + TextEvents(text[1..], layout)
  }

  /** Every character of text other than '\r' can be typed while held is down. */
  predicate TextOk(held: seq<KeyCode>, text: string, layout: Layout) {
    forall i :: 0 <= i < |text| && text[i] != '\r' ==> CharOkOf(held, layout, text[i])
  }

  lemma TextOkCons(held: seq<KeyCode>, text: string, layout: Layout)
    requires text != []
    ensures TextOk(held, text, layout) <==>
      (text[0] != '\r' ==> CharOkOf(held, layout, text[0])) && TextOk(held, text[1..], layout)
  {
    var rest := text[1..];
    if TextOk(held, rest, layout) {
      forall i | 0 < i < |text| && text[i] != '\r' ensures CharOkOf(held, layout, text[i]) {
        assert rest[i - 1] == text[i];
      }
    }
    if TextOk(held, text, layout) {
      forall i | 0 <= i < |rest| && rest[i] != '\r' ensures CharOkOf(held, layout, rest[i]) {
        assert rest[i] == text[i + 1];
      }
    }
  }

  /** When every character can be typed, Send's loop leaves both lists as they were and sends
      exactly TextEvents. */
  lemma {:induction false} TypeTextDone(s: Keys, text: string, layout: Layout)
    requires TextOk(s.keysHeld, text, layout)
    decreases text
    ensures TypeText(s, text, layout) == Done(s.(sent := s.sent + TextEvents(text, layout)))
  {
    if text == [] {
      assert s.sent + [] == s.sent;
    } else {
      var rest := text[1..];
      assert TextOk(s.keysHeld, rest, layout) by {
        TextOkCons(s.keysHeld, text, layout);
      }
      if text[0] == '\r' {
        TypeTextDone(s, rest, layout);
        assert TextEvents(text, layout) == TextEvents(rest, layout);
      } else {
        var key := layout.vkKeyScan(text[0]);
        var needs := NeedsOf(layout, key);
        var t := s.(sent := s.sent + CharEvents(key, needs));
        assert TypeText(s, text, layout) == TypeText(t, rest, layout) by {
          assert CharOk(s.keysHeld, key, needs) by {
            TextOkCons(s.keysHeld, text, layout);
          }
          TypeKeyDone(s, key, needs);
        }
        TypeTextDone(t, rest, layout);
        assert t.sent + TextEvents(rest, layout) == s.sent + TextEvents(text, layout) by {
          TextEventsCons(s.sent, text, layout);
        }
      }
    }
  }

  /** The events of a text whose first character is typed: that character's, then the rest's. */
  lemma TextEventsCons(sent: seq<KeyEvent>, text: string, layout: Layout)
    requires text != [] && text[0] != '\r'
    ensures sent + CharEventsOf(layout, text[0]) + TextEvents(text[1..], layout)
      == sent + TextEvents(text, layout)
  {
  }

  /** When some character cannot be typed, Send's loop throws; heldKeys is unchanged and
      KeysHeld has only grown at its end. */
  lemma {:induction false} TypeTextThrew(s: Keys, text: string, layout: Layout)
    requires !TextOk(s.keysHeld, text, layout)
    decreases text
    ensures var r := TypeText(s, text, layout);
      r.Threw? && r.keys.heldKeys == s.heldKeys && s.keysHeld <= r.keys.keysHeld
  {
    var rest := text[1..];
    TextOkCons(s.keysHeld, text, layout);
    if text[0] == '\r' {
      TypeTextThrew(s, rest, layout);
    } else {
      var key := layout.vkKeyScan(text[0]);
      var needs := NeedsOf(layout, key);
      if CharOk(s.keysHeld, key, needs) {
        var t := s.(sent := s.sent + CharEvents(key, needs));
        assert TypeText(s, text, layout) == TypeText(t, rest, layout) by {
          TypeKeyDone(s, key, needs);
        }
        TypeTextThrew(t, rest, layout);
      } else {
        assert TypeText(s, text, layout) == TypeKey(s, key, needs) by {
          TypeKeyThrew(s, key, needs);
        }
        TypeKeyThrew(s, key, needs);
      }
    }
  }

  /** Send's loop succeeds exactly when every character can be typed against the KeysHeld it
      started with; then both lists are as they were and exactly TextEvents has been sent. When
      it throws, heldKeys is unchanged and KeysHeld has only grown. */
  lemma TypeTextOutcome(s: Keys, text: string, layout: Layout)
    ensures var r := TypeText(s, text, layout);
      && (r.Done? <==> TextOk(s.keysHeld, text, layout))
      && (r.Done? ==> r.keys == s.(sent := s.sent + TextEvents(text, layout)))
      && (r.Threw? ==> r.keys.heldKeys == s.heldKeys && s.keysHeld <= r.keys.keysHeld)
  {
    if TextOk(s.keysHeld, text, layout) {
      TypeTextDone(s, text, layout);
    } else {
      TypeTextThrew(s, text, layout);
    }
  }

  /** Send's loop keeps the invariant, whether it completes or throws. */
  lemma {:induction false} TypeTextKeepsValid(s: Keys, text: string, layout: Layout)
    requires Valid(s)
    decreases text
    ensures Valid(TypeText(s, text, layout).keys)
  {
    if text != [] {
      if text[0] == '\r' {
        TypeTextKeepsValid(s, text[1..], layout);
      } else {
        var key := layout.vkKeyScan(text[0]);
        TypeKeyKeepsValid(s, key, NeedsOf(layout, key));
        var t := TypeKey(s, key, NeedsOf(layout, key));
        if t.Done? {
          TypeTextKeepsValid(t.keys, text[1..], layout);
        }
      }
    }
  }

  /** What switching caps lock off sends: CAPS down and up as a special key when it was on. */
  function CapsEvents(capsOn: bool): seq<KeyEvent> {
    if capsOn then [KeyEvent(CAPS as int, Down, true), KeyEvent(CAPS as int, Up, true)] else []
  }

  /** The CapsLockOn setter presses CAPS as a special key exactly when the reported state differs
      from the value asked for. That press throws exactly when CAPS is already down, and then
      nothing changes; otherwise both lists stay as they were and only the CAPS down and up are
      sent. The invariant is kept. */
  lemma SetCapsLockOutcome(s: Keys, value: bool, capsOn: bool)
    ensures var r := SetCapsLock(s, value, capsOn);
      && (r.Threw? <==> capsOn != value && CAPS as int in s.keysHeld)
      && (r.Threw? ==> r == Threw(s, AlreadyPressed(CAPS as int)))
      && (r.Done? ==> r.keys == s.(sent := s.sent + CapsEvents(capsOn != value)))
      && (Valid(s) ==> Valid(r.keys))
  {
    PressRoundTrip(s, CAPS as int, true);
    if Valid(s) && capsOn != value {
      PressBalanced(s, CAPS as int, true);
    }
  }

  /** Send succeeds exactly when caps lock can be switched off (it is off, or CAPS is not held)
      and every character of the text it types can be typed against the KeysHeld it started
      with; the text is the lowered input when a special key is held. On success both lists are
      as they were and exactly the caps events and TextEvents have been sent. When it throws,
      heldKeys is unchanged and KeysHeld has only grown. The invariant is kept. */
  lemma SendOutcome(s: Keys, keysToType: string, layout: Layout, lower: string -> string, capsOn: bool)
    ensures var r := Send(s, keysToType, layout, lower, capsOn);
      && var text := TextToType(s, keysToType, lower);
      && (r.Done? <==> !(capsOn && CAPS as int in s.keysHeld) && TextOk(s.keysHeld, text, layout))
      && (r.Done? ==> r.keys == s.(sent := s.sent + CapsEvents(capsOn) + TextEvents(text, layout)))
      && (r.Threw? ==> r.keys.heldKeys == s.heldKeys && s.keysHeld <= r.keys.keysHeld)
      && (Valid(s) ==> Valid(r.keys))
  {
    var text := TextToType(s, keysToType, lower);
    PressRoundTrip(s, CAPS as int, true);
    var c := SetCapsLock(s, false, capsOn);
    assert c.Done? ==> c.keys == s.(sent := s.sent + CapsEvents(capsOn));
    if c.Done? {
      TypeTextOutcome(c.keys, text, layout);
      if Valid(s) {
        if capsOn {
          PressBalanced(s, CAPS as int, true);
        }
        TypeTextKeepsValid(c.keys, text, layout);
      }
    }
  }

  /** Send throws when a character it types needs a modifier that is already down. */
  lemma SendFailsOnHeldModifier(s: Keys, keysToType: string, layout: Layout, lower: string -> string,
                                capsOn: bool, i: nat, m: KeyCode)
    requires var text := TextToType(s, keysToType, lower);
      i < |text| && text[i] != '\r' && m in Modifiers(NeedsOf(layout, layout.vkKeyScan(text[i])))
    requires m in s.keysHeld
    ensures Send(s, keysToType, layout, lower, capsOn).Threw?
  {
    SendOutcome(s, keysToType, layout, lower, capsOn);
  }
}
