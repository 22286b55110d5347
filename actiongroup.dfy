/** One key sequence's group (`ActionMapping`): the actions bound to it, in order, and the
    time each of its keys was last seen pressed. Time is in integer ticks of one millisecond. */
module ActionGroup {
  import opened HotkeyTypes

  /** How far in the past a new group stamps its keys: 60 seconds. */
  const NeverPressedOffset: int := 60_000

  /** The value of a group: what the class `ActionMapping` holds at one moment. */
  datatype Mapping = Mapping(actions: seq<string>, keys: map<KeyCode, int>)

  /** A new group over `keys`, created at tick `now`: no actions, every key last pressed
      `NeverPressedOffset` ticks ago. */
  function NewMapping(keys: seq<KeyCode>, now: int): Mapping
  {
    Mapping([], map k | k in keys :: now - NeverPressedOffset)
  }

  /** `is_pressed`: every key's age at tick `now` is within the window. */
  predicate Pressed(m: Mapping, window: nat, now: int)
  {
    forall k :: k in m.keys ==> now - m.keys[k] <= window
  }

  /** `press_key`: `key` is stamped with `now`. */
  function Stamped(m: Mapping, key: KeyCode, now: int): Mapping
  {
    m.(keys := m.keys[key := now])
  }

  /** `add_action` when it succeeds: the action goes last; a present action changes nothing. */
  function WithAction(m: Mapping, action: string): Mapping
  {
    if action in m.actions then m else m.(actions := m.actions + [action])
  }

  /** `remove_action`: every occurrence of the action is dropped, the rest keep their order. */
  function WithoutAction(m: Mapping, action: string): Mapping
  {
    m.(actions := Without(m.actions, action))
  }

  /** A new group has exactly the given keys and is not pressed for any window shorter
      than the offset, at its creation tick or any later one. */
  lemma NewMappingNotPressed(keys: seq<KeyCode>, created: int, now: int, window: nat)
    requires |keys| > 0 && created <= now && window < NeverPressedOffset
    ensures NewMapping(keys, created).keys.Keys == set k | k in keys
    ensures NewMapping(keys, created).actions == []
    ensures !Pressed(NewMapping(keys, created), window, now)
  {
    var m := NewMapping(keys, created);
    assert keys[0] in m.keys;
    assert now - m.keys[keys[0]] > window;
  }

  /** Stamping a key of the group changes that key's time to `now` and nothing else. */
  lemma StampedChangesOnlyKey(m: Mapping, key: KeyCode, now: int)
    requires key in m.keys
    ensures Stamped(m, key, now).keys.Keys == m.keys.Keys
    ensures Stamped(m, key, now).keys[key] == now
    ensures forall k :: k in m.keys && k != key ==> Stamped(m, key, now).keys[k] == m.keys[k]
    ensures Stamped(m, key, now).actions == m.actions
  {
  }

  /** Right after a key is stamped, the group is pressed exactly when every other key is
      within the window. */
  lemma PressedAfterStamp(m: Mapping, key: KeyCode, window: nat, now: int)
    ensures Pressed(Stamped(m, key, now), window, now)
        <==> forall k :: k in m.keys && k != key ==> now - m.keys[k] <= window
  {
    var s := Stamped(m, key, now);
    if Pressed(s, window, now) {
      forall k | k in m.keys && k != key ensures now - m.keys[k] <= window {
        assert k in s.keys && s.keys[k] == m.keys[k];
      }
    }
  }

  /** Widening the window never un-presses a group. */
  lemma PressedMonotone(m: Mapping, w1: nat, w2: nat, now: int)
    requires w1 <= w2 && Pressed(m, w1, now)
    ensures Pressed(m, w2, now)
  {
  }

  /** Two keys pressed in turn at ticks `t1 <= t2`: the group is pressed at `t2` exactly
      when the gap is at most the window (200 ms passes, 300 ms does not). */
  lemma TwoKeyChord(k1: KeyCode, k2: KeyCode, created: int, t1: int, t2: int, window: nat)
    requires k1 != k2 && created <= t1 <= t2
    ensures Pressed(Stamped(Stamped(NewMapping([k1, k2], created), k1, t1), k2, t2), window, t2)
        <==> t2 - t1 <= window
  {
    var m := Stamped(Stamped(NewMapping([k1, k2], created), k1, t1), k2, t2);
    assert m.keys.Keys == {k1, k2};
    assert m.keys[k1] == t1 && m.keys[k2] == t2;
  }

  /** Adding keeps the action list duplicate-free and puts the action in it; if it was
      already there nothing changes, otherwise it is appended. */
  lemma WithActionSpec(m: Mapping, action: string)
    requires NoDup(m.actions)
    ensures NoDup(WithAction(m, action).actions)
    ensures action in WithAction(m, action).actions
    ensures action in m.actions ==> WithAction(m, action) == m
    ensures action !in m.actions ==> WithAction(m, action).actions == m.actions + [action]
    ensures WithAction(m, action).keys == m.keys
  {
  }

  /** Removing a present action drops exactly its one occurrence and keeps the others in
      their order; an absent action changes nothing. */
  lemma WithoutActionSpec(m: Mapping, action: string)
    requires NoDup(m.actions)
    ensures NoDup(WithoutAction(m, action).actions)
    ensures action !in WithoutAction(m, action).actions
    ensures forall i :: 0 <= i < |m.actions| && m.actions[i] == action ==>
              WithoutAction(m, action).actions == m.actions[..i] + m.actions[i + 1..]
    ensures action !in m.actions ==> WithoutAction(m, action) == m
    ensures WithoutAction(m, action).keys == m.keys
  {
    WithoutNoDup(m.actions, action);
    forall i | 0 <= i < |m.actions| && m.actions[i] == action
      ensures WithoutAction(m, action).actions == m.actions[..i] + m.actions[i + 1..]
    {
      WithoutAt(m.actions, i);
    }
  }

  /** The group of one key sequence, updated in place. */
  class ActionMapping {
    var actions: seq<string>
    var keys: map<KeyCode, int>

    function View(): Mapping
      reads this
    {
      Mapping(actions, keys)
    }

    /** `ActionMapping::new`: fills the key map one key at a time. */
    constructor (keyCodes: seq<KeyCode>, now: int)
      ensures View() == NewMapping(keyCodes, now)
    {
      var hm: map<KeyCode, int> := map[];
      for i := 0 to |keyCodes|
        invariant hm == map k | k in keyCodes[..i] :: now - NeverPressedOffset
      {
        assert keyCodes[..i + 1] == keyCodes[..i] + [keyCodes[i]];
        hm := hm[keyCodes[i] := now - NeverPressedOffset];
      }
      assert keyCodes[..|keyCodes|] == keyCodes;
      actions := [];
      keys := hm;
    }

    /** Callers only press keys of the group; `press_key` in `hotkey_listener.rs` panics
        otherwise. */
    method PressKey(key: KeyCode, now: int)
      requires key in keys
      modifies this
      ensures View() == Stamped(old(View()), key, now)
    {
      keys := keys[key := now];
    }

    predicate IsPressed(minElapsedTime: nat, now: int)
      reads this
    {
      Pressed(View(), minElapsedTime, now)
    }

    method AddAction(action: string) returns (r: Outcome)
      modifies this
      ensures r == if action in old(actions) then Failure(ActionAlreadyExists) else Success
      ensures View() == WithAction(old(View()), action)
    {
      if action in actions {
        return Failure(ActionAlreadyExists);
      }
      actions := actions + [action];
      return Success;
    }

    method RemoveAction(action: string) returns (r: Outcome)
      modifies this
      ensures r == if action in old(actions) then Success else Failure(ActionDoesNotExist(MapType.ActionMapping))
      ensures View() == if action in old(actions) then WithoutAction(old(View()), action) else old(View())
    {
      if action !in actions {
        return Failure(ActionDoesNotExist(MapType.ActionMapping));
      }
      actions := Without(actions, action);
      return Success;
    }
  }
}
