/** The listener object `HotkeyListener`: its tables are fields updated in place, each group
    is an `ActionMapping` object, and every operation is proved to compute what the
    corresponding function of `Engine` says. */
module Listener {
  import opened HotkeyTypes
  import opened KeyNames
  import opened Canonical
  import opened ActionGroup
  import opened Engine
  import RegisterProps
  import UnregisterProps
  import PollProps

  /** The groups' current values. */
  ghost function GroupsOf(acts: map<Fingerprint, ActionMapping>): map<Fingerprint, Mapping>
    reads acts.Values
  {
    map f | f in acts :: acts[f].View()
  }

  /** No two fingerprints share one group object. */
  ghost predicate Distinct(acts: map<Fingerprint, ActionMapping>)
  {
    forall f, g :: f in acts && g in acts && f != g ==> acts[f] != acts[g]
  }

  class HotkeyListener {
    var actions: map<Fingerprint, ActionMapping>
    var reverseLookup: map<KeyCode, seq<Fingerprint>>
    /** The keys the OS hook has a callback for. */
    var hooked: set<KeyCode>
    /** `min_elapsed_time`, in ticks. */
    var minElapsedTime: nat
    /** The key events sent by the callbacks and not yet received. */
    var pending: seq<KeyCode>
    /** Everything sent to `listener_sender`, oldest first. */
    var emitted: seq<string>

    ghost function State(): Tables
      reads this, actions.Values
    {
      Tables(GroupsOf(actions), reverseLookup, hooked, pending, emitted, minElapsedTime)
    }

    /** What every operation keeps unless it panics. */
    ghost predicate Sound()
      reads this, actions.Values
    {
      Distinct(actions) && Coherent(State())
    }

    /** What successful operations also keep. */
    ghost predicate Valid()
      reads this, actions.Values
    {
      Sound() && Complete(State())
    }

    /** The listener `new` builds once the OS hook exists. */
    constructor ()
      ensures State() == Empty() && Valid()
    {
      actions := map[];
      reverseLookup := map[];
      hooked := {};
      minElapsedTime := DefaultWindow;
      pending := [];
      emitted := [];
    }

    /** `new`: fails with `HookCreate` when the OS hook cannot be created. */
    static method New(hookCreated: bool) returns (r: Result<HotkeyListener>)
      ensures r.Err? <==> !hookCreated
      ensures r.Err? ==> r.error == HookCreate
      ensures r.Ok? ==> fresh(r.value) && r.value.State() == Empty() && r.value.Valid()
    {
      if !hookCreated {
        return Err(HookCreate);
      }
      var l := new HotkeyListener();
      return Ok(l);
    }

    /** The group part of `register_action`: add the action to the group of `kc`, creating
        the group at tick `now` when there is none. */
    method AddToGroup(kc: Fingerprint, name: string, now: int) returns (o: Outcome)
      requires Distinct(actions)
      modifies this, actions.Values
      ensures Distinct(actions)
      ensures var t := old(State());
        if kc in t.groups && name in t.groups[kc].actions then
          o == Failure(ActionAlreadyExists) && State() == t
        else
          var m := if kc in t.groups then t.groups[kc] else NewMapping(kc, now);
          o == Success && State() == t.(groups := t.groups[kc := WithAction(m, name)])
    {
      if kc in actions {
        o := AddToExistingGroup(kc, name);
      } else {
        o := AddToNewGroup(kc, name, now);
      }
    }

    method AddToExistingGroup(kc: Fingerprint, name: string) returns (o: Outcome)
      requires Distinct(actions) && kc in actions
      modifies actions.Values
      ensures Distinct(actions)
      ensures var t := old(State());
        o == (if name in t.groups[kc].actions then Failure(ActionAlreadyExists) else Success)
        && State() == t.(groups := t.groups[kc := WithAction(t.groups[kc], name)])
    {
      ghost var before := GroupsOf(actions);
      var am := actions[kc];
      assert before[kc] == am.View();
      o := am.AddAction(name);
      assert forall g :: g in actions && g != kc ==> actions[g] != am;
      assert GroupsOf(actions) == before[kc := am.View()];
    }

    method AddToNewGroup(kc: Fingerprint, name: string, now: int) returns (o: Outcome)
      requires Distinct(actions) && kc !in actions
      modifies this
      ensures Distinct(actions)
      ensures var t := old(State());
        o == Success && State() == t.(groups := t.groups[kc := WithAction(NewMapping(kc, now), name)])
    {
      var am := new ActionMapping(kc, now);
      o := am.AddAction(name);
      InsertGroup(kc, am);
    }

    /** Puts a group object that is not yet in the table under `kc`. */
    method InsertGroup(kc: Fingerprint, am: ActionMapping)
      requires Distinct(actions) && kc !in actions && am !in actions.Values
      modifies this
      ensures Distinct(actions)
      ensures State() == old(State()).(groups := old(State()).groups[kc := am.View()])
    {
      ghost var before := GroupsOf(actions);
      actions := actions[kc := am];
      assert GroupsOf(actions) == before[kc := am.View()];
    }

    /** The key loop of `register_action`: list `kc` under each of its keys, installing
        the hook for a key that has no entry yet, and stop at the first hook that fails. */
    method IndexGroupKeys(kc: Fingerprint, installOk: KeyCode -> bool) returns (r: Outcome)
      modifies this
      ensures (r, State()) == RegisterKeys(old(State()), kc, kc, installOk)
      ensures actions == old(actions)
    {
      ghost var spec := RegisterKeys(State(), kc, kc, installOk);
      var i := 0;
      while i < |kc|
        invariant 0 <= i <= |kc|
        invariant actions == old(actions)
        invariant spec == RegisterKeys(State(), kc, kc[i..], installOk)
      {
        var key := kc[i];
        assert kc[i..] == [key] + kc[i + 1..];
        if key in reverseLookup {
          if kc !in reverseLookup[key] {
            reverseLookup := reverseLookup[key := reverseLookup[key] + [kc]];
          }
        } else {
          if !installOk(key) {
            return Failure(CannotRegisterHotkey);
          }
          hooked := hooked + {key};
          reverseLookup := reverseLookup[key := [kc]];
        }
        i := i + 1;
      }
      return Success;
    }

    /** `register_action(name, keyNames)`. */
    method RegisterAction(parse: string -> Option<KeyCode>, installOk: KeyCode -> bool,
                          name: string, keyNames: seq<string>, now: int) returns (r: Outcome)
      requires Sound()
      modifies this, actions.Values
      ensures (r, State()) == Register(old(State()), parse, installOk, name, keyNames, now)
      ensures Sound()
      ensures old(Valid()) && r == Success ==> Valid()
    {
      ghost var t := State();
      RegisterProps.RegisterKeepsCoherent(t, parse, installOk, name, keyNames, now);
      if Valid() && Register(t, parse, installOk, name, keyNames, now).0 == Success {
        RegisterProps.RegisterSucceeds(t, parse, installOk, name, keyNames, now);
      }
      var c := Canonicalize(parse, keyNames);
      if c.Err? {
        return Failure(c.error);
      }
      var kc := c.value;
      r := AddToGroup(kc, name, now);
      if r.Failure? {
        return;
      }
      r := IndexGroupKeys(kc, installOk);
    }
  
    /** The group part of `unregister_action`: remove the action from the group of `kc`;
        `nowEmpty` says whether that removed the group's last action. */
    method RemoveFromGroup(kc: Fingerprint, name: string) returns (o: Outcome, nowEmpty: bool)
      requires Distinct(actions)
      modifies actions.Values
      ensures Distinct(actions)
      ensures var t := old(State());
        if kc !in t.groups then
          o == Failure(ActionDoesNotExist(Actions)) && State() == t
        else if name !in t.groups[kc].actions then
          o == Failure(ActionDoesNotExist(MapType.ActionMapping)) && State() == t
        else
          var m := WithoutAction(t.groups[kc], name);
          o == Success && nowEmpty == (m.actions == []) && State() == t.(groups := t.groups[kc := m])
    {
      nowEmpty := false;
      if kc !in actions {
        return Failure(ActionDoesNotExist(Actions)), false;
      }
      ghost var before := GroupsOf(actions);
      var am := actions[kc];
      o := am.RemoveAction(name);
      assert forall g :: g in actions && g != kc ==> actions[g] != am;
      assert GroupsOf(actions) == before[kc := am.View()];
      if o.Success? {
        nowEmpty := |am.actions| < 1;
      }
    }

    /** The first key loop of `unregister_action`: drop `kc` from every key's list and
        collect the keys left with an empty list. */
    method DetachGroupKeys(kc: Fingerprint) returns (o: Outcome, emptyKeys: seq<KeyCode>)
      modifies this
      ensures (o, State(), emptyKeys) == DetachKeys(old(State()), kc, kc, [])
      ensures actions == old(actions)
    {
      ghost var spec := DetachKeys(State(), kc, kc, []);
      emptyKeys := [];
      var i := 0;
      while i < |kc|
        invariant 0 <= i <= |kc|
        invariant actions == old(actions)
        invariant spec == DetachKeys(State(), kc, kc[i..], emptyKeys)
      {
        var key := kc[i];
        assert kc[i..] == [key] + kc[i + 1..];
        if key !in reverseLookup {
          return Panic(KeyMissingFromReverseLookup), emptyKeys;
        }
        var v := Without(reverseLookup[key], kc);
        reverseLookup := reverseLookup[key := v];
        if v == [] {
          emptyKeys := emptyKeys + [key];
        }
        i := i + 1;
      }
      return Success, emptyKeys;
    }

    /** The second key loop of `unregister_action`: remove each collected key's entry and
        then its hook, stopping at the first hook that will not go. */
    method UnhookEmptyKeys(emptyKeys: seq<KeyCode>, uninstallOk: KeyCode -> bool) returns (o: Outcome)
      modifies this
      ensures (o, State()) == UnhookKeys(old(State()), emptyKeys, uninstallOk)
      ensures actions == old(actions)
    {
      ghost var spec := UnhookKeys(State(), emptyKeys, uninstallOk);
      var j := 0;
      while j < |emptyKeys|
        invariant 0 <= j <= |emptyKeys|
        invariant actions == old(actions)
        invariant spec == UnhookKeys(State(), emptyKeys[j..], uninstallOk)
      {
        var key := emptyKeys[j];
        assert emptyKeys[j..] == [key] + emptyKeys[j + 1..];
        if key !in reverseLookup {
          return Panic(EmptyKeyAlreadyRemoved);
        }
        reverseLookup := reverseLookup - {key};
        if !uninstallOk(key) {
          return Failure(CannotUnregisterHotkey);
        }
        hooked := hooked - {key};
        j := j + 1;
      }
      return Success;
    }

    /** The steps of `unregister_action(name, keyNames)`, in the order `hotkey_listener.rs`
        takes them. */
    method Unbind(parse: string -> Option<KeyCode>, uninstallOk: KeyCode -> bool,
                  name: string, keyNames: seq<string>) returns (r: Outcome)
      requires Distinct(actions)
      modifies this, actions.Values
      ensures (r, State()) == Unregister(old(State()), parse, uninstallOk, name, keyNames)
      ensures Distinct(actions)
    {
      ghost var t := State();
      var c := Canonicalize(parse, keyNames);
      if c.Err? {
        return Failure(c.error);
      }
      var kc := c.value;
      var nowEmpty;
      r, nowEmpty := RemoveFromGroup(kc, name);
      if r.Failure? || !nowEmpty {
        return;
      }
      ghost var m := WithoutAction(t.groups[kc], name);
      assert State() == t.(groups := t.groups[kc := m]) && m.actions == [];
      assert t.groups[kc := m] - {kc} == t.groups - {kc};
      ghost var d := DetachKeys(t.(groups := t.groups - {kc}), kc, kc, []);
      assert Unregister(t, parse, uninstallOk, name, keyNames)
          == if d.0.Success? then UnhookKeys(d.1, d.2, uninstallOk) else (d.0, d.1);
      r := DropGroup(kc, uninstallOk);
    }

    /** The tail of `unregister_action` once the group of `kc` has no action left: drop the
        group, then run both key loops. */
    method DropGroup(kc: Fingerprint, uninstallOk: KeyCode -> bool) returns (r: Outcome)
      modifies this
      ensures var t := old(State());
        var (o, t1, emptied) := DetachKeys(t.(groups := t.groups - {kc}), kc, kc, []);
        (r, State()) == if o.Success? then UnhookKeys(t1, emptied, uninstallOk) else (o, t1)
      ensures actions == old(actions) - {kc}
    {
      ghost var before := GroupsOf(actions);
      actions := actions - {kc};
      assert GroupsOf(actions) == before - {kc};
      var emptyKeys;
      r, emptyKeys := DetachGroupKeys(kc);
      if !r.Success? {
        return;
      }
      r := UnhookEmptyKeys(emptyKeys, uninstallOk);
    }

    /** `unregister_action(name, keyNames)`. It keeps `Sound` unless it panics, and a
        success keeps `Valid`. */
    method UnregisterAction(parse: string -> Option<KeyCode>, uninstallOk: KeyCode -> bool,
                            name: string, keyNames: seq<string>) returns (r: Outcome)
      requires Sound()
      modifies this, actions.Values
      ensures (r, State()) == Unregister(old(State()), parse, uninstallOk, name, keyNames)
      ensures r.Panic? || Sound()
      ensures old(Valid()) && r == Success ==> Valid()
    {
      ghost var t := State();
      r := Unbind(parse, uninstallOk, name, keyNames);
      UnregisterProps.UnregisterKeepsCoherent(t, parse, uninstallOk, name, keyNames);
      if Engine.Valid(t) && r == Success {
        UnregisterProps.UnregisterKeepsValid(t, parse, uninstallOk, name, keyNames);
      }
    }

    /** The group loop of `poll` for a received `key`: stamp it in each listed group and
        send the actions of each group that is then fully pressed. */
    method PressListedGroups(key: KeyCode, fps: seq<Fingerprint>, now: int)
      requires Distinct(actions)
      requires forall f :: f in fps ==> f in actions && key in actions[f].keys
      modifies this, actions.Values
      ensures State() == PressGroups(old(State()), key, fps, now)
      ensures actions == old(actions) && reverseLookup == old(reverseLookup)
    {
      ghost var spec := PressGroups(State(), key, fps, now);
      var i := 0;
      while i < |fps|
        invariant 0 <= i <= |fps|
        invariant actions == old(actions) && reverseLookup == old(reverseLookup)
        invariant forall f :: f in fps ==> f in State().groups && key in State().groups[f].keys
        invariant spec == PressGroups(State(), key, fps[i..], now)
      {
        ghost var s := State();
        assert fps[i..][0] == fps[i] && fps[i..][1..] == fps[i + 1..];
        assert spec == PressGroups(Engine.PressGroup(s, key, fps[i], now), key, fps[i + 1..], now);
        assert key in actions[fps[i]].keys by {
          assert s.groups[fps[i]] == actions[fps[i]].View();
        }
        PressGroup(key, fps[i], now);
        i := i + 1;
      }
    }

    /** One pass of the group loop of `poll`. */
    method PressGroup(key: KeyCode, f: Fingerprint, now: int)
      requires Distinct(actions) && f in actions && key in actions[f].keys
      modifies this, actions.Values
      ensures State() == Engine.PressGroup(old(State()), key, f, now)
      ensures actions == old(actions) && reverseLookup == old(reverseLookup)
    {
      ghost var before := GroupsOf(actions);
      var am := actions[f];
      am.PressKey(key, now);
      assert forall g :: g in actions && g != f ==> actions[g] != am;
      assert GroupsOf(actions) == before[f := am.View()];
      if am.IsPressed(minElapsedTime, now) {
        Send(am.actions);
      }
    }

    /** Sends the names one by one to `listener_sender`, in order. */
    method Send(names: seq<string>)
      modifies this
      ensures emitted == old(emitted) + names
      ensures actions == old(actions) && reverseLookup == old(reverseLookup) && hooked == old(hooked)
      ensures pending == old(pending) && minElapsedTime == old(minElapsedTime)
    {
      for j := 0 to |names|
        invariant emitted == old(emitted) + names[..j]
        invariant actions == old(actions) && reverseLookup == old(reverseLookup) && hooked == old(hooked)
        invariant pending == old(pending) && minElapsedTime == old(minElapsedTime)
      {
        assert names[..j + 1] == names[..j] + [names[j]];
        emitted := emitted + [names[j]];
      }
      assert names[..|names|] == names;
    }

    /** `poll` at tick `now`. It keeps `Sound` and `Valid`. */
    method Poll(now: int)
      requires Sound()
      modifies this, actions.Values
      ensures State() == Engine.Poll(old(State()), now)
      ensures Sound()
      ensures old(Valid()) ==> Valid()
    {
      ghost var t := State();
      PollProps.PollKeepsValid(t, now);
      if pending == [] {
        return;
      }
      var key := pending[0];
      pending := pending[1..];
      if key !in reverseLookup {
        return;
      }
      var fps := reverseLookup[key];
      assert forall f :: f in fps ==> f in State().groups && key in State().groups[f].keys;
      PressListedGroups(key, fps, now);
    }

    /** The hook's callback for a hooked key: the event joins the queue. */
    method KeyEvent(key: KeyCode)
      requires key in hooked
      modifies this
      ensures State() == old(State()).(pending := old(pending) + [key])
      ensures Sound() <==> old(Sound())
      ensures Valid() <==> old(Valid())
    {
      pending := pending + [key];
    }

    /** `set_min_elapsed_time`, in ticks. */
    method SetMinElapsedTime(ticks: nat)
      modifies this
      ensures State() == old(State()).(window := ticks)
      ensures Sound() <==> old(Sound())
      ensures Valid() <==> old(Valid())
    {
      minElapsedTime := ticks;
    }

    /** `get_min_elapsed_time`, in ticks. */
    function MinElapsedTime(): (r: nat)
      reads this
      ensures r == State().window
    {
      minElapsedTime
    }

    /** `get_action_names`: strictly ascending, and exactly the bound actions. */
    ghost function ActionNameList(): (r: seq<string>)
      reads this, actions.Values
      ensures StrictlySorted(r)
      ensures forall a :: a in r <==> exists f :: f in actions && a in actions[f].actions
    {
      assert forall f :: f in actions ==> State().groups[f] == actions[f].View();
      ActionNames(State())
    }

    /** `get_key_names`, as key codes: in a valid listener these are the hooked keys and
        exactly the keys some group uses. */
    function KeyCodes(): (r: set<KeyCode>)
      reads this, actions.Values
      ensures Valid() ==> r == hooked
      ensures Valid() ==> forall k :: k in r <==> exists f :: f in actions && k in f
    {
      assert BoundKeys(State()) == reverseLookup.Keys;
      reverseLookup.Keys
    }
  }
}
