/** The listener's state as a value and its operations as functions of that value: what
    `register_action`, `unregister_action`, `poll` and `get_action_names` of
    `HotkeyListener` compute. The class `Listener.HotkeyListener` is proved to follow these. */
module Engine {
  import opened HotkeyTypes
  import opened KeyNames
  import opened Canonical
  import opened ActionGroup

  /** The trigger window a new listener starts with: 0.2 seconds. */
  const DefaultWindow: nat := 200

  /** Everything the listener owns:
      `groups`  — the fingerprint to group table (`actions` in `hotkey_listener.rs`);
      `reverse` — each hooked key to the fingerprints that use it (`reverse_lookup`);
      `hooked`  — the keys the OS hook currently has a callback for;
      `pending` — the key events the callbacks have sent and `poll` has not yet received;
      `emitted` — every action name sent to the downstream sink, oldest first;
      `window`  — `min_elapsed_time`, in ticks. */
  datatype Tables = Tables(
    groups: map<Fingerprint, Mapping>,
    reverse: map<KeyCode, seq<Fingerprint>>,
    hooked: set<KeyCode>,
    pending: seq<KeyCode>,
    emitted: seq<string>,
    window: nat)

  /** A new listener: nothing bound, nothing hooked, nothing received or sent. */
  function Empty(): Tables
  {
    Tables(map[], map[], {}, [], [], DefaultWindow)
  }

  /** A group keyed by `f` stamps exactly the keys of `f` and holds at least one action,
      none twice. */
  ghost predicate WellFormedGroup(f: Fingerprint, m: Mapping)
  {
    m.keys.Keys == (set k | k in f) && NoDup(m.actions) && m.actions != []
  }

  /** What every operation keeps, whatever the hook does: every group is well formed and
      every fingerprint listed for a key names a live group that contains that key, once.
      This is what rules out the panics of `press_key` and `poll`. */
  ghost predicate Coherent(t: Tables)
  {
    && (forall f :: f in t.groups ==> WellFormedGroup(f, t.groups[f]))
    && (forall k :: k in t.reverse ==> NoDup(t.reverse[k]))
    && (forall k, f :: k in t.reverse && f in t.reverse[k] ==> f in t.groups && k in f)
  }

  /** What successful operations also keep: every key of every group is indexed, no key
      keeps an empty list, and the hooked keys are exactly the indexed keys. */
  ghost predicate Complete(t: Tables)
  {
    && (forall f, k :: f in t.groups && k in f ==> k in t.reverse && f in t.reverse[k])
    && (forall k :: k in t.reverse ==> t.reverse[k] != [])
    && t.hooked == t.reverse.Keys
  }

  ghost predicate Valid(t: Tables)
  {
    Coherent(t) && Complete(t)
  }

  // ---------------------------------------------------------------- register_action

  /** One pass of the key loop of `register_action`: list the fingerprint under `key`,
      installing the hook first when the key has no entry yet. */
  function RegisterKey(t: Tables, fp: Fingerprint, key: KeyCode, installOk: KeyCode -> bool): (Outcome, Tables)
  {
    if key in t.reverse then
      if fp in t.reverse[key] then (Success, t)
      else (Success, t.(reverse := t.reverse[key := t.reverse[key] + [fp]]))
    else if installOk(key) then
      (Success, t.(reverse := t.reverse[key := [fp]], hooked := t.hooked + {key}))
    else
      (Failure(CannotRegisterHotkey), t)
  }

  /** The key loop of `register_action`; it stops at the first hook that fails to install. */
  function RegisterKeys(t: Tables, fp: Fingerprint, keys: seq<KeyCode>, installOk: KeyCode -> bool): (Outcome, Tables)
    decreases |keys|
  {
    if keys == [] then (Success, t)
    else
      var (o, t1) := RegisterKey(t, fp, keys[0], installOk);
      if o.Success? then RegisterKeys(t1, fp, keys[1..], installOk) else (o, t1)
  }

  /** `register_action(name, keyNames)`. `installOk(k)` says whether the OS hook accepts a
      callback for `k`; `now` is the tick a new group is created at. */
  function Register(t: Tables, parse: string -> Option<KeyCode>, installOk: KeyCode -> bool,
                    name: string, keyNames: seq<string>, now: int): (Outcome, Tables)
  {
    match Canonicalize(parse, keyNames)
    case Err(e) => (Failure(e), t)
    case Ok(kc) =>
      if kc in t.groups && name in t.groups[kc].actions then (Failure(ActionAlreadyExists), t)
      else
        var m := if kc in t.groups then t.groups[kc] else NewMapping(kc, now);
        RegisterKeys(t.(groups := t.groups[kc := WithAction(m, name)]), kc, kc, installOk)
  }

  // -------------------------------------------------------------- unregister_action

  /** The first key loop of `unregister_action`: drop the fingerprint from each key's list
      and collect, in order, the keys whose list became empty (a key listed twice is
      collected twice). A key without an entry is the `unreachable!()` at
      line 235 of `hotkey_listener.rs`. */
  function DetachKeys(t: Tables, fp: Fingerprint, keys: seq<KeyCode>, emptied: seq<KeyCode>): (Outcome, Tables, seq<KeyCode>)
    decreases |keys|
  {
    if keys == [] then (Success, t, emptied)
    else if keys[0] !in t.reverse then (Panic(KeyMissingFromReverseLookup), t, emptied)
    else
      var v := Without(t.reverse[keys[0]], fp);
      DetachKeys(t.(reverse := t.reverse[keys[0] := v]), fp, keys[1..],
                 if v == [] then emptied + [keys[0]] else emptied)
  }

  /** The second key loop: remove each collected key's entry, then uninstall its hook. A
      key collected twice no longer has an entry the second time: the `unreachable!()` at
      line 245 of `hotkey_listener.rs`. An uninstall that fails stops the loop after the
      entry is gone. */
  function UnhookKeys(t: Tables, keys: seq<KeyCode>, uninstallOk: KeyCode -> bool): (Outcome, Tables)
    decreases |keys|
  {
    if keys == [] then (Success, t)
    else if keys[0] !in t.reverse then (Panic(EmptyKeyAlreadyRemoved), t)
    else
      var t1 := t.(reverse := t.reverse - {keys[0]});
      if uninstallOk(keys[0]) then UnhookKeys(t1.(hooked := t1.hooked - {keys[0]}), keys[1..], uninstallOk)
      else (Failure(CannotUnregisterHotkey), t1)
  }

  /** `unregister_action(name, keyNames)`. `uninstallOk(k)` says whether the OS hook
      accepts removing the callback for `k`. */
  function Unregister(t: Tables, parse: string -> Option<KeyCode>, uninstallOk: KeyCode -> bool,
                      name: string, keyNames: seq<string>): (Outcome, Tables)
  {
    match Canonicalize(parse, keyNames)
    case Err(e) => (Failure(e), t)
    case Ok(kc) =>
      if kc !in t.groups then (Failure(ActionDoesNotExist(Actions)), t)
      else if name !in t.groups[kc].actions then (Failure(ActionDoesNotExist(MapType.ActionMapping)), t)
      else
        var m := WithoutAction(t.groups[kc], name);
        if m.actions != [] then (Success, t.(groups := t.groups[kc := m]))
        else
          var (o, t1, emptied) := DetachKeys(t.(groups := t.groups - {kc}), kc, kc, []);
          if o.Success? then UnhookKeys(t1, emptied, uninstallOk) else (o, t1)
  }

  // --------------------------------------------------------------------------- poll

  /** One pass of the group loop of `poll`: stamp `key` in the group of `f` and, when the
      group is then fully pressed, send its actions in their stored order. No group gains
      or loses a key. */
  function PressGroup(t: Tables, key: KeyCode, f: Fingerprint, now: int): (r: Tables)
    requires f in t.groups && key in t.groups[f].keys
    ensures r.groups.Keys == t.groups.Keys
    ensures forall g :: g in t.groups ==> r.groups[g].keys.Keys == t.groups[g].keys.Keys
  {
    var m := Stamped(t.groups[f], key, now);
    t.(groups := t.groups[f := m],
       emitted := t.emitted + if Pressed(m, t.window, now) then m.actions else [])
  }

  /** The group loop of `poll` for a received `key`, over the listed fingerprints. */
  function PressGroups(t: Tables, key: KeyCode, fps: seq<Fingerprint>, now: int): Tables
    requires forall f :: f in fps ==> f in t.groups && key in t.groups[f].keys
    decreases |fps|
  {
    if fps == [] then t
    else PressGroups(PressGroup(t, key, fps[0], now), key, fps[1..], now)
  }

  /** `poll` at tick `now`: receive at most one key event and evaluate the groups it is in. */
  function Poll(t: Tables, now: int): Tables
    requires Coherent(t)
  {
    if t.pending == [] then t
    else
      var key := t.pending[0];
      var t1 := t.(pending := t.pending[1..]);
      if key !in t1.reverse then t1
      else PressGroups(t1, key, t1.reverse[key], now)
  }

  // --------------------------------------------------------------- get_action_names

  /** The action lists of all groups, concatenated in some order of the table (a hash
      map's iteration order is unspecified). */
  ghost function AllActions(groups: map<Fingerprint, Mapping>): (r: seq<string>)
    ensures forall a :: a in r <==> exists f :: f in groups && a in groups[f].actions
    decreases |groups|
  {
    if groups == map[] then []
    else
      var f :| f in groups;
      var rest := groups - {f};
      assert rest.Keys == groups.Keys - {f};
      assert |rest| < |groups| by {
        assert |rest.Keys| < |groups.Keys|;
      }
      var r := groups[f].actions + AllActions(rest);
      assert forall a :: (exists g :: g in groups && a in groups[g].actions) ==> a in r by {
        forall a | exists g :: g in groups && a in groups[g].actions ensures a in r {
          var g :| g in groups && a in groups[g].actions;
          if g != f {
            assert g in rest && rest[g] == groups[g];
          }
        }
      }
      r
  }

  /** `get_action_names`: collect, sort, drop adjacent repeats. Whatever order the table
      yields, the result is strictly ascending and names exactly the bound actions. */
  ghost function ActionNames(t: Tables): (r: seq<string>)
    ensures StrictlySorted(r)
    ensures forall a :: a in r <==> exists f :: f in t.groups && a in t.groups[f].actions
  {
    var all := AllActions(t.groups);
    var sorted := SortNames(all);
    assert forall a :: a in sorted <==> a in all by {
      forall a ensures a in sorted <==> a in all {
        assert a in sorted <==> a in multiset(sorted);
        assert a in all <==> a in multiset(all);
      }
    }
    Dedup(sorted)
  }

  /** `get_key_names`, as key codes: every key with a reverse-lookup entry. In a valid
      state these are the hooked keys and exactly the keys some group uses. */
  function BoundKeys(t: Tables): (r: set<KeyCode>)
    ensures Valid(t) ==> r == t.hooked
    ensures Valid(t) ==> forall k :: k in r <==> exists f :: f in t.groups && k in f
  {
    assert Valid(t) ==> forall k :: k in t.reverse ==> exists f :: f in t.groups && k in f by {
      if Valid(t) {
        forall k | k in t.reverse ensures exists f :: f in t.groups && k in f {
          var f := t.reverse[k][0];
          assert f in t.reverse[k];
        }
      }
    }
    t.reverse.Keys
  }
}
