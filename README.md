# viraction hotkey engine, in Dafny

This project models the hotkey sequence engine of viraction (`src/hotkey_listener.rs`).

- A **key sequence** is a list of key names. It is canonicalised by sorting the names and parsing each one into a key code. The resulting code list is the sequence's fingerprint.
- Each fingerprint owns a **group** (`ActionMapping`). A group holds:
  - an ordered list of action names with no repeats;
  - the time each of its keys was last pressed.
- The **listener** (`HotkeyListener`) owns:
  - the fingerprint-to-group table;
  - a reverse index from each key to the fingerprints that use it;
  - the set of keys the OS hook has a callback for;
  - the trigger window;
  - the queue of key events sent by the hook callbacks;
  - the sink that receives action names.
- **`register_action`** and **`unregister_action`** keep the table, the reverse index and the hooks consistent.
- **`poll`** receives one key event and stamps that key in every group that lists it. It then emits, in stored order, the actions of every group whose keys were all pressed within the window.

The model has three layers:

- **Value functions (`Engine`).** The listener's state is the value `Engine.Tables`. Each operation is a function of that value.
  - There are two invariants. `Coherent` holds on every path that does not panic, including partial failures of the hook. `Complete` is kept by every success that starts from a `Complete` state. A success can start from a partial state that a hook failure left behind, and such a state stays incomplete.
  - `RegisterProps`, `UnregisterProps` and `PollProps` prove what each operation guarantees.
- **Classes with loops.**
  - `ActionGroup.ActionMapping` and `Listener.HotkeyListener` are classes whose fields are updated in place, keeping the loops of the source.
  - Each method ensures that its result and its new state are what the corresponding `Engine` function computes from the old state.
  - Each method also ensures that the class invariant `Sound` is kept (unless it panics), and that a success from a `Valid` state ends `Valid`.
- **Concrete runs (`Scenarios`).**
  - a two-key chord that fires only inside the window;
  - a key named twice, which later panics on unregistration;
  - a registration whose second hook fails, leaving a partial state that later panics on unregistration.

Abstractions:

- **Time** is an integer tick count of one millisecond, passed in as `now`. The "never pressed" offset is 60 000 ticks; the default window is 200 ticks.
- **`KeyCode::from_str`** is an uninterpreted parameter `parse: string -> Option<KeyCode>`.
- **The OS hook** is the set `hooked`, plus oracles `installOk` and `uninstallOk` that say whether a register or unregister call succeeds.
- **The event channel** is the sequence `pending`. `HotkeyListener.KeyEvent` models the callback that appends a key to it.
- **The sink** is the sequence `emitted`.
- **The two `unreachable!()` panics** that some inputs really reach (lines 235 and 245) are modelled as `Outcome.Panic`. Of the other three, lines 61 and 286 are excluded by the invariant `Sound`, which the methods that reach them require. Line 224 is left out because the group was found in the table just before (line 204), so removing it cannot fail.

## Model

| member | source | states |
|---|---|---|
| HotkeyTypes.Without | src/hotkey_listener.rs:95 | `retain` keeping the elements other than `x`: the result holds exactly the other elements, is no longer, and equals the input when `x` is absent |
| HotkeyTypes.WithoutAt | src/hotkey_listener.rs:95 | in a list without repeats, removing the element at `i` is deleting position `i`, so the others keep their order |
| HotkeyTypes.WithoutNoDup | src/hotkey_listener.rs:95 | removing an element keeps a list free of repeats |
| HotkeyTypes.CountNoDup | src/hotkey_listener.rs:170-171 | in a list without repeats (like each reverse-index vector) a member occurs exactly once |
| KeyNames.NameLe | src/hotkey_listener.rs:337 | the order `sort` uses on `String`: character by character, a prefix first (code-point order, which equals Rust's byte-wise UTF-8 order); the next three rows prove it a total order |
| KeyNames.NameLeTotal | src/hotkey_listener.rs:337 | string order is total |
| KeyNames.NameLeAntisymmetric | src/hotkey_listener.rs:337 | string order is antisymmetric |
| KeyNames.NameLeTransitive | src/hotkey_listener.rs:337 | string order is transitive |
| KeyNames.SortNames | src/hotkey_listener.rs:337 | `keys.sort()`: the result is a permutation of the names and is sorted |
| KeyNames.SortedUnique | src/hotkey_listener.rs:315 | two sorted permutations of the same names are equal, so `sort_unstable` and `sort` agree |
| KeyNames.SortNamesOrderIndependent | src/hotkey_listener.rs:336-337 | sorting any rearrangement of the names gives the same list |
| KeyNames.Dedup | src/hotkey_listener.rs:316 | `dedup` keeps exactly the same elements, and a sorted input gives a strictly ascending output |
| Canonical.ParseAll | src/hotkey_listener.rs:339-345 | the parse succeeds iff every name parses; on success code `i` is the parse of name `i` |
| Canonical.Canonicalize | src/hotkey_listener.rs:335-350 | `BadKeyCodeName` iff some name does not parse; otherwise one code per name, and a code occurs iff some name parses to it |
| Canonical.CanonicalizeOrderIndependent | src/hotkey_listener.rs:333-337 | any permutation of the key names gives the same fingerprint or the same error |
| Canonical.CanonicalizeRepeatsName | src/hotkey_listener.rs:335-350 | a name listed twice yields a fingerprint with a repeated key code |
| ActionGroup.NewMapping | src/hotkey_listener.rs:43-54 | `ActionMapping::new` at tick `now`: no actions, and every listed key last pressed 60 000 ticks before `now` |
| ActionGroup.Stamped | src/hotkey_listener.rs:58-63 | `press_key`: the pressed key's time becomes `now` |
| ActionGroup.Pressed | src/hotkey_listener.rs:68-76 | `is_pressed`: no key's age at `now` exceeds the window (the loop returns `false` at the first key that does) |
| ActionGroup.WithAction | src/hotkey_listener.rs:79-87 | `add_action` on success: the action is appended; an action already present leaves the group as it is |
| ActionGroup.WithoutAction | src/hotkey_listener.rs:90-98 | `remove_action`'s `retain`: every occurrence of the action is dropped, the others keep their order; the keys are untouched |
| ActionGroup.NewMappingNotPressed | src/hotkey_listener.rs:43-54 | a new group has exactly the given keys and no actions, and is not pressed at any later tick for any window shorter than 60 s |
| ActionGroup.StampedChangesOnlyKey | src/hotkey_listener.rs:58-63 | `press_key` sets only the pressed key's time to `now`; the other times, the key set and the actions are unchanged |
| ActionGroup.PressedAfterStamp | src/hotkey_listener.rs:68-76 | right after a stamp, the group is pressed iff every other key's age is within the window |
| ActionGroup.PressedMonotone | src/hotkey_listener.rs:68-76 | widening the window never un-presses a group |
| ActionGroup.TwoKeyChord | src/hotkey_listener.rs:43-76 | two keys pressed at `t1 <= t2` after creation: the group is pressed at `t2` iff `t2 - t1` is at most the window |
| ActionGroup.WithActionSpec | src/hotkey_listener.rs:79-87 | adding keeps the list free of repeats and contains the action; a present action changes nothing, an absent one is appended |
| ActionGroup.WithoutActionSpec | src/hotkey_listener.rs:90-98 | removing keeps the list free of repeats and drops the action; the others keep their order; an absent action changes nothing |
| ActionGroup.ActionMapping.constructor | src/hotkey_listener.rs:43-54 | the loop fills the key map so the group equals `NewMapping(keys, now)` |
| ActionGroup.ActionMapping.PressKey | src/hotkey_listener.rs:58-63 | the group becomes `Stamped(old, key, now)`; its precondition is the invariant that rules out line 61 |
| ActionGroup.ActionMapping.IsPressed | src/hotkey_listener.rs:68-76 | `is_pressed` on the object: `Pressed` of its current value |
| ActionGroup.ActionMapping.AddAction | src/hotkey_listener.rs:79-87 | `ActionAlreadyExists` iff the action is present; the new value is `WithAction(old, action)` |
| ActionGroup.ActionMapping.RemoveAction | src/hotkey_listener.rs:90-98 | `ActionDoesNotExist(ActionMapping)` iff the action is absent, in which case nothing changes; otherwise the new value is `WithoutAction(old, action)` |
| Engine.Empty | src/hotkey_listener.rs:128-142 | the tables of a new listener: no groups, no reverse-lookup entries, nothing hooked, queued or sent, and a 200-tick window |
| Engine.RegisterKey | src/hotkey_listener.rs:168-188 | one pass of the key loop: an indexed key gets `fp` appended unless already listed; an unindexed key is hooked and gets `[fp]` if the install succeeds, otherwise `CannotRegisterHotkey` with nothing changed |
| Engine.RegisterKeys | src/hotkey_listener.rs:167-189 | the key loop: `RegisterKey` for each key in order, stopping at the first failure with what the earlier keys did kept |
| Engine.Register | src/hotkey_listener.rs:149-192 | `register_action`: a canonicalisation error; else `ActionAlreadyExists` if the group has the action; else the action goes into the group (made at `now` if missing) and the key loop runs |
| Engine.DetachKeys | src/hotkey_listener.rs:227-237 | the first key loop of `unregister_action`: drop `fp` from each key's list, collect in order the keys whose list became empty; a key with no entry panics (line 235) |
| Engine.UnhookKeys | src/hotkey_listener.rs:239-247 | the second key loop: for each collected key remove its entry, then uninstall its hook; a missing entry panics (line 245), a failed uninstall returns `CannotUnregisterHotkey` with that entry already gone |
| Engine.Unregister | src/hotkey_listener.rs:196-250 | `unregister_action`: a canonicalisation error; no group; the action not in the group; else remove it, and when the group is then empty delete it and run both key loops |
| Engine.PressGroup | src/hotkey_listener.rs:274-285 | one pass of the group loop adds or removes no group and no key of any group |
| Engine.PressGroups | src/hotkey_listener.rs:273-288 | the group loop of `poll`: `PressGroup` for each listed fingerprint, in stored order |
| Engine.Poll | src/hotkey_listener.rs:255-292 | `poll`: an empty queue changes nothing; otherwise one key is taken; a key with no entry is dropped, else the group loop runs over its listed fingerprints |
| Engine.AllActions | src/hotkey_listener.rs:308-313 | the flattened action lists, in some order of the table, contain an action iff some group holds it |
| Engine.ActionNames | src/hotkey_listener.rs:307-319 | whatever the table order, `get_action_names` is strictly ascending and holds exactly the bound actions |
| Engine.BoundKeys | src/hotkey_listener.rs:324-330 | in a valid state the keys of the reverse index are the hooked keys, and exactly the keys some group uses |
| RegisterProps.RegisterKeysFrame | src/hotkey_listener.rs:167-189 | the key loop touches only the index and the hooks; both only grow, only along the loop's keys; a failure names an unindexed key whose hook would not install |
| RegisterProps.RegisterKeysReverse | src/hotkey_listener.rs:167-189 | the key loop keeps every listed fingerprint, leaves keys outside the loop alone, and only ever adds `fp` |
| RegisterProps.RegisterKeysCoherent | src/hotkey_listener.rs:167-189 | the key loop keeps `Coherent`: `fp` is never listed twice under a key |
| RegisterProps.RegisterKeysComplete | src/hotkey_listener.rs:167-189 | a key loop that runs to the end indexes and hooks every key of `fp` |
| RegisterProps.RegisterKeysSucceeds | src/hotkey_listener.rs:174-185 | the key loop cannot fail when every key has an entry or its hook installs |
| RegisterProps.RegisterBadKeyName | src/hotkey_listener.rs:150-153 | a name that does not parse fails with `BadKeyCodeName` and changes nothing |
| RegisterProps.RegisterAlreadyBound | src/hotkey_listener.rs:155-159 | an action already bound to the same keys fails with `ActionAlreadyExists` and changes nothing |
| RegisterProps.RegisterKeepsCoherent | src/hotkey_listener.rs:149-192 | whatever the hooks do, registration keeps `Coherent`, leaves the queue, sink and window alone, and changes only the requested group |
| RegisterProps.RegisterBindsAction | src/hotkey_listener.rs:155-166 | once past the error checks (success, or a hook failure part-way) the group exists, stamps exactly the parsed keys, and has the action appended |
| RegisterProps.RegisterSucceeds | src/hotkey_listener.rs:149-192 | success keeps `Valid`; every key of the fingerprint is hooked with the fingerprint listed exactly once; the newly hooked keys are the request's keys |
| RegisterProps.KeyLoopSucceeds | src/hotkey_listener.rs:167-191 | a key loop that runs to the end from a state indexed except for `fp` ends valid, with `fp` listed once per key |
| RegisterProps.RegisterStartIndexed | src/hotkey_listener.rs:155-167 | after the group step, the state is complete except for the new fingerprint's keys |
| RegisterProps.RegisterSucceedsWhenHooksInstall | src/hotkey_listener.rs:149-192 | registration succeeds whenever the names parse, the action is not yet bound, and every new key's hook installs |
| RegisterProps.RegisterTwice | src/hotkey_listener.rs:155-159 | from any state, including a partial one: once a registration succeeds, registering the same action to the same keys again fails with `ActionAlreadyExists` and changes nothing |
| UnregisterProps.EmptiedKeys | src/hotkey_listener.rs:227-237 | the collected keys are exactly the loop's keys whose list is empty once `fp` is dropped |
| UnregisterProps.EmptiedKeysNoDup | src/hotkey_listener.rs:232 | a key list without repeats collects no key twice |
| UnregisterProps.DetachKeysFrame | src/hotkey_listener.rs:227-237 | the first loop touches only the reverse-index lists; it adds or removes no entry |
| UnregisterProps.DetachKeysOutcome | src/hotkey_listener.rs:227-237 | the first loop succeeds iff every key has an entry; otherwise it panics on the missing entry (line 235) |
| UnregisterProps.DetachKeysReverse | src/hotkey_listener.rs:228-233 | after the first loop, each of the loop's keys lists its old fingerprints minus `fp`; other keys are untouched |
| UnregisterProps.DetachKeysEmptied | src/hotkey_listener.rs:231-233 | the first loop collects exactly `EmptiedKeys`, in order |
| UnregisterProps.UnhookKeysFrame | src/hotkey_listener.rs:239-247 | the second loop only removes entries and hooks |
| UnregisterProps.UnhookKeysSuccess | src/hotkey_listener.rs:239-249 | a second loop that runs to the end removes exactly the collected keys' entries and hooks |
| UnregisterProps.UnhookKeysFailure | src/hotkey_listener.rs:240-244 | a failed uninstall stops at the first failing key: earlier keys lose their entry and hook, the failing key only its entry, later keys neither |
| UnregisterProps.UnhookKeysMissing | src/hotkey_listener.rs:240-245 | a collected key without an entry, reached with every earlier uninstall succeeding, is the panic of line 245 |
| UnregisterProps.UnhookKeysNoPanic | src/hotkey_listener.rs:239-247 | collected keys without repeats, each with an entry, never reach the panic of line 245 |
| UnregisterProps.UnregisterBadKeyName | src/hotkey_listener.rs:197-200 | a name that does not parse fails with `BadKeyCodeName` and changes nothing |
| UnregisterProps.UnregisterNoGroup | src/hotkey_listener.rs:213 | keys with no group fail with `ActionDoesNotExist(Actions)` and change nothing |
| UnregisterProps.UnregisterNotBound | src/hotkey_listener.rs:204-212 | a group without the action fails with `ActionDoesNotExist(ActionMapping)` and changes nothing |
| UnregisterProps.UnregisterKeepsGroup | src/hotkey_listener.rs:204-218 | removing one of several actions succeeds, leaves the others in order, does not touch the index or the hooks, and keeps `Valid` |
| UnregisterProps.LastActionRemoved | src/hotkey_listener.rs:207 | the list is empty after removal iff the action was the only one |
| UnregisterProps.UnregisterKeepsCoherent | src/hotkey_listener.rs:196-250 | whatever the hooks do, an unregistration that does not panic keeps `Coherent`, and the queue, sink and window never change |
| UnregisterProps.UnregisterNoPanic | src/hotkey_listener.rs:227-247 | on a valid state, keys without repeats never panic |
| UnregisterProps.UnregisterDeletesGroup | src/hotkey_listener.rs:220-249 | removing the last action deletes the group and drops its fingerprint from every list; on success exactly the keys whose list became empty lose their entry and hook, and `Valid` holds |
| UnregisterProps.UnregisterUninstallFails | src/hotkey_listener.rs:239-246 | a failed uninstall leaves the group deleted and a key still hooked without an entry |
| UnregisterProps.UnregisterKeepsValid | src/hotkey_listener.rs:196-250 | a successful unregistration keeps `Valid` |
| PollProps.Fired | src/hotkey_listener.rs:273-288 | the reference for what the group loop sends: for each listed group in order, its actions when it is pressed once `key` is stamped, computed from the groups before the loop |
| PollProps.FiredMembers | src/hotkey_listener.rs:273-288 | an action is sent iff some listed group holding it is fully pressed once the key is stamped |
| PollProps.PressGroupsFrame | src/hotkey_listener.rs:273-288 | the group loop touches only the groups and the sink, and adds or removes no group |
| PollProps.PressGroupsGroups | src/hotkey_listener.rs:273-288 | over a list without repeats, each listed group has the key stamped and every other group is unchanged |
| PollProps.PressGroupsEmitted | src/hotkey_listener.rs:273-288 | over a list without repeats, the sink receives exactly the reference sequence `Fired`, group by group, in stored order |
| PollProps.PollIdle | src/hotkey_listener.rs:256-258 | with an empty queue nothing changes |
| PollProps.PollDropsUnbound | src/hotkey_listener.rs:260-264 | an event for a key with no entry is consumed and nothing else changes |
| PollProps.PollBound | src/hotkey_listener.rs:260-289 | a bound key: one event consumed, listed groups stamped, others untouched, index, hooks and window kept, and the sink gets exactly the actions of the groups then pressed |
| PollProps.PollKeepsValid | src/hotkey_listener.rs:255-292 | `poll` keeps `Coherent` and `Complete` |
| Listener.HotkeyListener.constructor | src/hotkey_listener.rs:128-142 | a new listener is empty, valid, with the 0.2 s window |
| Listener.HotkeyListener.New | src/hotkey_listener.rs:119-143 | `HookCreate` iff the hook cannot be created; otherwise a fresh, empty, valid listener |
| Listener.HotkeyListener.AddToGroup | src/hotkey_listener.rs:155-165 | the group step of `register_action` on the objects: `ActionAlreadyExists` leaves everything unchanged; otherwise the group (made at `now` if missing) gets `WithAction` |
| Listener.HotkeyListener.AddToExistingGroup | src/hotkey_listener.rs:155-159 | the `Some` arm: `add_action` on the group object already in the table; the new table is the old with that group replaced by `WithAction`; no other group object is touched |
| Listener.HotkeyListener.AddToNewGroup | src/hotkey_listener.rs:160-164 | the `None` arm: a new group object at `now`, the action added, and the object put under the fingerprint; always `Success` |
| Listener.HotkeyListener.InsertGroup | src/hotkey_listener.rs:163 | `actions.insert`: the table gains exactly the new group under `kc`, distinct from every object already there |
| Listener.HotkeyListener.IndexGroupKeys | src/hotkey_listener.rs:167-189 | the key loop computes `Engine.RegisterKeys`: its outcome and new state |
| Listener.HotkeyListener.RegisterAction | src/hotkey_listener.rs:149-192 | result and new state are `Engine.Register` of the old state; `Sound` is kept, and success keeps `Valid` |
| Listener.HotkeyListener.RemoveFromGroup | src/hotkey_listener.rs:202-214 | the group step of `unregister_action`: both not-found errors leave everything unchanged; otherwise `WithoutAction`, reporting whether the group became empty |
| Listener.HotkeyListener.DetachGroupKeys | src/hotkey_listener.rs:227-237 | the first key loop computes `Engine.DetachKeys`, including its panic and the collected keys |
| Listener.HotkeyListener.UnhookEmptyKeys | src/hotkey_listener.rs:239-247 | the second key loop computes `Engine.UnhookKeys`, including its panic and its early failure |
| Listener.HotkeyListener.Unbind | src/hotkey_listener.rs:196-250 | the steps of `unregister_action` on the objects: result and new state are `Engine.Unregister` of the old state |
| Listener.HotkeyListener.DropGroup | src/hotkey_listener.rs:220-249 | the tail of `unregister_action` once the group is empty: the group is removed from the table, then both key loops run; the result is `DetachKeys` followed by `UnhookKeys` on the table without the group |
| Listener.HotkeyListener.UnregisterAction | src/hotkey_listener.rs:196-250 | result and new state are `Engine.Unregister` of the old state; `Sound` holds unless it panics, and success keeps `Valid` |
| Listener.HotkeyListener.PressListedGroups | src/hotkey_listener.rs:273-288 | the group loop of `poll` computes `Engine.PressGroups` |
| Listener.HotkeyListener.PressGroup | src/hotkey_listener.rs:274-285 | one pass of the group loop: the group object is stamped and, if then pressed, its actions are sent; the new state is `Engine.PressGroup` of the old |
| Listener.HotkeyListener.Send | src/hotkey_listener.rs:278-283 | the names are appended to the sink one by one, in order; nothing else changes |
| Listener.HotkeyListener.Poll | src/hotkey_listener.rs:255-292 | the new state is `Engine.Poll` of the old; `Sound` is kept, and `Valid` too |
| Listener.HotkeyListener.KeyEvent | src/hotkey_listener.rs:175-180 | a hooked key's callback appends it to the queue and changes nothing else |
| Listener.HotkeyListener.SetMinElapsedTime | src/hotkey_listener.rs:300-302 | only the window changes |
| Listener.HotkeyListener.MinElapsedTime | src/hotkey_listener.rs:295-297 | returns the window |
| Listener.HotkeyListener.ActionNameList | src/hotkey_listener.rs:307-319 | strictly ascending, and holds exactly the actions of the groups |
| Listener.HotkeyListener.KeyCodes | src/hotkey_listener.rs:324-330 | in a valid listener: the hooked keys, and exactly the keys some group uses |
| Scenarios.CanonicalAB | src/hotkey_listener.rs:335-350 | "B","A" and "A","B" both canonicalise to [A, B]; "A","A" gives [A, A] |
| Scenarios.ChordFiresWithinWindow | src/hotkey_listener.rs:149-292 | an action bound to A+B, then A at `t1` and B at `t2`: the first poll sends nothing; the second sends the action iff `t2 - t1` ≤ 200 ticks |
| Scenarios.DuplicateKeyNamePanics | src/hotkey_listener.rs:227-246 | binding to "A","A" succeeds; unbinding collects A twice and reaches the panic of line 245 |
| Scenarios.PartialRegistrationPanics | src/hotkey_listener.rs:149-250 | a second hook that fails leaves the group in place with only A indexed (`Coherent`, not `Complete`); unbinding then reaches the panic of line 235 |

## Left out

- The real clock: `Instant::now`, `Duration` and `elapsed` become integer ticks passed as `now`.
- The `f32` conversions of the window:
  - `get/set_min_elapsed_time` read and write an integer tick count.
  - The default `from_secs_f32(0.2)` is 200 ticks.
- The crossbeam channel and the cross-thread callback closure:
  - the queue is a sequence;
  - `KeyEvent` models one callback;
  - the channel's send and receive errors, which are only logged, are not modelled;
  - the `recv` error arm of `poll` is not modelled either.
- `livesplit_hotkey::Hook`: it is a foreign library. Its outcomes are the parameters `hookCreated`, `installOk` and `uninstallOk`. The library's error payload in `CannotRegisterHotkey` and `CannotUnregisterHotkey` is dropped.
- `KeyCode::from_str` is an uninterpreted parameter. `KeyCode::as_str` is not modelled, so `get_key_names` returns key codes (`KeyCodes`) rather than their names.
- `get_hash` and `DefaultHasher`: the fingerprint is the sorted code list itself, so hash collisions are not modelled.
- The `eprintln!` logging.
- Hash-map iteration order:
  - in `get_action_names` it is an unspecified choice (`AllActions`), and the result is proved independent of it;
  - in `get_key_names` the result is a set.
- `Listener.HotkeyListener.ActionNameList`: it is ghost because the table's iteration order is chosen by `:|`.
- `Listener.HotkeyListener.Poll`: it models the line-286 `unreachable!()` as excluded by `Sound`, not as a panic. The panic at line 61 is excluded by `PressKey`'s precondition in the same way.
- The `unwrap` on line 162: a new group has no actions, so it can never fail.
- `src/main.rs`, `src/scripting.rs`, `src/scripting/lua.rs`, `src/utils.rs` and `build.rs` are not part of this model. They are configuration I/O, scripting-runtime glue and a build script.
