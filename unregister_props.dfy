/** What `unregister_action` guarantees, proved about `Engine.Unregister`. */
module UnregisterProps {
  import opened HotkeyTypes
  import opened Canonical
  import opened ActionGroup
  import opened Engine

  /** The keys of `keys`, in order and with repeats, whose list loses its last fingerprint
      when `fp` is dropped from it. */
  function EmptiedKeys(reverse: map<KeyCode, seq<Fingerprint>>, fp: Fingerprint, keys: seq<KeyCode>): (r: seq<KeyCode>)
    ensures forall k :: k in r <==> k in keys && k in reverse && Without(reverse[k], fp) == []
    decreases |keys|
  {
    if keys == [] then []
    else
      var rest := EmptiedKeys(reverse, fp, keys[1..]);
      assert keys == [keys[0]] + keys[1..];
      if keys[0] in reverse && Without(reverse[keys[0]], fp) == [] then [keys[0]] + rest else rest
  }

  lemma {:induction false} EmptiedKeysAgree(r1: map<KeyCode, seq<Fingerprint>>, r2: map<KeyCode, seq<Fingerprint>>,
                                            fp: Fingerprint, keys: seq<KeyCode>)
    requires forall k :: k in keys ==> (k in r1 <==> k in r2)
    requires forall k :: k in keys && k in r1 ==> Without(r1[k], fp) == Without(r2[k], fp)
    ensures EmptiedKeys(r1, fp, keys) == EmptiedKeys(r2, fp, keys)
    decreases |keys|
  {
    if keys != [] {
      EmptiedKeysAgree(r1, r2, fp, keys[1..]);
    }
  }

  lemma {:induction false} EmptiedKeysNoDup(reverse: map<KeyCode, seq<Fingerprint>>, fp: Fingerprint, keys: seq<KeyCode>)
    requires NoDup(keys)
    ensures NoDup(EmptiedKeys(reverse, fp, keys))
    decreases |keys|
  {
    if keys != [] {
      assert keys == [keys[0]] + keys[1..];
      assert NoDup(keys[1..]);
      EmptiedKeysNoDup(reverse, fp, keys[1..]);
      assert keys[0] !in keys[1..];
    }
  }

  /** The first loop never touches the groups, the hooks, the queue, the sink or the
      window, and never adds or removes an entry. */
  lemma {:induction false} DetachKeysFrame(t: Tables, fp: Fingerprint, keys: seq<KeyCode>, emptied: seq<KeyCode>)
    ensures var r := DetachKeys(t, fp, keys, emptied);
      && r.1.groups == t.groups && r.1.hooked == t.hooked
      && r.1.pending == t.pending && r.1.emitted == t.emitted && r.1.window == t.window
      && r.1.reverse.Keys == t.reverse.Keys
    decreases |keys|
  {
    if keys != [] && keys[0] in t.reverse {
      var v := Without(t.reverse[keys[0]], fp);
      DetachKeysFrame(t.(reverse := t.reverse[keys[0] := v]), fp, keys[1..], if v == [] then emptied + [keys[0]] else emptied);
    }
  }

  /** The first loop panics exactly when some key has no entry. */
  lemma {:induction false} DetachKeysOutcome(t: Tables, fp: Fingerprint, keys: seq<KeyCode>, emptied: seq<KeyCode>)
    ensures var o := DetachKeys(t, fp, keys, emptied).0;
      && (o.Success? <==> forall k :: k in keys ==> k in t.reverse)
      && (!o.Success? ==> o == Panic(KeyMissingFromReverseLookup))
    decreases |keys|
  {
    if keys != [] && keys[0] in t.reverse {
      var v := Without(t.reverse[keys[0]], fp);
      var t1 := t.(reverse := t.reverse[keys[0] := v]);
      DetachKeysOutcome(t1, fp, keys[1..], if v == [] then emptied + [keys[0]] else emptied);
      assert keys == [keys[0]] + keys[1..];
    }
  }

  /** When the first loop completes, every key it visited has lost `fp` from its list and
      every other entry is as it was. */
  lemma {:induction false} DetachKeysReverse(t: Tables, fp: Fingerprint, keys: seq<KeyCode>, emptied: seq<KeyCode>)
    requires DetachKeys(t, fp, keys, emptied).0.Success?
    ensures var t' := DetachKeys(t, fp, keys, emptied).1;
      forall k :: k in t.reverse ==>
        k in t'.reverse && t'.reverse[k] == if k in keys then Without(t.reverse[k], fp) else t.reverse[k]
    decreases |keys|
  {
    if keys != [] {
      var k0 := keys[0];
      var v := Without(t.reverse[k0], fp);
      var t1 := t.(reverse := t.reverse[k0 := v]);
      DetachKeysReverse(t1, fp, keys[1..], if v == [] then emptied + [k0] else emptied);
      assert keys == [k0] + keys[1..];
      var t' := DetachKeys(t, fp, keys, emptied).1;
      assert t'.reverse[k0] == Without(t.reverse[k0], fp) by {
        if k0 in keys[1..] {
          assert fp !in v;
        }
      }
    }
  }

  /** When the first loop completes, it has collected exactly the keys whose list lost its
      last fingerprint, in order. */
  lemma {:induction false} DetachKeysEmptied(t: Tables, fp: Fingerprint, keys: seq<KeyCode>, emptied: seq<KeyCode>)
    requires DetachKeys(t, fp, keys, emptied).0.Success?
    ensures DetachKeys(t, fp, keys, emptied).2 == emptied + EmptiedKeys(t.reverse, fp, keys)
    decreases |keys|
  {
    if keys != [] {
      var k0 := keys[0];
      var v := Without(t.reverse[k0], fp);
      var t1 := t.(reverse := t.reverse[k0 := v]);
      var e1 := if v == [] then emptied + [k0] else emptied;
      DetachKeysEmptied(t1, fp, keys[1..], e1);
      assert fp !in v;
      EmptiedKeysAgree(t1.reverse, t.reverse, fp, keys[1..]);
    }
  }

  /** The second loop never touches the groups, the queue, the sink or the window; it only
      removes entries and hooks. */
  lemma {:induction false} UnhookKeysFrame(t: Tables, keys: seq<KeyCode>, uninstallOk: KeyCode -> bool)
    ensures var t' := UnhookKeys(t, keys, uninstallOk).1;
      && t'.groups == t.groups && t'.pending == t.pending && t'.emitted == t.emitted && t'.window == t.window
      && (forall k :: k in t'.reverse ==> k in t.reverse && t'.reverse[k] == t.reverse[k])
      && t'.hooked <= t.hooked
    decreases |keys|
  {
    if keys != [] && keys[0] in t.reverse {
      var t1 := t.(reverse := t.reverse - {keys[0]});
      if uninstallOk(keys[0]) {
        UnhookKeysFrame(t1.(hooked := t1.hooked - {keys[0]}), keys[1..], uninstallOk);
      }
    }
  }

  /** When the second loop completes, every collected key has lost its entry and its hook,
      and nothing else has. */
  lemma {:induction false} UnhookKeysSuccess(t: Tables, keys: seq<KeyCode>, uninstallOk: KeyCode -> bool)
    requires UnhookKeys(t, keys, uninstallOk).0.Success?
    ensures UnhookKeys(t, keys, uninstallOk).1.reverse == t.reverse - Elements(keys)
    ensures UnhookKeys(t, keys, uninstallOk).1.hooked == t.hooked - Elements(keys)
    decreases |keys|
  {
    if keys != [] {
      var t1 := t.(reverse := t.reverse - {keys[0]});
      UnhookKeysSuccess(t1.(hooked := t1.hooked - {keys[0]}), keys[1..], uninstallOk);
      ElementsCons(keys);
    }
  }

  /** An uninstall that fails stops the second loop at the first key whose hook will not
      go: the keys before it have lost their entry and their hook, the failing key only its
      entry, and the keys after it neither. The failing key occurs once before that point. */
  lemma {:induction false} UnhookKeysFailure(t: Tables, keys: seq<KeyCode>, uninstallOk: KeyCode -> bool) returns (i: nat)
    requires UnhookKeys(t, keys, uninstallOk).0.Failure?
    ensures UnhookKeys(t, keys, uninstallOk).0.error == CannotUnregisterHotkey
    ensures i < |keys| && !uninstallOk(keys[i]) && keys[i] !in keys[..i]
    ensures forall j :: 0 <= j < i ==> uninstallOk(keys[j])
    ensures UnhookKeys(t, keys, uninstallOk).1.reverse == t.reverse - Elements(keys[..i + 1])
    ensures UnhookKeys(t, keys, uninstallOk).1.hooked == t.hooked - Elements(keys[..i])
    decreases |keys|
  {
    var k0 := keys[0];
    var t1 := t.(reverse := t.reverse - {k0});
    if uninstallOk(k0) {
      var t2 := t1.(hooked := t1.hooked - {k0});
      var rest := keys[1..];
      var i' := UnhookKeysFailure(t2, rest, uninstallOk);
      i := i' + 1;
      assert keys == [k0] + rest;
      PrefixElements(k0, rest, i');
      assert keys[i] == rest[i'];
      assert keys[i] != k0 by {
        if rest[i'] == k0 {
          UnhookKeysMissing(t2, rest, uninstallOk, i');
        }
      }
      forall j | 0 <= j < i ensures uninstallOk(keys[j]) {
        if j > 0 { assert keys[j] == rest[j - 1]; }
      }
      assert UnhookKeys(t, keys, uninstallOk) == UnhookKeys(t2, rest, uninstallOk);
      MinusTwice(t.reverse, t.hooked, k0, Elements(rest[..i' + 1]), Elements(rest[..i']));
    } else {
      i := 0;
      assert keys[..1] == [k0] && keys[..0] == [];
      ElementsCons(keys[..1]);
      assert keys[..1][1..] == [];
    }
  }

  /** The elements of a prefix of `[k0] + rest`. */
  lemma PrefixElements(k0: KeyCode, rest: seq<KeyCode>, n: nat)
    requires n < |rest|
    ensures Elements(([k0] + rest)[..n + 2]) == {k0} + Elements(rest[..n + 1])
    ensures Elements(([k0] + rest)[..n + 1]) == {k0} + Elements(rest[..n])
    ensures ([k0] + rest)[..n + 1][1..] == rest[..n]
  {
    var keys := [k0] + rest;
    assert keys[..n + 2] == [k0] + rest[..n + 1];
    assert keys[..n + 1] == [k0] + rest[..n];
  }

  /** Removing `k0` and then a set is removing both at once. */
  lemma MinusTwice(m: map<KeyCode, seq<Fingerprint>>, s: set<KeyCode>, k0: KeyCode, a: set<KeyCode>, b: set<KeyCode>)
    ensures (m - {k0}) - a == m - ({k0} + a)
    ensures (s - {k0}) - b == s - ({k0} + b)
  {
  }

  /** Entries are only ever removed, so if every hook before `keys[i]` goes and `keys[i]`
      has no entry, the second loop panics. */
  lemma {:induction false} UnhookKeysMissing(t: Tables, keys: seq<KeyCode>, uninstallOk: KeyCode -> bool, i: nat)
    requires i < |keys| && keys[i] !in t.reverse
    requires forall j :: 0 <= j < i ==> uninstallOk(keys[j])
    ensures UnhookKeys(t, keys, uninstallOk).0.Panic?
    decreases |keys|
  {
    if i > 0 && keys[0] in t.reverse {
      var t1 := t.(reverse := t.reverse - {keys[0]});
      assert uninstallOk(keys[0]);
      assert forall j :: 0 <= j < i - 1 ==> keys[1..][j] == keys[j + 1];
      UnhookKeysMissing(t1.(hooked := t1.hooked - {keys[0]}), keys[1..], uninstallOk, i - 1);
    }
  }

  /** The second loop never panics on a duplicate-free list of keys that all have entries. */
  lemma {:induction false} UnhookKeysNoPanic(t: Tables, keys: seq<KeyCode>, uninstallOk: KeyCode -> bool)
    requires NoDup(keys) && forall k :: k in keys ==> k in t.reverse
    ensures !UnhookKeys(t, keys, uninstallOk).0.Panic?
    decreases |keys|
  {
    if keys != [] {
      var t1 := t.(reverse := t.reverse - {keys[0]});
      if uninstallOk(keys[0]) {
        assert NoDup(keys[1..]);
        assert keys[0] !in keys[1..];
        UnhookKeysNoPanic(t1.(hooked := t1.hooked - {keys[0]}), keys[1..], uninstallOk);
      }
    }
  }

  /** A name that is not a key name fails the call before anything changes. */
  lemma UnregisterBadKeyName(t: Tables, parse: string -> Option<KeyCode>, uninstallOk: KeyCode -> bool,
                             name: string, keyNames: seq<string>)
    requires exists n :: n in keyNames && parse(n).None?
    ensures Unregister(t, parse, uninstallOk, name, keyNames) == (Failure(BadKeyCodeName), t)
  {
  }

  /** Keys with no group: `ActionDoesNotExist(Actions)`, nothing changes. */
  lemma UnregisterNoGroup(t: Tables, parse: string -> Option<KeyCode>, uninstallOk: KeyCode -> bool,
                          name: string, keyNames: seq<string>)
    requires Canonicalize(parse, keyNames).Ok? && Canonicalize(parse, keyNames).value !in t.groups
    ensures Unregister(t, parse, uninstallOk, name, keyNames) == (Failure(ActionDoesNotExist(Actions)), t)
  {
  }

  /** A group that does not hold the action: `ActionDoesNotExist(ActionMapping)`, nothing
      changes. */
  lemma UnregisterNotBound(t: Tables, parse: string -> Option<KeyCode>, uninstallOk: KeyCode -> bool,
                           name: string, keyNames: seq<string>)
    requires Canonicalize(parse, keyNames).Ok?
    requires var kc := Canonicalize(parse, keyNames).value; kc in t.groups && name !in t.groups[kc].actions
    ensures Unregister(t, parse, uninstallOk, name, keyNames) == (Failure(ActionDoesNotExist(MapType.ActionMapping)), t)
  {
  }

  /** Removing one of several actions: the group keeps the others in their order, and the
      index and the hooks are untouched; a valid state stays valid. */
  lemma UnregisterKeepsGroup(t: Tables, parse: string -> Option<KeyCode>, uninstallOk: KeyCode -> bool,
                             name: string, keyNames: seq<string>)
    requires Coherent(t) && Canonicalize(parse, keyNames).Ok?
    requires var kc := Canonicalize(parse, keyNames).value;
      kc in t.groups && name in t.groups[kc].actions && t.groups[kc].actions != [name]
    ensures var kc := Canonicalize(parse, keyNames).value;
            var (o, t') := Unregister(t, parse, uninstallOk, name, keyNames);
      && o == Success
      && t'.reverse == t.reverse && t'.hooked == t.hooked
      && t'.groups == t.groups[kc := WithoutAction(t.groups[kc], name)]
      && name !in t'.groups[kc].actions
      && (forall i :: 0 <= i < |t.groups[kc].actions| && t.groups[kc].actions[i] == name ==>
            t'.groups[kc].actions == t.groups[kc].actions[..i] + t.groups[kc].actions[i + 1..])
      && (Valid(t) ==> Valid(t'))
  {
    var kc := Canonicalize(parse, keyNames).value;
    var m := t.groups[kc];
    WithoutActionSpec(m, name);
    var i :| 0 <= i < |m.actions| && m.actions[i] == name;
    LastActionRemoved(m.actions, i);
  }

  /** Removing the action at `i` leaves nothing exactly when it was the only action. */
  lemma LastActionRemoved(actions: seq<string>, i: nat)
    requires i < |actions|
    ensures actions[..i] + actions[i + 1..] == [] <==> actions == [actions[i]]
  {
    assert |actions[..i] + actions[i + 1..]| == |actions| - 1;
    if |actions| == 1 {
      assert actions == [actions[0]];
    }
  }

  /** Dropping entries from a coherent state keeps it coherent. */
  lemma RestrictedCoherent(t: Tables, t': Tables)
    requires Coherent(t) && t'.groups == t.groups
    requires forall k :: k in t'.reverse ==> k in t.reverse && t'.reverse[k] == t.reverse[k]
    ensures Coherent(t')
  {
  }

  /** After the first loop, no entry lists the deleted fingerprint, so the rest of the
      state is coherent again. */
  lemma DetachedCoherent(t: Tables, kc: Fingerprint, t1: Tables)
    requires Coherent(t) && kc in t.groups
    requires t1.groups == t.groups - {kc} && t1.reverse.Keys == t.reverse.Keys
    requires forall k :: k in t.reverse ==> t1.reverse[k] == if k in kc then Without(t.reverse[k], kc) else t.reverse[k]
    ensures Coherent(t1)
    ensures forall k :: k in t1.reverse ==> t1.reverse[k] == Without(t.reverse[k], kc)
  {
    forall k | k in t.reverse ensures NoDup(t1.reverse[k]) && t1.reverse[k] == Without(t.reverse[k], kc) {
      if k in kc {
        WithoutNoDup(t.reverse[k], kc);
      } else {
        assert kc !in t.reverse[k];
      }
    }
  }

  /** What deleting the group `kc` does, whatever the hooks do: the first loop either panics
      or leaves a coherent state in which every entry has lost `kc`; the second loop, unless
      it panics, leaves a coherent restriction of that. */
  lemma DeleteGroup(t: Tables, kc: Fingerprint, uninstallOk: KeyCode -> bool)
    requires Coherent(t) && kc in t.groups
    ensures var (o1, t1, e) := DetachKeys(t.(groups := t.groups - {kc}), kc, kc, []);
      && t1.groups == t.groups - {kc} && t1.hooked == t.hooked
      && t1.pending == t.pending && t1.emitted == t.emitted && t1.window == t.window
      && (o1.Success? <==> forall k :: k in kc ==> k in t.reverse)
      && (!o1.Success? ==> o1 == Panic(KeyMissingFromReverseLookup))
      && (o1.Success? ==>
            && Coherent(t1) && t1.reverse.Keys == t.reverse.Keys
            && (forall k :: k in t1.reverse ==> t1.reverse[k] == Without(t.reverse[k], kc))
            && e == EmptiedKeys(t.reverse, kc, kc))
  {
    var t0 := t.(groups := t.groups - {kc});
    DetachKeysFrame(t0, kc, kc, []);
    DetachKeysOutcome(t0, kc, kc, []);
    var (o1, t1, e) := DetachKeys(t0, kc, kc, []);
    if o1.Success? {
      DetachKeysReverse(t0, kc, kc, []);
      DetachKeysEmptied(t0, kc, kc, []);
      DetachedCoherent(t, kc, t1);
    }
  }

  /** Whatever the hooks do, an unregistration that does not panic keeps `Coherent`; it
      never touches the event queue, the sink or the window. */
  lemma UnregisterKeepsCoherent(t: Tables, parse: string -> Option<KeyCode>, uninstallOk: KeyCode -> bool,
                                name: string, keyNames: seq<string>)
    requires Coherent(t)
    ensures var (o, t') := Unregister(t, parse, uninstallOk, name, keyNames);
      && (o.Panic? || Coherent(t'))
      && t'.pending == t.pending && t'.emitted == t.emitted && t'.window == t.window
  {
    match Canonicalize(parse, keyNames)
    case Err(_) =>
    case Ok(kc) =>
      if kc in t.groups && name in t.groups[kc].actions {
        WithoutActionSpec(t.groups[kc], name);
        if WithoutAction(t.groups[kc], name).actions == [] {
          DeleteGroup(t, kc, uninstallOk);
          var (o1, t1, e) := DetachKeys(t.(groups := t.groups - {kc}), kc, kc, []);
          if o1.Success? {
            UnhookKeysFrame(t1, e, uninstallOk);
            RestrictedCoherent(t1, UnhookKeys(t1, e, uninstallOk).1);
          }
        }
      }
  }

  /** On a valid state, a request whose keys are all different never panics. */
  lemma UnregisterNoPanic(t: Tables, parse: string -> Option<KeyCode>, uninstallOk: KeyCode -> bool,
                          name: string, keyNames: seq<string>)
    requires Valid(t)
    requires Canonicalize(parse, keyNames).Err? || NoDup(Canonicalize(parse, keyNames).value)
    ensures !Unregister(t, parse, uninstallOk, name, keyNames).0.Panic?
  {
    match Canonicalize(parse, keyNames)
    case Err(_) =>
    case Ok(kc) =>
      if kc in t.groups && name in t.groups[kc].actions && WithoutAction(t.groups[kc], name).actions == [] {
        DeleteGroup(t, kc, uninstallOk);
        var (o1, t1, e) := DetachKeys(t.(groups := t.groups - {kc}), kc, kc, []);
        EmptiedKeysNoDup(t.reverse, kc, kc);
        UnhookKeysNoPanic(t1, e, uninstallOk);
      }
  }

  /** Removing the last action of a group deletes the group and drops its fingerprint
      from every key's list; when that succeeds, exactly the keys whose list became empty
      lose their entry and their hook, every other entry only loses the fingerprint, and
      the state stays valid. */
  lemma UnregisterDeletesGroup(t: Tables, parse: string -> Option<KeyCode>, uninstallOk: KeyCode -> bool,
                               name: string, keyNames: seq<string>)
    requires Valid(t) && Canonicalize(parse, keyNames).Ok?
    requires var kc := Canonicalize(parse, keyNames).value; kc in t.groups && t.groups[kc].actions == [name]
    requires Unregister(t, parse, uninstallOk, name, keyNames).0 == Success
    ensures var kc := Canonicalize(parse, keyNames).value;
            var t' := Unregister(t, parse, uninstallOk, name, keyNames).1;
      && t'.groups == t.groups - {kc}
      && Valid(t')
      && (forall k :: k in t'.reverse <==> k in t.reverse && Without(t.reverse[k], kc) != [])
      && (forall k :: k in t'.reverse ==> t'.reverse[k] == Without(t.reverse[k], kc))
      && (forall k :: k in t'.hooked <==> k in t.hooked && Without(t.reverse[k], kc) != [])
  {
    var kc := Canonicalize(parse, keyNames).value;
    WithoutActionSpec(t.groups[kc], name);
    DeleteGroup(t, kc, uninstallOk);
    var (o1, t1, e) := DetachKeys(t.(groups := t.groups - {kc}), kc, kc, []);
    UnhookKeysFrame(t1, e, uninstallOk);
    UnhookKeysSuccess(t1, e, uninstallOk);
    var t' := UnhookKeys(t1, e, uninstallOk).1;
    assert t' == Unregister(t, parse, uninstallOk, name, keyNames).1;
    forall k | k in t.reverse ensures k in Elements(e) <==> Without(t.reverse[k], kc) == [] {
      if Without(t.reverse[k], kc) == [] {
        var f := t.reverse[k][0];
        assert f in t.reverse[k];
        assert f !in Without(t.reverse[k], kc);
      }
    }
    RestrictedCoherent(t1, t');
    forall f, k | f in t'.groups && k in f ensures k in t'.reverse && f in t'.reverse[k] {
      assert f in t.reverse[k];
      assert f in Without(t.reverse[k], kc);
    }
  }

  /** An uninstall that fails leaves a key hooked that no longer has an entry; the group
      itself is already gone. */
  lemma UnregisterUninstallFails(t: Tables, parse: string -> Option<KeyCode>, uninstallOk: KeyCode -> bool,
                                 name: string, keyNames: seq<string>)
    requires Valid(t)
    requires Unregister(t, parse, uninstallOk, name, keyNames).0 == Failure(CannotUnregisterHotkey)
    ensures Canonicalize(parse, keyNames).Ok?
    ensures var t' := Unregister(t, parse, uninstallOk, name, keyNames).1;
      && Canonicalize(parse, keyNames).value !in t'.groups
      && exists k :: k in t'.hooked && k !in t'.reverse && !uninstallOk(k)
  {
    var kc := Canonicalize(parse, keyNames).value;
    DeleteGroup(t, kc, uninstallOk);
    var (o1, t1, e) := DetachKeys(t.(groups := t.groups - {kc}), kc, kc, []);
    UnhookKeysFrame(t1, e, uninstallOk);
    var i := UnhookKeysFailure(t1, e, uninstallOk);
    var t' := UnhookKeys(t1, e, uninstallOk).1;
    assert e[i] in e[..i + 1];
    assert e[i] in t'.hooked && e[i] !in t'.reverse;
  }

  /** A successful unregistration keeps a valid state valid. */
  lemma UnregisterKeepsValid(t: Tables, parse: string -> Option<KeyCode>, uninstallOk: KeyCode -> bool,
                             name: string, keyNames: seq<string>)
    requires Valid(t) && Unregister(t, parse, uninstallOk, name, keyNames).0 == Success
    ensures Valid(Unregister(t, parse, uninstallOk, name, keyNames).1)
  {
    var kc := Canonicalize(parse, keyNames).value;
    var m := t.groups[kc];
    WithoutActionSpec(m, name);
    var i :| 0 <= i < |m.actions| && m.actions[i] == name;
    LastActionRemoved(m.actions, i);
    if m.actions == [name] {
      UnregisterDeletesGroup(t, parse, uninstallOk, name, keyNames);
    } else {
      UnregisterKeepsGroup(t, parse, uninstallOk, name, keyNames);
    }
  }
}
