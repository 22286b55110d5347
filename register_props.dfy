/** What `register_action` guarantees, proved about `Engine.Register`. */
module RegisterProps {
  import opened HotkeyTypes
  import opened Canonical
  import opened ActionGroup
  import opened Engine

  /** The invariant of the key loop: `Complete`, except that the keys still to be
      processed need not list `fp` yet. */
  ghost predicate IndexedExcept(t: Tables, fp: Fingerprint, todo: seq<KeyCode>)
  {
    && (forall f, k :: f in t.groups && k in f && !(f == fp && k in todo) ==> k in t.reverse && f in t.reverse[k])
    && (forall k :: k in t.reverse ==> t.reverse[k] != [])
    && t.hooked == t.reverse.Keys
  }

  /** The key loop changes only the index and the hooks: entries and hooks only grow, only
      keys of the loop get new ones, and a failure names a key that had no entry and whose
      hook would not install. */
  lemma {:induction false} RegisterKeysFrame(t: Tables, fp: Fingerprint, keys: seq<KeyCode>, installOk: KeyCode -> bool)
    ensures var (o, t') := RegisterKeys(t, fp, keys, installOk);
      && t'.groups == t.groups && t'.pending == t.pending && t'.emitted == t.emitted && t'.window == t.window
      && t.reverse.Keys <= t'.reverse.Keys
      && (forall k :: k in t'.reverse ==> k in t.reverse || k in keys)
      && t.hooked <= t'.hooked
      && (forall k :: k in t'.hooked ==> k in t.hooked || k in keys)
      && (o.Success? || (o == Failure(CannotRegisterHotkey) && exists k :: k in keys && k !in t.reverse && !installOk(k)))
    decreases |keys|
  {
    if keys != [] {
      var (o, t1) := RegisterKey(t, fp, keys[0], installOk);
      if o.Success? {
        RegisterKeysFrame(t1, fp, keys[1..], installOk);
        assert keys == [keys[0]] + keys[1..];
      }
    }
  }

  /** The key loop only appends `fp` to lists: every listed fingerprint stays, a key it does
      not process keeps its list, and the only fingerprint it lists anew is `fp`. */
  lemma {:induction false} RegisterKeysReverse(t: Tables, fp: Fingerprint, keys: seq<KeyCode>, installOk: KeyCode -> bool)
    ensures var t' := RegisterKeys(t, fp, keys, installOk).1;
      && (forall k, f :: k in t.reverse && f in t.reverse[k] ==> k in t'.reverse && f in t'.reverse[k])
      && (forall k :: k in t.reverse && k !in keys ==> k in t'.reverse && t'.reverse[k] == t.reverse[k])
      && (forall k, f :: k in t'.reverse && f in t'.reverse[k] ==> f == fp || (k in t.reverse && f in t.reverse[k]))
    decreases |keys|
  {
    if keys != [] {
      var (o, t1) := RegisterKey(t, fp, keys[0], installOk);
      if o.Success? {
        RegisterKeysReverse(t1, fp, keys[1..], installOk);
        assert keys == [keys[0]] + keys[1..];
        var t' := RegisterKeys(t1, fp, keys[1..], installOk).1;
        forall k, f | k in t.reverse && f in t.reverse[k] ensures k in t'.reverse && f in t'.reverse[k] {
          assert k in t1.reverse && f in t1.reverse[k];
        }
      }
    }
  }

  /** The key loop keeps `Coherent` when every key it processes belongs to `fp`. */
  lemma {:induction false} RegisterKeysCoherent(t: Tables, fp: Fingerprint, keys: seq<KeyCode>, installOk: KeyCode -> bool)
    requires Coherent(t) && fp in t.groups && forall k :: k in keys ==> k in fp
    ensures Coherent(RegisterKeys(t, fp, keys, installOk).1)
    decreases |keys|
  {
    if keys != [] {
      var (o, t1) := RegisterKey(t, fp, keys[0], installOk);
      assert Coherent(t1) by {
        var k := keys[0];
        if k in t.reverse && fp !in t.reverse[k] {
          var v := t.reverse[k] + [fp];
          assert NoDup(v) by {
            forall i, j | 0 <= i < j < |v| ensures v[i] != v[j] {
              if j == |v| - 1 {
                assert v[i] in t.reverse[k];
              }
            }
          }
        }
      }
      if o.Success? {
        RegisterKeysCoherent(t1, fp, keys[1..], installOk);
      }
    }
  }

  /** A key loop that runs to the end leaves the tables `Complete`. */
  lemma {:induction false} RegisterKeysComplete(t: Tables, fp: Fingerprint, keys: seq<KeyCode>, installOk: KeyCode -> bool)
    requires IndexedExcept(t, fp, keys) && fp in t.groups
    requires RegisterKeys(t, fp, keys, installOk).0 == Success
    ensures Complete(RegisterKeys(t, fp, keys, installOk).1)
    decreases |keys|
  {
    if keys != [] {
      var (o, t1) := RegisterKey(t, fp, keys[0], installOk);
      assert IndexedExcept(t1, fp, keys[1..]) by {
        assert keys == [keys[0]] + keys[1..];
        forall f, k | f in t1.groups && k in f && !(f == fp && k in keys[1..])
          ensures k in t1.reverse && f in t1.reverse[k]
        {
          if !(f == fp && k == keys[0]) {
            assert k in t.reverse && f in t.reverse[k];
          }
        }
      }
      RegisterKeysComplete(t1, fp, keys[1..], installOk);
    }
  }

  /** The key loop cannot fail when every key already has an entry or its hook installs. */
  lemma {:induction false} RegisterKeysSucceeds(t: Tables, fp: Fingerprint, keys: seq<KeyCode>, installOk: KeyCode -> bool)
    requires forall k :: k in keys ==> k in t.reverse || installOk(k)
    ensures RegisterKeys(t, fp, keys, installOk).0 == Success
    decreases |keys|
  {
    if keys != [] {
      var (o, t1) := RegisterKey(t, fp, keys[0], installOk);
      assert t.reverse.Keys <= t1.reverse.Keys;
      RegisterKeysSucceeds(t1, fp, keys[1..], installOk);
    }
  }

  /** A name that is not a key name fails the call before anything changes. */
  lemma RegisterBadKeyName(t: Tables, parse: string -> Option<KeyCode>, installOk: KeyCode -> bool,
                           name: string, keyNames: seq<string>, now: int)
    requires exists n :: n in keyNames && parse(n).None?
    ensures Register(t, parse, installOk, name, keyNames, now) == (Failure(BadKeyCodeName), t)
  {
  }

  /** Binding an action that is already bound to the same keys fails and changes nothing. */
  lemma RegisterAlreadyBound(t: Tables, parse: string -> Option<KeyCode>, installOk: KeyCode -> bool,
                             name: string, keyNames: seq<string>, now: int)
    requires Canonicalize(parse, keyNames).Ok?
    requires Canonicalize(parse, keyNames).value in t.groups
    requires name in t.groups[Canonicalize(parse, keyNames).value].actions
    ensures Register(t, parse, installOk, name, keyNames, now) == (Failure(ActionAlreadyExists), t)
  {
  }

  /** Whatever the hooks do, registration keeps `Coherent`, touches no other group, and
      leaves the event queue, the sink and the window alone. */
  lemma RegisterKeepsCoherent(t: Tables, parse: string -> Option<KeyCode>, installOk: KeyCode -> bool,
                              name: string, keyNames: seq<string>, now: int)
    requires Coherent(t)
    ensures var t' := Register(t, parse, installOk, name, keyNames, now).1;
      && Coherent(t')
      && t'.pending == t.pending && t'.emitted == t.emitted && t'.window == t.window
      && (forall f :: f in t.groups ==> f in t'.groups)
      && (forall f :: f in t'.groups && (f !in t.groups || t'.groups[f] != t.groups[f]) ==>
            Canonicalize(parse, keyNames) == Ok(f))
  {
    match Canonicalize(parse, keyNames)
    case Err(_) =>
    case Ok(kc) =>
      if !(kc in t.groups && name in t.groups[kc].actions) {
        var m := if kc in t.groups then t.groups[kc] else NewMapping(kc, now);
        var t1 := t.(groups := t.groups[kc := WithAction(m, name)]);
        assert m.keys.Keys == set k | k in kc;
        assert NoDup(m.actions);
        WithActionSpec(m, name);
        assert Coherent(t1);
        RegisterKeysCoherent(t1, kc, kc, installOk);
        RegisterKeysFrame(t1, kc, kc, installOk);
        RegisterKeysReverse(t1, kc, kc, installOk);
      }
  }

  /** When registration gets past the error checks — it succeeds, or a hook fails to
      install part-way — the action is bound: the group for the keys exists, stamps
      exactly those keys, and has the action appended to its previous actions. */
  lemma RegisterBindsAction(t: Tables, parse: string -> Option<KeyCode>, installOk: KeyCode -> bool,
                            name: string, keyNames: seq<string>, now: int)
    requires Coherent(t)
    requires var o := Register(t, parse, installOk, name, keyNames, now).0;
      o == Success || o == Failure(CannotRegisterHotkey)
    ensures Canonicalize(parse, keyNames).Ok?
    ensures var kc := Canonicalize(parse, keyNames).value;
            var t' := Register(t, parse, installOk, name, keyNames, now).1;
      && kc in t'.groups
      && t'.groups[kc].keys.Keys == (set k | k in kc)
      && t'.groups[kc].actions == (if kc in t.groups then t.groups[kc].actions else []) + [name]
  {
    var kc := Canonicalize(parse, keyNames).value;
    var m := if kc in t.groups then t.groups[kc] else NewMapping(kc, now);
    RegisterKeysFrame(t.(groups := t.groups[kc := WithAction(m, name)]), kc, kc, installOk);
    RegisterKeysReverse(t.(groups := t.groups[kc := WithAction(m, name)]), kc, kc, installOk);
  }

  /** A successful registration keeps the tables valid and lists the fingerprint under
      every one of its keys exactly once, each key hooked; the newly hooked keys are
      exactly the keys of the request that had no hook. */
  lemma RegisterSucceeds(t: Tables, parse: string -> Option<KeyCode>, installOk: KeyCode -> bool,
                         name: string, keyNames: seq<string>, now: int)
    requires Valid(t)
    requires Register(t, parse, installOk, name, keyNames, now).0 == Success
    ensures Canonicalize(parse, keyNames).Ok?
    ensures var kc := Canonicalize(parse, keyNames).value;
            var t' := Register(t, parse, installOk, name, keyNames, now).1;
      && Valid(t')
      && kc in t'.groups && name in t'.groups[kc].actions
      && (forall k :: k in kc ==> k in t'.hooked && k in t'.reverse && Count(t'.reverse[k], kc) == 1)
      && t'.hooked == t.hooked + (set k | k in kc)
  {
    var kc := Canonicalize(parse, keyNames).value;
    var m := if kc in t.groups then t.groups[kc] else NewMapping(kc, now);
    var t1 := t.(groups := t.groups[kc := WithAction(m, name)]);
    assert Register(t, parse, installOk, name, keyNames, now) == RegisterKeys(t1, kc, kc, installOk);
    RegisterKeepsCoherent(t, parse, installOk, name, keyNames, now);
    RegisterStartIndexed(t, kc, WithAction(m, name));
    assert name in t1.groups[kc].actions;
    KeyLoopSucceeds(t1, kc, installOk);
  }

  /** The key loop of a registration that runs to the end, from a state that is complete
      but for the fingerprint's own keys. */
  lemma KeyLoopSucceeds(t: Tables, kc: Fingerprint, installOk: KeyCode -> bool)
    requires kc in t.groups && IndexedExcept(t, kc, kc)
    requires Coherent(RegisterKeys(t, kc, kc, installOk).1)
    requires RegisterKeys(t, kc, kc, installOk).0 == Success
    ensures var t' := RegisterKeys(t, kc, kc, installOk).1;
      && Valid(t') && t'.groups == t.groups
      && (forall k :: k in kc ==> k in t'.hooked && k in t'.reverse && Count(t'.reverse[k], kc) == 1)
      && t'.hooked == t.hooked + (set k | k in kc)
  {
    var t' := RegisterKeys(t, kc, kc, installOk).1;
    RegisterKeysFrame(t, kc, kc, installOk);
    RegisterKeysReverse(t, kc, kc, installOk);
    RegisterKeysComplete(t, kc, kc, installOk);
    assert kc in t'.groups;
    forall k | k in kc ensures k in t'.hooked && k in t'.reverse && Count(t'.reverse[k], kc) == 1 {
      assert k in t'.reverse && kc in t'.reverse[k];
      CountNoDup(t'.reverse[k], kc);
    }
    assert t'.reverse.Keys == t.reverse.Keys + (set k | k in kc);
  }

  /** Before the key loop, the state is complete except for the new fingerprint's keys. */
  lemma RegisterStartIndexed(t: Tables, kc: Fingerprint, m: Mapping)
    requires Complete(t)
    ensures IndexedExcept(t.(groups := t.groups[kc := m]), kc, kc)
  {
  }

  /** Registration succeeds whenever the names parse, the action is not yet bound to those
      keys, and every key without an entry can be hooked. */
  lemma RegisterSucceedsWhenHooksInstall(t: Tables, parse: string -> Option<KeyCode>, installOk: KeyCode -> bool,
                                         name: string, keyNames: seq<string>, now: int)
    requires Canonicalize(parse, keyNames).Ok?
    requires var kc := Canonicalize(parse, keyNames).value;
      && !(kc in t.groups && name in t.groups[kc].actions)
      && forall k :: k in kc ==> k in t.reverse || installOk(k)
    ensures Register(t, parse, installOk, name, keyNames, now).0 == Success
  {
    var kc := Canonicalize(parse, keyNames).value;
    var m := if kc in t.groups then t.groups[kc] else NewMapping(kc, now);
    RegisterKeysSucceeds(t.(groups := t.groups[kc := WithAction(m, name)]), kc, kc, installOk);
  }

  /** Registering the same action to the same keys twice: the second call fails with
      `ActionAlreadyExists` and changes nothing, so the group's action count stays put. */
  lemma RegisterTwice(t: Tables, parse: string -> Option<KeyCode>, installOk: KeyCode -> bool,
                      name: string, keyNames: seq<string>, now: int, later: int)
    requires Register(t, parse, installOk, name, keyNames, now).0 == Success
    ensures var t1 := Register(t, parse, installOk, name, keyNames, now).1;
      Register(t1, parse, installOk, name, keyNames, later) == (Failure(ActionAlreadyExists), t1)
  {
    var kc := Canonicalize(parse, keyNames).value;
    var m := if kc in t.groups then t.groups[kc] else NewMapping(kc, now);
    RegisterKeysFrame(t.(groups := t.groups[kc := WithAction(m, name)]), kc, kc, installOk);
  }
}
