/** What `poll` guarantees, proved about `Engine.Poll`. */
module PollProps {
  import opened HotkeyTypes
  import opened ActionGroup
  import opened Engine

  /** The reference for what one received key sends: group by group in the listed order,
      each group judged on its own state with the key stamped, its actions in stored order. */
  function Fired(groups: map<Fingerprint, Mapping>, key: KeyCode, fps: seq<Fingerprint>, window: nat, now: int): seq<string>
    requires forall f :: f in fps ==> f in groups
    decreases |fps|
  {
    if fps == [] then []
    else
      var m := Stamped(groups[fps[0]], key, now);
      (if Pressed(m, window, now) then m.actions else []) + Fired(groups, key, fps[1..], window, now)
  }

  /** An action is sent exactly when some listed group holding it is fully pressed once the
      key is stamped. */
  lemma {:induction false} FiredMembers(groups: map<Fingerprint, Mapping>, key: KeyCode, fps: seq<Fingerprint>, window: nat, now: int)
    requires forall f :: f in fps ==> f in groups
    ensures forall a :: a in Fired(groups, key, fps, window, now) <==>
      exists f :: f in fps && Pressed(Stamped(groups[f], key, now), window, now) && a in groups[f].actions
    decreases |fps|
  {
    if fps != [] {
      FiredMembers(groups, key, fps[1..], window, now);
      assert fps == [fps[0]] + fps[1..];
      forall a | exists f :: f in fps && Pressed(Stamped(groups[f], key, now), window, now) && a in groups[f].actions
        ensures a in Fired(groups, key, fps, window, now)
      {
        var f :| f in fps && Pressed(Stamped(groups[f], key, now), window, now) && a in groups[f].actions;
        if f != fps[0] {
          assert f in fps[1..];
        }
      }
    }
  }

  lemma {:induction false} FiredAgree(g1: map<Fingerprint, Mapping>, g2: map<Fingerprint, Mapping>,
                                      key: KeyCode, fps: seq<Fingerprint>, window: nat, now: int)
    requires forall f :: f in fps ==> f in g1 && f in g2 && g1[f] == g2[f]
    ensures Fired(g1, key, fps, window, now) == Fired(g2, key, fps, window, now)
    decreases |fps|
  {
    if fps != [] {
      FiredAgree(g1, g2, key, fps[1..], window, now);
    }
  }

  /** The group loop of `poll` touches only the groups and the sink. */
  lemma {:induction false} PressGroupsFrame(t: Tables, key: KeyCode, fps: seq<Fingerprint>, now: int)
    requires forall f :: f in fps ==> f in t.groups && key in t.groups[f].keys
    ensures PressGroups(t, key, fps, now).reverse == t.reverse
    ensures PressGroups(t, key, fps, now).hooked == t.hooked
    ensures PressGroups(t, key, fps, now).pending == t.pending
    ensures PressGroups(t, key, fps, now).window == t.window
    ensures PressGroups(t, key, fps, now).groups.Keys == t.groups.Keys
    decreases |fps|
  {
    if fps != [] {
      PressGroupsFrame(PressGroup(t, key, fps[0], now), key, fps[1..], now);
    }
  }

  /** Over a duplicate-free list, every listed group has the key stamped and no other group
      changes. */
  lemma PressGroupsGroups(t: Tables, key: KeyCode, fps: seq<Fingerprint>, now: int)
    requires NoDup(fps) && forall f :: f in fps ==> f in t.groups && key in t.groups[f].keys
    ensures PressGroups(t, key, fps, now).groups.Keys == t.groups.Keys
    ensures forall f :: f in t.groups ==>
      PressGroups(t, key, fps, now).groups[f] == if f in fps then Stamped(t.groups[f], key, now) else t.groups[f]
  {
    PressGroupsFrame(t, key, fps, now);
    forall f | f in t.groups
      ensures PressGroups(t, key, fps, now).groups[f] == if f in fps then Stamped(t.groups[f], key, now) else t.groups[f]
    {
      PressGroupsAt(t, key, fps, now, f);
    }
  }

  /** The group loop's effect on one group. */
  lemma {:induction false} PressGroupsAt(t: Tables, key: KeyCode, fps: seq<Fingerprint>, now: int, f: Fingerprint)
    requires NoDup(fps) && forall g :: g in fps ==> g in t.groups && key in t.groups[g].keys
    requires f in t.groups
    ensures f in PressGroups(t, key, fps, now).groups
    ensures PressGroups(t, key, fps, now).groups[f] == if f in fps then Stamped(t.groups[f], key, now) else t.groups[f]
    decreases |fps|
  {
    PressGroupsFrame(t, key, fps, now);
    if fps != [] {
      var f0 := fps[0];
      var t1 := PressGroup(t, key, f0, now);
      PressGroupStep(t, key, fps, now);
      assert fps[0] !in fps[1..];
      PressGroupsAt(t1, key, fps[1..], now, f);
      assert t1.groups == t.groups[f0 := Stamped(t.groups[f0], key, now)];
      assert f in fps <==> f == f0 || f in fps[1..] by {
        assert fps == [f0] + fps[1..];
      }
    }
  }

  /** Over a duplicate-free list, the sink gets exactly the reference's actions. */
  lemma {:induction false} PressGroupsEmitted(t: Tables, key: KeyCode, fps: seq<Fingerprint>, now: int)
    requires NoDup(fps) && forall f :: f in fps ==> f in t.groups && key in t.groups[f].keys
    ensures PressGroups(t, key, fps, now).emitted == t.emitted + Fired(t.groups, key, fps, t.window, now)
    decreases |fps|
  {
    if fps != [] {
      var t1 := PressGroup(t, key, fps[0], now);
      var out := t1.emitted[|t.emitted|..];
      PressGroupStep(t, key, fps, now);
      PressGroupsEmitted(t1, key, fps[1..], now);
      FiredAgree(t1.groups, t.groups, key, fps[1..], t.window, now);
      assert PressGroups(t, key, fps, now) == PressGroups(t1, key, fps[1..], now);
      var rest := Fired(t.groups, key, fps[1..], t.window, now);
      Assoc(t.emitted, out, rest);
    }
  }

  lemma Assoc(a: seq<string>, b: seq<string>, c: seq<string>)
    ensures a + b + c == a + (b + c)
  {
  }

  /** One pass of the group loop, as the reference sees it: it sends the head's share of
      the reference and leaves the other listed groups as they were. */
  lemma PressGroupStep(t: Tables, key: KeyCode, fps: seq<Fingerprint>, now: int)
    requires fps != [] && NoDup(fps) && forall f :: f in fps ==> f in t.groups && key in t.groups[f].keys
    ensures var t1 := PressGroup(t, key, fps[0], now);
      && NoDup(fps[1..]) && t1.window == t.window && |t.emitted| <= |t1.emitted|
      && t1.emitted == t.emitted + t1.emitted[|t.emitted|..]
      && (forall f :: f in fps[1..] ==> f in t.groups && f in t1.groups && t1.groups[f] == t.groups[f] && key in t1.groups[f].keys)
      && Fired(t.groups, key, fps, t.window, now) == t1.emitted[|t.emitted|..] + Fired(t.groups, key, fps[1..], t.window, now)
  {
    assert NoDup(fps[1..]);
    assert fps[0] !in fps[1..];
  }

  /** With nothing received, `poll` changes nothing. */
  lemma PollIdle(t: Tables, now: int)
    requires Coherent(t) && t.pending == []
    ensures Poll(t, now) == t
  {
  }

  /** A received key with no entry (its group was removed after the event was sent) is
      consumed and nothing else happens. */
  lemma PollDropsUnbound(t: Tables, now: int)
    requires Coherent(t) && t.pending != [] && t.pending[0] !in t.reverse
    ensures Poll(t, now) == t.(pending := t.pending[1..])
  {
  }

  /** A received key that has an entry: it is consumed, every group listing it gets it
      stamped, no other group changes, the index, hooks and window stay, and the sink gets
      the actions of exactly the groups that are then fully pressed. */
  lemma PollBound(t: Tables, now: int)
    requires Coherent(t) && t.pending != [] && t.pending[0] in t.reverse
    ensures var key := t.pending[0];
            var fps := t.reverse[key];
            var r := Poll(t, now);
      && r.pending == t.pending[1..]
      && r.reverse == t.reverse && r.hooked == t.hooked && r.window == t.window
      && r.groups.Keys == t.groups.Keys
      && (forall f :: f in t.groups ==> r.groups[f] == if f in fps then Stamped(t.groups[f], key, now) else t.groups[f])
      && r.emitted == t.emitted + Fired(t.groups, key, fps, t.window, now)
      && (forall a :: a in r.emitted[|t.emitted|..] <==>
            exists f :: f in fps && Pressed(Stamped(t.groups[f], key, now), t.window, now) && a in t.groups[f].actions)
  {
    var key := t.pending[0];
    var fps := t.reverse[key];
    var t1 := t.(pending := t.pending[1..]);
    PressGroupsFrame(t1, key, fps, now);
    PressGroupsGroups(t1, key, fps, now);
    PressGroupsEmitted(t1, key, fps, now);
    FiredMembers(t.groups, key, fps, t.window, now);
    var r := Poll(t, now);
    assert r.emitted[|t.emitted|..] == Fired(t.groups, key, fps, t.window, now);
  }

  /** `poll` keeps `Coherent` and `Valid`: stamping never adds or removes a key of a group. */
  lemma PollKeepsValid(t: Tables, now: int)
    requires Coherent(t)
    ensures Coherent(Poll(t, now))
    ensures Complete(t) ==> Complete(Poll(t, now))
  {
    if t.pending != [] && t.pending[0] in t.reverse {
      PollBound(t, now);
      var r := Poll(t, now);
      forall f | f in r.groups ensures WellFormedGroup(f, r.groups[f]) {
        assert f in t.groups;
      }
    }
  }
}
