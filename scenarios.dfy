/** Concrete runs of the engine over two keys named "A" and "B": a chord that fires only
    within the window, and the two inputs that reach an `unreachable!()` of
    `unregister_action`. */
module Scenarios {
  import opened HotkeyTypes
  import opened KeyNames
  import opened Canonical
  import opened ActionGroup
  import opened Engine
  import RegisterProps
  import PollProps

  const KeyA: KeyCode := KeyCode(0)
  const KeyB: KeyCode := KeyCode(1)
  const AB: Fingerprint := [KeyA, KeyB]
  const AA: Fingerprint := [KeyA, KeyA]

  /** A key-name parser that knows exactly "A" and "B". */
  function ParseAB(n: string): Option<KeyCode>
  {
    if n == "A" then Some(KeyA) else if n == "B" then Some(KeyB) else None
  }

  /** Hook oracles: every call succeeds; every call but those for B succeeds. */
  predicate Always(k: KeyCode) { true }
  predicate NotB(k: KeyCode) { k != KeyB }

  lemma ParseSingles()
    ensures ParseAll(ParseAB, ["A"]) == Some([KeyA])
    ensures ParseAll(ParseAB, ["B"]) == Some([KeyB])
  {
    assert ["A"][1..] == [] && ["B"][1..] == [];
    assert ParseAll(ParseAB, ["A"][1..]) == Some([]);
    assert ParseAll(ParseAB, ["B"][1..]) == Some([]);
    assert [KeyA] + [] == [KeyA] && [KeyB] + [] == [KeyB];
  }

  lemma ParsePairs()
    ensures ParseAll(ParseAB, ["A", "B"]) == Some(AB)
    ensures ParseAll(ParseAB, ["A", "A"]) == Some(AA)
  {
    ParseSingles();
    assert ["A", "B"][1..] == ["B"] && ["A", "A"][1..] == ["A"];
    assert ParseAll(ParseAB, ["A", "B"][1..]) == Some([KeyB]);
    assert ParseAll(ParseAB, ["A", "A"][1..]) == Some([KeyA]);
    assert [KeyA] + [KeyB] == AB && [KeyA] + [KeyA] == AA;
  }

  lemma SortPairs()
    ensures SortNames(["B", "A"]) == ["A", "B"]
    ensures SortNames(["A", "B"]) == ["A", "B"]
    ensures SortNames(["A", "A"]) == ["A", "A"]
  {
    assert NameLe("A", "B") && !NameLe("B", "A") && NameLe("A", "A");
  }

  lemma CanonicalAB()
    ensures Canonicalize(ParseAB, ["B", "A"]) == Ok(AB)
    ensures Canonicalize(ParseAB, ["A", "B"]) == Ok(AB)
    ensures Canonicalize(ParseAB, ["A", "A"]) == Ok(AA)
  {
    SortPairs();
    ParsePairs();
  }

  /** The state after binding "shot" to A+B on a new listener at tick 0. */
  function ChordTables(): Tables
  {
    Tables(map[AB := Mapping(["shot"], map[KeyA := -60_000, KeyB := -60_000])],
           map[KeyA := [AB], KeyB := [AB]], {KeyA, KeyB}, [], [], DefaultWindow)
  }

  lemma NewMappingAB()
    ensures NewMapping(AB, 0) == Mapping([], map[KeyA := -60_000, KeyB := -60_000])
  {
    assert NewMapping(AB, 0).keys == map[KeyA := -60_000, KeyB := -60_000];
  }

  lemma IndexAB(t0: Tables)
    requires t0.reverse == map[] && t0.hooked == {}
    ensures RegisterKeys(t0, AB, AB, Always) == (Success, t0.(reverse := map[KeyA := [AB], KeyB := [AB]], hooked := {KeyA, KeyB}))
  {
    var t1 := t0.(reverse := map[KeyA := [AB]], hooked := {KeyA});
    var t2 := t0.(reverse := map[KeyA := [AB], KeyB := [AB]], hooked := {KeyA, KeyB});
    var ok := Always;
    assert ok(KeyA) && ok(KeyB);
    var r1 := RegisterKey(t0, AB, KeyA, Always);
    assert r1.0 == Success && r1.1.reverse == t1.reverse && r1.1.hooked == t1.hooked;
    var r2 := RegisterKey(t1, AB, KeyB, Always);
    assert r2.0 == Success && r2.1.reverse == t2.reverse && r2.1.hooked == t2.hooked;
    assert AB[1..] == [KeyB] && AB[1..][1..] == [];
    assert RegisterKeys(t1, AB, [KeyB], Always) == (Success, t2);
  }

  /** On a new listener a registration whose names parse creates the group and runs the
      key loop over it. */
  lemma RegisterOnEmpty(parse: string -> Option<KeyCode>, ok: KeyCode -> bool, name: string,
                        keyNames: seq<string>, kc: Fingerprint, m: Mapping)
    requires Canonicalize(parse, keyNames) == Ok(kc) && WithAction(NewMapping(kc, 0), name) == m
    ensures Register(Empty(), parse, ok, name, keyNames, 0)
         == RegisterKeys(Empty().(groups := map[kc := m]), kc, kc, ok)
  {
    assert Empty().groups[kc := m] == map[kc := m];
  }

  /** A new group over A+B holding one action. */
  lemma GroupAB(name: string)
    ensures WithAction(NewMapping(AB, 0), name) == Mapping([name], map[KeyA := -60_000, KeyB := -60_000])
  {
    NewMappingAB();
  }

  /** A new group over A+A holding one action. */
  lemma GroupAA(name: string)
    ensures WithAction(NewMapping(AA, 0), name) == Mapping([name], map[KeyA := -60_000])
  {
    NewMappingAA();
  }

  lemma ChordRegistered()
    ensures Register(Empty(), ParseAB, Always, "shot", ["B", "A"], 0) == (Success, ChordTables())
  {
    CanonicalAB();
    GroupAB("shot");
    var m := Mapping(["shot"], map[KeyA := -60_000, KeyB := -60_000]);
    RegisterOnEmpty(ParseAB, Always, "shot", ["B", "A"], AB, m);
    IndexAB(Empty().(groups := map[AB := m]));
  }

  /** The chord's group after A was seen at `ta` and B at `tb`. */
  function ChordGroup(ta: int, tb: int): Mapping
  {
    Mapping(["shot"], map[KeyA := ta, KeyB := tb])
  }

  lemma ChordCoherent(pending: seq<KeyCode>, ta: int, tb: int, emitted: seq<string>)
    ensures Coherent(ChordTables().(pending := pending, groups := map[AB := ChordGroup(ta, tb)], emitted := emitted))
  {
    var s := ChordTables().(pending := pending, groups := map[AB := ChordGroup(ta, tb)], emitted := emitted);
    assert WellFormedGroup(AB, s.groups[AB]) by {
      assert ChordGroup(ta, tb).keys.Keys == {KeyA, KeyB};
    }
  }

  /** A poll that receives `key` of the chord at tick `now`. */
  lemma ChordPoll(key: KeyCode, rest: seq<KeyCode>, ta: int, tb: int, now: int)
    requires key == KeyA || key == KeyB
    ensures var s := ChordTables().(pending := [key] + rest, groups := map[AB := ChordGroup(ta, tb)]);
            var m := if key == KeyA then ChordGroup(now, tb) else ChordGroup(ta, now);
      && Coherent(s)
      && Poll(s, now) == s.(pending := rest, groups := map[AB := m],
                            emitted := if Pressed(m, DefaultWindow, now) then ["shot"] else [])
  {
    var s := ChordTables().(pending := [key] + rest, groups := map[AB := ChordGroup(ta, tb)]);
    ChordCoherent([key] + rest, ta, tb, []);
    var s1 := s.(pending := rest);
    assert s.pending[0] == key && s.pending[1..] == rest;
    assert s1.reverse[key] == [AB];
    assert Poll(s, now) == PressGroups(s1, key, [AB], now);
    PressOnly(s1, key, now);
    ChordPressGroup(rest, key, ta, tb, now);
  }

  /** One pass of the group loop on the chord's group. */
  lemma ChordPressGroup(rest: seq<KeyCode>, key: KeyCode, ta: int, tb: int, now: int)
    requires key == KeyA || key == KeyB
    ensures var s1 := ChordTables().(pending := rest, groups := map[AB := ChordGroup(ta, tb)]);
            var m := if key == KeyA then ChordGroup(now, tb) else ChordGroup(ta, now);
      && AB in s1.groups && key in s1.groups[AB].keys
      && PressGroup(s1, key, AB, now) == s1.(groups := map[AB := m],
                                             emitted := if Pressed(m, DefaultWindow, now) then ["shot"] else [])
  {
    var s1 := ChordTables().(pending := rest, groups := map[AB := ChordGroup(ta, tb)]);
    var m := if key == KeyA then ChordGroup(now, tb) else ChordGroup(ta, now);
    ChordStamp(key, ta, tb, now);
    assert s1.groups[AB := m] == map[AB := m];
    var out: seq<string> := if Pressed(m, DefaultWindow, now) then ["shot"] else [];
    assert m.actions == ["shot"];
    assert s1.emitted + out == out;
  }

  /** Stamping a key of the chord's group replaces that key's time. */
  lemma ChordStamp(key: KeyCode, ta: int, tb: int, now: int)
    requires key == KeyA || key == KeyB
    ensures Stamped(ChordGroup(ta, tb), key, now) == if key == KeyA then ChordGroup(now, tb) else ChordGroup(ta, now)
  {
    if key == KeyA {
      assert map[KeyA := ta, KeyB := tb][KeyA := now] == map[KeyA := now, KeyB := tb];
    } else {
      assert map[KeyA := ta, KeyB := tb][KeyB := now] == map[KeyA := ta, KeyB := now];
    }
  }

  /** The group loop over a single fingerprint is one pass. */
  lemma PressOnly(t: Tables, key: KeyCode, now: int)
    requires AB in t.groups && key in t.groups[AB].keys
    ensures PressGroups(t, key, [AB], now) == PressGroup(t, key, AB, now)
  {
    assert [AB][0] == AB && [AB][1..] == [];
  }

  lemma ChordFirstPoll(t1: int)
    requires 0 <= t1
    ensures Coherent(ChordTables().(pending := [KeyA, KeyB]))
    ensures Poll(ChordTables().(pending := [KeyA, KeyB]), t1)
         == ChordTables().(pending := [KeyB], groups := map[AB := ChordGroup(t1, -60_000)])
  {
    assert ChordTables().groups == map[AB := ChordGroup(-60_000, -60_000)];
    assert [KeyA, KeyB] == [KeyA] + [KeyB];
    ChordPoll(KeyA, [KeyB], -60_000, -60_000, t1);
    assert !Pressed(ChordGroup(t1, -60_000), DefaultWindow, t1) by {
      assert KeyB in ChordGroup(t1, -60_000).keys;
    }
  }

  lemma ChordSecondPoll(t1: int, t2: int)
    requires 0 <= t1 <= t2
    ensures Coherent(ChordTables().(pending := [KeyB], groups := map[AB := ChordGroup(t1, -60_000)]))
    ensures Poll(ChordTables().(pending := [KeyB], groups := map[AB := ChordGroup(t1, -60_000)]), t2).emitted
         == if t2 - t1 <= DefaultWindow then ["shot"] else []
  {
    assert [KeyB] == [KeyB] + [];
    ChordPoll(KeyB, [], t1, -60_000, t2);
    assert Pressed(ChordGroup(t1, t2), DefaultWindow, t2) <==> t2 - t1 <= DefaultWindow by {
      assert ChordGroup(t1, t2).keys.Keys == {KeyA, KeyB};
    }
  }

  /** "shot" bound to A+B (listed as B, A), then A arrives at tick `t1` and B at `t2`. The
      first poll sends nothing; the second sends "shot" exactly when B came within the
      window of A, and nothing otherwise. */
  lemma ChordFiresWithinWindow(t1: int, t2: int)
    requires 0 <= t1 <= t2
    ensures Register(Empty(), ParseAB, Always, "shot", ["B", "A"], 0) == (Success, ChordTables())
    ensures var s0 := ChordTables().(pending := [KeyA, KeyB]);
      && Coherent(s0)
      && var s1 := Poll(s0, t1);
      && s1.emitted == [] && Coherent(s1)
      && var s2 := Poll(s1, t2);
      && (s2.emitted == ["shot"] <==> t2 - t1 <= DefaultWindow)
      && (s2.emitted == [] <==> t2 - t1 > DefaultWindow)
  {
    ChordRegistered();
    ChordFirstPoll(t1);
    ChordSecondPoll(t1, t2);
  }

  /** The state after binding "x" to A+A on a new listener at tick 0. */
  function DuplicateTables(): Tables
  {
    Tables(map[AA := Mapping(["x"], map[KeyA := -60_000])], map[KeyA := [AA]], {KeyA}, [], [], DefaultWindow)
  }

  lemma DuplicateRegistered()
    ensures Register(Empty(), ParseAB, Always, "x", ["A", "A"], 0) == (Success, DuplicateTables())
  {
    CanonicalAB();
    GroupAA("x");
    var m := Mapping(["x"], map[KeyA := -60_000]);
    RegisterOnEmpty(ParseAB, Always, "x", ["A", "A"], AA, m);
    IndexAA(Empty().(groups := map[AA := m]));
  }

  lemma NewMappingAA()
    ensures NewMapping(AA, 0) == Mapping([], map[KeyA := -60_000])
  {
    assert NewMapping(AA, 0).keys == map[KeyA := -60_000];
  }

  lemma IndexAA(t0: Tables)
    requires t0.reverse == map[] && t0.hooked == {}
    ensures RegisterKeys(t0, AA, AA, Always) == (Success, t0.(reverse := map[KeyA := [AA]], hooked := {KeyA}))
  {
    var t1 := t0.(reverse := map[KeyA := [AA]], hooked := {KeyA});
    var ok := Always;
    assert ok(KeyA);
    var r1 := RegisterKey(t0, AA, KeyA, Always);
    assert r1.0 == Success && r1.1.reverse == t1.reverse && r1.1.hooked == t1.hooked;
    assert RegisterKey(t1, AA, KeyA, Always) == (Success, t1);
    assert AA[1..] == [KeyA] && AA[1..][1..] == [];
    assert RegisterKeys(t1, AA, [KeyA], Always) == (Success, t1);
  }

  lemma DuplicateDetach()
    ensures DetachKeys(DuplicateTables().(groups := map[]), AA, AA, [])
         == (Success, DuplicateTables().(groups := map[], reverse := map[KeyA := []]), [KeyA, KeyA])
  {
    var s0 := DuplicateTables().(groups := map[]);
    assert [AA][1..] == [];
    assert Without(s0.reverse[AA[0]], AA) == [];
    var s2 := s0.(reverse := s0.reverse[AA[0] := []]);
    var e: seq<KeyCode> := [];
    assert DetachKeys(s0, AA, AA, e) == DetachKeys(s2, AA, AA[1..], e + [AA[0]]);
    assert Without(s2.reverse[KeyA], AA) == [];
    assert AA[0] == KeyA && e + [AA[0]] == [KeyA];
    assert AA[1..] == [KeyA] && [KeyA][1..] == [];
    assert s2.reverse[KeyA := []] == s2.reverse;
    assert DetachKeys(s2, AA, [KeyA], [KeyA]) == DetachKeys(s2, AA, [], [KeyA] + [KeyA]);
    assert [KeyA] + [KeyA] == [KeyA, KeyA];
    assert s2.reverse == map[KeyA := []];
    assert s2 == DuplicateTables().(groups := map[], reverse := map[KeyA := []]);
  }

  lemma DuplicateUnhook()
    ensures UnhookKeys(DuplicateTables().(groups := map[], reverse := map[KeyA := []]), [KeyA, KeyA], Always).0
         == Panic(EmptyKeyAlreadyRemoved)
  {
    var s2 := DuplicateTables().(groups := map[], reverse := map[KeyA := []]);
    var ok := Always;
    assert ok(KeyA);
    var s3 := s2.(reverse := s2.reverse - {KeyA}, hooked := s2.hooked - {KeyA});
    assert [KeyA, KeyA][1..] == [KeyA];
    assert UnhookKeys(s2, [KeyA, KeyA], Always) == UnhookKeys(s3, [KeyA], Always);
    assert KeyA !in s3.reverse;
  }

  /** Removing the only action of a group drops the group and runs both key loops. */
  lemma UnregisterOnly(t: Tables, parse: string -> Option<KeyCode>, ok: KeyCode -> bool, name: string,
                       keyNames: seq<string>, kc: Fingerprint)
    requires Canonicalize(parse, keyNames) == Ok(kc) && kc in t.groups && t.groups[kc].actions == [name]
    ensures var d := DetachKeys(t.(groups := t.groups - {kc}), kc, kc, []);
      Unregister(t, parse, ok, name, keyNames) == if d.0.Success? then UnhookKeys(d.1, d.2, ok) else (d.0, d.1)
  {
    assert WithoutAction(t.groups[kc], name).actions == [];
  }

  lemma DuplicateUnregistered()
    ensures Unregister(DuplicateTables(), ParseAB, Always, "x", ["A", "A"]).0 == Panic(EmptyKeyAlreadyRemoved)
  {
    CanonicalAB();
    var s1 := DuplicateTables();
    UnregisterOnly(s1, ParseAB, Always, "x", ["A", "A"], AA);
    assert s1.groups - {AA} == map[];
    DuplicateDetach();
    DuplicateUnhook();
  }

  /** The same key named twice: registration succeeds, but removing the action collects
      the key twice as unreferenced, and the second removal panics. */
  lemma DuplicateKeyNamePanics()
    ensures Register(Empty(), ParseAB, Always, "x", ["A", "A"], 0) == (Success, DuplicateTables())
    ensures Unregister(DuplicateTables(), ParseAB, Always, "x", ["A", "A"]).0 == Panic(EmptyKeyAlreadyRemoved)
  {
    DuplicateRegistered();
    DuplicateUnregistered();
  }

  /** The state after a registration of "x" to A+B whose hook for B failed. */
  function PartialTables(): Tables
  {
    Tables(map[AB := Mapping(["x"], map[KeyA := -60_000, KeyB := -60_000])], map[KeyA := [AB]], {KeyA}, [], [], DefaultWindow)
  }

  lemma PartialRegistered()
    ensures Register(Empty(), ParseAB, NotB, "x", ["A", "B"], 0) == (Failure(CannotRegisterHotkey), PartialTables())
  {
    CanonicalAB();
    GroupAB("x");
    var m := Mapping(["x"], map[KeyA := -60_000, KeyB := -60_000]);
    RegisterOnEmpty(ParseAB, NotB, "x", ["A", "B"], AB, m);
    IndexABPartly(Empty().(groups := map[AB := m]));
  }

  lemma IndexABPartly(t0: Tables)
    requires t0.reverse == map[] && t0.hooked == {}
    ensures RegisterKeys(t0, AB, AB, NotB) == (Failure(CannotRegisterHotkey), t0.(reverse := map[KeyA := [AB]], hooked := {KeyA}))
  {
    var t1 := t0.(reverse := map[KeyA := [AB]], hooked := {KeyA});
    var ok := NotB;
    assert ok(KeyA) && !ok(KeyB);
    var r1 := RegisterKey(t0, AB, KeyA, NotB);
    assert r1.0 == Success && r1.1.reverse == t1.reverse && r1.1.hooked == t1.hooked;
    assert RegisterKey(t1, AB, KeyB, NotB) == (Failure(CannotRegisterHotkey), t1);
    assert AB[1..] == [KeyB];
    assert RegisterKeys(t1, AB, [KeyB], NotB) == (Failure(CannotRegisterHotkey), t1);
  }

  lemma PartialDetach()
    ensures DetachKeys(PartialTables().(groups := map[]), AB, AB, []).0 == Panic(KeyMissingFromReverseLookup)
  {
    var s0 := PartialTables().(groups := map[]);
    assert [AB][1..] == [];
    assert Without(s0.reverse[AB[0]], AB) == [];
    var s2 := s0.(reverse := s0.reverse[AB[0] := []]);
    var e: seq<KeyCode> := [];
    assert DetachKeys(s0, AB, AB, e) == DetachKeys(s2, AB, AB[1..], e + [AB[0]]);
    assert AB[1..] == [KeyB] && KeyB !in s2.reverse;
  }

  lemma PartialUnregistered()
    ensures Unregister(PartialTables(), ParseAB, Always, "x", ["A", "B"]).0 == Panic(KeyMissingFromReverseLookup)
  {
    CanonicalAB();
    var s1 := PartialTables();
    UnregisterOnly(s1, ParseAB, Always, "x", ["A", "B"], AB);
    assert s1.groups - {AB} == map[];
    PartialDetach();
  }

  /** A registration whose second hook fails leaves the group in place with only its first
      key indexed: it changed state and still failed, and removing the action then panics
      on the key that has no entry. */
  lemma PartialRegistrationPanics()
    ensures Register(Empty(), ParseAB, NotB, "x", ["A", "B"], 0) == (Failure(CannotRegisterHotkey), PartialTables())
    ensures PartialTables().groups.Keys == {AB} && PartialTables().groups[AB].actions == ["x"]
    ensures PartialTables().hooked == {KeyA}
    ensures Coherent(PartialTables()) && !Complete(PartialTables())
    ensures Unregister(PartialTables(), ParseAB, Always, "x", ["A", "B"]).0 == Panic(KeyMissingFromReverseLookup)
  {
    PartialRegistered();
    PartialUnregistered();
    PartialShape();
  }

  lemma PartialShape()
    ensures PartialTables().groups.Keys == {AB} && PartialTables().groups[AB].actions == ["x"]
    ensures PartialTables().hooked == {KeyA}
    ensures Coherent(PartialTables()) && !Complete(PartialTables())
  {
    var s1 := PartialTables();
    assert WellFormedGroup(AB, s1.groups[AB]) by {
      assert s1.groups[AB].keys.Keys == {KeyA, KeyB};
    }
    assert KeyB in AB && KeyB !in s1.reverse;
  }
}
