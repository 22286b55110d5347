/** Canonicalisation of a key-name list (`string_slice_to_vec_and_hash`): sort the names,
    parse each into a key code, and use the resulting list as the fingerprint. */
module Canonical {
  import opened HotkeyTypes
  import opened KeyNames

  /** Parses the names in order; any name that does not parse fails the whole list. */
  function ParseAll(parse: string -> Option<KeyCode>, names: seq<string>): (r: Option<seq<KeyCode>>)
    ensures r.Some? <==> forall i :: 0 <= i < |names| ==> parse(names[i]).Some?
    ensures r.Some? ==> |r.value| == |names|
    ensures r.Some? ==> forall i :: 0 <= i < |names| ==> parse(names[i]) == Some(r.value[i])
  {
    if names == [] then Some([])
    else
      match parse(names[0])
      case None => None
      case Some(k) =>
        match ParseAll(parse, names[1..])
        case None =>
          assert forall i :: 1 <= i < |names| ==> names[1..][i - 1] == names[i];
          None
        case Some(ks) =>
          assert forall i :: 1 <= i < |names| ==> names[1..][i - 1] == names[i];
          Some([k] + ks)
  }

  /** The key codes of `names` in the order of the sorted names, or `BadKeyCodeName` when
      some name is not a key name. */
  function Canonicalize(parse: string -> Option<KeyCode>, names: seq<string>): (r: Result<Fingerprint>)
    ensures r.Err? <==> exists n :: n in names && parse(n).None?
    ensures r.Err? ==> r.error == BadKeyCodeName
    ensures r.Ok? ==> |r.value| == |names|
    ensures r.Ok? ==> forall k :: k in r.value <==> exists n :: n in names && parse(n) == Some(k)
  {
    var sorted := SortNames(names);
    SortNamesSameNames(names);
    match ParseAll(parse, sorted)
    case None => Err(BadKeyCodeName)
    case Some(kc) =>
      ParsedCodes(parse, sorted, kc);
      Ok(kc)
  }

  lemma SortNamesSameNames(names: seq<string>)
    ensures forall n :: n in SortNames(names) <==> n in names
    ensures |SortNames(names)| == |names|
  {
    var sorted := SortNames(names);
    forall n ensures n in sorted <==> n in names {
      assert n in sorted <==> n in multiset(sorted);
      assert n in names <==> n in multiset(names);
    }
    assert |sorted| == |multiset(sorted)| == |names|;
  }

  lemma ParsedCodes(parse: string -> Option<KeyCode>, names: seq<string>, kc: seq<KeyCode>)
    requires ParseAll(parse, names) == Some(kc)
    ensures forall k :: k in kc <==> exists n :: n in names && parse(n) == Some(k)
  {
    forall k | k in kc ensures exists n :: n in names && parse(n) == Some(k) {
      var i :| 0 <= i < |kc| && kc[i] == k;
      assert names[i] in names && parse(names[i]) == Some(k);
    }
    forall k | exists n :: n in names && parse(n) == Some(k) ensures k in kc {
      var n :| n in names && parse(n) == Some(k);
      var i :| 0 <= i < |names| && names[i] == n;
      assert kc[i] == k;
    }
  }

  /** The order in which the names are listed never matters: any rearrangement gives the
      same key codes, so the same fingerprint, or the same error. */
  lemma CanonicalizeOrderIndependent(parse: string -> Option<KeyCode>, a: seq<string>, b: seq<string>)
    requires multiset(a) == multiset(b)
    ensures Canonicalize(parse, a) == Canonicalize(parse, b)
  {
    SortNamesOrderIndependent(a, b);
  }

  /** Duplicate names produce duplicate key codes: the same name twice is the same key twice. */
  lemma CanonicalizeRepeatsName(parse: string -> Option<KeyCode>, names: seq<string>, i: nat, j: nat)
    requires i < j < |names| && names[i] == names[j]
    requires Canonicalize(parse, names).Ok?
    ensures !NoDup(Canonicalize(parse, names).value)
  {
    var sorted := SortNames(names);
    var kc := Canonicalize(parse, names).value;
    RepeatCounted(names, i, j);
    var p, q := RepeatFound(sorted, names[i]);
    assert kc[p] == kc[q];
  }

  lemma {:induction false} RepeatCounted(s: seq<string>, i: nat, j: nat)
    requires i < j < |s| && s[i] == s[j]
    ensures multiset(s)[s[i]] >= 2
  {
    assert s == [s[0]] + s[1..];
    assert multiset(s) == multiset{s[0]} + multiset(s[1..]);
    if i == 0 {
      assert s[1..][j - 1] == s[j];
      assert s[j] in multiset(s[1..]);
    } else {
      assert s[1..][i - 1] == s[i] && s[1..][j - 1] == s[j];
      RepeatCounted(s[1..], i - 1, j - 1);
    }
  }

  lemma {:induction false} RepeatFound(s: seq<string>, x: string) returns (p: nat, q: nat)
    requires multiset(s)[x] >= 2
    ensures p < q < |s| && s[p] == x && s[q] == x
  {
    assert s == [s[0]] + s[1..];
    assert multiset(s) == multiset{s[0]} + multiset(s[1..]);
    if s[0] == x {
      assert x in multiset(s[1..]);
      var k :| 0 <= k < |s[1..]| && s[1..][k] == x;
      p, q := 0, k + 1;
    } else {
      var p', q' := RepeatFound(s[1..], x);
      p, q := p' + 1, q' + 1;
    }
  }
}
