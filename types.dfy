/** Shared vocabulary of the hotkey engine: key codes, fingerprints, errors and outcomes. */
module HotkeyTypes {

  /** An opaque identifier for one physical key. Only equality is used. */
  datatype KeyCode = KeyCode(code: nat)

  /** The identity of a key sequence in the group table: the key codes of its names,
      in the order of the sorted names. It stands in for the 64-bit hash of that list. */
  type Fingerprint = seq<KeyCode>

  /** Which table an `ActionDoesNotExist` error refers to. */
  datatype MapType = Actions | ActionMapping | ReverseLookup

  /** The error kinds of the engine. The foreign hook library's error payload is dropped. */
  datatype Error =
    | HookCreate
    | ActionAlreadyExists
    | ActionDoesNotExist(table: MapType)
    | KeyNotMapped
    | MappedKeyMissingInReverseLookup
    | BadKeyCodeName
    | CannotRegisterHotkey
    | CannotUnregisterHotkey

  /** The two `unreachable!()` sites of unregistration that some inputs do reach. */
  datatype PanicReason =
    | KeyMissingFromReverseLookup   // a key of the group has no reverse-lookup entry
    | EmptyKeyAlreadyRemoved        // a key was collected twice as "now unreferenced"

  /** The result of an operation that returns `Result<()>` or panics. */
  datatype Outcome = Success | Failure(error: Error) | Panic(reason: PanicReason)

  /** The result of an operation that returns a value or an error. */
  datatype Result<T> = Ok(value: T) | Err(error: Error)

  datatype Option<T> = None | Some(value: T)

  /** No element occurs twice. */
  predicate NoDup<T(==)>(s: seq<T>)
  {
    forall i, j :: 0 <= i < j < |s| ==> s[i] != s[j]
  }

  /** The set of elements of a list. */
  function Elements<T(==, !new)>(s: seq<T>): (r: set<T>)
    ensures forall x :: x in r <==> x in s
  {
    set x | x in s
  }

  lemma ElementsCons<T(!new)>(s: seq<T>)
    requires s != []
    ensures Elements(s) == {s[0]} + Elements(s[1..])
  {
    assert s == [s[0]] + s[1..];
  }

  /** `s` with every occurrence of `x` removed, the rest in order (`Vec::retain(|y| y != x)`). */
  function Without<T(==, !new)>(s: seq<T>, x: T): (r: seq<T>)
    ensures forall y :: y in r <==> y in s && y != x
    ensures |r| <= |s|
    ensures x !in s ==> r == s
  {
    if s == [] then []
    else if s[0] == x then Without(s[1..], x)
    else [s[0]] + Without(s[1..], x)
  }

  /** In a duplicate-free list, removing `x` removes exactly its one occurrence. */
  lemma {:induction false} WithoutAt<T(!new)>(s: seq<T>, i: nat)
    requires NoDup(s) && i < |s|
    ensures Without(s, s[i]) == s[..i] + s[i + 1..]
  {
    if i == 0 {
      assert s[0] !in s[1..];
      assert s[1..] == s[..0] + s[1..];
    } else {
      assert NoDup(s[1..]);
      WithoutAt(s[1..], i - 1);
      assert s[1..][i - 1] == s[i];
      assert s[..i] == [s[0]] + s[1..][..i - 1];
      assert s[1..][i..] == s[i + 1..];
    }
  }

  /** Removing an element keeps a list duplicate-free. */
  lemma {:induction false} WithoutNoDup<T(!new)>(s: seq<T>, x: T)
    requires NoDup(s)
    ensures NoDup(Without(s, x))
  {
    if s != [] {
      assert NoDup(s[1..]);
      WithoutNoDup(s[1..], x);
      assert s[0] !in s[1..];
    }
  }

  /** The number of occurrences of `x` in `s`. */
  function Count<T(==)>(s: seq<T>, x: T): nat
  {
    if s == [] then 0 else (if s[0] == x then 1 else 0) + Count(s[1..], x)
  }

  /** In a duplicate-free list every member occurs exactly once. */
  lemma {:induction false} CountNoDup<T>(s: seq<T>, x: T)
    requires NoDup(s)
    ensures Count(s, x) == (if x in s then 1 else 0)
  {
    if s != [] {
      assert NoDup(s[1..]);
      CountNoDup(s[1..], x);
      assert s[0] !in s[1..];
      if x in s && x != s[0] {
        var i :| 0 <= i < |s| && s[i] == x;
        assert s[1..][i - 1] == x;
      }
    }
  }
}
