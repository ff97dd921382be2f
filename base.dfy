/** Shared vocabulary: the configuration errors, result wrappers and a few
    sequence helpers (linear search, filtering, distinctness). */
module Base {

  /** The error conditions the machine reports; each names the check that fired. */
  datatype Error =
    | NotInAlphabet             // a character or index outside the alphabet
    | TooManyPawls
    | NotSupposedToRotate
    | RotorsShouldRotate
    | IncorrectNumberOfSettings
    | MissingReflector
    | SettingNotInAlphabet

  datatype Result<T> = Success(value: T) | Failure(error: Error)

  datatype Outcome = Pass | Fail(error: Error)

  datatype Option<T> = None | Some(value: T)

  /** Linear search from the front, as `List.indexOf`: the first position of
      `x` in `s`, or -1 when `x` does not occur. */
  function IndexOf<T(==)>(s: seq<T>, x: T): (r: int)
    ensures -1 <= r < |s|
    ensures r == -1 <==> x !in s
    ensures r >= 0 ==> s[r] == x && x !in s[..r]
  {
    if s == [] then -1
    else if s[0] == x then 0
    else
      var k := IndexOf(s[1..], x);
      if k < 0 then -1 else k + 1
  }

  /** The elements of `s` that are not in `drop`, in their original order. */
  function Without<T(==,!new)>(s: seq<T>, drop: set<T>): (r: seq<T>)
    ensures |r| <= |s|
    ensures forall x :: x in r <==> x in s && x !in drop
  {
    if s == [] then []
    else (if s[0] in drop then [] else [s[0]]) + Without(s[1..], drop)
  }

  /** No element occurs twice. */
  ghost predicate Distinct<T>(s: seq<T>) {
    forall i, j :: 0 <= i < j < |s| ==> s[i] != s[j]
  }

  /** Filtering twice is filtering once by the union of the two sets. */
  lemma {:induction false} WithoutWithout<T(!new)>(s: seq<T>, a: set<T>, b: set<T>)
    ensures Without(Without(s, a), b) == Without(s, a + b)
  {
    if s != [] {
      WithoutWithout(s[1..], a, b);
      var head := if s[0] in a then [] else [s[0]];
      assert Without(s, a) == head + Without(s[1..], a);
      WithoutAppend(head, Without(s[1..], a), b);
    }
  }

  lemma {:induction false} WithoutAppend<T(!new)>(s: seq<T>, t: seq<T>, drop: set<T>)
    ensures Without(s + t, drop) == Without(s, drop) + Without(t, drop)
  {
    if s != [] {
      assert (s + t)[1..] == s[1..] + t;
      WithoutAppend(s[1..], t, drop);
    } else {
      assert s + t == t;
    }
  }

  /** Dropping every element leaves nothing. */
  lemma {:induction false} WithoutAll<T(!new)>(s: seq<T>, drop: set<T>)
    requires forall i :: 0 <= i < |s| ==> s[i] in drop
    ensures Without(s, drop) == []
  {
    if s != [] {
      WithoutAll(s[1..], drop);
    }
  }

  /** Overwriting position `i` and keeping the first i+1 elements is the
      first `i` elements followed by the new one. */
  lemma TakeUpdate<T>(s: seq<T>, i: int, x: T)
    requires 0 <= i < |s|
    ensures s[i := x][..i + 1] == s[..i] + [x]
  {
  }
}
