/** Rotors: a permutation plus a rotational setting.  The base behaviour
    (setting, conversion in both directions) is a minimal stand-in; the
    moving variant adds notches, reports that it rotates, and advances its
    setting by one modulo the alphabet size. */
module Rotors {
  import opened Base
  import opened Alphabets
  import opened Permutations

  /** The three kinds of rotor: a reflector, a rotor that never moves, and
      a moving rotor with its notch characters. */
  datatype Kind = Reflector | Fixed | Moving(notches: string)

  /** A moving rotor is at a notch when the alphabet character at its
      setting is one of its notches. */
  predicate NotchAt(kind: Kind, a: Alphabet, s: int) {
    kind.Moving? && 0 <= s < a.Size() && a.ToChar(s) in kind.notches
  }

  /** The signal entering at contact `c` of a rotor of permutation `p` at
      setting `s`: shift by the setting, permute, shift back. */
  function ForwardAt(p: Permutation, s: int, c: int): (r: int)
    requires p.Valid()
    ensures 0 <= r < p.Size()
  {
    p.Wrap(p.Permute(c + s) - s)
  }

  /** The same passage in the opposite direction, through the inverse. */
  function BackwardAt(p: Permutation, s: int, c: int): (r: int)
    requires p.Valid()
    ensures 0 <= r < p.Size()
  {
    p.Wrap(p.Invert(c + s) - s)
  }

  lemma WrapShift(p: Permutation, x: int, s: int)
    requires p.Size() > 0
    ensures p.Wrap(p.Wrap(x) + s) == p.Wrap(x + s)
  {
    ModAddLeft(x, s, p.Size());
  }

  /** At a fixed setting the backward passage undoes the forward one. */
  lemma BackwardForward(p: Permutation, s: int, c: int)
    requires p.Valid()
    ensures IsBijection(p.slist) ==> BackwardAt(p, s, ForwardAt(p, s, c)) == p.Wrap(c)
  {
    if !IsBijection(p.slist) { return; }
    var y := p.Permute(c + s);
    WrapShift(p, y - s, s);
    assert p.Wrap(y) == y by { ModUnique(y, p.Size(), 0, y); }
    InvertPermute(p, c + s);
    var w := p.Wrap(c + s);
    WrapShift(p, c, s);
    WrapShift(p, c + s, -s);
  }

  /** At a fixed setting the forward passage undoes the backward one. */
  lemma ForwardBackward(p: Permutation, s: int, c: int)
    requires p.Valid()
    ensures IsBijection(p.slist) ==> ForwardAt(p, s, BackwardAt(p, s, c)) == p.Wrap(c)
  {
    if !IsBijection(p.slist) { return; }
    var y := p.Invert(c + s);
    PermuteInvert(p, c + s);
    assert 0 <= y < p.Size();
    WrapShift(p, y - s, s);
    assert p.Wrap(y) == y by { ModUnique(y, p.Size(), 0, y); }
    WrapShift(p, c + s, -s);
  }

  /** For a reflector whose table is an involution, reflecting twice at the
      same setting returns the contact. */
  lemma ForwardInvolution(p: Permutation, s: int, c: int)
    requires p.Valid() && IsInvolution(p.slist) && 0 <= c < p.Size()
    ensures ForwardAt(p, s, ForwardAt(p, s, c)) == c
  {
    InvolutionIsBijection(p.slist);
    var y := p.Permute(c + s);
    WrapShift(p, y - s, s);
    assert p.Wrap(y) == y by { ModUnique(y, p.Size(), 0, y); }
    var w := p.Wrap(c + s);
    assert p.Permute(y) == w;
    WrapShift(p, c, s);
    WrapShift(p, c + s, -s);
    ModUnique(c, p.Size(), 0, c);
  }

  /** A contact the rotor maps to itself comes from a fixed point of its
      table. */
  lemma ForwardFixed(p: Permutation, s: int, q: int)
    requires p.Valid() && 0 <= q < p.Size() && ForwardAt(p, s, q) == q
    ensures p.slist[p.Wrap(q + s)] == p.Wrap(q + s)
  {
    var v := p.Permute(q + s);
    WrapShift(p, v - s, s);
    ModUnique(v, p.Size(), 0, v);
  }

  /** The setting of a moving rotor after `k` calls of `Advance` from
      setting `s`, over an alphabet of size `n`. */
  function Advanced(n: nat, s: int, k: nat): int
    requires n > 0
  {
    if k == 0 then s else (Advanced(n, s, k - 1) + 1) % n
  }

  /** Advancing `k` times adds `k` modulo the size. */
  lemma {:induction false} AdvancedIsShift(n: nat, s: int, k: nat)
    requires n > 0 && 0 <= s < n
    ensures Advanced(n, s, k) == (s + k) % n
  {
    if k == 0 {
      ModUnique(s, n, 0, s);
    } else {
      AdvancedIsShift(n, s, k - 1);
      ModAddLeft(s + k - 1, 1, n);
    }
  }

  /** A full revolution restores the setting. */
  lemma FullRevolution(n: nat, s: int)
    requires n > 0 && 0 <= s < n
    ensures Advanced(n, s, n) == s
  {
    AdvancedIsShift(n, s, n);
    ModUnique(s + n, n, 1, s);
  }

  /** A rotor that does not rotate is never at a notch, whatever its
      setting. */
  lemma StillNeverAtNotch(r: Rotor, s: int)
    requires !r.Rotates()
    ensures !NotchAt(r.kind, r.perm.alphabet, s)
  {
  }

  class Rotor {
    const name: string
    const kind: Kind
    const perm: Permutation
    var setting: int

    /** The permutation is well formed and the setting is an index. */
    ghost predicate Valid()
      reads this
    {
      perm.Valid() && 0 <= setting < perm.Size()
    }

    /** A rotor named `name` whose permutation at setting 0 is `perm`; it
        starts at setting 0. */
    constructor (name: string, kind: Kind, perm: Permutation)
      requires perm.Valid()
      ensures Valid()
      ensures this.name == name && this.kind == kind && this.perm == perm && setting == 0
    {
      this.name := name;
      this.kind := kind;
      this.perm := perm;
      setting := 0;
    }

    /** Moving rotors rotate; the others do not. */
    predicate Rotates()
      ensures Rotates() <==> kind.Moving?
    {
      kind.Moving?
    }

    predicate Reflecting() {
      kind.Reflector?
    }

    method Set(posn: int)
      requires perm.Valid() && 0 <= posn < perm.Size()
      modifies this
      ensures Valid() && setting == posn
    {
      setting := posn;
    }

    /** Set the setting to the index of character `cposn`. */
    method SetChar(cposn: char)
      requires perm.Valid() && perm.alphabet.Contains(cposn)
      modifies this
      ensures Valid() && setting == perm.alphabet.ToInt(cposn)
    {
      Set(perm.alphabet.ToInt(cposn));
    }

    /** True iff the alphabet character at the current setting is one of
        the notches; a rotor that does not move has none. */
    method AtNotch() returns (b: bool)
      requires Valid()
      ensures b <==> NotchAt(kind, perm.alphabet, setting)
    {
      if !kind.Moving? {
        return false;
      }
      var notches := kind.notches;
      var current := perm.alphabet.ToChar(setting);
      var i := 0;
      while i < |notches|
        invariant 0 <= i <= |notches|
        invariant current !in notches[..i]
      {
        if notches[i] == current {
          return true;
        }
        assert notches[..i + 1] == notches[..i] + [notches[i]];
        i := i + 1;
      }
      assert notches[..i] == notches;
      return false;
    }

    /** A moving rotor steps its setting by one modulo the alphabet size;
        any other rotor stays where it is. */
    method Advance()
      requires Valid()
      modifies this
      ensures Valid()
      ensures setting == if kind.Moving? then (old(setting) + 1) % perm.Size() else old(setting)
      ensures kind.Moving? ==> setting == Advanced(perm.Size(), old(setting), 1)
    {
      if kind.Moving? {
        Set(perm.Wrap(setting + 1));
      }
    }

    /** The forward passage at the current setting. */
    function ConvertForward(c: int): (r: int)
      requires Valid()
      reads this
      ensures 0 <= r < perm.Size()
      ensures IsBijection(perm.slist) ==> BackwardAt(perm, setting, r) == perm.Wrap(c)
    {
      BackwardForward(perm, setting, c);
      ForwardAt(perm, setting, c)
    }

    /** The backward passage at the current setting: the inverse of
        `ConvertForward`. */
    function ConvertBackward(c: int): (r: int)
      requires Valid()
      reads this
      ensures 0 <= r < perm.Size()
      ensures IsBijection(perm.slist) ==> ForwardAt(perm, setting, r) == perm.Wrap(c)
    {
      ForwardBackward(perm, setting, c);
      BackwardAt(perm, setting, c)
    }
  }
}
