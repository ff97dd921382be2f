/** The rotor machine: a slot array of rotors (slot 0 the reflector, the
    rightmost `pawls` slots the moving rotors) and a plugboard.  For each
    character it first decides which moving rotors step, reading every notch
    before any rotor moves, then advances them, then sends the signal
    through the plugboard, the rotors right to left, back left to right
    (skipping the reflector), and the inverse plugboard. */
module Machines {
  import opened Base
  import opened Alphabets
  import opened Permutations
  import opened Rotors

  // ---------------------------------------------------------------------
  // The configuration seen as values
  // ---------------------------------------------------------------------

  /** Every rotor's permutation is well formed and over the machine's
      alphabet. */
  ghost predicate Wired(a: Alphabet, rs: seq<Rotor>) {
    a.Valid() && forall k :: 0 <= k < |rs| ==> rs[k].perm.Valid() && rs[k].perm.alphabet == a
  }

  /** One setting per slot, each an index. */
  ghost predicate Positions(a: Alphabet, rs: seq<Rotor>, st: seq<int>) {
    |st| == |rs| && forall k :: 0 <= k < |st| ==> 0 <= st[k] < a.Size()
  }

  /** The plugboard is a permutation over the machine's alphabet. */
  ghost predicate PlugFits(a: Alphabet, plug: Permutation) {
    plug.Valid() && plug.alphabet == a
  }

  // ---------------------------------------------------------------------
  // Stepping
  // ---------------------------------------------------------------------

  /** The rotor in slot `k` is at a notch at settings `st`. */
  ghost predicate AtNotchIn(rs: seq<Rotor>, st: seq<int>, k: int)
    requires |st| == |rs| && 0 <= k < |rs|
  {
    NotchAt(rs[k].kind, rs[k].perm.alphabet, st[k])
  }

  /** Slot `k` is marked to advance, given that the moving rotors occupy
      slots `mR` and up: the rightmost slot always is; a moving rotor right
      of the leftmost moving one marks itself when at a notch; and a moving
      rotor is marked when its right neighbour is at a notch. */
  ghost predicate Marked(rs: seq<Rotor>, st: seq<int>, mR: int, k: int)
    requires |st| == |rs| && 0 <= k < |rs|
  {
    k == |rs| - 1 ||
    (mR + 1 <= k && AtNotchIn(rs, st, k)) ||
    (mR <= k && k + 1 < |rs| && AtNotchIn(rs, st, k + 1))
  }

  /** The marks for the moving slots mR.. as a sequence: entry k is for
      slot mR + k. */
  ghost function Marks(rs: seq<Rotor>, st: seq<int>, mR: int): (r: seq<bool>)
    requires |st| == |rs| && 0 <= mR <= |rs|
    ensures |r| == |rs| - mR
  {
    seq(|rs| - mR, k requires 0 <= k < |rs| - mR => Marked(rs, st, mR, mR + k))
  }

  /** The marks after reading the notches of slots mR+1 .. m-1 in turn: a
      rotor at a notch marks itself and its left neighbour. */
  ghost function MarksUpTo(rs: seq<Rotor>, st: seq<int>, mR: int, m: int): (r: seq<bool>)
    requires |st| == |rs| && 0 <= mR < m <= |rs|
    ensures |r| == |rs| - mR
    decreases m
  {
    if m == mR + 1 then seq(|rs| - mR, _ => false)
    else
      var prev := MarksUpTo(rs, st, mR, m - 1);
      if AtNotchIn(rs, st, m - 1) then prev[m - 1 - mR := true][m - 2 - mR := true] else prev
  }

  /** What the marks hold after reading the notches up to slot m-1. */
  lemma {:induction false} MarksUpToHolds(rs: seq<Rotor>, st: seq<int>, mR: int, m: int, k: int)
    requires |st| == |rs| && 0 <= mR < m <= |rs| && 0 <= k < |rs| - mR
    ensures MarksUpTo(rs, st, mR, m)[k] ==
            ((mR + 1 <= mR + k < m && AtNotchIn(rs, st, mR + k)) ||
             (mR + k + 1 < m && AtNotchIn(rs, st, mR + k + 1)))
    decreases m
  {
    if m > mR + 1 {
      MarksUpToHolds(rs, st, mR, m - 1, k);
    }
  }

  /** Reading every notch and then marking the rightmost slot gives the
      marks of one stepping. */
  lemma MarksComplete(rs: seq<Rotor>, st: seq<int>, mR: int)
    requires |st| == |rs| && 0 <= mR < |rs|
    ensures MarksUpTo(rs, st, mR, |rs|)[|rs| - mR - 1 := true] == Marks(rs, st, mR)
  {
    var got := MarksUpTo(rs, st, mR, |rs|)[|rs| - mR - 1 := true];
    forall k | 0 <= k < |rs| - mR ensures got[k] == Marks(rs, st, mR)[k] {
      assert Marks(rs, st, mR)[k] == Marked(rs, st, mR, mR + k);
      if k < |rs| - mR - 1 {
        MarksUpToHolds(rs, st, mR, |rs|, k);
      }
    }
  }

  /** `st` with slot mR + k advanced modulo `n` for every k < |marks| that
      is marked. */
  function Bumped(st: seq<int>, marks: seq<bool>, mR: int, n: int): (r: seq<int>)
    requires n > 0
    ensures |r| == |st|
    ensures forall k :: 0 <= k < |st| && !(mR <= k < mR + |marks| && marks[k - mR]) ==> r[k] == st[k]
    ensures forall k :: 0 <= k < |st| && mR <= k < mR + |marks| && marks[k - mR] ==> r[k] == (st[k] + 1) % n
  {
    seq(|st|, k requires 0 <= k < |st| =>
      if mR <= k < mR + |marks| && marks[k - mR] then (st[k] + 1) % n else st[k])
  }

  /** Marking one more slot advances that slot, from wherever the shorter
      marking left it, and changes nothing else; leaving it unmarked changes
      nothing. */
  lemma BumpedSnoc(st: seq<int>, marks: seq<bool>, b: bool, mR: int, n: int)
    requires n > 0 && 0 <= mR && mR + |marks| < |st|
    ensures var short := Bumped(st, marks, mR, n);
            var j := mR + |marks|;
            Bumped(st, marks + [b], mR, n) == if b then short[j := (short[j] + 1) % n] else short
  {
    var long := Bumped(st, marks + [b], mR, n);
    var short := Bumped(st, marks, mR, n);
    forall k | 0 <= k < |st| && k != mR + |marks| ensures long[k] == short[k] {
      if mR <= k < mR + |marks| {
        assert (marks + [b])[k - mR] == marks[k - mR];
      }
    }
    assert (marks + [b])[|marks|] == b;
  }

  /** `BumpedSnoc` for the prefixes of one marking. */
  lemma BumpedPrefix(st: seq<int>, marks: seq<bool>, i: int, mR: int, n: int)
    requires n > 0 && 0 <= mR && 0 <= i < |marks| && mR + |marks| <= |st|
    ensures var short := Bumped(st, marks[..i], mR, n);
            Bumped(st, marks[..i + 1], mR, n) ==
              if marks[i] then short[mR + i := (short[mR + i] + 1) % n] else short
  {
    BumpedSnoc(st, marks[..i], marks[i], mR, n);
    assert marks[..i + 1] == marks[..i] + [marks[i]];
  }

  /** The settings after one stepping: every marked rotor advances by one;
      all marks are taken from the settings before the step. */
  ghost function Step(a: Alphabet, rs: seq<Rotor>, st: seq<int>, mR: int): (r: seq<int>)
    requires Wired(a, rs) && Positions(a, rs, st) && 0 <= mR <= |rs|
    ensures Positions(a, rs, r)
  {
    Bumped(st, Marks(rs, st, mR), mR, a.Size())
  }

  /** The settings after `k` steppings. */
  ghost function Iter(a: Alphabet, rs: seq<Rotor>, st: seq<int>, mR: int, k: nat): (r: seq<int>)
    requires Wired(a, rs) && Positions(a, rs, st) && 0 <= mR <= |rs|
    ensures Positions(a, rs, r)
  {
    if k == 0 then st else Step(a, rs, Iter(a, rs, st, mR, k - 1), mR)
  }

  /** Slot `k` after one stepping: advanced by one when it is a marked
      moving slot, unchanged otherwise. */
  lemma StepAt(a: Alphabet, rs: seq<Rotor>, st: seq<int>, mR: int, k: int)
    requires Wired(a, rs) && Positions(a, rs, st) && 0 <= mR <= |rs| && 0 <= k < |rs|
    ensures Step(a, rs, st, mR)[k] ==
            if mR <= k && Marked(rs, st, mR, k) then (st[k] + 1) % a.Size() else st[k]
  {
    if mR <= k {
      assert Marks(rs, st, mR)[k - mR] == Marked(rs, st, mR, k);
    }
  }

  /** The rightmost rotor advances on every character. */
  lemma FastRotorAlwaysSteps(a: Alphabet, rs: seq<Rotor>, st: seq<int>, mR: int)
    requires Wired(a, rs) && Positions(a, rs, st) && 0 <= mR < |rs|
    ensures Step(a, rs, st, mR)[|rs| - 1] == (st[|rs| - 1] + 1) % a.Size()
  {
    StepAt(a, rs, st, mR, |rs| - 1);
  }

  /** A moving rotor right of the leftmost moving one that is at a notch
      advances, and so does its left neighbour. */
  lemma NotchPulls(a: Alphabet, rs: seq<Rotor>, st: seq<int>, mR: int, k: int)
    requires Wired(a, rs) && Positions(a, rs, st)
    requires 0 <= mR && mR + 1 <= k < |rs| && AtNotchIn(rs, st, k)
    ensures Step(a, rs, st, mR)[k] == (st[k] + 1) % a.Size()
    ensures Step(a, rs, st, mR)[k - 1] == (st[k - 1] + 1) % a.Size()
  {
    StepAt(a, rs, st, mR, k);
    StepAt(a, rs, st, mR, k - 1);
  }

  /** The notch of the leftmost moving rotor is never read: it advances
      exactly when it is the rightmost slot or its right neighbour is at a
      notch. */
  lemma LeftmostNotchIgnored(a: Alphabet, rs: seq<Rotor>, st: seq<int>, mR: int)
    requires Wired(a, rs) && Positions(a, rs, st) && 0 <= mR < |rs|
    ensures Step(a, rs, st, mR)[mR] ==
            if mR == |rs| - 1 || AtNotchIn(rs, st, mR + 1) then (st[mR] + 1) % a.Size() else st[mR]
  {
    StepAt(a, rs, st, mR, mR);
  }

  /** Slots left of the moving rotors never change. */
  lemma FixedSlotsStay(a: Alphabet, rs: seq<Rotor>, st: seq<int>, mR: int, k: int)
    requires Wired(a, rs) && Positions(a, rs, st) && 0 <= k < mR <= |rs|
    ensures Step(a, rs, st, mR)[k] == st[k]
  {
    StepAt(a, rs, st, mR, k);
  }

  /** The double step: when the right neighbour of a middle rotor is at a
      notch, the middle rotor advances; if that brings it onto its own notch
      it advances again on the next character, together with its left
      neighbour. */
  lemma DoubleStep(a: Alphabet, rs: seq<Rotor>, st: seq<int>, mR: int, k: int)
    requires Wired(a, rs) && Positions(a, rs, st)
    requires 0 <= mR && mR + 1 <= k && k + 1 < |rs|
    requires AtNotchIn(rs, st, k + 1) && AtNotchIn(rs, Step(a, rs, st, mR), k)
    ensures Step(a, rs, Step(a, rs, st, mR), mR)[k] == (st[k] + 2) % a.Size()
    ensures Step(a, rs, Step(a, rs, st, mR), mR)[k - 1] == (Step(a, rs, st, mR)[k - 1] + 1) % a.Size()
  {
    var st1 := Step(a, rs, st, mR);
    StepAt(a, rs, st, mR, k);
    NotchPulls(a, rs, st1, mR, k);
    ModAddLeft(st[k] + 1, 1, a.Size());
  }

  // ---------------------------------------------------------------------
  // The signal path
  // ---------------------------------------------------------------------

  /** Forward passes through slots hi-1 down to lo (rightmost first). */
  ghost function Fwd(a: Alphabet, rs: seq<Rotor>, st: seq<int>, lo: int, hi: int, c: int): (r: int)
    requires Wired(a, rs) && Positions(a, rs, st) && 0 <= lo <= hi <= |rs|
    ensures lo < hi || 0 <= c < a.Size() ==> 0 <= r < a.Size()
    decreases hi - lo
  {
    if lo == hi then c else ForwardAt(rs[lo].perm, st[lo], Fwd(a, rs, st, lo + 1, hi, c))
  }

  /** Backward passes through slots lo up to hi-1 (leftmost first). */
  ghost function Bwd(a: Alphabet, rs: seq<Rotor>, st: seq<int>, lo: int, hi: int, c: int): (r: int)
    requires Wired(a, rs) && Positions(a, rs, st) && 0 <= lo <= hi <= |rs|
    ensures 0 <= c < a.Size() ==> 0 <= r < a.Size()
    decreases hi - lo
  {
    if lo == hi then c else Bwd(a, rs, st, lo + 1, hi, BackwardAt(rs[lo].perm, st[lo], c))
  }

  /** Every rotor's table is a bijection. */
  ghost predicate AllBijective(rs: seq<Rotor>) {
    forall k :: 0 <= k < |rs| ==> IsBijection(rs[k].perm.slist)
  }

  /** The backward passes undo the forward passes over the same slots. */
  lemma {:induction false} BwdFwd(a: Alphabet, rs: seq<Rotor>, st: seq<int>, lo: int, hi: int, x: int)
    requires Wired(a, rs) && Positions(a, rs, st) && 0 <= lo <= hi <= |rs| && AllBijective(rs)
    requires 0 <= x < a.Size()
    ensures Bwd(a, rs, st, lo, hi, Fwd(a, rs, st, lo, hi, x)) == x
    decreases hi - lo
  {
    if lo < hi {
      var p := rs[lo].perm;
      var inner := Fwd(a, rs, st, lo + 1, hi, x);
      BackwardForward(p, st[lo], inner);
      ModUnique(inner, a.Size(), 0, inner);
      BwdFwd(a, rs, st, lo + 1, hi, x);
    }
  }

  /** The forward passes undo the backward passes over the same slots. */
  lemma {:induction false} FwdBwd(a: Alphabet, rs: seq<Rotor>, st: seq<int>, lo: int, hi: int, y: int)
    requires Wired(a, rs) && Positions(a, rs, st) && 0 <= lo <= hi <= |rs| && AllBijective(rs)
    requires 0 <= y < a.Size()
    ensures Fwd(a, rs, st, lo, hi, Bwd(a, rs, st, lo, hi, y)) == y
    decreases hi - lo
  {
    if lo < hi {
      var p := rs[lo].perm;
      var b := BackwardAt(p, st[lo], y);
      FwdBwd(a, rs, st, lo + 1, hi, b);
      ForwardBackward(p, st[lo], y);
      ModUnique(y, a.Size(), 0, y);
    }
  }

  /** Q: the plugboard followed by the forward passes through slots n-1..1. */
  ghost function Q(a: Alphabet, rs: seq<Rotor>, st: seq<int>, plug: Permutation, c: int): (r: int)
    requires Wired(a, rs) && Positions(a, rs, st) && |rs| >= 1 && PlugFits(a, plug)
    ensures 0 <= r < a.Size()
  {
    Fwd(a, rs, st, 1, |rs|, plug.Permute(c))
  }

  /** The backward passes through slots 1..n-1 followed by the inverse
      plugboard. */
  ghost function QInv(a: Alphabet, rs: seq<Rotor>, st: seq<int>, plug: Permutation, y: int): (r: int)
    requires Wired(a, rs) && Positions(a, rs, st) && |rs| >= 1 && PlugFits(a, plug)
    ensures -1 <= r < a.Size()
  {
    plug.Invert(Bwd(a, rs, st, 1, |rs|, y))
  }

  /** R: the reflector's forward map. */
  ghost function Reflect(a: Alphabet, rs: seq<Rotor>, st: seq<int>, y: int): (r: int)
    requires Wired(a, rs) && Positions(a, rs, st) && |rs| >= 1
    ensures 0 <= r < a.Size()
  {
    ForwardAt(rs[0].perm, st[0], y)
  }

  /** The per-character map at settings `st`: Q⁻¹ ∘ R ∘ Q. */
  ghost function Signal(a: Alphabet, rs: seq<Rotor>, st: seq<int>, plug: Permutation, c: int): (r: int)
    requires Wired(a, rs) && Positions(a, rs, st) && |rs| >= 1 && PlugFits(a, plug)
    ensures -1 <= r < a.Size()
    ensures IsBijection(plug.slist) ==> 0 <= r
  {
    var y := Reflect(a, rs, st, Q(a, rs, st, plug, c));
    var b := Bwd(a, rs, st, 1, |rs|, y);
    ModUnique(b, a.Size(), 0, b);
    QInv(a, rs, st, plug, y)
  }

  /** Q⁻¹ is the inverse of Q, in both orders. */
  lemma QRoundTrips(a: Alphabet, rs: seq<Rotor>, st: seq<int>, plug: Permutation, c: int)
    requires Wired(a, rs) && Positions(a, rs, st) && |rs| >= 1 && PlugFits(a, plug)
    requires AllBijective(rs) && IsBijection(plug.slist) && 0 <= c < a.Size()
    ensures QInv(a, rs, st, plug, Q(a, rs, st, plug, c)) == c
    ensures Q(a, rs, st, plug, QInv(a, rs, st, plug, c)) == c
  {
    BwdFwd(a, rs, st, 1, |rs|, plug.Permute(c));
    InvertPermute(plug, c);
    ModUnique(c, a.Size(), 0, c);
    var b := Bwd(a, rs, st, 1, |rs|, c);
    PermuteInvert(plug, b);
    ModUnique(b, a.Size(), 0, b);
    FwdBwd(a, rs, st, 1, |rs|, c);
  }

  /** With bijective rotors and plugboard and a reflector whose table is an
      involution, the per-character map is an involution: enciphering the
      output at the same settings gives back the input. */
  lemma SignalInvolution(a: Alphabet, rs: seq<Rotor>, st: seq<int>, plug: Permutation, c: int)
    requires Wired(a, rs) && Positions(a, rs, st) && |rs| >= 1 && PlugFits(a, plug)
    requires AllBijective(rs) && IsBijection(plug.slist) && IsInvolution(rs[0].perm.slist)
    requires 0 <= c < a.Size()
    ensures Signal(a, rs, st, plug, Signal(a, rs, st, plug, c)) == c
  {
    var q := Q(a, rs, st, plug, c);
    var y := Reflect(a, rs, st, q);
    var d := Signal(a, rs, st, plug, c);
    assert d == QInv(a, rs, st, plug, y);
    QRoundTrips(a, rs, st, plug, y);
    ForwardInvolution(rs[0].perm, st[0], q);
    QRoundTrips(a, rs, st, plug, c);
  }

  /** With a reflector without fixed points no character maps to itself. */
  lemma SignalNoFixedPoint(a: Alphabet, rs: seq<Rotor>, st: seq<int>, plug: Permutation, c: int)
    requires Wired(a, rs) && Positions(a, rs, st) && |rs| >= 1 && PlugFits(a, plug)
    requires AllBijective(rs) && IsBijection(plug.slist)
    requires forall i :: 0 <= i < |rs[0].perm.slist| ==> rs[0].perm.slist[i] != i
    requires 0 <= c < a.Size()
    ensures Signal(a, rs, st, plug, c) != c
  {
    var q := Q(a, rs, st, plug, c);
    var y := Reflect(a, rs, st, q);
    if Signal(a, rs, st, plug, c) == c {
      QRoundTrips(a, rs, st, plug, y);
      ForwardFixed(rs[0].perm, st[0], q);
      assert false;
    }
  }

  // ---------------------------------------------------------------------
  // Messages
  // ---------------------------------------------------------------------

  /** The characters Java's regular-expression class `\s` matches. */
  function Whitespace(): set<char> {
    {' ', '\t', '\n', '\U{000B}', '\U{000C}', '\r'}
  }

  /** The message with all whitespace removed. */
  function Stripped(msg: string): (r: string)
    ensures forall c :: c in r <==> c in msg && c !in Whitespace()
  {
    Without(msg, Whitespace())
  }

  /** The first position of `s` holding a character outside the alphabet,
      or |s| when there is none. */
  function FirstOutside(a: Alphabet, s: string): (k: nat)
    ensures k <= |s|
    ensures forall i :: 0 <= i < k ==> a.Contains(s[i])
    ensures k < |s| ==> !a.Contains(s[k])
  {
    if s == [] || !a.Contains(s[0]) then 0 else 1 + FirstOutside(a, s[1..])
  }

  /** The image of alphabet character `ch` when it is the i-th character
      of a message: it is sent through the signal path at the settings
      after i+1 steppings. */
  ghost function CipherChar(a: Alphabet, rs: seq<Rotor>, st: seq<int>, mR: int, plug: Permutation, ch: char, i: nat): (r: char)
    requires Wired(a, rs) && Positions(a, rs, st) && 0 <= mR <= |rs| && |rs| >= 1 && PlugFits(a, plug)
    requires IsBijection(plug.slist) && a.Contains(ch)
    ensures a.Contains(r)
  {
    a.ToChar(Signal(a, rs, Iter(a, rs, st, mR, i + 1), plug, a.ToInt(ch)))
  }

  /** The output for a whitespace-free message of alphabet characters:
      each character is enciphered at its own position. */
  ghost function Encipher(a: Alphabet, rs: seq<Rotor>, st: seq<int>, mR: int, plug: Permutation, s: string): (r: string)
    requires Wired(a, rs) && Positions(a, rs, st) && 0 <= mR <= |rs| && |rs| >= 1 && PlugFits(a, plug)
    requires IsBijection(plug.slist) && AllIn(a, s)
    ensures |r| == |s| && AllIn(a, r)
  {
    seq(|s|, i requires 0 <= i < |s| => CipherChar(a, rs, st, mR, plug, s[i], i))
  }

  /** Within the alphabet prefix of a message, enciphering one more
      character appends its image. */
  lemma EncipherExtend(a: Alphabet, rs: seq<Rotor>, st: seq<int>, mR: int, plug: Permutation, s: string, i: int)
    requires Wired(a, rs) && Positions(a, rs, st) && 0 <= mR <= |rs| && |rs| >= 1 && PlugFits(a, plug)
    requires IsBijection(plug.slist) && 0 <= i < FirstOutside(a, s)
    ensures AllIn(a, s[..i]) && AllIn(a, s[..i + 1]) && a.Contains(s[i])
    ensures Encipher(a, rs, st, mR, plug, s[..i]) + [CipherChar(a, rs, st, mR, plug, s[i], i)] ==
            Encipher(a, rs, st, mR, plug, s[..i + 1])
  {
    assert AllIn(a, s[..i + 1]);
    forall m | 0 <= m < i + 1
      ensures (Encipher(a, rs, st, mR, plug, s[..i]) + [CipherChar(a, rs, st, mR, plug, s[i], i)])[m] ==
              Encipher(a, rs, st, mR, plug, s[..i + 1])[m]
    {
      EncipherExtendAt(a, rs, st, mR, plug, s, i, m);
    }
  }

  lemma EncipherExtendAt(a: Alphabet, rs: seq<Rotor>, st: seq<int>, mR: int, plug: Permutation, s: string, i: int, m: int)
    requires Wired(a, rs) && Positions(a, rs, st) && 0 <= mR <= |rs| && |rs| >= 1 && PlugFits(a, plug)
    requires IsBijection(plug.slist) && 0 <= i < |s| && AllIn(a, s[..i + 1]) && AllIn(a, s[..i])
    requires a.Contains(s[i]) && 0 <= m <= i
    ensures (Encipher(a, rs, st, mR, plug, s[..i]) + [CipherChar(a, rs, st, mR, plug, s[i], i)])[m] ==
            Encipher(a, rs, st, mR, plug, s[..i + 1])[m]
  {
    if m < i {
      assert s[..i][m] == s[m] == s[..i + 1][m];
    } else {
      assert s[..i + 1][m] == s[i];
    }
  }

  /** One character enciphered twice at the same settings is unchanged. */
  lemma CharRoundTrip(a: Alphabet, rs: seq<Rotor>, st: seq<int>, plug: Permutation, ch: char)
    requires Wired(a, rs) && Positions(a, rs, st) && |rs| >= 1 && PlugFits(a, plug)
    requires AllBijective(rs) && IsBijection(plug.slist) && IsInvolution(rs[0].perm.slist)
    requires a.Contains(ch)
    ensures a.ToChar(Signal(a, rs, st, plug, a.ToInt(a.ToChar(Signal(a, rs, st, plug, a.ToInt(ch)))))) == ch
  {
    var x := a.ToInt(ch);
    var y := Signal(a, rs, st, plug, x);
    ToIntToChar(a, y);
    SignalInvolution(a, rs, st, plug, x);
    ToCharToInt(a, ch);
  }

  lemma EncipherTwiceAt(a: Alphabet, rs: seq<Rotor>, st: seq<int>, mR: int, plug: Permutation, s: string, i: int)
    requires Wired(a, rs) && Positions(a, rs, st) && 0 <= mR <= |rs| && |rs| >= 1 && PlugFits(a, plug)
    requires AllBijective(rs) && IsBijection(plug.slist) && IsInvolution(rs[0].perm.slist)
    requires AllIn(a, s) && 0 <= i < |s|
    ensures Encipher(a, rs, st, mR, plug, Encipher(a, rs, st, mR, plug, s))[i] == s[i]
  {
    var e := Encipher(a, rs, st, mR, plug, s);
    var sti := Iter(a, rs, st, mR, i + 1);
    assert e[i] == CipherChar(a, rs, st, mR, plug, s[i], i);
    CharRoundTrip(a, rs, sti, plug, s[i]);
  }

  /** Enciphering the ciphertext from the same starting settings gives the
      plaintext back. */
  lemma EncipherRoundTrip(a: Alphabet, rs: seq<Rotor>, st: seq<int>, mR: int, plug: Permutation, s: string)
    requires Wired(a, rs) && Positions(a, rs, st) && 0 <= mR <= |rs| && |rs| >= 1 && PlugFits(a, plug)
    requires AllBijective(rs) && IsBijection(plug.slist) && IsInvolution(rs[0].perm.slist)
    requires AllIn(a, s)
    ensures Encipher(a, rs, st, mR, plug, Encipher(a, rs, st, mR, plug, s)) == s
  {
    var d := Encipher(a, rs, st, mR, plug, Encipher(a, rs, st, mR, plug, s));
    forall i | 0 <= i < |s| ensures d[i] == s[i] {
      EncipherTwiceAt(a, rs, st, mR, plug, s, i);
    }
  }

  // ---------------------------------------------------------------------
  // Insertion
  // ---------------------------------------------------------------------

  /** The placement check for rotor `r` in slot `i` when the moving rotors
      start at slot `mR`. */
  function Violation(r: Rotor, i: int, mR: int): (v: Option<Error>)
    ensures v.None? <==> (r.Rotates() <==> i >= mR)
    ensures v == Some(NotSupposedToRotate) <==> i < mR && r.Rotates()
    ensures v == Some(RotorsShouldRotate) <==> i >= mR && !r.Rotates()
  {
    if i < mR && r.Rotates() then Some(NotSupposedToRotate)
    else if i >= mR && !r.Rotates() then Some(RotorsShouldRotate)
    else None
  }

  /** The outcome of checking, in `insertRotors`' order (slot by slot, then
      through the available rotors), every available rotor whose name is
      requested, from slot `i` and candidate `j` on. */
  ghost function Scan(all: seq<Rotor>, names: seq<string>, mR: int, i: nat, j: nat): (o: Outcome)
    requires i <= |names| && j <= |all|
    ensures o in {Pass, Fail(NotSupposedToRotate), Fail(RotorsShouldRotate)}
    decreases |names| - i, |all| - j
  {
    if i == |names| then Pass
    else if j == |all| then Scan(all, names, mR, i + 1, 0)
    else if all[j].name == names[i] && Violation(all[j], i, mR).Some? then
      Fail(Violation(all[j], i, mR).value)
    else Scan(all, names, mR, i, j + 1)
  }

  /** Every requested rotor is placed where its kind allows. */
  ghost predicate WellPlacedFrom(all: seq<Rotor>, names: seq<string>, mR: int, i: nat, j: nat) {
    (forall j' :: j <= j' < |all| && i < |names| && all[j'].name == names[i] ==> Violation(all[j'], i, mR) == None) &&
    (forall i', j' :: i < i' < |names| && 0 <= j' < |all| && all[j'].name == names[i'] ==> Violation(all[j'], i', mR) == None)
  }

  /** The scan passes exactly when no requested rotor is misplaced. */
  lemma {:induction false} ScanPasses(all: seq<Rotor>, names: seq<string>, mR: int, i: nat, j: nat)
    requires i <= |names| && j <= |all|
    ensures Scan(all, names, mR, i, j) == Pass <==> WellPlacedFrom(all, names, mR, i, j)
    decreases |names| - i, |all| - j
  {
    if i == |names| {
    } else if j == |all| {
      ScanPasses(all, names, mR, i + 1, 0);
      if WellPlacedFrom(all, names, mR, i + 1, 0) {
        forall i', j' | i < i' < |names| && 0 <= j' < |all| && all[j'].name == names[i']
          ensures Violation(all[j'], i', mR) == None
        {
          if i' > i + 1 { } else { assert 0 <= j' < |all|; }
        }
      }
    } else if all[j].name == names[i] && Violation(all[j], i, mR).Some? {
    } else {
      ScanPasses(all, names, mR, i, j + 1);
    }
  }

  /** A failed scan names a real culprit: a requested rotor, in a slot from
      `i` on, whose placement raises exactly the reported error. */
  lemma {:induction false} ScanCulprit(all: seq<Rotor>, names: seq<string>, mR: int, i: nat, j: nat)
    requires i <= |names| && j <= |all| && Scan(all, names, mR, i, j).Fail?
    ensures exists i', j' :: i <= i' < |names| && 0 <= j' < |all| &&
              all[j'].name == names[i'] &&
              Violation(all[j'], i', mR) == Some(Scan(all, names, mR, i, j).error)
    decreases |names| - i, |all| - j
  {
    var e := Scan(all, names, mR, i, j).error;
    if j == |all| {
      ScanCulprit(all, names, mR, i + 1, 0);
      var i', j' :| i + 1 <= i' < |names| && 0 <= j' < |all| &&
                   all[j'].name == names[i'] && Violation(all[j'], i', mR) == Some(e);
    } else if all[j].name == names[i] && Violation(all[j], i, mR).Some? {
      assert Violation(all[j], i, mR) == Some(e);
    } else {
      ScanCulprit(all, names, mR, i, j + 1);
    }
  }

  /** The position of the last available rotor named `name`, or -1. */
  function LastMatch(all: seq<Rotor>, name: string): (r: int)
    ensures -1 <= r < |all|
    ensures r >= 0 ==> all[r].name == name && forall j :: r < j < |all| ==> all[j].name != name
    ensures r == -1 ==> forall j :: 0 <= j < |all| ==> all[j].name != name
  {
    if all == [] then -1
    else if all[|all| - 1].name == name then |all| - 1
    else LastMatch(all[..|all| - 1], name)
  }

  /** The rotor `insertRotors` leaves in a slot for `name`: the last match, or
      none. */
  function Chosen(all: seq<Rotor>, name: string): Rotor? {
    var m := LastMatch(all, name);
    if m >= 0 then all[m] else null
  }

  // ---------------------------------------------------------------------
  // The machine
  // ---------------------------------------------------------------------

  class Machine {
    const alphabet: Alphabet
    const numRotors: int
    const pawls: int
    const allRotors: seq<Rotor>
    var slots: array<Rotor?>
    var plugboard: Option<Permutation>
    /** The available rotors as a set: the objects whose settings the
        machine's operations may change. */
    ghost const repr: set<Rotor>

    constructor (alpha: Alphabet, numRotors: int, pawls: int, allRotors: seq<Rotor>)
      requires pawls < numRotors
      ensures this.alphabet == alpha && this.numRotors == numRotors && this.pawls == pawls
      ensures this.allRotors == allRotors && slots.Length == 0 && plugboard == None
      ensures repr == set r | r in allRotors
      ensures fresh(slots)
    {
      this.alphabet := alpha;
      this.numRotors := numRotors;
      this.pawls := pawls;
      this.allRotors := allRotors;
      repr := set r | r in allRotors;
      slots := new Rotor?[0];
      plugboard := None;
    }

    /** A machine with `numRotors` slots and `pawls` moving rotors over
        `alpha`; fails when there are not fewer pawls than slots. */
    static method Create(alpha: Alphabet, numRotors: int, pawls: int, allRotors: seq<Rotor>)
      returns (r: Result<Machine>)
      ensures r.Failure? <==> pawls >= numRotors
      ensures r.Failure? ==> r.error == TooManyPawls
      ensures r.Success? ==> fresh(r.value) && r.value.numRotors == numRotors &&
                             r.value.pawls == pawls && r.value.alphabet == alpha &&
                             r.value.allRotors == allRotors
    {
      if pawls >= numRotors {
        return Failure(TooManyPawls);
      }
      var m := new Machine(alpha, numRotors, pawls, allRotors);
      return Success(m);
    }

    /** The first slot that holds a moving rotor. */
    function MovingFrom(): int {
      numRotors - pawls
    }

    /** The slot array has the machine's shape: one distinct rotor with a
        well-formed permutation over the machine's alphabet in each of the
        `numRotors` slots, non-moving rotors left of `MovingFrom()` and
        moving ones from there on. */
    ghost predicate Shaped()
      reads this, slots
    {
      alphabet.Valid() && pawls < numRotors &&
      slots.Length == numRotors &&
      (forall i :: 0 <= i < slots.Length ==>
         slots[i] != null && slots[i] in repr && slots[i].perm.Valid() && slots[i].perm.alphabet == alphabet &&
         (slots[i].Rotates() <==> i >= MovingFrom())) &&
      (forall i, j :: 0 <= i < j < slots.Length ==> slots[i] != slots[j])
    }

    /** The machine is ready to convert: it is shaped and every rotor's
        setting is an index. */
    ghost predicate Loaded()
      reads this, slots, repr
    {
      Shaped() && forall i :: 0 <= i < slots.Length ==> slots[i].Valid()
    }

    ghost function Rotors(): (rs: seq<Rotor>)
      reads this, slots
      requires forall i :: 0 <= i < slots.Length ==> slots[i] != null
      ensures |rs| == slots.Length && forall i :: 0 <= i < slots.Length ==> rs[i] == slots[i]
    {
      seq(slots.Length, i requires 0 <= i < slots.Length && slots[i] != null reads this, slots =>
        slots[i] as Rotor)
    }

    ghost function Settings(): (st: seq<int>)
      reads this, slots, repr
      requires forall i :: 0 <= i < slots.Length ==> slots[i] != null && slots[i] in repr
      ensures |st| == slots.Length && forall i :: 0 <= i < slots.Length ==> st[i] == slots[i].setting
    {
      seq(slots.Length, i requires 0 <= i < slots.Length && slots[i] != null && slots[i] in repr reads this, slots, repr =>
        slots[i].setting)
    }

    /** The rotors in the slots: the only objects whose settings stepping
        and setting may change. */
    ghost function Inserted(): set<Rotor?>
      reads this, slots
    {
      set i | 0 <= i < slots.Length :: slots[i]
    }

    lemma LoadedWired()
      requires Loaded()
      ensures Wired(alphabet, Rotors()) && Positions(alphabet, Rotors(), Settings())
    {
    }

    /** Fill a fresh slot array with the rotors named `names`: for every
        slot, every available rotor of that name is checked for its
        placement and the last one is kept; a name that matches nothing
        leaves the slot empty. */
    method InsertRotors(names: seq<string>) returns (r: Outcome)
      modifies this
      ensures fresh(slots) && slots.Length == |names| && plugboard == old(plugboard)
      ensures r == Scan(allRotors, names, MovingFrom(), 0, 0)
      ensures r.Pass? ==> forall i :: 0 <= i < |names| ==> slots[i] == Chosen(allRotors, names[i])
      ensures r.Pass? ==> forall i :: 0 <= i < |names| && slots[i] != null ==> slots[i].name == names[i]
      ensures r.Fail? ==> !Loaded()
    {
      var mR := numRotors - pawls;
      slots := new Rotor?[|names|](_ => null);
      var i := 0;
      while i < |names|
        invariant 0 <= i <= |names|
        invariant fresh(slots) && slots.Length == |names| && plugboard == old(plugboard)
        invariant Scan(allRotors, names, mR, 0, 0) == Scan(allRotors, names, mR, i, 0)
        invariant forall k :: 0 <= k < i ==> slots[k] == Chosen(allRotors, names[k])
        invariant forall k :: i <= k < |names| ==> slots[k] == null
      {
        var j := 0;
        while j < |allRotors|
          invariant 0 <= j <= |allRotors|
          invariant fresh(slots) && slots.Length == |names| && plugboard == old(plugboard)
          invariant Scan(allRotors, names, mR, 0, 0) == Scan(allRotors, names, mR, i, j)
          invariant forall k :: 0 <= k < i ==> slots[k] == Chosen(allRotors, names[k])
          invariant slots[i] == Chosen(allRotors[..j], names[i])
          invariant forall k :: i < k < |names| ==> slots[k] == null
        {
          var candidate := allRotors[j];
          assert allRotors[..j + 1][..j] == allRotors[..j];
          if candidate.name == names[i] {
            slots[i] := candidate;
            if i < mR && candidate.Rotates() {
              return Fail(NotSupposedToRotate);
            } else if i >= mR && !candidate.Rotates() {
              return Fail(RotorsShouldRotate);
            }
          }
          j := j + 1;
        }
        assert allRotors[..j] == allRotors;
        i := i + 1;
      }
      return Pass;
    }

    /** A passing insertion of one found name per slot, whose chosen rotors
        are distinct and well formed over the machine's alphabet, leaves the
        machine loaded. */
    lemma PassLoaded(names: seq<string>)
      requires alphabet.Valid() && pawls < numRotors
      requires slots.Length == |names| == numRotors
      requires Scan(allRotors, names, MovingFrom(), 0, 0) == Pass
      requires forall i :: 0 <= i < |names| ==> LastMatch(allRotors, names[i]) >= 0
      requires forall i :: 0 <= i < |names| ==> slots[i] == Chosen(allRotors, names[i])
      requires forall i, j :: 0 <= i < j < |names| ==> slots[i] != slots[j]
      requires forall j :: 0 <= j < |allRotors| ==>
                 allRotors[j] in repr && allRotors[j].Valid() && allRotors[j].perm.alphabet == alphabet
      ensures Loaded()
    {
      var mR := MovingFrom();
      ScanPasses(allRotors, names, mR, 0, 0);
      forall i | 0 <= i < slots.Length
        ensures slots[i] != null && slots[i] in repr && slots[i].Valid()
        ensures slots[i].perm.alphabet == alphabet && (slots[i].Rotates() <==> i >= mR)
      {
        var m := LastMatch(allRotors, names[i]);
        assert slots[i] == allRotors[m];
        assert Violation(allRotors[m], i, mR) == None;
      }
    }

    /** Set the rotors from `setting`, whose first character is for slot 1.
        The length and the reflector are checked first; then each character
        is checked and applied in turn, so a character outside the alphabet
        stops the loop with the earlier slots already set. */
    method SetRotors(setting: string) returns (r: Outcome)
      requires Loaded()
      modifies Inserted()
      ensures Loaded()
      ensures numRotors > 0 ==> Settings()[0] == old(Settings())[0]
      ensures |setting| != numRotors - 1 ==>
                r == Fail(IncorrectNumberOfSettings) && Settings() == old(Settings())
      ensures |setting| == numRotors - 1 && !slots[0].Reflecting() ==>
                r == Fail(MissingReflector) && Settings() == old(Settings())
      ensures |setting| == numRotors - 1 && slots[0].Reflecting() ==>
                var k := FirstOutside(alphabet, setting);
                r == (if k < |setting| then Fail(SettingNotInAlphabet) else Pass) &&
                Settings() == Applied(alphabet, old(Settings()), setting, k)
    {
      if |setting| != slots.Length - 1 {
        return Fail(IncorrectNumberOfSettings);
      }
      if !slots[0].Reflecting() {
        return Fail(MissingReflector);
      }
      ghost var st0 := Settings();
      ghost var k := FirstOutside(alphabet, setting);
      var i := 0;
      while i < |setting|
        invariant 0 <= i <= k
        invariant Loaded()
        invariant Settings() == Applied(alphabet, st0, setting, i)
      {
        var c := setting[i];
        if !alphabet.Contains(c) {
          assert i == k;
          return Fail(SettingNotInAlphabet);
        }
        assert i < k;
        SetSlot(setting, i, st0);
        i := i + 1;
      }
      assert i == k;
      return Pass;
    }

    /** One turn of the loop in `SetRotors`: slot i+1 takes the index of
        character `setting[i]`. */
    method SetSlot(setting: string, i: int, ghost st0: seq<int>)
      requires Loaded() && 0 <= i < |setting| && |setting| < |st0| && alphabet.Contains(setting[i])
      requires forall m :: 0 <= m < i ==> alphabet.Contains(setting[m])
      requires slots.Length == |st0| && Settings() == Applied(alphabet, st0, setting, i)
      modifies Inserted()
      ensures Loaded()
      ensures Settings() == Applied(alphabet, st0, setting, i + 1)
    {
      slots[i + 1].SetChar(setting[i]);
    }

    method SetPlugboard(plug: Permutation)
      modifies this
      ensures plugboard == Some(plug) && slots == old(slots)
      ensures old(Loaded()) ==> Loaded()
    {
      plugboard := Some(plug);
    }

    /** The notch marks of one stepping: entry k is for slot
        `MovingFrom() + k`; all notches are read before any rotor moves. */
    method MarkSteps() returns (notch: array<bool>)
      requires Loaded() && 0 < pawls
      ensures fresh(notch) && notch[..] == Marks(Rotors(), Settings(), MovingFrom())
    {
      ghost var rs := Rotors();
      ghost var st := Settings();
      var mRotors := numRotors - pawls;
      notch := new bool[pawls](_ => false);
      var mIndex := mRotors + 1;
      assert notch[..] == MarksUpTo(rs, st, mRotors, mIndex);
      while mIndex < numRotors
        invariant mRotors + 1 <= mIndex <= numRotors
        invariant notch[..] == MarksUpTo(rs, st, mRotors, mIndex)
      {
        MarkNext(notch, mIndex, rs, st);
        mIndex := mIndex + 1;
      }
      MarkFastest(notch, rs, st);
    }

    /** The last step of `MarkSteps`: the rightmost rotor is always marked,
        which completes the marks. */
    method MarkFastest(notch: array<bool>, ghost rs: seq<Rotor>, ghost st: seq<int>)
      requires Loaded() && 0 < pawls && notch.Length == pawls
      requires Rotors() == rs && Settings() == st
      requires notch[..] == MarksUpTo(rs, st, MovingFrom(), numRotors)
      modifies notch
      ensures notch[..] == Marks(rs, st, MovingFrom())
    {
      ghost var marks := notch[..];
      notch[pawls - 1] := true;
      assert notch[..] == marks[pawls - 1 := true];
      MarksComplete(rs, st, MovingFrom());
    }

    /** One turn of the loop in `MarkSteps`: a rotor at its notch marks
        itself and its left neighbour. */
    method MarkNext(notch: array<bool>, mIndex: int, ghost rs: seq<Rotor>, ghost st: seq<int>)
      requires Loaded() && 0 < pawls && notch.Length == pawls
      requires Rotors() == rs && Settings() == st && MovingFrom() < mIndex < numRotors
      requires notch[..] == MarksUpTo(rs, st, MovingFrom(), mIndex)
      modifies notch
      ensures notch[..] == MarksUpTo(rs, st, MovingFrom(), mIndex + 1)
    {
      var mRotors := numRotors - pawls;
      assert slots[mIndex] == rs[mIndex] && slots[mIndex].setting == st[mIndex];
      var atNotch := slots[mIndex].AtNotch();
      ghost var prev := notch[..];
      if atNotch {
        notch[mIndex - mRotors] := true;
        notch[mIndex - mRotors - 1] := true;
        assert notch[..] == prev[mIndex - mRotors := true][mIndex - mRotors - 1 := true];
      }
    }

    /** Advance the moving rotor of every marked slot. */
    method AdvanceMarked(notch: array<bool>)
      requires Loaded() && notch.Length == pawls
      modifies Inserted()
      ensures Loaded()
      ensures Settings() == Bumped(old(Settings()), notch[..], MovingFrom(), alphabet.Size())
    {
      ghost var st0 := Settings();
      ghost var n := alphabet.Size();
      var mRotors := numRotors - pawls;
      var i := 0;
      while i < notch.Length
        invariant 0 <= i <= pawls
        invariant Loaded() && Settings() == Bumped(st0, notch[..i], mRotors, n)
      {
        AdvanceNext(notch, i, st0);
        i := i + 1;
      }
      assert notch[..i] == notch[..];
    }

    /** One turn of the loop in `AdvanceMarked`: advance slot
        `MovingFrom() + i` when it is marked. */
    method AdvanceNext(notch: array<bool>, i: int, ghost st0: seq<int>)
      requires Loaded() && notch.Length == pawls && 0 <= i < pawls && |st0| == numRotors
      requires Settings() == Bumped(st0, notch[..i], MovingFrom(), alphabet.Size())
      modifies Inserted()
      ensures Loaded()
      ensures Settings() == Bumped(st0, notch[..i + 1], MovingFrom(), alphabet.Size())
    {
      ghost var marks := notch[..];
      ghost var short := Settings();
      BumpedPrefix(st0, marks, i, MovingFrom(), alphabet.Size());
      if notch[i] {
        AdvanceSlot(i + numRotors - pawls);
        assert Settings() == short[MovingFrom() + i := (short[MovingFrom() + i] + 1) % alphabet.Size()];
      }
      assert notch[..] == marks;
    }

    /** Advance the moving rotor in slot `j`; every other slot keeps its
        setting. */
    method AdvanceSlot(j: int)
      requires Loaded() && MovingFrom() <= j < numRotors
      modifies Inserted()
      ensures Loaded()
      ensures Settings() == old(Settings())[j := (old(Settings())[j] + 1) % alphabet.Size()]
    {
      slots[j].Advance();
    }

    /** The passage of index `c` through the plugboard, the rotors from
        right to left, back from slot 1 to the rightmost slot, and the
        inverse plugboard, at the current settings. */
    method Route(c: int, ghost rs: seq<Rotor>, ghost st: seq<int>) returns (r: int)
      requires Loaded() && 0 < numRotors && plugboard.Some? && PlugFits(alphabet, plugboard.value)
      requires Rotors() == rs && Settings() == st
      ensures r == Signal(alphabet, rs, st, plugboard.value, c)
    {
      LoadedWired();
      var p := plugboard.value;
      var x := p.Permute(c);
      x := PassForward(x, rs, st);
      x := PassBackward(x, rs, st);
      r := p.Invert(x);
    }

    /** The forward pass: the rotors from the rightmost slot to slot 0. */
    method PassForward(x0: int, ghost rs: seq<Rotor>, ghost st: seq<int>) returns (x: int)
      requires Loaded() && Rotors() == rs && Settings() == st
      ensures Wired(alphabet, rs) && Positions(alphabet, rs, st)
      ensures x == Fwd(alphabet, rs, st, 0, numRotors, x0)
    {
      x := x0;
      var j := numRotors - 1;
      while j >= 0
        invariant -1 <= j < numRotors
        invariant x == Fwd(alphabet, rs, st, j + 1, numRotors, x0)
      {
        x := slots[j].ConvertForward(x);
        j := j - 1;
      }
    }

    /** The backward pass: the rotors from slot 1 to the rightmost slot;
        the reflector in slot 0 is passed only once. */
    method PassBackward(y0: int, ghost rs: seq<Rotor>, ghost st: seq<int>) returns (y: int)
      requires Loaded() && 0 < numRotors && Rotors() == rs && Settings() == st
      ensures Wired(alphabet, rs) && Positions(alphabet, rs, st)
      ensures y == Bwd(alphabet, rs, st, 1, numRotors, y0)
    {
      y := y0;
      var k := 1;
      while k < numRotors
        invariant 1 <= k <= numRotors
        invariant Bwd(alphabet, rs, st, k, numRotors, y) == Bwd(alphabet, rs, st, 1, numRotors, y0)
      {
        y := slots[k].ConvertBackward(y);
        k := k + 1;
      }
    }

    /** Convert the character of index `c`, after first advancing the
        rotors. */
    method Convert(c: int) returns (r: int)
      requires Loaded() && 0 < pawls && 0 <= c < alphabet.Size()
      requires plugboard.Some? && PlugFits(alphabet, plugboard.value)
      modifies Inserted()
      ensures Loaded()
      ensures Settings() == Step(alphabet, Rotors(), old(Settings()), MovingFrom())
      ensures r == Signal(alphabet, Rotors(), Settings(), plugboard.value, c)
    {
      ghost var rs := Rotors();
      ghost var st0 := Settings();
      LoadedWired();
      var letter := alphabet.ToChar(c);
      var notch := MarkSteps();
      AdvanceMarked(notch);
      assert Rotors() == rs;
      assert Settings() == Step(alphabet, rs, st0, MovingFrom());
      r := Route(c, rs, Settings());
    }

    /** Convert a message: strip its whitespace and convert each remaining
        character in turn, the rotors stepping before each one.  A character
        outside the alphabet stops the conversion with the rotors stepped
        once for each character before it. */
    method ConvertMessage(msg: string) returns (r: Result<string>)
      requires Loaded() && 0 < pawls
      requires plugboard.Some? && PlugFits(alphabet, plugboard.value)
      requires IsBijection(plugboard.value.slist)
      modifies Inserted()
      ensures Loaded()
      ensures var s := Stripped(msg);
              var k := FirstOutside(alphabet, s);
              Positions(alphabet, Rotors(), old(Settings())) &&
              Settings() == Iter(alphabet, Rotors(), old(Settings()), MovingFrom(), k) &&
              (k < |s| ==> r == Failure(NotInAlphabet)) &&
              (k == |s| ==> r == Success(Encipher(alphabet, Rotors(), old(Settings()), MovingFrom(), plugboard.value, s)))
    {
      ghost var rs := Rotors();
      ghost var st0 := Settings();
      ghost var p := plugboard.value;
      ghost var mR := MovingFrom();
      LoadedWired();
      var s := Without(msg, Whitespace());
      ghost var k := FirstOutside(alphabet, s);
      var decode := new char[|s|];
      var i := 0;
      while i < |s|
        invariant 0 <= i <= k
        invariant Loaded() && Rotors() == rs && plugboard == Some(p)
        invariant Settings() == Iter(alphabet, rs, st0, mR, i)
        invariant decode[..i] == Encipher(alphabet, rs, st0, mR, p, s[..i])
      {
        if !alphabet.Contains(s[i]) {
          assert i == k;
          return Failure(NotInAlphabet);
        }
        assert i < k;
        ConvertNext(decode, s, i, rs, st0, mR, p);
        i := i + 1;
      }
      assert i == k && s[..i] == s && decode[..] == decode[..i];
      return Success(decode[..]);
    }

    /** One turn of the message loop: convert character `i` of `s` and
        store its image in `decode[i]`. */
    method ConvertNext(decode: array<char>, s: string, i: int,
                       ghost rs: seq<Rotor>, ghost st0: seq<int>, ghost mR: int, ghost p: Permutation)
      requires Loaded() && 0 < pawls && Rotors() == rs && mR == MovingFrom() && plugboard == Some(p)
      requires PlugFits(alphabet, p) && IsBijection(p.slist) && Positions(alphabet, rs, st0)
      requires 0 <= i < FirstOutside(alphabet, s) && |s| == decode.Length
      requires Settings() == Iter(alphabet, rs, st0, mR, i)
      requires decode[..i] == Encipher(alphabet, rs, st0, mR, p, s[..i])
      modifies Inserted(), decode
      ensures Loaded() && Rotors() == rs && plugboard == Some(p)
      ensures Settings() == Iter(alphabet, rs, st0, mR, i + 1)
      ensures decode[..i + 1] == Encipher(alphabet, rs, st0, mR, p, s[..i + 1])
    {
      LoadedWired();
      ghost var before := decode[..];
      EncipherExtend(alphabet, rs, st0, mR, p, s, i);
      ConvertInto(decode, i, alphabet.ToInt(s[i]), rs, Settings(), p);
      TakeUpdate(before, i, decode[i]);
    }

    /** Convert the character of index `c` and store its image in
        `decode[i]`. */
    method ConvertInto(decode: array<char>, i: int, c: int,
                       ghost rs: seq<Rotor>, ghost st: seq<int>, ghost p: Permutation)
      requires Loaded() && 0 < pawls && 0 <= c < alphabet.Size() && 0 <= i < decode.Length
      requires plugboard == Some(p) && PlugFits(alphabet, p) && IsBijection(p.slist)
      requires Rotors() == rs && Settings() == st
      modifies Inserted(), decode
      ensures Loaded() && Rotors() == rs && plugboard == Some(p)
      ensures Settings() == Step(alphabet, rs, st, MovingFrom())
      ensures decode[..] == old(decode[..])[i := alphabet.ToChar(Signal(alphabet, rs, Settings(), p, c))]
    {
      var y := Convert(c);
      decode[i] := alphabet.ToChar(y);
    }
  }

  /** The settings after applying the first `k` characters of a settings
      string: slot m+1 takes the index of character m, everything else is
      unchanged. */
  ghost function Applied(a: Alphabet, st: seq<int>, setting: string, k: int): (r: seq<int>)
    requires 0 <= k <= |setting| && k < |st|
    requires forall m :: 0 <= m < k ==> a.Contains(setting[m])
    ensures |r| == |st| && r[0] == st[0]
  {
    seq(|st|, i requires 0 <= i < |st| =>
      if 1 <= i <= k then a.ToInt(setting[i - 1]) else st[i])
  }
}
