/** A permutation of the indices 0..size-1 of an alphabet, built from cycle
    notation such as "(AELTPHQXRU) (BKNW) (CMOY)".  The mapping table
    `slist` starts as the identity and every cycle overwrites the entries of
    its own characters; the inverse is a reverse lookup in that table. */
module Permutations {
  import opened Base
  import opened Alphabets

  // ---------------------------------------------------------------------
  // Integer arithmetic of Java
  // ---------------------------------------------------------------------

  /** The remainder of Java's `%`: it takes the sign of the
      dividend, unlike Dafny's Euclidean `%`. */
  function Rem(p: int, n: int): (r: int)
    requires n > 0
    ensures -n < r < n
    ensures p >= 0 ==> r == p % n
    ensures p < 0 ==> r == -((-p) % n)
  {
    if p >= 0 then p % n else -((-p) % n)
  }

  /** Division with remainder is unique. */
  lemma ModUnique(x: int, n: int, q: int, r: int)
    requires n > 0 && 0 <= r < n && x == q * n + r
    ensures x % n == r
  {
    var q0, r0 := x / n, x % n;
    var d := q - q0;
    assert d * n == r0 - r;
    if d >= 1 {
      MulAtLeast(d, n);
      assert false;
    } else if d <= -1 {
      MulAtLeast(-d, n);
      assert false;
    }
  }

  lemma {:induction false} MulAtLeast(d: int, n: int)
    requires d >= 1 && n > 0
    ensures d * n >= n
    decreases d
  {
    if d > 1 {
      MulAtLeast(d - 1, n);
      assert d * n == (d - 1) * n + n;
    }
  }

  /** Adding a multiple of the modulus does not change the remainder. */
  lemma ModAddLeft(a: int, b: int, n: int)
    requires n > 0
    ensures (a % n + b) % n == (a + b) % n
  {
    var qa, ra := a / n, a % n;
    var q1, r1 := (ra + b) / n, (ra + b) % n;
    assert a + b == (qa + q1) * n + r1;
    ModUnique(a + b, n, qa + q1, r1);
  }

  /** Correcting a negative remainder gives the Euclidean remainder. */
  lemma WrapIsMod(p: int, n: int)
    requires n > 0
    ensures (if Rem(p, n) < 0 then Rem(p, n) + n else Rem(p, n)) == p % n
  {
    if p < 0 {
      var q, m := (-p) / n, (-p) % n;
      if m == 0 {
        ModUnique(p, n, -q, 0);
      } else {
        ModUnique(p, n, -q - 1, n - m);
      }
    }
  }

  // ---------------------------------------------------------------------
  // The permutation value
  // ---------------------------------------------------------------------

  /** Every entry is an index, no two indices share an image, and every
      index is an image. */
  ghost predicate IsBijection(s: seq<int>) {
    (forall i :: 0 <= i < |s| ==> 0 <= s[i] < |s|) &&
    (forall i, j :: 0 <= i < j < |s| ==> s[i] != s[j]) &&
    (forall t :: 0 <= t < |s| ==> t in s)
  }

  /** Applying the table twice is the identity. */
  ghost predicate IsInvolution(s: seq<int>) {
    forall i :: 0 <= i < |s| ==> 0 <= s[i] < |s| && s[s[i]] == i
  }

  datatype Permutation = Permutation(alphabet: Alphabet, slist: seq<int>) {

    /** The table has one entry per alphabet character, each an index. */
    ghost predicate Valid() {
      alphabet.Valid() && |slist| == alphabet.Size() &&
      forall i :: 0 <= i < |slist| ==> 0 <= slist[i] < |slist|
    }

    function Size(): nat {
      alphabet.Size()
    }

    /** `p` reduced into [0, size), also for negative `p`. */
    function Wrap(p: int): (r: int)
      requires Size() > 0
      ensures 0 <= r < Size()
      ensures r == p % Size()
    {
      WrapIsMod(p, Size());
      var r := Rem(p, Size());
      if r < 0 then r + Size() else r
    }

    /** The image of `p`, taken modulo the size. */
    function Permute(p: int): (r: int)
      requires Valid()
      ensures 0 <= r < Size()
      ensures r in slist
    {
      slist[Wrap(p)]
    }

    /** The preimage of `c` (modulo the size) by reverse lookup in the
        table; -1 when no entry holds it. */
    function Invert(c: int): (r: int)
      requires Valid()
      ensures -1 <= r < Size()
      ensures r == -1 <==> c % Size() !in slist
      ensures r >= 0 ==> slist[r] == c % Size() && c % Size() !in slist[..r]
    {
      IndexOf(slist, Wrap(c))
    }

    /** `Permute` on characters; a character outside the alphabet fails. */
    function PermuteChar(p: char): (r: Result<char>)
      requires Valid()
      ensures r.Success? <==> alphabet.Contains(p)
      ensures r.Success? ==> alphabet.Contains(r.value)
    {
      if !alphabet.Contains(p) then Failure(NotInAlphabet)
      else Success(alphabet.ToChar(Permute(alphabet.ToInt(p))))
    }

    /** `Invert` on characters; a character outside the alphabet fails,
        and so does an index the reverse lookup cannot find. */
    function InvertChar(c: char): (r: Result<char>)
      requires Valid()
      ensures r.Success? ==> alphabet.Contains(c) && alphabet.Contains(r.value)
      ensures IsBijection(slist) ==> (r.Success? <==> alphabet.Contains(c))
    {
      if !alphabet.Contains(c) then Failure(NotInAlphabet)
      else
        var i := Invert(alphabet.ToInt(c));
        if i < 0 then Failure(NotInAlphabet) else Success(alphabet.ToChar(i))
    }

    /** The derangement test as `derangement()` writes it: for every value `i`
        in the table, reject when the first position holding `i` is `i`. */
    method Derangement() returns (b: bool)
      requires Valid()
      ensures b <==> forall k :: 0 <= k < |slist| ==> IndexOf(slist, slist[k]) != slist[k]
      ensures !b ==> exists i :: 0 <= i < |slist| && slist[i] == i
      ensures IsBijection(slist) ==> (b <==> forall i :: 0 <= i < |slist| ==> slist[i] != i)
    {
      var k := 0;
      while k < |slist|
        invariant 0 <= k <= |slist|
        invariant forall m :: 0 <= m < k ==> IndexOf(slist, slist[m]) != slist[m]
      {
        if IndexOf(slist, slist[k]) == slist[k] {
          assert slist[slist[k]] == slist[k];
          DerangementSees(slist);
          return false;
        }
        k := k + 1;
      }
      DerangementSees(slist);
      return true;
    }
  }

  /** On a bijective table the first-position test finds exactly the fixed
      points; on any table a rejection names a fixed point. */
  lemma DerangementSees(s: seq<int>)
    ensures forall k :: 0 <= k < |s| && IndexOf(s, s[k]) == s[k] ==> s[s[k]] == s[k]
    ensures IsBijection(s) ==>
              ((forall k :: 0 <= k < |s| ==> IndexOf(s, s[k]) != s[k]) <==>
               (forall i :: 0 <= i < |s| ==> s[i] != i))
  {
    if IsBijection(s) && exists i :: 0 <= i < |s| && s[i] == i {
      var i :| 0 <= i < |s| && s[i] == i;
      var r := IndexOf(s, s[i]);
      assert s[r] == s[i];
    }
  }

  // ---------------------------------------------------------------------
  // Properties of lookup and reverse lookup
  // ---------------------------------------------------------------------

  /** The size is the alphabet's, and also the length of a well-formed
      table. */
  lemma SizeIsLength(p: Permutation)
    requires p.Valid()
    ensures p.Size() == |p.slist| == |p.alphabet.chars| && p.Size() > 0
  {
  }

  /** `permute(p)` only depends on `wrap(p)`. */
  lemma PermuteWraps(p: Permutation, x: int)
    requires p.Valid()
    ensures p.Permute(x) == p.Permute(p.Wrap(x))
  {
    var w := p.Wrap(x);
    ModUnique(w, p.Size(), 0, w);
  }

  /** For a bijective table, `invert` undoes `permute`. */
  lemma InvertPermute(p: Permutation, x: int)
    requires p.Valid() && IsBijection(p.slist)
    ensures p.Invert(p.Permute(x)) == p.Wrap(x)
  {
    var w := p.Wrap(x);
    var v := p.slist[w];
    ModUnique(v, p.Size(), 0, v);
    var r := p.Invert(v);
    assert p.slist[r] == v;
    if r != w {
      assert r < w || w < r;
    }
  }

  /** For a bijective table, `permute` undoes `invert`. */
  lemma PermuteInvert(p: Permutation, x: int)
    requires p.Valid() && IsBijection(p.slist)
    ensures p.Permute(p.Invert(x)) == p.Wrap(x)
  {
    var w := p.Wrap(x);
    assert w in p.slist;
    var r := p.Invert(x);
    ModUnique(r, p.Size(), 0, r);
  }

  /** The character form of the same round trip. */
  lemma InvertCharPermuteChar(p: Permutation, c: char)
    requires p.Valid() && IsBijection(p.slist) && p.alphabet.Contains(c)
    ensures p.PermuteChar(c).Success?
    ensures p.InvertChar(p.PermuteChar(c).value) == Success(c)
  {
    var a := p.alphabet;
    var i := a.ToInt(c);
    var j := p.Permute(i);
    ToIntToChar(a, j);
    InvertPermute(p, i);
    ModUnique(i, p.Size(), 0, i);
  }

  /** For a bijective table, permuting the inverted character gives the
      character back. */
  lemma PermuteCharInvertChar(p: Permutation, c: char)
    requires p.Valid() && IsBijection(p.slist) && p.alphabet.Contains(c)
    ensures p.InvertChar(c).Success?
    ensures p.PermuteChar(p.InvertChar(c).value) == Success(c)
  {
    var a := p.alphabet;
    var i := a.ToInt(c);
    var j := p.Invert(i);
    ToIntToChar(a, j);
    PermuteInvert(p, i);
    ModUnique(i, p.Size(), 0, i);
  }

  /** A table that is its own inverse is a bijection. */
  lemma InvolutionIsBijection(s: seq<int>)
    requires IsInvolution(s)
    ensures IsBijection(s)
  {
    forall i, j | 0 <= i < j < |s| ensures s[i] != s[j] {
      assert s[s[i]] == i && s[s[j]] == j;
    }
    forall t | 0 <= t < |s| ensures t in s {
      assert s[s[t]] == t;
    }
  }

  // ---------------------------------------------------------------------
  // Cycle notation
  // ---------------------------------------------------------------------

  /** The cycles string with every parenthesis removed. */
  function StripParens(s: string): (r: string)
    ensures |r| <= |s|
    ensures forall c :: c in r <==> c in s && c != '(' && c != ')'
  {
    Without(s, {'(', ')'})
  }

  /** Splitting on single spaces, keeping empty tokens (they add nothing to
      a permutation). */
  function Split(s: string): (r: seq<string>)
    ensures |r| > 0
    ensures forall k :: 0 <= k < |r| ==> ' ' !in r[k]
  {
    if s == [] then [[]]
    else
      var rest := Split(s[1..]);
      if s[0] == ' ' then [[]] + rest
      else [[s[0]] + rest[0]] + rest[1..]
  }

  /** The cycle tokens of a cycles string. */
  function Tokens(cycles: string): seq<string> {
    Split(StripParens(cycles))
  }

  /** The characters named by a cycles string: everything but parentheses
      and spaces. */
  function Letters(cycles: string): string {
    Without(cycles, {'(', ')', ' '})
  }

  /** All tokens written one after another. */
  function Concat(toks: seq<string>): string {
    if toks == [] then [] else Concat(toks[..|toks| - 1]) + toks[|toks| - 1]
  }

  lemma {:induction false} ConcatCons(t: string, toks: seq<string>)
    ensures Concat([t] + toks) == t + Concat(toks)
    decreases |toks|
  {
    if toks == [] {
      assert [t] + toks == [t];
      assert [t][..0] == [];
    } else {
      var init := toks[..|toks| - 1];
      assert ([t] + toks)[..|toks|] == [t] + init;
      ConcatCons(t, init);
    }
  }

  lemma {:induction false} SplitConcat(s: string)
    ensures Concat(Split(s)) == Without(s, {' '})
  {
    if s == [] {
      assert Concat([[]]) == Concat([]) + [];
    } else {
      SplitConcat(s[1..]);
      if s[0] == ' ' {
        SplitConcatSpace(s);
      } else {
        SplitConcatLetter(s);
      }
    }
  }

  /** A leading space starts a new token and adds no letter. */
  lemma SplitConcatSpace(s: string)
    requires s != [] && s[0] == ' '
    requires Concat(Split(s[1..])) == Without(s[1..], {' '})
    ensures Concat(Split(s)) == Without(s, {' '})
  {
    var rest := Split(s[1..]);
    assert Split(s) == [[]] + rest;
    ConcatCons([], rest);
    assert Without(s, {' '}) == Without(s[1..], {' '});
  }

  /** A leading letter joins the first token. */
  lemma SplitConcatLetter(s: string)
    requires s != [] && s[0] != ' '
    requires Concat(Split(s[1..])) == Without(s[1..], {' '})
    ensures Concat(Split(s)) == Without(s, {' '})
  {
    var rest := Split(s[1..]);
    var r0, tl := rest[0], rest[1..];
    SplitLetter(s);
    ConsDrop(rest);
    ConcatCons(r0, tl);
    ConcatCons([s[0]] + r0, tl);
    AppendAssoc([s[0]], r0, Concat(tl));
    WithoutKeep(s, {' '});
  }

  lemma SplitLetter(s: string)
    requires s != [] && s[0] != ' '
    ensures Split(s) == [[s[0]] + Split(s[1..])[0]] + Split(s[1..])[1..]
  {
  }

  lemma ConsDrop<T>(s: seq<T>)
    requires s != []
    ensures s == [s[0]] + s[1..]
  {
  }

  lemma AppendAssoc<T>(x: seq<T>, y: seq<T>, z: seq<T>)
    ensures (x + y) + z == x + (y + z)
  {
  }

  lemma WithoutKeep<T(!new)>(s: seq<T>, drop: set<T>)
    requires s != [] && s[0] !in drop
    ensures Without(s, drop) == [s[0]] + Without(s[1..], drop)
  {
  }

  /** The tokens written out with a single space between neighbours. */
  function Join(toks: seq<string>): string
    requires |toks| > 0
    decreases |toks|
  {
    if |toks| == 1 then toks[0] else toks[0] + [' '] + Join(toks[1..])
  }

  /** Splitting loses nothing: joining the tokens with single spaces gives
      the string back, so every space is a break and nothing else is. */
  lemma {:induction false} JoinSplit(s: string)
    ensures Join(Split(s)) == s
  {
    if s != [] {
      JoinSplit(s[1..]);
      if s[0] == ' ' {
        JoinSplitSpace(s);
      } else {
        JoinSplitLetter(s);
      }
    }
  }

  /** A leading space is the break before the rest's tokens. */
  lemma JoinSplitSpace(s: string)
    requires s != [] && s[0] == ' '
    requires Join(Split(s[1..])) == s[1..]
    ensures Join(Split(s)) == s
  {
    var rest := Split(s[1..]);
    var toks := [[]] + rest;
    assert Split(s) == toks;
    assert toks[1..] == rest;
    assert Join(toks) == [] + [' '] + Join(rest);
    ConsDrop(s);
  }

  /** A leading letter starts the first token. */
  lemma JoinSplitLetter(s: string)
    requires s != [] && s[0] != ' '
    requires Join(Split(s[1..])) == s[1..]
    ensures Join(Split(s)) == s
  {
    var rest := Split(s[1..]);
    var toks := [[s[0]] + rest[0]] + rest[1..];
    SplitLetter(s);
    ConsDrop(s);
    if |rest| == 1 {
      assert Join(toks) == [s[0]] + rest[0];
    } else {
      assert toks[1..] == rest[1..];
      assert Join(toks) == ([s[0]] + rest[0]) + [' '] + Join(rest[1..]);
      assert Join(rest) == rest[0] + [' '] + Join(rest[1..]);
      AppendAssoc([s[0]], rest[0], [' '] + Join(rest[1..]));
      AppendAssoc([s[0]] + rest[0], [' '], Join(rest[1..]));
      AppendAssoc(rest[0], [' '], Join(rest[1..]));
    }
  }

  /** The tokens, written out together, are exactly the letters. */
  lemma TokensLetters(cycles: string)
    ensures Concat(Tokens(cycles)) == Letters(cycles)
  {
    SplitConcat(StripParens(cycles));
    WithoutWithout(cycles, {'(', ')'}, {' '});
    assert {'(', ')'} + {' '} == {'(', ')', ' '};
  }

  /** Every character of every token occurs in the concatenation. */
  lemma {:induction false} InConcat(toks: seq<string>, k: int, m: int)
    requires 0 <= k < |toks| && 0 <= m < |toks[k]|
    ensures toks[k][m] in Concat(toks)
    decreases |toks|
  {
    var init := toks[..|toks| - 1];
    if k < |toks| - 1 {
      InConcat(init, k, m);
    } else {
      assert Concat(toks) == Concat(init) + toks[k];
      assert toks[k][m] == (Concat(init) + toks[k])[|Concat(init)| + m];
    }
  }

  // ---------------------------------------------------------------------
  // Building the table
  // ---------------------------------------------------------------------

  ghost predicate AllIn(a: Alphabet, s: string) {
    forall i :: 0 <= i < |s| ==> a.Contains(s[i])
  }

  ghost predicate AllTokensIn(a: Alphabet, toks: seq<string>) {
    forall k :: 0 <= k < |toks| ==> AllIn(a, toks[k])
  }

  /** The alphabet indices of the characters of a cycle. */
  function Indices(a: Alphabet, s: string): (r: seq<int>)
    requires AllIn(a, s)
    ensures |r| == |s|
    ensures forall i :: 0 <= i < |s| ==> 0 <= r[i] < a.Size() && a.chars[r[i]] == s[i]
  {
    seq(|s|, i requires 0 <= i < |s| => a.ToInt(s[i]))
  }

  /** The successor of position `m` in a cycle: the next one, or the first
      after the last. */
  function Next(idx: seq<int>, m: int): int
    requires 0 <= m < |idx|
  {
    idx[Succ(m, |idx|)]
  }

  /** The table after the first `k` assignments of a cycle, in the order
      `addCycle` makes them. */
  function ApplyCycle(t: seq<int>, idx: seq<int>, k: nat): (r: seq<int>)
    requires k <= |idx|
    requires forall m :: 0 <= m < |idx| ==> 0 <= idx[m] < |t|
    ensures |r| == |t|
    decreases k
  {
    if k == 0 then t else ApplyCycle(t, idx, k - 1)[idx[k - 1] := Next(idx, k - 1)]
  }

  function Identity(n: nat): (r: seq<int>)
    ensures |r| == n && forall i :: 0 <= i < n ==> r[i] == i
  {
    seq(n, i => i)
  }

  /** The table after adding every token as a cycle, first to last. */
  function Table(a: Alphabet, toks: seq<string>): (t: seq<int>)
    requires AllTokensIn(a, toks)
    ensures |t| == a.Size()
    ensures forall i :: 0 <= i < |t| ==> 0 <= t[i] < |t|
    decreases |toks|
  {
    if toks == [] then Identity(a.Size())
    else
      var last := toks[|toks| - 1];
      var idx := Indices(a, last);
      ApplyCycleInRange(Table(a, toks[..|toks| - 1]), idx, |last|);
      ApplyCycle(Table(a, toks[..|toks| - 1]), idx, |last|)
  }

  /** What the constructor produces from a cycles string: the permutation,
      or an error when a cycle names a character outside the alphabet. */
  ghost function FromCycles(cycles: string, a: Alphabet): (r: Result<Permutation>)
    requires a.Valid()
    ensures r.Success? ==> r.value.Valid() && r.value.alphabet == a
  {
    var toks := Tokens(cycles);
    if AllTokensIn(a, toks) then Success(Permutation(a, Table(a, toks)))
    else Failure(NotInAlphabet)
  }

  lemma {:induction false} ApplyCycleInRange(t: seq<int>, idx: seq<int>, k: nat)
    requires k <= |idx|
    requires forall m :: 0 <= m < |idx| ==> 0 <= idx[m] < |t|
    requires forall i :: 0 <= i < |t| ==> 0 <= t[i] < |t|
    ensures forall i :: 0 <= i < |t| ==> 0 <= ApplyCycle(t, idx, k)[i] < |t|
    decreases k
  {
    if k > 0 {
      ApplyCycleInRange(t, idx, k - 1);
    }
  }

  /** Entries at positions the cycle does not name are untouched. */
  lemma {:induction false} ApplyCycleOutside(t: seq<int>, idx: seq<int>, k: nat, j: int)
    requires k <= |idx|
    requires forall m :: 0 <= m < |idx| ==> 0 <= idx[m] < |t|
    requires 0 <= j < |t| && j !in idx[..k]
    ensures ApplyCycle(t, idx, k)[j] == t[j]
    decreases k
  {
    if k > 0 {
      assert idx[..k - 1] <= idx[..k];
      assert idx[k - 1] in idx[..k];
      ApplyCycleOutside(t, idx, k - 1, j);
    }
  }

  /** Entries at positions the cycle names hold cycle members. */
  lemma {:induction false} ApplyCycleInside(t: seq<int>, idx: seq<int>, k: nat, j: int)
    requires k <= |idx|
    requires forall m :: 0 <= m < |idx| ==> 0 <= idx[m] < |t|
    requires 0 <= j < |t| && j in idx[..k]
    ensures ApplyCycle(t, idx, k)[j] in idx
    decreases k
  {
    if idx[k - 1] != j {
      assert idx[..k] == idx[..k - 1] + [idx[k - 1]];
      ApplyCycleInside(t, idx, k - 1, j);
    } else {
      assert Next(idx, k - 1) in idx;
    }
  }

  /** With distinct positions, each cycle member maps to its successor. */
  lemma {:induction false} ApplyCycleMaps(t: seq<int>, idx: seq<int>, k: nat, m: int)
    requires k <= |idx| && Distinct(idx)
    requires forall i :: 0 <= i < |idx| ==> 0 <= idx[i] < |t|
    requires 0 <= m < k
    ensures ApplyCycle(t, idx, k)[idx[m]] == Next(idx, m)
    decreases k
  {
    if m < k - 1 {
      ApplyCycleMaps(t, idx, k - 1, m);
    }
  }

  /** The effect of adding one cycle of distinct characters: each maps to
      the next and the last to the first; every other entry is unchanged. */
  lemma AddCycleEffect(t: seq<int>, idx: seq<int>)
    requires Distinct(idx)
    requires forall m :: 0 <= m < |idx| ==> 0 <= idx[m] < |t|
    ensures forall m :: 0 <= m < |idx| ==> ApplyCycle(t, idx, |idx|)[idx[m]] == Next(idx, m)
    ensures forall j :: 0 <= j < |t| && j !in idx ==> ApplyCycle(t, idx, |idx|)[j] == t[j]
  {
    forall m | 0 <= m < |idx| ensures ApplyCycle(t, idx, |idx|)[idx[m]] == Next(idx, m) {
      ApplyCycleMaps(t, idx, |idx|, m);
    }
    forall j | 0 <= j < |t| && j !in idx ensures ApplyCycle(t, idx, |idx|)[j] == t[j] {
      assert idx[..|idx|] == idx;
      ApplyCycleOutside(t, idx, |idx|, j);
    }
  }

  /** The position after `m` in a cycle of length `n`. */
  function Succ(m: int, n: int): int {
    if m == n - 1 then 0 else m + 1
  }

  /** The conditions under which adding a cycle keeps a bijection: distinct
      positions, each currently a fixed point. */
  ghost predicate Addable(t: seq<int>, idx: seq<int>) {
    IsBijection(t) && Distinct(idx) &&
    forall m :: 0 <= m < |idx| ==> 0 <= idx[m] < |t| && t[idx[m]] == idx[m]
  }

  lemma CycleInjective(t: seq<int>, idx: seq<int>, i: int, j: int)
    requires Addable(t, idx) && 0 <= i < j < |t|
    ensures ApplyCycle(t, idx, |idx|)[i] != ApplyCycle(t, idx, |idx|)[j]
  {
    var r := ApplyCycle(t, idx, |idx|);
    var n := |idx|;
    AddCycleEffect(t, idx);
    var mi, mj := IndexOf(idx, i), IndexOf(idx, j);
    if mi >= 0 && mj >= 0 {
      assert r[i] == idx[Succ(mi, n)] && r[j] == idx[Succ(mj, n)];
    } else if mi >= 0 {
      var v := idx[Succ(mi, n)];
      assert r[i] == v && t[v] == v && r[j] == t[j];
      assert v != j;
    } else if mj >= 0 {
      var v := idx[Succ(mj, n)];
      assert r[j] == v && t[v] == v && r[i] == t[i];
      assert v != i;
    }
  }

  lemma CycleSurjective(t: seq<int>, idx: seq<int>, v: int)
    requires Addable(t, idx) && 0 <= v < |t|
    ensures v in ApplyCycle(t, idx, |idx|)
  {
    var r := ApplyCycle(t, idx, |idx|);
    var n := |idx|;
    AddCycleEffect(t, idx);
    var m := IndexOf(idx, v);
    if m >= 0 {
      var pm := if m == 0 then n - 1 else m - 1;
      assert Succ(pm, n) == m;
      assert r[idx[pm]] == v;
    } else {
      var s' := IndexOf(t, v);
      assert t[s'] == v;
      var ms := IndexOf(idx, s');
      if ms >= 0 {
        assert false;
      }
      assert r[s'] == v;
    }
  }

  /** Adding a cycle of distinct indices, all of them fixed points, to a
      bijection gives a bijection. */
  lemma AddCycleKeepsBijection(t: seq<int>, idx: seq<int>)
    requires Addable(t, idx)
    ensures IsBijection(ApplyCycle(t, idx, |idx|))
  {
    var r := ApplyCycle(t, idx, |idx|);
    ApplyCycleInRange(t, idx, |idx|);
    forall i, j | 0 <= i < j < |r| ensures r[i] != r[j] {
      CycleInjective(t, idx, i, j);
    }
    forall v | 0 <= v < |r| ensures v in r {
      CycleSurjective(t, idx, v);
    }
  }

  /** The indices of a string of distinct alphabet characters are distinct. */
  lemma IndicesDistinct(a: Alphabet, s: string)
    requires AllIn(a, s) && Distinct(s)
    ensures Distinct(Indices(a, s))
  {
  }

  lemma ConcatSplitLast(toks: seq<string>)
    requires |toks| > 0
    ensures Concat(toks) == Concat(toks[..|toks| - 1]) + toks[|toks| - 1]
  {
  }

  lemma DistinctAppend(s: string, t: string)
    requires Distinct(s + t)
    ensures Distinct(s) && Distinct(t)
    ensures forall i :: 0 <= i < |t| ==> t[i] !in s
  {
    forall i, j | 0 <= i < j < |t| ensures t[i] != t[j] {
      assert t[i] == (s + t)[|s| + i] && t[j] == (s + t)[|s| + j];
    }
    forall i | 0 <= i < |t| ensures t[i] !in s {
      forall k | 0 <= k < |s| ensures s[k] != t[i] {
        assert s[k] == (s + t)[k] && t[i] == (s + t)[|s| + i];
      }
    }
    forall i, j | 0 <= i < j < |s| ensures s[i] != s[j] {
      assert s[i] == (s + t)[i] && s[j] == (s + t)[j];
    }
  }

  /** An alphabet character that no token names is a fixed point of the
      table, and nothing else maps to it. */
  lemma {:induction false} TableFixes(a: Alphabet, toks: seq<string>, j: int)
    requires AllTokensIn(a, toks)
    requires 0 <= j < a.Size() && a.chars[j] !in Concat(toks)
    ensures Table(a, toks)[j] == j
    ensures forall i :: 0 <= i < a.Size() && Table(a, toks)[i] == j ==> i == j
    decreases |toks|
  {
    if toks != [] {
      var init := toks[..|toks| - 1];
      var last := toks[|toks| - 1];
      var idx := Indices(a, last);
      var t := Table(a, init);
      ConcatSplitLast(toks);
      TableFixes(a, init, j);
      assert j !in idx;
      assert idx[..|last|] == idx;
      ApplyCycleOutside(t, idx, |last|, j);
      forall i | 0 <= i < a.Size() && Table(a, toks)[i] == j ensures i == j {
        if i in idx {
          ApplyCycleInside(t, idx, |last|, i);
        } else {
          ApplyCycleOutside(t, idx, |last|, i);
        }
      }
    }
  }

  /** Tokens with no repeated character across or within them give a
      bijective table. */
  lemma {:induction false} TableBijective(a: Alphabet, toks: seq<string>)
    requires a.Valid() && AllTokensIn(a, toks) && Distinct(Concat(toks))
    ensures IsBijection(Table(a, toks))
    decreases |toks|
  {
    if toks == [] {
      forall v | 0 <= v < a.Size() ensures v in Identity(a.Size()) {
        assert Identity(a.Size())[v] == v;
      }
    } else {
      var init := toks[..|toks| - 1];
      var last := toks[|toks| - 1];
      var idx := Indices(a, last);
      var t := Table(a, init);
      ConcatSplitLast(toks);
      DistinctAppend(Concat(init), last);
      TableBijective(a, init);
      IndicesDistinct(a, last);
      forall m | 0 <= m < |idx| ensures t[idx[m]] == idx[m] {
        TableFixes(a, init, idx[m]);
      }
      AddCycleKeepsBijection(t, idx);
    }
  }

  /** With no repeated character, each character of a token maps to the
      next character of that token, and the last to the first. */
  lemma {:induction false} TableSuccessor(a: Alphabet, toks: seq<string>, k: int, m: int)
    requires a.Valid() && AllTokensIn(a, toks) && Distinct(Concat(toks))
    requires 0 <= k < |toks| && 0 <= m < |toks[k]|
    ensures Table(a, toks)[a.ToInt(toks[k][m])] == a.ToInt(toks[k][(m + 1) % |toks[k]|])
    decreases |toks|
  {
    var init := toks[..|toks| - 1];
    var last := toks[|toks| - 1];
    var idx := Indices(a, last);
    var t := Table(a, init);
    ConcatSplitLast(toks);
    DistinctAppend(Concat(init), last);
    if k == |toks| - 1 {
      IndicesDistinct(a, last);
      AddCycleEffect(t, idx);
      assert idx[m] == a.ToInt(last[m]);
      if m == |last| - 1 {
        ModUnique(m + 1, |last|, 1, 0);
      } else {
        ModUnique(m + 1, |last|, 0, m + 1);
      }
    } else {
      TableSuccessor(a, init, k, m);
      InConcat(init, k, m);
      var j := a.ToInt(toks[k][m]);
      assert j !in idx;
      assert idx[..|last|] == idx;
      ApplyCycleOutside(t, idx, |last|, j);
    }
  }

  // ---------------------------------------------------------------------
  // Properties of the constructor
  // ---------------------------------------------------------------------

  /** Characters that no cycle names map to themselves. */
  lemma AbsentIsFixed(cycles: string, a: Alphabet, j: int)
    requires a.Valid() && FromCycles(cycles, a).Success?
    requires 0 <= j < a.Size() && a.chars[j] !in Letters(cycles)
    ensures FromCycles(cycles, a).value.slist[j] == j
  {
    TokensLetters(cycles);
    TableFixes(a, Tokens(cycles), j);
  }

  /** A cycles string with nothing but parentheses and spaces (the empty
      string included) gives the identity permutation. */
  lemma NoCyclesIsIdentity(cycles: string, a: Alphabet)
    requires a.Valid()
    requires forall i :: 0 <= i < |cycles| ==> cycles[i] in {'(', ')', ' '}
    ensures FromCycles(cycles, a) == Success(Permutation(a, Identity(a.Size())))
  {
    var toks := Tokens(cycles);
    TokensLetters(cycles);
    WithoutAll(cycles, {'(', ')', ' '});
    forall k | 0 <= k < |toks| ensures |toks[k]| == 0 {
      if |toks[k]| > 0 {
        InConcat(toks, k, 0);
        assert false;
      }
    }
    var t := Table(a, toks);
    forall j | 0 <= j < a.Size() ensures t[j] == j {
      TableFixes(a, toks, j);
    }
    assert t == Identity(a.Size());
  }

  /** When no character repeats across or within cycles, the result is a
      bijection, so `invert` is its exact inverse. */
  lemma DistinctCyclesBijective(cycles: string, a: Alphabet)
    requires a.Valid() && FromCycles(cycles, a).Success? && Distinct(Letters(cycles))
    ensures IsBijection(FromCycles(cycles, a).value.slist)
  {
    TokensLetters(cycles);
    TableBijective(a, Tokens(cycles));
  }

  /** Each character of a cycle maps to the next one of its cycle, the last
      to the first, when no character repeats. */
  lemma CycleSuccessor(cycles: string, a: Alphabet, k: int, m: int)
    requires a.Valid() && FromCycles(cycles, a).Success? && Distinct(Letters(cycles))
    requires 0 <= k < |Tokens(cycles)| && 0 <= m < |Tokens(cycles)[k]|
    ensures var tok := Tokens(cycles)[k];
            FromCycles(cycles, a).value.slist[a.ToInt(tok[m])] == a.ToInt(tok[(m + 1) % |tok|])
  {
    TokensLetters(cycles);
    TableSuccessor(a, Tokens(cycles), k, m);
  }

  /** A character absent from every cycle makes the derangement test fail. */
  lemma AbsentDefeatsDerangement(cycles: string, a: Alphabet, j: int)
    requires a.Valid() && FromCycles(cycles, a).Success?
    requires 0 <= j < a.Size() && a.chars[j] !in Letters(cycles)
    ensures var s := FromCycles(cycles, a).value.slist;
            exists k :: 0 <= k < |s| && IndexOf(s, s[k]) == s[k]
  {
    var s := FromCycles(cycles, a).value.slist;
    TokensLetters(cycles);
    TableFixes(a, Tokens(cycles), j);
    var r := IndexOf(s, s[j]);
    assert s[r] == j;
    assert r == j;
  }

  // ---------------------------------------------------------------------
  // The constructor, imperatively
  // ---------------------------------------------------------------------

  /** Adds the cycle c0 -> c1 -> ... -> cm -> c0 to `table`, assigning one
      entry per character in order; stops with `false` at the first
      character outside the alphabet. */
  method AddCycle(table: array<int>, cycle: string, a: Alphabet) returns (ok: bool)
    requires a.Valid() && table.Length == a.Size()
    modifies table
    ensures ok <==> AllIn(a, cycle)
    ensures ok ==> table[..] == ApplyCycle(old(table[..]), Indices(a, cycle), |cycle|)
  {
    ghost var t0 := table[..];
    ghost var all := AllIn(a, cycle);
    var i := 0;
    while i < |cycle|
      invariant 0 <= i <= |cycle|
      invariant forall m :: 0 <= m < i ==> a.Contains(cycle[m])
      invariant all ==> table[..] == ApplyCycle(t0, Indices(a, cycle), i)
    {
      var c := cycle[i];
      var next := if i != |cycle| - 1 then cycle[i + 1] else cycle[0];
      if !a.Contains(next) || !a.Contains(c) {
        return false;
      }
      SetSuccessor(table, cycle, a, i, t0, all);
      i := i + 1;
    }
    return true;
  }

  /** One turn of the loop in `AddCycle`: character `i` of the cycle is
      mapped to its successor. */
  method SetSuccessor(table: array<int>, cycle: string, a: Alphabet, i: int,
                      ghost t0: seq<int>, ghost all: bool)
    requires a.Valid() && table.Length == a.Size() && |t0| == a.Size() && 0 <= i < |cycle|
    requires a.Contains(cycle[i]) && a.Contains(if i != |cycle| - 1 then cycle[i + 1] else cycle[0])
    requires all == AllIn(a, cycle)
    requires all ==> table[..] == ApplyCycle(t0, Indices(a, cycle), i)
    modifies table
    ensures table[..] == old(table[..])[a.ToInt(cycle[i]) :=
              a.ToInt(if i != |cycle| - 1 then cycle[i + 1] else cycle[0])]
    ensures all ==> table[..] == ApplyCycle(t0, Indices(a, cycle), i + 1)
  {
    var next := if i != |cycle| - 1 then cycle[i + 1] else cycle[0];
    table[a.ToInt(cycle[i])] := a.ToInt(next);
    if all {
      ApplyCycleStep(a, cycle, t0, i);
    }
  }

  /** One assignment of the loop in `AddCycle`, on values. */
  lemma ApplyCycleStep(a: Alphabet, cycle: string, t: seq<int>, i: int)
    requires AllIn(a, cycle) && 0 <= i < |cycle| && |t| == a.Size()
    ensures ApplyCycle(t, Indices(a, cycle), i + 1) ==
            ApplyCycle(t, Indices(a, cycle), i)[a.ToInt(cycle[i]) :=
              a.ToInt(if i != |cycle| - 1 then cycle[i + 1] else cycle[0])]
  {
  }

  /** The table for one more token is that token added as a cycle. */
  lemma TableSnoc(a: Alphabet, toks: seq<string>, k: int)
    requires 0 <= k < |toks| && AllTokensIn(a, toks[..k + 1])
    ensures AllTokensIn(a, toks[..k]) && AllIn(a, toks[k])
    ensures Table(a, toks[..k + 1]) ==
            ApplyCycle(Table(a, toks[..k]), Indices(a, toks[k]), |toks[k]|)
  {
    assert toks[..k + 1][..k] == toks[..k];
    assert toks[..k + 1][k] == toks[k];
  }

  /** The constructor: start from the identity table, strip parentheses,
      split into tokens and add each token as a cycle. */
  method NewPermutation(cycles: string, a: Alphabet) returns (r: Result<Permutation>)
    requires a.Valid()
    ensures r == FromCycles(cycles, a)
  {
    var table := new int[a.Size()];
    var count := 0;
    while count < a.Size()
      invariant 0 <= count <= a.Size()
      invariant forall i :: 0 <= i < count ==> table[i] == i
    {
      table[count] := count;
      count := count + 1;
    }
    assert table[..] == Identity(a.Size());
    var toks := Tokens(cycles);
    var k := 0;
    while k < |toks|
      invariant 0 <= k <= |toks|
      invariant AllTokensIn(a, toks[..k])
      invariant table[..] == Table(a, toks[..k])
    {
      var ok := AddCycle(table, toks[k], a);
      if !ok {
        return Failure(NotInAlphabet);
      }
      assert AllTokensIn(a, toks[..k + 1]) by {
        forall j | 0 <= j <= k ensures AllIn(a, toks[j]) {
          if j < k { assert toks[..k][j] == toks[j]; }
        }
      }
      TableSnoc(a, toks, k);
      k := k + 1;
    }
    assert toks[..k] == toks;
    return Success(Permutation(a, table[..]));
  }
}
