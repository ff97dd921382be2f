/** Minimal stand-in for the alphabet the machine works over: an ordered
    sequence of distinct characters whose positions are the indices
    0..size-1.  Only the behaviour the core relies on is modelled. */
module Alphabets {
  import opened Base

  datatype Alphabet = Alphabet(chars: string) {

    /** A usable alphabet is non-empty (wrapping divides by its size) and
        lists every character once. */
    ghost predicate Valid() {
      |chars| > 0 && Distinct(chars)
    }

    function Size(): nat {
      |chars|
    }

    predicate Contains(c: char) {
      c in chars
    }

    /** The index of character `c`. */
    function ToInt(c: char): (i: nat)
      requires Contains(c)
      ensures i < Size() && chars[i] == c
    {
      IndexOf(chars, c)
    }

    /** The character at index `i`. */
    function ToChar(i: int): (c: char)
      requires 0 <= i < Size()
      ensures Contains(c)
    {
      chars[i]
    }
  }

  /** `ToInt` and `ToChar` are mutual inverses on a valid alphabet. */
  lemma ToCharToInt(a: Alphabet, c: char)
    requires a.Contains(c)
    ensures a.ToChar(a.ToInt(c)) == c
  {
  }

  lemma ToIntToChar(a: Alphabet, i: int)
    requires a.Valid() && 0 <= i < a.Size()
    ensures a.ToInt(a.ToChar(i)) == i
  {
  }
}
