/** JavaScript strings are sequences of UTF-16 code units: `.length`
    counts one unit for a character of the Basic Multilingual Plane and two
    (a surrogate pair) for any character above it.  Dafny's `char` is a
    Unicode scalar value, so the JavaScript length is computed here. */
module Utf16 {

  /** The first code point that needs a surrogate pair. */
  const FirstSupplementary: int := 0x1_0000

  /** A character JavaScript stores in one code unit. */
  type PlaneChar = c: char | (c as int) < FirstSupplementary

  /** The number of UTF-16 code units that encode `c`. */
  function Units(c: char): (n: nat)
    ensures n == 1 <==> (c as int) < FirstSupplementary
    ensures n == 1 || n == 2
  {
    if (c as int) < FirstSupplementary then 1 else 2
  }

  /** `s.length` in JavaScript: the sum of the units of the characters. */
  function Length(s: string): (n: nat)
    ensures n >= |s|
    ensures s != [] ==> n >= Units(s[0])
  {
    if s == [] then 0 else Units(s[0]) + Length(s[1..])
  }

  /** Every character of `s` is in the Basic Multilingual Plane. */
  predicate InPlane(s: string)
  {
    forall i :: 0 <= i < |s| ==> (s[i] as int) < FirstSupplementary
  }

  /** A JavaScript string of length 1 is exactly one character of the Basic
      Multilingual Plane: a character above it already has length 2. */
  lemma LengthOne(s: string)
    ensures Length(s) == 1 <==> |s| == 1 && (s[0] as int) < FirstSupplementary
  {
    if |s| == 1 {
      assert s[1..] == [];
    }
  }

  /** The JavaScript length equals the number of characters exactly when no
      character needs a surrogate pair. */
  lemma {:induction false} LengthIsSize(s: string)
    ensures Length(s) == |s| <==> InPlane(s)
    decreases |s|
  {
    if s != [] {
      LengthIsSize(s[1..]);
      if InPlane(s) {
        assert InPlane(s[1..]) by {
          forall i | 0 <= i < |s[1..]|
            ensures (s[1..][i] as int) < FirstSupplementary
          {
            assert s[1..][i] == s[i + 1];
          }
        }
      }
      if InPlane(s[1..]) && (s[0] as int) < FirstSupplementary {
        forall i | 0 <= i < |s|
          ensures (s[i] as int) < FirstSupplementary
        {
          if i > 0 {
            assert s[i] == s[1..][i - 1];
          }
        }
      }
    }
  }

  /** One character above the plane, such as U+1F600, has length 2. */
  lemma SupplementaryLength()
    ensures Length("\U{1F600}") == 2
  {
    assert "\U{1F600}"[1..] == [];
  }
}
