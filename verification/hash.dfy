/** The hash code of the name type: a fold `h := 31 * h + c` over the
    characters of the data string, kept in JavaScript's signed 32-bit range
    (`(h << 5) - h + c` followed by `h |= 0`). */
module HashCode {

  const TwoTo32: int := 0x1_0000_0000
  const TwoTo31: int := 0x8000_0000

  /** JavaScript's ToInt32: `x` wrapped into the signed 32-bit range. */
  function ToInt32(x: int): (r: int)
    ensures -TwoTo31 <= r < TwoTo31
    ensures (r - x) % TwoTo32 == 0
  {
    (x + TwoTo31) % TwoTo32 - TwoTo31
  }

  /** The hash of `s`, the left fold of the loop over its characters. */
  function Hash(s: string): (r: int)
    ensures -TwoTo31 <= r < TwoTo31
  {
    if s == [] then 0 else ToInt32(31 * Hash(s[..|s| - 1]) + s[|s| - 1] as int)
  }

  /** The loop of `getHashCode` over the data string. */
  method StringHash(s: string) returns (h: int)
    ensures h == Hash(s)
    ensures -TwoTo31 <= h < TwoTo31
  {
    h := 0;
    var i := 0;
    while i < |s|
      invariant 0 <= i <= |s|
      invariant h == Hash(s[..i])
    {
      assert s[..i + 1][..i] == s[..i];
      h := ToInt32(31 * h + s[i] as int);
      i := i + 1;
    }
    assert s[..i] == s;
  }

  /** The polynomial `sum of s[k] * 31^(n-1-k)` without wrap-around. */
  function Polynomial(s: string): int
  {
    if s == [] then 0 else 31 * Polynomial(s[..|s| - 1]) + s[|s| - 1] as int
  }

  lemma CongruentStep(a: int, b: int, c: int)
    requires (a - b) % TwoTo32 == 0
    ensures ((31 * a + c) - (31 * b + c)) % TwoTo32 == 0
  {
    var k := (a - b) / TwoTo32;
    assert a - b == k * TwoTo32;
    assert (31 * a + c) - (31 * b + c) == (31 * k) * TwoTo32;
  }

  lemma CongruentTrans(x: int, y: int, z: int)
    requires (x - y) % TwoTo32 == 0 && (y - z) % TwoTo32 == 0
    ensures (x - z) % TwoTo32 == 0
  {
    var k := (x - y) / TwoTo32;
    var l := (y - z) / TwoTo32;
    assert x - y == k * TwoTo32 && y - z == l * TwoTo32;
    assert x - z == (k + l) * TwoTo32;
  }

  /** The wrapped fold agrees with the unbounded polynomial hash modulo
      2^32: the wrap-around after every step loses nothing but the high
      bits. */
  lemma {:induction false} HashIsPolynomial(s: string)
    ensures (Hash(s) - Polynomial(s)) % TwoTo32 == 0
  {
    if s != [] {
      var p := s[..|s| - 1];
      var c := s[|s| - 1] as int;
      HashIsPolynomial(p);
      CongruentStep(Hash(p), Polynomial(p), c);
      CongruentTrans(Hash(s), 31 * Hash(p) + c, 31 * Polynomial(p) + c);
    }
  }
}
