/** `String.prototype.hashCode` as the dashboard defines it: Java's string
    hash, computed over UTF-16 code units with 32-bit wrap-around. */
module HashCode {
  import opened Js

  /** One UTF-16 code unit, as `charCodeAt` returns it. */
  type CodeUnit = c: int | 0 <= c < 0x10000

  /** One turn of the loop: `((hash << 5) - hash) + c`, then `hash & hash`.
      `<<` wraps its result to 32 bits; the subtraction and addition are exact
      in a double and `&` wraps again. */
  function Step(hash: int, c: CodeUnit): int
  {
    ToInt32(ToInt32(hash * 32) - hash + c)
  }

  /** The value the loop has reached after the code units of `s`. */
  function Hash(s: seq<CodeUnit>): (r: int)
    ensures s == [] ==> r == 0
    ensures -TwoTo31 <= r < TwoTo31
  {
    if |s| == 0 then 0 else Step(Hash(s[..|s| - 1]), s[|s| - 1])
  }

  /** The polynomial Java's `String.hashCode` is defined by, without
      wrap-around: s[0]*31^(n-1) + ... + s[n-1]. */
  function Poly(s: seq<CodeUnit>): int
  {
    if |s| == 0 then 0 else 31 * Poly(s[..|s| - 1]) + s[|s| - 1]
  }

  /** A step is `int32(31*h + c)` for every 32-bit `h`. */
  lemma {:induction false} StepIsInt32(hash: int, c: CodeUnit)
    requires -TwoTo31 <= hash < TwoTo31
    ensures Step(hash, c) == ToInt32(31 * hash + c)
  {
    var w := ToInt32(hash * 32);
    var k := (hash * 32 - w) / TwoTo32;
    assert hash * 32 - w == k * TwoTo32;
    assert (31 * hash + c) - (w - hash + c) == k * TwoTo32;
    assert ((31 * hash + c) - (w - hash + c)) % TwoTo32 == 0;
    ToInt32Congruent(w - hash + c, 31 * hash + c);
  }

  /** Appending one code unit: `hash(s + [c]) == int32(31*hash(s) + c)`. */
  lemma {:induction false} HashAppend(s: seq<CodeUnit>, c: CodeUnit)
    ensures Hash(s + [c]) == ToInt32(31 * Hash(s) + c)
  {
    assert (s + [c])[..|s|] == s;
    StepIsInt32(Hash(s), c);
  }

  /** The hash is Java's polynomial reduced to a signed 32-bit integer. */
  lemma {:induction false} HashIsPoly(s: seq<CodeUnit>)
    ensures Hash(s) == ToInt32(Poly(s))
  {
    if |s| > 0 {
      var p, c := s[..|s| - 1], s[|s| - 1];
      HashIsPoly(p);
      HashAppend(p, c);
      assert s == p + [c];
      ScaleCongruent(Poly(p), Hash(p), c);
      ToInt32Congruent(31 * Poly(p) + c, 31 * Hash(p) + c);
    }
  }

  /** Multiplying by 31 and adding `c` keeps two values congruent modulo 2^32. */
  lemma {:induction false} ScaleCongruent(x: int, y: int, c: int)
    requires (x - y) % TwoTo32 == 0
    ensures ((31 * x + c) - (31 * y + c)) % TwoTo32 == 0
  {
    var k := (x - y) / TwoTo32;
    assert x - y == k * TwoTo32;
    assert (31 * x + c) - (31 * y + c) == (31 * k) * TwoTo32;
  }

  /** `"...".hashCode()`. */
  method HashCodeOf(s: seq<CodeUnit>) returns (hash: int)
    ensures hash == Hash(s)
  {
    hash := 0;
    if |s| == 0 {
      return;
    }
    var i := 0;
    while i < |s|
      invariant 0 <= i <= |s|
      invariant hash == Hash(s[..i])
    {
      var c := s[i];
      assert s[..i + 1][..i] == s[..i];
      hash := ToInt32(ToInt32(hash * 32) - hash + c);
      i := i + 1;
    }
    assert s[..i] == s;
  }
}
