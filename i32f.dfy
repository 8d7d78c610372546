/**
 A model of the fixed-point scalar `I32F<E>` of the kotei library: a signed
 32-bit significand together with an exponent `E` that belongs to the type,
 not to the value.

 Dafny has no integer type parameters, so the type-level exponent is passed as
 the first argument `E` of every operation. It stands for the `E` of the
 instantiation `I32F<E>` the operation belongs to; it is never stored in an
 `I32F` value, so two values can only differ in their significand.
 */
module Kotei {

  /** Rust's `i32`: the two's-complement 32-bit signed integers. */
  newtype i32 = x: int | -0x8000_0000 <= x < 0x8000_0000

  const I32Min: int := -0x8000_0000
  const I32Max: int := 0x7FFF_FFFF

  /** The scalar: one `i32` field, the significand, kept verbatim. */
  datatype I32F = I32F(sig: i32)

  /** `new`: wraps the significand unchanged, with no range check, rounding or
      normalisation. */
  function New(E: i32, significand: i32): (r: I32F)
    ensures r.sig == significand
  {
    I32F(significand)
  }

  /** `significand`: the stored field. Reading it loses nothing: `new` of the
      result rebuilds the very same scalar, and it lies in the range of `i32`. */
  function Significand(E: i32, x: I32F): (r: i32)
    ensures New(E, r) == x
    ensures I32Min <= r as int <= I32Max
  {
    x.sig
  }

  /** `exponent`: the exponent of the type, whatever value it is asked of. */
  function Exponent(E: i32, x: I32F): (r: i32)
    ensures r == E
  {
    E
  }

  // ---------------------------------------------------------------------------
  // Properties of the constructor and the accessors
  // ---------------------------------------------------------------------------

  /** Round trip: the significand of `new(s)` is `s`, for every `i32`. */
  lemma NewSignificand(E: i32, s: i32)
    ensures Significand(E, New(E, s)) == s
  {
  }

  /** `new` is injective: two scalars of one type built by `new` are equal
      exactly when their significands are. */
  lemma NewInjective(E: i32, s: i32, t: i32)
    ensures New(E, s) == New(E, t) <==> s == t
  {
  }

  /** Equality of scalars of one type is equality of their significands. */
  lemma SignificandDeterminesScalar(E: i32, x: I32F, y: I32F)
    ensures x == y <==> Significand(E, x) == Significand(E, y)
  {
  }

  /** The exponent does not depend on the stored significand. */
  lemma ExponentIndependent(E: i32, x: I32F, y: I32F)
    ensures Exponent(E, x) == Exponent(E, y) == E
  {
  }

  // ---------------------------------------------------------------------------
  // The represented real value. The library calls itself fixed-point but never
  // computes this number; reading a scalar as significand * 2^E is this
  // model's interpretation of that description, so it is ghost. Times2Pow and
  // Pow2 and their lemmas are helpers behind Value.
  // ---------------------------------------------------------------------------

  /** `v * 2^e`, by doubling `e` times when `e` is positive and halving `-e`
      times when it is negative. */
  ghost function Times2Pow(v: real, e: int): (r: real)
    decreases if e < 0 then -e else e
  {
    if e == 0 then v
    else if e > 0 then 2.0 * Times2Pow(v, e - 1)
    else Times2Pow(v, e + 1) / 2.0
  }

  /** 2^n for a natural n. */
  function Pow2(n: nat): (r: nat)
  {
    if n == 0 then 1 else 2 * Pow2(n - 1)
  }

  /** For a non-negative exponent n, `Times2Pow` is multiplication by 2^n. */
  lemma {:induction false} Times2PowIsProduct(v: real, n: nat)
    ensures Times2Pow(v, n) == v * Pow2(n) as real
  {
    if n > 0 {
      Times2PowIsProduct(v, n - 1);
      var p := Pow2(n - 1) as real;
      assert Pow2(n) as real == 2.0 * p;
      assert 2.0 * (v * p) == v * (2.0 * p);
    }
  }

  /** For a negative exponent -n, `Times2Pow` is division by 2^n: multiplying
      the result by 2^n gives back what was scaled. */
  lemma {:induction false} Times2PowIsQuotient(v: real, n: nat)
    ensures Times2Pow(v, -(n as int)) * Pow2(n) as real == v
  {
    if n > 0 {
      var m: int := n - 1;
      Times2PowIsQuotient(v, m);
      var p := Pow2(m) as real;
      var q := Times2Pow(v, -m);
      assert q * p == v;
      assert -(n as int) + 1 == -m;
      assert Times2Pow(v, -(n as int)) == q / 2.0;
      assert Pow2(n) as real == 2.0 * p;
      assert (q / 2.0) * (2.0 * p) == q * p;
    }
  }

  /** The real number a scalar of exponent `E` stands for: its significand
      times 2^E. */
  ghost function Value(E: i32, x: I32F): (r: real)
  {
    Times2Pow(x.sig as real, E as int)
  }

  /** Scaling by 2^e keeps strict order, for an exponent of either sign. */
  lemma {:induction false} Times2PowStrictlyIncreasing(a: real, b: real, e: int)
    requires a < b
    ensures Times2Pow(a, e) < Times2Pow(b, e)
    decreases if e < 0 then -e else e
  {
    if e > 0 {
      Times2PowStrictlyIncreasing(a, b, e - 1);
    } else if e < 0 {
      Times2PowStrictlyIncreasing(a, b, e + 1);
    }
  }

  /** Scaling zero by 2^e gives zero. */
  lemma {:induction false} Times2PowZero(e: int)
    ensures Times2Pow(0.0, e) == 0.0
    decreases if e < 0 then -e else e
  {
    if e > 0 {
      Times2PowZero(e - 1);
    } else if e < 0 {
      Times2PowZero(e + 1);
    }
  }

  /** Scaling by 2^e is an order embedding: it keeps and reflects both strict
      order and equality. */
  lemma Times2PowOrder(a: real, b: real, e: int)
    ensures a < b <==> Times2Pow(a, e) < Times2Pow(b, e)
    ensures a == b <==> Times2Pow(a, e) == Times2Pow(b, e)
  {
    if a < b {
      Times2PowStrictlyIncreasing(a, b, e);
    } else if b < a {
      Times2PowStrictlyIncreasing(b, a, e);
    }
  }

  /** The value is strictly increasing in the significand, so no two
      significands of one type stand for the same real number (nothing is
      rounded or normalised away). */
  lemma ValueOrder(E: i32, x: I32F, y: I32F)
    ensures Significand(E, x) < Significand(E, y) <==> Value(E, x) < Value(E, y)
    ensures Significand(E, x) == Significand(E, y) <==> Value(E, x) == Value(E, y)
  {
    Times2PowOrder(x.sig as real, y.sig as real, E as int);
  }

  /** The value has the sign of the significand; it is zero exactly for the
      zero significand. */
  lemma ValueSign(E: i32, x: I32F)
    ensures Value(E, x) > 0.0 <==> Significand(E, x) > 0
    ensures Value(E, x) == 0.0 <==> Significand(E, x) == 0
    ensures Value(E, x) < 0.0 <==> Significand(E, x) < 0
  {
    Times2PowZero(E as int);
    Times2PowOrder(0.0, x.sig as real, E as int);
  }

  /** The value of a scalar lies between -2^31 * 2^E and (2^31 - 1) * 2^E, the
      values of the extreme significands. */
  lemma ValueRange(E: i32, x: I32F)
    ensures Times2Pow(I32Min as real, E as int) <= Value(E, x) <= Times2Pow(I32Max as real, E as int)
  {
    Times2PowOrder(I32Min as real, x.sig as real, E as int);
    Times2PowOrder(x.sig as real, I32Max as real, E as int);
  }
}
