# kotei `I32F<E>` in Dafny

kotei is a dependency-free fixed-point library. Its one type, `I32F<E>`, is a
fixed-point scalar. At run time it holds a single signed 32-bit significand.
Its exponent `E` is a compile-time parameter of the type and is never
stored. The type has three total, pure operations:

- `new` wraps a significand unchanged;
- `significand` returns the stored field;
- `exponent` returns the type's `E`.

This project models that type in `i32f.dfy`, in module `Kotei`:

- `i32` is a newtype over `-2^31 .. 2^31-1`.
- `I32F` is a datatype with one `i32` field.
- `New`, `Significand` and `Exponent` are functions with no preconditions and
  no failure path, matching the source's totality.

Dafny has no integer type parameters, so every operation takes the type-level
exponent as its first argument `E`. That argument is the `E` of the
instantiation `I32F<E>` the call belongs to. It is not part of any `I32F`
value, so two values of one type can differ only in their significand.

The crate describes itself as a fixed-point arithmetic library
(src/lib.rs:1) but names no base for the exponent and never computes a real
value. This model reads a scalar as the real number `significand * 2^E`; that
reading is the model's interpretation, not something the source states. It is
the ghost function `Value`. Nothing else in the model depends on it.

`Value` rests on helpers that are part of the model, not of the source:
- `Times2Pow(v, e)` scales a real by doubling it `e` times, or halving it `-e`
  times when `e` is negative;
- `Pow2(n)` is `2^n` for a natural `n`;
- `Times2PowIsProduct` and `Times2PowIsQuotient` show that `Times2Pow` is
  multiplication by `2^n` and division by `2^n`;
- `Times2PowStrictlyIncreasing`, `Times2PowZero` and `Times2PowOrder` show that
  this scaling keeps and reflects order and equality and maps zero to zero.
The lemmas `ValueOrder`, `ValueSign` and `ValueRange` in the table below are
proved from them.

An `I32F` is a Dafny datatype value, so it is immutable. The accessors are pure
functions of it. A copy taken before a call therefore sees the same scalar
after it, by construction; no member states this separately.

## Model

| member | source | states |
|---|---|---|
| Kotei.New | src/i32f.rs:4-6 | the scalar built from `significand` stores exactly that significand: no range check, rounding or normalisation; total |
| Kotei.Significand | src/i32f.rs:8-10 | rebuilding a scalar with `new` from its significand gives back the same scalar, so reading the field loses nothing; the result lies in `-2^31 .. 2^31-1` |
| Kotei.Exponent | src/i32f.rs:12-14 | the result is the type's exponent `E`, for every value |
| Kotei.NewSignificand | src/i32f.rs:4-10 | round trip: `significand(new(s)) == s` for every 32-bit signed `s` |
| Kotei.NewInjective | src/i32f.rs:1-6 | two scalars of one type built by `new` are equal if and only if their significands are equal |
| Kotei.SignificandDeterminesScalar | src/i32f.rs:1-10 | two scalars of one type are equal if and only if their significands are equal, since the significand is the only field |
| Kotei.ExponentIndependent | src/i32f.rs:12-14 | any two scalars of one type report the same exponent, namely `E`, whatever their significands |
| Kotei.ValueOrder | src/i32f.rs:1-6 | the represented value `significand * 2^E` is strictly increasing in the significand, both directions: a smaller significand means a smaller value, and equal significands iff equal values, so nothing is rounded away |
| Kotei.ValueSign | src/i32f.rs:1-6 | the represented value is positive, zero or negative exactly when the significand is |
| Kotei.ValueRange | src/i32f.rs:1 | the represented value lies between `-2^31 * 2^E` and `(2^31 - 1) * 2^E` |

## Left out

- src/lib.rs holds only a crate doc comment, lint and `no_std` attributes, and the module re-export; there is no logic to model.
- Bit reinterpretation (`from_bits`, `to_bits`), byte encodings in big, little and native order, the `MIN`, `MAX` and `BITS` constants, and Debug and radix formatting are not in src/i32f.rs, so they are not modelled. Native byte order would in any case depend on the platform.
- Arithmetic, comparison and conversion between exponents are not implemented by the library, so they are not modelled. The real value exists only as the ghost `Value`.
- The type-level exponent is an argument of each function, not a distinct Dafny type per `E`. The model therefore cannot show that scalars of different exponents are different types; it only never mixes them.
- Rust's `const fn`, `pub(crate)` field visibility and `Copy` semantics need nothing beyond treating `I32F` as an immutable value.
