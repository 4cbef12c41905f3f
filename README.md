# Fixed-point numbers with the scale in the type

This project models the `fix` crate's fixed-point number `Fix<Bits, Base, Exp>`. A value stands for
`bits × Base^Exp`. `bits` is an integer primitive (`u8` … `u128`, `i8` … `i128`, `usize`, `isize`).
`Base` (an unsigned radix) and `Exp` (a signed exponent) are type-level integers. Only `bits` exists at
run time.

The model has four modules:

- `Primitives` (`primitives.dfy`) covers the storage primitives.
  - `Prim` lists the primitives, with `Min`/`Max` ranges.
  - `TDiv`/`TRem` are Rust's truncating `/` and `%` on them.
  - `FromUnsigned` and `Pow` are the two operations `convert` is written against.
- `FixedPoint` (`fix.dfy`) holds the number itself.
  - The datatype `Fix(prim, bits, base, exp)`, with `new`, `into_bits` and `Default`.
  - `convert` and the comparisons.
  - The whole operator suite: between numbers and with a raw `Bits` operand.
  - What each operator means for the represented number.
- `FixedAssign` (`assign.dfy`) holds the compound assignments.
  - They are methods of a class `FixCell`. Its only mutable field is `bits`.
  - Its scale is `const`: the Rust type fixes it, so no assignment can change it.
- `Scenarios` (`scenarios.dfy`) holds worked examples of the scale rules.

How the model represents things:

- **The scale.** Rust keeps the scale in the type. The model carries it as ordinary fields of `Fix`.
- **Type-checker rules become preconditions.** What the Rust type checker enforces is a precondition here:
  - `Commensurate`: same `Bits`, `Base` and `Exp`. Required by `==`, `cmp`, `+`, `-`, `+=` and `-=`.
  - `SameBase`: same `Bits` and `Base`, exponents free. Required by `*`, `/` and `%` between numbers, and by `%=` with a number.
- **The represented number.** The crate never computes it. The model states it as
  `ValueIn(x, e) = bits × base^(exp − e)`, which is the number counted in units of `base^e` for any
  `e <= exp`. `SameValue` compares two numbers at the finer of their two units. Lemmas prove what each
  operation does to this number:
  - `convert` keeps the number exactly, or loses exactly `bits % ratio`.
  - A product stands for the product of the numbers, and a sum for the sum.
  - Equality and order of the bits are equality and order of the numbers.
- **Overflow, division by zero and Rust's `MIN % -1` panic.** These are the source's inherited failure
  modes. The model turns them into preconditions:
  - every result must be in its primitive's range;
  - every divisor must be non-zero;
  - `%` requires that the matching `/` does not overflow.

  `ConvertDefined` spells out when `convert` runs without panicking:
  - the radix fits `Bits`;
  - the ratio `base^|diff|` fits `Bits`, on either branch, because `pow` is evaluated first;
  - the ratio is non-zero on the dividing branch;
  - the product fits on the multiplying branch.

A radix is normally at least 2, but the code accepts any type-level unsigned integer as `Base`. The
model follows the code: no operation requires the base to be at least 2. Only `convert` requires anything
of it: the radix must fit `Bits`, and when the conversion divides the base must be positive. Four lemmas
require `base > 0`:
- `SameValueInAnyUnit`, `EqIsSameValue` and `CmpIsValueOrder` compare represented numbers. With base 0
  every number with a positive exponent collapses to zero. `CmpIsValueOrder` needs `base > 0` only for
  a unit finer than the numbers' own.
- `ConvertRoundTripDown`. Its way back divides by the ratio, which is zero when the base is.

The other conversion lemmas need no such requirement. Wherever they divide, `ConvertDefined` already
demands a non-zero ratio, and that rules out base 0.

`typenum::Le` is `IsLess`, so the `inverse` flag of `convert` is `Exp − ToExp < 0`. The flag in the
code and the `IsLess<Z0>` bound agree on this.

## Model

| member | source | states |
|---|---|---|
| Primitives.TDiv | src/lib.rs:219-225 | Rust's `/` on the bits: the quotient truncates toward zero. `q × b` lies between 0 and `a` and misses `a` by less than `|b|`. |
| Primitives.TDivUnique | src/lib.rs:219-225 | Truncating division has exactly one quotient. Any `q` meeting that characterization is `TDiv(a, b)`. |
| Primitives.TRem | src/lib.rs:227-233 | Rust's `%` on the bits: `a == (a / b) × b + a % b`, `|a % b| < |b|`, and the remainder lies between 0 and `a` (the sign of the dividend). |
| Primitives.TDivExact | src/lib.rs:71-77 | A multiple of the divisor divides exactly: `(q × b) / b == q` and `(q × b) % b == 0`. |
| Primitives.TDivShrinks | src/lib.rs:73-74 | Dividing by a positive ratio moves toward zero and never overflows the primitive. |
| Primitives.TDivTwice | src/lib.rs:73-74 | Truncating by `p` and then by `q` is truncating once by `p × q`. |
| Primitives.TDivNegate | src/lib.rs:73-74 | Truncating division is symmetric about zero: `(-a) / b == -(a / b)`. |
| Primitives.PowAdd | src/lib.rs:101-119 | `Pow` adds exponents: `b^(m+n) == b^m × b^n`. |
| Primitives.Pow | src/lib.rs:101-119 | `pow` of a non-negative radix is non-negative, and of a positive radix positive, for every exponent. |
| Primitives.FromUnsigned | src/lib.rs:84-99 | `from_unsigned::<Base>()` gives the radix as a value of the primitive. The model requires the radix to fit. |
| Primitives.UnsignedRange | src/lib.rs:89-93 | The unsigned primitives (`u8` … `u64`, `usize`, `u128`) hold exactly `0 … 2^w − 1` for their width `w`. This range is what `InRange` checks. |
| Primitives.SignedRange | src/lib.rs:95-99 | The signed primitives (`i8` … `i64`, `isize`, `i128`) hold exactly `−2^(w−1) … 2^(w−1) − 1` (two's complement). This range is what `InRange` checks. |
| FixedPoint.ValueInFiner | src/lib.rs:19-24 | Counting `bits × Base^Exp` in a unit `base^k` times finer multiplies the count by `base^k`. |
| FixedPoint.SameValueInAnyUnit | src/lib.rs:19-24 | Two numbers of one base are the same number exactly when their counts agree in any common unit. |
| FixedPoint.New | src/lib.rs:46-49 | `new` wraps any value of the primitive at any scale without validation, and the result is a valid number. |
| FixedPoint.IntoBits | src/lib.rs:51-54 | `into_bits` returns a value of the storage primitive. |
| FixedPoint.IntoBitsNew | src/lib.rs:45-54 | Round trip: `into_bits(new(b)) == b`, and `new` at a number's own scale applied to its bits rebuilds the number. |
| FixedPoint.Default | src/lib.rs:140-145 | `Default` is a valid number at the requested scale that stands for zero. |
| FixedPoint.Convert | src/lib.rs:56-78 | `convert` keeps `Bits` and `Base` and sets the exponent to `ToExp`. On the dividing branch the result never overflows. |
| FixedPoint.ConvertSameExp | src/lib.rs:65-77 | Converting to the number's own exponent is defined whenever the radix fits `Bits`, and is the identity (ratio `base^0 == 1`, multiplying branch). |
| FixedPoint.ConvertDownExact | src/lib.rs:71-77 | A conversion to a smaller exponent multiplies by `Base^(Exp−ToExp)`. The result stands for exactly the same number. |
| FixedPoint.ConvertUpTruncates | src/lib.rs:71-74 | A conversion to a larger exponent truncates. Counted in the old unit, the result misses the original by exactly `bits % ratio`. That remainder is smaller than the ratio and has the sign of `bits`. |
| FixedPoint.ConvertUpExactIff | src/lib.rs:71-74 | A conversion to a larger exponent keeps the number if and only if the ratio divides the bits. |
| FixedPoint.ConvertRoundTripDown | src/lib.rs:57-78 | Converting to a smaller exponent and back is defined and recovers the original number. |
| FixedPoint.ConvertRoundTripUp | src/lib.rs:57-78 | When the ratio divides the bits, converting to a larger exponent and back is defined and recovers the original. |
| FixedPoint.ConvertComposeDown | src/lib.rs:57-78 | Two conversions toward smaller exponents equal one direct conversion. |
| FixedPoint.ConvertComposeUp | src/lib.rs:57-78 | Two conversions toward larger exponents equal one direct conversion: the truncation happens only once. |
| FixedPoint.Eq | src/lib.rs:163-169 | `==` between commensurate numbers holds exactly when the two are identical: the scale is shared, so equal bits is the whole of equality. |
| FixedPoint.Cmp | src/lib.rs:178-183 | `cmp` between commensurate numbers returns `Equal` exactly when `==` holds. |
| FixedPoint.PartialCmp | src/lib.rs:171-176 | `partial_cmp` is never `None` and agrees with `cmp`. |
| FixedPoint.EqIsSameValue | src/lib.rs:163-169 | For commensurate numbers, equal bits means the same represented number, and conversely. |
| FixedPoint.CmpIsValueOrder | src/lib.rs:171-183 | For commensurate numbers, the order of the bits is the order of the represented numbers in all three outcomes. This holds in the numbers' own unit for any base, and in every finer unit when the base is positive. |
| FixedPoint.CmpTotalOrder | src/lib.rs:178-183 | `cmp` is antisymmetric and transitive, both strictly and non-strictly. |
| FixedPoint.Neg | src/lib.rs:187-193 | `-x` keeps the scale and stands for the negated number in every unit. It needs a signed primitive. |
| FixedPoint.NegInvolutive | src/lib.rs:187-201 | `-(-x) == x`, and `x + (-x)` is zero at `x`'s scale. |
| FixedPoint.Add | src/lib.rs:195-201 | `+` needs commensurate operands and gives a valid number at the same scale. |
| FixedPoint.Sub | src/lib.rs:203-209 | `-` needs commensurate operands and gives a valid number at the same scale. |
| FixedPoint.AddValue | src/lib.rs:195-201 | The sum stands for the sum of the represented numbers, counted in any unit. |
| FixedPoint.SubValue | src/lib.rs:203-209 | The difference stands for the difference of the represented numbers. |
| FixedPoint.AddCommutative | src/lib.rs:195-201 | `a + b == b + a`. |
| FixedPoint.AddAssociative | src/lib.rs:195-201 | `(a + b) + c == a + (b + c)` when no partial sum overflows. |
| FixedPoint.SubUndoesAdd | src/lib.rs:195-209 | `(a + b) - b == a`. |
| FixedPoint.Mul | src/lib.rs:211-217 | `*` between numbers of one base gives exponent `LExp + RExp` with the same `Bits` and `Base`. |
| FixedPoint.MulValue | src/lib.rs:211-217 | The product stands for the product of the represented numbers. Units `base^ea` and `base^eb` multiply to `base^(ea+eb)`. |
| FixedPoint.MulCommutative | src/lib.rs:211-217 | `a * b == b * a`, exponent included. |
| FixedPoint.Div | src/lib.rs:219-225 | `/` between numbers of one base gives exponent `LExp − RExp`, truncating the bits. |
| FixedPoint.Rem | src/lib.rs:227-233 | `%` keeps the left operand's scale. The remainder is smaller than the right operand's bits and lies between 0 and the left bits. |
| FixedPoint.DivRemIdentity | src/lib.rs:211-233 | `(a / b) * b + a % b == a` as numbers: exponents `LExp − RExp + RExp` return to `LExp` and no intermediate overflows. |
| FixedPoint.RemIgnoresRightExp | src/lib.rs:227-233 | `%` uses only the right operand's bits. Its exponent plays no part, e.g. `6×10^3 % 5×10^-3 == 1×10^3`. |
| FixedPoint.MulBits | src/lib.rs:235-241 | `*` by a raw `Bits` keeps the scale. |
| FixedPoint.DivBits | src/lib.rs:243-249 | `/` by a raw `Bits` keeps the scale. |
| FixedPoint.RemBits | src/lib.rs:251-257 | `%` by a raw `Bits` keeps the scale, and the remainder is smaller than the divisor. |
| FixedPoint.BitsOperandIsUnitless | src/lib.rs:235-257 | `*`, `/` and `%` by a raw `Bits` equal the same operators with a number of exponent 0 in the same base. |
| FixedPoint.MulBitsValue | src/lib.rs:235-241 | Multiplying by a raw `k` multiplies the represented number by `k`. |
| FixedAssign.FixCell.AddAssign | src/lib.rs:261-266 | `a += b` leaves `a` equal to the old `a + b`, at the same scale. |
| FixedAssign.FixCell.SubAssign | src/lib.rs:268-273 | `a -= b` leaves `a` equal to the old `a - b`, at the same scale. |
| FixedAssign.FixCell.MulAssign | src/lib.rs:275-280 | `a *= k` leaves `a` equal to the old `a * k` for a raw `k`, at the same scale. |
| FixedAssign.FixCell.DivAssign | src/lib.rs:282-287 | `a /= k` leaves `a` equal to the old `a / k` for a raw `k`, at the same scale. |
| FixedAssign.FixCell.RemAssign | src/lib.rs:289-294 | `a %= b`, for a number `b` of any exponent, leaves `a` equal to the old `a % b`, which uses only `b`'s bits, at `a`'s scale. |
| FixedAssign.FixCell.RemAssignBits | src/lib.rs:296-301 | `a %= k` leaves `a` equal to the old `a % k` for a raw `k`, at the same scale. |
| FixedAssign.AddThenSubRestores | src/lib.rs:261-273 | `a += b; a -= b` restores `a` exactly. |
| Scenarios.ConvertUpExample | src/lib.rs:73-74 | `15000000×10^-3` converted to exponent 3 gives `15×10^3`. |
| Scenarios.ConvertDownExample | src/lib.rs:75-76 | `15×10^3` converted to exponent -3 gives `15000000×10^-3`. |
| Scenarios.ConvertBinaryExample | src/lib.rs:75-76 | `1×2^20` converted to exponent 10 gives `1024×2^10`. |
| Scenarios.ConvertNegativeExample | src/lib.rs:73-74 | `-1500×10^0` converted to exponent 3 truncates toward zero to `-1×10^3`. |
| Scenarios.MulExample | src/lib.rs:211-217 | `2×10^3 * 3×10^-3 == 6×10^0`. |
| Scenarios.DivExample | src/lib.rs:219-225 | `6×10^3 / 2×10^3 == 3×10^0`. |
| Scenarios.RemExample | src/lib.rs:227-233 | `6×10^3 % 5×10^-3 == 1×10^3`. |
| Scenarios.TruncationExample | src/lib.rs:223-231 | `-7 / 2 == -3`, `-7 % 2 == -1`, `7 / -2 == -3`, `7 % -2 == 1`. |

## Left out

- Overflow of `+`, `-`, `*` and `pow` (wrap in release builds, panic in debug builds) is not modelled. Every result is required to fit its primitive: an overflowing operation is outside every contract.
- Division by zero is not modelled as a panic. Rust panics on it in every build. Divisors are required to be non-zero.
- Signed `MIN / -1` and `MIN % -1` are not modelled as panics. Rust panics on both in every build. `Div`, `DivBits`, `FixCell.DivAssign`, `Rem`, `RemBits`, `FixCell.RemAssign` and `FixCell.RemAssignBits` require the quotient to fit (`InRange(p, TDiv(..))`), and that excludes both.
- `Convert`: the exponent difference is taken as an integer. The `to_i32` and `as u32` casts the source applies to it are not modelled; they matter only for differences beyond `i32`.
- The per-width `FromUnsigned` and `Pow` impls (src/lib.rs:89-127) are one function each. `FromUnsigned` requires the radix to fit the primitive; typenum's casting of an out-of-range radix is not modelled. `Pow` is defined by repeated multiplication. Rust's square-and-multiply gives the same value whenever the result fits.
- `usize` and `isize` are taken to be 64 bits wide. The width of the target platform is not modelled.
- The scale is not erased at run time as it is in Rust. It is part of each model value.
- Mismatched scales are rejected by preconditions, which Dafny checks statically, where Rust uses type-level arithmetic (`Sum`, `Diff`, `AbsVal`, `IsLess`, `PhantomData`).
- `Clone` and `Copy` (src/lib.rs:132-138) are not modelled separately. Model values are immutable, so a copy is the value itself.
- `Hash` (src/lib.rs:147-152) is left out. It feeds the bits to an opaque `Hasher`.
- `Debug` (src/lib.rs:154-159) is left out. It only formats `<bits>x<base>^<exp>` for display.
- The `i128` feature gate (src/lib.rs:3, 121-128) is left out. `U128` and `I128` are simply primitives of the model.
- `src/aliases.rs` is not part of this model. Every item in it is a type alias instantiating `Fix`.
- `examples/asdf.rs` is not part of this model. It is a printing demo, and its `Centi::from` has no counterpart in src/lib.rs.
- Aliasing is not modelled. The compound assignments are single-owner mutations, and the exclusive `&mut` borrow is represented only by the `modifies` clause.
