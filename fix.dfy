/**
 * The fixed-point number `Fix<Bits, Base, Exp>`: a value of the integer
 * primitive `Bits` standing for `bits × Base^Exp`. In the Rust crate only
 * `bits` exists at run time and `Base`/`Exp` are type parameters; here the
 * scale is carried beside the bits, and what the type checker enforces
 * there (same Bits, Base and Exp; same Bits and Base) is a precondition.
 */
module FixedPoint {
  import opened Primitives

  datatype Fix = Fix(prim: Prim, bits: int, base: nat, exp: int)

  datatype Ordering = Less | Equal | Greater

  datatype Option<T> = None | Some(value: T)

  /** The bits are a value of the storage primitive. */
  predicate Valid(x: Fix) {
    InRange(x.prim, x.bits)
  }

  /** Same Bits, Base and Exp: what Eq, Ord, Add and Sub demand of their operands. */
  predicate Commensurate(a: Fix, b: Fix) {
    a.prim == b.prim && a.base == b.base && a.exp == b.exp
  }

  /** Same Bits and Base, exponents free: what Mul, Div and Rem demand. */
  predicate SameBase(a: Fix, b: Fix) {
    a.prim == b.prim && a.base == b.base
  }

  // ---------------------------------------------------------------------
  // The represented value.

  /**
   * The value `bits × base^exp` counted in units of `base^e`, for a unit no
   * larger than the value's own (`e <= exp`); that keeps it an integer.
   */
  function ValueIn(x: Fix, e: int): int
    requires e <= x.exp
  {
    x.bits * Pow(x.base, x.exp - e)
  }

  /** `x` and `y` stand for the same number: equal counts of the finer of their two units. */
  predicate SameValue(x: Fix, y: Fix) {
    var e := if x.exp <= y.exp then x.exp else y.exp;
    x.base == y.base && ValueIn(x, e) == ValueIn(y, e)
  }

  /** Counting in a `k` times finer unit multiplies the count by `base^k`. */
  lemma ValueInFiner(x: Fix, e: int, k: nat)
    requires e <= x.exp
    ensures ValueIn(x, e - k) == ValueIn(x, e) * Pow(x.base, k)
  {
    PowAdd(x.base, x.exp - e, k);
    MulAssociative(x.bits, Pow(x.base, x.exp - e), Pow(x.base, k));
  }

  /** Any common unit decides whether two values are the same, not only the finer one. */
  lemma SameValueInAnyUnit(x: Fix, y: Fix, e: int)
    requires x.base == y.base && x.base > 0
    requires e <= x.exp && e <= y.exp
    ensures SameValue(x, y) <==> ValueIn(x, e) == ValueIn(y, e)
  {
    var m := if x.exp <= y.exp then x.exp else y.exp;
    ValueInFiner(x, m, m - e);
    ValueInFiner(y, m, m - e);
    MulMonotone(ValueIn(x, m), ValueIn(y, m), Pow(x.base, m - e));
  }

  // ---------------------------------------------------------------------
  // Construction and extraction.

  /** `Fix::new`: wraps the bits at the given scale; no validation, always succeeds. */
  function New(prim: Prim, base: nat, exp: int, bits: int): (r: Fix)
    requires InRange(prim, bits)
    ensures Valid(r)
  {
    Fix(prim, bits, base, exp)
  }

  /** `Fix::into_bits`: the underlying bits. */
  function IntoBits(x: Fix): (b: int)
    requires Valid(x)
    ensures InRange(x.prim, b)
  {
    x.bits
  }

  /** `into_bits` undoes `new`, and `new` at a value's own scale rebuilds it. */
  lemma IntoBitsNew(prim: Prim, base: nat, exp: int, bits: int, x: Fix)
    requires InRange(prim, bits) && Valid(x)
    ensures IntoBits(New(prim, base, exp, bits)) == bits
    ensures New(x.prim, x.base, x.exp, IntoBits(x)) == x
  {
  }

  /** `Default`: the storage primitive's default, zero. */
  function Default(prim: Prim, base: nat, exp: int): (r: Fix)
    ensures Valid(r) && r.prim == prim && r.base == base && r.exp == exp
    ensures forall e :: e <= exp ==> ValueIn(r, e) == 0
  {
    SmallConstantsInRange(prim);
    Fix(prim, 0, base, exp)
  }

  // ---------------------------------------------------------------------
  // Scale conversion.

  /** The conversion ratio `base^|exp − toExp|`. */
  function Ratio(x: Fix, toExp: int): int {
    Pow(x.base, Abs(x.exp - toExp))
  }

  /**
   * What `convert` needs to run without a panic: the radix fits `Bits`
   * (`from_unsigned`), so does the ratio (`base.pow`, computed on either
   * branch), the divisor is not zero, and the product does not overflow.
   */
  predicate ConvertDefined(x: Fix, toExp: int) {
    && InRange(x.prim, x.base)
    && InRange(x.prim, Ratio(x, toExp))
    && (x.exp - toExp < 0 ==> Ratio(x, toExp) != 0)
    && (x.exp - toExp >= 0 ==> InRange(x.prim, x.bits * Ratio(x, toExp)))
  }

  /** `Fix::convert::<ToExp>`: the same number re-expressed at exponent `toExp`. */
  function Convert(x: Fix, toExp: int): (r: Fix)
    requires Valid(x) && ConvertDefined(x, toExp)
    ensures Valid(r) && r.prim == x.prim && r.base == x.base && r.exp == toExp
  {
    var base := FromUnsigned(x.prim, x.base);
    var diff := Abs(x.exp - toExp);
    var inverse := x.exp - toExp < 0;
    var ratio := Pow(base, diff);
    if inverse then
      TDivShrinks(x.prim, x.bits, ratio);
      Fix(x.prim, TDiv(x.bits, ratio), x.base, toExp)
    else
      Fix(x.prim, x.bits * ratio, x.base, toExp)
  }

  /** Converting to the value's own exponent is the identity. */
  lemma ConvertSameExp(x: Fix)
    requires Valid(x) && InRange(x.prim, x.base)
    ensures ConvertDefined(x, x.exp) && Convert(x, x.exp) == x
  {
    SmallConstantsInRange(x.prim);
  }

  /** Converting to a smaller exponent multiplies by the ratio and keeps the number exactly. */
  lemma ConvertDownExact(x: Fix, toExp: int)
    requires Valid(x) && ConvertDefined(x, toExp) && toExp <= x.exp
    ensures Convert(x, toExp).bits == ValueIn(x, toExp)
    ensures SameValue(Convert(x, toExp), x)
  {
  }

  /**
   * Converting to a larger exponent truncates: counted in the old unit the
   * result falls short of the original by Rust's `bits % ratio`, which is
   * smaller than the ratio and has the sign of `bits`.
   */
  lemma ConvertUpTruncates(x: Fix, toExp: int)
    requires Valid(x) && ConvertDefined(x, toExp) && x.exp < toExp
    ensures Ratio(x, toExp) > 0
    ensures x.bits == ValueIn(Convert(x, toExp), x.exp) + TRem(x.bits, Ratio(x, toExp))
    ensures Abs(TRem(x.bits, Ratio(x, toExp))) < Ratio(x, toExp)
    ensures x.bits >= 0 ==> TRem(x.bits, Ratio(x, toExp)) >= 0
    ensures x.bits < 0 ==> TRem(x.bits, Ratio(x, toExp)) <= 0
  {
    assert toExp - x.exp == Abs(x.exp - toExp);
  }

  /** A conversion to a larger exponent is exact exactly when the ratio divides the bits. */
  lemma ConvertUpExactIff(x: Fix, toExp: int)
    requires Valid(x) && ConvertDefined(x, toExp) && x.exp < toExp
    ensures SameValue(Convert(x, toExp), x) <==> TRem(x.bits, Ratio(x, toExp)) == 0
  {
    ConvertUpTruncates(x, toExp);
  }

  /** Down and back up: converting to a smaller exponent and back recovers the original. */
  lemma ConvertRoundTripDown(x: Fix, toExp: int)
    requires Valid(x) && ConvertDefined(x, toExp) && toExp < x.exp && x.base > 0
    ensures ConvertDefined(Convert(x, toExp), x.exp)
    ensures Convert(Convert(x, toExp), x.exp) == x
  {
    var y := Convert(x, toExp);
    assert Ratio(y, x.exp) == Ratio(x, toExp);
    TDivExact(x.bits, Ratio(x, toExp));
  }

  /** Up and back down: when the ratio divides the bits, converting there and back recovers the original. */
  lemma ConvertRoundTripUp(x: Fix, toExp: int)
    requires Valid(x) && ConvertDefined(x, toExp) && x.exp < toExp
    requires TRem(x.bits, Ratio(x, toExp)) == 0
    ensures ConvertDefined(Convert(x, toExp), x.exp)
    ensures Convert(Convert(x, toExp), x.exp) == x
  {
    var y := Convert(x, toExp);
    assert Ratio(y, x.exp) == Ratio(x, toExp);
    assert y.bits * Ratio(y, x.exp) == x.bits;
  }

  /** Two conversions toward smaller exponents compose into one. */
  lemma ConvertComposeDown(x: Fix, e1: int, e2: int)
    requires Valid(x) && e2 <= e1 <= x.exp
    requires ConvertDefined(x, e1) && ConvertDefined(Convert(x, e1), e2) && ConvertDefined(x, e2)
    ensures Convert(Convert(x, e1), e2) == Convert(x, e2)
  {
    var p, q := Pow(x.base, x.exp - e1), Pow(x.base, e1 - e2);
    assert Convert(x, e1).bits == x.bits * p;
    assert Convert(Convert(x, e1), e2).bits == (x.bits * p) * q;
    PowAdd(x.base, x.exp - e1, e1 - e2);
    assert x.exp - e2 == (x.exp - e1) + (e1 - e2);
    assert Convert(x, e2).bits == x.bits * (p * q);
    MulAssociative(x.bits, p, q);
  }

  /** Two conversions toward larger exponents compose into one, truncating only once. */
  lemma ConvertComposeUp(x: Fix, e1: int, e2: int)
    requires Valid(x) && x.exp <= e1 <= e2
    requires ConvertDefined(x, e1) && ConvertDefined(Convert(x, e1), e2) && ConvertDefined(x, e2)
    ensures Convert(Convert(x, e1), e2) == Convert(x, e2)
  {
    var p, q := Pow(x.base, e1 - x.exp), Pow(x.base, e2 - e1);
    PowAdd(x.base, e1 - x.exp, e2 - e1);
    assert e2 - x.exp == (e1 - x.exp) + (e2 - e1);
    if x.exp == e1 {
      ConvertSameExp(x);
    } else if e1 == e2 {
      ConvertSameExp(Convert(x, e1));
    } else {
      // A zero base would make the first ratio zero, which `ConvertDefined` rules out.
      assert x.base > 0;
      TDivTwice(x.bits, p, q);
    }
  }

  // ---------------------------------------------------------------------
  // Comparison between commensurate values.

  /** `PartialEq::eq`: compares the bits. */
  function Eq(a: Fix, b: Fix): (r: bool)
    requires Commensurate(a, b)
    ensures r <==> a == b
  {
    a.bits == b.bits
  }

  /** `Ord::cmp`: orders by the bits. */
  function Cmp(a: Fix, b: Fix): (r: Ordering)
    requires Commensurate(a, b)
    ensures r == Equal <==> Eq(a, b)
  {
    if a.bits < b.bits then Less else if a.bits == b.bits then Equal else Greater
  }

  /** `PartialOrd::partial_cmp`: always defined, and agrees with `cmp`. */
  function PartialCmp(a: Fix, b: Fix): (r: Option<Ordering>)
    requires Commensurate(a, b)
    ensures r == Some(Cmp(a, b))
  {
    if a.bits < b.bits then Some(Less) else if a.bits > b.bits then Some(Greater) else Some(Equal)
  }

  /** Equality of commensurate values is equality of the numbers they stand for. */
  lemma EqIsSameValue(a: Fix, b: Fix)
    requires Commensurate(a, b) && a.base > 0
    ensures Eq(a, b) <==> SameValue(a, b)
  {
  }

  /** The order of commensurate values is the order of the numbers, counted in any common unit. */
  lemma CmpIsValueOrder(a: Fix, b: Fix, e: int)
    requires Commensurate(a, b) && e <= a.exp && (e < a.exp ==> a.base > 0)
    ensures Cmp(a, b) == Less <==> ValueIn(a, e) < ValueIn(b, e)
    ensures Cmp(a, b) == Equal <==> ValueIn(a, e) == ValueIn(b, e)
    ensures Cmp(a, b) == Greater <==> ValueIn(a, e) > ValueIn(b, e)
  {
    MulMonotone(a.bits, b.bits, Pow(a.base, a.exp - e));
    MulMonotone(b.bits, a.bits, Pow(a.base, a.exp - e));
  }

  /** `cmp` is antisymmetric and transitive: a total order on commensurate values. */
  lemma CmpTotalOrder(a: Fix, b: Fix, c: Fix)
    requires Commensurate(a, b) && Commensurate(b, c)
    ensures Cmp(a, b) == Less <==> Cmp(b, a) == Greater
    ensures Cmp(a, b) != Greater && Cmp(b, c) != Greater ==> Cmp(a, c) != Greater
    ensures Cmp(a, b) == Less && Cmp(b, c) == Less ==> Cmp(a, c) == Less
  {
  }

  // ---------------------------------------------------------------------
  // Arithmetic between values.

  /** `Neg`: negates the bits, keeps the scale (signed primitives only). */
  function Neg(x: Fix): (r: Fix)
    requires Valid(x) && IsSigned(x.prim) && InRange(x.prim, -x.bits)
    ensures Valid(r) && Commensurate(r, x)
    ensures forall e :: e <= x.exp ==> ValueIn(r, e) == -ValueIn(x, e)
  {
    Fix(x.prim, -x.bits, x.base, x.exp)
  }

  /** `Add` between commensurate values: adds the bits, keeps the scale. */
  function Add(a: Fix, b: Fix): (r: Fix)
    requires Valid(a) && Valid(b) && Commensurate(a, b)
    requires InRange(a.prim, a.bits + b.bits)
    ensures Valid(r) && Commensurate(r, a)
  {
    Fix(a.prim, a.bits + b.bits, a.base, a.exp)
  }

  /** `Sub` between commensurate values: subtracts the bits, keeps the scale. */
  function Sub(a: Fix, b: Fix): (r: Fix)
    requires Valid(a) && Valid(b) && Commensurate(a, b)
    requires InRange(a.prim, a.bits - b.bits)
    ensures Valid(r) && Commensurate(r, a)
  {
    Fix(a.prim, a.bits - b.bits, a.base, a.exp)
  }

  /** `Mul` between values of the same base: multiplies the bits, exponents add. */
  function Mul(a: Fix, b: Fix): (r: Fix)
    requires Valid(a) && Valid(b) && SameBase(a, b)
    requires InRange(a.prim, a.bits * b.bits)
    ensures Valid(r) && SameBase(r, a) && r.exp == a.exp + b.exp
  {
    Fix(a.prim, a.bits * b.bits, a.base, a.exp + b.exp)
  }

  /** `Div` between values of the same base: truncating quotient of the bits, exponents subtract. */
  function Div(a: Fix, b: Fix): (r: Fix)
    requires Valid(a) && Valid(b) && SameBase(a, b) && b.bits != 0
    requires InRange(a.prim, TDiv(a.bits, b.bits))
    ensures Valid(r) && SameBase(r, a) && r.exp == a.exp - b.exp
  {
    Fix(a.prim, TDiv(a.bits, b.bits), a.base, a.exp - b.exp)
  }

  /**
   * `Rem` between values of the same base: Rust's `%` of the bits at the
   * left operand's scale, whatever the right operand's exponent. Rust's `%`
   * panics exactly where the matching `/` overflows (`MIN % -1`).
   */
  function Rem(a: Fix, b: Fix): (r: Fix)
    requires Valid(a) && Valid(b) && SameBase(a, b) && b.bits != 0
    requires InRange(a.prim, TDiv(a.bits, b.bits))
    ensures Valid(r) && Commensurate(r, a)
    ensures Abs(r.bits) < Abs(b.bits)
    ensures a.bits >= 0 ==> 0 <= r.bits <= a.bits
    ensures a.bits < 0 ==> a.bits <= r.bits <= 0
  {
    Fix(a.prim, TRem(a.bits, b.bits), a.base, a.exp)
  }

  /** Negation is its own inverse, and a value plus its negation is zero. */
  lemma NegInvolutive(x: Fix)
    requires Valid(x) && IsSigned(x.prim) && InRange(x.prim, -x.bits)
    ensures Neg(Neg(x)) == x
    ensures Add(x, Neg(x)) == Default(x.prim, x.base, x.exp)
  {
  }

  /** The sum stands for the sum of the numbers, counted in any unit they share. */
  lemma AddValue(a: Fix, b: Fix, e: int)
    requires Valid(a) && Valid(b) && Commensurate(a, b)
    requires InRange(a.prim, a.bits + b.bits) && e <= a.exp
    ensures ValueIn(Add(a, b), e) == ValueIn(a, e) + ValueIn(b, e)
  {
    var p := Pow(a.base, a.exp - e);
    assert (a.bits + b.bits) * p == a.bits * p + b.bits * p;
  }

  /** The difference stands for the difference of the numbers. */
  lemma SubValue(a: Fix, b: Fix, e: int)
    requires Valid(a) && Valid(b) && Commensurate(a, b)
    requires InRange(a.prim, a.bits - b.bits) && e <= a.exp
    ensures ValueIn(Sub(a, b), e) == ValueIn(a, e) - ValueIn(b, e)
  {
    var p := Pow(a.base, a.exp - e);
    assert (a.bits - b.bits) * p == a.bits * p - b.bits * p;
  }

  lemma AddCommutative(a: Fix, b: Fix)
    requires Valid(a) && Valid(b) && Commensurate(a, b)
    requires InRange(a.prim, a.bits + b.bits)
    ensures Add(a, b) == Add(b, a)
  {
  }

  lemma AddAssociative(a: Fix, b: Fix, c: Fix)
    requires Valid(a) && Valid(b) && Valid(c) && Commensurate(a, b) && Commensurate(b, c)
    requires InRange(a.prim, a.bits + b.bits) && InRange(a.prim, b.bits + c.bits)
    requires InRange(a.prim, a.bits + b.bits + c.bits)
    ensures Add(Add(a, b), c) == Add(a, Add(b, c))
  {
  }

  /** Subtraction undoes addition. */
  lemma SubUndoesAdd(a: Fix, b: Fix)
    requires Valid(a) && Valid(b) && Commensurate(a, b)
    requires InRange(a.prim, a.bits + b.bits)
    ensures Sub(Add(a, b), b) == a
  {
  }

  /**
   * The product stands for the product of the numbers: with `a` counted in
   * units of `base^ea` and `b` in units of `base^eb`, the product is counted
   * in units of `base^(ea + eb)`.
   */
  lemma MulValue(a: Fix, b: Fix, ea: int, eb: int)
    requires Valid(a) && Valid(b) && SameBase(a, b)
    requires InRange(a.prim, a.bits * b.bits) && ea <= a.exp && eb <= b.exp
    ensures ValueIn(Mul(a, b), ea + eb) == ValueIn(a, ea) * ValueIn(b, eb)
  {
    var pa, pb := Pow(a.base, a.exp - ea), Pow(a.base, b.exp - eb);
    PowAdd(a.base, a.exp - ea, b.exp - eb);
    assert (a.exp + b.exp) - (ea + eb) == (a.exp - ea) + (b.exp - eb);
    calc {
      ValueIn(Mul(a, b), ea + eb);
      (a.bits * b.bits) * (pa * pb);
      { MulRearrange(a.bits, b.bits, pa, pb); }
      (a.bits * pa) * (b.bits * pb);
      ValueIn(a, ea) * ValueIn(b, eb);
    }
  }

  lemma MulRearrange(x: int, y: int, p: int, q: int)
    ensures (x * y) * (p * q) == (x * p) * (y * q)
  {
    MulAssociative(x * y, p, q);
    MulAssociative(x, y, p);
    MulAssociative(x * p, y, q);
    assert y * p == p * y;
    MulAssociative(x, p, y);
  }

  lemma MulCommutative(a: Fix, b: Fix)
    requires Valid(a) && Valid(b) && SameBase(a, b)
    requires InRange(a.prim, a.bits * b.bits)
    ensures Mul(a, b) == Mul(b, a)
  {
  }

  /**
   * The division identity at the level of fixed-point numbers: quotient
   * times divisor plus remainder gives back the dividend, at the dividend's
   * own scale, and neither intermediate overflows.
   */
  lemma DivRemIdentity(a: Fix, b: Fix)
    requires Valid(a) && Valid(b) && SameBase(a, b) && b.bits != 0
    requires InRange(a.prim, TDiv(a.bits, b.bits))
    ensures InRange(a.prim, Div(a, b).bits * b.bits)
    ensures Commensurate(Mul(Div(a, b), b), Rem(a, b))
    ensures InRange(a.prim, Mul(Div(a, b), b).bits + Rem(a, b).bits)
    ensures Add(Mul(Div(a, b), b), Rem(a, b)) == a
  {
  }

  /** The remainder uses only the right operand's bits; its exponent plays no part. */
  lemma RemIgnoresRightExp(a: Fix, b: Fix, e: int)
    requires Valid(a) && Valid(b) && SameBase(a, b) && b.bits != 0
    requires InRange(a.prim, TDiv(a.bits, b.bits))
    ensures Rem(a, b) == Rem(a, b.(exp := e))
    ensures Rem(a, b).exp == a.exp
  {
  }

  // ---------------------------------------------------------------------
  // Arithmetic with a raw `Bits` operand: the scale is unchanged.

  /** `Mul<Bits>`. */
  function MulBits(x: Fix, k: int): (r: Fix)
    requires Valid(x) && InRange(x.prim, k) && InRange(x.prim, x.bits * k)
    ensures Valid(r) && Commensurate(r, x)
  {
    Fix(x.prim, x.bits * k, x.base, x.exp)
  }

  /** `Div<Bits>`. */
  function DivBits(x: Fix, k: int): (r: Fix)
    requires Valid(x) && InRange(x.prim, k) && k != 0 && InRange(x.prim, TDiv(x.bits, k))
    ensures Valid(r) && Commensurate(r, x)
  {
    Fix(x.prim, TDiv(x.bits, k), x.base, x.exp)
  }

  /** `Rem<Bits>`. */
  function RemBits(x: Fix, k: int): (r: Fix)
    requires Valid(x) && InRange(x.prim, k) && k != 0 && InRange(x.prim, TDiv(x.bits, k))
    ensures Valid(r) && Commensurate(r, x)
    ensures Abs(r.bits) < Abs(k)
  {
    Fix(x.prim, TRem(x.bits, k), x.base, x.exp)
  }

  /**
   * A raw `Bits` operand acts as a dimensionless value (exponent 0) of the
   * same base: the operators with `Bits` agree with the operators between values.
   */
  lemma BitsOperandIsUnitless(x: Fix, k: int)
    requires Valid(x) && InRange(x.prim, k)
    ensures InRange(x.prim, x.bits * k) ==>
      MulBits(x, k) == Mul(x, New(x.prim, x.base, 0, k))
    ensures k != 0 && InRange(x.prim, TDiv(x.bits, k)) ==>
      DivBits(x, k) == Div(x, New(x.prim, x.base, 0, k)) &&
      RemBits(x, k) == Rem(x, New(x.prim, x.base, 0, k))
  {
  }

  /**
   * Multiplying by a raw `Bits` scales the number: counted in any unit, the
   * count is multiplied by `k`.
   */
  lemma MulBitsValue(x: Fix, k: int, e: int)
    requires Valid(x) && InRange(x.prim, k) && InRange(x.prim, x.bits * k) && e <= x.exp
    ensures ValueIn(MulBits(x, k), e) == ValueIn(x, e) * k
  {
    var p := Pow(x.base, x.exp - e);
    calc {
      (x.bits * k) * p;
      { MulAssociative(x.bits, k, p); }
      x.bits * (k * p);
      { assert k * p == p * k; }
      x.bits * (p * k);
      { MulAssociative(x.bits, p, k); }
      (x.bits * p) * k;
    }
  }
}
