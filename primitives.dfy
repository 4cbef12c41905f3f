/**
 * The storage primitives a fixed-point number keeps its bits in, and the
 * integer arithmetic of those primitives: their value ranges, Rust's
 * truncating `/` and `%`, and the `Pow` / `FromUnsigned` capability that the
 * scale conversion is written against.
 */
module Primitives {

  /** The integer primitive types `Bits` may be (`usize`/`isize` taken as 64 bits wide). */
  datatype Prim = U8 | U16 | U32 | U64 | U128 | Usize | I8 | I16 | I32 | I64 | I128 | Isize

  predicate IsSigned(p: Prim) {
    p.I8? || p.I16? || p.I32? || p.I64? || p.I128? || p.Isize?
  }

  /** Smallest value of the primitive. */
  function Min(p: Prim): int {
    match p
    case I8 => -0x80
    case I16 => -0x8000
    case I32 => -0x8000_0000
    case I64 | Isize => -0x8000_0000_0000_0000
    case I128 => -0x8000_0000_0000_0000_0000_0000_0000_0000
    case _ => 0
  }

  /** Largest value of the primitive. */
  function Max(p: Prim): int {
    match p
    case U8 => 0xFF
    case U16 => 0xFFFF
    case U32 => 0xFFFF_FFFF
    case U64 | Usize => 0xFFFF_FFFF_FFFF_FFFF
    case U128 => 0xFFFF_FFFF_FFFF_FFFF_FFFF_FFFF_FFFF_FFFF
    case I8 => 0x7F
    case I16 => 0x7FFF
    case I32 => 0x7FFF_FFFF
    case I64 | Isize => 0x7FFF_FFFF_FFFF_FFFF
    case I128 => 0x7FFF_FFFF_FFFF_FFFF_FFFF_FFFF_FFFF_FFFF
  }

  /** `x` is a value of the primitive `p`; an operation whose result is not overflows. */
  predicate InRange(p: Prim, x: int) {
    Min(p) <= x <= Max(p)
  }

  /** Every primitive holds 0 and 1, and the signed ones hold -1. */
  lemma SmallConstantsInRange(p: Prim)
    ensures InRange(p, 0) && InRange(p, 1)
    ensures Min(p) < 0 <==> IsSigned(p)
    ensures IsSigned(p) ==> InRange(p, -1)
  {
  }

  /** Width in bits of the primitive. */
  function Width(p: Prim): nat {
    match p
    case U8 | I8 => 8
    case U16 | I16 => 16
    case U32 | I32 => 32
    case U64 | Usize | I64 | Isize => 64
    case U128 | I128 => 128
  }

  /** The powers of two the primitive widths call for, built up by adding exponents. */
  lemma PowersOfTwo()
    ensures Pow(2, 7) == 0x80 && Pow(2, 8) == 0x100
    ensures Pow(2, 15) == 0x8000 && Pow(2, 16) == 0x1_0000
    ensures Pow(2, 31) == 0x8000_0000 && Pow(2, 32) == 0x1_0000_0000
    ensures Pow(2, 63) == 0x8000_0000_0000_0000 && Pow(2, 64) == 0x1_0000_0000_0000_0000
    ensures Pow(2, 127) == 0x8000_0000_0000_0000_0000_0000_0000_0000
    ensures Pow(2, 128) == 0x1_0000_0000_0000_0000_0000_0000_0000_0000
  {
    assert Pow(2, 7) == 0x80 && Pow(2, 8) == 0x100;
    PowAdd(2, 8, 7);
    PowAdd(2, 8, 8);
    PowAdd(2, 16, 15);
    PowAdd(2, 16, 16);
    PowAdd(2, 32, 31);
    PowAdd(2, 32, 32);
    PowAdd(2, 64, 63);
    PowAdd(2, 64, 64);
  }

  /** An unsigned primitive of width `w` holds exactly `0 .. 2^w - 1`, plain binary. */
  lemma UnsignedRange(p: Prim)
    requires !IsSigned(p)
    ensures Min(p) == 0 && Max(p) == Pow(2, Width(p)) - 1
  {
    PowersOfTwo();
  }

  /** A signed primitive of width `w` holds exactly `-2^(w-1) .. 2^(w-1) - 1`, two's complement. */
  lemma SignedRange(p: Prim)
    requires IsSigned(p)
    ensures Min(p) == -Pow(2, Width(p) - 1) && Max(p) == Pow(2, Width(p) - 1) - 1
  {
    PowersOfTwo();
  }

  function Abs(x: int): nat {
    if x < 0 then -x else x
  }

  // ---------------------------------------------------------------------
  // The storage-primitive capability used by the scale conversion.

  /** `FromUnsigned::from_unsigned::<Base>()`: the type-level radix as a value of `p`. */
  function FromUnsigned(p: Prim, base: nat): (r: int)
    requires InRange(p, base)
    ensures InRange(p, r)
  {
    base
  }

  /**
   * `Pow::pow(b, n)`: `b` multiplied by itself `n` times (`Pow(b, 0) == 1`).
   * A non-negative radix gives a non-negative power, a positive one a positive power.
   */
  function Pow(b: int, n: nat): (r: int)
    ensures b >= 0 ==> r >= 0
    ensures b > 0 ==> r > 0
    decreases n
  {
    if n == 0 then 1 else b * Pow(b, n - 1)
  }

  /** Exponents add: `b^(m+n) == b^m * b^n`. */
  lemma {:induction false} PowAdd(b: int, m: nat, n: nat)
    ensures Pow(b, m + n) == Pow(b, m) * Pow(b, n)
    decreases m
  {
    if m > 0 {
      PowAdd(b, m - 1, n);
      calc {
        Pow(b, m + n);
        b * Pow(b, (m - 1) + n);
        b * (Pow(b, m - 1) * Pow(b, n));
        { MulAssociative(b, Pow(b, m - 1), Pow(b, n)); }
        (b * Pow(b, m - 1)) * Pow(b, n);
        Pow(b, m) * Pow(b, n);
      }
    }
  }

  // ---------------------------------------------------------------------
  // Small facts of multiplication the solver does not find on its own.

  lemma MulPositive(a: int, b: int)
    requires a > 0 && b > 0
    ensures a * b > 0
  {
  }

  lemma MulAssociative(a: int, b: int, c: int)
    ensures a * (b * c) == (a * b) * c
  {
  }

  /** Multiplying by a positive factor preserves and reflects order and equality. */
  lemma MulMonotone(x: int, y: int, p: int)
    requires p > 0
    ensures x < y <==> x * p < y * p
    ensures x == y <==> x * p == y * p
  {
    if x < y {
      assert y * p - x * p == (y - x) * p;
      MulPositive(y - x, p);
    }
    if y < x {
      assert x * p - y * p == (x - y) * p;
      MulPositive(x - y, p);
    }
  }

  lemma MulNonNegative(a: int, b: int)
    requires a >= 0 && b >= 0
    ensures a * b >= 0
  {
  }

  lemma AbsMul(a: int, b: int)
    ensures Abs(a * b) == Abs(a) * Abs(b)
  {
    if a < 0 && b < 0 {
      assert a * b == (-a) * (-b);
    } else if a < 0 {
      assert a * b == -((-a) * b);
    } else if b < 0 {
      assert a * b == -(a * (-b));
    }
  }

  /** A non-zero multiple of `b` is at least as large as `b` in magnitude. */
  lemma MulAtLeast(d: int, b: int)
    requires d != 0
    ensures Abs(d * b) >= Abs(b)
  {
    AbsMul(d, b);
    MulGrows(Abs(d), Abs(b));
  }

  lemma MulGrows(m: int, n: int)
    requires m >= 1 && n >= 0
    ensures m * n >= n
  {
    MulNonNegative(m - 1, n);
  }

  // ---------------------------------------------------------------------
  // Rust's integer `/` and `%`: the quotient truncates toward zero and the
  // remainder takes the sign of the dividend (Dafny's own are Euclidean).

  /**
   * `q` is the quotient of `a` by `b` truncated toward zero: `q * b` lies
   * between 0 and `a` and falls short of `a` by less than `|b|`.
   */
  ghost predicate IsTruncatedQuotient(a: int, b: int, q: int) {
    IsTruncatedMultiple(a, b, q * b)
  }

  /** The multiple `m` of `b` lies between 0 and `a` and falls short of `a` by less than `|b|`. */
  ghost predicate IsTruncatedMultiple(a: int, b: int, m: int) {
    if a >= 0 then 0 <= m <= a && a - m < Abs(b)
    else a <= m <= 0 && m - a < Abs(b)
  }

  function TDiv(a: int, b: int): (q: int)
    requires b != 0
    ensures IsTruncatedQuotient(a, b, q)
  {
    var m := Abs(a) / Abs(b);
    SignedQuotient(a, b, m);
    if (a < 0) == (b < 0) then m else -m
  }

  /** The quotient of the magnitudes, given the sign of the true quotient, truncates toward zero. */
  lemma SignedQuotient(a: int, b: int, m: int)
    requires b != 0 && m == Abs(a) / Abs(b)
    ensures IsTruncatedQuotient(a, b, if (a < 0) == (b < 0) then m else -m)
  {
    EuclideanQuotient(Abs(a), Abs(b));
    var n := m * Abs(b);
    if b > 0 {
      assert Abs(b) == b;
      if a < 0 {
        MulNegateLeft(m, b);
      }
    } else {
      var magnitude: int := Abs(b);
      assert b == -magnitude;
      MulNegateRight(m, magnitude);
      if a >= 0 {
        MulNegateLeft(m, b);
        assert (-m) * b == n;
      }
    }
  }

  /** Dafny's `/` on non-negative operands: the quotient times the divisor lies within one divisor of the dividend. */
  lemma EuclideanQuotient(x: int, y: int)
    requires x >= 0 && y > 0
    ensures 0 <= (x / y) * y <= x && x - (x / y) * y < y
  {
    assert x == (x / y) * y + x % y;
    MulNonNegative(x / y, y);
  }

  lemma MulNegateLeft(x: int, y: int)
    ensures (-x) * y == -(x * y)
  {
  }

  lemma MulNegateRight(x: int, y: int)
    ensures x * (-y) == -(x * y)
  {
  }

  /** Truncated division has exactly one quotient. */
  lemma TDivUnique(a: int, b: int, q: int)
    requires b != 0 && IsTruncatedQuotient(a, b, q)
    ensures q == TDiv(a, b)
  {
    var q' := TDiv(a, b);
    var m, m' := q * b, q' * b;
    assert IsTruncatedMultiple(a, b, m) && IsTruncatedMultiple(a, b, m');
    assert Abs(m - m') < Abs(b);
    MulSubDistributes(q, q', b);
    if q != q' {
      MulAtLeast(q - q', b);
    }
  }

  lemma MulSubDistributes(x: int, y: int, p: int)
    ensures (x - y) * p == x * p - y * p
  {
  }

  /** Rust's `%`: what truncated division leaves over. */
  function TRem(a: int, b: int): (r: int)
    requires b != 0
    ensures a == TDiv(a, b) * b + r
    ensures Abs(r) < Abs(b)
    ensures a >= 0 ==> 0 <= r <= a
    ensures a < 0 ==> a <= r <= 0
  {
    a - TDiv(a, b) * b
  }

  /** A multiple of `b` divides exactly: `(q * b) / b == q`, `(q * b) % b == 0`. */
  lemma TDivExact(q: int, b: int)
    requires b != 0
    ensures TDiv(q * b, b) == q && TRem(q * b, b) == 0
  {
    TDivUnique(q * b, b, q);
  }

  /** Dividing by a positive divisor moves toward zero and never overflows. */
  lemma TDivShrinks(p: Prim, a: int, b: int)
    requires b > 0 && InRange(p, a)
    ensures a >= 0 ==> 0 <= TDiv(a, b) <= a
    ensures a < 0 ==> a <= TDiv(a, b) <= 0
    ensures InRange(p, TDiv(a, b))
  {
    var q := TDiv(a, b);
    if q < 0 && a >= 0 {
      MulMonotone(q, 0, b);
    } else if q > 0 && a < 0 {
      MulMonotone(0, q, b);
    }
    if q != 0 {
      MulAtLeast(b, q);
      assert Abs(q) <= Abs(q * b);
    }
  }

  /** Negating the dividend negates the quotient. */
  lemma TDivNegate(a: int, b: int)
    requires b != 0
    ensures TDiv(-a, b) == -TDiv(a, b)
  {
    var q := TDiv(a, b);
    var m := q * b;
    assert IsTruncatedMultiple(a, b, m);
    MulNegateLeft(q, b);
    assert (-q) * b == -m;
    assert IsTruncatedMultiple(-a, b, -m);
    TDivUnique(-a, b, -q);
  }

  lemma MulLeq(x: int, y: int, p: int)
    requires p > 0 && x <= y
    ensures x * p <= y * p
  {
    MulMonotone(x, y, p);
  }

  /** The arithmetic core of dividing twice, for a non-negative dividend. */
  lemma NestedQuotient(a: int, p: int, q: int, s: int, t: int)
    requires p > 0 && q > 0
    requires 0 <= s * p <= a && a - s * p < p
    requires 0 <= t * q <= s && s - t * q < q
    ensures 0 <= t * (p * q) <= a && a - t * (p * q) < p * q
  {
    var u := t * q;
    var sp, up, pq := s * p, u * p, p * q;
    assert t * pq == up by {
      MulAssociative(t, q, p);
      assert p * q == q * p;
    }
    assert 0 <= up <= sp by {
      MulLeq(0, u, p);
      MulLeq(u, s, p);
    }
    assert sp - up <= pq - p by {
      MulLeq(s - u, q - 1, p);
      MulSubDistributes(s, u, p);
      MulSubDistributes(q, 1, p);
    }
  }

  /** Dividing in two steps is dividing by the product: `(a / p) / q == a / (p * q)`. */
  lemma TDivTwice(a: int, p: int, q: int)
    requires p > 0 && q > 0
    ensures p * q > 0 && TDiv(TDiv(a, p), q) == TDiv(a, p * q)
  {
    MulPositive(p, q);
    var a' := Abs(a);
    var s := TDiv(a', p);
    var t := TDiv(s, q);
    TDivOfPositive(a', p);
    NestedQuotient(a', p, q, s, t);
    TDivUnique(a', p * q, t);
    if a < 0 {
      TDivNegate(a', p);
      TDivNegate(s, q);
      TDivNegate(a', p * q);
    }
  }

  /** With a positive divisor the quotient has the sign of the dividend. */
  lemma TDivOfPositive(a: int, b: int)
    requires b > 0
    ensures a >= 0 ==> TDiv(a, b) >= 0
    ensures a < 0 ==> TDiv(a, b) <= 0
  {
    var q := TDiv(a, b);
    if a >= 0 && q < 0 {
      MulMonotone(q, 0, b);
    }
    if a < 0 && q > 0 {
      MulMonotone(0, q, b);
    }
  }
}
