/**
 * Worked examples of the scale rules, on `i32` bits in base 10 (base 2 for
 * the last conversion).
 */
module Scenarios {
  import opened Primitives
  import opened FixedPoint

  /** 15_000_000 × 10^-3 converted to exponent 3 divides by 10^6: 15 × 10^3. */
  lemma ConvertUpExample()
    ensures ConvertDefined(Fix(I32, 15_000_000, 10, -3), 3)
    ensures Convert(Fix(I32, 15_000_000, 10, -3), 3) == Fix(I32, 15, 10, 3)
  {
    assert Pow(10, 6) == 1_000_000;
    TDivUnique(15_000_000, 1_000_000, 15);
  }

  /** 15 × 10^3 converted to exponent -3 multiplies by 10^6: 15_000_000 × 10^-3. */
  lemma ConvertDownExample()
    ensures ConvertDefined(Fix(I32, 15, 10, 3), -3)
    ensures Convert(Fix(I32, 15, 10, 3), -3) == Fix(I32, 15_000_000, 10, -3)
  {
    assert Pow(10, 6) == 1_000_000;
  }

  /** 1 × 2^20 converted to exponent 10 multiplies by 2^10: 1024 × 2^10. */
  lemma ConvertBinaryExample()
    ensures ConvertDefined(Fix(I32, 1, 2, 20), 10)
    ensures Convert(Fix(I32, 1, 2, 20), 10) == Fix(I32, 1024, 2, 10)
  {
    assert Pow(2, 10) == 1024;
  }

  /** 2 × 10^3 times 3 × 10^-3 is 6 × 10^0: exponents add. */
  lemma MulExample()
    ensures Mul(Fix(I32, 2, 10, 3), Fix(I32, 3, 10, -3)) == Fix(I32, 6, 10, 0)
  {
  }

  /** 6 × 10^3 divided by 2 × 10^3 is 3 × 10^0: exponents subtract. */
  lemma DivExample()
    ensures Div(Fix(I32, 6, 10, 3), Fix(I32, 2, 10, 3)) == Fix(I32, 3, 10, 0)
  {
    TDivUnique(6, 2, 3);
  }

  /** 6 × 10^3 % 5 × 10^-3 is 1 × 10^3: the left exponent is kept. */
  lemma RemExample()
    ensures Rem(Fix(I32, 6, 10, 3), Fix(I32, 5, 10, -3)) == Fix(I32, 1, 10, 3)
  {
    TDivUnique(6, 5, 1);
  }

  /** Rust's `/` and `%` truncate toward zero: -7 / 2 == -3 and -7 % 2 == -1. */
  lemma TruncationExample()
    ensures TDiv(-7, 2) == -3 && TRem(-7, 2) == -1
    ensures TDiv(7, -2) == -3 && TRem(7, -2) == 1
  {
    TDivUnique(-7, 2, -3);
    TDivUnique(7, -2, -3);
  }

  /** Converting a negative value up truncates toward zero: -1500 × 10^0 becomes -1 × 10^3. */
  lemma ConvertNegativeExample()
    ensures ConvertDefined(Fix(I32, -1500, 10, 0), 3)
    ensures Convert(Fix(I32, -1500, 10, 0), 3) == Fix(I32, -1, 10, 3)
  {
    assert Pow(10, 3) == 1000;
    TDivUnique(-1500, 1000, -1);
  }
}
