/**
 * The compound assignments (`+=`, `-=`, `*=`, `/=`, `%=`) of `Fix`: they
 * take `&mut self` and replace the bits in place. The scale is part of the
 * Rust type and cannot change, so here it is held in `const` fields and only
 * `bits` is mutable.
 */
module FixedAssign {
  import opened Primitives
  import FixedPoint

  /** A mutable place holding a fixed-point number. */
  class FixCell {
    var bits: int
    const prim: Prim
    const base: nat
    const exp: int

    ghost predicate Valid()
      reads this
    {
      FixedPoint.Valid(Get())
    }

    /** The number the place holds now. */
    function Get(): FixedPoint.Fix
      reads this
    {
      FixedPoint.Fix(prim, bits, base, exp)
    }

    constructor (x: FixedPoint.Fix)
      requires FixedPoint.Valid(x)
      ensures Valid() && Get() == x
    {
      bits, prim, base, exp := x.bits, x.prim, x.base, x.exp;
    }

    /** `AddAssign`: `a += b` leaves `a` equal to the old `a + b`. */
    method AddAssign(rhs: FixedPoint.Fix)
      requires Valid() && FixedPoint.Valid(rhs) && FixedPoint.Commensurate(Get(), rhs)
      requires InRange(prim, bits + rhs.bits)
      modifies this
      ensures Valid() && Get() == FixedPoint.Add(old(Get()), rhs)
      ensures FixedPoint.Commensurate(Get(), old(Get()))
    {
      bits := bits + rhs.bits;
    }

    /** `SubAssign`: `a -= b` leaves `a` equal to the old `a - b`. */
    method SubAssign(rhs: FixedPoint.Fix)
      requires Valid() && FixedPoint.Valid(rhs) && FixedPoint.Commensurate(Get(), rhs)
      requires InRange(prim, bits - rhs.bits)
      modifies this
      ensures Valid() && Get() == FixedPoint.Sub(old(Get()), rhs)
      ensures FixedPoint.Commensurate(Get(), old(Get()))
    {
      bits := bits - rhs.bits;
    }

    /** `MulAssign<Bits>`: multiplies the bits by a raw value. */
    method MulAssign(k: int)
      requires Valid() && InRange(prim, k) && InRange(prim, bits * k)
      modifies this
      ensures Valid() && Get() == FixedPoint.MulBits(old(Get()), k)
      ensures FixedPoint.Commensurate(Get(), old(Get()))
    {
      bits := bits * k;
    }

    /** `DivAssign<Bits>`: divides the bits by a raw value, truncating. */
    method DivAssign(k: int)
      requires Valid() && InRange(prim, k) && k != 0 && InRange(prim, TDiv(bits, k))
      modifies this
      ensures Valid() && Get() == FixedPoint.DivBits(old(Get()), k)
      ensures FixedPoint.Commensurate(Get(), old(Get()))
    {
      bits := TDiv(bits, k);
    }

    /** `RemAssign<Fix>`: `%=` by a number of the same base and any exponent uses only its bits. */
    method RemAssign(rhs: FixedPoint.Fix)
      requires Valid() && FixedPoint.Valid(rhs) && FixedPoint.SameBase(Get(), rhs)
      requires rhs.bits != 0 && InRange(prim, TDiv(bits, rhs.bits))
      modifies this
      ensures Valid() && Get() == FixedPoint.Rem(old(Get()), rhs)
      ensures FixedPoint.Commensurate(Get(), old(Get()))
    {
      bits := TRem(bits, rhs.bits);
    }

    /** `RemAssign<Bits>`: remainder of the bits by a raw value. */
    method RemAssignBits(k: int)
      requires Valid() && InRange(prim, k) && k != 0 && InRange(prim, TDiv(bits, k))
      modifies this
      ensures Valid() && Get() == FixedPoint.RemBits(old(Get()), k)
      ensures FixedPoint.Commensurate(Get(), old(Get()))
    {
      bits := TRem(bits, k);
    }
  }

  /**
   * A compound assignment ends in the state the non-assigning operator
   * computes, and the place's scale never moves: `a += b; a -= b` restores `a`.
   */
  method AddThenSubRestores(a: FixCell, b: FixedPoint.Fix)
    requires a.Valid() && FixedPoint.Valid(b) && FixedPoint.Commensurate(a.Get(), b)
    requires InRange(a.prim, a.bits + b.bits)
    modifies a
    ensures a.Valid() && a.Get() == old(a.Get())
  {
    a.AddAssign(b);
    a.SubAssign(b);
  }
}
