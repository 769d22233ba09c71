/** The complex formulas of `struct complex` read over exact real arithmetic.

    Doubles round, so none of these identities is claimed for the source's
    doubles; they show that the formulas themselves are the textbook complex
    operations, which is what the source intends them to be. */
module Exact {
  import opened Double
  import opened ComplexArith

  /** The real numbers as an instance of the double interface. Division by
      zero, which IEEE-754 turns into an infinity, is mapped to 0.0. */
  function RealArith(): Arith<real>
  {
    Arith((x: real, y: real) => x + y,
          (x: real, y: real) => x - y,
          (x: real, y: real) => x * y,
          (x: real, y: real) => if y == 0.0 then 0.0 else x / y,
          (x: real, y: real) => x < y,
          (n: int) => n as real,
          0.0,
          1.0)
  }

  // What each operation evaluates to over the reals.

  lemma MulReal(z: Complex<real>, b: Complex<real>)
    ensures Mul(RealArith(), z, b) == Complex(z.re * b.re - z.im * b.im, z.re * b.im + z.im * b.re)
  {
    var f := RealArith();
    assert f.mul(z.re, b.re) == z.re * b.re && f.mul(z.im, b.im) == z.im * b.im;
    assert f.mul(z.re, b.im) == z.re * b.im && f.mul(z.im, b.re) == z.im * b.re;
    assert f.sub(z.re * b.re, z.im * b.im) == z.re * b.re - z.im * b.im;
    assert f.add(z.re * b.im, z.im * b.re) == z.re * b.im + z.im * b.re;
  }

  lemma AbsSqReal(z: Complex<real>)
    ensures AbsSq(RealArith(), z) == z.re * z.re + z.im * z.im
  {
    var f := RealArith();
    assert f.mul(z.re, z.re) == z.re * z.re && f.mul(z.im, z.im) == z.im * z.im;
    assert f.add(z.re * z.re, z.im * z.im) == z.re * z.re + z.im * z.im;
  }

  lemma DivReal(z: Complex<real>, b: Complex<real>, d: real)
    requires b.im * b.im + b.re * b.re != 0.0
    requires d == 1.0 / (b.im * b.im + b.re * b.re)
    ensures Div(RealArith(), z, b) == Complex(d * (z.re * b.re + z.im * b.im), d * (z.im * b.re - z.re * b.im))
  {
    var f := RealArith();
    assert f.mul(b.im, b.im) == b.im * b.im && f.mul(b.re, b.re) == b.re * b.re;
    assert f.add(b.im * b.im, b.re * b.re) == b.im * b.im + b.re * b.re;
    assert f.div(f.one, f.add(f.mul(b.im, b.im), f.mul(b.re, b.re))) == d;
    assert f.mul(z.re, b.re) == z.re * b.re && f.mul(z.im, b.im) == z.im * b.im;
    assert f.mul(z.im, b.re) == z.im * b.re && f.mul(z.re, b.im) == z.re * b.im;
    assert f.add(z.re * b.re, z.im * b.im) == z.re * b.re + z.im * b.im;
    assert f.sub(z.im * b.re, z.re * b.im) == z.im * b.re - z.re * b.im;
    assert f.mul(d, z.re * b.re + z.im * b.im) == d * (z.re * b.re + z.im * b.im);
    assert f.mul(d, z.im * b.re - z.re * b.im) == d * (z.im * b.re - z.re * b.im);
  }

  /** `add` then `sub` of the same value is the identity. */
  lemma AddSubRoundTrip(z: Complex<real>, b: Complex<real>)
    ensures Sub(RealArith(), Add(RealArith(), z, b), b) == z
  {
  }

  /** `abssq` is never negative, and is zero only at the origin. */
  lemma AbsSqZeroIff(z: Complex<real>)
    ensures AbsSq(RealArith(), z) >= 0.0
    ensures AbsSq(RealArith(), z) == 0.0 <==> z == Complex(0.0, 0.0)
  {
    AbsSqReal(z);
    SquareZero(z.re);
    SquareZero(z.im);
  }

  /** `div` undoes `mul` by a non-zero divisor: (z / b) * b == z. */
  lemma DivMulRoundTrip(z: Complex<real>, b: Complex<real>)
    requires b != Complex(0.0, 0.0)
    ensures Mul(RealArith(), Div(RealArith(), z, b), b) == z
  {
    AbsSqZeroIff(b);
    AbsSqReal(b);
    DivMulAt(z, b, 1.0 / (b.im * b.im + b.re * b.re));
  }

  lemma DivMulAt(z: Complex<real>, b: Complex<real>, d: real)
    requires b.im * b.im + b.re * b.re != 0.0
    requires d == 1.0 / (b.im * b.im + b.re * b.re)
    ensures Mul(RealArith(), Div(RealArith(), z, b), b) == z
  {
    var q := Div(RealArith(), z, b);
    DivReal(z, b, d);
    MulReal(q, b);
    DivMulCore(z, b, d, q, Mul(RealArith(), q, b));
  }

  /** The quotient q and the product m = q * b, written out componentwise. */
  lemma DivMulCore(z: Complex<real>, b: Complex<real>, d: real, q: Complex<real>, m: Complex<real>)
    requires b.im * b.im + b.re * b.re != 0.0
    requires d == 1.0 / (b.im * b.im + b.re * b.re)
    requires q == Complex(d * (z.re * b.re + z.im * b.im), d * (z.im * b.re - z.re * b.im))
    requires m == Complex(q.re * b.re - q.im * b.im, q.re * b.im + q.im * b.re)
    ensures m == z
  {
    DivMulParts(z.re, z.im, b.re, b.im, d, q.re, q.im, m.re, m.im);
  }

  /** The complex product is associative over the reals, so there `powN(n)`
      is the n-th power (see ComplexArith.PowerAdd). */
  lemma RealMulAssociative()
    ensures MulAssociative(RealArith())
  {
    forall a: Complex<real>, b: Complex<real>, c: Complex<real>
      ensures Mul(RealArith(), Mul(RealArith(), a, b), c) == Mul(RealArith(), a, Mul(RealArith(), b, c))
    {
      MulAssocAt(a, b, c);
    }
  }

  lemma MulAssocAt(a: Complex<real>, b: Complex<real>, c: Complex<real>)
    ensures Mul(RealArith(), Mul(RealArith(), a, b), c) == Mul(RealArith(), a, Mul(RealArith(), b, c))
  {
    var f := RealArith();
    var ab, bc := Mul(f, a, b), Mul(f, b, c);
    MulReal(a, b);
    MulReal(b, c);
    MulReal(ab, c);
    MulReal(a, bc);
    AssocParts(a.re, a.im, b.re, b.im, c.re, c.im, ab.re, ab.im, bc.re, bc.im);
  }

  /** Over the reals, z^(m+n) = z^m * z^n for the power `powN` computes. */
  lemma RealPowerAdd(z: Complex<real>, m: int, n: int)
    requires 1 <= m && 1 <= n
    ensures Power(RealArith(), z, m + n) == Mul(RealArith(), Power(RealArith(), z, m), Power(RealArith(), z, n))
  {
    RealMulAssociative();
    PowerAdd(RealArith(), z, m, n);
  }

  // Polynomial identities over the reals.

  lemma SquareZero(x: real)
    ensures x * x >= 0.0
    ensures x * x == 0.0 <==> x == 0.0
  {
    if x != 0.0 {
      assert (x * x) / x == x;
      if x > 0.0 {
        assert x * x > 0.0;
      } else {
        assert (-x) * (-x) > 0.0;
      }
    }
  }

  lemma AssocParts(ar: real, ai: real, br: real, bi: real, cr: real, ci: real,
                   abr: real, abi: real, bcr: real, bci: real)
    requires abr == ar * br - ai * bi && abi == ar * bi + ai * br
    requires bcr == br * cr - bi * ci && bci == br * ci + bi * cr
    ensures abr * cr - abi * ci == ar * bcr - ai * bci
    ensures abr * ci + abi * cr == ar * bci + ai * bcr
  {
    assert abr * cr == (ar * br - ai * bi) * cr;
    assert abi * ci == (ar * bi + ai * br) * ci;
    assert ar * bcr == ar * (br * cr - bi * ci);
    assert ai * bci == ai * (br * ci + bi * cr);
    assert abr * ci == (ar * br - ai * bi) * ci;
    assert abi * cr == (ar * bi + ai * br) * cr;
    assert ar * bci == ar * (br * ci + bi * cr);
    assert ai * bcr == ai * (br * cr - bi * ci);
  }

  lemma DivMulParts(zr: real, zi: real, br: real, bi: real, d: real, qr: real, qi: real, mr: real, mi: real)
    requires bi * bi + br * br != 0.0 && d == 1.0 / (bi * bi + br * br)
    requires qr == d * (zr * br + zi * bi) && qi == d * (zi * br - zr * bi)
    requires mr == qr * br - qi * bi && mi == qr * bi + qi * br
    ensures mr == zr && mi == zi
  {
    var n := bi * bi + br * br;
    assert d * n == 1.0;
    assert qr * br == (d * (zr * br + zi * bi)) * br;
    assert qi * bi == (d * (zi * br - zr * bi)) * bi;
    assert qr * br - qi * bi == zr * (d * n);
    assert qr * bi == (d * (zr * br + zi * bi)) * bi;
    assert qi * br == (d * (zi * br - zr * bi)) * br;
    assert qr * bi + qi * br == zi * (d * n);
  }
}
