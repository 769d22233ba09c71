/** `struct complex` and its member functions, over uninterpreted doubles. */
module ComplexArith {
  import opened Double

  /** A complex value: the pair of doubles `real`, `imag`. */
  datatype Complex<D> = Complex(re: D, im: D)

  /** `re(r)`: lifts a double to the complex value (r, 0.0). */
  function Re<D>(f: Arith<D>, r: D): Complex<D>
  {
    Complex(r, f.zero)
  }

  function Add<D>(f: Arith<D>, z: Complex<D>, b: Complex<D>): Complex<D>
  {
    Complex(f.add(z.re, b.re), f.add(z.im, b.im))
  }

  function Sub<D>(f: Arith<D>, z: Complex<D>, b: Complex<D>): Complex<D>
  {
    Complex(f.sub(z.re, b.re), f.sub(z.im, b.im))
  }

  function Mul<D>(f: Arith<D>, z: Complex<D>, b: Complex<D>): Complex<D>
  {
    Complex(f.sub(f.mul(z.re, b.re), f.mul(z.im, b.im)),
            f.add(f.mul(z.re, b.im), f.mul(z.im, b.re)))
  }

  /** `div`: multiplies by the reciprocal of |b|^2, which is not guarded
      against a zero denominator. */
  function Div<D>(f: Arith<D>, z: Complex<D>, b: Complex<D>): Complex<D>
  {
    var d := f.div(f.one, f.add(f.mul(b.im, b.im), f.mul(b.re, b.re)));
    Complex(f.mul(d, f.add(f.mul(z.re, b.re), f.mul(z.im, b.im))),
            f.mul(d, f.sub(f.mul(z.im, b.re), f.mul(z.re, b.im))))
  }

  /** `abssq`: the squared magnitude, computed without a square root. */
  function AbsSq<D>(f: Arith<D>, z: Complex<D>): D
  {
    f.add(f.mul(z.re, z.re), f.mul(z.im, z.im))
  }

  /** What `powN(n)` computes: z multiplied on the right by z, n - 1 times;
      z itself when n <= 1. */
  function Power<D>(f: Arith<D>, z: Complex<D>, n: int): Complex<D>
    decreases n
  {
    if n <= 1 then z else Mul(f, Power(f, z, n - 1), z)
  }

  /** `powN`: the counting loop that accumulates into `ret`. */
  method PowN<D>(f: Arith<D>, z: Complex<D>, n: int) returns (ret: Complex<D>)
    ensures ret == Power(f, z, n)
    ensures n <= 1 ==> ret == z
  {
    ret := z;
    var i := 1;
    while i < n
      invariant 1 <= i && (n <= 1 || i <= n)
      invariant n <= 1 ==> i == 1
      invariant ret == Power(f, z, i)
    {
      ret := Mul(f, ret, z);
      i := i + 1;
    }
  }

  /** Complex multiplication is associative (it is over the reals, it is not
      over doubles). */
  ghost predicate MulAssociative<D(!new)>(f: Arith<D>)
  {
    forall a, b, c :: Mul(f, Mul(f, a, b), c) == Mul(f, a, Mul(f, b, c))
  }

  /** Under an associative complex product, `powN` is a genuine power:
      z^(m+n) = z^m * z^n. */
  lemma {:induction false} PowerAdd<D(!new)>(f: Arith<D>, z: Complex<D>, m: int, n: int)
    requires MulAssociative(f)
    requires 1 <= m && 1 <= n
    ensures Power(f, z, m + n) == Mul(f, Power(f, z, m), Power(f, z, n))
    decreases n
  {
    if n > 1 {
      PowerAdd(f, z, m, n - 1);
      calc {
        Power(f, z, m + n);
        Mul(f, Power(f, z, m + n - 1), z);
        Mul(f, Mul(f, Power(f, z, m), Power(f, z, n - 1)), z);
        Mul(f, Power(f, z, m), Mul(f, Power(f, z, n - 1), z));
        Mul(f, Power(f, z, m), Power(f, z, n));
      }
    }
  }

  /** IEEE-754 addition and multiplication are commutative up to NaN payloads,
      so where the double operations commute the complex product of the
      source commutes too. */
  lemma MulCommutes<D(!new)>(f: Arith<D>, a: Complex<D>, b: Complex<D>)
    requires forall x, y :: f.add(x, y) == f.add(y, x)
    requires forall x, y :: f.mul(x, y) == f.mul(y, x)
    ensures Mul(f, a, b) == Mul(f, b, a)
  {
  }

  /** Likewise complex addition. */
  lemma AddCommutes<D(!new)>(f: Arith<D>, a: Complex<D>, b: Complex<D>)
    requires forall x, y :: f.add(x, y) == f.add(y, x)
    ensures Add(f, a, b) == Add(f, b, a)
  {
  }
}
