/** Double-precision arithmetic, kept uninterpreted.

    `main.cc` computes on C `double`s. IEEE-754 rounding does not obey the laws of
    the reals, so the model never interprets a double: the type is a parameter `D`
    and every primitive the source applies to doubles is a field of `Arith`. Every
    double literal the source writes is a field of `Literals`. */
module Double {

  /** The primitive operations on doubles that `main.cc` uses. */
  datatype Arith<!D> = Arith(
    add: (D, D) -> D,      // a + b
    sub: (D, D) -> D,      // a - b
    mul: (D, D) -> D,      // a * b
    div: (D, D) -> D,      // a / b, unguarded
    less: (D, D) -> bool,  // a < b
    ofInt: int -> D,       // (double)n
    zero: D,               // 0.0
    one: D)                // 1.0

  /** The double literals of the polynomial, the root table, the basin
      threshold and the pixel-to-plane mapping. */
  datatype Literals<D> = Literals(
    lead: D,       // 1.61803, coefficient of z^6 in p(z)
    derivLead: D,  // 9.708203, coefficient of z^5 in p'(z)
    rootPos: D,    // 0.9229299, real part of root 0
    rootNeg: D,    // -0.9229299, real part of root 1
    threshold: D,  // 0.05, squared radius of a basin
    half: D,       // 0.5, centring factor of the plane mapping
    scale: D)      // 0.01, plane units per pixel
}
