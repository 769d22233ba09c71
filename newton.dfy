/** `calculate`: bounded Newton iteration on p(z) = 1.61803 z^6 - 1, classified
    against a two-entry root table. */
module Newton {
  import opened Double
  import opened ComplexArith

  /** The iteration budget of `calculate`. */
  const MaxIterations: nat := 2000

  /** `struct result`: the iteration at which a root was hit and its index. */
  datatype CalcResult = CalcResult(iteration: int, root: int)

  /** What `calculate` returns when the budget runs out. */
  const Sentinel := CalcResult(0, 0)

  datatype Option<T> = None | Some(value: T)

  /** The root table, in the order `calculate` scans it. */
  function Roots<D>(f: Arith<D>, k: Literals<D>): (roots: seq<Complex<D>>)
    ensures |roots| == 2
  {
    [Re(f, k.rootPos), Re(f, k.rootNeg)]
  }

  /** p(z) = z^6 * 1.61803 - 1.0 */
  function Poly<D>(f: Arith<D>, k: Literals<D>, z: Complex<D>): Complex<D>
  {
    Sub(f, Mul(f, Power(f, z, 6), Re(f, k.lead)), Re(f, f.one))
  }

  /** p'(z) = z^5 * 9.708203 */
  function Deriv<D>(f: Arith<D>, k: Literals<D>, z: Complex<D>): Complex<D>
  {
    Mul(f, Power(f, z, 5), Re(f, k.derivLead))
  }

  /** The damped Newton step dz = z - (p(z) / p'(z)) * a. */
  function Step<D>(f: Arith<D>, k: Literals<D>, a: D, z: Complex<D>): Complex<D>
  {
    Sub(f, z, Mul(f, Div(f, Poly(f, k, z), Deriv(f, k, z)), Re(f, a)))
  }

  /** The proximity test |w - root|^2 < 0.05. */
  predicate Near<D>(f: Arith<D>, k: Literals<D>, w: Complex<D>, root: Complex<D>)
  {
    f.less(AbsSq(f, Sub(f, w, root)), k.threshold)
  }

  /** The lowest index at or after `from` whose root passes the proximity
      test for `w`, if any. */
  function FirstRoot<D>(f: Arith<D>, k: Literals<D>, w: Complex<D>, roots: seq<Complex<D>>, from: nat)
    : (r: Option<nat>)
    requires from <= |roots|
    ensures r.Some? ==> from <= r.value < |roots| && Near(f, k, w, roots[r.value])
    ensures r.Some? ==> forall j :: from <= j < r.value ==> !Near(f, k, w, roots[j])
    ensures r.None? ==> forall j :: from <= j < |roots| ==> !Near(f, k, w, roots[j])
    decreases |roots| - from
  {
    if from == |roots| then None
    else if Near(f, k, w, roots[from]) then Some(from)
    else FirstRoot(f, k, w, roots, from + 1)
  }

  /** The value `z` holds at the start of iteration `i`. */
  function Orbit<D>(f: Arith<D>, k: Literals<D>, a: D, z0: Complex<D>, i: nat): Complex<D>
  {
    if i == 0 then z0 else Step(f, k, a, Orbit(f, k, a, z0, i - 1))
  }

  /** The root, if any, that iteration `i` reports for the start point z0. */
  function Match<D>(f: Arith<D>, k: Literals<D>, a: D, z0: Complex<D>, i: nat): Option<nat>
  {
    FirstRoot(f, k, Step(f, k, a, Orbit(f, k, a, z0, i)), Roots(f, k), 0)
  }

  /** The iterations from `i` on, starting from the current value `z`. */
  function Search<D>(f: Arith<D>, k: Literals<D>, a: D, z: Complex<D>, i: nat): (r: CalcResult)
    requires i <= MaxIterations
    ensures 0 <= r.iteration < MaxIterations && 0 <= r.root < |Roots(f, k)|
    ensures r == Sentinel || i <= r.iteration
    decreases MaxIterations - i
  {
    if i == MaxIterations then Sentinel
    else
      var dz := Step(f, k, a, z);
      match FirstRoot(f, k, dz, Roots(f, k), 0)
      case Some(j) => CalcResult(i, j)
      case None => Search(f, k, a, dz, i + 1)
  }

  /** What `calculate(z0, a)` returns. */
  function Solve<D>(f: Arith<D>, k: Literals<D>, a: D, z0: Complex<D>): CalcResult
  {
    Search(f, k, a, z0, 0)
  }

  /** `calculate`: up to 2000 Newton steps; in each, the root table is scanned
      in order and the first root near the stepped value is returned; the
      current value is replaced by the stepped one only when none is. */
  method Calculate<D>(f: Arith<D>, k: Literals<D>, z0: Complex<D>, a: D) returns (result: CalcResult)
    ensures result == Solve(f, k, a, z0)
    ensures 0 <= result.iteration < MaxIterations && 0 <= result.root < 2
  {
    var roots := Roots(f, k);
    var z := z0;
    var i := 0;
    while i < MaxIterations
      invariant 0 <= i <= MaxIterations
      invariant Search(f, k, a, z, i) == Solve(f, k, a, z0)
    {
      var z6 := PowN(f, z, 6);
      var p := Sub(f, Mul(f, z6, Re(f, k.lead)), Re(f, f.one));
      var z5 := PowN(f, z, 5);
      var pp := Mul(f, z5, Re(f, k.derivLead));
      var dz := Sub(f, z, Mul(f, Div(f, p, pp), Re(f, a)));
      assert dz == Step(f, k, a, z);
      var r := 0;
      while r < |roots|
        invariant 0 <= r <= |roots|
        invariant FirstRoot(f, k, dz, roots, r) == FirstRoot(f, k, dz, roots, 0)
      {
        if Near(f, k, dz, roots[r]) {
          return CalcResult(i, r);
        }
        r := r + 1;
      }
      z := dz;
      i := i + 1;
    }
    return Sentinel;
  }

  // ---- Properties of the search ----

  /** If iteration j is the first hit at or after i, the search from i
      reports exactly iteration j and the root j's scan found. */
  lemma {:induction false} SearchFindsFirstHit<D>(f: Arith<D>, k: Literals<D>, a: D, z0: Complex<D>, i: nat, j: nat)
    requires i <= j < MaxIterations
    requires Match(f, k, a, z0, j).Some?
    requires forall t :: i <= t < j ==> Match(f, k, a, z0, t).None?
    ensures Search(f, k, a, Orbit(f, k, a, z0, i), i) == CalcResult(j, Match(f, k, a, z0, j).value)
    decreases j - i
  {
    if i < j {
      assert Match(f, k, a, z0, i).None?;
      assert Orbit(f, k, a, z0, i + 1) == Step(f, k, a, Orbit(f, k, a, z0, i));
      SearchFindsFirstHit(f, k, a, z0, i + 1, j);
    }
  }

  /** If no iteration from i on hits, the search from i returns the sentinel. */
  lemma {:induction false} SearchNoHit<D>(f: Arith<D>, k: Literals<D>, a: D, z0: Complex<D>, i: nat)
    requires i <= MaxIterations
    requires forall t :: i <= t < MaxIterations ==> Match(f, k, a, z0, t).None?
    ensures Search(f, k, a, Orbit(f, k, a, z0, i), i) == Sentinel
    decreases MaxIterations - i
  {
    if i < MaxIterations {
      assert Match(f, k, a, z0, i).None?;
      assert Orbit(f, k, a, z0, i + 1) == Step(f, k, a, Orbit(f, k, a, z0, i));
      SearchNoHit(f, k, a, z0, i + 1);
    }
  }

  /** Conversely, whatever the search from i returns is either the sentinel
      after no hit at all, or the first hit at or after i. */
  lemma {:induction false} SearchReportsFirstHit<D>(f: Arith<D>, k: Literals<D>, a: D, z0: Complex<D>, i: nat)
    requires i <= MaxIterations
    ensures var r := Search(f, k, a, Orbit(f, k, a, z0, i), i);
      || (r == Sentinel && forall t :: i <= t < MaxIterations ==> Match(f, k, a, z0, t).None?)
      || (i <= r.iteration < MaxIterations
          && Match(f, k, a, z0, r.iteration) == Some(r.root)
          && forall t :: i <= t < r.iteration ==> Match(f, k, a, z0, t).None?)
    decreases MaxIterations - i
  {
    if i < MaxIterations {
      assert Orbit(f, k, a, z0, i + 1) == Step(f, k, a, Orbit(f, k, a, z0, i));
      if Match(f, k, a, z0, i).None? {
        SearchReportsFirstHit(f, k, a, z0, i + 1);
      }
    }
  }

  /** First-hit semantics of `calculate`: the earliest iteration at which
      some root passes the test is reported, with the lowest such root. */
  lemma SolveFindsFirstHit<D>(f: Arith<D>, k: Literals<D>, a: D, z0: Complex<D>, j: nat)
    requires j < MaxIterations
    requires Match(f, k, a, z0, j).Some?
    requires forall t :: 0 <= t < j ==> Match(f, k, a, z0, t).None?
    ensures Solve(f, k, a, z0) == CalcResult(j, Match(f, k, a, z0, j).value)
  {
    SearchFindsFirstHit(f, k, a, z0, 0, j);
  }

  /** A result other than the sentinel is always a genuine first hit. */
  lemma SolveReportsFirstHit<D>(f: Arith<D>, k: Literals<D>, a: D, z0: Complex<D>)
    ensures var r := Solve(f, k, a, z0);
      r != Sentinel ==>
        && Match(f, k, a, z0, r.iteration) == Some(r.root)
        && forall t :: 0 <= t < r.iteration ==> Match(f, k, a, z0, t).None?
  {
    SearchReportsFirstHit(f, k, a, z0, 0);
  }

  /** The sentinel (0, 0) comes back exactly when no iteration hits, or when
      the very first step lands near root 0: the two cannot be told apart. */
  lemma SolveSentinel<D>(f: Arith<D>, k: Literals<D>, a: D, z0: Complex<D>)
    ensures Solve(f, k, a, z0) == Sentinel <==>
      (Match(f, k, a, z0, 0) == Some(0) || forall t :: 0 <= t < MaxIterations ==> Match(f, k, a, z0, t).None?)
  {
    SearchReportsFirstHit(f, k, a, z0, 0);
    if forall t :: 0 <= t < MaxIterations ==> Match(f, k, a, z0, t).None? {
      SearchNoHit(f, k, a, z0, 0);
    } else if Match(f, k, a, z0, 0) == Some(0) {
      SearchFindsFirstHit(f, k, a, z0, 0, 0);
    }
  }
}
