/** The dispatch layer of the incomplete-gamma routines used by the
    light-curve analysis (class `MyMath` in LightCurve.py).

    The numerical kernels (series and continued-fraction sums, `exp`,
    `log`, `lgamma`) are parameters; what is modelled is how the routines
    check their arguments, pick a kernel, combine its result and drive the
    Newton iteration of the inverses. */
module SpecialFunctions {
  import opened Results

  /** ValueError for an argument out of the domain; RuntimeError when an
      iteration does not converge; ZeroDivisionError for a flat Newton
      step. */
  datatype MathError = DomainError | NoConvergence | ZeroSlope

  /** A result that may be +infinity (`float('infinity')`). */
  datatype Extended = Finite(v: real) | PosInf

  /** `_def_itmax`: the loops run for i in 1 .. ItMax-1. */
  const ItMax: nat := 100
  /** `_def_reltol`. */
  const RelTol: real := 0.00000000000001

  /** The numerical kernels. `serSum` and `cfracSum` are the bodies of
      `_gamma_ser` and `_gamma_cfrac` after their argument checks; they may
      fail to converge. */
  datatype Kernels = Kernels(
    serSum: (real, real) -> Result<real, MathError>,
    cfracSum: (real, real) -> Result<real, MathError>,
    lgamma: real -> real,
    exp: real -> real,
    log: real -> real)

  function Abs(x: real): real { if x < 0.0 then -x else x }

  /** The argument checks every gamma routine starts with: x == 0 gives 0
      whatever `a` is, x < 0 and then a <= 0 are errors. None means the
      arguments pass. */
  function Screen(x: real, a: real): (r: Option<Result<real, MathError>>)
    ensures r == None <==> x > 0.0 && a > 0.0
    ensures x == 0.0 ==> r == Some(Ok(0.0))
    ensures x < 0.0 || (x != 0.0 && a <= 0.0) ==> r == Some(Err(DomainError))
  {
    if x <= 0.0 then
      if x == 0.0 then Some(Ok(0.0)) else Some(Err(DomainError))
    else if a <= 0.0 then Some(Err(DomainError))
    else None
  }

  /** `_gamma_ser(x, a)`: the lower regularised series. */
  function Ser(x: real, a: real, k: Kernels): (r: Result<real, MathError>)
    ensures x > 0.0 && a > 0.0 ==> r == k.serSum(x, a)
    ensures x == 0.0 ==> r == Ok(0.0)
  {
    match Screen(x, a)
    case Some(early) => early
    case None => k.serSum(x, a)
  }

  /** `_gamma_cfrac(x, a)`: the upper regularised continued fraction. */
  function Cfrac(x: real, a: real, k: Kernels): (r: Result<real, MathError>)
    ensures x > 0.0 && a > 0.0 ==> r == k.cfracSum(x, a)
    ensures x == 0.0 ==> r == Ok(0.0)
  {
    match Screen(x, a)
    case Some(early) => early
    case None => k.cfracSum(x, a)
  }

  /** The series is used iff x < a + 1. */
  predicate UseSeries(x: real, a: real) { x < a + 1.0 }

  /** `1 - r` on a successful result. */
  function OneMinus(r: Result<real, MathError>): Result<real, MathError>
  {
    match r
    case Ok(v) => Ok(1.0 - v)
    case Err(e) => Err(e)
  }

  /** gammainc (LightCurve.py:86-96): P(a, x). */
  function GammaInc(x: real, a: real, k: Kernels): (r: Result<real, MathError>)
    ensures x == 0.0 ==> r == Ok(0.0)
    ensures x < 0.0 || (x != 0.0 && a <= 0.0) ==> r == Err(DomainError)
    ensures x > 0.0 && a > 0.0 && UseSeries(x, a) ==> r == k.serSum(x, a)
    ensures x > 0.0 && a > 0.0 && !UseSeries(x, a) ==> r == OneMinus(k.cfracSum(x, a))
  {
    match Screen(x, a)
    case Some(early) => early
    case None => if UseSeries(x, a) then Ser(x, a, k) else OneMinus(Cfrac(x, a, k))
  }

  /** gammaincc (LightCurve.py:98-108): Q(a, x). */
  function GammaIncC(x: real, a: real, k: Kernels): (r: Result<real, MathError>)
    ensures x == 0.0 ==> r == Ok(0.0)
    ensures x < 0.0 || (x != 0.0 && a <= 0.0) ==> r == Err(DomainError)
    ensures x > 0.0 && a > 0.0 && UseSeries(x, a) ==> r == OneMinus(k.serSum(x, a))
    ensures x > 0.0 && a > 0.0 && !UseSeries(x, a) ==> r == k.cfracSum(x, a)
  {
    match Screen(x, a)
    case Some(early) => early
    case None => if UseSeries(x, a) then OneMinus(Ser(x, a, k)) else Cfrac(x, a, k)
  }

  /** Inside the domain the two routines fail together, and when they
      succeed they sum to one whatever the kernels return. */
  lemma Complement(x: real, a: real, k: Kernels)
    requires x > 0.0 && a > 0.0
    ensures GammaInc(x, a, k).Ok? <==> GammaIncC(x, a, k).Ok?
    ensures GammaInc(x, a, k).Ok? ==> GammaInc(x, a, k).value + GammaIncC(x, a, k).value == 1.0
  {
  }

  /** At x == 0 both routines return 0 before looking at `a`, so the
      complement identity fails there. */
  lemma ZeroArgument(a: real, k: Kernels)
    ensures GammaInc(0.0, a, k) == Ok(0.0) && GammaIncC(0.0, a, k) == Ok(0.0)
    ensures GammaInc(0.0, a, k).value + GammaIncC(0.0, a, k).value != 1.0
  {
  }

  /** Outside the domain (x <= 0 or a <= 0) the two routines return the
      same thing: 0 at x == 0, a domain error otherwise. */
  lemma SameOutsideDomain(x: real, a: real, k: Kernels)
    requires !(x > 0.0 && a > 0.0)
    ensures GammaInc(x, a, k) == GammaIncC(x, a, k)
    ensures GammaInc(x, a, k) == (if x == 0.0 then Ok(0.0) else Err(DomainError))
  {
  }

  // ---------------------------------------------------------------------
  // Inverses (LightCurve.py:110-190)
  // ---------------------------------------------------------------------

  /** The two functions a Newton search can chase: the series itself, or
      the logarithm of the continued fraction. */
  datatype Target = SeriesTarget | LogCfracTarget

  /** f(x) for the chosen target. */
  function Eval(t: Target, x: real, a: real, k: Kernels): Result<real, MathError>
  {
    match t
    case SeriesTarget => Ser(x, a, k)
    case LogCfracTarget =>
      var c :- Cfrac(x, a, k);
      Ok(k.log(c))
  }

  /** df/dx at x, given f(x) and lgamma(a). */
  function Slope(t: Target, x: real, fx: real, a: real, gl: real, k: Kernels): real
  {
    match t
    case SeriesTarget => k.exp((a - 1.0) * k.log(x) - x - gl)
    case LogCfracTarget => -k.exp((a - 1.0) * k.log(x) - x - gl - fx)
  }

  /** The next iterate: a Newton step, or half of the current point when
      the step would leave the positive axis. */
  function NextIterate(x: real, fx: real, target: real, slope: real): (r: real)
    requires slope != 0.0
    ensures x > 0.0 ==> r > 0.0
    ensures x - (fx - target) / slope > 0.0 ==> r == x - (fx - target) / slope
    ensures x - (fx - target) / slope <= 0.0 ==> r == 0.5 * x
  {
    var step := x - (fx - target) / slope;
    if step <= 0.0 then 0.5 * (x + 0.0) else step
  }

  /** The Newton loop from iteration i (1 <= i < ItMax) at point x with
      f(x) = fx; `tol` is the relative convergence tolerance. */
  function Newton(t: Target, a: real, gl: real, target: real, x: real, fx: real, i: nat, tol: real, k: Kernels): (r: Result<Extended, MathError>)
    requires 1 <= i <= ItMax
    ensures r.Ok? ==> r.value.Finite?
    ensures r.Ok? && x > 0.0 ==> r.value.v > 0.0
    decreases ItMax - i
  {
    if i == ItMax then Err(NoConvergence)
    else
      var slope := Slope(t, x, fx, a, gl, k);
      if slope == 0.0 then Err(ZeroSlope)
      else
        var next := NextIterate(x, fx, target, slope);
        if Abs(next - x) < tol * (next + x) then Ok(Finite(next))
        else
          var fnext :- Eval(t, next, a, k);
          Newton(t, a, gl, target, next, fnext, i + 1, tol, k)
  }

  /** Newton's loop only ever stops by converging: a search that can never
      meet its convergence test (here a non-positive tolerance on the
      positive axis, with kernels that always succeed and a positive
      exponential) runs from any iteration i to the cap and gives up. */
  lemma {:induction false} NewtonGivesUp(t: Target, a: real, gl: real, target: real, x: real, fx: real, i: nat, tol: real, k: Kernels)
    requires 1 <= i <= ItMax
    requires x > 0.0 && a > 0.0 && tol <= 0.0
    requires forall y :: k.exp(y) > 0.0
    requires forall u, v :: k.serSum(u, v).Ok?
    requires forall u, v :: k.cfracSum(u, v).Ok?
    ensures Newton(t, a, gl, target, x, fx, i, tol, k) == Err(NoConvergence)
    decreases ItMax - i
  {
    if i < ItMax {
      var slope := Slope(t, x, fx, a, gl, k);
      assert slope != 0.0;
      var next := NextIterate(x, fx, target, slope);
      assert next > 0.0;
      assert !(Abs(next - x) < tol * (next + x));
      assert Eval(t, next, a, k).Ok?;
      NewtonGivesUp(t, a, gl, target, next, Eval(t, next, a, k).value, i + 1, tol, k);
    }
  }

  /** The closed-form starting point for a small series value. */
  function SmallSeed(f: real, a: real, gl: real, k: Kernels): real
    requires a > 0.0
  {
    k.exp((k.log(f) + gl + k.log(a)) / a)
  }

  /** The range checks shared by both inverses: p == 0 gives 0, p == 1
      gives +infinity, p outside [0, 1] or a <= 0 is an error. None means
      the arguments pass. */
  function ScreenInverse(p: real, a: real): (r: Option<Result<Extended, MathError>>)
    ensures r == None <==> 0.0 < p < 1.0 && a > 0.0
    ensures p == 0.0 ==> r == Some(Ok(Finite(0.0)))
    ensures p == 1.0 ==> r == Some(Ok(PosInf))
    ensures p < 0.0 || p > 1.0 || (0.0 < p < 1.0 && a <= 0.0) ==> r == Some(Err(DomainError))
  {
    if p <= 0.0 then
      if p == 0.0 then Some(Ok(Finite(0.0))) else Some(Err(DomainError))
    else if p >= 1.0 then
      if p == 1.0 then Some(Ok(PosInf)) else Some(Err(DomainError))
    else if a <= 0.0 then Some(Err(DomainError))
    else None
  }

  /** Search over the series from `x0`, seeding with the closed form when
      the series value sought is below 0.75 and returning that seed
      outright when it is below 0.1 * RelTol. */
  function SeriesSearch(f: real, a: real, gl: real, x0: real, tol: real, k: Kernels): Result<Extended, MathError>
    requires a > 0.0
  {
    var seeded := f < 0.75;
    var x1 := if seeded then SmallSeed(f, a, gl, k) else x0;
    if seeded && f < 0.1 * RelTol then Ok(Finite(x1))
    else
      var f1 :- Eval(SeriesTarget, x1, a, k);
      Newton(SeriesTarget, a, gl, f, x1, f1, 1, tol, k)
  }

  /** Search over log Q from `x0` for log-target `lf`. */
  function CfracSearch(lf: real, a: real, gl: real, x0: real, tol: real, k: Kernels): Result<Extended, MathError>
  {
    var f0 :- Eval(LogCfracTarget, x0, a, k);
    Newton(LogCfracTarget, a, gl, lf, x0, f0, 1, tol, k)
  }

  /** gammainv (LightCurve.py:110-149): the x with P(a, x) = p. Starting
      at x = a + 1, it chases the series when p lies below its value
      there and log Q otherwise. */
  function GammaInv(p: real, a: real, k: Kernels): (r: Result<Extended, MathError>)
    ensures p == 0.0 ==> r == Ok(Finite(0.0))
    ensures p == 1.0 ==> r == Ok(PosInf)
    ensures p < 0.0 || p > 1.0 || (0.0 < p < 1.0 && a <= 0.0) ==> r == Err(DomainError)
    ensures r.Ok? && r.value.PosInf? ==> p == 1.0
  {
    match ScreenInverse(p, a)
    case Some(early) => early
    case None =>
      var gl := k.lgamma(a);
      var x0 := a + 1.0;
      var f0 :- Ser(x0, a, k);
      if p < f0 then SeriesSearch(p, a, gl, x0, 10.0 * RelTol, k)
      else CfracSearch(k.log(1.0 - p), a, gl, x0, 10.0 * RelTol, k)
  }

  /** gammainvc (LightCurve.py:151-190): the x with Q(a, x) = p, with the
      branches mirrored and a tighter tolerance. */
  function GammaInvC(p: real, a: real, k: Kernels): (r: Result<Extended, MathError>)
    ensures p == 0.0 ==> r == Ok(Finite(0.0))
    ensures p == 1.0 ==> r == Ok(PosInf)
    ensures p < 0.0 || p > 1.0 || (0.0 < p < 1.0 && a <= 0.0) ==> r == Err(DomainError)
    ensures r.Ok? && r.value.PosInf? ==> p == 1.0
  {
    match ScreenInverse(p, a)
    case Some(early) => early
    case None =>
      var gl := k.lgamma(a);
      var x0 := a + 1.0;
      var f0 :- Cfrac(x0, a, k);
      if p < f0 then CfracSearch(k.log(p), a, gl, x0, 0.5 * RelTol, k)
      else SeriesSearch(1.0 - p, a, gl, x0, 0.5 * RelTol, k)
  }

  /** For 0 < p < 1 a successful gammainv is a positive number, provided
      the closed-form seed is positive (as `exp` is). */
  lemma InversePositive(p: real, a: real, k: Kernels)
    requires forall y :: k.exp(y) > 0.0
    requires 0.0 < p < 1.0
    ensures GammaInv(p, a, k).Ok? ==> GammaInv(p, a, k).value.Finite? && GammaInv(p, a, k).value.v > 0.0
  {
    if a > 0.0 {
      var gl := k.lgamma(a);
      SearchesPositive(p, a, gl, a + 1.0, 10.0 * RelTol, k);
      CfracSearchPositive(k.log(1.0 - p), a, gl, a + 1.0, 10.0 * RelTol, k);
    }
  }

  /** The same for gammainvc. */
  lemma InverseCPositive(p: real, a: real, k: Kernels)
    requires forall y :: k.exp(y) > 0.0
    requires 0.0 < p < 1.0
    ensures GammaInvC(p, a, k).Ok? ==> GammaInvC(p, a, k).value.Finite? && GammaInvC(p, a, k).value.v > 0.0
  {
    if a > 0.0 {
      var gl := k.lgamma(a);
      SearchesPositive(1.0 - p, a, gl, a + 1.0, 0.5 * RelTol, k);
      CfracSearchPositive(k.log(p), a, gl, a + 1.0, 0.5 * RelTol, k);
    }
  }

  lemma SearchesPositive(f: real, a: real, gl: real, x0: real, tol: real, k: Kernels)
    requires forall y :: k.exp(y) > 0.0
    requires a > 0.0 && x0 > 0.0
    ensures SeriesSearch(f, a, gl, x0, tol, k).Ok? ==> SeriesSearch(f, a, gl, x0, tol, k).value.Finite? && SeriesSearch(f, a, gl, x0, tol, k).value.v > 0.0
  {
    var seeded := f < 0.75;
    var x1 := if seeded then SmallSeed(f, a, gl, k) else x0;
    assert x1 > 0.0;
  }

  lemma CfracSearchPositive(lf: real, a: real, gl: real, x0: real, tol: real, k: Kernels)
    requires x0 > 0.0
    ensures CfracSearch(lf, a, gl, x0, tol, k).Ok? ==> CfracSearch(lf, a, gl, x0, tol, k).value.Finite? && CfracSearch(lf, a, gl, x0, tol, k).value.v > 0.0
  {
  }

  // ---------------------------------------------------------------------
  // Chi-square wrappers (LightCurve.py:192-206)
  // ---------------------------------------------------------------------

  /** Twice an extended value. */
  function Double(r: Result<Extended, MathError>): Result<Extended, MathError>
  {
    match r
    case Ok(Finite(v)) => Ok(Finite(2.0 * v))
    case Ok(PosInf) => Ok(PosInf)
    case Err(e) => Err(e)
  }

  function Chi2Cdf(x: real, a: real, k: Kernels): (r: Result<real, MathError>)
    ensures x == 0.0 ==> r == Ok(0.0)
    ensures x < 0.0 || (x != 0.0 && a <= 0.0) ==> r == Err(DomainError)
    ensures x > 0.0 && a > 0.0 && x < a + 2.0 ==> r == k.serSum(x / 2.0, a / 2.0)
    ensures x > 0.0 && a > 0.0 && x >= a + 2.0 ==> r == OneMinus(k.cfracSum(x / 2.0, a / 2.0))
  {
    GammaInc(0.5 * x, 0.5 * a, k)
  }

  function Chi2Cdfc(x: real, a: real, k: Kernels): (r: Result<real, MathError>)
    ensures x == 0.0 ==> r == Ok(0.0)
    ensures x < 0.0 || (x != 0.0 && a <= 0.0) ==> r == Err(DomainError)
    ensures x > 0.0 && a > 0.0 && x < a + 2.0 ==> r == OneMinus(k.serSum(x / 2.0, a / 2.0))
    ensures x > 0.0 && a > 0.0 && x >= a + 2.0 ==> r == k.cfracSum(x / 2.0, a / 2.0)
  {
    GammaIncC(0.5 * x, 0.5 * a, k)
  }

  function Chi2Inv(p: real, a: real, k: Kernels): (r: Result<Extended, MathError>)
    ensures r.Ok? <==> GammaInv(p, a / 2.0, k).Ok?
    ensures r.Ok? && r.value.Finite? ==> GammaInv(p, a / 2.0, k).value.Finite? && r.value.v == 2.0 * GammaInv(p, a / 2.0, k).value.v
    ensures p == 0.0 ==> r == Ok(Finite(0.0))
    ensures p == 1.0 ==> r == Ok(PosInf)
    ensures p < 0.0 || p > 1.0 ==> r == Err(DomainError)
    ensures r.Ok? && r.value.PosInf? ==> p == 1.0
  {
    Double(GammaInv(p, 0.5 * a, k))
  }

  function Chi2Invc(p: real, a: real, k: Kernels): (r: Result<Extended, MathError>)
    ensures r.Ok? <==> GammaInvC(p, a / 2.0, k).Ok?
    ensures r.Ok? && r.value.Finite? ==> GammaInvC(p, a / 2.0, k).value.Finite? && r.value.v == 2.0 * GammaInvC(p, a / 2.0, k).value.v
    ensures p == 0.0 ==> r == Ok(Finite(0.0))
    ensures p == 1.0 ==> r == Ok(PosInf)
    ensures p < 0.0 || p > 1.0 ==> r == Err(DomainError)
    ensures r.Ok? && r.value.PosInf? ==> p == 1.0
  {
    Double(GammaInvC(p, 0.5 * a, k))
  }

  /** The chi-square distribution and its complement sum to one for a
      positive statistic and positive degrees of freedom. */
  lemma Chi2Complement(x: real, a: real, k: Kernels)
    requires x > 0.0 && a > 0.0
    ensures Chi2Cdf(x, a, k).Ok? <==> Chi2Cdfc(x, a, k).Ok?
    ensures Chi2Cdf(x, a, k).Ok? ==> Chi2Cdf(x, a, k).value + Chi2Cdfc(x, a, k).value == 1.0
  {
    Complement(x / 2.0, a / 2.0, k);
  }
}
