/** The steps of `calc` (IntegralUpperLimitTest.py) that follow the global
    fit: the search for the integration bounds, the choice between the
    spline and the trapezoidal re-integration of the likelihood samples,
    and the inversion of either cumulative integral at the requested
    probability.

    Brent's root finder and the spline integral are collaborators the
    model does not define; they are passed in as functions. */
module UpperLimitSearch {
  import opened Results
  import opened UpperLimitEval
  import SpecialFunctions

  /** Evaluation states whose nuisance cache is sorted: the states `_root`
      is called in. */
  type VState = st: EvalState | Valid(st) witness EvalState([], None, map[], 0, 0)

  /** What `_root` needs besides x: the likelihood, the index of the
      normalisation parameter, the target `maxval - delta_log_like_limits`
      and the no-optimiser flag. */
  datatype Ctx = Ctx(like: Like, ip: nat, subval: real, noOptimizer: bool)

  /** An exception from `_root`; `brentq` failing (no sign change, or no
      convergence); a bracket search that ran out of fuel; the division by
      a zero total integral; no cumulative value reaching the requested
      probability (`ilimit` left unbound); the division by a zero-width
      integration range in the spline search. */
  datatype SearchError =
    | EvalFailed(e: EvalError)
    | BrentFailed
    | FuelExhausted
    | ZeroIntegral
    | NoLimitIndex
    | ZeroWidth

  /** `scipy.optimize.brentq(_root, a, b)`, threading the evaluation state
      through the `_root` calls it makes. */
  type Brent = (real, real, VState) -> Result<(real, VState), SearchError>

  /** A root finder that only answers inside the bracket it is given. */
  ghost predicate Brackets(brent: Brent)
  {
    forall a, b, s :: brent(a, b, s).Ok? ==>
      Min(a, b) <= brent(a, b, s).value.0 <= Max(a, b)
  }

  function Min(a: real, b: real): real { if a <= b then a else b }

  function Max(a: real, b: real): real { if a >= b then a else b }

  // ---------------------------------------------------------------------
  // Integration bounds (IntegralUpperLimitTest.py:252-283)
  // ---------------------------------------------------------------------

  /** `_root(x, root_cache, ...)` in a sorted-cache state. */
  function RootAt(ctx: Ctx, x: real, st: VState): (r: Result<(real, VState), SearchError>)
    ensures x in st.roots ==> r == Ok((st.roots[x], st))
    ensures r.Ok? ==> x in r.value.1.roots && r.value.1.roots[x] == r.value.0
    ensures r.Ok? ==> forall k :: k in st.roots ==> k in r.value.1.roots && r.value.1.roots[k] == st.roots[k]
    ensures x !in st.roots ==> (r.Ok? <==> LogLike(x, st, ctx.like, ctx.ip, ctx.subval, ctx.noOptimizer).Ok?)
    ensures x !in st.roots && r.Err? ==>
              r == Err(EvalFailed(LogLike(x, st, ctx.like, ctx.ip, ctx.subval, ctx.noOptimizer).error))
    ensures x !in st.roots && r.Ok? ==>
              r.value.0 == ctx.like.logLike(r.value.1.params) - ctx.subval && r.value.1.evals == st.evals + 1
  {
    match Root(x, st, ctx.like, ctx.ip, ctx.subval, ctx.noOptimizer)
    case Ok(p) => Ok(p)
    case Err(e) => Err(EvalFailed(e))
  }

  /** `while xlo > limlo and _root(xlo) >= 0: xlo *= 0.1`, allowed at most
      `fuel` steps. The search stops either at or below `limlo` or at a
      point whose root value is negative, and it only moves past a point
      whose root value it found non-negative. */
  function DescendLo(ctx: Ctx, x: real, limlo: real, st: VState, fuel: nat): (r: Result<(real, VState), SearchError>)
    ensures r.Ok? ==> r.value.0 <= limlo || (r.value.0 in r.value.1.roots && r.value.1.roots[r.value.0] < 0.0)
    ensures r.Ok? && r.value.0 != x ==> x > limlo && x in r.value.1.roots && r.value.1.roots[x] >= 0.0
    ensures r.Ok? && x >= 0.0 ==> 0.0 <= r.value.0 <= x
    ensures r.Ok? ==> forall k :: k in st.roots ==> k in r.value.1.roots && r.value.1.roots[k] == st.roots[k]
    ensures x <= limlo ==> r == Ok((x, st))
    decreases fuel
  {
    if x <= limlo then Ok((x, st))
    else
      var step :- RootAt(ctx, x, st);
      var f, st2 := step.0, step.1;
      if f < 0.0 then Ok((x, st2))
      else if fuel == 0 then Err(FuelExhausted)
      else DescendLo(ctx, x * 0.1, limlo, st2, fuel - 1)
  }

  /** `while xhi < limhi and _root(xhi) >= 0: xhi *= 10.0`, allowed at
      most `fuel` steps; the mirror image of `DescendLo`. */
  function AscendHi(ctx: Ctx, x: real, limhi: real, st: VState, fuel: nat): (r: Result<(real, VState), SearchError>)
    ensures r.Ok? ==> r.value.0 >= limhi || (r.value.0 in r.value.1.roots && r.value.1.roots[r.value.0] < 0.0)
    ensures r.Ok? && r.value.0 != x ==> x < limhi && x in r.value.1.roots && r.value.1.roots[x] >= 0.0
    ensures r.Ok? && x >= 0.0 ==> x <= r.value.0
    ensures r.Ok? ==> forall k :: k in st.roots ==> k in r.value.1.roots && r.value.1.roots[k] == st.roots[k]
    ensures x >= limhi ==> r == Ok((x, st))
    decreases fuel
  {
    if x >= limhi then Ok((x, st))
    else
      var step :- RootAt(ctx, x, st);
      var f, st2 := step.0, step.1;
      if f < 0.0 then Ok((x, st2))
      else if fuel == 0 then Err(FuelExhausted)
      else AscendHi(ctx, x * 10.0, limhi, st2, fuel - 1)
  }

  /** `if xlo < limlo: xlo = limlo`, then Brent between xlo and fitval
      unless the clipped bound already has a non-negative root value. */
  function RefineLo(ctx: Ctx, x: real, limlo: real, fitval: real, st: VState, brent: Brent): (r: Result<(real, VState), SearchError>)
    ensures x > limlo ==> r == brent(x, fitval, st)
    ensures x <= limlo && RootAt(ctx, limlo, st).Ok? && RootAt(ctx, limlo, st).value.0 >= 0.0 ==>
              r == Ok((limlo, RootAt(ctx, limlo, st).value.1))
    ensures Brackets(brent) && limlo <= fitval && r.Ok? ==> limlo <= r.value.0
  {
    var xc := if x < limlo then limlo else x;
    if xc > limlo then brent(xc, fitval, st)
    else
      var step :- RootAt(ctx, xc, st);
      var f, st2 := step.0, step.1;
      if f < 0.0 then brent(xc, fitval, st2) else Ok((xc, st2))
  }

  /** `if xhi > limhi: xhi = limhi`, then Brent between fitval and xhi
      unless the clipped bound already has a non-negative root value. */
  function RefineHi(ctx: Ctx, x: real, limhi: real, fitval: real, st: VState, brent: Brent): (r: Result<(real, VState), SearchError>)
    ensures x < limhi ==> r == brent(fitval, x, st)
    ensures x >= limhi && RootAt(ctx, limhi, st).Ok? && RootAt(ctx, limhi, st).value.0 >= 0.0 ==>
              r == Ok((limhi, RootAt(ctx, limhi, st).value.1))
    ensures Brackets(brent) && fitval <= limhi && r.Ok? ==> r.value.0 <= limhi
  {
    var xc := if x > limhi then limhi else x;
    if xc < limhi then brent(fitval, xc, st)
    else
      var step :- RootAt(ctx, xc, st);
      var f, st2 := step.0, step.1;
      if f < 0.0 then brent(fitval, xc, st2) else Ok((xc, st2))
  }

  /** Where the descent for the lower bound starts: a decade below the
      fitted value, or a 1e-4 fraction of the parameter range below it. */
  function StartLo(fitval: real, limlo: real, limhi: real): real
  {
    Min(fitval * 0.1, fitval - (limhi - limlo) * 0.0001)
  }

  /** Where the ascent for the upper bound starts. */
  function StartHi(fitval: real, limlo: real, limhi: real): real
  {
    Max(fitval * 10.0, fitval + (limhi - limlo) * 0.0001)
  }

  /** The lower and then the upper integration bound. Within the
      parameter's bounds whenever Brent stays inside its bracket, and on
      either side of a non-negative fitted value. */
  function Bounds(ctx: Ctx, fitval: real, limlo: real, limhi: real, st: VState, brent: Brent, fuel: nat): (r: Result<(real, real, VState), SearchError>)
    ensures Brackets(brent) && limlo <= fitval <= limhi && r.Ok? ==> limlo <= r.value.0 && r.value.1 <= limhi
    ensures Brackets(brent) && 0.0 <= limlo <= fitval <= limhi && r.Ok? ==> r.value.0 <= fitval <= r.value.1
  {
    var descent :- DescendLo(ctx, StartLo(fitval, limlo, limhi), limlo, st, fuel);
    var lo1, st1 := descent.0, descent.1;
    var lower :- RefineLo(ctx, lo1, limlo, fitval, st1, brent);
    var lo, st2 := lower.0, lower.1;
    var ascent :- AscendHi(ctx, StartHi(fitval, limlo, limhi), limhi, st2, fuel);
    var hi1, st3 := ascent.0, ascent.1;
    var upper :- RefineHi(ctx, hi1, limhi, fitval, st3, brent);
    var hi, st4 := upper.0, upper.1;
    Ok((lo, hi, st4))
  }

  /** When the descent is clipped to `limlo` and `limlo` itself has a
      non-negative root value, no refinement happens: the lower bound
      Bounds returns is `limlo`. */
  lemma ClippedLowerBound(ctx: Ctx, fitval: real, limlo: real, limhi: real, st: VState, brent: Brent, fuel: nat)
    requires DescendLo(ctx, StartLo(fitval, limlo, limhi), limlo, st, fuel).Ok?
    requires var (x1, st1) := DescendLo(ctx, StartLo(fitval, limlo, limhi), limlo, st, fuel).value;
             x1 <= limlo && RootAt(ctx, limlo, st1).Ok? && RootAt(ctx, limlo, st1).value.0 >= 0.0
    ensures Bounds(ctx, fitval, limlo, limhi, st, brent, fuel).Ok? ==>
              Bounds(ctx, fitval, limlo, limhi, st, brent, fuel).value.0 == limlo
  {
  }

  // ---------------------------------------------------------------------
  // Spline or trapezoid (IntegralUpperLimitTest.py:352-356, 374-378)
  // ---------------------------------------------------------------------

  /** The spline integral is used only when it is strictly closer to the
      adaptive quadrature than the trapezoidal one. */
  predicate UseSpline(splIval: real, trapzIval: real, quadIval: real)
  {
    SpecialFunctions.Abs(splIval - quadIval) < SpecialFunctions.Abs(trapzIval - quadIval)
  }

  // ---------------------------------------------------------------------
  // Trapezoidal cumulative integral (IntegralUpperLimitTest.py:381-401)
  // ---------------------------------------------------------------------

  /** Area of the trapezoid over [xs[i], xs[i+1]]. */
  function Panel(xs: seq<real>, ys: seq<real>, i: nat): real
    requires i + 1 < |xs| && |ys| == |xs|
  {
    0.5 * (ys[i + 1] + ys[i]) * (xs[i + 1] - xs[i])
  }

  /** The trapezoidal integral over the first n panels. */
  function Cum(xs: seq<real>, ys: seq<real>, n: nat): real
    requires n < |xs| && |ys| == |xs|
  {
    if n == 0 then 0.0 else Cum(xs, ys, n - 1) + Panel(xs, ys, n - 1)
  }

  /** `scipy.integrate.trapz(y, x)`: zero for fewer than two samples. */
  function Trapz(xs: seq<real>, ys: seq<real>): real
    requires |ys| == |xs|
  {
    if |xs| == 0 then 0.0 else Cum(xs, ys, |xs| - 1)
  }

  /** The normalised cumulative integral `Cint[i] / cint`. */
  function Cdf(xs: seq<real>, ys: seq<real>): (cdf: seq<real>)
    requires |ys| == |xs| && Trapz(xs, ys) != 0.0
    ensures |cdf| == |xs|
  {
    seq(|xs|, i requires 0 <= i < |xs| => Cum(xs, ys, i) / Trapz(xs, ys))
  }

  predicate Increasing(xs: seq<real>)
  {
    forall i, j :: 0 <= i < j < |xs| ==> xs[i] < xs[j]
  }

  predicate NonNegative(ys: seq<real>)
  {
    forall i :: 0 <= i < |ys| ==> ys[i] >= 0.0
  }

  /** The running sum `Cint` of the trapezoid areas, starting at 0. */
  method Cumulative(xs: seq<real>, ys: seq<real>) returns (cint: seq<real>)
    requires |xs| == |ys| && |xs| >= 1
    ensures |cint| == |xs|
    ensures forall i :: 0 <= i < |xs| ==> cint[i] == Cum(xs, ys, i)
  {
    var c := 0.0;
    cint := [0.0];
    var i := 0;
    while i < |xs| - 1
      invariant 0 <= i < |xs|
      invariant |cint| == i + 1
      invariant c == Cum(xs, ys, i)
      invariant forall k :: 0 <= k <= i ==> cint[k] == Cum(xs, ys, k)
    {
      c := c + 0.5 * (ys[i + 1] + ys[i]) * (xs[i + 1] - xs[i]);
      cint := cint + [c];
      i := i + 1;
    }
  }

  /** With non-negative samples on increasing abscissae the cumulative
      integral never decreases. */
  lemma {:induction false} CumMonotone(xs: seq<real>, ys: seq<real>, i: nat, j: nat)
    requires |ys| == |xs| && Increasing(xs) && NonNegative(ys)
    requires i <= j < |xs|
    ensures Cum(xs, ys, i) <= Cum(xs, ys, j)
    decreases j
  {
    if i < j {
      CumMonotone(xs, ys, i, j - 1);
      PanelNonNegative(xs, ys, j - 1);
    }
  }

  lemma PanelNonNegative(xs: seq<real>, ys: seq<real>, i: nat)
    requires |ys| == |xs| && Increasing(xs) && NonNegative(ys) && i + 1 < |xs|
    ensures Panel(xs, ys, i) >= 0.0
  {
    var h := 0.5 * (ys[i + 1] + ys[i]);
    var w := xs[i + 1] - xs[i];
    assert h >= 0.0 && w > 0.0;
    assert h * w >= 0.0;
  }

  /** The normalised cumulative integral starts at 0 and ends at 1. */
  lemma CdfEnds(xs: seq<real>, ys: seq<real>)
    requires |ys| == |xs| && Trapz(xs, ys) != 0.0
    ensures |xs| >= 2
    ensures Cdf(xs, ys)[0] == 0.0 && Cdf(xs, ys)[|xs| - 1] == 1.0
  {
    var t := Trapz(xs, ys);
    assert Cdf(xs, ys)[|xs| - 1] == t / t;
  }

  /** On non-negative samples it also never decreases. */
  lemma CdfMonotone(xs: seq<real>, ys: seq<real>)
    requires |ys| == |xs| && Increasing(xs) && NonNegative(ys) && Trapz(xs, ys) != 0.0
    ensures forall i, j :: 0 <= i <= j < |xs| ==> Cdf(xs, ys)[i] <= Cdf(xs, ys)[j]
  {
    var t := Trapz(xs, ys);
    CumMonotone(xs, ys, 0, |xs| - 1);
    assert t > 0.0;
    forall i, j | 0 <= i <= j < |xs| ensures Cdf(xs, ys)[i] <= Cdf(xs, ys)[j] {
      CumMonotone(xs, ys, i, j);
      DivideMonotone(Cum(xs, ys, i), Cum(xs, ys, j), t);
    }
  }

  lemma DivideMonotone(a: real, b: real, t: real)
    requires a <= b && t > 0.0
    ensures a / t <= b / t
  {
    assert b / t - a / t == (b - a) / t;
  }

  /** No entry of `cdf` before index n reaches `ul`. */
  predicate AllBelow(cdf: seq<real>, ul: real, n: nat)
    requires n <= |cdf|
  {
    forall k :: 0 <= k < n ==> cdf[k] < ul
  }

  /** The first index from `from` on whose cumulative probability reaches
      `ul`, as the `for i in range(len(x))` loop finds it. */
  function FirstAtLeast(cdf: seq<real>, ul: real, from: nat): (r: Option<nat>)
    requires from <= |cdf|
    ensures r.Some? ==> from <= r.value < |cdf| && cdf[r.value] >= ul
    ensures r.Some? ==> forall k :: from <= k < r.value ==> cdf[k] < ul
    ensures r.None? <==> forall k :: from <= k < |cdf| ==> cdf[k] < ul
    decreases |cdf| - from
  {
    if from == |cdf| then None
    else if cdf[from] >= ul then Some(from)
    else FirstAtLeast(cdf, ul, from + 1)
  }

  /** The abscissa where the line through (x1, y1) and (x2, y2) reaches
      `ul`. */
  function Crossing(x1: real, y1: real, x2: real, y2: real, ul: real): real
    requires y2 != y1
  {
    (ul - y1) / (y2 - y1) * (x2 - x1) + x1
  }

  /** Reached from below within the segment, the crossing lies between
      its ends. */
  lemma CrossingBetween(x1: real, y1: real, x2: real, y2: real, ul: real)
    requires y1 < ul <= y2 && x1 <= x2
    ensures x1 <= Crossing(x1, y1, x2, y2, ul) <= x2
  {
    var t := (ul - y1) / (y2 - y1);
    UnitFraction(ul - y1, y2 - y1);
    ScaleBetween(x2 - x1, t);
  }

  /** The crossing is on the line it is drawn through: reading the line
      back at the crossing gives `ul`, and a vertical segment crosses at
      its own abscissa. */
  lemma CrossingOnLine(x1: real, y1: real, x2: real, y2: real, ul: real)
    requires y2 != y1
    ensures OnLine(x1, y1, x2, y2, ul, Crossing(x1, y1, x2, y2, ul))
  {
    var t := (ul - y1) / (y2 - y1);
    assert t * (y2 - y1) == ul - y1;
    if x2 != x1 {
      assert Crossing(x1, y1, x2, y2, ul) - x1 == t * (x2 - x1);
      assert (t * (x2 - x1)) / (x2 - x1) == t;
    }
  }

  /** `x` is where the line through (x1, y1) and (x2, y2) takes the value
      `ul`, read back by linear interpolation; on a vertical segment, `x`
      is its abscissa. */
  predicate OnLine(x1: real, y1: real, x2: real, y2: real, ul: real, x: real)
  {
    && (x2 != x1 ==> y1 + (x - x1) / (x2 - x1) * (y2 - y1) == ul)
    && (x2 == x1 ==> x == x1)
  }

  /** `x` is where the chord from the sample before the first one reaching
      `ul` (the last sample when that is the first) to that sample reaches
      `ul`. */
  ghost predicate OnChord(xs: seq<real>, cdf: seq<real>, ul: real, x: real)
    requires |cdf| == |xs|
  {
    exists i {:trigger AllBelow(cdf, ul, i)} :: 0 <= i < |xs| && ul <= cdf[i] && AllBelow(cdf, ul, i) &&
      var j := if i == 0 then |xs| - 1 else i - 1;
      cdf[j] != cdf[i] && OnLine(xs[j], cdf[j], xs[i], cdf[i], ul, x)
  }

  /** The crossing drawn at the first sample reaching `ul` is on its chord. */
  lemma ChordAt(xs: seq<real>, cdf: seq<real>, ul: real, i: nat)
    requires |cdf| == |xs| && i < |xs| && ul <= cdf[i] && AllBelow(cdf, ul, i)
    requires i == 0 ==> cdf[|xs| - 1] != cdf[0]
    ensures var j := if i == 0 then |xs| - 1 else i - 1;
            cdf[j] != cdf[i] && OnChord(xs, cdf, ul, Crossing(xs[j], cdf[j], xs[i], cdf[i], ul))
  {
    var j := if i == 0 then |xs| - 1 else i - 1;
    assert cdf[j] != cdf[i];
    CrossingOnLine(xs[j], cdf[j], xs[i], cdf[i], ul);
  }

  /** `x` lies in the panel [xs[i-1], xs[i]] ending at the first sample
      whose cumulative probability reaches `ul`. */
  ghost predicate Crossed(xs: seq<real>, cdf: seq<real>, ul: real, x: real)
    requires |cdf| == |xs|
  {
    exists i {:trigger AllBelow(cdf, ul, i)} :: 1 <= i < |xs| && xs[i - 1] <= x <= xs[i] &&
      cdf[i - 1] < ul <= cdf[i] && AllBelow(cdf, ul, i)
  }

  /** On increasing abscissae the crossing drawn at the first sample
      reaching `ul` lies in the panel that ends there. */
  lemma PanelCrossed(xs: seq<real>, cdf: seq<real>, ul: real, i: nat)
    requires |cdf| == |xs| && 1 <= i < |xs| && cdf[i - 1] < ul <= cdf[i] && AllBelow(cdf, ul, i)
    requires Increasing(xs)
    ensures Crossed(xs, cdf, ul, Crossing(xs[i - 1], cdf[i - 1], xs[i], cdf[i], ul))
  {
    CrossingBetween(xs[i - 1], cdf[i - 1], xs[i], cdf[i], ul);
  }

  /** The chord from the last sample (at probability 1) back to the first
      (at probability 0). */
  lemma WrapAround(xlast: real, xfirst: real, ul: real)
    ensures Crossing(xlast, 1.0, xfirst, 0.0, ul) == xlast + (1.0 - ul) * (xfirst - xlast)
  {
    assert (ul - 1.0) / (0.0 - 1.0) == 1.0 - ul;
  }

  /** When the first sample already reaches `ul`, the limit is read off the
      chord from the last sample back to the first. */
  lemma WrapLimit(xs: seq<real>, cdf: seq<real>, ul: real)
    requires |cdf| == |xs| >= 2 && cdf[0] == 0.0 && cdf[|xs| - 1] == 1.0 && ul <= 0.0
    ensures var last := |xs| - 1;
            var x := Crossing(xs[last], cdf[last], xs[0], cdf[0], ul);
            x == xs[last] + (1.0 - ul) * (xs[0] - xs[last]) && OnChord(xs, cdf, ul, x)
  {
    WrapAround(xs[|xs| - 1], xs[0], ul);
    ChordAt(xs, cdf, ul, 0);
  }

  /** Otherwise it is read off the chord of the panel ending at the first
      sample that reaches `ul`. */
  lemma PanelLimit(xs: seq<real>, cdf: seq<real>, ul: real, i: nat)
    requires |cdf| == |xs| && 1 <= i < |xs| && ul <= cdf[i] && AllBelow(cdf, ul, i)
    ensures cdf[i - 1] < ul
    ensures var x := Crossing(xs[i - 1], cdf[i - 1], xs[i], cdf[i], ul);
            OnChord(xs, cdf, ul, x) && (ul > 0.0 && Increasing(xs) ==> Crossed(xs, cdf, ul, x))
  {
    ChordAt(xs, cdf, ul, i);
    if ul > 0.0 && Increasing(xs) {
      PanelCrossed(xs, cdf, ul, i);
    }
  }

  /** Finding `ilimit` and interpolating linearly between `ilimit - 1` and
      `ilimit` on a distribution running from 0 to 1. Python's
      `x[ilimit - 1]` reads the last sample when `ilimit` is 0. */
  function InvertCdf(xs: seq<real>, cdf: seq<real>, ul: real): (r: Result<real, SearchError>)
    requires |cdf| == |xs| >= 2 && cdf[0] == 0.0 && cdf[|xs| - 1] == 1.0
    ensures r == Err(NoLimitIndex) <==> AllBelow(cdf, ul, |xs|)
    ensures r.Ok? || r == Err(NoLimitIndex)
    ensures ul <= 1.0 ==> r.Ok?
    ensures r.Ok? && ul > 0.0 && Increasing(xs) ==> Crossed(xs, cdf, ul, r.value)
    ensures r.Ok? && ul <= 0.0 ==> r.value == xs[|xs| - 1] + (1.0 - ul) * (xs[0] - xs[|xs| - 1])
    ensures r.Ok? ==> OnChord(xs, cdf, ul, r.value)
  {
    match FirstAtLeast(cdf, ul, 0)
    case None => Err(NoLimitIndex)
    case Some(i) =>
      if i == 0 then
        var last := |xs| - 1;
        WrapLimit(xs, cdf, ul);
        Ok(Crossing(xs[last], cdf[last], xs[0], cdf[0], ul))
      else
        PanelLimit(xs, cdf, ul, i);
        Ok(Crossing(xs[i - 1], cdf[i - 1], xs[i], cdf[i], ul))
  }

  /** The trapezoidal upper limit, defined on the cumulative integral
      `Cum`: no limit when the total integral is zero, otherwise the
      inversion of the normalised integral at `ul`. */
  function InvertTrapz(xs: seq<real>, ys: seq<real>, ul: real): (r: Result<real, SearchError>)
    requires |ys| == |xs|
    ensures r == Err(ZeroIntegral) <==> Trapz(xs, ys) == 0.0
    ensures r.Err? && Trapz(xs, ys) != 0.0 ==> r == Err(NoLimitIndex) && AllBelow(Cdf(xs, ys), ul, |xs|)
    ensures Trapz(xs, ys) != 0.0 && ul <= 1.0 ==> r.Ok?
    ensures r.Ok? && ul > 0.0 && Increasing(xs) ==> Crossed(xs, Cdf(xs, ys), ul, r.value)
    ensures r.Ok? ==> OnChord(xs, Cdf(xs, ys), ul, r.value)
  {
    if Trapz(xs, ys) == 0.0 then Err(ZeroIntegral)
    else
      CdfEnds(xs, ys);
      InvertCdf(xs, Cdf(xs, ys), ul)
  }

  /** The trapezoidal upper limit as computed: the running sums of the
      trapezoids, divided by the last one, and inverted at `ul`. */
  method TrapezoidLimit(xs: seq<real>, ys: seq<real>, ul: real) returns (r: Result<real, SearchError>)
    requires |ys| == |xs|
    ensures r == InvertTrapz(xs, ys, ul)
  {
    if |xs| == 0 {
      return Err(ZeroIntegral);
    }
    var cint := Cumulative(xs, ys);
    var total := cint[|cint| - 1];
    if total == 0.0 {
      return Err(ZeroIntegral);
    }
    var cdf := seq(|cint|, i requires 0 <= i < |cint| => cint[i] / total);
    assert cdf == Cdf(xs, ys);
    CdfEnds(xs, ys);
    r := InvertCdf(xs, cdf, ul);
  }

  // ---------------------------------------------------------------------
  // Halving search on the spline integral (IntegralUpperLimitTest.py:357-373)
  // ---------------------------------------------------------------------

  function Pow2(k: nat): (p: nat)
    ensures p >= 1
  {
    if k == 0 then 1 else 2 * Pow2(k - 1)
  }

  lemma {:induction false} Pow2Monotone(a: nat, b: nat)
    requires a <= b
    ensures Pow2(a) <= Pow2(b)
    decreases b
  {
    if a < b {
      Pow2Monotone(a, b - 1);
    }
  }

  lemma Pow2At27()
    ensures Pow2(26) == 67108864 && Pow2(27) == 134217728
  {
    assert Pow2(13) == 8192;
  }

  /** `w` halved k times. */
  function Shrink(w: real, k: nat): real
  {
    if k == 0 then w else 0.5 * Shrink(w, k - 1)
  }

  /** Halving k times divides by 2^k and keeps the sign. */
  lemma {:induction false} ShrinkTimes(w: real, k: nat)
    ensures Shrink(w, k) * (Pow2(k) as real) == w
    ensures w > 0.0 ==> Shrink(w, k) > 0.0
    ensures w < 0.0 ==> Shrink(w, k) < 0.0
  {
    if k > 0 {
      ShrinkTimes(w, k - 1);
      var a := Shrink(w, k - 1);
      var q := Pow2(k - 1) as real;
      assert Shrink(w, k) == 0.5 * a;
      assert Pow2(k) as real == 2.0 * q;
      assert (0.5 * a) * (2.0 * q) == a * q;
    }
  }

  /** The loop ratio `xdelta / (xhi - xlo)` after k halvings is 2^-k, and
      the loop test `ratio > 1e-8` passes exactly while k <= 26. */
  lemma ShrinkRatio(w: real, k: nat)
    requires w != 0.0
    ensures w > 0.0 ==> Shrink(w, k) > 0.0
    ensures w < 0.0 ==> Shrink(w, k) < 0.0
    ensures Shrink(w, k) / w > 0.00000001 <==> k <= 26
  {
    ShrinkTimes(w, k);
    Ratio(Shrink(w, k), w, Pow2(k) as real);
    RatioTest(k);
  }

  lemma FinalHalfWidth(w: real)
    requires w != 0.0
    ensures Shrink(w, 27) == w / 134217728.0
  {
    ShrinkTimes(w, 27);
    Pow2At27();
    assert Shrink(w, 27) * 134217728.0 == w;
  }

  /** `xdelta / (xhi - xlo)` when `xdelta * d == xhi - xlo`. */
  lemma Ratio(xdelta: real, w: real, d: real)
    requires w != 0.0 && d > 0.0 && xdelta * d == w
    ensures xdelta / w == 1.0 / d
  {
    assert xdelta == w / d;
  }

  /** Reciprocals reverse the order of positive reals. */
  lemma NegativeTimesPositive(a: real, b: real)
    requires b > 0.0
    ensures a < 0.0 ==> a * b < 0.0
  {
  }

  lemma ReciprocalAntitone(p: real, q: real)
    requires 0.0 < p <= q
    ensures 1.0 / q <= 1.0 / p
  {
    var d := 1.0 / p - 1.0 / q;
    assert d * (p * q) == q - p by {
      assert (1.0 / p) * p == 1.0 && (1.0 / q) * q == 1.0;
      assert d * (p * q) == ((1.0 / p) * p) * q - ((1.0 / q) * q) * p;
    }
    NegativeTimesPositive(d, p * q);
  }

  /** The loop test `xdelta / (xhi - xlo) > 1e-8` holds exactly while
      fewer than 27 halvings have been made. */
  lemma RatioTest(k: nat)
    ensures 1.0 / (Pow2(k) as real) > 0.00000001 <==> k <= 26
  {
    Pow2At27();
    var p := Pow2(k) as real;
    if k <= 26 {
      Pow2Monotone(k, 26);
      assert 1.0 <= p <= 67108864.0;
      ReciprocalAntitone(p, 67108864.0);
    } else {
      Pow2Monotone(27, k);
      assert p >= 134217728.0;
      ReciprocalAntitone(134217728.0, p);
    }
  }

  /** `x` is within `d` of a crossing of `yseek`: the integral at `x - d`
      has not passed it (or `x - d` is the start), and the integral at
      `x + d` has (or `x + d` is the end). */
  ghost predicate SplineBracketed(xlo: real, xhi: real, yseek: real, splint: real -> real, x: real, d: real)
  {
    (x - d == xlo || splint(x - d) <= yseek) && (x + d == xhi || splint(x + d) > yseek)
  }

  /** The halving search for `splint(xlo, x) == yseek`: it stops after 26
      halvings, within 2^-27 of the range of a crossing, strictly inside
      the range. `splint(x)` stands for `splint(xlo, x, spl_rep)`. */
  method SplineSearch(xlo: real, xhi: real, yseek: real, splint: real -> real) returns (r: Result<real, SearchError>)
    ensures r == Err(ZeroWidth) <==> xhi == xlo
    ensures r.Ok? ==> SplineBracketed(xlo, xhi, yseek, splint, r.value, (xhi - xlo) / 134217728.0)
    ensures r.Ok? && xlo < xhi ==> xlo < r.value < xhi
    ensures r.Ok? && xhi < xlo ==> xhi < r.value < xlo
  {
    var w := xhi - xlo;
    if w == 0.0 {
      return Err(ZeroWidth);
    }
    var xdelta := 0.5 * w;
    var xlim := xlo + xdelta;
    var ylim := splint(xlim);
    var k: nat := 1;
    while xdelta / w > 0.00000001
      invariant 1 <= k <= 27
      invariant xdelta == Shrink(w, k)
      invariant ylim == splint(xlim)
      invariant SplineBracketed(xlo, xhi, yseek, splint, xlim, xdelta)
      invariant w > 0.0 ==> xdelta > 0.0 && xlo <= xlim - xdelta && xlim + xdelta <= xhi
      invariant w < 0.0 ==> xdelta < 0.0 && xhi <= xlim + xdelta && xlim - xdelta <= xlo
      decreases 27 - k
    {
      ShrinkRatio(w, k);
      xdelta := xdelta * 0.5;
      if ylim > yseek {
        xlim := xlim - xdelta;
      } else {
        xlim := xlim + xdelta;
      }
      ylim := splint(xlim);
      k := k + 1;
      ShrinkRatio(w, k);
    }
    ShrinkRatio(w, k);
    FinalHalfWidth(w);
    return Ok(xlim);
  }

  // ---------------------------------------------------------------------
  // The upper limit (IntegralUpperLimitTest.py:352-403)
  // ---------------------------------------------------------------------

  /** The upper limit from the samples `(xs, ys)` the quadrature made:
      by the spline search when the spline integral is strictly closer to
      the quadrature than the trapezoidal one, by the trapezoidal
      inversion otherwise (ties included). */
  method UpperLimit(xs: seq<real>, ys: seq<real>, ul: real, quadIval: real, splIval: real,
                    splint: real -> real, xlo: real, xhi: real) returns (r: Result<real, SearchError>)
    requires |ys| == |xs|
    ensures UseSpline(splIval, Trapz(xs, ys), quadIval) ==>
              (r == Err(ZeroWidth) <==> xhi == xlo) &&
              (r.Ok? ==> SplineBracketed(xlo, xhi, ul * splIval, splint, r.value, (xhi - xlo) / 134217728.0))
    ensures !UseSpline(splIval, Trapz(xs, ys), quadIval) ==>
              (r == Err(ZeroIntegral) <==> Trapz(xs, ys) == 0.0) &&
              (r.Ok? && ul > 0.0 && Increasing(xs) ==> Trapz(xs, ys) != 0.0 && Crossed(xs, Cdf(xs, ys), ul, r.value))
  {
    if UseSpline(splIval, Trapz(xs, ys), quadIval) {
      r := SplineSearch(xlo, xhi, ul * splIval, splint);
    } else {
      r := TrapezoidLimit(xs, ys, ul);
    }
  }
}
