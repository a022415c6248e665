/** The likelihood evaluations behind the integral upper limit
    (IntegralUpperLimitTest.py): the profile log-likelihood at a trial
    value of the source's normalisation, the cache of nuisance parameters
    that seeds each fit from earlier ones, and the memo of root-finder
    evaluations.

    The likelihood object is a parameter list plus two collaborators the
    model does not define: the optimiser `fit` and the log-likelihood
    value. */
module UpperLimitEval {
  import opened Results

  /** One model parameter: its source, whether the optimiser may move it,
      its value and its bounds. */
  datatype Param = Param(srcName: string, free: bool, value: real, lo: real, hi: real)

  /** `like.fit` either converges or raises RuntimeError; either way it
      leaves the model's parameters as it changed them. */
  datatype FitOutcome = Converged(params: seq<Param>) | Failed(params: seq<Param>)

  /** The likelihood collaborators. */
  datatype Like = Like(fit: seq<Param> -> FitOutcome, logLike: seq<Param> -> real)

  /** RuntimeError from the retried fit; IndexError when a cached point has
      fewer values than there are free parameters; a normalisation index
      outside the model. */
  datatype EvalError = FitFailed | CacheMismatch | NoSuchParameter

  // ---------------------------------------------------------------------
  // Free parameters
  // ---------------------------------------------------------------------

  /** How many parameters are free. */
  function NumFree(ps: seq<Param>): (n: nat)
    ensures n <= |ps|
  {
    if ps == [] then 0 else (if ps[0].free then 1 else 0) + NumFree(ps[1..])
  }

  /** The values of the free parameters, in model order (what
      `_cache_nuisance` stores). */
  function FreeValues(ps: seq<Param>): (r: seq<real>)
    ensures |r| == NumFree(ps)
  {
    if ps == [] then [] else (if ps[0].free then [ps[0].value] else []) + FreeValues(ps[1..])
  }

  /** The position of parameter i among the free ones (`icache`). */
  function FreeRank(ps: seq<Param>, i: nat): (k: nat)
    requires i <= |ps|
    ensures k <= NumFree(ps)
    ensures i < |ps| && ps[i].free ==> k < NumFree(ps)
  {
    if i == 0 then 0 else (if ps[0].free then 1 else 0) + FreeRank(ps[1..], i - 1)
  }

  /** The free value at a free parameter's rank is that parameter's value. */
  lemma {:induction false} FreeValuesAt(ps: seq<Param>, i: nat)
    requires i < |ps| && ps[i].free
    ensures FreeValues(ps)[FreeRank(ps, i)] == ps[i].value
    decreases i
  {
    if i > 0 {
      FreeValuesAt(ps[1..], i - 1);
    }
  }

  /** Two parameter lists with the same free flags rank alike. */
  predicate SameFreedom(ps: seq<Param>, qs: seq<Param>)
  {
    |ps| == |qs| && forall i :: 0 <= i < |ps| ==> ps[i].free == qs[i].free
  }

  lemma {:induction false} SameFreedomRank(ps: seq<Param>, qs: seq<Param>, i: nat)
    requires SameFreedom(ps, qs) && i <= |ps|
    ensures FreeRank(ps, i) == FreeRank(qs, i)
    ensures NumFree(ps) == NumFree(qs)
    decreases |ps|
  {
    if ps != [] {
      assert SameFreedom(ps[1..], qs[1..]) by {
        forall j | 0 <= j < |ps[1..]| ensures ps[1..][j].free == qs[1..][j].free {
          assert ps[1..][j] == ps[j + 1] && qs[1..][j] == qs[j + 1];
        }
      }
      SameFreedomRank(ps[1..], qs[1..], if i == 0 then 0 else i - 1);
      if i > 0 {
        assert ps[0].free == qs[0].free;
      }
    }
  }

  // ---------------------------------------------------------------------
  // Nuisance cache: the dict from trial value to free-parameter values,
  // held in key order (the order `X.sort()` gives)
  // ---------------------------------------------------------------------

  datatype Point = Point(x: real, values: seq<real>)

  type Cache = seq<Point>

  /** Keys strictly increase. */
  predicate Sorted(c: Cache)
  {
    forall i, j :: 0 <= i < j < |c| ==> c[i].x < c[j].x
  }

  function Keys(c: Cache): set<real>
  {
    set i | 0 <= i < |c| :: c[i].x
  }

  /** `cache[x]`, if present. */
  function Lookup(c: Cache, x: real): (r: Option<seq<real>>)
    ensures r.Some? <==> x in Keys(c)
    ensures r.Some? ==> exists i :: 0 <= i < |c| && c[i] == Point(x, r.value)
  {
    if c == [] then None
    else if c[0].x == x then Some(c[0].values)
    else
      var r := Lookup(c[1..], x);
      assert x in Keys(c) <==> x in Keys(c[1..]) by {
        if x in Keys(c) {
          var i :| 0 <= i < |c| && c[i].x == x;
          assert i > 0 && c[1..][i - 1] == c[i];
        }
        if x in Keys(c[1..]) {
          var i :| 0 <= i < |c[1..]| && c[1..][i].x == x;
          assert c[i + 1] == c[1..][i];
        }
      }
      if r.Some? then
        var i :| 0 <= i < |c[1..]| && c[1..][i] == Point(x, r.value);
        assert c[i + 1] == c[1..][i];
        r
      else r
  }

  lemma KeysCons(p: Point, c: Cache)
    ensures Keys([p] + c) == Keys(c) + {p.x}
  {
    var r := [p] + c;
    forall k | k in Keys(r) ensures k in Keys(c) + {p.x} {
      var i :| 0 <= i < |r| && r[i].x == k;
      if i > 0 {
        assert r[i] == c[i - 1];
      }
    }
    forall k | k in Keys(c) + {p.x} ensures k in Keys(r) {
      if k == p.x {
        assert r[0].x == k;
      } else {
        var i :| 0 <= i < |c| && c[i].x == k;
        assert r[i + 1] == c[i];
      }
    }
  }

  /** A consed cache is sorted iff its tail is and the head key is below
      every key of the tail. */
  lemma SortedCons(p: Point, c: Cache)
    ensures Sorted([p] + c) <==> Sorted(c) && forall k :: k in Keys(c) ==> p.x < k
  {
    var r := [p] + c;
    if Sorted(r) {
      forall i, j | 0 <= i < j < |c| ensures c[i].x < c[j].x {
        assert c[i] == r[i + 1] && c[j] == r[j + 1];
      }
      forall k | k in Keys(c) ensures p.x < k {
        var i :| 0 <= i < |c| && c[i].x == k;
        assert r[0] == p && r[i + 1] == c[i];
        assert r[0].x < r[i + 1].x;
      }
    }
    if Sorted(c) && forall k :: k in Keys(c) ==> p.x < k {
      forall i, j | 0 <= i < j < |r| ensures r[i].x < r[j].x {
        assert r[j] == c[j - 1];
        assert c[j - 1].x in Keys(c);
        if i > 0 {
          assert r[i] == c[i - 1];
        }
      }
    }
  }

  /** `cache[x] = values`, keeping the key order. */
  function Insert(c: Cache, x: real, values: seq<real>): (r: Cache)
    ensures |c| <= |r| <= |c| + 1
  {
    if c == [] || x < c[0].x then [Point(x, values)] + c
    else if x == c[0].x then [Point(x, values)] + c[1..]
    else [c[0]] + Insert(c[1..], x, values)
  }

  /** Inserting adds x to the keys and nothing else. */
  lemma {:induction false} InsertKeys(c: Cache, x: real, values: seq<real>)
    ensures Keys(Insert(c, x, values)) == Keys(c) + {x}
    decreases |c|
  {
    var p := Point(x, values);
    if c == [] || x < c[0].x {
      KeysCons(p, c);
    } else {
      assert c == [c[0]] + c[1..];
      KeysCons(c[0], c[1..]);
      if x == c[0].x {
        KeysCons(p, c[1..]);
      } else {
        InsertKeys(c[1..], x, values);
        KeysCons(c[0], Insert(c[1..], x, values));
      }
    }
  }

  /** Inserting keeps the keys strictly increasing. */
  lemma {:induction false} InsertSorted(c: Cache, x: real, values: seq<real>)
    requires Sorted(c)
    ensures Sorted(Insert(c, x, values))
    decreases |c|
  {
    var p := Point(x, values);
    if c == [] {
      SortedCons(p, c);
    } else {
      assert c == [c[0]] + c[1..];
      SortedCons(c[0], c[1..]);
      if x < c[0].x {
        KeysCons(c[0], c[1..]);
        SortedCons(p, c);
      } else if x == c[0].x {
        SortedCons(p, c[1..]);
      } else {
        InsertSorted(c[1..], x, values);
        InsertKeys(c[1..], x, values);
        SortedCons(c[0], Insert(c[1..], x, values));
      }
    }
  }

  /** Looking up a consed cache checks the head first. */
  lemma LookupCons(p: Point, c: Cache)
    requires Sorted([p] + c)
    ensures Sorted(c)
    ensures forall k :: Lookup([p] + c, k) == if k == p.x then Some(p.values) else Lookup(c, k)
  {
    var r := [p] + c;
    assert r[1..] == c;
    assert Sorted(c) by {
      forall i, j | 0 <= i < j < |c| ensures c[i].x < c[j].x {
        assert c[i] == r[i + 1] && c[j] == r[j + 1];
      }
    }
  }

  /** After `cache[x] = values`, x maps to values and every other key
      to what it mapped to before. */
  lemma {:induction false} InsertLookup(c: Cache, x: real, values: seq<real>, k: real)
    requires Sorted(c)
    ensures Lookup(Insert(c, x, values), k) == if k == x then Some(values) else Lookup(c, k)
    decreases |c|
  {
    var p := Point(x, values);
    InsertSorted(c, x, values);
    if c == [] {
      assert Insert(c, x, values) == [p] + c;
      LookupCons(p, c);
    } else if x < c[0].x {
      assert Insert(c, x, values) == [p] + c;
      LookupCons(p, c);
    } else if x == c[0].x {
      assert c == [c[0]] + c[1..];
      LookupCons(c[0], c[1..]);
      assert Insert(c, x, values) == [p] + c[1..];
      LookupCons(p, c[1..]);
    } else {
      assert c == [c[0]] + c[1..];
      LookupCons(c[0], c[1..]);
      var t := Insert(c[1..], x, values);
      assert Insert(c, x, values) == [c[0]] + t;
      LookupCons(c[0], t);
      InsertLookup(c[1..], x, values, k);
    }
  }

  /** `_cache_nuisance`: stores the free values under x. */
  function CacheNuisance(x: real, ps: seq<Param>, c: Cache): (r: Cache)
    requires Sorted(c)
    ensures Sorted(r) && Keys(r) == Keys(c) + {x}
    ensures Lookup(r, x) == Some(FreeValues(ps))
    ensures forall k :: k != x ==> Lookup(r, k) == Lookup(c, k)
  {
    var r := Insert(c, x, FreeValues(ps));
    InsertKeys(c, x, FreeValues(ps));
    InsertSorted(c, x, FreeValues(ps));
    assert forall k :: Lookup(r, k) == if k == x then Some(FreeValues(ps)) else Lookup(c, k) by {
      forall k { InsertLookup(c, x, FreeValues(ps), k); }
    }
    r
  }

  // ---------------------------------------------------------------------
  // Interpolated guess (IntegralUpperLimitTest.py:24-42)
  // ---------------------------------------------------------------------

  /** Every cached point has a value at column j. */
  predicate HasColumn(c: Cache, j: nat)
  {
    forall i :: 0 <= i < |c| ==> j < |c[i].values|
  }

  /** Is x within the cached keys, with at least two of them? */
  predicate InRange(c: Cache, x: real)
  {
    |c| >= 2 && c[0].x <= x <= c[|c| - 1].x
  }

  /** The first segment [c[i].x, c[i+1].x] that reaches x. */
  function Segment(c: Cache, x: real): (i: nat)
    requires Sorted(c) && InRange(c, x)
    ensures i + 1 < |c| && c[i].x <= x <= c[i + 1].x
    ensures forall m :: 1 <= m <= i ==> c[m].x < x
  {
    SegmentFrom(c, x, 0)
  }

  function SegmentFrom(c: Cache, x: real, i: nat): (k: nat)
    requires Sorted(c) && InRange(c, x) && i + 1 < |c| && c[i].x <= x
    requires forall m :: 1 <= m <= i ==> c[m].x < x
    ensures i <= k && k + 1 < |c| && c[k].x <= x <= c[k + 1].x
    ensures forall m :: 1 <= m <= k ==> c[m].x < x
    decreases |c| - i
  {
    if x <= c[i + 1].x then i else SegmentFrom(c, x, i + 1)
  }

  /** `interp1d(X, Y)(x)` for column j: linear between the ends of the
      segment holding x. */
  function Interp(c: Cache, x: real, j: nat): (p: real)
    requires Sorted(c) && InRange(c, x) && HasColumn(c, j)
  {
    var i := Segment(c, x);
    var a := c[i];
    var b := c[i + 1];
    a.values[j] + (b.values[j] - a.values[j]) * ((x - a.x) / (b.x - a.x))
  }

  /** The interpolated value lies between the two ends' values. */
  lemma InterpBetween(c: Cache, x: real, j: nat)
    requires Sorted(c) && InRange(c, x) && HasColumn(c, j)
    ensures var i := Segment(c, x);
            var ya := c[i].values[j];
            var yb := c[i + 1].values[j];
            (ya <= yb ==> ya <= Interp(c, x, j) <= yb) && (yb <= ya ==> yb <= Interp(c, x, j) <= ya)
  {
    var i := Segment(c, x);
    var a := c[i];
    var b := c[i + 1];
    var t := (x - a.x) / (b.x - a.x);
    assert a.x < b.x;
    UnitFraction(x - a.x, b.x - a.x);
    var d := b.values[j] - a.values[j];
    var v := Interp(c, x, j);
    assert v == a.values[j] + d * t;
    ScaleBetween(d, t);
    if d >= 0.0 {
      assert a.values[j] <= v <= b.values[j];
    } else {
      assert b.values[j] <= v <= a.values[j];
    }
  }

  lemma ScaleBetween(d: real, t: real)
    requires 0.0 <= t <= 1.0
    ensures d >= 0.0 ==> 0.0 <= d * t <= d
    ensures d < 0.0 ==> d <= d * t <= 0.0
  {
    assert d - d * t == d * (1.0 - t);
  }

  lemma UnitFraction(n: real, d: real)
    requires 0.0 <= n <= d && d > 0.0
    ensures 0.0 <= n / d <= 1.0
    ensures n == d ==> n / d == 1.0
  {
    assert (n / d) * d == n;
  }

  /** At a cached key the interpolation gives the cached value. */
  lemma InterpAtKey(c: Cache, k: nat, j: nat)
    requires Sorted(c) && |c| >= 2 && k < |c| && HasColumn(c, j)
    ensures InRange(c, c[k].x)
    ensures Interp(c, c[k].x, j) == c[k].values[j]
  {
    var x := c[k].x;
    assert c[0].x <= x <= c[|c| - 1].x;
    var i := Segment(c, x);
    if k == 0 {
      assert i == 0;
    } else {
      assert i == k - 1;
      assert c[i].x < c[i + 1].x;
      UnitFraction(x - c[i].x, c[i + 1].x - c[i].x);
    }
  }

  /** `max(limlo, min(p, limhi))`. */
  function Clamp(p: real, lo: real, hi: real): (r: real)
    ensures lo <= hi ==> lo <= r <= hi
    ensures lo <= p <= hi ==> r == p
  {
    if lo > (if p < hi then p else hi) then lo else (if p < hi then p else hi)
  }

  /** Every cached point holds a value for every free parameter. */
  predicate Covers(c: Cache, ps: seq<Param>)
  {
    forall i :: 0 <= i < |c| ==> NumFree(ps) <= |c[i].values|
  }

  /** `_guess_nuisance`: with at least two cached points around x, every
      free parameter is set to the interpolation of its cached values,
      clamped to its bounds; otherwise nothing changes. */
  function GuessNuisance(x: real, ps: seq<Param>, c: Cache): (r: Result<seq<Param>, EvalError>)
    requires Sorted(c)
    ensures !InRange(c, x) ==> r == Ok(ps)
    ensures InRange(c, x) ==> (r.Ok? <==> Covers(c, ps))
    ensures r.Ok? ==> |r.value| == |ps| && SameFreedom(ps, r.value)
    ensures r.Ok? ==> forall i :: 0 <= i < |ps| && !ps[i].free ==> r.value[i] == ps[i]
  {
    if !InRange(c, x) then Ok(ps)
    else if !Covers(c, ps) then Err(CacheMismatch)
    else Ok(seq(|ps|, i requires 0 <= i < |ps| =>
              if ps[i].free then ps[i].(value := Clamp(Interp(c, x, FreeRank(ps, i)), ps[i].lo, ps[i].hi))
              else ps[i]))
  }

  /** The guess at a free parameter: the interpolation of its column,
      clamped; only the value changes. */
  lemma GuessedValue(x: real, ps: seq<Param>, c: Cache, i: nat)
    requires Sorted(c) && InRange(c, x) && Covers(c, ps) && i < |ps| && ps[i].free
    ensures HasColumn(c, FreeRank(ps, i))
    ensures GuessNuisance(x, ps, c).value[i]
         == ps[i].(value := Clamp(Interp(c, x, FreeRank(ps, i)), ps[i].lo, ps[i].hi))
  {
  }

  /** A guess made at a cached point restores, within bounds, the values
      cached there from a parameter list with the same free parameters. */
  lemma GuessAtCachedPoint(x: real, prev: seq<Param>, ps: seq<Param>, c: Cache, i: nat)
    requires Sorted(c) && |c| >= 2 && Covers(c, ps)
    requires Lookup(c, x) == Some(FreeValues(prev))
    requires SameFreedom(prev, ps) && i < |ps| && ps[i].free
    ensures InRange(c, x)
    ensures GuessNuisance(x, ps, c).Ok?
    ensures GuessNuisance(x, ps, c).value[i].value == Clamp(prev[i].value, ps[i].lo, ps[i].hi)
  {
    var k :| 0 <= k < |c| && c[k] == Point(x, FreeValues(prev));
    var j := FreeRank(ps, i);
    SameFreedomRank(prev, ps, i);
    assert HasColumn(c, j);
    InterpAtKey(c, k, j);
    FreeValuesAt(prev, i);
    GuessedValue(x, ps, c, i);
  }

  // ---------------------------------------------------------------------
  // Profile log-likelihood and root memo (IntegralUpperLimitTest.py:53-109)
  // ---------------------------------------------------------------------

  /** What the evaluations change: the model's parameters, the nuisance
      cache (None when the caller passes none), the root memo, and counts
      of fits and of log-likelihood evaluations. */
  datatype EvalState = EvalState(params: seq<Param>, nuisance: Option<Cache>, roots: map<real, real>, fits: nat, evals: nat)

  predicate Valid(st: EvalState)
  {
    st.nuisance.Some? ==> Sorted(st.nuisance.value)
  }

  /** `par.setFree(0); par.setValue(x)`. */
  function FixAt(ps: seq<Param>, ip: nat, x: real): (r: seq<Param>)
    requires ip < |ps|
    ensures |r| == |ps| && !r[ip].free && r[ip].value == x
    ensures forall i :: 0 <= i < |ps| && i != ip ==> r[i] == ps[i]
  {
    ps[ip := ps[ip].(free := false, value := x)]
  }

  /** The fit with one retry: a RuntimeError from the first fit leads to a
      second fit from where the first left off; a second error propagates.
      Returns the fitted parameters and how many fits ran. */
  function FitWithRetry(ps: seq<Param>, like: Like): (r: Result<(seq<Param>, nat), EvalError>)
    ensures like.fit(ps).Converged? ==> r == Ok((like.fit(ps).params, 1))
    ensures like.fit(ps).Failed? ==>
              r == (match like.fit(like.fit(ps).params)
                    case Converged(q) => Ok((q, 2))
                    case Failed(_) => Err(FitFailed))
  {
    match like.fit(ps)
    case Converged(q) => Ok((q, 1))
    case Failed(q) =>
      match like.fit(q)
      case Converged(q2) => Ok((q2, 2))
      case Failed(_) => Err(FitFailed)
  }

  /** `_loglike(x, ...)`: the log-likelihood minus `offset` with the
      normalisation fixed at x, after refitting the other parameters unless
      `noOptimizer` is set. */
  function LogLike(x: real, st: EvalState, like: Like, ip: nat, offset: real, noOptimizer: bool): (r: Result<(real, EvalState), EvalError>)
    requires Valid(st)
    ensures r.Ok? ==> Valid(r.value.1) && r.value.1.roots == st.roots
    ensures r.Ok? ==> r.value.0 == like.logLike(r.value.1.params) - offset
    ensures r.Ok? ==> r.value.1.evals == st.evals + 1
    ensures ip >= |st.params| <==> r == Err(NoSuchParameter)
    ensures noOptimizer && ip < |st.params| ==>
              r == Ok((like.logLike(FixAt(st.params, ip, x)) - offset,
                       st.(params := FixAt(st.params, ip, x), evals := st.evals + 1)))
  {
    if ip >= |st.params| then Err(NoSuchParameter)
    else
      var fixed := FixAt(st.params, ip, x);
      if noOptimizer then
        Ok((like.logLike(fixed) - offset, st.(params := fixed, evals := st.evals + 1)))
      else
        var guessed :- match st.nuisance
                       case None => Ok(fixed)
                       case Some(c) => GuessNuisance(x, fixed, c);
        var fitted :- FitWithRetry(guessed, like);
        var cache := match st.nuisance
                     case None => None
                     case Some(c) => Some(CacheNuisance(x, fitted.0, c));
        Ok((like.logLike(fitted.0) - offset,
            EvalState(fitted.0, cache, st.roots, st.fits + fitted.1, st.evals + 1)))
  }

  /** Without the optimiser there is no fit and the nuisance cache is
      left alone. */
  lemma NoOptimizerNoFit(x: real, st: EvalState, like: Like, ip: nat, offset: real)
    requires Valid(st) && ip < |st.params|
    ensures LogLike(x, st, like, ip, offset, true).Ok?
    ensures var st2 := LogLike(x, st, like, ip, offset, true).value.1;
            st2.fits == st.fits && st2.nuisance == st.nuisance
  {
  }

  /** With the optimiser, a first fit that fails leads to exactly one
      more, started from the parameters the failed one left and with no
      new guess; the evaluation fails only if that one fails too. */
  lemma RetryOnce(x: real, st: EvalState, like: Like, ip: nat, offset: real)
    requires Valid(st) && ip < |st.params|
    requires var fixed := FixAt(st.params, ip, x);
             st.nuisance.None? || GuessNuisance(x, fixed, st.nuisance.value).Ok?
    ensures var fixed := FixAt(st.params, ip, x);
            var guessed := if st.nuisance.None? then fixed else GuessNuisance(x, fixed, st.nuisance.value).value;
            var r := LogLike(x, st, like, ip, offset, false);
            && (like.fit(guessed).Converged? ==> r.Ok? && r.value.1.fits == st.fits + 1 && r.value.1.params == like.fit(guessed).params)
            && (like.fit(guessed).Failed? ==>
                  (r.Ok? <==> like.fit(like.fit(guessed).params).Converged?)
                  && (r.Ok? ==> r.value.1.fits == st.fits + 2 && r.value.1.params == like.fit(like.fit(guessed).params).params))
  {
  }

  /** After a successful fit the cache holds the fitted free values at x. */
  lemma FitIsCached(x: real, st: EvalState, like: Like, ip: nat, offset: real)
    requires Valid(st) && st.nuisance.Some?
    requires LogLike(x, st, like, ip, offset, false).Ok?
    ensures var st2 := LogLike(x, st, like, ip, offset, false).value.1;
            st2.nuisance.Some? && Lookup(st2.nuisance.value, x) == Some(FreeValues(st2.params))
  {
  }

  /** `_root(x, ...)`: the memoised log-likelihood difference. */
  function Root(x: real, st: EvalState, like: Like, ip: nat, subval: real, noOptimizer: bool): (r: Result<(real, EvalState), EvalError>)
    requires Valid(st)
    ensures x in st.roots ==> r == Ok((st.roots[x], st))
    ensures r.Ok? ==> Valid(r.value.1) && x in r.value.1.roots && r.value.1.roots[x] == r.value.0
    ensures r.Ok? ==> r.value.1.roots.Keys == st.roots.Keys + {x}
    ensures r.Ok? ==> forall k :: k in st.roots ==> r.value.1.roots[k] == st.roots[k]
    ensures x !in st.roots ==> (r.Ok? <==> LogLike(x, st, like, ip, subval, noOptimizer).Ok?)
    ensures x !in st.roots && r.Err? ==> r == Err(LogLike(x, st, like, ip, subval, noOptimizer).error)
    ensures x !in st.roots && r.Ok? ==>
              r.value.0 == like.logLike(r.value.1.params) - subval && r.value.1.evals == st.evals + 1
  {
    if x in st.roots then Ok((st.roots[x], st))
    else
      var (f, st2) :- LogLike(x, st, like, ip, subval, noOptimizer);
      Ok((f, st2.(roots := st2.roots[x := f])))
  }

  /** A second evaluation at the same point returns the stored value and
      changes nothing, in particular makes no log-likelihood evaluation. */
  lemma RootMemoised(x: real, st: EvalState, like: Like, ip: nat, subval: real, noOptimizer: bool)
    requires Valid(st) && Root(x, st, like, ip, subval, noOptimizer).Ok?
    ensures var (f, st2) := Root(x, st, like, ip, subval, noOptimizer).value;
            Root(x, st2, like, ip, subval, noOptimizer) == Ok((f, st2))
  {
  }

  // ---------------------------------------------------------------------
  // Choosing whether to skip the optimiser (IntegralUpperLimitTest.py:218-229)
  // ---------------------------------------------------------------------

  /** With `freeze_all`, every parameter of another source is frozen;
      the source's own parameters, and everything but the free flag, are
      left as they were. */
  function FreezeOthers(ps: seq<Param>, srcName: string): (r: seq<Param>)
    ensures |r| == |ps|
    ensures forall i :: 0 <= i < |ps| ==> r[i] == ps[i].(free := r[i].free)
    ensures forall i :: 0 <= i < |ps| && ps[i].srcName != srcName ==> !r[i].free
    ensures forall i :: 0 <= i < |ps| && ps[i].srcName == srcName ==> r[i] == ps[i]
  {
    seq(|ps|, i requires 0 <= i < |ps| => if ps[i].srcName != srcName then ps[i].(free := false) else ps[i])
  }

  /** The flag as the loop computes it: it starts True and becomes False at
      the first parameter that is not free. */
  function AllFrozenAsWritten(ps: seq<Param>): (r: bool)
  {
    if ps == [] then true
    else if !ps[0].free then false
    else AllFrozenAsWritten(ps[1..])
  }

  /** What the flag computes: True exactly when every parameter is free. */
  lemma {:induction false} AllFrozenAsWrittenMeansAllFree(ps: seq<Param>)
    ensures AllFrozenAsWritten(ps) <==> forall i :: 0 <= i < |ps| ==> ps[i].free
    decreases |ps|
  {
    if ps != [] {
      AllFrozenAsWrittenMeansAllFree(ps[1..]);
      if forall i :: 0 <= i < |ps[1..]| ==> ps[1..][i].free {
        if ps[0].free {
          forall i | 0 <= i < |ps| ensures ps[i].free {
            if i > 0 { assert ps[i] == ps[1..][i - 1]; }
          }
        }
      } else {
        var i :| 0 <= i < |ps[1..]| && !ps[1..][i].free;
        assert ps[i + 1] == ps[1..][i];
      }
    }
  }

  /** The flag as the comment at lines 65-67 describes it: no parameter
      is left for the optimiser once the normalisation (index ip, which
      every evaluation fixes) is set aside. */
  function NoOptimizer(ps: seq<Param>, ip: nat): (r: bool)
    ensures r <==> forall i :: 0 <= i < |ps| && i != ip ==> !ps[i].free
  {
    forall i :: 0 <= i < |ps| && i != ip ==> !ps[i].free
  }

  /** After `freeze_all`, the loop's flag is set only when every parameter
      belongs to the source and is free, while the intended flag is set
      when no parameter of the source other than the normalisation is
      free. */
  lemma {:induction false} FreezeOthersFlags(ps: seq<Param>, srcName: string, ip: nat)
    ensures AllFrozenAsWritten(FreezeOthers(ps, srcName))
            <==> forall i :: 0 <= i < |ps| ==> ps[i].srcName == srcName && ps[i].free
    ensures NoOptimizer(FreezeOthers(ps, srcName), ip)
            <==> forall i :: 0 <= i < |ps| && i != ip && ps[i].srcName == srcName ==> !ps[i].free
  {
    AllFrozenAsWrittenMeansAllFree(FreezeOthers(ps, srcName));
  }

  /** Evaluating with the flag set leaves no free parameter at all: the
      skipped fit would have had nothing to do. */
  lemma NoOptimizerNothingToFit(ps: seq<Param>, ip: nat, x: real)
    requires ip < |ps| && NoOptimizer(ps, ip)
    ensures forall i :: 0 <= i < |ps| ==> !FixAt(ps, ip, x)[i].free
  {
  }

  /** A model whose normalisation and one other parameter are both free:
      the loop sets the flag, so the other parameter is never refitted,
      though the optimiser has work to do. */
  lemma AllFrozenCounterexample()
    ensures var ps := [Param("src", true, 1.0, 0.0, 10.0), Param("src", true, 2.0, 0.0, 10.0)];
            AllFrozenAsWritten(ps) && !NoOptimizer(ps, 0)
  {
    var ps := [Param("src", true, 1.0, 0.0, 10.0), Param("src", true, 2.0, 0.0, 10.0)];
    assert ps[1..][1..] == [];
    assert ps[1].free;
  }

  /** The usual case of `freeze_all`, where only the normalisation is
      free: the loop clears the flag, so the optimiser runs with nothing to
      fit. */
  lemma FreezeAllCounterexample()
    ensures var ps := FreezeOthers([Param("src", true, 1.0, 0.0, 10.0), Param("bkg", true, 2.0, 0.0, 10.0)], "src");
            !AllFrozenAsWritten(ps) && NoOptimizer(ps, 0)
  {
    var ps := FreezeOthers([Param("src", true, 1.0, 0.0, 10.0), Param("bkg", true, 2.0, 0.0, 10.0)], "src");
    assert ps[1] == Param("bkg", false, 2.0, 0.0, 10.0);
    assert ps[1..][0] == ps[1];
  }
}
