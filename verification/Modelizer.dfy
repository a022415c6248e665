/** The source-selection pipeline of the `modelizer` command-line tool
    and the small helpers it uses while reading its options.

    A manipulation carries a list of filters. `filterSources` starts from
    every source of the library and applies the filters strictly left to
    right, each mapping the current list to the next. */
module Modelizer {
  import opened Results
  import opened Seqs
  import opened SourceLibrary

  /** The centre of a region filter: given coordinates (`--roi`) or the
      position of a named source looked up before the run (`--srcroi`). */
  datatype RoiCenter = At(ra: real, dec: real) | AroundSource(name: string)

  /** One entry of a manipulation's filter list (`f['type']`). */
  datatype Filter =
    | ByName(names: seq<string>, noregex: bool)
    | Exclude(names: seq<string>, noregex: bool)
    | Roi(center: RoiCenter, ro: real, ri: real)
    | Diffuse
    | Point
    | Frozen
    | Invert
    | Limited

  /** Tolerance `filterSources` gives the spectrum-limits test. */
  const LimitedTolerance: real := 0.001

  /** The collaborators the pipeline calls but the model does not define:
      the regular-expression engine, the angular region test
      `isInROI(ra, dec, ra1, dec1, ro, ri)` applied to a source's
      coordinates, and the spectrum-limits test with its tolerance. */
  datatype Oracles = Oracles(
    rx: FullMatch,
    inRoi: (real, real, real, real, Source) -> bool,
    atLimits: (Source, real) -> bool)

  /** Coordinates of the sources named by `--srcroi`, found before any
      manipulation runs. */
  type Lookup = map<string, (real, real)>

  /** A filter that names a source the lookup table lacks raises KeyError. */
  datatype FilterError = UnknownSource(name: string)

  /** The region test centred on (ra, dec). */
  function InRoiAt(o: Oracles, ra: real, dec: real, ro: real, ri: real): Source -> bool
  {
    (s: Source) => o.inRoi(ra, dec, ro, ri, s)
  }

  /** The coordinates a region filter is centred on. */
  function Center(c: RoiCenter, lookup: Lookup): (r: Result<(real, real), FilterError>)
    ensures c.At? ==> r == Ok((c.ra, c.dec))
    ensures c.AroundSource? ==> (r.Ok? <==> c.name in lookup)
    ensures c.AroundSource? && c.name in lookup ==> r == Ok(lookup[c.name])
  {
    match c
    case At(ra, dec) => Ok((ra, dec))
    case AroundSource(name) => if name in lookup then Ok(lookup[name]) else Err(UnknownSource(name))
  }

  /** One step of filterSources (modelizer.py:217-240), with a region
      filter applied whatever its centre. */
  function ApplyFilter(lib: Library, f: Filter, cur: seq<Source>, lookup: Lookup, o: Oracles): (r: Result<seq<Source>, FilterError>)
    ensures r.Err? ==> f.Roi? && f.center.AroundSource? && f.center.name !in lookup
    ensures r.Ok? && !f.Frozen? && !f.Invert? ==> IsSubseq(r.value, cur)
    ensures r.Ok? && (f.Frozen? || f.Invert?) ==> IsSubseq(r.value, AllSources(lib))
  {
    match f
    case ByName(names, noregex) => Ok(NamedSources(lib, NameList(names), Some(cur), noregex, false, o.rx))
    case Exclude(names, noregex) => Ok(NamedSources(lib, NameList(names), Some(cur), noregex, true, o.rx))
    case Roi(center, ro, ri) =>
      var (ra, dec) :- Center(center, lookup);
      Ok(RoiSources(lib, Some(cur), InRoiAt(o, ra, dec, ro, ri)))
    case Diffuse => Ok(DiffuseSources(lib, Some(cur)))
    case Point => Ok(PointSources(lib, Some(cur)))
    case Frozen => Ok(FrozenSources(lib, cur, None))
    case Invert => Ok(UnlistedSources(lib, cur, None))
    case Limited => Ok(SourcesAtLimits(lib, Some(cur), (s: Source) => o.atLimits(s, LimitedTolerance)))
  }

  /** The same step as the code writes it: the region filter sits inside
      `if 'name' in f:`, so a `--roi` filter (given coordinates) leaves the
      list unchanged. */
  function ApplyFilterAsWritten(lib: Library, f: Filter, cur: seq<Source>, lookup: Lookup, o: Oracles): (r: Result<seq<Source>, FilterError>)
    ensures f.Roi? && f.center.At? ==> r == Ok(cur)
    ensures !(f.Roi? && f.center.At?) ==> r == ApplyFilter(lib, f, cur, lookup, o)
  {
    if f.Roi? && f.center.At? then Ok(cur) else ApplyFilter(lib, f, cur, lookup, o)
  }

  /** The filter loop from a given list; the first error ends it. */
  function Run(lib: Library, filters: seq<Filter>, cur: seq<Source>, lookup: Lookup, o: Oracles): Result<seq<Source>, FilterError>
    decreases |filters|
  {
    if filters == [] then Ok(cur)
    else
      var next :- ApplyFilter(lib, filters[0], cur, lookup, o);
      Run(lib, filters[1..], next, lookup, o)
  }

  function RunAsWritten(lib: Library, filters: seq<Filter>, cur: seq<Source>, lookup: Lookup, o: Oracles): Result<seq<Source>, FilterError>
    decreases |filters|
  {
    if filters == [] then Ok(cur)
    else
      var next :- ApplyFilterAsWritten(lib, filters[0], cur, lookup, o);
      RunAsWritten(lib, filters[1..], next, lookup, o)
  }

  /** filterSources, with the region filter applied for both centres. */
  function FilterSources(lib: Library, filters: seq<Filter>, lookup: Lookup, o: Oracles): Result<seq<Source>, FilterError>
  {
    Run(lib, filters, AllSources(lib), lookup, o)
  }

  /** filterSources as written. */
  function FilterSourcesAsWritten(lib: Library, filters: seq<Filter>, lookup: Lookup, o: Oracles): Result<seq<Source>, FilterError>
  {
    RunAsWritten(lib, filters, AllSources(lib), lookup, o)
  }

  // ---------------------------------------------------------------------
  // Pipeline properties
  // ---------------------------------------------------------------------

  /** Applying `a + b` is applying `a`, then `b` to its result. */
  lemma {:induction false} RunAppend(lib: Library, a: seq<Filter>, b: seq<Filter>, cur: seq<Source>, lookup: Lookup, o: Oracles)
    ensures Run(lib, a + b, cur, lookup, o)
         == (match Run(lib, a, cur, lookup, o)
             case Err(e) => Err(e)
             case Ok(mid) => Run(lib, b, mid, lookup, o))
    decreases |a|
  {
    if a == [] {
      assert a + b == b;
    } else {
      assert (a + b)[0] == a[0] && (a + b)[1..] == a[1..] + b;
      match ApplyFilter(lib, a[0], cur, lookup, o)
      case Err(_) =>
      case Ok(next) => RunAppend(lib, a[1..], b, next, lookup, o);
    }
  }

  /** Whatever the filters, the selection is a subsequence of the
      library's sources, in library order. */
  lemma {:induction false} RunStaysInLibrary(lib: Library, filters: seq<Filter>, cur: seq<Source>, lookup: Lookup, o: Oracles)
    requires IsSubseq(cur, AllSources(lib))
    ensures Run(lib, filters, cur, lookup, o).Ok? ==> IsSubseq(Run(lib, filters, cur, lookup, o).value, AllSources(lib))
    decreases |filters|
  {
    if filters != [] {
      var r := ApplyFilter(lib, filters[0], cur, lookup, o);
      if r.Ok? {
        if !filters[0].Frozen? && !filters[0].Invert? {
          SubseqTransitive(r.value, cur, AllSources(lib));
        }
        RunStaysInLibrary(lib, filters[1..], r.value, lookup, o);
      }
    }
  }

  lemma SubseqRefl<T(!new)>(s: seq<T>)
    ensures IsSubseq(s, s)
  {
    SelectIsSubseq(s, (x: T) => true);
    SelectCongruent(s, (x: T) => true, (x: T) => true);
    SelectAll(s);
  }

  /** Keeping every element keeps the sequence. */
  lemma {:induction false} SelectAll<T(!new)>(s: seq<T>)
    ensures Select(s, (x: T) => true) == s
  {
    if s != [] {
      SelectAll(s[1..]);
      assert s == [s[0]] + s[1..];
    }
  }

  /** filterSources returns sources of the library, in library order. */
  lemma FilterSourcesInLibrary(lib: Library, filters: seq<Filter>, lookup: Lookup, o: Oracles)
    ensures FilterSources(lib, filters, lookup, o).Ok? ==>
              IsSubseq(FilterSources(lib, filters, lookup, o).value, AllSources(lib))
  {
    SubseqRefl(AllSources(lib));
    RunStaysInLibrary(lib, filters, AllSources(lib), lookup, o);
  }

  /** 'invert' selects every source of the model not in the current
      selection, in model order. */
  lemma InvertIsComplement(lib: Library, cur: seq<Source>, lookup: Lookup, o: Oracles)
    ensures ApplyFilter(lib, Invert, cur, lookup, o).Ok?
    ensures forall s :: s in ApplyFilter(lib, Invert, cur, lookup, o).value <==> s in AllSources(lib) && s !in cur
  {
  }

  /** Inverting twice gives back any selection drawn from a well-formed
      library. */
  lemma InvertInvert(lib: Library, cur: seq<Source>, lookup: Lookup, o: Oracles)
    requires WellFormed(lib) && IsSubseq(cur, AllSources(lib))
    ensures Run(lib, [Invert, Invert], cur, lookup, o) == Ok(cur)
  {
    var all := AllSources(lib);
    var once := UnlistedSources(lib, cur, None);
    var twice := UnlistedSources(lib, once, None);
    assert Run(lib, [Invert, Invert], cur, lookup, o) == Ok(twice) by {
      InvertStep(lib, cur, lookup, o);
      InvertStep(lib, once, lookup, o);
      assert [Invert, Invert][1..] == [Invert];
      assert [Invert][1..] == [];
    }
    SubseqMembers(cur, all);
    SelectCongruent(all, NotListed(once), (s: Source) => s in cur);
    AllSourcesNoDup(lib);
    SelectMembersOfSubseq(cur, all);
  }

  /** 'frozen' does not depend on the current selection. */
  lemma FrozenIgnoresSelection(lib: Library, a: seq<Source>, b: seq<Source>, lookup: Lookup, o: Oracles)
    ensures ApplyFilter(lib, Frozen, a, lookup, o) == ApplyFilter(lib, Frozen, b, lookup, o)
    ensures ApplyFilter(lib, Frozen, a, lookup, o) == Ok(FrozenSources(lib, [], None))
  {
    FrozenStep(lib, a, lookup, o);
    FrozenStep(lib, b, lookup, o);
    var frozen := Select(AllSources(lib), SpectrumIsFrozen);
    assert FrozenSources(lib, a, None) == frozen;
    assert FrozenSources(lib, b, None) == frozen;
    assert FrozenSources(lib, [], None) == frozen;
  }

  lemma FrozenStep(lib: Library, cur: seq<Source>, lookup: Lookup, o: Oracles)
    ensures ApplyFilter(lib, Frozen, cur, lookup, o) == Ok(FrozenSources(lib, cur, None))
  {
  }

  lemma InvertStep(lib: Library, cur: seq<Source>, lookup: Lookup, o: Oracles)
    ensures ApplyFilter(lib, Invert, cur, lookup, o) == Ok(UnlistedSources(lib, cur, None))
  {
  }

  /** The region filter keeps the point sources of the selection that lie
      in the region around its centre. */
  lemma RoiKeepsPointSourcesInside(lib: Library, c: RoiCenter, ro: real, ri: real, cur: seq<Source>, lookup: Lookup, o: Oracles)
    requires c.AroundSource? ==> c.name in lookup
    ensures ApplyFilter(lib, Roi(c, ro, ri), cur, lookup, o).Ok?
    ensures var (ra, dec) := Center(c, lookup).value;
            forall s :: s in ApplyFilter(lib, Roi(c, ro, ri), cur, lookup, o).value
                    <==> s in cur && IsPointSource(s) && o.inRoi(ra, dec, ro, ri, s)
  {
  }

  /** What the missing branch costs: for any selection, the intended
      `--roi` result is a subsequence of the as-written one (the selection
      itself), and the two agree exactly when every selected source is a
      point source inside the region. */
  lemma {:induction false} PlainRoiDiscrepancy(lib: Library, ra: real, dec: real, ro: real, ri: real, cur: seq<Source>, lookup: Lookup, o: Oracles)
    ensures ApplyFilter(lib, Roi(At(ra, dec), ro, ri), cur, lookup, o).Ok?
    ensures ApplyFilterAsWritten(lib, Roi(At(ra, dec), ro, ri), cur, lookup, o) == Ok(cur)
    ensures IsSubseq(ApplyFilter(lib, Roi(At(ra, dec), ro, ri), cur, lookup, o).value, cur)
    ensures ApplyFilter(lib, Roi(At(ra, dec), ro, ri), cur, lookup, o).value == cur
            <==> forall i :: 0 <= i < |cur| ==> IsPointSource(cur[i]) && o.inRoi(ra, dec, ro, ri, cur[i])
  {
    var inside := InRoiAt(o, ra, dec, ro, ri);
    var r := ApplyFilter(lib, Roi(At(ra, dec), ro, ri), cur, lookup, o).value;
    assert r == Select(Select(cur, IsPointSource), inside);
    SelectSelect(cur, IsPointSource, inside);
    SelectKeepsAll(cur, And(IsPointSource, inside));
  }

  lemma PlainRoiCounterexample(o: Oracles)
    ensures var src := Source(0, "galdiffuse", DiffuseSourceType, []);
            var lib := Library([SourceNode(src)]);
            && FilterSourcesAsWritten(lib, [Roi(At(0.0, 0.0), 10.0, 0.0)], map[], o) == Ok([src])
            && FilterSources(lib, [Roi(At(0.0, 0.0), 10.0, 0.0)], map[], o) == Ok([])
  {
    var src := Source(0, "galdiffuse", DiffuseSourceType, []);
    var lib := Library([SourceNode(src)]);
    assert AllSources(lib) == [src] by {
      assert lib.children[1..] == [];
    }
    var fs := [Roi(At(0.0, 0.0), 10.0, 0.0)];
    assert fs[1..] == [];
    var r := RoiSources(lib, Some([src]), InRoiAt(o, 0.0, 0.0, 10.0, 0.0));
    assert src !in r;
    assert r == [];
  }

  /** Filters other than `--roi` behave the same as written and as intended. */
  lemma {:induction false} AsWrittenAgreesWithoutPlainRoi(lib: Library, filters: seq<Filter>, cur: seq<Source>, lookup: Lookup, o: Oracles)
    requires forall i :: 0 <= i < |filters| ==> !(filters[i].Roi? && filters[i].center.At?)
    ensures RunAsWritten(lib, filters, cur, lookup, o) == Run(lib, filters, cur, lookup, o)
    decreases |filters|
  {
    if filters != [] {
      var r := ApplyFilter(lib, filters[0], cur, lookup, o);
      if r.Ok? {
        AsWrittenAgreesWithoutPlainRoi(lib, filters[1..], r.value, lookup, o);
      }
    }
  }

  // ---------------------------------------------------------------------
  // Option helpers (modelizer.py:175-212)
  // ---------------------------------------------------------------------

  /** A manipulation being built: its task type and its filters. */
  datatype Build = Build(kind: string, filters: seq<Filter>)

  /** newManip: the build in progress, if any, is appended to the list and
      a fresh one with no filters is started. */
  function NewManip(manips: seq<Build>, build: Option<Build>, kind: string): (r: (seq<Build>, Build))
    ensures r.1 == Build(kind, [])
    ensures build.None? ==> r.0 == manips
    ensures build.Some? ==> r.0 == manips + [build.value]
  {
    var done := match build case None => manips case Some(b) => manips + [b];
    (done, Build(kind, []))
  }

  /** The end of option parsing: the last build, if any, is appended. */
  function Flush(manips: seq<Build>, build: Option<Build>): (r: seq<Build>)
    ensures |r| == |manips| + (if build.Some? then 1 else 0)
    ensures r[..|manips|] == manips
  {
    match build
    case None => manips
    case Some(b) => manips + [b]
  }

  /** Starting a new manipulation adds exactly one (empty) build after
      everything that was already there, in order. */
  lemma NewManipThenFlush(manips: seq<Build>, build: Option<Build>, kind: string)
    ensures var (done, b) := NewManip(manips, build, kind);
            Flush(done, Some(b)) == Flush(manips, build) + [Build(kind, [])]
  {
  }

  /** Float parsing (`float(s)`, and `isFloat` as its success) is a parameter. */
  type ParseFloat = string -> Option<real>

  /** getValueAndFree: one leading '@' marks a fixed value. A string that
      is not a number ends the program (None). */
  function GetValueAndFree(s: string, parse: ParseFloat): (r: Option<(bool, real)>)
    ensures |s| > 0 && s[0] == '@' ==> r == (match parse(s[1..]) case None => None case Some(v) => Some((false, v)))
    ensures (|s| == 0 || s[0] != '@') ==> r == (match parse(s) case None => None case Some(v) => Some((true, v)))
  {
    var (free, text) := if |s| > 0 && s[0] == '@' then (false, s[1..]) else (true, s);
    var v :- parse(text);
    Some((free, v))
  }

  /** getScaledValue: one leading 'x' makes the number a multiple of
      `value`. A string that is not a number ends the program (None). */
  function GetScaledValue(s: string, reference: real, parse: ParseFloat): (r: Option<real>)
    ensures |s| > 0 && s[0] == 'x' ==> (r.Some? <==> parse(s[1..]).Some?)
    ensures |s| > 0 && s[0] == 'x' && r.Some? ==> r.value == parse(s[1..]).value * reference
    ensures (|s| == 0 || s[0] != 'x') ==> r == parse(s)
  {
    if |s| > 0 && s[0] == 'x' then
      match parse(s[1..])
      case None => None
      case Some(v) => Some(v * reference)
    else
      parse(s)
  }

  /** The '@' marker changes only the free flag: the value read is the
      one read without it. */
  lemma FixedMarker(t: string, parse: ParseFloat)
    requires |t| == 0 || t[0] != '@'
    ensures GetValueAndFree("@" + t, parse).Some? <==> GetValueAndFree(t, parse).Some?
    ensures GetValueAndFree(t, parse).Some? ==>
              GetValueAndFree("@" + t, parse).value == (false, GetValueAndFree(t, parse).value.1)
              && GetValueAndFree(t, parse).value.0
  {
    assert ("@" + t)[0] == '@' && ("@" + t)[1..] == t;
  }

  /** The 'x' marker multiplies the number read without it by `value`. */
  lemma ScaleMarker(t: string, value: real, parse: ParseFloat)
    requires |t| == 0 || t[0] != 'x'
    ensures GetScaledValue("x" + t, value, parse).Some? <==> GetScaledValue(t, value, parse).Some?
    ensures GetScaledValue(t, value, parse).Some? ==>
              GetScaledValue("x" + t, value, parse).value == GetScaledValue(t, value, parse).value * value
  {
    assert ("x" + t)[0] == 'x' && ("x" + t)[1..] == t;
  }
}
