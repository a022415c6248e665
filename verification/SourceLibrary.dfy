/** The source library of a likelihood model (ModelManipulator's XML
    document) and the queries and edits made on it: listing sources by
    class, name, region or state, reading and writing parameters,
    freezing parameters by name and deleting child nodes.

    The XML tree is modelled as values: a library is a sequence of child
    nodes, a source holds its data sets (`spectrum`, `spatialModel`, ...)
    and a data set holds its parameters. DOM nodes compare by identity;
    a source carries an `id` that stands for that identity. */
module SourceLibrary {
  import opened Results
  import opened Seqs

  /** The `type` attribute of diffuse and of point sources. */
  const DiffuseSourceType: string := "DiffuseSource"
  const PointSourceType: string := "PointSource"
  /** The tag of the data set holding a source's spectral parameters. */
  const SpectrumTag: string := "spectrum"

  /** A `<parameter>` element; the numeric attributes are the floats
      `parameterGetData` reads (free is `float(free) > 0.5`). */
  datatype Param = Param(name: string, free: bool, value: real, scale: real, min: real, max: real)

  /** A child element of a source: its tag, its `type` attribute and its parameters. */
  datatype Dataset = Dataset(tag: string, kind: string, params: seq<Param>)

  /** A `<source>` element: identity, `name` and `type` attributes, child elements. */
  datatype Source = Source(id: nat, name: string, kind: string, datasets: seq<Dataset>)

  /** A child node of the `<source_library>` element. */
  datatype Node = SourceNode(source: Source) | OtherNode(nodeName: string)

  datatype Library = Library(children: seq<Node>)

  /** How sources or parameters are named: not at all (`None`), by one
      pattern (a `str`) or by a list of patterns. */
  datatype Names = NoNames | OneName(pattern: string) | NameList(patterns: seq<string>)

  /** `re.match(pattern + '$', name)`: the regular-expression engine is a
      parameter of the model. */
  type FullMatch = (string, string) -> bool

  // ---------------------------------------------------------------------
  // Names
  // ---------------------------------------------------------------------

  /** Some pattern of `patterns` matches `name` (the loop with `break`). */
  predicate AnyMatches(patterns: seq<string>, name: string, rx: FullMatch)
  {
    exists k :: 0 <= k < |patterns| && rx(patterns[k], name)
  }

  /** `name` is named by `names`: equal to (noregex) or matched by the
      pattern, or by one of the list. `NoNames` names nothing. */
  predicate Named(names: Names, noregex: bool, rx: FullMatch, name: string)
  {
    match names
    case NoNames => false
    case OneName(p) => if noregex then name == p else rx(p, name)
    case NameList(ps) => if noregex then name in ps else AnyMatches(ps, name, rx)
  }

  // ---------------------------------------------------------------------
  // Source lists (ModelManipulator.py:1108-1220)
  // ---------------------------------------------------------------------

  /** The sources among `nodes`, in document order. */
  function SourcesOf(nodes: seq<Node>): (r: seq<Source>)
    ensures |r| <= |nodes|
    ensures forall s :: s in r <==> SourceNode(s) in nodes
  {
    if nodes == [] then []
    else
      assert forall n :: n in nodes <==> n == nodes[0] || n in nodes[1..];
      (if nodes[0].SourceNode? then [nodes[0].source] else []) + SourcesOf(nodes[1..])
  }

  /** listAllSources. */
  function AllSources(lib: Library): seq<Source>
  {
    SourcesOf(lib.children)
  }

  /** Distinct sources of a library are distinct nodes. */
  predicate WellFormed(lib: Library)
  {
    var all := AllSources(lib);
    forall i, j :: 0 <= i < j < |all| ==> all[i].id != all[j].id
  }

  /** The list a query starts from: `base_sl` when given, otherwise
      every source. An explicitly empty list is kept (`[] == False` is
      false in Python). */
  function BaseList(lib: Library, base: Option<seq<Source>>): seq<Source>
  {
    match base
    case None => AllSources(lib)
    case Some(sl) => sl
  }

  predicate IsDiffuse(s: Source) { s.kind == DiffuseSourceType }

  predicate IsPointSource(s: Source) { s.kind == PointSourceType }

  /** listDiffuseSources. */
  function DiffuseSources(lib: Library, base: Option<seq<Source>>): (r: seq<Source>)
    ensures forall s :: s in r <==> s in BaseList(lib, base) && IsDiffuse(s)
    ensures IsSubseq(r, BaseList(lib, base))
  {
    SelectIsSubseq(BaseList(lib, base), IsDiffuse);
    Select(BaseList(lib, base), IsDiffuse)
  }

  /** listPointSources. */
  function PointSources(lib: Library, base: Option<seq<Source>>): (r: seq<Source>)
    ensures forall s :: s in r <==> s in BaseList(lib, base) && IsPointSource(s)
    ensures IsSubseq(r, BaseList(lib, base))
  {
    SelectIsSubseq(BaseList(lib, base), IsPointSource);
    Select(BaseList(lib, base), IsPointSource)
  }

  /** listSourcesAtSpectrumLimits: the floating-point test of a spectrum
      against its parameter bounds is the parameter `atLimits`. */
  function SourcesAtLimits(lib: Library, base: Option<seq<Source>>, atLimits: Source -> bool): (r: seq<Source>)
    ensures forall s :: s in r <==> s in BaseList(lib, base) && atLimits(s)
    ensures IsSubseq(r, BaseList(lib, base))
  {
    SelectIsSubseq(BaseList(lib, base), atLimits);
    Select(BaseList(lib, base), atLimits)
  }

  /** listNamedSources: the named sources, or with `exclude` the others. */
  function NamedSources(lib: Library, names: Names, base: Option<seq<Source>>,
                        noregex: bool, exclude: bool, rx: FullMatch): (r: seq<Source>)
    ensures forall s :: s in r <==> s in BaseList(lib, base) && Named(names, noregex, rx, s.name) != exclude
    ensures IsSubseq(r, BaseList(lib, base))
  {
    SelectIsSubseq(BaseList(lib, base), NamedFilter(names, noregex, rx, exclude));
    Select(BaseList(lib, base), NamedFilter(names, noregex, rx, exclude))
  }

  /** The test listNamedSources applies to each source. */
  function NamedFilter(names: Names, noregex: bool, rx: FullMatch, exclude: bool): Source -> bool
  {
    (s: Source) => Named(names, noregex, rx, s.name) != exclude
  }

  /** listROISources: point sources of the base list inside the region;
      the angular test on the source's coordinates is the parameter `inRoi`. */
  function RoiSources(lib: Library, base: Option<seq<Source>>, inRoi: Source -> bool): (r: seq<Source>)
    ensures forall s :: s in r <==> s in BaseList(lib, base) && IsPointSource(s) && inRoi(s)
    ensures IsSubseq(r, BaseList(lib, base))
  {
    var points := PointSources(lib, Some(BaseList(lib, base)));
    SelectIsSubseq(points, inRoi);
    SubseqTransitive(Select(points, inRoi), points, BaseList(lib, base));
    Select(points, inRoi)
  }

  /** listFrozenSources: the `listed_sl` argument is accepted and not used. */
  function FrozenSources(lib: Library, listed: seq<Source>, base: Option<seq<Source>>): (r: seq<Source>)
    ensures forall s :: s in r <==> s in BaseList(lib, base) && SpectrumIsFrozen(s)
    ensures IsSubseq(r, BaseList(lib, base))
  {
    SelectIsSubseq(BaseList(lib, base), SpectrumIsFrozen);
    Select(BaseList(lib, base), SpectrumIsFrozen)
  }

  /** listUnlistedSources: the base list without the listed sources. */
  function UnlistedSources(lib: Library, listed: seq<Source>, base: Option<seq<Source>>): (r: seq<Source>)
    ensures forall s :: s in r <==> s in BaseList(lib, base) && s !in listed
    ensures IsSubseq(r, BaseList(lib, base))
  {
    SelectIsSubseq(BaseList(lib, base), NotListed(listed));
    Select(BaseList(lib, base), NotListed(listed))
  }

  function NotListed(listed: seq<Source>): Source -> bool
  {
    (s: Source) => s !in listed
  }

  // ---------------------------------------------------------------------
  // Data sets and parameters (ModelManipulator.py:708-909)
  // ---------------------------------------------------------------------

  /** sourceGetDataSet: the first child with the tag, or None. */
  function GetDataset(src: Source, tag: string): (r: Option<Dataset>)
    ensures r.Some? <==> exists i :: 0 <= i < |src.datasets| && src.datasets[i].tag == tag
    ensures r.Some? ==> r.value in src.datasets && r.value.tag == tag
    ensures r.Some? ==> exists i :: 0 <= i < |src.datasets| && src.datasets[i] == r.value
                          && (forall j :: 0 <= j < i ==> src.datasets[j].tag != tag)
  {
    match FindFirst(src.datasets, (d: Dataset) => d.tag == tag)
    case None => None
    case Some(i) => Some(src.datasets[i])
  }

  /** datasetGetParameter: the first parameter with the name, or None. */
  function GetParameter(ds: Dataset, name: string): (r: Option<Param>)
    ensures r.Some? <==> exists i :: 0 <= i < |ds.params| && ds.params[i].name == name
    ensures r.Some? ==> r.value in ds.params && r.value.name == name
    ensures r.Some? ==> exists i :: 0 <= i < |ds.params| && ds.params[i] == r.value
                          && (forall j :: 0 <= j < i ==> ds.params[j].name != name)
  {
    match FindFirst(ds.params, (p: Param) => p.name == name)
    case None => None
    case Some(i) => Some(ds.params[i])
  }

  /** sourceSpectrumIsFrozen: a source without a spectrum is not frozen;
      otherwise it is frozen when none of its spectral parameters is free. */
  predicate SpectrumIsFrozen(src: Source)
  {
    match GetDataset(src, SpectrumTag)
    case None => false
    case Some(spectrum) => forall i :: 0 <= i < |spectrum.params| ==> !spectrum.params[i].free
  }

  /** newNodeParameter: the bounds check, then a new parameter appended
      to the data set `into` when one is given. */
  function NewParameter(name: string, free: bool, value: real, scale: real, min: real, max: real,
                        into: Option<Dataset>): (r: Result<(Param, Option<Dataset>), string>)
    ensures r.Ok? <==> min <= value <= max
    ensures r.Ok? ==> r.value.0 == Param(name, free, value, scale, min, max)
    ensures r.Ok? ==> (r.value.1.Some? <==> into.Some?)
    ensures r.Ok? && into.Some? ==>
              var d := r.value.1.value;
              d.tag == into.value.tag && d.kind == into.value.kind
              && |d.params| == |into.value.params| + 1
              && d.params[..|into.value.params|] == into.value.params
              && d.params[|into.value.params|] == r.value.0
  {
    if value < min || value > max then Err("Model parameter out of bounds")
    else
      var p := Param(name, free, value, scale, min, max);
      match into
      case None => Ok((p, None))
      case Some(d) => Ok((p, Some(d.(params := d.params + [p]))))
  }

  /** Replaces the first parameter named like `p` by `p` (the attribute
      writes of setParameterAttributesData); None if there is none. */
  function ReplaceParameter(params: seq<Param>, p: Param): (r: Option<seq<Param>>)
    ensures r.Some? <==> exists i :: 0 <= i < |params| && params[i].name == p.name
    ensures r.Some? ==> |r.value| == |params|
    ensures r.Some? ==> exists i :: 0 <= i < |params| && params[i].name == p.name
                          && (forall j :: 0 <= j < i ==> params[j].name != p.name)
                          && r.value == params[i := p]
  {
    match FindFirst(params, (q: Param) => q.name == p.name)
    case None => None
    case Some(i) => Some(params[i := p])
  }

  /** datasetSetParameterData as intended: overwrite the first parameter
      with the name, or append a new one after the bounds check (the
      append of newNodeParameterData with the attributes written by
      setParameterAttributesData). */
  function SetParameterData(ds: Dataset, p: Param): (r: Result<Dataset, string>)
    ensures r.Ok? ==> r.value.tag == ds.tag && r.value.kind == ds.kind
    ensures r.Err? <==> GetParameter(ds, p.name).None? && !(p.min <= p.value <= p.max)
    ensures r.Ok? && GetParameter(ds, p.name).Some? ==>
              exists i :: 0 <= i < |ds.params| && ds.params[i].name == p.name
                && (forall j :: 0 <= j < i ==> ds.params[j].name != p.name)
                && r.value.params == ds.params[i := p]
    ensures r.Ok? && GetParameter(ds, p.name).None? ==> r.value.params == ds.params + [p]
  {
    match ReplaceParameter(ds.params, p)
    case Some(params) => Ok(ds.(params := params))
    case None =>
      var (_, d) :- NewParameter(p.name, p.free, p.value, p.scale, p.min, p.max, Some(ds));
      Ok(d.value)
  }

  /** datasetSetParameterData as the code stands: its append path goes
      through newNodeParameterData, which after its bounds check hands the
      data dictionary to the seven-argument setParameterAttributes and so
      raises TypeError. Only overwriting an existing parameter succeeds. */
  function SetParameterDataAsWritten(ds: Dataset, p: Param): (r: Result<Dataset, string>)
    ensures GetParameter(ds, p.name).Some? ==> r == SetParameterData(ds, p)
    ensures GetParameter(ds, p.name).None? ==> r.Err?
  {
    match ReplaceParameter(ds.params, p)
    case Some(params) => Ok(ds.(params := params))
    case None =>
      if p.value < p.min || p.value > p.max then Err("Model parameter out of bounds")
      else Err("setParameterAttributes() takes exactly 7 arguments (2 given)")
  }

  /** A spectrum without a `Prefactor` parameter: writing one fails as
      written, while the intended append adds it. */
  lemma AppendParameterCounterexample()
    ensures var ds := Dataset(SpectrumTag, "PowerLaw", []);
            var p := Param("Prefactor", true, 1.0, 1.0, 0.0, 10.0);
            && SetParameterDataAsWritten(ds, p).Err?
            && SetParameterData(ds, p) == Ok(Dataset(SpectrumTag, "PowerLaw", [p]))
  {
  }

  /** sourceSetParameterData: None (Python's False) when the source has
      no child with the tag; otherwise the first such child is written. */
  function SourceSetParameterData(src: Source, tag: string, p: Param): (r: Result<Option<Source>, string>)
    ensures r.Ok? && r.value.Some? ==>
              r.value.value.id == src.id && r.value.value.name == src.name && r.value.value.kind == src.kind
              && |r.value.value.datasets| == |src.datasets|
    ensures GetDataset(src, tag).None? ==> r == Ok(None)
    ensures GetDataset(src, tag).Some? ==>
              (r.Err? <==> SetParameterData(GetDataset(src, tag).value, p).Err?)
    ensures GetDataset(src, tag).Some? && r.Ok? ==>
              r.value.Some? && GetDataset(r.value.value, tag) == Some(SetParameterData(GetDataset(src, tag).value, p).value)
    ensures r.Ok? && r.value.Some? ==>
              exists i :: 0 <= i < |src.datasets| && src.datasets[i].tag == tag
                && (forall j :: 0 <= j < i ==> src.datasets[j].tag != tag)
                && SetParameterData(src.datasets[i], p) == Ok(r.value.value.datasets[i])
                && r.value.value.datasets == src.datasets[i := r.value.value.datasets[i]]
  {
    match FindFirst(src.datasets, (d: Dataset) => d.tag == tag)
    case None => Ok(None)
    case Some(i) =>
      FirstDataset(src, tag, i);
      var d :- SetParameterData(src.datasets[i], p);
      var src2 := src.(datasets := src.datasets[i := d]);
      assert forall j :: 0 <= j < i ==> src2.datasets[j] == src.datasets[j];
      FirstDataset(src2, tag, i);
      Ok(Some(src2))
  }

  /** The child at index i is the one `sourceGetDataSet` finds when it is
      the first to carry the tag. */
  lemma FirstDataset(src: Source, tag: string, i: nat)
    requires i < |src.datasets| && src.datasets[i].tag == tag
    requires forall j :: 0 <= j < i ==> src.datasets[j].tag != tag
    ensures GetDataset(src, tag) == Some(src.datasets[i])
  {
    var g := GetDataset(src, tag);
    assert g.Some?;
    var k :| 0 <= k < |src.datasets| && src.datasets[k] == g.value
             && (forall j :: 0 <= j < k ==> src.datasets[j].tag != tag);
    assert g.value.tag == tag;
  }

  /** deleteNode: removes every child with the tag. */
  function DeleteNode(src: Source, tag: string): (r: Source)
    ensures r.id == src.id && r.name == src.name && r.kind == src.kind
    ensures forall d :: d in r.datasets <==> d in src.datasets && d.tag != tag
    ensures IsSubseq(r.datasets, src.datasets)
  {
    SelectIsSubseq(src.datasets, TagIsNot(tag));
    src.(datasets := Select(src.datasets, TagIsNot(tag)))
  }

  function TagIsNot(tag: string): Dataset -> bool
  {
    (d: Dataset) => d.tag != tag
  }

  /** Appending a node appends its source, if it holds one. */
  lemma {:induction false} SourcesOfSnoc(nodes: seq<Node>, n: Node)
    ensures SourcesOf(nodes + [n]) == SourcesOf(nodes) + (if n.SourceNode? then [n.source] else [])
    decreases |nodes|
  {
    if nodes == [] {
      assert [n][1..] == [];
    } else {
      assert (nodes + [n])[1..] == nodes[1..] + [n];
      SourcesOfSnoc(nodes[1..], n);
    }
  }

  /** newNodeSource: a new source with no parameters, which becomes the
      last source of the library when `append` and leaves the library alone
      otherwise; a fresh id keeps the library well formed. */
  function NewSource(lib: Library, id: nat, name: string, kind: string, append: bool): (r: (Source, Library))
    ensures r.0 == Source(id, name, kind, [])
    ensures append ==> AllSources(r.1) == AllSources(lib) + [r.0]
    ensures !append ==> r.1 == lib
    ensures WellFormed(lib) && (forall s :: s in AllSources(lib) ==> s.id != id) ==> WellFormed(r.1)
  {
    var src := Source(id, name, kind, []);
    SourcesOfSnoc(lib.children, SourceNode(src));
    (src, if append then Library(lib.children + [SourceNode(src)]) else lib)
  }

  // ---------------------------------------------------------------------
  // Freezing parameters (ModelManipulator.py:914-942)
  // ---------------------------------------------------------------------

  /** The parameters sourceFreezeParametersByName touches: all of them
      when no names are given, otherwise the named ones. */
  predicate Selected(names: Names, noregex: bool, rx: FullMatch, name: string)
  {
    names.NoNames? || Named(names, noregex, rx, name)
  }

  /** The loop over the parameter data read before any write: each
      selected entry, with `free` replaced, is written over the first
      parameter of the same name. */
  function FreezeLoop(cur: seq<Param>, todo: seq<Param>, sel: string -> bool, free: bool): seq<Param>
    decreases |todo|
  {
    if todo == [] then cur
    else
      var next := if sel(todo[0].name) then
                    match ReplaceParameter(cur, todo[0].(free := free))
                    case None => cur
                    case Some(ps) => ps
                  else cur;
      FreezeLoop(next, todo[1..], sel, free)
  }

  function FreezeParams(params: seq<Param>, sel: string -> bool, free: bool): seq<Param>
  {
    FreezeLoop(params, params, sel, free)
  }

  /** sourceFreezeParametersByName on a source: the first child with the
      tag has its parameters frozen (or freed); nothing else changes. */
  function FreezeSource(src: Source, names: Names, free: bool, tag: string, noregex: bool, rx: FullMatch): (r: Source)
    ensures r.id == src.id && r.name == src.name && r.kind == src.kind
    ensures |r.datasets| == |src.datasets|
    ensures GetDataset(src, tag).None? ==> r == src
    ensures forall j :: 0 <= j < |src.datasets| && r.datasets[j] != src.datasets[j] ==>
              && src.datasets[j].tag == tag
              && (forall k :: 0 <= k < j ==> src.datasets[k].tag != tag)
              && r.datasets[j] == src.datasets[j].(params := FreezeParams(src.datasets[j].params, SelectedFilter(names, noregex, rx), free))
  {
    match FindFirst(src.datasets, (d: Dataset) => d.tag == tag)
    case None => src
    case Some(i) =>
      var d := src.datasets[i];
      src.(datasets := src.datasets[i := d.(params := FreezeParams(d.params, SelectedFilter(names, noregex, rx), free))])
  }

  function SelectedFilter(names: Names, noregex: bool, rx: FullMatch): string -> bool
  {
    (n: string) => Selected(names, noregex, rx, n)
  }

  /** Same length and the same name at every position. */
  predicate SameNames(a: seq<Param>, b: seq<Param>)
  {
    |a| == |b| && forall i :: 0 <= i < |a| ==> a[i].name == b[i].name
  }

  /** The names of a parameter list are pairwise distinct. */
  predicate UniqueNames(ps: seq<Param>)
  {
    forall i, j :: 0 <= i < j < |ps| ==> ps[i].name != ps[j].name
  }

  lemma ReplaceKeepsNames(cur: seq<Param>, p: Param)
    ensures ReplaceParameter(cur, p).Some? ==> SameNames(ReplaceParameter(cur, p).value, cur)
  {
  }

  /** The freeze loop keeps the shape of the list, and never writes a
      position whose name is not selected. */
  lemma {:induction false} FreezeLoopFrame(orig: seq<Param>, cur: seq<Param>, todo: seq<Param>, sel: string -> bool, free: bool)
    requires SameNames(cur, orig)
    requires forall i :: 0 <= i < |orig| && !sel(orig[i].name) ==> cur[i] == orig[i]
    ensures SameNames(FreezeLoop(cur, todo, sel, free), orig)
    ensures forall i :: 0 <= i < |orig| && !sel(orig[i].name) ==> FreezeLoop(cur, todo, sel, free)[i] == orig[i]
    decreases |todo|
  {
    if todo != [] {
      var p := todo[0].(free := free);
      if sel(todo[0].name) {
        ReplaceKeepsNames(cur, p);
        match ReplaceParameter(cur, p)
        case None =>
          FreezeLoopFrame(orig, cur, todo[1..], sel, free);
        case Some(ps) =>
          assert forall i :: 0 <= i < |orig| && !sel(orig[i].name) ==> ps[i] == cur[i];
          FreezeLoopFrame(orig, ps, todo[1..], sel, free);
      } else {
        FreezeLoopFrame(orig, cur, todo[1..], sel, free);
      }
    }
  }

  /** Freezing keeps every name in place and leaves every parameter whose
      name is not selected exactly as it was. */
  lemma FreezeFrame(params: seq<Param>, sel: string -> bool, free: bool)
    ensures SameNames(FreezeParams(params, sel, free), params)
    ensures forall i :: 0 <= i < |params| && !sel(params[i].name) ==> FreezeParams(params, sel, free)[i] == params[i]
  {
    FreezeLoopFrame(params, params, params, sel, free);
  }

  /** The value freezing gives a parameter when names are distinct. */
  function Frozen(p: Param, sel: string -> bool, free: bool): Param
  {
    if sel(p.name) then p.(free := free) else p
  }

  /** With distinct names, after the first k entries the first k
      positions are frozen and the rest are untouched. */
  lemma {:induction false} FreezeLoopUnique(params: seq<Param>, k: nat, cur: seq<Param>, sel: string -> bool, free: bool)
    requires UniqueNames(params) && k <= |params|
    requires |cur| == |params|
    requires forall i :: 0 <= i < k ==> cur[i] == Frozen(params[i], sel, free)
    requires forall i :: k <= i < |params| ==> cur[i] == params[i]
    ensures |FreezeLoop(cur, params[k..], sel, free)| == |params|
    ensures forall i :: 0 <= i < |params| ==> FreezeLoop(cur, params[k..], sel, free)[i] == Frozen(params[i], sel, free)
    decreases |params| - k
  {
    if k == |params| {
      assert params[k..] == [];
      assert FreezeLoop(cur, params[k..], sel, free) == cur;
    } else {
      var todo := params[k..];
      assert todo[0] == params[k] && todo[1..] == params[k + 1..];
      if sel(params[k].name) {
        var p := params[k].(free := free);
        forall j | 0 <= j < k ensures cur[j].name != p.name {
          assert cur[j].name == params[j].name;
        }
        ReplaceAt(cur, p, k);
        var ps := cur[k := p];
        assert FreezeLoop(cur, todo, sel, free) == FreezeLoop(ps, params[k + 1..], sel, free);
        FreezeLoopUnique(params, k + 1, ps, sel, free);
      } else {
        assert FreezeLoop(cur, todo, sel, free) == FreezeLoop(cur, params[k + 1..], sel, free);
        FreezeLoopUnique(params, k + 1, cur, sel, free);
      }
    }
  }

  /** The first parameter with p's name is at k, so that is the one written. */
  lemma ReplaceAt(cur: seq<Param>, p: Param, k: nat)
    requires k < |cur| && cur[k].name == p.name
    requires forall j :: 0 <= j < k ==> cur[j].name != p.name
    ensures ReplaceParameter(cur, p) == Some(cur[k := p])
  {
    var f := FindFirst(cur, (q: Param) => q.name == p.name);
    assert f.Some?;
  }

  /** With distinct parameter names, freezing sets `free` on exactly the
      selected parameters and changes nothing else. */
  lemma FreezeUnique(params: seq<Param>, sel: string -> bool, free: bool)
    requires UniqueNames(params)
    ensures |FreezeParams(params, sel, free)| == |params|
    ensures forall i :: 0 <= i < |params| ==> FreezeParams(params, sel, free)[i] == Frozen(params[i], sel, free)
  {
    assert params[0..] == params;
    FreezeLoopUnique(params, 0, params, sel, free);
  }

  // ---------------------------------------------------------------------
  // Properties of the lists
  // ---------------------------------------------------------------------

  /** The sources of a well-formed library are pairwise distinct. */
  lemma AllSourcesNoDup(lib: Library)
    requires WellFormed(lib)
    ensures NoDup(AllSources(lib))
  {
  }

  /** `exclude` gives the complement: listNamedSources(exclude=True) is
      listUnlistedSources of listNamedSources(exclude=False), in base
      order, and the two lists split the base list between them. */
  lemma NamedExcludeIsUnlisted(lib: Library, names: Names, base: Option<seq<Source>>, noregex: bool, rx: FullMatch)
    ensures NamedSources(lib, names, base, noregex, true, rx)
         == UnlistedSources(lib, NamedSources(lib, names, base, noregex, false, rx), base)
  {
    var b := BaseList(lib, base);
    var named := NamedSources(lib, names, base, noregex, false, rx);
    SelectCongruent(b, NamedFilter(names, noregex, rx, true), NotListed(named));
  }

  /** The two lists of listNamedSources split the base list between them. */
  lemma NamedSplitsBase(lib: Library, names: Names, base: Option<seq<Source>>, noregex: bool, rx: FullMatch)
    ensures |NamedSources(lib, names, base, noregex, true, rx)| + |NamedSources(lib, names, base, noregex, false, rx)|
         == |BaseList(lib, base)|
    ensures multiset(NamedSources(lib, names, base, noregex, true, rx))
            + multiset(NamedSources(lib, names, base, noregex, false, rx))
         == multiset(BaseList(lib, base))
  {
    var b := BaseList(lib, base);
    var isNamed := NamedFilter(names, noregex, rx, false);
    SelectSplit(b, isNamed);
    SelectCongruent(b, Not(isNamed), NamedFilter(names, noregex, rx, true));
  }

  /** Removing a source's children of one tag twice is removing them once. */
  lemma DeleteNodeIdempotent(src: Source, tag: string)
    ensures DeleteNode(DeleteNode(src, tag), tag) == DeleteNode(src, tag)
    ensures GetDataset(DeleteNode(src, tag), tag).None?
  {
    var keep := TagIsNot(tag);
    SelectSelect(src.datasets, keep, keep);
    SelectCongruent(src.datasets, And(keep, keep), keep);
    var r := DeleteNode(src, tag).datasets;
    assert forall i :: 0 <= i < |r| ==> r[i] in r;
  }

  /** Writing a parameter's data and reading it back by name gives that
      data, when the write succeeds. */
  lemma SetThenGetParameter(ds: Dataset, p: Param)
    ensures SetParameterData(ds, p).Ok? ==> GetParameter(SetParameterData(ds, p).value, p.name) == Some(p)
  {
    var r := SetParameterData(ds, p);
    if r.Ok? {
      var ps := r.value.params;
      match ReplaceParameter(ds.params, p)
      case Some(q) =>
        var i :| 0 <= i < |ds.params| && ds.params[i].name == p.name
                 && (forall j :: 0 <= j < i ==> ds.params[j].name != p.name)
                 && q == ds.params[i := p];
        FirstIndexIs(r.value, p.name, i);
      case None =>
        FirstIndexIs(r.value, p.name, |ds.params|);
    }
  }

  /** The first parameter with `name` sits at index i. */
  lemma FirstIndexIs(ds: Dataset, name: string, i: nat)
    requires i < |ds.params| && ds.params[i].name == name
    requires forall j :: 0 <= j < i ==> ds.params[j].name != name
    ensures GetParameter(ds, name) == Some(ds.params[i])
  {
  }

  /** Freezing every spectral parameter (no names, free = False) of a
      source whose spectrum has distinct parameter names makes its
      spectrum frozen. */
  lemma FreezeAllFreezesSpectrum(src: Source, rx: FullMatch)
    requires GetDataset(src, SpectrumTag).Some?
    requires UniqueNames(GetDataset(src, SpectrumTag).value.params)
    ensures SpectrumIsFrozen(FreezeSource(src, NoNames, false, SpectrumTag, false, rx))
  {
    var r := FreezeSource(src, NoNames, false, SpectrumTag, false, rx);
    var sel := SelectedFilter(NoNames, false, rx);
    var i := FindFirst(src.datasets, (d: Dataset) => d.tag == SpectrumTag).value;
    var d := src.datasets[i];
    FreezeUnique(d.params, sel, false);
    var fd := d.(params := FreezeParams(d.params, sel, false));
    assert r.datasets == src.datasets[i := fd];
    assert r.datasets[i] == fd;
    forall j | 0 <= j < i ensures r.datasets[j].tag != SpectrumTag {
      assert r.datasets[j] == src.datasets[j];
    }
    DatasetAt(r, SpectrumTag, i);
  }

  /** The first child with the tag is at index i. */
  lemma DatasetAt(src: Source, tag: string, i: nat)
    requires i < |src.datasets| && src.datasets[i].tag == tag
    requires forall j :: 0 <= j < i ==> src.datasets[j].tag != tag
    ensures GetDataset(src, tag) == Some(src.datasets[i])
  {
    var f := FindFirst(src.datasets, (d: Dataset) => d.tag == tag);
    assert f.Some?;
  }
}
