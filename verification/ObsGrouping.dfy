/** How the light-curve analysis collects observation directories into
    the list of time bins it fits (`LightCurve.globStandardObsDir` and the
    `add*Obs` helpers it calls).

    The directory listing, already sorted, is an input; each entry says
    whether it is a directory. File-existence tests are a parameter. */
module ObsGrouping {
  import opened Results

  /** One entry of the sorted glob result. */
  datatype Entry = Entry(path: string, isDir: bool)

  /** The files of one observation, as the `obsfiles` dictionaries hold them. */
  datatype Obs =
    | Unbinned(ft1: string, ft2: string, emap: string, ecube: string, irfs: string)
    | Binned(smaps: string, bemap: string, ecube: string, irfs: string)

  /** NameError for an analysis type other than "unbinned" or "binned";
      IOError naming the first missing file; IndexError when a sliding
      window of width 0 pops from an empty list. */
  datatype ObsError = UnknownAnalysis(analysis: string) | MissingFile(path: string) | PopFromEmpty

  /** The object's defaults, the call's optional overrides, and the file
      system's answer to `os.path.isfile`. */
  datatype Setup = Setup(
    srcName: string, defaultFt2: string, defaultIrfs: string,
    ft2: Option<string>, irfs: Option<string>,
    analysis: string, isFile: string -> bool)

  function OrDefault(o: Option<string>, d: string): string
  {
    match o
    case Some(v) => v
    case None => d
  }

  /** The first of `paths` that does not exist, if any. */
  function FirstMissing(paths: seq<string>, isFile: string -> bool): (r: Option<string>)
    ensures r.None? <==> forall i :: 0 <= i < |paths| ==> isFile(paths[i])
    ensures r.Some? ==> r.value in paths && !isFile(r.value)
    ensures r.Some? ==> exists i :: 0 <= i < |paths| && paths[i] == r.value
                          && (forall j :: 0 <= j < i ==> isFile(paths[j]))
  {
    if paths == [] then None
    else if !isFile(paths[0]) then Some(paths[0])
    else FirstMissing(paths[1..], isFile)
  }

  function Prefix(dir: string, s: Setup): string { dir + "/" + s.srcName }

  /** The files an observation in `dir` needs, in the order they are checked. */
  function RequiredFiles(dir: string, s: Setup): seq<string>
  {
    var prefix := Prefix(dir, s);
    if s.analysis == "unbinned" then
      [prefix + "_ev_roi.fits", OrDefault(s.ft2, s.defaultFt2), prefix + "_expMap.fits", prefix + "_expCube.fits"]
    else
      [prefix + "_srcMaps.fits", prefix + "_binExpMap.fits", prefix + "_expCube.fits"]
  }

  /** addStandardObsDir (LightCurve.py:265-279) with addUnbinnedObs and
      addBinnedObs (281-322): the observation stored for `dir`. */
  function MakeObs(dir: string, s: Setup): (r: Result<Obs, ObsError>)
    ensures r.Ok? <==> ((s.analysis == "unbinned" || s.analysis == "binned")
                        && forall i :: 0 <= i < |RequiredFiles(dir, s)| ==> s.isFile(RequiredFiles(dir, s)[i]))
    ensures r.Ok? ==> (r.value.Unbinned? <==> s.analysis == "unbinned")
    ensures r.Ok? ==> r.value.ecube == Prefix(dir, s) + "_expCube.fits"
    ensures r.Ok? ==> r.value.irfs == OrDefault(s.irfs, s.defaultIrfs)
    ensures r.Ok? && r.value.Unbinned? ==>
              && r.value.ft1 == Prefix(dir, s) + "_ev_roi.fits"
              && r.value.ft2 == OrDefault(s.ft2, s.defaultFt2)
              && r.value.emap == Prefix(dir, s) + "_expMap.fits"
    ensures r.Ok? && r.value.Binned? ==>
              && r.value.smaps == Prefix(dir, s) + "_srcMaps.fits"
              && r.value.bemap == Prefix(dir, s) + "_binExpMap.fits"
    ensures s.analysis != "unbinned" && s.analysis != "binned" ==> r == Err(UnknownAnalysis(s.analysis))
    ensures (s.analysis == "unbinned" || s.analysis == "binned") && r.Err? ==>
              var files := RequiredFiles(dir, s);
              && r.error.MissingFile?
              && exists i :: 0 <= i < |files| && files[i] == r.error.path && !s.isFile(files[i])
                   && (forall j :: 0 <= j < i ==> s.isFile(files[j]))
  {
    if s.analysis != "unbinned" && s.analysis != "binned" then Err(UnknownAnalysis(s.analysis))
    else
      var files := RequiredFiles(dir, s);
      match FirstMissing(files, s.isFile)
      case Some(path) => Err(MissingFile(path))
      case None =>
        var irfs := OrDefault(s.irfs, s.defaultIrfs);
        if s.analysis == "unbinned" then Ok(Unbinned(files[0], files[1], files[2], files[3], irfs))
        else Ok(Binned(files[0], files[1], files[2], irfs))
  }

  /** Builds the observation of a directory entry. */
  type Builder = Entry -> Result<Obs, ObsError>

  /** The builder globStandardObsDir uses. */
  function ObsBuilder(s: Setup): Builder
  {
    (e: Entry) => MakeObs(e.path, s)
  }

  /** Every directory entry can be turned into an observation. */
  predicate AllBuild(es: seq<Entry>, mk: Builder)
    decreases |es|
  {
    es == [] || ((es[0].isDir ==> mk(es[0]).Ok?) && AllBuild(es[1..], mk))
  }

  /** Every entry is a directory. */
  predicate AllDirs(es: seq<Entry>)
    decreases |es|
  {
    es == [] || (es[0].isDir && AllDirs(es[1..]))
  }

  /** The observation of one entry: none for a plain file. */
  function Built(e: Entry, mk: Builder): (r: seq<Obs>)
    requires e.isDir ==> mk(e).Ok?
    ensures |r| == if e.isDir then 1 else 0
  {
    if e.isDir then [mk(e).value] else []
  }

  /** The observations of the directory entries, in listing order. */
  function Items(es: seq<Entry>, mk: Builder): (r: seq<Obs>)
    requires AllBuild(es, mk)
    ensures |r| <= |es|
  {
    if es == [] then [] else Built(es[0], mk) + Items(es[1..], mk)
  }

  lemma AllBuildTail(es: seq<Entry>, mk: Builder)
    requires es != [] && AllBuild(es, mk)
    ensures AllBuild(es[1..], mk)
    ensures es[0].isDir ==> mk(es[0]).Ok?
    ensures Items(es, mk) == Built(es[0], mk) + Items(es[1..], mk)
  {
  }

  lemma {:induction false} ItemsAllDirs(es: seq<Entry>, mk: Builder)
    requires AllBuild(es, mk)
    requires AllDirs(es)
    ensures |Items(es, mk)| == |es|
    decreases |es|
  {
    if es != [] {
      AllBuildTail(es, mk);
      ItemsAllDirs(es[1..], mk);
    }
  }

  // ---------------------------------------------------------------------
  // nbin == 1: each observation is its own bin (LightCurve.py:238-242)
  // ---------------------------------------------------------------------

  /** Appends the observation of every directory entry to `obsfiles`. */
  function AddSingles(obsfiles: seq<Obs>, es: seq<Entry>, mk: Builder): (r: Result<seq<Obs>, ObsError>)
    ensures r.Ok? <==> AllBuild(es, mk)
    ensures r.Ok? ==> r.value == obsfiles + Items(es, mk)
    decreases |es|
  {
    if es == [] then Ok(obsfiles)
    else if es[0].isDir then
      var o :- mk(es[0]);
      AddSingles(obsfiles + [o], es[1..], mk)
    else
      AddSingles(obsfiles, es[1..], mk)
  }

  // ---------------------------------------------------------------------
  // nbin != 1: bins of several observations (LightCurve.py:243-263)
  // ---------------------------------------------------------------------

  /** The bins completed so far and the bin being filled. */
  datatype State = State(done: seq<seq<Obs>>, cur: seq<Obs>)

  /** One pass of the loop body. A full bin is first flushed: kept and
      restarted in fixed-bin mode; copied and shifted by one in sliding
      mode. A directory entry then joins the current bin. */
  function Step(st: State, e: Entry, nbin: int, sliding: bool, mk: Builder): (r: Result<State, ObsError>)
    ensures r.Err? <==> (sliding && |st.cur| == nbin && st.cur == []) || (e.isDir && mk(e).Err?)
    ensures r.Ok? && |st.cur| == nbin ==> r.value.done == st.done + [st.cur]
    ensures r.Ok? && |st.cur| != nbin ==> r.value.done == st.done
    ensures r.Ok? ==> |r.value.cur| == |Kept(st, nbin, sliding)| + (if e.isDir then 1 else 0)
    ensures r.Ok? ==> r.value.cur[..|Kept(st, nbin, sliding)|] == Kept(st, nbin, sliding)
    ensures r.Ok? && e.isDir ==> r.value.cur[|r.value.cur| - 1] == mk(e).value
  {
    var flushed :-
      if |st.cur| != nbin then Ok(st)
      else if !sliding then Ok(State(st.done + [st.cur], []))
      else if st.cur == [] then Err(PopFromEmpty)
      else Ok(State(st.done + [st.cur], st.cur[1..]));
    if e.isDir then
      var o :- mk(e);
      Ok(State(flushed.done, flushed.cur + [o]))
    else Ok(flushed)
  }

  /** What stays of the current bin once it is flushed: all of it when it
      is not full; everything but its oldest observation in sliding mode;
      nothing in fixed-bin mode. */
  function Kept(st: State, nbin: int, sliding: bool): (r: seq<Obs>)
    requires !(sliding && |st.cur| == nbin && st.cur == [])
    ensures |st.cur| == nbin && !sliding ==> r == []
    ensures |st.cur| == nbin && sliding ==> |r| == nbin - 1 && r == st.cur[1..]
    ensures |st.cur| != nbin ==> r == st.cur
  {
    if |st.cur| != nbin then st.cur else if sliding then st.cur[1..] else []
  }

  /** The loop over the sorted listing. */
  function Loop(st: State, es: seq<Entry>, nbin: int, sliding: bool, mk: Builder): Result<State, ObsError>
    decreases |es|
  {
    if es == [] then Ok(st)
    else
      var next :- Step(st, es[0], nbin, sliding, mk);
      Loop(next, es[1..], nbin, sliding, mk)
  }

  /** The state after one step over an entry with observations `mine`. */
  function Advance(st: State, mine: seq<Obs>, nbin: int, sliding: bool): State
    requires !(sliding && |st.cur| == nbin && st.cur == [])
  {
    State(if |st.cur| == nbin then st.done + [st.cur] else st.done, Kept(st, nbin, sliding) + mine)
  }

  /** The step when the entry's observation can be built and the shift,
      if any, has something to drop. */
  lemma StepValue(st: State, e: Entry, nbin: int, sliding: bool, mk: Builder)
    requires e.isDir ==> mk(e).Ok?
    requires !(sliding && |st.cur| == nbin && st.cur == [])
    ensures Step(st, e, nbin, sliding, mk) == Ok(Advance(st, Built(e, mk), nbin, sliding))
  {
    assert Kept(st, nbin, sliding) + [] == Kept(st, nbin, sliding);
  }

  /** After the loop a non-empty current bin is kept too. */
  function Finish(st: State): seq<seq<Obs>>
  {
    if |st.cur| != 0 then st.done + [st.cur] else st.done
  }

  /** globStandardObsDir for nbin != 1: the last bin of an earlier call,
      if any, is taken back and filled further. */
  function AddGrouped(obsfiles: seq<seq<Obs>>, es: seq<Entry>, nbin: int, sliding: bool, mk: Builder): Result<seq<seq<Obs>>, ObsError>
  {
    var start := if obsfiles != [] then State(obsfiles[..|obsfiles| - 1], obsfiles[|obsfiles| - 1]) else State([], []);
    var st :- Loop(start, es, nbin, sliding, mk);
    Ok(Finish(st))
  }

  /** The grouping of globStandardObsDir (LightCurve.py:231-263) for any
      builder, with the bins of the nbin == 1 case held as one-observation
      lists. */
  function Group(obsfiles: seq<seq<Obs>>, es: seq<Entry>, nbin: int, sliding: bool, mk: Builder): (r: Result<seq<seq<Obs>>, ObsError>)
    ensures nbin == 1 ==> (r.Ok? <==> AllBuild(es, mk))
  {
    if nbin == 1 then
      var singles :- AddSingles([], es, mk);
      Ok(obsfiles + Singletons(singles))
    else AddGrouped(obsfiles, es, nbin, sliding, mk)
  }

  /** globStandardObsDir itself. */
  function GlobStandardObsDir(obsfiles: seq<seq<Obs>>, es: seq<Entry>, nbin: int, sliding: bool, s: Setup): Result<seq<seq<Obs>>, ObsError>
  {
    Group(obsfiles, es, nbin, sliding, ObsBuilder(s))
  }

  /** An analysis type other than "unbinned" or "binned" is rejected at
      the first directory entry, unless a width-0 sliding window fails
      first. */
  lemma UnknownAnalysisRejected(es: seq<Entry>, nbin: int, sliding: bool, s: Setup)
    requires s.analysis != "unbinned" && s.analysis != "binned"
    requires exists i :: 0 <= i < |es| && es[i].isDir
    requires !(sliding && nbin == 0)
    ensures GlobStandardObsDir([], es, nbin, sliding, s) == Err(UnknownAnalysis(s.analysis))
  {
    var mk := ObsBuilder(s);
    var j :| 0 <= j < |es| && es[j].isDir;
    var k := FirstDir(es);
    assert mk(es[k]) == Err(UnknownAnalysis(s.analysis));
    if nbin == 1 {
      SinglesFailAt(es, k, [], mk);
    } else {
      GroupedFailAt(State([], []), es, k, nbin, sliding, mk);
    }
  }

  /** The index of the first directory entry. */
  function FirstDir(es: seq<Entry>): (k: nat)
    requires exists i :: 0 <= i < |es| && es[i].isDir
    ensures k < |es| && es[k].isDir
    ensures forall i :: 0 <= i < k ==> !es[i].isDir
  {
    if es[0].isDir then 0
    else
      var j :| 0 <= j < |es| && es[j].isDir;
      assert es[1..][j - 1].isDir;
      1 + FirstDir(es[1..])
  }

  /** The first directory whose observation cannot be built ends the
      nbin == 1 loop with its error. */
  lemma {:induction false} SinglesFailAt(es: seq<Entry>, k: nat, acc: seq<Obs>, mk: Builder)
    requires k < |es| && es[k].isDir && mk(es[k]).Err?
    requires forall i :: 0 <= i < k ==> !es[i].isDir
    ensures AddSingles(acc, es, mk) == Err(mk(es[k]).error)
    decreases k
  {
    if k > 0 {
      SinglesFailAt(es[1..], k - 1, acc, mk);
    }
  }

  /** The same for the loop of the grouped modes, when no shift can fail. */
  lemma {:induction false} GroupedFailAt(st: State, es: seq<Entry>, k: nat, nbin: int, sliding: bool, mk: Builder)
    requires k < |es| && es[k].isDir && mk(es[k]).Err?
    requires forall i :: 0 <= i < k ==> !es[i].isDir
    requires !(sliding && nbin == 0)
    ensures Loop(st, es, nbin, sliding, mk) == Err(mk(es[k]).error)
    decreases k
  {
    if k > 0 {
      StepValue(st, es[0], nbin, sliding, mk);
      GroupedFailAt(Step(st, es[0], nbin, sliding, mk).value, es[1..], k - 1, nbin, sliding, mk);
    }
  }

  function Singletons(xs: seq<Obs>): (r: seq<seq<Obs>>)
    ensures |r| == |xs| && forall i :: 0 <= i < |xs| ==> r[i] == [xs[i]]
  {
    seq(|xs|, i requires 0 <= i < |xs| => [xs[i]])
  }

  // ---------------------------------------------------------------------
  // Reference shapes
  // ---------------------------------------------------------------------

  /** `xs` cut into consecutive pieces of n, the last possibly shorter. */
  function Chunks<T>(xs: seq<T>, n: nat): (r: seq<seq<T>>)
    requires n >= 1
    decreases |xs|
  {
    if xs == [] then []
    else if |xs| <= n then [xs]
    else [xs[..n]] + Chunks(xs[n..], n)
  }

  function Flatten<T>(xss: seq<seq<T>>): seq<T>
  {
    if xss == [] then [] else xss[0] + Flatten(xss[1..])
  }

  /** Chunks gives back the sequence when joined, and every piece but the
      last holds exactly n elements (the last between 1 and n). */
  lemma {:induction false} ChunksShape<T>(xs: seq<T>, n: nat)
    requires n >= 1
    ensures Flatten(Chunks(xs, n)) == xs
    ensures forall i :: 0 <= i < |Chunks(xs, n)| - 1 ==> |Chunks(xs, n)[i]| == n
    ensures forall i :: 0 <= i < |Chunks(xs, n)| ==> 1 <= |Chunks(xs, n)[i]| <= n
    decreases |xs|
  {
    if xs != [] && |xs| > n {
      ChunksShape(xs[n..], n);
      var c := Chunks(xs, n);
      assert c[1..] == Chunks(xs[n..], n);
      assert xs == xs[..n] + xs[n..];
    } else if xs != [] {
      assert Flatten([xs]) == xs + Flatten([]);
    }
  }

  /** A full first piece is split off intact. */
  lemma ChunksAfterFull<T>(c: seq<T>, ys: seq<T>, n: nat)
    requires n >= 1 && |c| == n
    ensures Chunks(c + ys, n) == [c] + Chunks(ys, n)
  {
    if ys == [] {
      assert c + ys == c;
    } else {
      assert (c + ys)[..n] == c && (c + ys)[n..] == ys;
    }
  }

  /** The n-wide windows of xs, in order. */
  function Windows<T>(xs: seq<T>, n: nat): (r: seq<seq<T>>)
    requires 1 <= n <= |xs|
    ensures |r| == |xs| - n + 1
    decreases |xs|
  {
    if |xs| == n then [xs] else [xs[..n]] + Windows(xs[1..], n)
  }

  /** Window i is xs[i .. i + n]. */
  lemma {:induction false} WindowsAt<T>(xs: seq<T>, n: nat)
    requires 1 <= n <= |xs|
    ensures forall i :: 0 <= i < |xs| - n + 1 ==> Windows(xs, n)[i] == xs[i..i + n]
    decreases |xs|
  {
    if |xs| > n {
      WindowsAt(xs[1..], n);
      forall i | 1 <= i < |xs| - n + 1
        ensures Windows(xs, n)[i] == xs[i..i + n]
      {
        assert Windows(xs, n)[i] == Windows(xs[1..], n)[i - 1];
        assert xs[1..][i - 1..i - 1 + n] == xs[i..i + n];
      }
    }
  }

  /** The last window is the last n elements, and keeping it apart from
      the others and then adding it back gives all the windows. */
  lemma LastWindow<T>(xs: seq<T>, n: nat)
    requires 1 <= n <= |xs|
    ensures var w := Windows(xs, n);
            && w[|w| - 1] == xs[|xs| - n..]
            && (([] + w[..|w| - 1]) + [w[|w| - 1]]) == w
            && (w[..|w| - 1] + [w[|w| - 1]]) == w
  {
    WindowsAt(xs, n);
    var w := Windows(xs, n);
    assert w[..|w| - 1] + [w[|w| - 1]] == w;
  }

  // ---------------------------------------------------------------------
  // Grouping properties
  // ---------------------------------------------------------------------

  /** In fixed-bin mode, from a current bin of at most nbin observations,
      the bins produced are those of Chunks over the current bin followed
      by the new observations. */
  lemma {:induction false} LoopChunks(st: State, es: seq<Entry>, nbin: nat, mk: Builder)
    requires nbin >= 1 && |st.cur| <= nbin && AllBuild(es, mk)
    ensures Loop(st, es, nbin, false, mk).Ok?
    ensures Finish(Loop(st, es, nbin, false, mk).value) == st.done + Chunks(st.cur + Items(es, mk), nbin)
    decreases |es|
  {
    if es == [] {
      assert st.cur + Items(es, mk) == st.cur;
    } else {
      AllBuildTail(es, mk);
      var mine := Built(es[0], mk);
      var next := Advance(st, mine, nbin, false);
      StepValue(st, es[0], nbin, false, mk);
      LoopUnfold(st, es, nbin, false, mk, next);
      ChunksAdvance(st, mine, Items(es[1..], mk), nbin);
      LoopChunks(next, es[1..], nbin, mk);
    }
  }

  /** One fixed-bin step moves at most one observation from the input
      into the state without changing the bins still to come. */
  lemma ChunksAdvance(st: State, mine: seq<Obs>, rest: seq<Obs>, nbin: nat)
    requires nbin >= 1 && |st.cur| <= nbin && |mine| <= 1
    ensures var next := Advance(st, mine, nbin, false);
            && |next.cur| <= nbin
            && st.done + Chunks(st.cur + (mine + rest), nbin) == next.done + Chunks(next.cur + rest, nbin)
  {
    if |st.cur| == nbin {
      ChunksAfterFull(st.cur, mine + rest, nbin);
      assert [] + mine == mine;
      assert st.done + ([st.cur] + Chunks(mine + rest, nbin)) == (st.done + [st.cur]) + Chunks(mine + rest, nbin);
    } else {
      assert st.cur + (mine + rest) == (st.cur + mine) + rest;
    }
  }

  /** Fixed bins of nbin > 1, starting afresh: the new bins are the
      observations of the directory entries, in sorted order, cut into
      pieces of nbin; joined they give back those observations, and every
      bin but the last holds exactly nbin. */
  lemma FixedBins(es: seq<Entry>, nbin: nat, mk: Builder)
    requires nbin > 1 && AllBuild(es, mk)
    ensures Group([], es, nbin, false, mk) == Ok(Chunks(Items(es, mk), nbin))
    ensures Flatten(Group([], es, nbin, false, mk).value) == Items(es, mk)
    ensures var bins := Group([], es, nbin, false, mk).value;
            forall i :: 0 <= i < |bins| - 1 ==> |bins[i]| == nbin
  {
    LoopChunks(State([], []), es, nbin, mk);
    assert [] + Items(es, mk) == Items(es, mk);
    assert [] + Chunks(Items(es, mk), nbin) == Chunks(Items(es, mk), nbin);
    assert Group([], es, nbin, false, mk)
        == Ok(Finish(Loop(State([], []), es, nbin, false, mk).value));
    ChunksShape(Items(es, mk), nbin);
  }

  /** Sliding mode over directory entries only: once the current window
      is at most nbin long and enough entries follow, the loop ends with
      all windows but the last completed and the last one current. */
  lemma {:induction false} LoopWindows(st: State, es: seq<Entry>, nbin: nat, mk: Builder)
    requires nbin >= 1 && |st.cur| <= nbin && |st.cur| + |es| >= nbin
    requires AllBuild(es, mk) && AllDirs(es)
    ensures |st.cur + Items(es, mk)| >= nbin
    ensures var w := Windows(st.cur + Items(es, mk), nbin);
            Loop(st, es, nbin, true, mk) == Ok(State(st.done + w[..|w| - 1], w[|w| - 1]))
    decreases |es|
  {
    ItemsAllDirs(es, mk);
    if es == [] {
      assert st.cur + Items(es, mk) == st.cur;
      var w := Windows(st.cur, nbin);
      assert w == [st.cur];
      assert st.done + w[..0] == st.done;
    } else {
      AllBuildTail(es, mk);
      ItemsAllDirs(es[1..], mk);
      var mine := Built(es[0], mk);
      var next := Advance(st, mine, nbin, true);
      StepValue(st, es[0], nbin, true, mk);
      LoopUnfold(st, es, nbin, true, mk, next);
      WindowsAdvance(st, mine, Items(es[1..], mk), nbin);
      LoopWindows(next, es[1..], nbin, mk);
    }
  }

  /** One sliding step moves one observation from the input into the
      window without changing the windows still to come. */
  lemma WindowsAdvance(st: State, mine: seq<Obs>, rest: seq<Obs>, nbin: nat)
    requires nbin >= 1 && |st.cur| <= nbin && |mine| == 1 && |st.cur| + 1 + |rest| >= nbin
    ensures var next := Advance(st, mine, nbin, true);
            var w := Windows(st.cur + (mine + rest), nbin);
            var w1 := Windows(next.cur + rest, nbin);
            && |next.cur| <= nbin
            && st.done + w[..|w| - 1] == next.done + w1[..|w1| - 1]
            && w[|w| - 1] == w1[|w1| - 1]
  {
    var next := Advance(st, mine, nbin, true);
    if |st.cur| == nbin {
      assert next.done == st.done + [st.cur];
      assert next.cur == st.cur[1..] + mine;
      WindowsShift(st.cur, mine + rest, nbin);
      var w := Windows(st.cur + (mine + rest), nbin);
      var w1 := Windows(next.cur + rest, nbin);
      assert st.cur[1..] + (mine + rest) == next.cur + rest;
      assert st.done + w[..|w| - 1] == st.done + ([st.cur] + w1[..|w1| - 1]);
      assert st.done + ([st.cur] + w1[..|w1| - 1]) == next.done + w1[..|w1| - 1];
    } else {
      assert next == State(st.done, st.cur + mine);
      assert st.cur + (mine + rest) == next.cur + rest;
    }
  }

  /** The loop after a successful first step is the loop from its
      result. */
  lemma LoopUnfold(st: State, es: seq<Entry>, nbin: int, sliding: bool, mk: Builder, next: State)
    requires es != [] && Step(st, es[0], nbin, sliding, mk) == Ok(next)
    ensures Loop(st, es, nbin, sliding, mk) == Loop(next, es[1..], nbin, sliding, mk)
  {
  }

  /** Before a full window c and more elements ys: the first window is c,
      and the rest are the windows of c shifted by one followed by ys. */
  lemma WindowsShift<T>(c: seq<T>, ys: seq<T>, nbin: nat)
    requires 1 <= nbin == |c| && ys != []
    ensures var w := Windows(c + ys, nbin);
            var w1 := Windows(c[1..] + ys, nbin);
            && w[..|w| - 1] == [c] + w1[..|w1| - 1]
            && w[|w| - 1] == w1[|w1| - 1]
  {
    var xs := c + ys;
    assert xs[..nbin] == c;
    assert xs[1..] == c[1..] + ys;
  }

  /** Starting afresh with nbin != 1, the bins are those the loop leaves. */
  lemma FreshGroup(es: seq<Entry>, nbin: int, sliding: bool, mk: Builder, st: State)
    requires nbin != 1 && Loop(State([], []), es, nbin, sliding, mk) == Ok(st)
    ensures Group([], es, nbin, sliding, mk) == Ok(Finish(st))
  {
  }

  /** Sliding windows over n >= nbin directory entries, starting afresh:
      the result is the n - nbin + 1 windows of nbin consecutive
      observations. */
  lemma SlidingWindows(es: seq<Entry>, nbin: nat, mk: Builder)
    requires nbin > 1 && |es| >= nbin
    requires AllBuild(es, mk) && AllDirs(es)
    ensures |Items(es, mk)| == |es|
    ensures Group([], es, nbin, true, mk) == Ok(Windows(Items(es, mk), nbin))
    ensures var bins := Group([], es, nbin, true, mk).value;
            |bins| == |es| - nbin + 1
            && forall i :: 0 <= i < |bins| ==> bins[i] == Items(es, mk)[i..i + nbin]
  {
    ItemsAllDirs(es, mk);
    var xs := Items(es, mk);
    LoopWindows(State([], []), es, nbin, mk);
    assert [] + xs == xs;
    WindowsAt(xs, nbin);
    var w := Windows(xs, nbin);
    LastWindow(xs, nbin);
    FreshGroup(es, nbin, true, mk, State([] + w[..|w| - 1], w[|w| - 1]));
  }

  /** A trailing entry that is not a directory adds one more, partial,
      window: the last nbin - 1 observations. */
  lemma SlidingTrailingFile(es: seq<Entry>, f: Entry, nbin: nat, mk: Builder)
    requires nbin > 1 && |es| >= nbin && !f.isDir
    requires AllBuild(es, mk) && AllDirs(es)
    ensures |Items(es, mk)| == |es|
    ensures Group([], es + [f], nbin, true, mk)
         == Ok(Windows(Items(es, mk), nbin) + [Items(es, mk)[|es| - nbin + 1..]])
  {
    ItemsAllDirs(es, mk);
    var xs := Items(es, mk);
    LoopWindows(State([], []), es, nbin, mk);
    assert [] + xs == xs;
    var w := Windows(xs, nbin);
    var mid := State([] + w[..|w| - 1], w[|w| - 1]);
    LastWindow(xs, nbin);
    TrailingFileStep(mid, f, nbin, mk);
    LoopAppend(State([], []), es, [f], nbin, true, mk);
    FreshGroup(es + [f], nbin, true, mk, State(w, mid.cur[1..]));
  }

  /** A file after a full sliding window flushes it and drops its oldest
      observation. */
  lemma TrailingFileStep(st: State, f: Entry, nbin: nat, mk: Builder)
    requires nbin >= 1 && |st.cur| == nbin && !f.isDir
    ensures Loop(st, [f], nbin, true, mk) == Ok(State(st.done + [st.cur], st.cur[1..]))
  {
    StepValue(st, f, nbin, true, mk);
    assert Kept(st, nbin, true) + Built(f, mk) == st.cur[1..];
    LoopUnfold(st, [f], nbin, true, mk, Advance(st, Built(f, mk), nbin, true));
    assert [f][1..] == [];
  }

  /** The loop over `a + b` is the loop over `b` from where `a` ends. */
  lemma {:induction false} LoopAppend(st: State, a: seq<Entry>, b: seq<Entry>, nbin: int, sliding: bool, mk: Builder)
    ensures Loop(st, a + b, nbin, sliding, mk)
         == (match Loop(st, a, nbin, sliding, mk)
             case Err(e) => Err(e)
             case Ok(mid) => Loop(mid, b, nbin, sliding, mk))
    decreases |a|
  {
    if a == [] {
      assert a + b == b;
    } else {
      assert (a + b)[0] == a[0] && (a + b)[1..] == a[1..] + b;
      match Step(st, a[0], nbin, sliding, mk)
      case Err(_) =>
      case Ok(next) => LoopAppend(next, a[1..], b, nbin, sliding, mk);
    }
  }

  /** A sliding window of width 0 fails on the first entry of a fresh
      call: the full (empty) window cannot be shifted. */
  lemma SlidingWidthZero(es: seq<Entry>, mk: Builder)
    requires es != []
    ensures Group([], es, 0, true, mk) == Err(PopFromEmpty)
  {
  }

  /** With nbin == 1 each directory's observation is a bin of its own,
      appended after the bins already there. */
  lemma OneBinEach(obsfiles: seq<seq<Obs>>, es: seq<Entry>, mk: Builder)
    requires AllBuild(es, mk)
    ensures Group(obsfiles, es, 1, false, mk).Ok?
    ensures var r := Group(obsfiles, es, 1, false, mk).value;
            |r| == |obsfiles| + |Items(es, mk)|
            && r[..|obsfiles|] == obsfiles
            && forall i :: 0 <= i < |Items(es, mk)| ==> r[|obsfiles| + i] == [Items(es, mk)[i]]
  {
    assert [] + Items(es, mk) == Items(es, mk);
  }
}
