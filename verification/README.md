# glast-scripts core, modelled in Dafny

This project models the logic at the core of the glast-scripts analysis tools for Fermi-LAT data. Their science libraries are left out. It covers four pieces:

- **Sexagesimal coordinates** (`Sexagesimal`): `ModelManipulator.hmsStringToDeg` and `dmsStringToDeg`, two four-phase character scanners. Also `degToHMSString` and `degToDMSString`, which split an integer count of seconds "ticks" into zero-padded fields. Values are exact reals.
- **Source libraries and source selection** (`Seqs`, `SourceLibrary`, `Modelizer`):
  - The XML model as values: a library of source nodes, each with data sets of parameters.
  - The `list*Sources` queries, data-set and parameter access, `deleteNode`, `newNodeSource` and `sourceFreezeParametersByName`.
  - The `modelizer` filter pipeline `filterSources` and its option helpers `newManip`, `getValueAndFree` and `getScaledValue`.
- **Integral upper limit** (`UpperLimitEval`, `UpperLimitSearch`): the discrete control logic of `IntegralUpperLimit.calc`:
  - `_guess_nuisance`, `_cache_nuisance`, `_loglike` with its single retry, and the memoised `_root`;
  - the `all_frozen` flag;
  - the geometric bracket search with clipping and Brent refinement;
  - the spline-or-trapezoid choice;
  - the trapezoidal cumulative integral and its inversion;
  - the halving search on the spline integral.
- **Light curves** (`SpecialFunctions`, `ObsGrouping`):
  - `MyMath`: argument checks, kernel choice, the complement identity, the Newton loop of the inverses with its positivity safeguard, and the chi-square wrappers.
  - `LightCurve.globStandardObsDir`: how sorted directory entries become time bins of observations, in single, fixed-bin and sliding-window modes.

`Results` holds the `Option` and `Result` types. Foreign code the program calls becomes a parameter of function type. This covers the regular-expression engine, the angular region test, float parsing, the likelihood fit and value, Brent's root finder, the spline integral, the gamma-function kernels, `exp`, `log` and `lgamma`, and the file-existence test.

## Model

| member | source | states |
|---|---|---|
| `Sexagesimal.FormatInt` | ModelManipulator.py:242 | `'%02d'` of a non-negative number is its decimal digits, left-padded with zeros to the width; a negative number starts with '-' |
| `Sexagesimal.FloorDivMod` | ModelManipulator.py:230-234 | the floored quotient and remainder Python computes on the floored tick count recombine to the count and agree with Euclidean division by a positive divisor |
| `Sexagesimal.SplitTicks` | ModelManipulator.py:230-234 | minutes and seconds are below 60, the fraction is below the multiplier, and a non-negative count gives a non-negative leading field |
| `Sexagesimal.SplitTicksRecombine` | ModelManipulator.py:230-234 | for a tick count I >= 0 the emitted fields satisfy I == ((h*60+m)*60+s)*M + f, with no wrap of hours at 24 |
| `Sexagesimal.ReadFormattedFields` | ModelManipulator.py:100-141 | the four scanner phases read back exactly the fields a formatter printed, with ':' or 'h'/'m' separators and an optional trailing 's' |
| `Sexagesimal.HmsRoundTrip` | ModelManipulator.py:93-249 | hmsStringToDeg of degToHMSString (either separator style, nosep off) is exactly 15*I/(3600*10^d) |
| `Sexagesimal.HmsReadsTicks` | ModelManipulator.py:224-249 | the HMS parser reads the formatted string as 15 times the value of the split fields |
| `Sexagesimal.HmsStringToDeg` | ModelManipulator.py:93-149 | hmsStringToDeg reads the empty string as 0 degrees, refuses a leading '-', and never reads a negative angle |
| `Sexagesimal.DmsStringToDeg` | ModelManipulator.py:153-220 | dmsStringToDeg refuses the empty string; after an optional '+' it reads what hmsStringToDeg reads, divided by 15, and after '-' the negation of that |
| `Sexagesimal.DegToHmsString` | ModelManipulator.py:224-249 | the HMS string is never empty and ends in 's' if and only if hmssep is set and nosep is not |
| `Sexagesimal.DegToDmsString` | ModelManipulator.py:253-281 | the DMS string starts with '-' exactly for a negative angle and ends in 's' exactly when dmssep is set and nosep is not |
| `Sexagesimal.HmsLayout` | ModelManipulator.py:242-248 | the HMS string is a head without '.', then the fraction text, then the optional 's' |
| `Sexagesimal.FractionTextDigits` | ModelManipulator.py:243-245 | the fraction is printed only when sec_digits > 0, as '.' followed by exactly sec_digits digits whose value is the fraction |
| `Sexagesimal.DmsRoundTrip` | ModelManipulator.py:153-281 | dmsStringToDeg of degToDMSString with ':' separators is exactly the signed I/(3600*10^d) |
| `Sexagesimal.DmsReadsTicks` | ModelManipulator.py:253-281 | the DMS parser reads the signed formatted string as the sign times the value of the split fields |
| `Sexagesimal.DegreeSeparatorBodyRejected` | ModelManipulator.py:171-179 | a field body printed with the 'd' degree separator is refused by the first phase |
| `Sexagesimal.DmsDegreeSeparatorRejected` | ModelManipulator.py:271-273 | dmsStringToDeg refuses every string degToDMSString prints with dmssep set, so that format never round-trips |
| `Sexagesimal.NoSeparatorBodyRejected` | ModelManipulator.py:101-109 | with nosep and a fraction, all digits run into the first field and the '.' is refused there |
| `Sexagesimal.NoSeparatorFractionRejected` | ModelManipulator.py:236-238 | neither parser reads back a nosep string that carries a fraction |
| `Sexagesimal.LeadFieldRejects` | ModelManipulator.py:101-109 | a character in the leading field that is neither a digit nor ':', 'h' or ' ' makes the parse fail |
| `Sexagesimal.RejectsStrayCharacter` | ModelManipulator.py:171-179 | both parsers return None on a stray character in the leading field |
| `Sexagesimal.RejectsStrayAnywhere` | ModelManipulator.py:101-141 | a character that none of the four scanning phases accepts, anywhere before the first 's', makes hmsStringToDeg return None whatever follows; after the optional sign the same holds for dmsStringToDeg |
| `Sexagesimal.MinutesSeparatorRejected` | ModelManipulator.py:111-119 | after the leading field, a character in the minutes other than a digit, ':', 'm' or a blank (an 'h', a '.', an 's') makes hmsStringToDeg and dmsStringToDeg return None |
| `Sexagesimal.SecondsSeparatorRejected` | ModelManipulator.py:121-131 | in the seconds, a third ':', an 'h', an 'm' or a blank makes both parsers return None |
| `Sexagesimal.FractionSeparatorRejected` | ModelManipulator.py:133-140 | in the fraction, a second '.' or any of ':', 'h', 'm', blank makes both parsers return None |
| `Sexagesimal.ReadFieldsIgnoresAfterS` | ModelManipulator.py:128-141 | the four phases stop at the first 's': what follows it does not change the fields read |
| `Sexagesimal.IgnoresAfterS` | ModelManipulator.py:121-211 | both parsers ignore everything after the first 's' |
| `SourceLibrary.SourcesOf` | ModelManipulator.py:1108-1115 | listAllSources holds exactly the source nodes of the library |
| `SourceLibrary.DiffuseSources` | ModelManipulator.py:1117-1124 | listDiffuseSources is the order-preserving subsequence of the base list of diffuse sources |
| `SourceLibrary.PointSources` | ModelManipulator.py:1126-1133 | listPointSources is the order-preserving subsequence of point sources |
| `SourceLibrary.SourcesAtLimits` | ModelManipulator.py:1135-1143 | listSourcesAtSpectrumLimits keeps, in order, the sources the limits test accepts |
| `SourceLibrary.NamedSources` | ModelManipulator.py:1145-1186 | listNamedSources keeps, in base order, the sources whose name matches (exclude off) or does not match (exclude on) |
| `SourceLibrary.NamedExcludeIsUnlisted` | ModelManipulator.py:1145-1220 | listNamedSources with exclude is listUnlistedSources of listNamedSources without it |
| `SourceLibrary.NamedSplitsBase` | ModelManipulator.py:1150-1185 | the included and excluded lists together are a permutation of the base list |
| `SourceLibrary.RoiSources` | ModelManipulator.py:1188-1197 | listROISources keeps, in order, the point sources of the base list inside the region |
| `SourceLibrary.FrozenSources` | ModelManipulator.py:1199-1206 | listFrozenSources keeps the frozen-spectrum sources of the base list and ignores its listed argument |
| `SourceLibrary.UnlistedSources` | ModelManipulator.py:1208-1220 | listUnlistedSources is the base list minus the listed sources, order preserved |
| `SourceLibrary.GetDataset` | ModelManipulator.py:708-712 | None iff no child carries the tag; otherwise the first child that carries it, with none before it |
| `SourceLibrary.GetParameter` | ModelManipulator.py:749-755 | None iff no parameter has the name; otherwise the first parameter with it, with none before it |
| `SourceLibrary.NewParameter` | ModelManipulator.py:356-363 | a parameter outside its bounds is refused; otherwise it is created and appended after the existing parameters when a parent is given |
| `SourceLibrary.SetParameterData` | ModelManipulator.py:897-903 | overwrites, in place, the first parameter with the name, or else appends the new parameter; fails only when appending a value outside its bounds; the data set keeps its tag and type |
| `SourceLibrary.SetThenGetParameter` | ModelManipulator.py:897-903 | after a successful write, reading the parameter back by name gives the data written |
| `SourceLibrary.SetParameterDataAsWritten` | ModelManipulator.py:365-375 | as written, writing a parameter the data set lacks always fails; overwriting behaves as intended |
| `SourceLibrary.SourceSetParameterData` | ModelManipulator.py:905-909 | a source without the data set is left alone (False); otherwise it fails exactly when datasetSetParameterData fails on the first data set with the tag, that data set becomes datasetSetParameterData's result (sourceGetDataSet then finds it), and every other data set and the source's attributes are unchanged |
| `SourceLibrary.DeleteNode` | ModelManipulator.py:524-533 | deleteNode removes exactly the children with the tag, keeps the rest in order and leaves the source's attributes alone |
| `SourceLibrary.DeleteNodeIdempotent` | ModelManipulator.py:524-533 | deleting twice is deleting once, and afterwards no data set with the tag remains |
| `SourceLibrary.NewSource` | ModelManipulator.py:516-522 | newNodeSource creates a source with no data sets; with append it becomes the last source of the library, otherwise the library is unchanged; a fresh id keeps the library well formed |
| `SourceLibrary.FreezeSource` | ModelManipulator.py:914-942 | only the first data set with the tag changes, only in its parameters; a source without it is unchanged |
| `SourceLibrary.FreezeFrame` | ModelManipulator.py:917-941 | freezing keeps every parameter name in place and leaves every parameter whose name is not selected untouched |
| `SourceLibrary.FreezeUnique` | ModelManipulator.py:918-941 | with distinct names, exactly the selected parameters get the new free flag and nothing else changes |
| `SourceLibrary.FreezeAllFreezesSpectrum` | ModelManipulator.py:883-892 | freezing all spectral parameters with no names given makes sourceSpectrumIsFrozen true |
| `Modelizer.Center` | modelizer.py:226-228 | a `--srcroi` centre is the looked-up position of the named source and fails when the name is unknown |
| `Modelizer.ApplyFilter` | modelizer.py:218-240 | every filter but 'frozen' and 'invert' yields a subsequence of the current list; those two yield a subsequence of the whole library; only an unknown `--srcroi` name fails |
| `Modelizer.RunAppend` | modelizer.py:214-241 | the filters apply strictly left to right: running a + b is running a, then b on its result |
| `Modelizer.FilterSourcesInLibrary` | modelizer.py:214-241 | the selection is always a subsequence of the library's sources, in library order |
| `Modelizer.InvertIsComplement` | modelizer.py:237-238 | 'invert' yields exactly the library's sources that are not in the current selection |
| `Modelizer.InvertInvert` | modelizer.py:237-238 | inverting twice gives back any selection drawn from a library of distinct sources |
| `Modelizer.FrozenIgnoresSelection` | modelizer.py:235-236 | 'frozen' gives all frozen-spectrum sources of the whole library, whatever the current selection |
| `Modelizer.RoiKeepsPointSourcesInside` | modelizer.py:225-230 | a region filter keeps exactly the point sources of the selection inside the region around its centre |
| `Modelizer.ApplyFilterAsWritten` | modelizer.py:225-230 | as written, a `--roi` filter leaves the list unchanged; every other filter behaves as intended |
| `Modelizer.PlainRoiDiscrepancy` | modelizer.py:225-230 | for every selection, the intended region filter returns a subsequence of what the code as written returns (the selection itself), equal to it iff every selected source is a point source inside the region |
| `Modelizer.PlainRoiCounterexample` | modelizer.py:225-230 | a library of one diffuse source keeps it under `--roi` as written, while the region filter keeps nothing |
| `Modelizer.AsWrittenAgreesWithoutPlainRoi` | modelizer.py:214-241 | without a `--roi` filter the pipeline as written and as intended agree |
| `Modelizer.NewManip` | modelizer.py:175-181 | newManip appends the previous build if there is one and starts a fresh build with no filters and the given type |
| `Modelizer.Flush` | modelizer.py:807-809 | the last build, if any, is appended after the others |
| `Modelizer.NewManipThenFlush` | modelizer.py:175-181 | starting a manipulation adds exactly one empty build after everything already there |
| `Modelizer.GetValueAndFree` | modelizer.py:191-199 | a leading '@' is stripped and reports the value fixed; otherwise the value is free; an unparsable number gives no value |
| `Modelizer.FixedMarker` | modelizer.py:193-195 | the '@' marker changes only the free flag, never the value read |
| `Modelizer.GetScaledValue` | modelizer.py:201-212 | a leading 'x' gives the number times the reference value; otherwise the number itself |
| `Modelizer.ScaleMarker` | modelizer.py:203-210 | the 'x' marker multiplies the number read without it by the reference value |
| `SpecialFunctions.Screen` | LightCurve.py:88-92 | x == 0 gives 0 before a is examined; x < 0, or a <= 0 with x != 0, is a ValueError; the rest pass |
| `SpecialFunctions.Ser` | LightCurve.py:33-41 | the series kernel applies its own argument checks before summing |
| `SpecialFunctions.Cfrac` | LightCurve.py:55-61 | the continued-fraction kernel applies the same argument checks |
| `SpecialFunctions.GammaInc` | LightCurve.py:87-96 | gammainc uses the series iff x < a+1 and otherwise 1 minus the continued fraction, after the argument checks |
| `SpecialFunctions.GammaIncC` | LightCurve.py:99-108 | gammaincc uses 1 minus the series iff x < a+1 and otherwise the continued fraction |
| `SpecialFunctions.Complement` | LightCurve.py:86-108 | for x > 0 and a > 0 the two routines fail together and otherwise sum to 1, whatever the kernels return |
| `SpecialFunctions.ZeroArgument` | LightCurve.py:88-89 | at x == 0 both return 0, so their sum is 0, not 1 |
| `SpecialFunctions.SameOutsideDomain` | LightCurve.py:100-104 | outside the domain both routines give the same answer: 0 at x == 0 and a ValueError otherwise |
| `SpecialFunctions.NextIterate` | LightCurve.py:140-142 | a Newton step that would leave the positive axis is replaced by half the current point, so a positive iterate stays positive |
| `SpecialFunctions.Newton` | LightCurve.py:139-149 | the Newton loop answers with a finite value, positive when it starts from a positive point |
| `SpecialFunctions.NewtonGivesUp` | LightCurve.py:139-149 | the loop only stops early by converging: a search that can never meet its test ends, from any iteration, with RuntimeError once the iteration cap is reached |
| `SpecialFunctions.ScreenInverse` | LightCurve.py:112-119 | p == 0 gives 0 and p == 1 gives +infinity; p outside [0, 1], or a <= 0, is a ValueError |
| `SpecialFunctions.GammaInv` | LightCurve.py:111-149 | gammainv keeps the boundary answers and the domain errors, and +infinity only at p == 1 |
| `SpecialFunctions.GammaInvC` | LightCurve.py:152-190 | gammainvc has the same boundary answers and domain errors |
| `SpecialFunctions.InversePositive` | LightCurve.py:121-149 | for 0 < p < 1 a successful gammainv is a positive finite number |
| `SpecialFunctions.InverseCPositive` | LightCurve.py:162-190 | for 0 < p < 1 a successful gammainvc is a positive finite number |
| `SpecialFunctions.Chi2Inv` | LightCurve.py:200-202 | chi2inv succeeds iff gammainv at a/2 does, and is then twice it; p == 0 gives 0, p == 1 gives +infinity and only p == 1 does, and p outside [0, 1] is a ValueError |
| `SpecialFunctions.Chi2Invc` | LightCurve.py:204-206 | chi2invc succeeds iff gammainvc at a/2 does, and is then twice it, with the same boundary answers and domain errors |
| `SpecialFunctions.Chi2Cdf` | LightCurve.py:192-194 | chi2cdf is 0 at x = 0 and a ValueError for x < 0 or a <= 0; otherwise the series when x < a + 2 and one minus the continued fraction beyond, both at (x/2, a/2) |
| `SpecialFunctions.Chi2Cdfc` | LightCurve.py:196-198 | chi2cdfc has the same zero and domain errors; otherwise one minus the series when x < a + 2 and the continued fraction beyond |
| `SpecialFunctions.Chi2Complement` | LightCurve.py:192-198 | for x > 0 and a > 0, chi2cdf and chi2cdfc fail together and otherwise sum to 1 |
| `ObsGrouping.FirstMissing` | LightCurve.py:287-294 | the first file of the list that does not exist, every file before it existing; none only when all exist |
| `ObsGrouping.MakeObs` | LightCurve.py:265-323 | an observation is made iff the analysis type is known and every required file exists; every path is the one addUnbinnedObs or addBinnedObs builds from the directory, source name, FT2 and IRF defaults; an unknown type fails first, otherwise the error names the first missing file in checking order |
| `ObsGrouping.AddSingles` | LightCurve.py:231-235 | with nbin == 1 the observations of the directories are appended in sorted order, failing iff some directory's observation cannot be made |
| `ObsGrouping.Step` | LightCurve.py:242-247 | a full bin joins the finished bins in both modes, keeping all of the current bin when not full, all but its oldest observation when sliding, nothing otherwise; a directory's observation is appended last; fails iff a sliding window of width 0 pops or the directory's observation cannot be built |
| `ObsGrouping.Group` | LightCurve.py:231-263 | with nbin == 1 the grouping succeeds iff every directory's observation can be made |
| `ObsGrouping.UnknownAnalysisRejected` | LightCurve.py:277-279 | an unknown analysis type is rejected at the first directory |
| `ObsGrouping.LoopChunks` | LightCurve.py:241-249 | in fixed-bin mode the bins produced are the chunks of the current bin followed by the new observations |
| `ObsGrouping.FixedBins` | LightCurve.py:236-249 | starting afresh with nbin > 1, the bins joined give back the observations in sorted order, and every bin but the last holds exactly nbin |
| `ObsGrouping.ChunksShape` | LightCurve.py:242-249 | the reference chunking joins back to its input, and every piece but the last has exactly n elements |
| `ObsGrouping.LoopWindows` | LightCurve.py:255-261 | in sliding mode over directories the loop ends with all windows but the last completed and the last one current |
| `ObsGrouping.SlidingWindows` | LightCurve.py:250-263 | n >= nbin directories give exactly the n - nbin + 1 windows of nbin consecutive observations |
| `ObsGrouping.SlidingTrailingFile` | LightCurve.py:255-263 | a trailing entry that is not a directory adds one more, partial, window of the last nbin - 1 observations |
| `ObsGrouping.SlidingWidthZero` | LightCurve.py:256-258 | a sliding window of width 0 fails on the first entry with IndexError |
| `ObsGrouping.OneBinEach` | LightCurve.py:231-235 | with nbin == 1 each observation is a bin of its own, appended after the existing bins |
| `UpperLimitEval.CacheNuisance` | IntegralUpperLimitTest.py:44-51 | the cache maps x to the current free values, keeps every other entry and stays sorted by key |
| `UpperLimitEval.InsertLookup` | IntegralUpperLimitTest.py:51 | after `cache[x] = values`, x maps to values and every other key to what it mapped to before |
| `UpperLimitEval.GuessNuisance` | IntegralUpperLimitTest.py:24-42 | the model is unchanged with fewer than two cached points or x outside them; otherwise only free parameters change, and it fails iff a cached point is short of values |
| `UpperLimitEval.GuessedValue` | IntegralUpperLimitTest.py:32-42 | each free parameter gets the interpolation of its cached column, clamped to its bounds |
| `UpperLimitEval.InterpBetween` | IntegralUpperLimitTest.py:37 | the interpolated value lies between the values at the two ends of its segment |
| `UpperLimitEval.GuessAtCachedPoint` | IntegralUpperLimitTest.py:27-42 | at a cached point the guess restores, within bounds, the values cached there |
| `UpperLimitEval.Clamp` | IntegralUpperLimitTest.py:39 | the clamped value lies within the bounds and equals the input when that already does |
| `UpperLimitEval.FitWithRetry` | IntegralUpperLimitTest.py:69-79 | a failing first fit leads to exactly one more from where it stopped; a second failure propagates |
| `UpperLimitEval.LogLike` | IntegralUpperLimitTest.py:53-82 | the result is always logLike minus the offset at the parameters left; without the optimiser the normalisation is fixed and nothing else changes |
| `UpperLimitEval.NoOptimizerNoFit` | IntegralUpperLimitTest.py:65-68 | with no_optimizer there is no fit and no cache update |
| `UpperLimitEval.RetryOnce` | IntegralUpperLimitTest.py:69-79 | with the optimiser, one or two fits run, the second with no new guess, and the evaluation fails only if both fail |
| `UpperLimitEval.FitIsCached` | IntegralUpperLimitTest.py:73-78 | after a successful fit the cache holds the fitted free values at x |
| `UpperLimitEval.Root` | IntegralUpperLimitTest.py:96-109 | a stored x returns its stored value with nothing changed; otherwise it fails exactly when `_loglike` fails, and on success stores and returns the log-likelihood of the new parameters minus `subval`, after one more evaluation, keeping the other entries |
| `UpperLimitEval.RootMemoised` | IntegralUpperLimitTest.py:101-106 | a second call at the same x returns the stored value and makes no log-likelihood evaluation |
| `UpperLimitEval.FreezeOthers` | IntegralUpperLimitTest.py:219-223 | freeze_all clears the free flag of every parameter of another source and changes nothing else |
| `UpperLimitEval.AllFrozenAsWrittenMeansAllFree` | IntegralUpperLimitTest.py:225-229 | as written, the all_frozen flag is true iff every parameter is free |
| `UpperLimitEval.NoOptimizer` | IntegralUpperLimitTest.py:65-67 | the intended flag: no parameter except the normalisation is free |
| `UpperLimitEval.FreezeOthersFlags` | IntegralUpperLimitTest.py:218-229 | after freeze_all the flag as written is set iff every parameter belongs to the source and is free, while the intended flag is set iff no parameter of the source but the normalisation is free |
| `UpperLimitEval.NoOptimizerNothingToFit` | IntegralUpperLimitTest.py:61-68 | with the intended flag set, fixing the normalisation leaves the optimiser nothing to fit |
| `UpperLimitEval.AllFrozenCounterexample` | IntegralUpperLimitTest.py:225-229 | two free parameters set the flag as written, so the fit is skipped though it has work to do |
| `UpperLimitEval.FreezeAllCounterexample` | IntegralUpperLimitTest.py:219-229 | after freeze_all only the normalisation is free; the flag is cleared as written though nothing is left to fit |
| `UpperLimitSearch.RootAt` | IntegralUpperLimitTest.py:96-106 | `_root` in a sorted-cache state: memo hit; on a miss, the error of `_loglike` or its value (log-likelihood minus `subval`, one more evaluation), stored; other entries kept |
| `UpperLimitSearch.DescendLo` | IntegralUpperLimitTest.py:255-260 | the descent stops at or below limlo or at a point of negative root value; it only passes points of non-negative value and never goes below 0 from a non-negative start |
| `UpperLimitSearch.AscendHi` | IntegralUpperLimitTest.py:270-275 | the ascent stops at or above limhi or at a point of negative root value, passing only points of non-negative value |
| `UpperLimitSearch.RefineLo` | IntegralUpperLimitTest.py:261-268 | a clipped bound whose root value is non-negative is kept with no Brent call; otherwise Brent refines; the result is at least limlo |
| `UpperLimitSearch.RefineHi` | IntegralUpperLimitTest.py:276-283 | the mirror image: the result is at most limhi |
| `UpperLimitSearch.Bounds` | IntegralUpperLimitTest.py:255-283 | the integration bounds lie within the parameter's bounds whenever Brent answers inside its bracket, and on either side of the fitted value when the lower limit is non-negative |
| `UpperLimitSearch.ClippedLowerBound` | IntegralUpperLimitTest.py:261-268 | when the descent is clipped to limlo and the root value there is non-negative, the lower bound is limlo itself, with no Brent refinement |
| `UpperLimitSearch.Cumulative` | IntegralUpperLimitTest.py:381-385 | Cint[i] is the trapezoidal integral over the first i panels |
| `UpperLimitSearch.CdfEnds` | IntegralUpperLimitTest.py:386-387 | the normalised cumulative integral starts at 0 and ends at 1 |
| `UpperLimitSearch.CdfMonotone` | IntegralUpperLimitTest.py:381-387 | on increasing abscissae and non-negative samples it never decreases |
| `UpperLimitSearch.FirstAtLeast` | IntegralUpperLimitTest.py:390-393 | ilimit is the first index whose cumulative value reaches ul, and none exists iff every value is below ul |
| `UpperLimitSearch.CrossingBetween` | IntegralUpperLimitTest.py:401 | the interpolated crossing lies within its panel |
| `UpperLimitSearch.CrossingOnLine` | IntegralUpperLimitTest.py:396-401 | interpolating the line through (x1, y1), (x2, y2) back at `xlim` gives `ul`; a vertical segment gives x1 |
| `UpperLimitSearch.InvertCdf` | IntegralUpperLimitTest.py:389-401 | for 0 < ul <= 1 the limit lies in [x[ilimit-1], x[ilimit]] of the first panel reaching ul; ul <= 0 reads x[-1]; no index is found iff all values are below ul; every limit is where the chord from x[ilimit-1] to x[ilimit] reaches ul |
| `UpperLimitSearch.InvertTrapz` | IntegralUpperLimitTest.py:381-401 | a zero total integral fails, and otherwise the limit is where the chord into the first sample of the normalised integral reaching ul crosses ul, inside that panel when x increases; no sample reaching ul is the only other failure |
| `UpperLimitSearch.TrapezoidLimit` | IntegralUpperLimitTest.py:381-388 | the running sums of the trapezoids, divided in place by the total, give exactly the limit InvertTrapz defines from the recursive integral |
| `UpperLimitSearch.ShrinkRatio` | IntegralUpperLimitTest.py:366-367 | after k halvings the loop test xdelta/(xhi-xlo) > 1e-8 holds exactly while k <= 26 |
| `UpperLimitSearch.FinalHalfWidth` | IntegralUpperLimitTest.py:363-367 | the search ends with xdelta equal to (xhi-xlo)/2^27 |
| `UpperLimitSearch.SplineSearch` | IntegralUpperLimitTest.py:361-373 | the halving search terminates strictly inside [xlo, xhi], within (xhi-xlo)/2^27 of a crossing of yseek; a zero-width range fails |
| `UpperLimitSearch.UpperLimit` | IntegralUpperLimitTest.py:356-401 | the spline search runs iff the spline integral is strictly closer to the quadrature than the trapezoid, ties going to the trapezoid |

## Left out

- File and XML I/O, DOM parsing and printing, the `modelizer` command line, DS9 output and the other scripts of the repository: these are glue around external libraries.
- The regular-expression engine, float parsing (`isFloat`, `float`), the angular region test, the spectrum-limits test and `os.path.isfile` are parameters. The gamma kernels `_gamma_ser` and `_gamma_cfrac`, `exp`, `log` and `lgamma` are parameters too, as are the likelihood fit and value, `scipy.integrate.quad`, `splrep`/`splint` and `brentq`. Only the logic around them is modelled.
- Floating point: all arithmetic is exact over `real`. Rounding, overflow and underflow are not modelled, and neither is the `%g` formatting of parameter attributes.
- Sexagesimal.DegToHmsString: takes the tick count floor(deg * 10^d * 3600 / 15) as an integer input rather than computing it from a float.
- Sexagesimal.DegToDmsString: likewise takes floor(|deg| * 10^d * 3600) and the sign of deg.
- UpperLimitSearch.DescendLo: takes a `fuel` bound, and running out of it is an error. The source loops until the root value turns negative or the bound is passed, which in floating point ends by underflow. AscendHi is the same.
- UpperLimitSearch.UpperLimit: takes the sorted samples `xs`, `ys` of `f_of_x`, and the quadrature and spline integrals, as inputs. `_integrand`, which fills `f_of_x`, and the list of samples returned with the limit are not modelled.
- UpperLimitSearch.SplineSearch: the loop test is exact real arithmetic, so the search always makes 26 halvings after the first. Floating-point division may end it one step earlier or later.
- UpperLimitSearch.Brackets: Brent's root finder is assumed to answer inside its bracket. The properties of `Bounds`, `RefineLo` and `RefineHi` that bound the result depend on this. The tolerance `brent_xtol` is part of the finder.
- ObsGrouping.Group: in the nbin == 1 mode, observations are appended to `obsfiles` bare. The model holds each as a one-observation bin. Calls that mix modes on one light curve are not modelled.
- ObsGrouping.MakeObs: the FT2 file falls back to the object's default, which the model takes to be a string. In the source it may be None, and `os.path.isfile(None)` raises TypeError.
- SourceLibrary.GetDataset: `getElementsByTagName` searches all descendants. The model searches the source's children, since a data set's tag never occurs deeper in a source.
- An exception part-way through an operation leaves the DOM or the likelihood object partly changed in the source. The model returns only the error.
- `sourceChangeEnergyRange`, `refactorSpectrumAsLP`, `fluxScale`, `meanEnergy`, `angsep`, `isInROI` and `dataIsAtLimits`: floating-point helpers outside the modelled core.
- `LightCurve.processAllObs`, `generateLC`, `writeLC` and the pickle and load helpers call the external likelihood, `scipy` and the file system.

## Findings

| source | as written | input that shows it | evidently intended | confidence | as-written member | corrected member |
|---|---|---|---|---|---|---|
| modelizer.py:225-230 | the region filter is applied only when it names a source (`--srcroi`), so a `--roi R,D,O` filter leaves the selection unchanged | a library with one diffuse source and the filter `--roi 0,0,10`: the diffuse source stays selected | `--roi` keeps the point sources inside the region, as its help text at modelizer.py:138-140 says | high; not executed | `Modelizer.ApplyFilterAsWritten` (exhibited by `Modelizer.PlainRoiCounterexample` and, for every selection, `Modelizer.PlainRoiDiscrepancy`) | `Modelizer.ApplyFilter` (proved in `Modelizer.RoiKeepsPointSourcesInside`) |
| IntegralUpperLimitTest.py:225-229 | `all_frozen` starts True and turns False at the first parameter that is NOT free, so it is True only when every parameter is free | two free parameters of the source: the flag is set and the fit is skipped; with `freeze_all` and only the normalisation free, the flag is cleared | the flag is set when no parameter other than the normalisation is free (the comment at lines 65-67) | high; not executed | `UpperLimitEval.AllFrozenAsWrittenMeansAllFree` (exhibited by `UpperLimitEval.AllFrozenCounterexample`) | `UpperLimitEval.NoOptimizer` (proved in `UpperLimitEval.NoOptimizerNothingToFit`) |
| ModelManipulator.py:365-375 | `newNodeParameterData` passes the data dictionary to the seven-argument static `setParameterAttributes`, so after its checks it always raises TypeError; `datasetSetParameterData` can therefore never add a parameter | writing `Prefactor` into a spectrum that has no such parameter | create the parameter with the attributes written by `setParameterAttributesData` and append it | high; not executed | `SourceLibrary.SetParameterDataAsWritten` (exhibited by `SourceLibrary.AppendParameterCounterexample`) | `SourceLibrary.SetParameterData` (proved in `SourceLibrary.SetThenGetParameter`) |
