# hellstroms_hive: algorithms of the analysis driver

A Dafny model of the self-contained algorithms inside the hive analysis driver: the
covariance collapse and its shape/normalisation split, the hash and the entry-list file keyed
by it, the multi-plane candidate builder, the flattening of event trees and the way back, the
grid scan over BDT cuts with its projections and prefilter, the truncated mean, the tinyxml
string buffer, the score gather/scatter, the run lists, the greedy file matching and the
formula rewriter.

ROOT objects are replaced by the structures they stand for: a `TTree` is a sequence of rows, a
`TEntryList` an increasing index sequence with a cursor, a `TMatrixT` an `array2<real>`, a
`TH1` a sequence of bins. Doubles are exact reals. Predictions, chi values, cuts, random
draws and square roots are parameters. Loops of the source are loops here; each is proved equal
to a specification function, and the lemmas are about those functions.

`dafny verify dfyconfig.toml` checks everything.

| file | content |
|---|---|
| `Sums.dfy`, `Matrices.dfy`, `Arithmetic.dfy`, `Doubles.dfy`, `Sorting.dfy`, `Wrappers.dfy` | finite sums, bilinear forms, index arithmetic, doubles, sorted arrangements, options |
| `Covariance.dfy` | scale-and-collapse of a fractional covariance, total normalisation variance |
| `NormShape.dfy` | shape / mixed / normalisation split of a matrix |
| `JenkinsHash.dfy`, `EntryListCache.dfy` | 64-bit hash with explicit inverses, persistent entry-list file |
| `Candidates.dfy` | two-dimensional shower candidates |
| `FlatTree.dfy` | flat trees, flat friends, unflattening |
| `GridIndex.dfy`, `GridScan.dfy` | mixed-radix index, argmax, projections |
| `EntryPrefilter.dfy`, `StageRuns.dfy` | stage entry lists, and runs of the calls that draw and set them |
| `CutGrid.dfy`, `SignificanceScan.dfy` | the grid of cuts, when the prefilter loses nothing, and the whole significance scan |
| `TruncMean.dfy` | iterative truncated mean, truncated mean profile |
| `TinyString.dfy` | growable string buffer |
| `BdtApp.dfy` | gather, predict, scatter; super-BDT merge |
| `Arborist.dfy` | greedy run/subrun/event matching |
| `Formula.dfy` | `simple_` prefixing of score names |
| `RunList.dfy` | run lists, duplicates, intersections, subsets |

## What the proofs found

These promises hold only under a condition; the condition is proved to be exact in each case.

- Unflattening restores the events exactly when the file has at least one event and no kept
  event with candidates follows a dropped one other than event 0: the row loop catches up by
  one entry per row, so scores after a gap land in the entries of earlier events.
- A flat friend lines up with its flat tree exactly when nothing was filtered out and no event
  declares more candidates than its vectors hold (one declared with none held also agrees).
- The entry-list file serves an earlier configuration the lists of the configuration
  generated last, because keys accumulate while the list names are shared; two requests whose
  name, cuts and tree join to one text share an entry wherever the boundaries lie.
- `super_bdt_app` writes the right rows for every skim and evaluator exactly when the skim is
  not empty (or there are no events) and no row behind the first non-ascending one belongs to
  an event: the merge waits for good at a row whose entry has been passed. An empty skim has
  its default values evaluated for row 0.
- A trim of the iterative truncated mean empties the list exactly when the signed width is
  negative; for a positive number of sigmas that is a single negative value, whose "RMS" is the
  value itself. `Median` then reads past the end. Over the whole recursion, with a positive
  number of sigmas, that happens exactly when one of the first three lists goes on to be
  trimmed while it is a single negative value: from the fourth call on the exchanged arguments
  demand at least two values. [-1.0] with nmin 0, nmax 1 and a large previous median fails.
- The recursive call of `CalcIterativeTruncMean` exchanges the iteration number and the minimal
  length. It still terminates, but a minimal length of at least the maximal number of
  iterations stops it after one trim.
- The stopping test divides by the previous median: a negative one counts as converged at once.
- The window of the profile has an exclusive upper end, so the last point is in no window.
- A profile value is 0/0 exactly when its non-empty window has a non-positive signed width; for
  positive data and sigmas, exactly for windows of several equal values.
- `add_simple_to_formula` is exact unless a "_mva" that starts the formula, or directly follows
  another, has an operator after it: `pos-1` then wraps around and text is repeated.
- A stage list is drawn inside the list that is active. A run of draws and settings gives every
  file the right lists exactly when no stage that is set and has a cut of its own was drawn
  inside a later one. With settings alone that is: no step down to an unvisited stage. With a
  draw before each setting, as in the efficiency plots, it is: no step down at all, so the
  denominator of the second variable is drawn inside the numerator of the first. A second scan
  keeps the list of the first.
- The significance scan reports the best grid point for the counts over all entries when every
  axis is safe, but its total signal is counted after the lists are set, so it is the signal
  above the minima; it is the preselected signal for all data only without any BDT.
- Counting inside the entry list built at the scan minima is lossless for all data exactly when
  neither the first nor the last rounded cut of any axis lies below its minimum. The automatic
  range is safe exactly when some file scores above -1/1800: a file whose only event scores
  -0.0006 gets -0.001 as its last cut and loses the event.
- `unique_events` counts the distinct entries exactly when no listed (run, subrun, -1) entry
  is new after another entry of its pair.
- The third-plane test of the candidate builder assigns the flags of the second member to those
  of the first. A pair grows as the comment says exactly when no third-plane candidate that
  meets each direction at a different member comes before the first that matches one member
  both ways.
- `append` reads freed memory exactly when its argument points into the own buffer and that
  buffer is replaced, which is when it has to grow; `assign` never does.

## Model

| member | source | states |
|---|---|---|
| Covariance.SimpleCollapse | hive/src/bdt_datamc.cxx:1860-1912 | entry (a, b) of the output is the sum of the entries (n bins + a, m bins + b) of the stack |
| Covariance.CalcCollapsedCovariance | hive/src/bdt_datamc.cxx:1704-1766 | refuses exactly on the two size errors and then changes nothing; otherwise entry (a, b) sums the finite fractional entries times the two spectrum values over all blocks |
| Covariance.CalcTotalNormError | hive/src/bdt_datamc.cxx:1916-1970 | returns the grand sum of its argument |
| Covariance.CollapseBilinear | hive/src/bdt_datamc.cxx:1883-1909 | the bilinear form of a collapsed matrix at (y, x) is that of the full matrix at y and x repeated over the blocks |
| Covariance.CollapsedForm | hive/src/bdt_datamc.cxx:1728-1751 | the covariance of every two directions survives scaling and collapsing: it is the full fractional form at y_(i mod bins) v_i and x_(i mod bins) v_i |
| Covariance.CollapsedVariance | hive/src/bdt_datamc.cxx:1728-1751 | in particular the variance of every direction |
| Covariance.CollapsedIsCovariance | hive/src/bdt_datamc.cxx:1728-1751 | positive semidefiniteness and symmetry survive scaling and collapsing |
| Covariance.TotalNormIsFullVariance | hive/src/bdt_datamc.cxx:1916-1970 | the total of the collapsed matrix is the total of the full one, which is the variance v^T F v of the total prediction |
| NormShape.SplitNormShape | hive/src/bdt_file.cxx:25-67 | divides the vector by its sum in place and returns the three parts, each written out in the given vector, its sum, and the row, column and total sums of the matrix |
| NormShape.PartsAddUp | hive/src/bdt_file.cxx:46-62 | shape, mixed and norm add up to the input |
| NormShape.PartsSums | hive/src/bdt_file.cxx:46-62 | every row and column of shape sums to zero, mixed sums to zero in total, norm carries the whole total |
| NormShape.SplitOfSplit | hive/src/bdt_file.cxx:46-62 | splitting a part again gives that part and zero in the other two places |
| NormShape.ShapeFixedPoints | hive/src/bdt_file.cxx:46-62 | the shape part is the whole matrix iff all row and column sums vanish |
| NormShape.RescalingIsInvisible | hive/src/bdt_file.cxx:36-43 | rescaling the weight vector changes no part |
| NormShape.ShapeVariance | hive/src/bdt_file.cxx:46-62 | the shape variance of a direction is the full variance of the direction with its weighted mean removed |
| NormShape.ShapeVarianceOfVector | hive/src/bdt_file.cxx:36-62 | the mean that is removed is the one weighted with the given vector, (sum of v_i x_i) / (sum of v_i) |
| NormShape.ShapeIsCovariance | hive/src/bdt_file.cxx:46-62 | the shape part of a covariance is positive semidefinite and symmetric |
| JenkinsHash.ComputeHash | hive/src/global_func.cxx:16-30 | the loop computes the hash of the key on 64-bit words |
| JenkinsHash.KnownHashes | hive/src/global_func.cxx:16-30 | the hashes of the empty key, "a", "ab" and a character above 127 |
| JenkinsHash.RoundIsBijection | hive/src/global_func.cxx:20-24 | each round is a bijection of the 64-bit states, by an explicit inverse |
| JenkinsHash.FinishIsBijection | hive/src/global_func.cxx:25-28 | so is the finaliser |
| JenkinsHash.AbsorbIsBijection | hive/src/global_func.cxx:20-24 | so is the whole loop for a fixed key, undone by running the inverses backwards |
| JenkinsHash.HashIffRewindsToZero | hive/src/global_func.cxx:16-30 | a key has a hash iff rewinding the hash over the key ends in the initial state |
| JenkinsHash.SuffixPreservesCollisions | hive/src/global_func.cxx:16-30 | a common suffix neither makes nor breaks a collision |
| JenkinsHash.OneCharacterNeverCollides | hive/src/global_func.cxx:16-30 | keys of equal length that differ in exactly one character have different hashes |
| JenkinsHash.LeadingNulCollides | hive/src/global_func.cxx:16-30 | the equal length is needed: a leading NUL never changes the hash |
| EntryListCache.DrawMeaning | hive/src/bdt_file.cxx:776-780 | a drawn list holds exactly the passing rows, in order |
| EntryListCache.EntryLists.CalcBaseEntryList | hive/src/bdt_file.cxx:735-803 | known hash: the lists stored under the two names; otherwise the topological list holds exactly the events of stage 0, the precut list those of stage 1, and both are stored with the key |
| EntryListCache.FreshIff | hive/src/bdt_file.cxx:735-803 | over every history, a request is served its own lists iff its hash is new or the lists generated last (overall, and for its tree) agree with its own |
| EntryListCache.LastGeneratedIsFresh | hive/src/bdt_file.cxx:754-770 | the configuration generated last, or one never generated, is served its own lists |
| EntryListCache.OneConfigurationIsSafe | hive/src/bdt_file.cxx:754-770 | repeating one configuration always yields its own lists |
| EntryListCache.SwitchingBackIsStale | hive/src/bdt_file.cxx:754-797 | going back to an earlier configuration yields the lists of the other one |
| EntryListCache.OneCharacterChangeRegenerates | hive/src/bdt_file.cxx:739-743 | a one-character change of the key always regenerates the lists |
| EntryListCache.MovedBoundaryHits | hive/src/bdt_file.cxx:739-743 | a moved boundary between name, cuts and tree name is invisible and serves the other lists |
| EntryListCache.MovedDigitServesOthers | hive/src/bdt_file.cxx:739-743 | the failing input: name "n" with cuts "13" and name "n1" with cuts "3" share a key and a list |
| Candidates.PairUp | hive/src/bdt_precalc.cxx:1532-1553 | lists exactly the pairs on different planes that contain each other's mean tick |
| Candidates.GrowPair | hive/src/bdt_precalc.cxx:1556-1580 | a pair takes the first candidate on the third plane that joins it, and no other |
| Candidates.AddSingletons | hive/src/bdt_precalc.cxx:1583-1593 | adds exactly the candidates that no cluster uses |
| Candidates.CompareSorting | hive/inc/bdt_file.h:58-64 | compares as bags and reorders both arguments in place |
| Candidates.RemovePermutations | hive/src/bdt_precalc.cxx:1596-1607 | keeps the first of each group of permutations although the comparison reorders clusters |
| Candidates.DistinctOrder | hive/src/bdt_precalc.cxx:1596-1607 | the kept ones stand in the order of their first occurrence |
| Candidates.BuildCandidates | hive/src/bdt_precalc.cxx:1525-1607 | the final list holds exactly the built clusters, no two with the same members |
| Candidates.SomeClusterHolds | hive/src/bdt_precalc.cxx:1583-1593 | every candidate is in some cluster |
| Candidates.PlanesAreDistinct | hive/src/bdt_precalc.cxx:1556-1563 | members of a cluster are on pairwise different planes, so at most three, each once |
| Candidates.PairsStayTogether | hive/src/bdt_precalc.cxx:1539-1552 | every matching pair shares a cluster |
| Candidates.LargeClustersHoldAMatch | hive/src/bdt_precalc.cxx:1539-1552 | in ticks: every cluster of two or three holds two members on different planes with each mean in the interval of the other |
| Candidates.MatchesShareACluster | hive/src/bdt_precalc.cxx:1539-1552 | and any two such candidates share a cluster |
| Candidates.ThirdMemberInTicks | hive/src/bdt_precalc.cxx:1556-1580 | the third member is the first third-plane candidate whose mean lies in the interval of a member and whose interval holds the mean of a member |
| Candidates.AloneIffUnused | hive/src/bdt_precalc.cxx:1590-1593 | a candidate is listed on its own iff no larger cluster holds it |
| Candidates.GrownAsCommentedIff | hive/src/bdt_precalc.cxx:1556-1580 | a pair grows into the cluster the comment asks for iff no candidate that only meets the two directions at different members comes before the first real match |
| Candidates.JoinsWithoutMatch | hive/src/bdt_precalc.cxx:1565-1577 | a pair that should stay alone takes a third member |
| FlatTree.MakeFlatTree | hive/src/bdt_file.cxx:1921-1989 | one row per candidate of every kept event, or one placeholder row, each with the weight, the scaled weight and the two cut values of its event |
| FlatTree.RowHolds | hive/src/bdt_file.cxx:1921-1989 | every row stands for a kept event and one of its candidates: the scalars, then the values of that candidate, or -1 for each where there is none; weight, scaled weight and the integer part of each cut value |
| FlatTree.RowsAscend | hive/src/bdt_file.cxx:1921-1989 | in the order of events and candidates, none twice |
| FlatTree.RowExists | hive/src/bdt_file.cxx:1921-1989 | and none left out |
| FlatTree.MakeUnFlatTree | hive/src/bdt_file.cxx:2099-2137 | the gathering loop with its final fill and top-up |
| FlatTree.UnflatKeepsScores | hive/src/bdt_file.cxx:2099-2137 | whatever the rows are, the vectors joined are exactly the scores of the candidate rows in order |
| FlatTree.RoundTrip | hive/src/bdt_file.cxx:1921-2137 | for any score of event, candidate and variables, unflattening a flattened file gives each original event the scores of its candidates iff there is an event and no kept event with candidates follows a dropped one after event 0 |
| FlatTree.GapMisplacesScores | hive/src/bdt_file.cxx:1921-2137 | the failing input: the middle one of three events is dropped |
| FlatTree.PrefixRoundTrip | hive/src/bdt_file.cxx:1921-2137 | in particular when the filter keeps a prefix |
| FlatTree.MakeFlatFriend | hive/src/bdt_file.cxx:2050-2069 | writes one verdict per declared candidate, or -1 |
| FlatTree.FriendRowsPerEvent | hive/src/bdt_file.cxx:2050-2069 | one row per declared candidate, and one if there is none |
| FlatTree.FriendAligned | hive/src/bdt_file.cxx:2050-2069 | friend and flat tree line up iff nothing was filtered and the declared counts fit the vectors |
| FlatTree.AlignedVerdicts | hive/src/bdt_file.cxx:2050-2069 | then each flat row is paired with the verdict on its own event |
| GridIndex.GetLocalIndices | hive/src/bdt_sig.cxx:1427-1448 | the reversed digit loop gives the mixed-radix digits, with the conversions of the source |
| GridIndex.DigitsInGrid | hive/src/bdt_sig.cxx:1413-1448 | every index, even -1, selects an existing grid point |
| GridIndex.EveryTupleOnce | hive/src/bdt_sig.cxx:1427-1448 | every index tuple is met at exactly one global index |
| GridIndex.EncodeIsLexicographic | hive/src/bdt_sig.cxx:1427-1448 | the scan walks the tuples in lexicographic order, last axis fastest |
| GridIndex.LastDigitOfMinusOne | hive/src/bdt_sig.cxx:1436-1441 | index -1 selects position (2^64 - 1) mod size on the last axis |
| GridIndex.OtherDigitsOfMinusOne | hive/src/bdt_sig.cxx:1436-1441 | and on the others the digits of the quotient narrowed to 32 bits |
| GridIndex.EncodeDigits | hive/src/bdt_sig.cxx:1427-1448 | decoding then encoding is the identity |
| GridIndex.DigitsEncode | hive/src/bdt_sig.cxx:1427-1448 | encoding then decoding is the identity |
| GridScan.ChisquareGridScan | hive/src/bdt_sig.cxx:139-233 | no combination of cuts beats the returned one, it is the first to reach the best value, and index -1 means that no chi is positive |
| GridScan.MakeProjections | hive/src/bdt_sig.cxx:1467-1538 | every bin of every 1D and 2D projection is the minimum over the points that fall in it; each 1D bin is the attained minimum over the index tuples with its index |
| GridScan.Marginal1D | hive/src/bdt_sig.cxx:1501-1523 | every 1D bin is filled with the minimum over all grid points with that index on that axis |
| GridScan.Marginal2D | hive/src/bdt_sig.cxx:1526-1538 | every 2D bin is filled with the minimum over its points |
| GridScan.RowMinimum | hive/src/bdt_sig.cxx:1501-1538 | each 1D bin is the minimum of the matching row of any 2D projection |
| GridScan.ColumnMinimum | hive/src/bdt_sig.cxx:1501-1538 | and of the matching column |
| EntryPrefilter.StageFile.SetStageEntryList | hive/src/bdt_file.cxx:1210-1232 | the base lists for stages 0 and 1; a BDT stage is selected once, inside the active list, and reused whatever the later cuts are; every other stage exits |
| EntryPrefilter.StageFile.CalcBDTEntryList | hive/src/bdt_file.cxx:697-709 | the list of the stage becomes the selection by the cuts of the flow or by given ones, restricted to the active list, which stays active |
| EntryPrefilter.SelectionMeaning | hive/src/bdt_file.cxx:697-709 | event by event: active, preselected, and at or above every cut of the flow below the stage, or strictly above every given one |
| EntryPrefilter.FullMeaning | hive/src/bdt_flow.cxx:22-56 | the right list of a stage: the definition and topological cuts, the preselection from stage 1 on, and every BDT cut below the stage |
| EntryPrefilter.StageFile.GetEntries | hive/src/bdt_file.cxx:880-908 | the weight of the passing events inside the active list |
| EntryPrefilter.CountsOneMore | hive/src/bdt_file.cxx:880-908 | each event adds its weight iff it passes the preselection and exceeds every cut |
| EntryPrefilter.ListCountsOneMore | hive/src/bdt_file.cxx:880-908 | so does each listed event when a list is active |
| StageRuns.ExactIffClimbing | hive/src/bdt_file.cxx:697-1232 | over every run of the two calls, each stage that is set is read through the right list for every file iff no set stage that has a cut was drawn inside a later one |
| StageRuns.SetsClimbIff | hive/src/bdt_file.cxx:1210-1232 | with settings alone: iff the run never goes down to an unvisited stage that has a cut |
| StageRuns.VisitsClimbIff | hive/src/bdt_file.cxx:697-1232 | with a draw before each setting: iff it never goes down to a stage that has a cut |
| StageRuns.EfficiencyPlotsIff | hive/src/bdt_datamc.cxx:1771-1808 | the efficiency plots use the right lists iff the numerator stage loses nothing inside the denominator and, from the second variable on, the other way round |
| EntryPrefilter.ScanList | hive/src/bdt_sig.cxx:15-46 | the two calls that open a scan leave exactly the events above the minima in the list |
| EntryPrefilter.SecondScanKeepsList | hive/src/bdt_file.cxx:1221-1227 | a later scan is counted inside the list of the first |
| EntryPrefilter.LosslessIff | hive/src/bdt_file.cxx:1210-1272 | counting inside a list agrees with counting everywhere, for all data, iff no cut lies below its listed one |
| EntryPrefilter.LosslessWithinIff | hive/src/bdt_file.cxx:1210-1272 | for data whose scores stay within given maxima, iff no cut lies below its listed one or some cut is out of reach |
| CutGrid.SetupCutGrid | hive/src/bdt_sig.cxx:1398-1408 | every axis gets its steps, equidistant from the minimum and each to the nearest 0.001; their product is the number of points |
| CutGrid.ScanRange | hive/src/bdt_sig.cxx:1368-1395 | the configured range, or ten steps from 0 to the largest maximum of the files |
| CutGrid.ScanIsLosslessIff | hive/src/bdt_sig.cxx:36-83 | the scan counts correctly at every grid point, for all data, iff the grid is empty or the first and the last cut of every axis reach its minimum |
| CutGrid.ScanIsLosslessWithinIff | hive/src/bdt_sig.cxx:36-83 | for data within given maxima, iff that holds or the scores of some BDT pass none of its cuts |
| CutGrid.ThreeDecimalsAreSafe | hive/src/bdt_sig.cxx:1399-1408 | a minimum that is a multiple of 0.001 is safe in an upward range |
| CutGrid.AutomaticRangeIsSafeIff | hive/src/bdt_sig.cxx:1374-1408 | the automatic range is safe iff there are no files or one scores above -1/1800 |
| CutGrid.AutomaticScanIsLosslessIff | hive/src/bdt_sig.cxx:1374-1408 | a scan over automatic ranges counts the data they were made from correctly iff every BDT scores above -1/1800 or one passes none of its cuts |
| CutGrid.NegativeMaximumLosesEvent | hive/src/bdt_sig.cxx:1374-1408 | the failing input: an event of score -0.0006 passes the last cut but is not in the list |
| SignificanceScan.ScanSignificance | hive/src/bdt_sig.cxx:15-105 | opens every file at the preselection and the minima, and reports the first grid point with the greatest positive significance of the listed counts; on unscanned files and safe axes that is the best for the counts over all entries, with the signal above the minima as total |
| SignificanceScan.CountsOneFileMore | hive/src/bdt_sig.cxx:72-83 | each file adds its counted weight times its POT scale |
| SignificanceScan.BestOverAllEntries | hive/src/bdt_sig.cxx:69-105 | on safe axes a report is the best for the listed counts iff it is the best for the counts over all entries |
| SignificanceScan.TotalIsAboveMinima | hive/src/bdt_sig.cxx:52-57 | the total signal is the weight above the minima |
| SignificanceScan.TotalIsPreselectedIff | hive/src/bdt_sig.cxx:52-57 | it is the preselected signal for all data iff there is no BDT |
| TruncMean.CalcIterativeTruncMean | hive/src/TruncMean.cxx:7-41 | terminates on all inputs and computes the recursion as written, exchanged arguments included |
| TruncMean.TrimKeepsBand | hive/src/TruncMean.cxx:36-38 | a trim keeps exactly the values within nsigma RMS of the median, as often as they occur |
| TruncMean.TrimEmptiesIff | hive/src/TruncMean.cxx:36-38 | a trim empties the list iff the signed width is negative, since the median survives otherwise |
| TruncMean.NegativeWidthIff | hive/src/TruncMean.cxx:36-38 | for nsigma > 0 that is a single negative value |
| TruncMean.NonNegativeDataHaveMean | hive/src/TruncMean.cxx:7-41 | non-empty non-negative data with nsigma >= 0 always give a mean |
| TruncMean.ValueWithinData | hive/src/TruncMean.cxx:7-41 | any mean returned lies between the bounds of the data |
| TruncMean.ReadPastEndIff | hive/src/TruncMean.cxx:7-41 | for nsigma > 0 the read past the end happens iff one of the first three lists is trimmed while it is a single negative value |
| TruncMean.LongEnoughListsHaveMean | hive/src/TruncMean.cxx:7-41 | from iteration 1 and a minimal length of 2 on, data of any sign with nsigma >= 0 always give a mean |
| TruncMean.ReadPastEndUpToZeroIff | hive/src/TruncMean.cxx:7-41 | for nsigma <= 0 it happens iff nsigma is negative and the first list is trimmed while it is a positive value or holds different values |
| TruncMean.LoneValueReadsPastEnd | hive/src/TruncMean.cxx:7-41 | the failing input [-1.0] |
| TruncMean.LargeLminTrimsOnce | hive/src/TruncMean.cxx:40 | a minimal length of at least the maximal number of iterations stops after one trim |
| TruncMean.ConvergedIff | hive/src/TruncMean.cxx:27-29 | for a positive limit the stopping test holds iff the previous median is negative, or positive with a change below limit times it |
| TruncMean.MedianRank | hive/src/TruncMean.cxx:123-135 | at most half of the values are below the median and fewer than half above |
| TruncMean.RmsByMoments | hive/src/TruncMean.cxx:137-148 | n (n-1) RMS^2 = n sum(x^2) - (sum x)^2 |
| TruncMean.RmsSign | hive/src/TruncMean.cxx:137-148 | the RMS of several values is non-negative and vanishes iff they are equal |
| TruncMean.MedianIsElement | hive/src/TruncMean.cxx:123-135 | the median is one of the values |
| TruncMean.CalcTruncMeanProfile | hive/src/TruncMean.cxx:43-111 | one value per point, from its window |
| TruncMean.WindowMeaning | hive/src/TruncMean.cxx:47-73 | a window holds, in order, the values of exactly the indices in reach, the last one excepted, whose coordinate differs by at most the radius either way |
| TruncMean.NeighboursAreMutual | hive/src/TruncMean.cxx:47-73 | within reach, a point is in the window of another iff that one is in its own |
| TruncMean.ProfileIsMean | hive/src/TruncMean.cxx:76-98 | a profile value is the mean of exactly the values of the window strictly within nsigma RMS of its median |
| TruncMean.OwnWindowIff | hive/src/TruncMean.cxx:47-73 | a point takes part in its own average iff it is not the last and the radius is at least one sixth |
| TruncMean.ProfileBounds | hive/src/TruncMean.cxx:76-98 | a profile value is the point itself for an empty window, else between the bounds of the window |
| TruncMean.NotANumberIff | hive/src/TruncMean.cxx:81-95 | 0/0 iff the window is non-empty and its signed width is not positive |
| TruncMean.PositiveDataNotANumberIff | hive/src/TruncMean.cxx:81-95 | for positive data and sigmas, iff the window holds several equal values |
| TinyString.TiXmlString.Reserve | hive/tinyxml/tinystr.cpp:37-46 | keeps the contents and grows to the requested capacity only when needed |
| TinyString.TiXmlString.Assign | hive/tinyxml/tinystr.cpp:49-65 | holds the new text with len <= capacity <= 3 (len + 8) |
| TinyString.TiXmlString.Append | hive/tinyxml/tinystr.cpp:68-78 | holds the concatenation, terminated, within capacity |
| TinyString.TiXmlString.AppendFrom | hive/tinyxml/tinystr.cpp:68-78 | from a buffer that may be the own one: the copy reads a deleted buffer iff the argument points into the own one and it was replaced, and appends the text otherwise |
| TinyString.TiXmlString.AssignFrom | hive/tinyxml/tinystr.cpp:49-65 | from a buffer that may be the own one: the copy is made before the replaced buffer is deleted |
| TinyString.TiXmlString.Swap | hive/tinyxml/tinystr.h:197-202 | exchanges the contents |
| TinyString.TiXmlString.Clear | hive/tinyxml/tinystr.h:178-186 | leaves the shared empty representation |
| TinyString.Concatenate | hive/tinyxml/tinystr.cpp:81-88 | the sum is reserved exactly, so nothing is copied by growth |
| TinyString.AppendAll | hive/tinyxml/tinystr.cpp:68-78 | any run of appends on an empty string holds the concatenation |
| TinyString.AppendsAreAmortised | hive/tinyxml/tinystr.cpp:37-78 | such a run copies fewer than twice the final length, in a logarithmic number of reallocations |
| BdtApp.ConvertToLibSVM | hive/src/bdt_train.cxx:264-299 | one line per listed entry, in order: weights that are negative or not finite become 1, the five markers and not-a-number become -999, all else is copied |
| BdtApp.ScatterScores | hive/src/bdt_app.cxx:258-287 | one row per tree entry: the score of a listed entry, -999 otherwise |
| BdtApp.BdtXGApp | hive/src/bdt_app.cxx:226-298 | gather, predict, scatter is a pointwise map, for any row-wise predictor |
| BdtApp.SuperBdtApp | hive/src/bdt_app.cxx:357-404 | for any skim, the rows before the first that does not ascend are written at their entries with their score, -1 everywhere at all others; an empty skim has the -1 values evaluated for entry 0 |
| BdtApp.OutputIsRightIff | hive/src/bdt_app.cxx:357-404 | whatever the values are, the output holds every skimmed row iff the skim is non-empty (or there are no events) and no row behind the first non-ascending one belongs to an event |
| BdtApp.DescendingRowIsLost | hive/src/bdt_app.cxx:357-404 | the failing input: original entries 1, 0 |
| BdtApp.EmptySkimIff | hive/src/bdt_app.cxx:357-404 | an empty skim is harmless iff there are no events or the defaults evaluate to -1 |
| Arborist.MatchDaughters | hive/other/make_arborist_from_sbnfit.c:47-80 | succeeds iff the daughter keys are contained in the parent keys as bags; partners have the key, are distinct, and equal keys are served in order; a row holds the weights of its partner, or of the row before when the weight tree ends earlier |
| Formula.AddSimpleToFormula | hive/src/bdt_var.cxx:137-162 | the loop computes the segment-wise rewriting, wrap-around included |
| Formula.OperatorsSeparate | hive/src/bdt_var.cxx:137-162 | two names are renamed one by one iff one of the 18 operator characters stands between them |
| Formula.RewriteIsWeaveIff | hive/src/bdt_var.cxx:137-162 | the result is the input with "simple_" exactly in front of the score names iff no "_mva" at the head of a segment has an operator after it |
| Formula.LeadingScoreIsRepeated | hive/src/bdt_var.cxx:137-162 | the failing input "_mva+x" |
| Formula.OneInsertionPerScore | hive/src/bdt_var.cxx:143-158 | one insertion per "_mva" |
| Formula.StripWeave | hive/src/bdt_var.cxx:143-158 | the input can be read off the woven text alone, for every formula |
| Formula.RewriteIsInjective | hive/src/bdt_var.cxx:137-162 | so the rewriting of clean formulas can be undone, and different ones stay different |
| RunList.LessIsTotalOrder | hive/inc/duplicate_suite_2022.h:33-38 | `operator<` is the lexicographic strict total order by run, subrun and event |
| RunList.RunList.constructor | hive/inc/duplicate_suite_2022.h:68-79 | the lookup set holds the entries and one marker per pair |
| RunList.RunList.InListPair | hive/inc/duplicate_suite_2022.h:84-86 | true iff some listed event has the pair |
| RunList.RunList.InList | hive/inc/duplicate_suite_2022.h:89-93 | true iff the event is listed; a negative event asks for the pair |
| RunList.UniqueEventsIff | hive/inc/duplicate_suite_2022.h:68-128 | `unique_events` is the number of distinct entries, and size minus it the number printed, iff no -1 entry is hidden by a marker |
| RunList.CountedAndHidden | hive/inc/duplicate_suite_2022.h:68-79 | `unique_events` falls short of the distinct entries by exactly the number of hidden ones |
| RunList.HiddenEntryIsNotCounted | hive/inc/duplicate_suite_2022.h:68-79 | the failing input (1,1,5), (1,1,-1) |
| RunList.RepeatsCount | hive/inc/duplicate_suite_2022.h:112-128 | the printed entries and the distinct ones make up the list |
| RunList.RunList.CheckDuplicates | hive/inc/duplicate_suite_2022.h:112-128 | prints exactly the repeated entries, returns an empty list |
| RunList.RepeatsAre | hive/inc/duplicate_suite_2022.h:112-128 | namely all occurrences but the first, in list order |
| RunList.RunList.Intersection | hive/inc/duplicate_suite_2022.h:99-108 | exactly the events listed on both sides, in strictly increasing order |
| RunList.IntersectionCommutes | hive/inc/duplicate_suite_2022.h:99-108 | both orders give the same list: the events listed on both sides |
| RunList.RunList.GetSubSet | hive/inc/duplicate_suite_2022.h:132-156 | keeps the entries of accepted pairs in order |
| RunList.KeptAre | hive/inc/duplicate_suite_2022.h:132-156 | namely all entries of those pairs, in list order |
| RunList.GroupsAreWhole | hive/inc/duplicate_suite_2022.h:132-156 | a (run, subrun) group is kept whole or not at all |
| RunList.FirstDrawDecides | hive/inc/duplicate_suite_2022.h:132-156 | and only the draw of its first entry decides which |

## Left out

- Floating-point rounding, overflow of lengths and counts, and NaN beyond "non-finite becomes zero": doubles are exact reals and sizes are unbounded, except where wrap-around decides the result (hash, grid index, formula search bounds).
- The full-covariance branch of `calcCollapsedCovariance`: its test compares pointers and never holds, so the fractional path always runs. An empty stack, by which the source would divide, and a non-square matrix are excluded.
- Several channels in `simpleCollapse`: the source fixes one channel, so the channel loops run once and are not written out.
- NormShape.SplitNormShape: requires a vector of the size of the matrix with a non-zero sum; the source divides by the sum.
- `std::sort`, `TTree::Draw` and `TEntryList` are library code: sorting is an insertion sort with a proof that the sorted arrangement is unique, drawing a selection function.
- FlatTree.MakeFlatTree: negative candidate counts (the loop then runs past the vector and throws) and a POT of zero, by which the source would divide.
- BdtApp.SuperBdtApp: the narrowing of scores to float is not modelled.
- EntryPrefilter.StageFile.SetStageEntryList: cut texts with six printed digits are exact real cuts here; fewer given cuts than the stage needs are read past their end in the source and excluded.
- TinyString: `find`, comparisons and stream operators.
- TruncMean: the printed diagnostics; a coordinate vector shorter than the data throws in the source and is excluded.
- `sort_indexes` and the ranking after the candidate list, `ReplaceString`, `remove_nan` alone, and the row loop of `makeSBNfitFile`: single loops without further properties.
- SignificanceScan.ScanSignificance: `calculate_significance` is a parameter; the source prints the report described here and returns three zeros. More BDTs than the flow has end the program and are excluded.
- Drawing, file and XML handling, XGBoost, TMVA and SBNfit internals, and the other scans of hive/src/bdt_sig.cxx.
