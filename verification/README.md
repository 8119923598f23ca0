# Verified model of the repository's tools

The repository's scripts decide things a maintainer acts on: whether a benchmark run is a
regression, which lint suggestions reach a file, what bash answered, which lines of a file are
test code, how many boots in a row came up clean, and which artifacts a kernel build embeds.
This project models the algorithms behind those decisions and proves what they promise.

| file | models |
|---|---|
| `Order`, `Stats`, `Text`, `Wrappers` | a stable sort and when its result is unique, code-point order, medians and inclusive quartiles over exact reals, blank trimming |
| `Drift` | whole-suite drift and the run-over-run comparison (`scripts/bench-history.py`) |
| `Records`, `Bands`, `LevelShift`, `SustainedRuns`, `Modes`, `SplitGaps`, `Layout`, `Replication` | the history window, image identity, Tukey fences, sustained shifts, the mode-split search and what it can miss, layout bands, replication |
| `Gate`, `Report`, `MissedMode`, `SpannedImages` | the staged gating pipeline, the verdict that fails a build, and two histories on which it fails for a wrong reason |
| `Trace` | the position-dependent reference read off a canary trace |
| `Reach`, `Renames` | the call-graph scan and the rename ledger |
| `Edits`, `Scheduling` | the edit applier (`apply_clippy_fixes.py`) as a text rewrite and as interval scheduling |
| `WordFrame` | the word probe's wire format and its retry (`scripts/bashprobe.py`) |
| `TestMask`, `TestItems` | the test-region masker, and where its regions end (`scripts/argv-utf8.py`) |
| `BootLedger`, `BootStamps`, `SkipNames` | the boot history, its streaks and verdicts, damaged stamps, and skip names (`scripts/boot-history.py`) |
| `Paths` | lexical path normalisation and the artifact list (`kernel/build.rs`) |

A loop that fills lists, tables or a text, or that searches one, is a method with a loop, proved
equal to a specification function or against a quantified contract; the theorems are then about
those functions. What such a function stands for is proved from its inputs alone (`ClassMeans`,
`ModeMeans`, `BandMeans` and the like), so that a theorem stated through it says something of the
readings, lines or bytes. Comprehensions and generator expressions are functions and map
comprehensions; so are the loops of `positional_factors` and those of `layout_bands` that gather
readings or emit bands, whose every pass fills one key from that key alone. Ratios, medians and
quartiles are exact reals. A dictionary is a `map`; where the source walks one, the model walks its
keys in sorted order.

Ten promises do not hold of the code on every input. For each an equivalence gives the exact
condition, and a lemma gives one input on which the promise fails.

* *The edit loop applies a largest possible set.* For a given order of the edits: exactly when no
  insertion is taken ahead of a replacement that starts at the same place and would have fitted,
  which one walk over the ordered edits decides (`Scheduling.MaximumIffNoInsertionBlocks`).
  Sorting compares starts only, so edits collected in a set may come in any order of ties; every
  such order applies a largest possible set exactly when no insertion shares its start with a
  replacement that contains no applied start (`Scheduling.EveryOrderIsMaximumIff`, read off the
  set). `TieOrderMatters` is one pair with both outcomes.
* *Scaling every current reading changes no class.* Exactly when the drift factor is known and not
  zero, or nothing comparable read anything but zero (`Drift.SpeedIndependence`): a zero factor is
  treated like a missing one. `SpeedShowsWithoutAFactor` has too few benchmarks for a factor,
  `ZeroFactorIsNoFactor` has a factor of zero.
* *The search finds a split that separates binaries if one lies between the baseline and the current
  value.* For given runs: exactly when the midpoint of some structured gap lies in `(low, high]`
  (`SplitGaps.FoundIffMidpointInside`). Whatever commits the runs are attributed to: exactly when
  no gap between adjacent readings reaches into `(low, high]` with its midpoint outside and two
  readings on either side (`SplitGaps.NothingMissedIff`). Only a gap that contains `low` or `high`
  can be lost (`SplitGaps.InnerGapIsFound`). `low` is the reference median, and a reference split
  evenly between two modes has its median at that very midpoint:
  `MissedMode.StructuredShiftFailsTheBuild` is a history on which the report then fails the build
  over a shift that repeated commits show to be a property of the binaries.
* *The clean streak does not depend on the order of lines in the file.* Exactly when no clean boot
  shares its stamp with the latest failure (`BootLedger.FileOrderMattersOnlyOnSharedStamps`;
  `OneStampTwoStreaks`).
* *A record with a damaged stamp sorts early and never displaces the latest one from the end.* One
  without any usable stamp does sort first (`BootStamps.UnstampedComeFirst`), but a truthy stamp
  that is no string, a number say, sorts by the text it reads as. Whatever the order of lines, it
  comes before every genuine stamp exactly when that text sorts before all of theirs
  (`BootStamps.DamagedSortsEarlyIff`), and the last record is a genuine one exactly when some
  genuine stamp is later than every damaged one (`LatestIsGenuineIff`). In `NumberStampComesLast` a
  panic stamped 3 takes the streak of a later clean boot. What is stamped before a failure never
  moves the streak (`OlderRecordNeverMovesTheStreak`).
* *Text with unbalanced parentheses comes back unchanged, not half trimmed.* Exactly when it does not
  end in a balanced group of its own (`SkipNames.UnbalancedIsUnchangedIff`;
  `HalfTrimmedExample` is `foo (a (b)`). What is half trimmed stays unbalanced
  (`TrimmingKeepsBalance`).
* *Normalising keeps where a path leads.* Exactly when no `..` climbs above the start
  (`Paths.SameTargetIffNeverClimbs`; `ClimbingLosesTheRoot` is `/../services/x`).
* *Masking two parts of a file separately is masking the whole.* Exactly when the first part leaves
  no test item open (`TestMask.PartsMaskApartIffClosed`; `LoneAttributeSwallows`).
* *The blanked region ends where the test item does.* For an item with braces the scan ends on the
  brace that closes its first one exactly when no semicolon comes before that first brace and no
  stray closing brace does, or nothing inside the item is closed (`TestItems.StopsAtItsBraceIff`).
  `ArrayTypeEndsTheScan` has a semicolon in an array type of the signature.
* *Runs that all match the first one are one image, pair by pair.* Exactly when the hashes among them
  agree and, unless all runs are hashed, all of them name one clean commit
  (`Records.PairwiseIffKeysAgree`, `FirstRunDecidesIff`). `LevelShift.PlacementIsPairwise` says what
  that comes to for the runs `placement_is_constant` looks at. On the history of
  `SpannedImages.PlacementCanSpanTwoImages` it calls placement constant across two different
  hashes, so a sweep that covers the reported shift excuses nothing and the build fails.

Two comments in the source can be compared with what is proved. `interpolate_trace` calls its last
`return None` unreachable while the samples are sorted: it is (`Trace.InterpolationIsTotal`).
`placement_is_constant` is described as proof that every run is the same image: for runs with
mixed keys it is less than that.

## Model

| member | source | states |
|---|---|---|
| Stats.MedianOf | scripts/bench-history.py:2128-2135 | Whatever order the samples came in: the median is the middle one in ascending order, or halfway between the middle two. |
| Stats.QuartileOf | scripts/bench-history.py:2785-2797 | A quartile lies a whole number of quarter steps between two neighbouring samples in ascending order, the range being cut in four. |
| Stats.MajorityIsMedian | scripts/bench-history.py:2121-2135 | A strict majority of equal readings is the median, whatever the others are: the reason the drift estimator is a median. |
| Stats.MedianScales | scripts/bench-history.py:2128-2135 | Multiplying every reading by a positive factor multiplies the median by it. |
| Stats.StatisticsBetween | scripts/bench-history.py:2785-2797 | Median and inclusive quartiles never leave the range of the samples. |
| Stats.StatisticsIgnoreOrder | scripts/bench-history.py:2383-2395 | The order in which samples were recorded is irrelevant to every order statistic. |
| Drift.Diff | scripts/bench-history.py:4376-4414 | By the two runs alone: with d the factor, or 1 where it is missing or zero, a benchmark with a positive baseline is regressed iff it reads at least (100 + threshold)% of d times it, improved iff at most (100 - threshold)%; one row each, with the true numbers and both changes; new and vanished names are listed. |
| Drift.RowsMembers | scripts/bench-history.py:4396-4411 | A row is listed iff its benchmark is so classed, and it carries that benchmark's own numbers. |
| Drift.ClassMeans | scripts/bench-history.py:4402-4409 | The class of a reading as a multiple of its baseline, for every threshold and factor; a negative factor would turn the classes round. |
| Drift.ChangeMeans | scripts/bench-history.py:4402-4405 | The adjusted change is the percentage the reading stands above the baseline times the factor, the raw change that above the baseline. |
| Drift.DriftMeans | scripts/bench-history.py:2128-2135 | The factor is the median over one ratio for each benchmark with a positive baseline, and there is none below eight of them. |
| Drift.RowsDistinct | scripts/bench-history.py:4396-4411 | No benchmark is reported twice. |
| Drift.UniformSlowdownChangesNothing | scripts/bench-history.py:2099-2135 | Where the correction applies, any uniform change of host speed leaves every benchmark's class alone. |
| Drift.SpeedIndependence | scripts/bench-history.py:4403-4407 | Exactly when that holds: the factor is known and not zero, or nothing comparable read anything but zero. |
| Drift.MajorityIsTheDrift | scripts/bench-history.py:2121-2135 | If more than half the ratios equal r, the factor is r whatever the minority did, and a benchmark at ratio r is left unreported iff r is not zero or the threshold exceeds 100%. |
| Drift.SpeedShowsWithoutAFactor | scripts/bench-history.py:2132-2134 | With one benchmark there is no factor, and a host at half speed is a regression. |
| Drift.ZeroFactorIsNoFactor | scripts/bench-history.py:4403-4407 | Five of eight benchmarks at zero: the factor is zero, a benchmark at that ratio is reported, and a slow host regresses the others. |
| Drift.AtMostHalfRegress | scripts/bench-history.py:4376-4414 | With positive readings and a positive threshold, at most half of the comparable benchmarks can be called regressed. |
| Records.OneMoreRecord | scripts/bench-history.py:1997-2002 | One more record, anywhere in the history, enters the window, in its place, iff host, profile (none is debug) and accelerator (none and empty alike) match, the host was not loaded and it is no experiment. |
| Records.SameImageSymmetric | scripts/bench-history.py:3361-3372 | Image identity is symmetric, and reflexive exactly on records that can name their code. |
| Records.PairwiseIffKeysAgree | scripts/bench-history.py:3361-3372 | Runs are one image pair by pair iff their hashes agree and, unless all are hashed, all name one clean commit. |
| Records.FirstRunDecidesIff | scripts/bench-history.py:2905-2911 | When all runs match the first: pairwise identity iff the keys agree, that is, after a hashed first run iff all are hashed or all name one clean commit, after an unhashed one iff the other hashes are equal. |
| Records.UniformKeysArePairwise | scripts/bench-history.py:2905-2911 | In particular comparing with the first is enough when all runs, or none, carry a hash. |
| Records.MixedKeysAreNotTransitive | scripts/bench-history.py:3335-3372 | One clean unhashed run matches two runs whose hashes differ. |
| Records.ComparableAppend | scripts/bench-history.py:1997-2002 | The comparable window of an appended history is the old window with the new comparable records behind it. |
| Bands.CollectSamples | scripts/bench-history.py:2390-2394 | The accumulator holds, for exactly the benchmarks with a positive reading, all their positive readings in order. |
| Bands.PerBenchmarkMedian | scripts/bench-history.py:2383-2395 | The medians are those of all positive readings, per benchmark, of the whole window. |
| Bands.PerBenchmarkBands | scripts/bench-history.py:2785-2797 | Exactly the benchmarks with six or more positive readings get a fence, computed from all of them. |
| Bands.PositionMeans | scripts/bench-history.py:3491-3510 | From the samples: no verdict below six of them; otherwise outside iff more than k quartile distances beyond the nearer quartile, on the side asked about. |
| Bands.FenceContainsQuartiles | scripts/bench-history.py:2785-2797 | The fence contains the quartile box: lo <= Q1 <= median <= Q3 <= hi. |
| Bands.ShortWindowHasNoBands | scripts/bench-history.py:2791-2792 | A window of fewer than six runs bands nothing. |
| LevelShift.PlacementMeans | scripts/bench-history.py:2890-2911 | Yes iff some run was recorded and the first of the eight runs up to three back, or else of the last two, is one image with every other one of them and with this run; never without a run. |
| LevelShift.PlacementIsPairwise | scripts/bench-history.py:2890-2911 | When placement is called constant: after a hashed first run any two of the judged runs are one image iff all are hashed or all name one clean commit; after an unhashed one iff the other hashes agree. Older records do not matter. |
| LevelShift.FindLevelShifts | scripts/bench-history.py:2987-3079 | The loop and its sort report exactly the benchmarks of the run that stand out, by fence and by threshold, in this corrected run and in both before it, worst first; nothing below nine comparable runs. |
| LevelShift.CorrectedMeans | scripts/bench-history.py:3027-3030 | Every positive reading is divided by the run's factor, which is positive, or kept where eight usable benchmarks are missing; others are dropped. |
| LevelShift.WindowsAreDisjoint | scripts/bench-history.py:2880-2887 | The reference and the corroborating runs are disjoint stretches of the history with a run between them. |
| LevelShift.ReferenceIgnoresRecentRuns | scripts/bench-history.py:2866-2887 | Reference medians and fences are the same for any two histories that differ only in the last three comparable runs. |
| LevelShift.NineRunsAreNeeded | scripts/bench-history.py:2987-2989 | Fewer than nine comparable runs report nothing; nine are always judged. |
| LevelShift.ReportedExactlyWhenSustained | scripts/bench-history.py:3035-3079 | Reported iff in the run, and in this run and both before it, after correction, the reading is above the fence and at least (100 + threshold)% of a positive reference median; each once, with its own numbers, worst first. |
| SustainedRuns.HostFactorIsRecovered | scripts/bench-history.py:3027-3030 | As long as fewer than half of eight or more benchmarks moved, the host's speed factor is exact, whatever the moved ones read. |
| SustainedRuns.CorrectionRestores | scripts/bench-history.py:3027-3030 | Correcting a uniformly slowed run then gives back the unslowed readings. |
| SustainedRuns.ExactlyTheRisenAreReported | scripts/bench-history.py:2914-3079 | Over an identical reference, a benchmark is reported iff it is at least 25% up in this run and in the last two comparable ones; each once, at its true size, worst first, however fast the host was in each of the three runs. |
| SustainedRuns.SustainedShiftIsReported | scripts/bench-history.py:2914-3079 | In particular a single benchmark that rose and stayed is the whole report. |
| Modes.ModeMeans | scripts/bench-history.py:3174-3193 | From the readings, for every window and split: noise iff at least two commits are repeated and one was read on both sides; structured iff at least two are, none on both sides, one wholly below and one wholly at or above; undecided otherwise. |
| Modes.VerdictSides | scripts/bench-history.py:3174-3181 | A commit is listed as repeated, below, straddling or above exactly by its own readings. |
| Modes.OneMoreReading | scripts/bench-history.py:3115-3120 | One more run adds its reading to the commit it names, in its place, and to no other; one without a label adds none. |
| Modes.SidesPartitionRepeats | scripts/bench-history.py:3174-3181 | Every repeated commit is below, straddling or above a split, and in only one of them. |
| Modes.OneVerdictPerGap | scripts/bench-history.py:3174-3193 | Splits that no reading tells apart get the same verdict. |
| Modes.ModeSplitSearch | scripts/bench-history.py:3219-3235 | The two loops return a split inside (low, high] that separates the repeated commits by their readings -- the first such candidate of the sorted list, with its verdict -- or nothing when no candidate does. |
| Modes.CandidateMeaning | scripts/bench-history.py:3224-3229 | The candidates are exactly the midpoints of adjacent readings that lie in (low, high]. |
| Modes.SearchIsBest | scripts/bench-history.py:3230-3235 | The result is structured, no structured candidate has a wider gap, and of equal gaps it is the higher split; no result means no candidate is structured. |
| Modes.SearchIsComplete | scripts/bench-history.py:3196-3235 | A structured split makes its gap's midpoint structured; if that midpoint lies in (low, high] the search returns that gap or a wider one. |
| Modes.RepeatsByCommit | scripts/bench-history.py:3109-3123 | The accumulator and filter give, for exactly the commits read more than once, all their readings in order. |
| SplitGaps.GapVerdict | scripts/bench-history.py:3174-3193 | A split in a gap is structured iff the gap's midpoint is. |
| SplitGaps.FoundIffMidpointInside | scripts/bench-history.py:3219-3235 | The search succeeds iff the midpoint of some structured gap lies in (low, high]. |
| SplitGaps.InnerGapIsFound | scripts/bench-history.py:3199-3217 | A structured gap that lies between low and high is always found. |
| SplitGaps.NothingMissedIff | scripts/bench-history.py:3196-3235 | No labelling of the runs by commits lets a structured split in (low, high] be missed iff no gap reaches into the interval with its midpoint outside and two readings on either side. |
| MissedMode.StructuredShiftFailsTheBuild | scripts/bench-history.py:5081-5118 | Eleven runs, whatever image this run is, on which the reported shift is separated by commits at 12, between the reference median 11.5 and the reading 30, no split is found, and the build fails. |
| Layout.MeasureLayoutBands | scripts/bench-history.py:3945-3973 | The loop measures bands from all offsets, or none when any offset has no usable host factor or there are fewer than three. |
| Layout.BandMeans | scripts/bench-history.py:3941-3973 | From the readings: each offset's median divided by its host factor; a benchmark read at all of three or more offsets has a band iff these are all positive, and the highest is that many percent above the lowest. |
| Layout.SpreadIsTight | scripts/bench-history.py:3964-3973 | A band bounds the relative change, up or down, between any two corrected layouts, and some pair attains it. |
| Layout.UncorrectableArmVoids | scripts/bench-history.py:3957-3961 | One offset without a usable host factor leaves every benchmark of the sweep without a band. |
| Layout.UnsweptIsNeverExcused | scripts/bench-history.py:4332-4357 | A benchmark that any offset of the sweep did not read is never excused, however small its movement. |
| Layout.ExcuseHasAWitness | scripts/bench-history.py:4332-4357 | An excused movement is matched or exceeded by one between two measured layouts of one sweep of at least three. |
| Replication.OneMoreStored | scripts/bench-history.py:3375-3391 | One more record, anywhere in the window, is stored evidence iff it is the same image and read the benchmark; without an image none is. |
| Replication.VerdictMeans | scripts/bench-history.py:3440-3449 | Above its fence a movement is contradicted iff some stored reading is not, replicated iff one is stored and all are, unreplicated iff none is stored. |
| Replication.ContradictionIsStored | scripts/bench-history.py:3466-3475 | The reading that contradicts is a stored one, never the run's own. |
| Replication.ContradictionIsAbsorbing | scripts/bench-history.py:3394-3449 | No appended record undoes a contradiction, and replication can be lost only to one. |
| Replication.OneRunNeverReplicates | scripts/bench-history.py:3375-3391 | Without another record of the same image a movement stays unreplicated. |
| Gate.SplitByBand | scripts/bench-history.py:4360-4373 | Each of the three lists holds exactly the rows at its position, repeats and all, with their band. |
| Gate.WithdrawUnstable | scripts/bench-history.py:4701-4705 | Rows are split by whether their own measurement window was unstable, none lost. |
| Gate.SplitByLayout | scripts/bench-history.py:4348-4357 | The three lists hold exactly the rows that are larger than, within, and without a measured band. |
| Gate.SplitByReplication | scripts/bench-history.py:4759-4774 | The three lists hold exactly the rows of each replication verdict. |
| Gate.GateRegressions | scripts/bench-history.py:4677-4774 | The staged pipeline files every row in the bucket that a one-pass reading of its evidence names. |
| Gate.FateMeans | scripts/bench-history.py:4677-4774 | Which bucket, from the evidence: fence, instability, layout band and the stored readings of the image, for each of the seven. |
| Gate.EveryRowHasOneBucket | scripts/bench-history.py:4677-4774 | The seven buckets together are the regressed rows, and no row is in two. |
| Report.ReportRun | scripts/bench-history.py:4567-5250 | The run fails iff a regressed row survives outside an A/A pair, or a sustained shift is worth bisecting. |
| Report.BisectableShifts | scripts/bench-history.py:5043-5118 | A shift is kept iff it is not mode-structured and no layout band covers it while placement could have changed. |
| Report.ClaimMeans | scripts/bench-history.py:4677-4774 | A row fails the build iff it is not void and is unbanded, or outside its band, not covered by a layout band and not contradicted. |
| Report.UniformHostChangeRegressesNothing | scripts/bench-history.py:5249-5250 | A host that is uniformly faster or slower produces no run-over-run failure. |
| Report.UnmeasuredIsNotAbsolved | scripts/bench-history.py:4707-4774 | A movement out of range, or with no range, that was measured once and never swept fails the build. |
| Report.TooFewRepeatsDecideNothing | scripts/bench-history.py:3183-3184 | Fewer than two repeated commits leave a shift undecided, whichever split is tried. |
| Report.SustainedRegressionDecides | scripts/bench-history.py:5039-5250 | After a regression that stayed, the build fails iff the last comparison fails it by itself, or the shift is not mode-structured and placement was constant or no layout band covers it. |
| Report.SustainedRegressionFails | scripts/bench-history.py:5039-5118 | In particular it fails, whatever the last comparison said, when too few commits were repeated and no sweep covers it. |
| SpannedImages.PlacementCanSpanTwoImages | scripts/bench-history.py:5059-5118 | A history whose shift a measured sweep covers, with two of the judged runs different images: placement is called constant, the excuse is refused and the build fails. |
| Trace.InterpolationIsTotal | scripts/bench-history.py:2226-2282 | With three samples every position gets a reading, between the smallest and the largest sample used: the last None is unreachable. |
| Trace.Interpolate | scripts/bench-history.py:2263-2282 | None with fewer than three samples; otherwise the cost on the straight line between the two points around the position, and the first or last one's before and after them all. |
| Trace.OnTheLineBetweenNeighbours | scripts/bench-history.py:2272-2278 | With distinct positions the reading is as far between two neighbours' costs as the position is between theirs, ends included. |
| Trace.FactorsMean | scripts/bench-history.py:2310-2320 | With three samples every positioned benchmark has a factor, and the factor times the median sample cost is the cost on the line where it ran; with fewer none has. |
| Trace.SupportMeans | scripts/bench-history.py:2263-2266 | The end reading is one more point at the last suite position iff it is legible and every sample was taken before that position. |
| Trace.EdgeMeans | scripts/bench-history.py:2171-2185 | An endpoint is legible iff exactly one sample carries its label, and has a positive cost: that cost. |
| Trace.SamplePositionsReadSamples | scripts/bench-history.py:2267-2278 | At a sample's position the reading is some sample's own value there, even where positions repeat. |
| Trace.ExactAtSamples | scripts/bench-history.py:2267-2278 | With distinct positions the reading at a sample's position is that sample. |
| Trace.FactorsIgnoreScale | scripts/bench-history.py:2285-2320 | Multiplying every sample by one positive factor changes no positional factor. |
| Trace.FactorsIgnoreProportion | scripts/bench-history.py:2285-2320 | Two traces in any positive rational proportion give the same factors. |
| Trace.ConstantTraceHasUnitFactors | scripts/bench-history.py:2204-2223 | A constant trace gives every positioned benchmark the factor 1. |
| Reach.ReachableBenchFns | scripts/bench-history.py:4099-4117 | The worklist terminates on every call graph and returns exactly the defined functions on some call path from run_all, each with its own body; nothing iff run_all is undefined. |
| Reach.ClosedSetHoldsPaths | scripts/bench-history.py:4106-4116 | A set closed under calls contains every path that starts in it. |
| Renames.ResolveRename | scripts/bench-history.py:1576-1595 | Terminates on every ledger; None iff the chain loops, otherwise the end of the chain. |
| Renames.EndIsUnique | scripts/bench-history.py:1576-1595 | A chain has at most one end, and then does not loop. |
| Renames.RepeatMeansLoop | scripts/bench-history.py:1589-1594 | A name met twice on a chain means that the chain never ends. |
| Renames.OwnEndMeansNoEntry | scripts/bench-history.py:1627-1630 | A name resolves to itself iff it has no entry. |
| Renames.RenamingOnward | scripts/bench-history.py:1579-1587 | Renaming a chain's end onward carries every earlier name to where the new name leads, or loops them all. |
| Renames.UnexplainedRemovals | scripts/bench-history.py:1598-1634 | The loop lists exactly the undeclared and the misdeclared losses, in order, with where each chain leads. |
| Renames.LossesMembers | scripts/bench-history.py:1623-1634 | A vanished name is in a list iff it has that fault. |
| Renames.LossMeans | scripts/bench-history.py:1623-1634 | The fault of an undeclared loss: none without an entry is excused; with one, where the chain ends decides, and a chain without end is misdeclared. |
| Renames.ExcuseNeedsEvidence | scripts/bench-history.py:1608-1634 | A loss is excused iff still declared, or its chain ends in the current run; a looping chain excuses nothing. |
| Edits.BuildLineStarts | apply_clippy_fixes.py:105-111 | The accumulator fills the table with the offset at which each line starts. |
| Edits.LineTableNamesCharacters | apply_clippy_fixes.py:43-46 | For every position in the text the table's offset names that line's very character; one past the line it names the newline or the end of the text. |
| Edits.LinesHoldNoNewline | apply_clippy_fixes.py:100-111 | The lines are what the newlines part: none holds one. |
| Edits.LinesCaught | apply_clippy_fixes.py:43-46 | A line is out of range iff it is below minus the number of lines or above one past it; line zero and negative ones count from the end of the table. |
| Edits.OffsetsFollowReadingOrder | apply_clippy_fixes.py:43-46 | Offsets order positions exactly as (line, column) does. |
| Edits.OrderEdits | apply_clippy_fixes.py:121 | The set's members, once each, latest start first; ties in any order. |
| Edits.ApplyInOrder | apply_clippy_fixes.py:122-134 | The back-to-front loop produces the simultaneous replacement, in the original text, of exactly the edits it applied. |
| Edits.ApplyEdits | apply_clippy_fixes.py:121-134 | The same for one file's edits, with applied + skipped equal to their number. |
| Edits.SpliceExtends | apply_clippy_fixes.py:132 | One splice into the half-rewritten text is one more edit of the simultaneous replacement, and the text before it is still the original. |
| Edits.CurrentLengthDecidesAlike | apply_clippy_fixes.py:126-131 | The bound check reads the changing text but decides as if it read the original. |
| Edits.FrontIsOriginal | apply_clippy_fixes.py:122-134 | Up to the last applied start the text is the original. |
| Edits.ChosenIsChain | apply_clippy_fixes.py:129-133 | Applied edits are in range and none reaches into the one applied before it. |
| Scheduling.AppliedCompatible | apply_clippy_fixes.py:121-134 | What was applied can all be applied together. |
| Scheduling.AppliedCount | apply_clippy_fixes.py:134 | The counter is the size of that set. |
| Scheduling.LargestPossible | apply_clippy_fixes.py:121-134 | For in-range edits that each replace something, no edits that can be applied together are more than the loop applies. |
| Scheduling.SeparateStartsAreMaximum | apply_clippy_fixes.py:121-134 | The same with insertions, as long as none starts where a replacement does. |
| Scheduling.MaximumIffNothingMasked | apply_clippy_fixes.py:121-134 | The applied set is largest iff no unapplied replacement would still fit beside everything applied. |
| Scheduling.MaximumIffNoInsertionBlocks | apply_clippy_fixes.py:121-134 | A walk over the collected edits, before any is applied, decides exactly whether the applied set will be largest. |
| Scheduling.EveryOrderIsMaximumIff | apply_clippy_fixes.py:121-134 | Every order the collected set may be sorted into applies a largest possible set iff no insertion starts where a replacement starts that contains no applied start. |
| Scheduling.LiveIsApplied | apply_clippy_fixes.py:121-134 | Where edits are applied is a property of the set, the same for every order of ties. |
| Scheduling.TieOrderMatters | apply_clippy_fixes.py:121 | An insertion and a replacement at one place: one order applies both, the other only one. |
| WordFrame.RoundTrip | scripts/bashprobe.py:426-465 | Decoding an emitted frame gives back every list of NUL-free words, empty lists, empty words and newlines included. |
| WordFrame.DecodesExactlyFrames | scripts/bashprobe.py:447-465 | The decoder accepts exactly a count line that reads as n followed by n NUL-terminated words, and returns those words; a nonzero exit code is a refusal, and nothing else is. |
| WordFrame.CountMeans | scripts/bashprobe.py:450-455 | A count line reads as v iff it is a numeral for v: blanks around an optional sign and digits, single underscores between digits. |
| WordFrame.FramesArePrefixFree | scripts/bashprobe.py:456-465 | No accepted frame is a strict prefix of another. |
| WordFrame.TruncatedOrOverlongRaises | scripts/bashprobe.py:456-465 | Any strict prefix or extension of an accepted answer raises. |
| WordFrame.Run | scripts/bashprobe.py:155-182 | At most two attempts, a timeout is not retried, and an answer is returned iff its first line is the marker. |
| TestMask.MaskTestRegions | scripts/argv-utf8.py:380-410 | The in-place nested loops terminate and compute the masking of the lines. |
| TestMask.AttributeMeans | scripts/argv-utf8.py:385 | A line bears a test attribute iff one of the two stands somewhere in it. |
| TestMask.MaskKeepsOrBlanks | scripts/argv-utf8.py:360-410 | As many lines as before, each unchanged or blank, and blank wherever it bears a test attribute. |
| TestMask.MaskIsIdempotent | scripts/argv-utf8.py:360-410 | Masking twice masks nothing more; nothing is masked iff there is no test attribute. |
| TestMask.ClosedPartsMaskApart | scripts/argv-utf8.py:380-410 | After a part that leaves no test item open, the rest is judged as if it stood alone. |
| TestMask.PartsMaskApartIffClosed | scripts/argv-utf8.py:380-410 | Masking distributes over every continuation iff the first part leaves no test item open. |
| TestMask.LoneAttributeSwallows | scripts/argv-utf8.py:380-410 | After a lone attribute line the next line is blanked, which it is not by itself. |
| TestMask.ScannerCountsBraces | scripts/argv-utf8.py:390-404 | The scanner stops iff some character ends the scan: a balancing brace, or a semicolon before any brace; until then it holds the brace balance. |
| TestMask.RegionEndsWithTheItem | scripts/argv-utf8.py:386-407 | The blanked region is the fewest lines from the attribute on that contain the scan's end. |
| TestItems.StopsAtItsBraceIff | scripts/argv-utf8.py:386-404 | The scan ends on the brace that closes the item's first one iff no semicolon precedes that first brace and no stray closing brace does unless nothing inside is closed. |
| TestItems.RegionReachesTheStop | scripts/argv-utf8.py:405-407 | The blanked lines are exactly those up to the one on which the scan ends. |
| TestItems.ArrayTypeEndsTheScan | scripts/argv-utf8.py:399-402 | A semicolon in a signature's array type leaves the rest of the item unmasked. |
| BootLedger.LoadHistory | scripts/boot-history.py:1350-1393 | Damaged lines are dropped; the rest is in order of coerced stamps, nothing lost or added, and records of one stamp keep their order in the file. |
| BootLedger.TailCleanStreak | scripts/boot-history.py:1980-1988 | The backward loop computes the streak that `LatestBootDecides` and `ProbeLinesChangeNothing` describe. |
| BootLedger.LatestBootDecides | scripts/boot-history.py:1980-1988 | The latest boot, not an experiment, adds one when it is PASS, PASS-TOOLING or BENCH-INCOMPLETE, changes nothing when it is HOST_FAIL, and makes the streak 0 for every other verdict, each by name. |
| BootLedger.ProbeLinesChangeNothing | scripts/boot-history.py:696-712 | An experiment or a host failure, wherever its line stands and whatever its stamp, leaves the published streak as it was. |
| BootLedger.DamagedLineChangesNothing | scripts/boot-history.py:1371-1384 | A line that is blank, malformed or no record leaves the whole history as it was. |
| BootLedger.StreakSkipsForeign | scripts/boot-history.py:696-712 | Experiments and host failures count neither way: the streak is that of the tree's own boots. |
| BootLedger.StreakIsLongestCleanSuffix | scripts/boot-history.py:1958-1988 | The streak is the length of the longest clean suffix of the tree's own boots. |
| BootLedger.StreakRange | scripts/boot-history.py:1393-1393 | In stamp order the streak lies between the clean boots after the latest failure and those not before it. |
| BootLedger.FileOrderMattersOnlyOnSharedStamps | scripts/boot-history.py:1350-1393 | The published streak is the same for every order of lines iff no clean boot shares its stamp with the latest failure. |
| BootLedger.OneStampTwoStreaks | scripts/boot-history.py:1350-1393 | A clean boot and a panic with one stamp: one order of the two lines publishes a streak of 0, the other 1. |
| BootStamps.UnstampedComeFirst | scripts/boot-history.py:1341-1345 | A record whose stamp is missing, empty, null or zero comes before every record with one. |
| BootStamps.StampedFollowTheText | scripts/boot-history.py:1385-1392 | Records with a stamp follow the text it reads as, a string or anything true alike. |
| BootStamps.DamagedSortsEarlyIff | scripts/boot-history.py:1385-1392 | Whatever the order of lines, a damaged stamp comes before every genuine one iff what it reads as sorts before all of theirs. |
| BootStamps.LatestIsGenuineIff | scripts/boot-history.py:1341-1345 | No order of lines puts a damaged stamp last iff some genuine stamp is later than all damaged ones. |
| BootStamps.OnlyLaterRecordsMoveTheStreak | scripts/boot-history.py:1958-1988 | Files that agree on what is stamped no earlier than a failure publish the same streak. |
| BootStamps.OlderRecordNeverMovesTheStreak | scripts/boot-history.py:1341-1345 | A record stamped before some failure never moves the streak, wherever its line stands. |
| BootStamps.NumberStampComesLast | scripts/boot-history.py:1385-1392 | A panic stamped with the number 3 sorts after a clean boot of 2026 and takes its streak; stamped null it does not. |
| BootLedger.DistinctStampsAreOrderIndependent | scripts/boot-history.py:1350-1393 | Pairwise distinct stamps are enough. |
| BootLedger.ForeignLinesChangeNothing | scripts/boot-history.py:1958-1988 | Experiment, host-failure and damaged lines may be inserted anywhere without changing the streak. |
| BootLedger.Streak.Observe | scripts/boot-history.py:1765-1774 | A hit counts, restarts the gap and records its stamp and commit; a miss only lengthens the gap. |
| BootLedger.StreakFor | scripts/boot-history.py:1762-1776 | The loop leaves the number of matches, the gap since the last one and that one's stamp and commit, over the tree's own boots. |
| BootLedger.SinceIsTheLastGap | scripts/boot-history.py:1737-1776 | The gap is the longest fingerprint-free suffix, and is the whole history iff there was never a match. |
| BootLedger.VerdictTable | scripts/boot-history.py:905-1012 | Every verdict, each way, by what the serial log, the exit code and the host showed. |
| BootLedger.HostBlameNeverMakesACleanBoot | scripts/boot-history.py:915-950 | Over any history, blaming the host adds no clean boot, never shortens the streak, and changes nothing where no host failed. |
| SkipNames.DropTrailingParen | scripts/boot-history.py:390-401 | The backward scan drops the trailing group from its opening parenthesis on. |
| SkipNames.GroupIsBalanced | scripts/boot-history.py:393-400 | The suffix the scan stops at is exactly one parenthesised reason with balanced parentheses. |
| SkipNames.ReasonIsStripped | scripts/boot-history.py:371-401 | A trailing reason with parentheses balanced to any depth is removed and the name recovered. |
| SkipNames.OnlyTrimmedWithoutReason | scripts/boot-history.py:383-401 | The text is only right-trimmed iff it does not end in a balanced group. |
| SkipNames.UnbalancedIsUnchangedIff | scripts/boot-history.py:384-387 | Unbalanced text comes back unchanged iff it does not end in a balanced group of its own, and stays unbalanced either way. |
| SkipNames.TrimmingKeepsBalance | scripts/boot-history.py:371-401 | Trimming changes neither the balance of the parentheses nor whether all are matched. |
| SkipNames.HalfTrimmedExample | scripts/boot-history.py:384-387 | `foo (a (b)` loses half of its reason. |
| SkipNames.NameIgnoresReason | scripts/boot-history.py:404-422 | A skip's name does not depend on the reason it was given. |
| SkipNames.SectionKeepsItsWords | scripts/boot-history.py:418-422 | With a balanced reason at the end, or with none, the section is all the words before and after the skip with one blank between any two, less the dashes, colons, stops and blanks at its ends. |
| SkipNames.TripleMeans | scripts/boot-history.py:453-462 | What is filed: the tag, that section, and the two with a blank between them as the name, the tag alone where no section is left. |
| SkipNames.SkipTriples | scripts/boot-history.py:453-462 | The loop collects exactly the named, non-summary announcements. |
| SkipNames.PartitionSkips | scripts/boot-history.py:536-558 | The loops return, each sorted and without repeats, the names whose section did not and did report a result elsewhere. |
| SkipNames.KeyMeans | scripts/boot-history.py:552-554 | The key is what stands before the first parenthesis, or the whole section when that has fewer than eight characters. |
| SkipNames.NamesTellTriplesApart | scripts/boot-history.py:453-462 | A name belongs to one section under one tag only. |
| SkipNames.SkipsArePartitioned | scripts/boot-history.py:465-558 | Every named skip is in exactly one of the two lists. |
| SkipNames.QuietLineOnlyCovers | scripts/boot-history.py:547-558 | One more line that does not mention skip can only move names from uncovered to covered. |
| Paths.Normalise | kernel/build.rs:504-513 | The stack loop computes the normalised components. |
| Paths.NormalisedIsStable | kernel/build.rs:504-513 | No `.` or `..` is left, and normalising again changes nothing. |
| Paths.SameTargetIffNeverClimbs | kernel/build.rs:502-513 | In a tree without links the short path leads where the long one does, from every start, iff no `..` climbs above the start. |
| Paths.ClimbingLosesTheRoot | kernel/build.rs:506-513 | `/../services/x` becomes `services/x`, which from another directory leads elsewhere. |
| Paths.ShortPathReachesSameFile | kernel/build.rs:502-513 | Where the long path can be walked through existing places so can the short one, to the same file. |
| Paths.ArtifactPathIs | kernel/build.rs:514-518 | The text of a normalised path is its names with a slash between any two, after the root's slash and the drive, and every backslash turned into a slash. |
| Paths.FileArtifactsAre | kernel/build.rs:495-523 | A file contributes exactly the paths of the services it embeds. |
| Paths.EmbeddedServiceArtifacts | kernel/build.rs:472-526 | The directory stack terminates and the list is every embedded service artifact once, sorted. |
| Paths.ListingOrderIsIrrelevant | kernel/build.rs:466-472 | Whatever order directories are listed in, the list is the same. |

## Left out

- Running bash, WSL, git, cargo and QEMU, and all file access: their outputs are parameters. An unreadable file or directory is simply not there.
- Regular expressions over source and log lines: `Reach` starts from the calls named in each body, `SkipNames` from what the scanner's pattern matched, `BootLedger` from parsed records and from the facts a serial log showed.
- Report wording, tables and the order in which verdicts are printed, and the improved rows' own pass through the pipeline, which decides nothing.
- Floating-point rounding: ratios, medians and fences are exact reals, so a value that rounding puts on the other side of a fence is not modelled.
- Dictionary order: `level_shifts` leaves equally large shifts in the order of the run's dictionary, the model in name order.
- Which sweep a layout band is taken from (source digest, accelerator, recency) and its provenance text: `Layout` starts from the chosen sweep's arms.
- `report` called without a history or a host name: it then has no bands, no sweeps and no shifts, so every regressed row that is not void is unconfirmed.
- The wall-clock, dispersion and canary verdicts of a run, and the positional attribution text built on the factors.
- `failure_cause`, `parse_skips` and the choice of which fingerprints a boot matches.
- How Python prints a stamp that is no string: the model is given the text.
- WordFrame.Run: does not model the `NoBash` exit or the text of `describe_failure`; a call that finds no `wsl.exe` is one outcome without an answer.
- WordFrame.DecodesExactlyFrames: does not model Python's limit on the number of digits `int` accepts, so a count line of thousands of digits is read as its value.
- SkipNames.PartitionSkips: lower-casing is modelled for the letters that can spell "skip" (the ASCII letters and the Kelvin sign), not for all of Unicode.
- Paths.EmbeddedServiceArtifacts: renders a component list with "/" between names; how `PathBuf::push` treats a drive prefix on other platforms, and names that are not UTF-8, are not modelled.
- Edits.ApplyEdits: does not model the CRLF rewrite before it or the JSON its spans come from; a span with a missing key is skipped by the source before any edit is collected.
- Edits.OrderEdits: the sort is by start only, over a set, so the model allows every order of edits that share a start.
- `score_cases`, `table_problems` and `assert_transport_is_faithful` of the word probe, and the rules `analyse_text` applies to the masked lines: counters and tables over answers that the framing results already decide.
