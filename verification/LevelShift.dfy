/** Sustained shifts: benchmarks far off a baseline that predates the recent runs
    (scripts/bench-history.py, `level_shifts`). */
module LevelShift {
  import opened Wrappers
  import opened Order
  import opened Drift
  import opened Records
  import opened Bands

  const LEVEL_SHIFT_SKIP := 3
  const LEVEL_SHIFT_PERSIST := 2
  const LEVEL_SHIFT_PCT := 25.0
  const LEVEL_SHIFT_TUKEY_K := 3.0

  function LastN<T>(s: seq<T>, n: nat): seq<T> {
    if |s| <= n then s else s[|s| - n..]
  }

  function ReferenceRuns(window: seq<Record>): seq<Record> {
    if |window| > LEVEL_SHIFT_SKIP
    then LastN(window[..|window| - LEVEL_SHIFT_SKIP], SPEED_WINDOW)
    else []
  }

  function RecentRuns(window: seq<Record>): seq<Record> { LastN(window, LEVEL_SHIFT_PERSIST) }

  // ----- the windows

  /** The baseline is the eight runs that end three runs back, or as many as there are; the
      evidence is the last two. */
  lemma WindowsAre(window: seq<Record>)
    ensures var n := |window|;
      && ReferenceRuns(window) == (if n <= 3 then [] else window[if n <= 11 then 0 else n - 11..n - 3])
      && RecentRuns(window) == window[if n <= 2 then 0 else n - 2..]
  {}

  /** No run is both baseline and evidence, and one run between them is neither. */
  lemma WindowsAreDisjoint(window: seq<Record>)
    ensures |window| >= LEVEL_SHIFT_SKIP ==>
      exists a, b, c :: 0 <= a <= b < c <= |window|
        && ReferenceRuns(window) == window[a..b] && RecentRuns(window) == window[c..]
    ensures |window| < LEVEL_SHIFT_SKIP ==> ReferenceRuns(window) == []
  {
    if |window| >= LEVEL_SHIFT_SKIP {
      var b := |window| - LEVEL_SHIFT_SKIP;
      var a := if b <= SPEED_WINDOW then 0 else b - SPEED_WINDOW;
      var c := |window| - LEVEL_SHIFT_PERSIST;
      assert ReferenceRuns(window) == window[a..b];
      assert RecentRuns(window) == window[c..];
    }
  }

  /** Is every run a shift is drawn from shown to be one image? */
  predicate PlacementIsConstant(records: seq<Record>, at: Setting, thisRun: Option<Record>) {
    thisRun.Some? &&
    var window := ComparableRecords(records, at);
    var runs := ReferenceRuns(window) + RecentRuns(window) + [thisRun.value];
    |runs| >= 2 && forall k :: 0 < k < |runs| ==> SameImage(runs[0], runs[k])
  }

  /** The runs a shift is drawn from, with the run being judged. */
  function JudgedRuns(records: seq<Record>, at: Setting, run: Record): seq<Record> {
    var window := ComparableRecords(records, at);
    ReferenceRuns(window) + RecentRuns(window) + [run]
  }

  /** What the answer yes adds: after a hashed first run any two of those runs are one image
      exactly when all are hashed or all name one clean commit; after an unhashed one, exactly
      when the hashes among the others agree.  Older records do not matter. */
  lemma PlacementIsPairwise(records: seq<Record>, at: Setting, run: Record)
    requires PlacementIsConstant(records, at, Some(run))
    ensures |JudgedRuns(records, at, run)| >= 2
    ensures var runs := JudgedRuns(records, at, run);
      if Truthy(runs[0].kernelSha)
      then PairwiseSame(runs) <==> (forall r :: r in runs ==> Truthy(r.kernelSha)) || OneCommit(runs)
      else PairwiseSame(runs) <==> OneHash(runs)
  {
    var runs := JudgedRuns(records, at, run);
    FirstRunDecidesIff(runs);
    assert (forall r :: r in runs ==> Truthy(r.kernelSha))
       <==> (forall k :: 0 <= k < |runs| ==> Truthy(runs[k].kernelSha)) by {
      if forall r :: r in runs ==> Truthy(r.kernelSha) {
        forall k | 0 <= k < |runs| ensures Truthy(runs[k].kernelSha) { assert runs[k] in runs; }
      }
    }
  }

  /** The answer is yes exactly when there is a history and the first of the baseline and
      evidence runs is one image with this run and with every other one of them. */
  lemma PlacementMeans(records: seq<Record>, at: Setting, run: Record)
    ensures !PlacementIsConstant(records, at, None)
    ensures var window := ComparableRecords(records, at);
      var n := |window|;
      var runs := (if n <= 3 then [] else window[if n <= 11 then 0 else n - 11..n - 3])
                  + window[if n <= 2 then 0 else n - 2..] + [run];
      PlacementIsConstant(records, at, Some(run)) <==> n > 0 && forall r :: r in runs ==> SameImage(runs[0], r)
  {
    var runs := JudgedRuns(records, at, run);
    hide *;
    JudgedRunsAre(records, at, run);
    PlacementUnfold(records, at, run);
    FirstIsLikeAll(runs);
  }

  lemma JudgedRunsAre(records: seq<Record>, at: Setting, run: Record)
    ensures var window := ComparableRecords(records, at);
      var n := |window|;
      && JudgedRuns(records, at, run)
         == (if n <= 3 then [] else window[if n <= 11 then 0 else n - 11..n - 3])
            + window[if n <= 2 then 0 else n - 2..] + [run]
      && (|JudgedRuns(records, at, run)| >= 2 <==> n > 0) && |JudgedRuns(records, at, run)| >= 1
  {
    hide ReferenceRuns, RecentRuns, ComparableRecords;
    WindowsAre(ComparableRecords(records, at));
  }

  lemma PlacementUnfold(records: seq<Record>, at: Setting, run: Record)
    ensures !PlacementIsConstant(records, at, None)
    ensures var runs := JudgedRuns(records, at, run);
      PlacementIsConstant(records, at, Some(run))
      <==> |runs| >= 2 && forall k :: 0 < k < |runs| ==> SameImage(runs[0], runs[k])
  {
    hide ReferenceRuns, RecentRuns, ComparableRecords, SameImage;
  }

  lemma FirstIsLikeAll(runs: seq<Record>)
    requires |runs| >= 1
    ensures (|runs| >= 2 && forall k :: 0 < k < |runs| ==> SameImage(runs[0], runs[k]))
            <==> (|runs| >= 2 && forall r :: r in runs ==> SameImage(runs[0], r))
  {
    if |runs| >= 2 {
      SameImageAsItself(runs[0], runs[1]);
    }
    hide SameImage;
  }

  lemma SameImageAsItself(a: Record, b: Record)
    ensures SameImage(a, b) ==> SameImage(a, a)
  {}

  // ----- one run against the reference

  /** `speed_factor(...) or 1.0`. */
  function HostFactor(entries: Entries, medians: Entries): (factor: real)
    ensures factor != 0.0
  {
    var f := SpeedFactor(entries, medians);
    if f.Some? && f.value != 0.0 then f.value else 1.0
  }

  function Divided(value: real, factor: real): real
    requires factor != 0.0
  {
    value / factor
  }

  function Corrected(entries: Entries, medians: Entries): Entries {
    var factor := HostFactor(entries, medians);
    map n | n in entries && entries[n] > 0.0 :: Divided(entries[n], factor)
  }

  function PctAbove(value: real, reference: real): real
    requires reference > 0.0
  {
    (value / reference - 1.0) * 100.0
  }

  lemma PctAboveMeans(value: real, reference: real)
    requires reference > 0.0
    ensures (100.0 + PctAbove(value, reference)) * reference == value * 100.0
  {
    assert value / reference * reference == value;
  }

  lemma OnlyOnePct(value: real, reference: real, pct: real)
    requires reference > 0.0 && (100.0 + pct) * reference == value * 100.0
    ensures pct == PctAbove(value, reference)
  {
    PctAboveMeans(value, reference);
    var other := PctAbove(value, reference);
    hide PctAbove;
    assert (pct - other) * reference == 0.0;
  }

  /** How far `name` is above baseline in one corrected run, or None if not shifted. */
  function ShiftPct(run: Entries, medians: Entries, bands: map<string, Band>, threshold: real,
                    name: string): Option<real>
  {
    if name !in run || name !in medians || medians[name] <= 0.0 then None
    else if BandPosition(run[name], BandFor(bands, name), true) != Outside then None
    else
      var pct := PctAbove(run[name], medians[name]);
      if pct >= threshold then Some(pct) else None
  }

  /** A run is divided by its factor, where it has one: fewer than eight usable benchmarks give
      none, and a reading that is not positive is dropped.  The factor of a run is positive. */
  lemma CorrectedMeans(entries: Entries, medians: Entries, name: string)
    ensures HostFactor(entries, medians) > 0.0
    ensures name in Corrected(entries, medians) <==> name in entries && entries[name] > 0.0
    ensures name in Corrected(entries, medians) ==>
      match SpeedFactor(entries, medians)
      case None => Corrected(entries, medians)[name] == entries[name]
      case Some(f) => f > 0.0 && Corrected(entries, medians)[name] * f == entries[name]
  {
    FactorIsPositive(entries, medians);
    hide SpeedFactor;
    if name in entries && entries[name] > 0.0 {
      var factor := HostFactor(entries, medians);
      assert Divided(entries[name], factor) * factor == entries[name];
      hide Divided;
    }
  }

  lemma FactorIsPositive(entries: Entries, medians: Entries)
    ensures match SpeedFactor(entries, medians) case None => true case Some(f) => f > 0.0
  {
    var ratios := SuiteRatios(medians, Positive(entries));
    PositiveRatios(Names(Positive(entries).Keys), medians, Positive(entries));
    hide Names, Ratios;
    if |ratios| >= MIN_SAMPLES_FOR_DRIFT {
      MedianPositive(ratios);
    }
  }

  /** Beyond the fence, and at least `threshold` percent above the reference. */
  ghost predicate StandsOut(run: Entries, medians: Entries, bands: map<string, Band>, threshold: real, name: string) {
    && name in run && name in medians && name in bands && medians[name] > 0.0
    && run[name] > bands[name].hi
    && run[name] * 100.0 >= (100.0 + threshold) * medians[name]
  }

  lemma ShiftMeans(run: Entries, medians: Entries, bands: map<string, Band>, threshold: real, name: string)
    ensures ShiftPct(run, medians, bands, threshold, name).Some? <==> StandsOut(run, medians, bands, threshold, name)
    ensures StandsOut(run, medians, bands, threshold, name) ==>
      var pct := ShiftPct(run, medians, bands, threshold, name).value;
      (100.0 + pct) * medians[name] == run[name] * 100.0
  {
    if name in run && name in medians && medians[name] > 0.0 {
      var v, m := run[name], medians[name];
      var pct := PctAbove(v, m);
      PctAboveMeans(v, m);
      hide PctAbove;
      assert (pct - threshold) * m == v * 100.0 - (100.0 + threshold) * m;
      SignOfProduct(pct - threshold, m);
    }
  }

  datatype Shift = Shift(name: string, reference: real, value: real, adjusted: real, band: Band, runs: nat)

  /** Everything the shift test reads: the reference statistics and the three corrected runs. */
  datatype Evidence = Evidence(medians: Entries, bands: map<string, Band>, n: nat,
                               now: Entries, before: Entries, beforeThat: Entries)

  function Gather(window: seq<Record>, current: Entries): Evidence
    requires |window| >= LEVEL_SHIFT_PERSIST
  {
    var reference := ReferenceRuns(window);
    var medians := Medians(reference);
    Evidence(medians, BandsOf(reference, LEVEL_SHIFT_TUKEY_K), |reference|,
             Corrected(current, medians),
             Corrected(window[|window| - 1].entries, medians),
             Corrected(window[|window| - 2].entries, medians))
  }

  /** Shifted in this run and in both runs before it. */
  predicate Sustained(ev: Evidence, threshold: real, name: string) {
    && ShiftPct(ev.now, ev.medians, ev.bands, threshold, name).Some?
    && ShiftPct(ev.before, ev.medians, ev.bands, threshold, name).Some?
    && ShiftPct(ev.beforeThat, ev.medians, ev.bands, threshold, name).Some?
  }

  function ShiftOf(ev: Evidence, current: Entries, threshold: real, name: string): Shift
    requires name in current && Sustained(ev, threshold, name)
  {
    Shift(name, ev.medians[name], current[name],
          ShiftPct(ev.now, ev.medians, ev.bands, threshold, name).value, ev.bands[name], ev.n)
  }

  function ShiftRows(ev: Evidence, current: Entries, threshold: real, names: seq<string>): seq<Shift> {
    if names == [] then []
    else
      (if names[0] in current && Sustained(ev, threshold, names[0])
       then [ShiftOf(ev, current, threshold, names[0])] else [])
      + ShiftRows(ev, current, threshold, names[1..])
  }

  predicate WorstFirst(a: Shift, b: Shift) { a.adjusted >= b.adjusted }

  function LevelShifts(records: seq<Record>, at: Setting, current: Entries, threshold: real): seq<Shift> {
    var window := ComparableRecords(records, at);
    if |ReferenceRuns(window)| < MIN_WINDOW_FOR_BAND || |RecentRuns(window)| < LEVEL_SHIFT_PERSIST then []
    else
      var ev := Gather(window, current);
      Sort(ShiftRows(ev, current, threshold, Names(ev.now.Keys)), WorstFirst)
  }

  lemma {:induction false} ShiftRowsSnoc(ev: Evidence, current: Entries, threshold: real,
                                         names: seq<string>, last: string)
    ensures ShiftRows(ev, current, threshold, names + [last])
            == ShiftRows(ev, current, threshold, names)
               + (if last in current && Sustained(ev, threshold, last)
                  then [ShiftOf(ev, current, threshold, last)] else [])
  {
    hide Sustained, ShiftOf;
    if names == [] {
      assert names + [last] == [last];
    } else {
      assert (names + [last])[1..] == names[1..] + [last];
      ShiftRowsSnoc(ev, current, threshold, names[1..], last);
    }
  }

  lemma ShiftReads(ev: Evidence, threshold: real, name: string)
    ensures Sustained(ev, threshold, name) ==> name in ev.now && name in ev.medians && name in ev.bands
    ensures Sustained(ev, threshold, name) <==>
      && ShiftPct(ev.now, ev.medians, ev.bands, threshold, name).Some?
      && ShiftPct(ev.before, ev.medians, ev.bands, threshold, name).Some?
      && ShiftPct(ev.beforeThat, ev.medians, ev.bands, threshold, name).Some?
  {}

  lemma LevelShiftsUnfold(records: seq<Record>, at: Setting, current: Entries, threshold: real)
    ensures var window := ComparableRecords(records, at);
      if |ReferenceRuns(window)| < MIN_WINDOW_FOR_BAND || |RecentRuns(window)| < LEVEL_SHIFT_PERSIST
      then LevelShifts(records, at, current, threshold) == []
      else
        && |window| >= LEVEL_SHIFT_PERSIST
        && var ev := Gather(window, current);
           LevelShifts(records, at, current, threshold)
           == Sort(ShiftRows(ev, current, threshold, Names(ev.now.Keys)), WorstFirst)
    ensures forall ev :: ShiftRows(ev, current, threshold, []) == []
  {}

  method FindLevelShifts(records: seq<Record>, at: Setting, current: Entries, threshold: real)
    returns (rows: seq<Shift>)
    ensures rows == LevelShifts(records, at, current, threshold)
    ensures WorstOnTop(rows)
    ensures var window := ComparableRecords(records, at);
      if |window| < 9 then rows == []
      else
        var ev := Gather(window, current);
        forall name :: Reported(rows, name) <==>
          && name in current
          && StandsOut(ev.now, ev.medians, ev.bands, threshold, name)
          && StandsOut(ev.before, ev.medians, ev.bands, threshold, name)
          && StandsOut(ev.beforeThat, ev.medians, ev.bands, threshold, name)
  {
    LevelShiftsUnfold(records, at, current, threshold);
    ListedByEvidence(records, at, current, threshold);
    hide *;
    var window := ComparableRecords(records, at);
    var reference, recent := ReferenceRuns(window), RecentRuns(window);
    if |reference| < MIN_WINDOW_FOR_BAND || |recent| < LEVEL_SHIFT_PERSIST {
      return [];
    }
    var ev := Gather(window, current);
    var names := Names(ev.now.Keys);
    rows := [];
    for i := 0 to |names|
      invariant rows == ShiftRows(ev, current, threshold, names[..i])
    {
      var name := names[i];
      assert names[..i + 1] == names[..i] + [name];
      ShiftRowsSnoc(ev, current, threshold, names[..i], name);
      ShiftReads(ev, threshold, name);
      var adjusted := ShiftPct(ev.now, ev.medians, ev.bands, threshold, name);
      if adjusted.None? || name !in current {
        continue;
      }
      if ShiftPct(ev.before, ev.medians, ev.bands, threshold, name).None?
         || ShiftPct(ev.beforeThat, ev.medians, ev.bands, threshold, name).None? {
        continue;
      }
      rows := rows + [ShiftOf(ev, current, threshold, name)];
    }
    assert names[..|names|] == names;
    rows := Sort(rows, WorstFirst);
  }

  /** The baseline statistics cannot have absorbed anything from the last three runs. */
  lemma ReferenceIgnoresRecentRuns(window: seq<Record>, other: seq<Record>, k: real)
    requires |window| == |other| >= LEVEL_SHIFT_SKIP
    requires window[..|window| - LEVEL_SHIFT_SKIP] == other[..|other| - LEVEL_SHIFT_SKIP]
    ensures Medians(ReferenceRuns(window)) == Medians(ReferenceRuns(other))
    ensures BandsOf(ReferenceRuns(window), k) == BandsOf(ReferenceRuns(other), k)
  {
    assert ReferenceRuns(window) == ReferenceRuns(other);
  }

  /** Fewer than nine comparable runs report nothing; nine are always judged. */
  lemma NineRunsAreNeeded(records: seq<Record>, at: Setting, current: Entries, threshold: real)
    ensures var window := ComparableRecords(records, at);
            (|ReferenceRuns(window)| >= MIN_WINDOW_FOR_BAND && |RecentRuns(window)| >= LEVEL_SHIFT_PERSIST)
            <==> |window| >= 9
    ensures |ComparableRecords(records, at)| < 9 ==> LevelShifts(records, at, current, threshold) == []
  {}

  lemma WorstFirstIsOrder()
    ensures TotalPreorder(WorstFirst)
  {}

  ghost predicate Reported(rows: seq<Shift>, name: string) { exists row :: row in rows && row.name == name }

  ghost predicate WorstOnTop(rows: seq<Shift>) {
    forall i, j :: 0 <= i < j < |rows| ==> rows[i].adjusted >= rows[j].adjusted
  }

  function ShiftNamed(name: string): Shift -> bool { (s: Shift) => s.name == name }

  /** What the shift test reads: the baseline's medians and fences, and the last two runs and
      this one, corrected. */
  lemma EvidenceIs(window: seq<Record>, current: Entries)
    requires |window| >= 9
    ensures var n := |window|;
      var reference := window[if n <= 11 then 0 else n - 11..n - 3];
      Gather(window, current)
      == Evidence(Medians(reference), BandsOf(reference, 3.0), if n <= 11 then n - 3 else 8,
                  Corrected(current, Medians(reference)), Corrected(window[n - 1].entries, Medians(reference)),
                  Corrected(window[n - 2].entries, Medians(reference)))
  {
    WindowsAre(window);
    hide Medians, BandsOf, Corrected;
  }

  /** A row by its evidence: what this run read, against what. */
  ghost predicate ShiftTells(row: Shift, ev: Evidence, current: Entries) {
    && row.name in current && row.name in ev.now && row.name in ev.medians && row.name in ev.bands
    && row.value == current[row.name] && row.reference == ev.medians[row.name]
    && row.band == ev.bands[row.name] && row.runs == ev.n
    && (100.0 + row.adjusted) * ev.medians[row.name] == ev.now[row.name] * 100.0
  }

  lemma SustainedMeans(ev: Evidence, current: Entries, threshold: real, name: string)
    ensures Sustained(ev, threshold, name) <==>
      && StandsOut(ev.now, ev.medians, ev.bands, threshold, name)
      && StandsOut(ev.before, ev.medians, ev.bands, threshold, name)
      && StandsOut(ev.beforeThat, ev.medians, ev.bands, threshold, name)
    ensures name in current && Sustained(ev, threshold, name) ==>
      ShiftOf(ev, current, threshold, name).name == name
      && ShiftTells(ShiftOf(ev, current, threshold, name), ev, current)
  {
    hide ShiftPct;
    ShiftMeans(ev.now, ev.medians, ev.bands, threshold, name);
    ShiftMeans(ev.before, ev.medians, ev.bands, threshold, name);
    ShiftMeans(ev.beforeThat, ev.medians, ev.bands, threshold, name);
  }

  /** The rows in terms of the sustained test: each benchmark that meets it has its own row, once. */
  lemma SustainedAreReported(records: seq<Record>, at: Setting, current: Entries, threshold: real, name: string)
    requires |ComparableRecords(records, at)| >= 9
    ensures var ev := Gather(ComparableRecords(records, at), current);
            Reported(LevelShifts(records, at, current, threshold), name) <==>
              name in current && Sustained(ev, threshold, name)
    ensures var ev := Gather(ComparableRecords(records, at), current);
            forall row :: row in LevelShifts(records, at, current, threshold) && row.name == name ==>
              name in current && Sustained(ev, threshold, name) && row == ShiftOf(ev, current, threshold, name)
    ensures |Filter(ShiftNamed(name), LevelShifts(records, at, current, threshold))| <= 1
  {
    var ev := Gather(ComparableRecords(records, at), current);
    var names := Names(ev.now.Keys);
    var rows := ShiftRows(ev, current, threshold, names);
    hide *;
    NineRunsAreNeeded(records, at, current, threshold);
    LevelShiftsUnfold(records, at, current, threshold);
    SortPermutes(rows, WorstFirst);
    MembersAgree(rows, Sort(rows, WorstFirst));
    FilterPermutation(ShiftNamed(name), Sort(rows, WorstFirst), rows);
    ShiftRowsMembers(ev, current, threshold, names, name);
    ShiftRowsOnce(ev, current, threshold, names, name);
    ShiftReads(ev, threshold, name);
    ReportedAlike(rows, Sort(rows, WorstFirst), name);
  }

  lemma ReportedAlike(a: seq<Shift>, b: seq<Shift>, name: string)
    requires forall row :: row in a <==> row in b
    ensures Reported(a, name) <==> Reported(b, name)
  {}

  /** What is reported: exactly the benchmarks beyond the fence and the threshold in all
      three runs, each once and with its own numbers, worst first. */
  lemma ReportedExactlyWhenSustained(records: seq<Record>, at: Setting, current: Entries, threshold: real,
                                     name: string)
    requires |ComparableRecords(records, at)| >= 9
    ensures var ev := Gather(ComparableRecords(records, at), current);
            Reported(LevelShifts(records, at, current, threshold), name) <==>
              && name in current
              && StandsOut(ev.now, ev.medians, ev.bands, threshold, name)
              && StandsOut(ev.before, ev.medians, ev.bands, threshold, name)
              && StandsOut(ev.beforeThat, ev.medians, ev.bands, threshold, name)
    ensures var ev := Gather(ComparableRecords(records, at), current);
            forall row :: row in LevelShifts(records, at, current, threshold) && row.name == name ==>
              ShiftTells(row, ev, current)
    ensures |Filter(ShiftNamed(name), LevelShifts(records, at, current, threshold))| <= 1
    ensures WorstOnTop(LevelShifts(records, at, current, threshold))
  {
    var ev := Gather(ComparableRecords(records, at), current);
    hide *;
    WorstAscends(records, at, current, threshold);
    SustainedAreReported(records, at, current, threshold, name);
    SustainedMeans(ev, current, threshold, name);
  }

  lemma WorstAscends(records: seq<Record>, at: Setting, current: Entries, threshold: real)
    ensures WorstOnTop(LevelShifts(records, at, current, threshold))
  {
    WorstFirstIsOrder();
    LevelShiftsUnfold(records, at, current, threshold);
    var rows := LevelShifts(records, at, current, threshold);
    hide *;
    if rows == [] {
      NoneOnTop();
    } else {
      var ev := Gather(ComparableRecords(records, at), current);
      SortIsSorted(ShiftRows(ev, current, threshold, Names(ev.now.Keys)), WorstFirst);
      SortedIsWorstFirst(rows);
    }
  }

  lemma ListedByEvidence(records: seq<Record>, at: Setting, current: Entries, threshold: real)
    ensures var rows, window := LevelShifts(records, at, current, threshold), ComparableRecords(records, at);
      && WorstOnTop(rows)
      && if |window| < 9 then rows == []
         else
           var ev := Gather(window, current);
           forall name :: Reported(rows, name) <==>
             && name in current
             && StandsOut(ev.now, ev.medians, ev.bands, threshold, name)
             && StandsOut(ev.before, ev.medians, ev.bands, threshold, name)
             && StandsOut(ev.beforeThat, ev.medians, ev.bands, threshold, name)
  {
    var window := ComparableRecords(records, at);
    NineRunsAreNeeded(records, at, current, threshold);
    hide *;
    WorstAscends(records, at, current, threshold);
    if |window| >= 9 {
      forall name {
        ReportedExactlyWhenSustained(records, at, current, threshold, name);
      }
    }
  }

  lemma NoneOnTop()
    ensures WorstOnTop([])
  {}

  lemma SortedIsWorstFirst(rows: seq<Shift>)
    requires Sorted(rows, WorstFirst)
    ensures WorstOnTop(rows)
  {
    forall i, j | 0 <= i < j < |rows| ensures rows[i].adjusted >= rows[j].adjusted {
      assert WorstFirst(rows[i], rows[j]);
    }
  }

  lemma {:induction false} ShiftRowsOnce(ev: Evidence, current: Entries, threshold: real,
                                         names: seq<string>, name: string)
    requires Distinct(names)
    ensures |Filter(ShiftNamed(name), ShiftRows(ev, current, threshold, names))| <= if name in names then 1 else 0
  {
    hide Sustained;
    if names == [] {
    } else {
      ShiftRowsOnce(ev, current, threshold, names[1..], name);
      var rest := ShiftRows(ev, current, threshold, names[1..]);
      assert names[0] !in names[1..];
      assert name in names <==> name == names[0] || name in names[1..] by { assert names == [names[0]] + names[1..]; }
      if names[0] in current && Sustained(ev, threshold, names[0]) {
        FilterCons(ShiftNamed(name), ShiftOf(ev, current, threshold, names[0]), rest);
      } else {
        assert [] + rest == rest;
      }
      hide Filter;
    }
  }

  lemma {:induction false} ShiftRowsMembers(ev: Evidence, current: Entries, threshold: real,
                                            names: seq<string>, name: string)
    ensures Reported(ShiftRows(ev, current, threshold, names), name)
            <==> name in names && name in current && Sustained(ev, threshold, name)
    ensures forall row :: row in ShiftRows(ev, current, threshold, names) && row.name == name ==>
              name in current && Sustained(ev, threshold, name) && row == ShiftOf(ev, current, threshold, name)
  {
    hide Sustained;
    if names == [] {
    } else {
      ShiftRowsMembers(ev, current, threshold, names[1..], name);
      var rest := ShiftRows(ev, current, threshold, names[1..]);
      if names[0] in current && Sustained(ev, threshold, names[0]) {
        var row := ShiftOf(ev, current, threshold, names[0]);
        assert ShiftRows(ev, current, threshold, names) == [row] + rest;
        assert row in [row] + rest;
      } else {
        assert ShiftRows(ev, current, threshold, names) == rest;
      }
    }
  }
}
