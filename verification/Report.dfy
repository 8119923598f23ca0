/** Does a run fail the build?  The return value of `report` (scripts/bench-history.py)
    and what can, and what can never, make it true. */
module Report {
  import opened Wrappers
  import opened Order
  import opened Stats
  import opened Drift
  import opened Records
  import opened Bands
  import opened LevelShift
  import opened SustainedRuns
  import opened Modes
  import opened Layout
  import opened Gate

  /** A finished run and everything it is judged with. */
  datatype Run = Run(current: Entries, unstable: set<string>, thisRun: Option<Record>,
                     records: seq<Record>, at: Setting, sweep: seq<Arm>)

  predicate SameBinary(previous: Record, run: Run) {
    run.thisRun.Some? && SameImage(previous, run.thisRun.value)
  }

  function RecentBands(run: Run): map<string, Band> {
    BandsOf(LastN(ComparableRecords(run.records, run.at), SPEED_WINDOW), TUKEY_K)
  }

  /** An A/A pair runs the same addresses, so no layout band may excuse its movements. */
  function EvidenceFor(previous: Record, run: Run): Gate.Evidence {
    Gate.Evidence(RecentBands(run), run.unstable,
                  if SameBinary(previous, run) then map[] else LayoutBands(run.sweep),
                  run.records, run.at, run.thisRun)
  }

  function RegressedRows(previous: Record, run: Run, threshold: real): seq<Row> {
    Rows(Names(run.current.Keys), previous.entries, run.current,
         GlobalDrift(previous.entries, run.current), threshold, Regressed)
  }

  /** The buckets that still claim a regression. */
  predicate Claims(fate: Fate) {
    fate == Fate.Replicated || fate == Fate.Unreplicated || fate == Unconfirmed
  }

  predicate RowClaims(row: Row, ev: Gate.Evidence) {
    Claims(FateOf(BandedRow(row, BandFor(ev.bands, row.name)), ev))
  }

  /** The verdict printed for a sustained shift. */
  function ShiftMode(window: seq<Record>, s: Shift): Mode {
    match SearchedSplit(window, s.name, s.reference, s.value)
    case Some(c) => ModeStructure(window, s.name, c.split).mode
    case None => ModeStructure(window, s.name, s.band.hi).mode
  }

  /** A sustained shift neither a property of the binaries nor covered by placement. */
  predicate Bisectable(run: Run, s: Shift) {
    && ShiftMode(ComparableRecords(run.records, run.at), s) != Structured
    && (PlacementIsConstant(run.records, run.at, run.thisRun)
        || !ExcusedByLayout(s.name, s.adjusted, LayoutBands(run.sweep)))
  }

  /** The run-over-run half: a movement that nothing withdrew, outside an A/A pair. */
  predicate RunOverRunFails(previous: Record, run: Run, threshold: real) {
    && !SameBinary(previous, run)
    && exists row :: row in RegressedRows(previous, run, threshold)
                     && RowClaims(row, EvidenceFor(previous, run))
  }

  predicate Fails(previous: Record, run: Run, threshold: real) {
    || RunOverRunFails(previous, run, threshold)
    || exists s :: s in LevelShifts(run.records, run.at, run.current, LEVEL_SHIFT_PCT) && Bisectable(run, s)
  }

  lemma ClaimedRowsSurvive(rows: seq<Row>, ev: Gate.Evidence, out: Buckets)
    requires forall fate :: Takes(BucketFor(out, fate), Tagged(rows, ev.bands), Meets(fate, ev))
    ensures out.replicated + out.unreplicated + out.unconfirmed != []
            <==> exists row :: row in rows && RowClaims(row, ev)
  {
    var src := Tagged(rows, ev.bands);
    hide FateOf;
    forall f, x ensures x in BucketFor(out, f) <==> x in src && FateOf(x, ev) == f {
      assert Takes(BucketFor(out, f), src, Meets(f, ev));
      assert x in BucketFor(out, f) <==> multiset(BucketFor(out, f))[x] > 0;
      assert x in src <==> multiset(src)[x] > 0;
    }
    hide Takes, Meets, Tagged;
    assert out.replicated == BucketFor(out, Fate.Replicated);
    assert out.unreplicated == BucketFor(out, Fate.Unreplicated);
    assert out.unconfirmed == BucketFor(out, Unconfirmed);
    if row :| row in rows && RowClaims(row, ev) {
      var i :| 0 <= i < |rows| && rows[i] == row;
      assert src[i] in src;
      assert src[i] in BucketFor(out, FateOf(src[i], ev));
    }
    if out.replicated + out.unreplicated + out.unconfirmed != [] {
      var x := (out.replicated + out.unreplicated + out.unconfirmed)[0];
      assert x in src && Claims(FateOf(x, ev));
      var i :| 0 <= i < |src| && src[i] == x;
      assert rows[i] in rows && RowClaims(rows[i], ev);
    }
  }

  /** The two halves of `Fails`, in the terms the loop below works with. */
  lemma FailsUnfold(previous: Record, run: Run, threshold: real)
    ensures RunOverRunFails(previous, run, threshold) <==>
      && !SameBinary(previous, run)
      && exists row :: row in RegressedRows(previous, run, threshold)
                       && RowClaims(row, EvidenceFor(previous, run))
    ensures Fails(previous, run, threshold) <==>
      || RunOverRunFails(previous, run, threshold)
      || exists s :: s in LevelShifts(run.records, run.at, run.current, LEVEL_SHIFT_PCT) && Bisectable(run, s)
    ensures EvidenceFor(previous, run) ==
      Gate.Evidence(RecentBands(run), run.unstable,
                    if SameBinary(previous, run) then map[] else LayoutBands(run.sweep),
                    run.records, run.at, run.thisRun)
    ensures SameBinary(previous, run) <==> run.thisRun.Some? && SameImage(previous, run.thisRun.value)
    ensures RecentBands(run) == BandsOf(LastN(ComparableRecords(run.records, run.at), SPEED_WINDOW), TUKEY_K)
    ensures RegressedRows(previous, run, threshold)
            == Rows(Names(run.current.Keys), previous.entries, run.current,
                    GlobalDrift(previous.entries, run.current), threshold, Regressed)
  {
    hide Bisectable, LevelShifts, Rows, Names, GlobalDrift, FateOf, BandsOf, LayoutBands, ComparableRecords, SameImage;
  }

  /** The fences a run is held against: those of the last eight comparable runs, at one and a half
      times the quartile distance. */
  lemma RecentBandsAre(run: Run)
    ensures var window := ComparableRecords(run.records, run.at);
      RecentBands(run) == BandsOf(window[if |window| <= 8 then 0 else |window| - 8..], 1.5)
  {
    hide BandsOf, ComparableRecords;
  }

  lemma BisectableUnfold(run: Run, s: Shift, mode: Mode)
    requires mode == match SearchedSplit(ComparableRecords(run.records, run.at), s.name, s.reference, s.value)
      case Some(c) => ModeStructure(ComparableRecords(run.records, run.at), s.name, c.split).mode
      case None => ModeStructure(ComparableRecords(run.records, run.at), s.name, s.band.hi).mode
    ensures Bisectable(run, s) <==>
      && mode != Structured
      && (PlacementIsConstant(run.records, run.at, run.thisRun)
          || !ExcusedByLayout(s.name, s.adjusted, LayoutBands(run.sweep)))
  {
    hide SearchedSplit, ModeStructure, PlacementIsConstant, ExcusedByLayout, LayoutBands, ComparableRecords;
  }

  method ReportRun(previous: Option<Record>, run: Run, threshold: real) returns (failed: bool)
    ensures failed <==> previous.Some? && Fails(previous.value, run, threshold)
  {
    hide *;
    if previous.None? {
      return false;
    }
    var before := previous.value;
    FailsUnfold(before, run, threshold);
    var regressed, improved, added, removed, drift := Diff(before.entries, run.current, threshold);
    var sameBinary := run.thisRun.Some? && SameImage(before, run.thisRun.value);
    var window := ComparableRecords(run.records, run.at);
    var bands := PerBenchmarkBands(LastN(window, SPEED_WINDOW), TUKEY_K);
    var allLayout := MeasureLayoutBands(run.sweep);
    var ev := Gate.Evidence(bands, run.unstable, if sameBinary then map[] else allLayout,
                            run.records, run.at, run.thisRun);
    var buckets := GateRegressions(regressed, ev);
    ClaimedRowsSurvive(regressed, ev, buckets);
    var runOverRun := if sameBinary then []
                      else buckets.replicated + buckets.unreplicated + buckets.unconfirmed;

    var shifts := FindLevelShifts(run.records, run.at, run.current, LEVEL_SHIFT_PCT);
    var fixedLayout := PlacementIsConstant(run.records, run.at, run.thisRun);
    var bisectable := BisectableShifts(run, shifts, allLayout, fixedLayout);
    failed := runOverRun != [] || bisectable != [];
  }

  /** The shifts still worth bisecting for. */
  method BisectableShifts(run: Run, shifts: seq<Shift>, layout: map<string, real>, fixedLayout: bool)
    returns (bisectable: seq<Shift>)
    requires layout == LayoutBands(run.sweep)
    requires fixedLayout <==> PlacementIsConstant(run.records, run.at, run.thisRun)
    ensures forall s :: s in bisectable <==> s in shifts && Bisectable(run, s)
    ensures bisectable != [] <==> exists s :: s in shifts && Bisectable(run, s)
  {
    hide *;
    var window := ComparableRecords(run.records, run.at);
    bisectable := [];
    for i := 0 to |shifts|
      invariant forall s :: s in bisectable <==> s in shifts[..i] && Bisectable(run, s)
    {
      assert shifts[..i + 1] == shifts[..i] + [shifts[i]];
      var s := shifts[i];
      var found := ModeSplitSearch(window, s.name, s.reference, s.value);
      var verdict := if found.Some? then found.value.1 else ModeStructure(window, s.name, s.band.hi);
      var explained := !fixedLayout && ExcusedByLayout(s.name, s.adjusted, layout);
      BisectableUnfold(run, s, verdict.mode);
      if verdict.mode != Structured && !explained {
        bisectable := bisectable + [s];
      }
    }
    assert shifts[..|shifts|] == shifts;
    assert bisectable != [] ==> bisectable[0] in bisectable;
  }

  // ----- what the verdict depends on

  /** The pipeline's test for one row, in terms of the verdict on its stored readings. */
  lemma ClaimUnfold(row: Row, ev: Gate.Evidence, stored: seq<real>)
    requires stored == Repl.ValuesForBinary(ComparableRecords(ev.records, ev.at), row.name, ev.thisRun)
    ensures var band := BandFor(ev.bands, row.name);
      RowClaims(row, ev) <==>
        && row.name !in ev.unstable
        && (band.None?
            || (row.after > band.value.hi
                && !ExcusedByLayout(row.name, row.adjChange, ev.layout)
                && Repl.Verdict(stored, row.after, band) != Repl.Contradicted))
  {
    hide ComparableRecords, Repl.Verdict, Repl.ValuesForBinary, ExcusedByLayout, BandFor;
    var b := BandedRow(row, BandFor(ev.bands, row.name));
    assert Replicability(b, ev) == Repl.Verdict(stored, row.after, b.band);
  }

  /** Exactly which movements fail the run-over-run half of the gate. */
  lemma ClaimMeans(row: Row, ev: Gate.Evidence)
    ensures var band := BandFor(ev.bands, row.name);
      RowClaims(row, ev) <==>
        && row.name !in ev.unstable
        && (band.None?
            || (row.after > band.value.hi
                && !ExcusedByLayout(row.name, row.adjChange, ev.layout)
                && !exists v :: v in Repl.ValuesForBinary(ComparableRecords(ev.records, ev.at), row.name, ev.thisRun)
                                && v <= band.value.hi))
  {
    hide *;
    var band := BandFor(ev.bands, row.name);
    var stored := Repl.ValuesForBinary(ComparableRecords(ev.records, ev.at), row.name, ev.thisRun);
    ClaimUnfold(row, ev, stored);
    if band.Some? && row.after > band.value.hi {
      Repl.VerdictMeans(stored, row.after, band.value);
      assert band == Some(band.value);
    }
  }

  lemma UnitRatio(e: real)
    requires e > 0.0
    ensures Ratio(e, e) == 1.0
  {
    assert e / e == 1.0;
  }

  lemma {:induction false} SelfRatios(names: seq<string>, entries: Entries)
    requires forall n :: n in names ==> n in entries && entries[n] > 0.0
    ensures |Ratios(names, entries, entries)| == |names|
    ensures multiset(Ratios(names, entries, entries))[1.0] == |names|
  {
    if names == [] {
    } else {
      hide Ratio;
      SelfRatios(names[1..], entries);
      assert names[0] in names;
      var e := entries[names[0]];
      UnitRatio(e);
      assert Ratios(names, entries, entries) == [Ratio(e, e)] + Ratios(names[1..], entries, entries);
    }
  }

  lemma SelfDrift(entries: Entries)
    requires |entries| >= MIN_SAMPLES_FOR_DRIFT && forall n :: n in entries ==> entries[n] > 0.0
    ensures GlobalDrift(entries, entries) == Some(1.0)
  {
    hide Ratios, Median, Names;
    SelfRatios(Names(entries.Keys), entries);
    assert |entries.Keys| == |entries|;
    MajorityIsMedian(SuiteRatios(entries, entries), 1.0);
  }

  /** A host that is uniformly faster or slower reports no run-over-run movement at all. */
  lemma UniformHostChangeRegressesNothing(previous: Record, run: Run, threshold: real, c: real)
    requires threshold > 0.0 && c > 0.0
    requires |previous.entries| >= MIN_SAMPLES_FOR_DRIFT
    requires forall n :: n in previous.entries ==> previous.entries[n] > 0.0
    requires run.current == ScaleRun(previous.entries, c)
    ensures RegressedRows(previous, run, threshold) == []
    ensures Fails(previous, run, threshold) <==>
      exists s :: s in LevelShifts(run.records, run.at, run.current, LEVEL_SHIFT_PCT) && Bisectable(run, s)
  {
    var base := previous.entries;
    SelfDrift(base);
    UniformSlowdownChangesNothing(base, base, threshold, c);
    FailsUnfold(previous, run, threshold);
    var rows := RegressedRows(previous, run, threshold);
    RowsMembers(Names(run.current.Keys), base, run.current, GlobalDrift(base, run.current), threshold, Regressed);
    if rows != [] {
      var r := rows[0];
      assert r in rows && r.name in base;
      assert Judge(base, run.current, GlobalDrift(base, run.current), threshold, r.name)
          == Judge(base, base, Some(1.0), threshold, r.name);
      UnitRatio(base[r.name]);
      ClassAtDrift(base[r.name], base[r.name], 1.0, threshold);
      assert false;
    }
  }

  /** Silence excuses nothing: measured once, never swept, and out of range -- or with no
      range at all -- is still a failure. */
  lemma UnmeasuredIsNotAbsolved(previous: Record, run: Run, threshold: real, row: Row)
    requires !SameBinary(previous, run) && row in RegressedRows(previous, run, threshold)
    requires row.name !in run.unstable
    requires BandPosition(row.after, BandFor(RecentBands(run), row.name), true) != Within
    requires |run.sweep| < MIN_PADS_FOR_LAYOUT_BAND
    requires run.thisRun.None? || forall r :: r in ComparableRecords(run.records, run.at) ==>
               !SameImage(r, run.thisRun.value)
    ensures Fails(previous, run, threshold)
  {
    FailsUnfold(previous, run, threshold);
    var ev := EvidenceFor(previous, run);
    LayoutUnfold(run.sweep);
    if run.thisRun.Some? {
      Repl.NoTwinNoValues(ComparableRecords(run.records, run.at), row.name, run.thisRun.value);
    }
    hide ComparableRecords, LayoutBands, RecentBands, FateOf, LevelShifts, RegressedRows;
    assert ev.layout == map[];
    assert Repl.ValuesForBinary(ComparableRecords(ev.records, ev.at), row.name, ev.thisRun) == [];
    ClaimMeans(row, ev);
  }

  lemma TooFewRepeatsDecideNothing(window: seq<Record>, s: Shift)
    requires |Repeats(window, s.name)| < MODE_MIN_REPEAT_COMMITS
    ensures ShiftMode(window, s) == Undecided
  {
    SearchIsBest(window, s.name, s.reference, s.value);
    hide SearchedSplit, Candidates, Repeats;
  }

  /** What makes the one reported shift worth bisecting, in terms of the run. */
  lemma OneShiftUnfold(run: Run, s: Shift, name: string, adjusted: real)
    requires LevelShifts(run.records, run.at, run.current, LEVEL_SHIFT_PCT) == [s]
    requires s.name == name && s.adjusted == adjusted
    ensures (exists t :: t in LevelShifts(run.records, run.at, run.current, LEVEL_SHIFT_PCT) && Bisectable(run, t))
            <==> ShiftMode(ComparableRecords(run.records, run.at), s) != Structured
                 && (PlacementIsConstant(run.records, run.at, run.thisRun)
                     || !ExcusedByLayout(name, adjusted, LayoutBands(run.sweep)))
  {
    hide LevelShifts, LayoutBands, PlacementIsConstant, ComparableRecords, ShiftMode, ExcusedByLayout;
    assert s in [s];
  }

  /** A regression that stays: the build fails exactly when the last comparison says so by
      itself, or repeated commits do not show the shift to be a property of the binaries and,
      where placement could have changed, no sweep covers it. */
  lemma SustainedRegressionDecides(previous: Record, run: Run, threshold: real, base: Entries, name: string,
                                   v: real, c: real, v1: real, c1: real, v2: real, c2: real)
    requires StaysUp(run.records, run.at, run.current, base, name, v, c, v1, c1, v2, c2)
    ensures var rows := LevelShifts(run.records, run.at, run.current, LEVEL_SHIFT_PCT);
      && |rows| == 1 && rows[0].name == name
      && (Fails(previous, run, threshold) <==>
            || RunOverRunFails(previous, run, threshold)
            || (ShiftMode(ComparableRecords(run.records, run.at), rows[0]) != Structured
                && (PlacementIsConstant(run.records, run.at, run.thisRun)
                    || !ExcusedByLayout(name, PctAbove(v, base[name]), LayoutBands(run.sweep)))))
  {
    hide *;
    SustainedShiftIsReported(run.records, run.at, run.current, base, name, v, c, v1, c1, v2, c2);
    var rows := LevelShifts(run.records, run.at, run.current, LEVEL_SHIFT_PCT);
    assert rows == [rows[0]];
    OneShiftUnfold(run, rows[0], name, PctAbove(v, base[name]));
    FailsUnfold(previous, run, threshold);
  }

  /** A regression that stays is a failed build, whatever the last comparison said: unless a
      sweep covers it or repeated commits show it to be a property of the binaries. */
  lemma SustainedRegressionFails(previous: Record, run: Run, threshold: real, base: Entries, name: string,
                                 v: real, c: real, v1: real, c1: real, v2: real, c2: real)
    requires StaysUp(run.records, run.at, run.current, base, name, v, c, v1, c1, v2, c2)
    requires |Repeats(ComparableRecords(run.records, run.at), name)| < MODE_MIN_REPEAT_COMMITS
    requires !ExcusedByLayout(name, PctAbove(v, base[name]), LayoutBands(run.sweep))
    ensures Fails(previous, run, threshold)
  {
    SustainedRegressionDecides(previous, run, threshold, base, name, v, c, v1, c1, v2, c2);
    var rows := LevelShifts(run.records, run.at, run.current, LEVEL_SHIFT_PCT);
    hide *;
    TooFewRepeatsDecideNothing(ComparableRecords(run.records, run.at), rows[0]);
  }
}
