/** One history on which placement is called constant across two different images, and so a
    sweep that covers the shift excuses nothing (scripts/bench-history.py, `report`). */
module SpannedImages {
  import opened Wrappers
  import opened Order
  import opened Stats
  import opened Drift
  import opened Records
  import opened Bands
  import opened LevelShift
  import opened SustainedRuns
  import opened Modes
  import opened Layout
  import opened Report

  // ----- a sweep whose band is exactly one benchmark's rise

  function Measured(e: Entries): Record {
    Record(Some("h"), None, None, None, None, Some("c1"), None, false, e)
  }

  /** Three offsets, one of which moves `name` to `v`. */
  function SweepOf(base: Entries, name: string, v: real): seq<Arm> {
    [[Measured(base)], [Measured(base)], [Measured(base[name := v])]]
  }

  lemma OneReadingArm(e: Entries)
    ensures ArmEntries([Measured(e)]) == e
  {
    assert [Measured(e)][1..] == [];
    assert NamesIn([Measured(e)]) == e.Keys;
    forall n | n in e ensures Readings([Measured(e)], n) == [e[n]] && Median([e[n]]) == e[n] {
      assert multiset([e[n]])[e[n]] == 1;
      MajorityIsMedian([e[n]], e[n]);
    }
  }

  lemma SweepPads(base: Entries, name: string, v: real)
    ensures PadEntries(SweepOf(base, name, v)) == [base, base, base[name := v]]
  {
    hide ArmEntries;
    OneReadingArm(base);
    OneReadingArm(base[name := v]);
  }

  lemma PadSamples(a: Entries, b: Entries, c: Entries, n: string)
    requires AllPositive(a) && AllPositive(b) && AllPositive(c) && n in a && n in b && n in c
    ensures Samples([AsRecord(a), AsRecord(b), AsRecord(c)], n) == [a[n], b[n], c[n]]
    ensures NamesIn([AsRecord(a), AsRecord(b), AsRecord(c)]) == a.Keys + b.Keys + c.Keys
  {
    var rs := [AsRecord(a), AsRecord(b), AsRecord(c)];
    assert rs[1..] == [AsRecord(b), AsRecord(c)] && rs[1..][1..] == [AsRecord(c)] && rs[1..][1..][1..] == [];
    assert Samples(rs[1..][1..], n) == [c[n]] && Samples(rs[1..], n) == [b[n], c[n]];
    assert NamesIn(rs[1..][1..]) == c.Keys && NamesIn(rs[1..]) == b.Keys + c.Keys;
  }

  lemma SweepMedians(base: Entries, name: string, v: real)
    requires AllPositive(base) && name in base && v > 0.0
    ensures PadMedians([base, base, base[name := v]]) == base
  {
    var up := base[name := v];
    var rs := [AsRecord(base), AsRecord(base), AsRecord(up)];
    ThreeRecords(base, base, up);
    PadSamples(base, base, up, name);
    hide Median, Samples, NamesIn;
    forall n | n in base ensures Samples(rs, n) != [] && Median(Samples(rs, n)) == base[n] {
      PadSamples(base, base, up, n);
      TwoOfThree(base[n], up[n]);
    }
    assert NamesIn(rs) == base.Keys;
  }

  lemma ThreeRecords(a: Entries, b: Entries, c: Entries)
    ensures Map(AsRecord, [a, b, c]) == [AsRecord(a), AsRecord(b), AsRecord(c)]
  {}

  lemma TwoOfThree(b: real, v: real)
    ensures Median([b, b, v]) == b
  {
    assert multiset([b, b, v])[b] >= 2;
    MajorityIsMedian([b, b, v], b);
  }

  lemma OffsetIsCorrect(base: Entries, values: Entries)
    requires AllPositive(base) && Mostly(base, values) && |base| >= MIN_SAMPLES_FOR_DRIFT
    ensures Correctable(values, base) && Correct(values, base) == values
  {
    HostFactorIsRecovered(base, values, 1.0);
    hide SpeedFactor, Moved;
    assert ScaleRun(values, 1.0) == values;
    forall n | n in values ensures Divided(values[n], 1.0) == values[n] {}
  }

  lemma SweepCorrected(base: Entries, name: string, v: real)
    requires AllPositive(base) && name in base && v > 0.0 && |base| >= MIN_SAMPLES_FOR_DRIFT
    ensures CorrectAll([base, base, base[name := v]], base) == Some([base, base, base[name := v]])
  {
    hide *;
    var up := base[name := v];
    OneMoved(base, name, v);
    UnmovedIsMostly(base);
    OffsetIsCorrect(base, base);
    OffsetIsCorrect(base, up);
    NothingToCorrect(base);
    CorrectedAlready(up, [], base);
    assert [up] + [] == [up];
    CorrectedAlready(base, [up], base);
    assert [base] + [up] == [base, up];
    CorrectedAlready(base, [base, up], base);
    assert [base] + [base, up] == [base, base, up];
  }

  lemma CorrectedAlready(pad: Entries, rest: seq<Entries>, medians: Entries)
    requires Correctable(pad, medians) && Correct(pad, medians) == pad && CorrectAll(rest, medians) == Some(rest)
    ensures CorrectAll([pad] + rest, medians) == Some([pad] + rest)
  {
    hide Correctable, Correct;
    assert ([pad] + rest)[1..] == rest;
  }

  lemma UnmovedIsMostly(base: Entries)
    requires AllPositive(base)
    ensures Mostly(base, base)
  {
    assert Moved(base, base) == {};
  }

  lemma SpreadIsRise(b: real, v: real)
    requires 0.0 < b <= v
    ensures SpreadPct(b, v) == PctAbove(v, b) && Magnitude(PctAbove(v, b)) == PctAbove(v, b)
  {
    var q := v / b;
    assert q * b == v;
    QuotientOf((v - b) * 100.0, b, (q - 1.0) * 100.0);
    ScalingKeepsOrder(b, 1.0, q);
  }

  lemma QuotientOf(x: real, b: real, t: real)
    requires b > 0.0 && t * b == x
    ensures x / b == t
  {
    var q := x / b;
    assert q * b == t * b;
    ScalingKeepsOrder(b, q, t);
    ScalingKeepsOrder(b, t, q);
  }

  /** The sweep's band covers that very rise. */
  lemma SweepCovers(base: Entries, name: string, v: real)
    requires AllPositive(base) && name in base && v >= base[name] && |base| >= MIN_SAMPLES_FOR_DRIFT
    ensures base[name] > 0.0
    ensures ExcusedByLayout(name, PctAbove(v, base[name]), LayoutBands(SweepOf(base, name, v)))
  {
    assert base[name] > 0.0;
    assert |SweepOf(base, name, v)| == MIN_PADS_FOR_LAYOUT_BAND;
    hide AllPositive, SweepOf, LayoutBands, PadEntries, PadMedians, CorrectAll, SpreadBands, PctAbove;
    SweepPads(base, name, v);
    SweepMedians(base, name, v);
    SweepCorrected(base, name, v);
    LayoutUnfold(SweepOf(base, name, v));
    SweepSpread(base, name, v);
    SpreadIsRise(base[name], v);
  }

  lemma SweepSpread(base: Entries, name: string, v: real)
    requires name in base && v >= base[name] > 0.0
    ensures var bands := SpreadBands([base, base, base[name := v]]);
      name in bands && bands[name] == PctAbove(v, base[name])
  {
    var b, pads := base[name], [base, base, base[name := v]];
    AcrossIsPointwise(pads, name);
    assert Across(pads, name) == [b, b, v];
    hide Across, PctAbove, SpreadPct;
    assert b in [b, b, v] && v in [b, b, v];
    assert Lowest([b, b, v]) == b && Highest([b, b, v]) == v;
    hide Lowest, Highest;
    SpreadIsRise(b, v);
    assert SpreadOf(pads, name) == Some(SpreadPct(b, v));
  }

  // ----- the history

  const AT := Setting("h", LEGACY_PROFILE, None)

  function Base(): (base: Entries)
    ensures |base| == 8 && "a" in base && forall n :: n in base ==> base[n] == 10.0
  {
    var base := map n | n in EightNames() :: 10.0;
    assert base.Keys == EightNames();
    assert |base.Keys| == |base|;
    base
  }

  function Risen(): Entries { ScaleRun(Base()["a" := 30.0], 1.0) }

  /** Nine unhashed runs of one clean commit, then two three times as slow, the last of them hashed. */
  function History(): (records: seq<Record>)
    ensures |records| == 11
    ensures forall i :: 0 <= i < 9 ==> records[i] == Measured(Base())
    ensures records[9] == Measured(Risen()) && records[10] == Measured(Risen()).(kernelSha := Some("aa"))
  {
    seq(9, _ => Measured(Base())) + [Measured(Risen()), Measured(Risen()).(kernelSha := Some("aa"))]
  }

  /** This run: another build of that commit, covered by a sweep. */
  function ThisRun(unstable: set<string>): Run {
    Run(Risen(), unstable, Some(Measured(Risen()).(kernelSha := Some("bb"))), History(), AT,
        SweepOf(Base(), "a", 30.0))
  }

  lemma HistoryComparable()
    ensures ComparableRecords(History(), AT) == History()
  {
    hide History, Risen, Base;
    forall r | r in History() ensures IsComparable(r, AT) {
      var i :| 0 <= i < 11 && History()[i] == r;
    }
    AllComparable(History(), AT);
  }

  lemma HistoryWindows(window: seq<Record>)
    requires |window| == 11
    ensures ReferenceRuns(window) == window[..8] && RecentRuns(window) == window[9..]
  {}

  lemma BasePositive()
    ensures AllPositive(Base()) && "a" in Base() && Base()["a"] == 10.0 && |Base()| >= MIN_SAMPLES_FOR_DRIFT
  {
    hide Base;
  }

  lemma HistoryStaysUp()
    ensures StaysUp(History(), AT, Risen(), Base(), "a", 30.0, 1.0, 30.0, 1.0, 30.0, 1.0)
  {
    HistoryComparable();
    HistoryWindows(History());
    BasePositive();
    OneMoved(Base(), "a", 30.0);
    hide ComparableRecords, ReferenceRuns, History, Base, Mostly, AllPositive, ScaleRun;
    forall r | r in History()[..8] ensures r.entries == Base() {
      var i :| 0 <= i < 8 && History()[i] == r;
    }
  }

  /** A clean build of that one commit. */
  predicate OfTheCommit(r: Record) { r.commit == Some("c1") && !r.dirty }

  lemma UnhashedMatches(a: Record, b: Record)
    requires OfTheCommit(a) && OfTheCommit(b) && a.kernelSha == None
    ensures SameImage(a, b)
  {}

  lemma UnhashedFirstMatches(runs: seq<Record>)
    requires runs != [] && runs[0].kernelSha == None && forall r :: r in runs ==> OfTheCommit(r)
    ensures forall k :: 0 < k < |runs| ==> SameImage(runs[0], runs[k])
  {
    hide OfTheCommit, SameImage;
    forall k | 0 < k < |runs| ensures SameImage(runs[0], runs[k]) {
      assert runs[0] in runs && runs[k] in runs;
      UnhashedMatches(runs[0], runs[k]);
    }
  }

  lemma HistoryIsOfTheCommit()
    ensures History()[0].kernelSha == None && History()[10].kernelSha == Some("aa")
    ensures forall r :: r in History() ==> OfTheCommit(r)
  {
    hide History, Risen, Base;
    forall r | r in History() ensures OfTheCommit(r) {
      var i :| 0 <= i < 11 && History()[i] == r;
    }
  }

  lemma RunsJudged(window: seq<Record>, run: Record)
    requires |window| == 11
    ensures var runs := ReferenceRuns(window) + RecentRuns(window) + [run];
      && |runs| >= 2 && runs[0] == window[0] && window[10] in runs
      && forall r :: r in runs ==> r in window || r == run
  {
    HistoryWindows(window);
    hide ReferenceRuns, RecentRuns;
    assert window[9..][1] == window[10];
  }

  lemma DifferentHashes(a: Record, b: Record)
    requires a.kernelSha == Some("aa") && b.kernelSha == Some("bb")
    ensures !SameImage(a, b)
  {}

  lemma ConstantUnfold(records: seq<Record>, at: Setting, run: Record)
    requires |JudgedRuns(records, at, run)| >= 2
    requires forall k :: 0 < k < |JudgedRuns(records, at, run)| ==>
      SameImage(JudgedRuns(records, at, run)[0], JudgedRuns(records, at, run)[k])
    ensures PlacementIsConstant(records, at, Some(run))
  {
    hide ComparableRecords, ReferenceRuns, RecentRuns, SameImage;
  }

  lemma JudgedUnfold(run: Record)
    ensures JudgedRuns(History(), AT, run) == ReferenceRuns(History()) + RecentRuns(History()) + [run]
  {
    HistoryComparable();
    hide History, ReferenceRuns, RecentRuns, ComparableRecords;
  }

  /** Every run names the same clean commit; the unhashed first one matches them all. */
  lemma PlacementLooksConstant(run: Record)
    requires OfTheCommit(run) && run.kernelSha == Some("bb")
    ensures PlacementIsConstant(History(), AT, Some(run))
    ensures exists r :: r in JudgedRuns(History(), AT, run) && !SameImage(r, run)
  {
    hide *;
    HistoryIsOfTheCommit();
    JudgedUnfold(run);
    assert |History()| == 11;
    RunsJudged(History(), run);
    UnhashedFirstMatches(JudgedRuns(History(), AT, run));
    ConstantUnfold(History(), AT, run);
    DifferentHashes(History()[10], run);
  }

  lemma OneCommitRepeats(window: seq<Record>, name: string)
    requires forall r :: r in window ==> OfTheCommit(r)
    ensures |Repeats(window, name)| < MODE_MIN_REPEAT_COMMITS
  {
    OneCommitIn(window);
    hide CommitReadings, CommitsIn;
    assert Repeats(window, name).Keys <= {"c1"};
    assert Repeats(window, name).Keys == {} || Repeats(window, name).Keys == {"c1"};
    assert |Repeats(window, name)| == |Repeats(window, name).Keys|;
  }

  lemma {:induction false} OneCommitIn(window: seq<Record>)
    requires forall r :: r in window ==> OfTheCommit(r)
    ensures CommitsIn(window) <= {"c1"}
  {
    if window != [] {
      assert window[0] in window;
      OneCommitIn(window[1..]);
    }
  }

  /** The report finds the shift, a measured sweep covers it, two of the runs it was drawn from
      are different images -- and still the excuse is refused and the build fails. */
  lemma PlacementCanSpanTwoImages(previous: Record, unstable: set<string>, threshold: real)
    ensures var run := ThisRun(unstable);
      && PlacementIsConstant(run.records, run.at, run.thisRun)
      && (exists r :: r in JudgedRuns(run.records, run.at, run.thisRun.value) && !SameImage(r, run.thisRun.value))
      && (exists s :: LevelShifts(run.records, run.at, run.current, LEVEL_SHIFT_PCT) == [s]
                      && ExcusedByLayout(s.name, s.adjusted, LayoutBands(run.sweep)))
      && Fails(previous, run, threshold)
  {
    var run := ThisRun(unstable);
    hide *;
    HistoryStaysUp();
    HistoryComparable();
    BasePositive();
    RunFields(unstable);
    PlacementLooksConstant(run.thisRun.value);
    SweepCovers(Base(), "a", 30.0);
    HistoryIsOfTheCommit();
    OneCommitRepeats(History(), "a");
    SustainedShiftIsReported(run.records, run.at, run.current, Base(), "a", 30.0, 1.0, 30.0, 1.0, 30.0, 1.0);
    SustainedRegressionDecides(previous, run, threshold, Base(), "a", 30.0, 1.0, 30.0, 1.0, 30.0, 1.0);
    var rows := LevelShifts(run.records, run.at, run.current, LEVEL_SHIFT_PCT);
    TooFewRepeatsDecideNothing(History(), rows[0]);
    assert rows == [rows[0]];
  }

  lemma RunFields(unstable: set<string>)
    ensures var run := ThisRun(unstable);
      && run.records == History() && run.at == AT && run.current == Risen()
      && run.sweep == SweepOf(Base(), "a", 30.0)
      && run.thisRun.Some? && OfTheCommit(run.thisRun.value) && run.thisRun.value.kernelSha == Some("bb")
  {
    hide History, Risen, Base, SweepOf;
  }
}
