/** One history on which the mode-split search loses the gap that matters, and the build
    fails over a shift that is a property of the binaries (scripts/bench-history.py, `report`). */
module MissedMode {
  import opened Wrappers
  import opened Order
  import opened Stats
  import opened Drift
  import opened Records
  import opened Bands
  import opened LevelShift
  import opened Modes
  import opened Layout
  import opened Report
  import opened SplitGaps

  const AT := Setting("h", LEGACY_PROFILE, None)

  function RunOf(commit: string, v: real): Record {
    Record(Some("h"), None, None, None, None, Some(commit), None, false, map["b" := v])
  }

  function CommitOf(i: nat): string {
    if i < 4 then "p" else if i < 8 then "q" else if i == 8 then "r" else if i == 9 then "s" else "t"
  }

  function ReadingOf(i: nat): real { if i < 4 then 10.0 else if i < 8 then 13.0 else 30.0 }

  /** Eight reference runs, four of a fast binary and four of a slow one, then three new
      commits that all read 30. */
  function History(): (records: seq<Record>)
    ensures |records| == 11
    ensures forall i :: 0 <= i < 11 ==> records[i] == RunOf(CommitOf(i), ReadingOf(i))
  {
    seq(11, i requires 0 <= i => RunOf(CommitOf(i), ReadingOf(i)))
  }

  function Now(): Entries { map["b" := 30.0] }

  lemma OwnRunIsComparable(c: string, v: real)
    ensures IsComparable(RunOf(c, v), AT)
  {}

  lemma HistoryComparable()
    ensures ComparableRecords(History(), AT) == History()
  {
    hide *;
    forall r | r in History() ensures IsComparable(r, AT) {
      var i :| 0 <= i < 11 && History()[i] == r;
      OwnRunIsComparable(CommitOf(i), ReadingOf(i));
    }
    AllComparable(History(), AT);
  }

  lemma Windows(window: seq<Record>)
    requires |window| == 11
    ensures ReferenceRuns(window) == window[..8] && RecentRuns(window) == window[9..]
  {}

  lemma HistoryWindow()
    ensures ComparableRecords(History(), AT) == History()
    ensures ReferenceRuns(History()) == History()[..8] && RecentRuns(History()) == History()[9..]
    ensures History()[10].entries == Now() && History()[9].entries == Now()
  {
    hide History, ComparableRecords, ReferenceRuns, RecentRuns;
    HistoryComparable();
    Windows(History());
  }

  lemma {:induction false} SamplesAt(records: seq<Record>, name: string)
    requires forall r :: r in records ==> name in r.entries && r.entries[name] > 0.0
    ensures |Samples(records, name)| == |records|
    ensures forall i :: 0 <= i < |records| ==> Samples(records, name)[i] == records[i].entries[name]
  {
    if records != [] {
      assert records[0] in records;
      SamplesAt(records[1..], name);
    }
  }

  lemma {:induction false} OwnNames(records: seq<Record>)
    requires forall r :: r in records ==> r.entries.Keys == {"b"}
    ensures NamesIn(records) == if records == [] then {} else {"b"}
  {
    if records != [] {
      assert records[0] in records;
      OwnNames(records[1..]);
    }
  }

  function TwoModes(): (s: seq<real>)
    ensures |s| == 8 && forall i :: 0 <= i < 8 ==> s[i] == ReadingOf(i)
  {
    seq(8, i requires 0 <= i => ReadingOf(i))
  }

  lemma ReferenceSamples()
    ensures Samples(History()[..8], "b") == TwoModes() && NamesIn(History()[..8]) == {"b"}
  {
    hide History, TwoModes, Samples, NamesIn, CommitOf;
    var reference := History()[..8];
    forall r | r in reference ensures r.entries.Keys == {"b"} && r.entries["b"] > 0.0 {
      var i :| 0 <= i < 8 && r == RunOf(CommitOf(i), ReadingOf(i));
    }
    SamplesAt(reference, "b");
    OwnNames(reference);
  }

  lemma TwoModesStatistics()
    ensures Median(TwoModes()) == 11.5
    ensures FenceOf(TwoModes(), LEVEL_SHIFT_TUKEY_K) == Band(1.0, 22.0, 11.5, 8)
  {
    hide TwoModes, SortReals;
    SortedAlready(TwoModes());
    assert Cut(10.0, 10.0, 3.0) == 10.0 && Cut(10.0, 13.0, 2.0) == 11.5 && Cut(13.0, 13.0, 1.0) == 13.0;
  }

  lemma ReferenceStatistics()
    ensures Medians(History()[..8]) == map["b" := 11.5]
    ensures BandsOf(History()[..8], LEVEL_SHIFT_TUKEY_K) == map["b" := Band(1.0, 22.0, 11.5, 8)]
  {
    ReferenceSamples();
    TwoModesStatistics();
    hide Samples, NamesIn, Median, FenceOf, History, TwoModes;
  }

  lemma FewRatios(entries: Entries, medians: Entries)
    requires |entries| < MIN_SAMPLES_FOR_DRIFT
    ensures HostFactor(entries, medians) == 1.0
  {
    assert Positive(entries).Keys <= entries.Keys;
    SubsetSize(Positive(entries).Keys, entries.Keys);
    assert |Positive(entries).Keys| == |Positive(entries)| && |entries.Keys| == |entries|;
  }

  lemma {:induction false} SubsetSize(a: set<string>, b: set<string>)
    requires a <= b
    ensures |a| <= |b|
  {
    if a != {} {
      var x :| x in a;
      SubsetSize(a - {x}, b - {x});
    }
  }

  lemma NowCorrected(medians: Entries)
    ensures Corrected(Now(), medians) == Now()
  {
    FewRatios(Now(), medians);
    hide HostFactor;
    assert Divided(30.0, 1.0) == 30.0;
  }

  /** The one shift reported on that history. */
  function Reported(): Shift {
    Shift("b", 11.5, 30.0, PctAbove(30.0, 11.5), Band(1.0, 22.0, 11.5, 8), 8)
  }

  lemma ShiftReported()
    ensures LevelShifts(History(), AT, Now(), LEVEL_SHIFT_PCT) == [Reported()]
  {
    HistoryWindow();
    ReferenceStatistics();
    NowCorrected(map["b" := 11.5]);
    LevelShiftsUnfold(History(), AT, Now(), LEVEL_SHIFT_PCT);
    hide History, Medians, BandsOf, Corrected, LevelShifts, Sort, ShiftRows, Names, ComparableRecords, ReferenceRuns;
    var ev := Gather(History(), Now());
    assert ev == LevelShift.Evidence(map["b" := 11.5], map["b" := Band(1.0, 22.0, 11.5, 8)], 8, Now(), Now(), Now());
    assert ShiftPct(Now(), ev.medians, ev.bands, LEVEL_SHIFT_PCT, "b") == Some(PctAbove(30.0, 11.5)) by {
      assert PctAbove(30.0, 11.5) >= LEVEL_SHIFT_PCT;
    }
    assert Sustained(ev, LEVEL_SHIFT_PCT, "b");
    assert Names(ev.now.Keys) == ["b"] by { assert Names({"b"})[0] in Names({"b"}); }
    OneRow(ev, Now(), "b");
  }

  lemma OneRow(ev: LevelShift.Evidence, current: Entries, name: string)
    requires name in current && Sustained(ev, LEVEL_SHIFT_PCT, name)
    ensures Sort(ShiftRows(ev, current, LEVEL_SHIFT_PCT, [name]), WorstFirst)
            == [ShiftOf(ev, current, LEVEL_SHIFT_PCT, name)]
  {
    hide Sustained, ShiftOf;
    var row := ShiftOf(ev, current, LEVEL_SHIFT_PCT, name);
    assert [name][1..] == [] && [row][1..] == [];
    assert ShiftRows(ev, current, LEVEL_SHIFT_PCT, [name]) == [row] + [];
  }

  // ----- what the search makes of it

  lemma WindowCons(r: Record, rest: seq<Record>)
    requires "b" in r.entries && Truthy(r.commit)
    ensures Readings([r] + rest, "b") == [r.entries["b"]] + Readings(rest, "b")
    ensures forall c :: CommitReadings([r] + rest, "b", c)
                        == (if r.commit.value == c then [r.entries["b"]] else []) + CommitReadings(rest, "b", c)
    ensures CommitsIn([r] + rest) == {r.commit.value} + CommitsIn(rest)
  {
    assert ([r] + rest)[1..] == rest;
  }

  lemma HistoryFrom(i: nat)
    requires i < 11
    ensures History()[i..] == [RunOf(CommitOf(i), ReadingOf(i))] + History()[i + 1..]
  {
    hide CommitOf, ReadingOf, RunOf, History;
    assert History()[i..] == [History()[i]] + History()[i + 1..];
  }

  /** From run `i` on: how often a commit was read, and what it read. */
  lemma {:induction false} CommitFrom(i: nat, c: string)
    requires i <= 11
    ensures |CommitReadings(History()[i..], "b", c)|
            == if c == "p" then (if i < 4 then 4 - i else 0)
               else if c == "q" then (if i < 4 then 4 else if i < 8 then 8 - i else 0)
               else if (c == "r" && i <= 8) || (c == "s" && i <= 9) || (c == "t" && i <= 10) then 1 else 0
    ensures forall v :: v in CommitReadings(History()[i..], "b", c) ==>
      v == if c == "p" then 10.0 else if c == "q" then 13.0 else 30.0
    decreases 11 - i
  {
    hide History;
    if i == 11 {
      assert History()[11..] == [];
    } else {
      CommitFrom(i + 1, c);
      HistoryFrom(i);
      WindowCons(RunOf(CommitOf(i), ReadingOf(i)), History()[i + 1..]);
      hide CommitReadings;
    }
  }

  lemma {:induction false} ValuesFrom(i: nat)
    requires i <= 11
    ensures forall v :: v in Readings(History()[i..], "b") <==>
      (v == 10.0 && i < 4) || (v == 13.0 && i < 8) || (v == 30.0 && i < 11)
    decreases 11 - i
  {
    hide History;
    if i == 11 {
      assert History()[11..] == [];
    } else {
      ValuesFrom(i + 1);
      HistoryFrom(i);
      WindowCons(RunOf(CommitOf(i), ReadingOf(i)), History()[i + 1..]);
      hide Readings;
    }
  }

  lemma TwoCommitsRepeat()
    ensures Repeats(History(), "b").Keys == {"p", "q"}
    ensures Repeats(History(), "b")["p"] != [] && Highest(Repeats(History(), "b")["p"]) == 10.0
    ensures Repeats(History(), "b")["q"] != [] && Lowest(Repeats(History(), "b")["q"]) == 13.0
  {
    hide CommitReadings, History, CommitsIn;
    assert History()[0..] == History();
    forall c ensures |CommitReadings(History(), "b", c)| > 1 <==> c == "p" || c == "q" {
      CommitFrom(0, c);
    }
    CommitFrom(0, "p");
    CommitFrom(0, "q");
    CommitLabels(History());
    assert History()[0].commit == Some("p") && History()[4].commit == Some("q");
  }

  lemma ThreeValues(values: seq<real>)
    requires StrictlyIncreasing(values)
    requires forall v :: v in values <==> v == 10.0 || v == 13.0 || v == 30.0
    ensures values == [10.0, 13.0, 30.0]
  {
    assert 10.0 in values && 13.0 in values && 30.0 in values;
    var i :| 0 <= i < |values| && values[i] == 10.0;
    var j :| 0 <= j < |values| && values[j] == 13.0;
    var k :| 0 <= k < |values| && values[k] == 30.0;
    assert i < j < k;
    assert values[0] in values && values[1] in values && values[2] in values;
    assert values[|values| - 1] in values;
  }

  lemma ObservedValues()
    ensures Observed(History(), "b") == [10.0, 13.0, 30.0]
  {
    hide Readings, Observed, History;
    ValuesFrom(0);
    ObservedFacts(History(), "b");
    assert History()[0..] == History();
    ThreeValues(Observed(History(), "b"));
  }

  /** The splits that separate the two repeated commits are those in (10, 13]; the reference
      median is the middle of that gap, and so the search never tries it. */
  lemma SearchFindsNothing()
    ensures forall s :: IsStructured(History(), "b", s) <==> 10.0 < s <= 13.0
    ensures SearchedSplit(History(), "b", 11.5, 30.0) == None
  {
    hide Observed, Repeats, History, SearchedSplit;
    TwoCommitsRepeat();
    ObservedValues();
    forall s ensures IsStructured(History(), "b", s) <==> 10.0 < s <= 13.0 {
      TwoCommitsStructured(History(), "b", "p", "q", s);
    }
    FoundIffMidpointInside(History(), "b", 11.5, 30.0);
    hide IsStructured;
    forall i: nat | StructuredGap(History(), "b", i)
      ensures !MidpointInside(Observed(History(), "b"), i, 11.5, 30.0)
    {
      assert i == 0 || i == 1;
    }
  }

  lemma FallsBackOnTheFence(window: seq<Record>, s: Shift)
    requires SearchedSplit(window, s.name, s.reference, s.value) == None
    ensures ShiftMode(window, s) == ModeStructure(window, s.name, s.band.hi).mode
  {
    hide SearchedSplit, ModeStructure;
  }

  lemma ReportedIsMissed()
    ensures Missed(History(), "b", 11.5, 30.0)
    ensures ShiftMode(History(), Reported()) != Structured
  {
    hide History, SearchedSplit, ModeStructure, ShiftMode;
    SearchFindsNothing();
    FallsBackOnTheFence(History(), Reported());
    assert IsStructured(History(), "b", 12.0) && !IsStructured(History(), "b", 22.0);
  }

  /** Splits between the reference median and the new reading are structured -- 12 is one --
      and still no split is found and the shift fails the build. */
  lemma StructuredShiftFailsTheBuild(previous: Record, thisRun: Option<Record>, unstable: set<string>,
                                     threshold: real)
    ensures var run := Run(Now(), unstable, thisRun, History(), AT, []);
      && LevelShifts(run.records, run.at, run.current, LEVEL_SHIFT_PCT) == [Reported()]
      && Missed(ComparableRecords(run.records, run.at), "b", Reported().reference, Reported().value)
      && ShiftMode(ComparableRecords(run.records, run.at), Reported()) != Structured
      && Fails(previous, run, threshold)
  {
    var run := Run(Now(), unstable, thisRun, History(), AT, []);
    hide *;
    HistoryWindow();
    ShiftReported();
    ReportedIsMissed();
    NoSweep();
    FailsUnfold(previous, run, threshold);
    ReportedNumbers();
    OneShiftUnfold(run, Reported(), "b", PctAbove(30.0, 11.5));
    NotExcused(PctAbove(30.0, 11.5));
  }

  lemma ReportedNumbers()
    ensures Reported().name == "b" && Reported().reference == 11.5 && Reported().value == 30.0
    ensures Reported().adjusted == PctAbove(30.0, 11.5)
  {}

  lemma NoSweep()
    ensures LayoutBands([]) == map[]
  {}

  lemma NotExcused(change: real)
    ensures !ExcusedByLayout("b", change, map[])
  {}
}
