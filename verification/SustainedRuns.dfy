/** Regressions that appeared and then stayed: what the shift test makes of runs whose true
    readings are known, whatever host each of them ran on (scripts/bench-history.py,
    `level_shifts`). */
module SustainedRuns {
  import opened Wrappers
  import opened Order
  import opened Stats
  import opened Drift
  import opened Records
  import opened Bands
  import opened LevelShift

  predicate AllPositive(e: Entries) { forall n :: n in e ==> e[n] > 0.0 }

  /** The benchmarks that read otherwise than in the reference. */
  function Moved(base: Entries, values: Entries): set<string> {
    set n | n in base && n in values && values[n] != base[n]
  }

  /** Readings of the same benchmarks; where a host factor is computed at all, fewer than
      half of them have moved. */
  predicate Mostly(base: Entries, values: Entries) {
    && values.Keys == base.Keys && AllPositive(values)
    && (|base| >= MIN_SAMPLES_FOR_DRIFT ==> 2 * |Moved(base, values)| < |base|)
  }

  lemma OwnRatio(c: real, b: real)
    requires b > 0.0
    ensures Ratio(Times(c, b), b) == c
  {
    assert b / b == 1.0;
    ScaledRatio(c, b, b);
  }

  lemma UndoScaling(x: real, c: real)
    requires c > 0.0 && x > 0.0
    ensures Times(c, x) > 0.0 && Divided(Times(c, x), c) == x
  {
    ScalingKeepsOrder(c, 0.0, x);
    assert x * c == c * x;
  }

  lemma {:induction false} UnmovedRatios(names: seq<string>, base: Entries, values: Entries, c: real,
                                           moved: set<string>)
    requires AllPositive(base) && values.Keys == base.Keys && Distinct(names)
    requires forall n :: n in names ==> n in base && (n !in moved ==> values[n] == base[n])
    ensures var ratios := Ratios(names, base, ScaleRun(values, c));
            |ratios| == |names| && multiset(ratios)[c] + |moved| >= |names|
  {
    if names == [] {
    } else {
      hide Times, Ratio;
      var first, run := names[0], ScaleRun(values, c);
      assert first in names && first !in names[1..] && forall n :: n in names[1..] ==> n in names;
      UnmovedRatios(names[1..], base, values, c, moved - {first});
      var rest := Ratios(names[1..], base, run);
      assert Ratios(names, base, run) == [Ratio(run[first], base[first])] + rest;
      if first !in moved {
        OwnRatio(c, base[first]);
        assert moved - {first} == moved;
      }
    }
  }

  lemma ScaledIsPositive(values: Entries, c: real)
    requires AllPositive(values) && c > 0.0
    ensures var run := ScaleRun(values, c); Positive(run) == run && run.Keys == values.Keys
  {
    var run := ScaleRun(values, c);
    forall n | n in run ensures run[n] > 0.0 { ScalingKeepsOrder(c, 0.0, values[n]); }
  }

  /** A minority of moved benchmarks cannot hide the host's factor from the rest. */
  lemma HostFactorIsRecovered(base: Entries, values: Entries, c: real)
    requires AllPositive(base) && Mostly(base, values) && c > 0.0
    requires |base| >= MIN_SAMPLES_FOR_DRIFT || c == 1.0
    ensures HostFactor(ScaleRun(values, c), base) == c
    ensures |base| >= MIN_SAMPLES_FOR_DRIFT ==> SpeedFactor(ScaleRun(values, c), base) == Some(c)
  {
    var run := ScaleRun(values, c);
    ScaledIsPositive(values, c);
    UnmovedRatios(Names(run.Keys), base, values, c, Moved(base, values));
    hide ScaleRun, Positive, Ratios, Names, Median, Moved, AllPositive;
    var ratios := SuiteRatios(base, run);
    assert |base.Keys| == |base| == |ratios|;
    FactorOfMajority(run, base, c);
  }

  lemma FactorOfMajority(run: Entries, base: Entries, c: real)
    requires Positive(run) == run && c > 0.0
    requires var ratios := SuiteRatios(base, run);
      if |ratios| >= MIN_SAMPLES_FOR_DRIFT then 2 * multiset(ratios)[c] > |ratios| else c == 1.0
    ensures HostFactor(run, base) == c
    ensures |SuiteRatios(base, run)| >= MIN_SAMPLES_FOR_DRIFT ==> SpeedFactor(run, base) == Some(c)
  {
    hide Positive, Ratios, Names, Median;
    var ratios := SuiteRatios(base, run);
    if |ratios| >= MIN_SAMPLES_FOR_DRIFT {
      MajorityIsMedian(ratios, c);
    }
  }

  lemma CorrectedAt(entries: Entries, medians: Entries, n: string)
    ensures n in Corrected(entries, medians) <==> n in entries && entries[n] > 0.0
    ensures n in Corrected(entries, medians) ==>
      Corrected(entries, medians)[n] == Divided(entries[n], HostFactor(entries, medians))
  {
    hide HostFactor, Divided;
  }

  lemma ScaledAt(values: Entries, c: real, n: string)
    ensures n in ScaleRun(values, c) <==> n in values
    ensures n in values ==> ScaleRun(values, c)[n] == Times(c, values[n])
  {
    hide Times;
  }

  /** Dividing by the run's own factor leaves what the benchmarks really read. */
  lemma CorrectionRestores(base: Entries, values: Entries, c: real)
    requires AllPositive(base) && Mostly(base, values) && c > 0.0
    requires |base| >= MIN_SAMPLES_FOR_DRIFT || c == 1.0
    ensures Corrected(ScaleRun(values, c), base) == values
  {
    hide *;
    HostFactorIsRecovered(base, values, c);
    MostlyPositive(base, values);
    var fixed := Corrected(ScaleRun(values, c), base);
    forall n ensures n in fixed <==> n in values
             ensures n in values ==> fixed[n] == values[n]
    {
      RestoredAt(base, values, c, n);
    }
    assert fixed == values;
  }

  lemma MostlyPositive(base: Entries, values: Entries)
    requires Mostly(base, values)
    ensures AllPositive(values)
  {}

  lemma RestoredAt(base: Entries, values: Entries, c: real, n: string)
    requires AllPositive(values) && c > 0.0 && HostFactor(ScaleRun(values, c), base) == c
    ensures var fixed := Corrected(ScaleRun(values, c), base);
      (n in fixed <==> n in values) && (n in values ==> fixed[n] == values[n])
  {
    hide Corrected, ScaleRun, HostFactor, Times, Divided;
    CorrectedAt(ScaleRun(values, c), base, n);
    ScaledAt(values, c, n);
    if n in values {
      UndoScaling(values[n], c);
    }
  }

  lemma {:induction false} ConstantSamples(records: seq<Record>, base: Entries, n: string)
    requires forall r :: r in records ==> r.entries == base
    requires n in base && base[n] > 0.0
    ensures |Samples(records, n)| == |records| && forall v :: v in Samples(records, n) ==> v == base[n]
  {
    if records == [] {
    } else {
      assert records[0] in records;
      ConstantSamples(records[1..], base, n);
    }
  }

  lemma {:induction false} NoForeignSamples(records: seq<Record>, base: Entries, n: string)
    requires forall r :: r in records ==> r.entries == base
    requires n !in base
    ensures Samples(records, n) == []
  {
    if records == [] {
    } else {
      assert records[0] in records;
      NoForeignSamples(records[1..], base, n);
    }
  }

  lemma ConstantReference(records: seq<Record>, base: Entries, k: real)
    requires |records| >= MIN_WINDOW_FOR_BAND
    requires forall r :: r in records ==> r.entries == base
    requires forall n :: n in base ==> base[n] > 0.0
    ensures Medians(records) == base
    ensures BandsOf(records, k).Keys == base.Keys
    ensures forall n :: n in base ==> BandsOf(records, k)[n] == Band(base[n], base[n], base[n], |records|)
  {
    hide FenceOf, Median;
    forall n | n in base
      ensures n in Medians(records) && Medians(records)[n] == base[n]
      ensures n in BandsOf(records, k) && BandsOf(records, k)[n] == Band(base[n], base[n], base[n], |records|)
    {
      ConstantSamples(records, base, n);
      ConstantStatistics(Samples(records, n), base[n], k);
    }
    forall n | n !in base ensures n !in Medians(records) && n !in BandsOf(records, k) {
      NoForeignSamples(records, base, n);
    }
  }

  predicate UpAQuarter(base: Entries, values: Entries, n: string) {
    n in base && n in values && values[n] >= 1.25 * base[n]
  }

  lemma QuarterIff(v: real, b: real)
    requires b > 0.0
    ensures PctAbove(v, b) >= LEVEL_SHIFT_PCT <==> v >= 1.25 * b
    ensures v >= 1.25 * b ==> v > b
  {
    var q := v / b;
    assert q * b == v;
    ScalingKeepsOrder(b, 1.25, q);
  }

  lemma ShiftOverConstant(base: Entries, bands: map<string, Band>, values: Entries, n: string, runs: nat)
    requires AllPositive(base) && values.Keys == base.Keys && bands.Keys == base.Keys
    requires forall m :: m in base ==> bands[m] == Band(base[m], base[m], base[m], runs)
    ensures ShiftPct(values, base, bands, LEVEL_SHIFT_PCT, n)
            == if UpAQuarter(base, values, n) then Some(PctAbove(values[n], base[n])) else None
  {
    if n in base {
      QuarterIff(values[n], base[n]);
    }
    hide PctAbove;
  }

  /** Nine comparable runs, the oldest of them equal; what the last two and this one truly
      read is known, and every run was on a host of its own speed. */
  ghost predicate KnownRuns(records: seq<Record>, at: Setting, current: Entries, base: Entries,
                            now: Entries, c: real, one: Entries, c1: real, two: Entries, c2: real)
  {
    var window := ComparableRecords(records, at);
    && AllPositive(base) && Mostly(base, now) && Mostly(base, one) && Mostly(base, two)
    && c > 0.0 && c1 > 0.0 && c2 > 0.0
    && (|base| >= MIN_SAMPLES_FOR_DRIFT || c == c1 == c2 == 1.0)
    && |window| >= 9
    && (forall r :: r in ReferenceRuns(window) ==> r.entries == base)
    && window[|window| - 1].entries == ScaleRun(one, c1)
    && window[|window| - 2].entries == ScaleRun(two, c2)
    && current == ScaleRun(now, c)
  }

  lemma KnownEvidence(records: seq<Record>, at: Setting, current: Entries, base: Entries,
                      now: Entries, c: real, one: Entries, c1: real, two: Entries, c2: real)
    requires KnownRuns(records, at, current, base, now, c, one, c1, two, c2)
    ensures |ComparableRecords(records, at)| >= 9 && current.Keys == base.Keys
    ensures AllPositive(base) && now.Keys == base.Keys && one.Keys == base.Keys && two.Keys == base.Keys
    ensures var ev := Gather(ComparableRecords(records, at), current);
      && ev.medians == base && ev.now == now && ev.before == one && ev.beforeThat == two
      && ev.bands.Keys == base.Keys
      && forall n :: n in base ==> ev.bands[n] == Band(base[n], base[n], base[n], ev.n)
  {
    var window := ComparableRecords(records, at);
    hide Corrected, BandsOf, Medians, ComparableRecords, Moved;
    NineRunsAreNeeded(records, at, current, LEVEL_SHIFT_PCT);
    ConstantReference(ReferenceRuns(window), base, LEVEL_SHIFT_TUKEY_K);
    CorrectionRestores(base, now, c);
    CorrectionRestores(base, one, c1);
    CorrectionRestores(base, two, c2);
    hide ReferenceRuns;
  }

  /** A row that gives the true rise over the baseline, in percent. */
  ghost predicate AtTrueSize(row: Shift, base: Entries, now: Entries) {
    && row.name in base && base[row.name] > 0.0 && row.name in now
    && row.reference == base[row.name]
    && (100.0 + row.adjusted) * base[row.name] == now[row.name] * 100.0
  }

  /** Against a constant baseline only the quarter counts. */
  lemma RisenRow(ev: LevelShift.Evidence, current: Entries, base: Entries, name: string)
    requires AllPositive(base) && ev.medians == base && ev.bands.Keys == base.Keys && current.Keys == base.Keys
    requires ev.now.Keys == base.Keys && ev.before.Keys == base.Keys && ev.beforeThat.Keys == base.Keys
    requires forall n :: n in base ==> ev.bands[n] == Band(base[n], base[n], base[n], ev.n)
    ensures Sustained(ev, LEVEL_SHIFT_PCT, name) <==>
      UpAQuarter(base, ev.now, name) && UpAQuarter(base, ev.before, name) && UpAQuarter(base, ev.beforeThat, name)
    ensures name in current && Sustained(ev, LEVEL_SHIFT_PCT, name) ==>
      var row := ShiftOf(ev, current, LEVEL_SHIFT_PCT, name);
      AtTrueSize(row, base, ev.now) && row.adjusted == PctAbove(ev.now[name], base[name])
  {
    ShiftOverConstant(base, ev.bands, ev.now, name, ev.n);
    ShiftOverConstant(base, ev.bands, ev.before, name, ev.n);
    ShiftOverConstant(base, ev.bands, ev.beforeThat, name, ev.n);
    if name in base && name in ev.now {
      PctAboveMeans(ev.now[name], base[name]);
    }
    hide ShiftPct, PctAbove;
  }

  /** Exactly the benchmarks at least 25% up in all three runs are reported, each once and at
      its true size, whatever the hosts did. */
  lemma ExactlyTheRisenAreReported(records: seq<Record>, at: Setting, current: Entries, base: Entries,
                                   now: Entries, c: real, one: Entries, c1: real, two: Entries, c2: real,
                                   name: string)
    requires KnownRuns(records, at, current, base, now, c, one, c1, two, c2)
    ensures var rows := LevelShifts(records, at, current, LEVEL_SHIFT_PCT);
      && (Reported(rows, name)
          <==> UpAQuarter(base, now, name) && UpAQuarter(base, one, name) && UpAQuarter(base, two, name))
      && (forall row :: row in rows && row.name == name ==> AtTrueSize(row, base, now))
      && |Filter(ShiftNamed(name), rows)| <= 1
      && WorstOnTop(rows)
  {
    KnownEvidence(records, at, current, base, now, c, one, c1, two, c2);
    var ev := Gather(ComparableRecords(records, at), current);
    hide *;
    SustainedAreReported(records, at, current, LEVEL_SHIFT_PCT, name);
    WorstAscends(records, at, current, LEVEL_SHIFT_PCT);
    RisenRow(ev, current, base, name);
  }

  // ----- one benchmark

  /** Since the reference one benchmark has read at least 25% above it, and no other moved. */
  ghost predicate StaysUp(records: seq<Record>, at: Setting, current: Entries, base: Entries, name: string,
                          v: real, c: real, v1: real, c1: real, v2: real, c2: real)
  {
    && name in base && AllPositive(base)
    && v >= 1.25 * base[name] && v1 >= 1.25 * base[name] && v2 >= 1.25 * base[name]
    && KnownRuns(records, at, current, base, base[name := v], c, base[name := v1], c1, base[name := v2], c2)
  }

  lemma OneMoved(base: Entries, name: string, v: real)
    requires name in base && AllPositive(base) && v > 0.0
    ensures Mostly(base, base[name := v])
  {
    var moved := Moved(base, base[name := v]);
    assert moved <= {name};
    assert moved == {} || moved == {name};
  }

  lemma OnlyOneUp(base: Entries, name: string, v: real, n: string)
    requires name in base && AllPositive(base) && v >= 1.25 * base[name]
    ensures UpAQuarter(base, base[name := v], n) <==> n == name
  {}

  /** Then exactly `name` is reported, at its true size. */
  lemma SustainedShiftIsReported(records: seq<Record>, at: Setting, current: Entries, base: Entries,
                                 name: string, v: real, c: real, v1: real, c1: real, v2: real, c2: real)
    requires StaysUp(records, at, current, base, name, v, c, v1, c1, v2, c2)
    ensures name in base && base[name] > 0.0
    ensures var rows := LevelShifts(records, at, current, LEVEL_SHIFT_PCT);
      && |rows| == 1
      && rows[0].name == name && rows[0].reference == base[name]
      && rows[0].adjusted == PctAbove(v, base[name])
  {
    var rows := LevelShifts(records, at, current, LEVEL_SHIFT_PCT);
    hide LevelShifts, KnownRuns, Filter, Sorted, PctAbove, UpAQuarter;
    OnlyOneUp(base, name, v, name);
    OnlyOneUp(base, name, v1, name);
    OnlyOneUp(base, name, v2, name);
    ExactlyTheRisenAreReported(records, at, current, base, base[name := v], c, base[name := v1], c1,
                               base[name := v2], c2, name);
    forall row | row in rows ensures ShiftNamed(name)(row) {
      ExactlyTheRisenAreReported(records, at, current, base, base[name := v], c, base[name := v1], c1,
                                 base[name := v2], c2, row.name);
      OnlyOneUp(base, name, v, row.name);
    }
    FilterAll(ShiftNamed(name), rows);
    assert rows != [];
    assert rows[0] in rows;
    OnlyOnePct(v, base[name], rows[0].adjusted);
  }
}
