/** Whole-suite drift and the run-over-run comparison (scripts/bench-history.py). */
module Drift {
  import opened Wrappers
  import opened Order
  import opened Stats

  type Entries = map<string, real>

  const MIN_SAMPLES_FOR_DRIFT := 8

  /** Whether `name` has a usable baseline: present there, and positive. */
  predicate Comparable(previous: Entries, name: string) {
    name in previous && previous[name] > 0.0
  }

  function Ratio(measured: real, before: real): real
    requires before > 0.0
  {
    measured / before
  }

  function Ratios(names: seq<string>, previous: Entries, current: Entries): (r: seq<real>)
    ensures |r| <= |names|
  {
    if names == [] then []
    else
      (if names[0] in current && Comparable(previous, names[0])
       then [Ratio(current[names[0]], previous[names[0]])] else [])
      + Ratios(names[1..], previous, current)
  }

  function SuiteRatios(previous: Entries, current: Entries): seq<real> {
    Ratios(Names(current.Keys), previous, current)
  }

  /** Median of every benchmark's ratio, or nothing below the sample floor. */
  function GlobalDrift(previous: Entries, current: Entries): Option<real> {
    var ratios := SuiteRatios(previous, current);
    if |ratios| < MIN_SAMPLES_FOR_DRIFT then None else Some(Median(ratios))
  }

  function Positive(entries: Entries): Entries {
    map n | n in entries && entries[n] > 0.0 :: entries[n]
  }

  /** A run's whole-suite speed relative to reference medians. */
  function SpeedFactor(entries: Entries, medians: Entries): Option<real> {
    GlobalDrift(medians, Positive(entries))
  }

  /** The benchmarks of a run with a positive baseline. */
  ghost function Common(previous: Entries, current: Entries): set<string> {
    set n | n in current && n in previous && previous[n] > 0.0
  }

  ghost function Having(names: seq<string>, p: string -> bool): set<string> { set n | n in names && p(n) }

  lemma HavingCons(names: seq<string>, p: string -> bool)
    requires names != [] && Distinct(names)
    ensures |Having(names, p)| == (if p(names[0]) then 1 else 0) + |Having(names[1..], p)|
  {
    var first, rest := names[0], Having(names[1..], p);
    assert names == [first] + names[1..] && first !in rest;
    assert Having(names, p) == (if p(first) then {first} else {}) + rest;
  }

  /** Reads `q` times its positive baseline. */
  ghost function MovedBy(previous: Entries, current: Entries, q: real): string -> bool {
    (n: string) => n in current && n in previous && previous[n] > 0.0 && current[n] == q * previous[n]
  }

  ghost function HasBoth(previous: Entries, current: Entries): string -> bool {
    (n: string) => n in current && n in previous && previous[n] > 0.0
  }

  lemma RatioIs(measured: real, before: real, q: real)
    requires before > 0.0
    ensures Ratio(measured, before) == q <==> measured == q * before
  {
    assert measured / before * before == measured;
    assert q * before / before == q;
  }

  lemma {:induction false} RatiosCounted(names: seq<string>, previous: Entries, current: Entries, q: real)
    requires Distinct(names)
    ensures |Ratios(names, previous, current)| == |Having(names, HasBoth(previous, current))|
    ensures multiset(Ratios(names, previous, current))[q] == |Having(names, MovedBy(previous, current, q))|
  {
    if names == [] {
      assert Having(names, HasBoth(previous, current)) == {} && Having(names, MovedBy(previous, current, q)) == {};
    } else {
      hide *;
      RatiosCounted(names[1..], previous, current, q);
      HavingCons(names, HasBoth(previous, current));
      HavingCons(names, MovedBy(previous, current, q));
      OneMoreRatio(names, previous, current, q);
    }
  }

  lemma OneMoreRatio(names: seq<string>, previous: Entries, current: Entries, q: real)
    requires names != [] && Distinct(names)
    ensures Distinct(names[1..])
    ensures var some := if HasBoth(previous, current)(names[0]) then 1 else 0;
      |Ratios(names, previous, current)| == some + |Ratios(names[1..], previous, current)|
    ensures var more := if MovedBy(previous, current, q)(names[0]) then 1 else 0;
      multiset(Ratios(names, previous, current))[q] == more + multiset(Ratios(names[1..], previous, current))[q]
  {
    var n := names[0];
    MovedIffRatio(previous, current, q, n);
    hide Ratio, MovedBy, HasBoth;
    if HasBoth(previous, current)(n) {
      assert Ratios(names, previous, current)
          == [Ratio(current[n], previous[n])] + Ratios(names[1..], previous, current);
    } else {
      assert Ratios(names, previous, current) == Ratios(names[1..], previous, current);
    }
  }

  lemma MovedIffRatio(previous: Entries, current: Entries, q: real, n: string)
    ensures HasBoth(previous, current)(n) <==> n in current && Comparable(previous, n)
    ensures MovedBy(previous, current, q)(n)
            <==> HasBoth(previous, current)(n) && Ratio(current[n], previous[n]) == q
  {
    if HasBoth(previous, current)(n) {
      RatioIs(current[n], previous[n], q);
      hide Ratio;
    }
  }

  /** The factor is the median of one ratio per benchmark that both runs can be compared on,
      and there is none below eight of them. */
  lemma DriftMeans(previous: Entries, current: Entries, ratios: seq<real>)
    requires |ratios| == |Common(previous, current)|
    requires forall q ::
      multiset(ratios)[q] == |set n | n in Common(previous, current) && current[n] == q * previous[n]|
    ensures GlobalDrift(previous, current)
            == if |Common(previous, current)| < 8 then None else Some(Median(ratios))
  {
    var names, all := Names(current.Keys), SuiteRatios(previous, current);
    hide Ratios, Median, Names;
    RatiosCounted(names, previous, current, 0.0);
    assert Having(names, HasBoth(previous, current)) == Common(previous, current);
    forall q ensures multiset(ratios)[q] == multiset(all)[q] {
      RatiosCounted(names, previous, current, q);
      assert Having(names, MovedBy(previous, current, q))
          == set n | n in Common(previous, current) && current[n] == q * previous[n];
    }
    assert multiset(ratios) == multiset(all);
    if ratios != [] {
      StatisticsIgnoreOrder(ratios, all);
    }
  }

  /** A run's speed is read off its positive readings alone. */
  lemma SpeedIgnoresUnusable(entries: Entries, usable: Entries, medians: Entries)
    requires forall n :: n in usable <==> n in entries && entries[n] > 0.0
    requires forall n :: n in usable ==> usable[n] == entries[n]
    ensures SpeedFactor(entries, medians) == GlobalDrift(medians, usable)
  {
    assert Positive(entries) == usable;
  }

  // ----- the run-over-run comparison

  datatype Row = Row(name: string, before: real, after: real, rawChange: real, adjChange: real)

  datatype Movement = Absent | Added | NoBaseline | Regressed | Improved | Steady

  /** `if drift:` -- an absent and a zero factor both fall back to the raw change. */
  predicate DriftApplies(drift: Option<real>) { drift.Some? && drift.value != 0.0 }

  function RawChange(before: real, measured: real): real
    requires before > 0.0
  {
    (measured - before) * 100.0 / before
  }

  function AdjustedChange(before: real, measured: real, drift: Option<real>): real
    requires before > 0.0
  {
    if DriftApplies(drift) then (Ratio(measured, before) / drift.value - 1.0) * 100.0
    else RawChange(before, measured)
  }

  function Class(before: real, measured: real, drift: Option<real>, threshold: real): Movement
    requires before > 0.0
  {
    var adj := AdjustedChange(before, measured, drift);
    if adj >= threshold then Regressed
    else if adj <= -threshold then Improved
    else Steady
  }

  function Judge(previous: Entries, current: Entries, drift: Option<real>, threshold: real,
                 name: string): Movement
  {
    if name !in current then Absent
    else if name !in previous then Added
    else if previous[name] <= 0.0 then NoBaseline
    else Class(previous[name], current[name], drift, threshold)
  }

  function RowOf(previous: Entries, current: Entries, drift: Option<real>, name: string): Row
    requires name in current && Comparable(previous, name)
  {
    var before, measured := previous[name], current[name];
    Row(name, before, measured, RawChange(before, measured), AdjustedChange(before, measured, drift))
  }

  function RowIf(previous: Entries, current: Entries, drift: Option<real>, threshold: real,
                 name: string, verdict: Movement): seq<Row>
    requires verdict == Regressed || verdict == Improved
  {
    if Judge(previous, current, drift, threshold, name) == verdict
    then [RowOf(previous, current, drift, name)] else []
  }

  /** The rows of `names` that `Judge` puts in one class, in order. */
  function Rows(names: seq<string>, previous: Entries, current: Entries, drift: Option<real>,
                threshold: real, verdict: Movement): seq<Row>
    requires verdict == Regressed || verdict == Improved
  {
    if names == [] then []
    else
      RowIf(previous, current, drift, threshold, names[0], verdict)
      + Rows(names[1..], previous, current, drift, threshold, verdict)
  }

  lemma {:induction false} RowsSnoc(names: seq<string>, last: string, previous: Entries,
                                    current: Entries, drift: Option<real>, threshold: real,
                                    verdict: Movement)
    requires verdict == Regressed || verdict == Improved
    ensures Rows(names + [last], previous, current, drift, threshold, verdict)
            == Rows(names, previous, current, drift, threshold, verdict)
               + (if Judge(previous, current, drift, threshold, last) == verdict
                  then [RowOf(previous, current, drift, last)] else [])
  {
    hide Judge, RowOf;
    if names == [] {
      assert names + [last] == [last];
    } else {
      assert (names + [last])[1..] == names[1..] + [last];
      RowsSnoc(names[1..], last, previous, current, drift, threshold, verdict);
      Regroup(RowIf(previous, current, drift, threshold, names[0], verdict),
              Rows(names[1..], previous, current, drift, threshold, verdict),
              RowIf(previous, current, drift, threshold, last, verdict));
    }
  }

  /** A row is listed exactly when its benchmark was judged so, and carries its true numbers. */
  lemma {:induction false} RowsMembers(names: seq<string>, previous: Entries, current: Entries,
                                       drift: Option<real>, threshold: real, verdict: Movement)
    requires verdict == Regressed || verdict == Improved
    ensures forall r :: (r in Rows(names, previous, current, drift, threshold, verdict)
                         <==> r.name in names
                              && Judge(previous, current, drift, threshold, r.name) == verdict
                              && r == RowOf(previous, current, drift, r.name))
  {
    hide Class, AdjustedChange, RawChange;
    if names == [] {
    } else {
      RowsMembers(names[1..], previous, current, drift, threshold, verdict);
      assert names == [names[0]] + names[1..];
    }
  }

  ghost predicate DistinctNames(rows: seq<Row>) {
    Distinct(Map((r: Row) => r.name, rows))
  }

  lemma DistinctCons(row: Row, rest: seq<Row>)
    requires DistinctNames(rest) && forall r :: r in rest ==> r.name != row.name
    ensures DistinctNames([row] + rest)
  {
    assert ([row] + rest)[1..] == rest;
  }

  lemma {:induction false} RowsDistinct(names: seq<string>, previous: Entries, current: Entries,
                                        drift: Option<real>, threshold: real, verdict: Movement)
    requires Distinct(names)
    requires verdict == Regressed || verdict == Improved
    ensures DistinctNames(Rows(names, previous, current, drift, threshold, verdict))
  {
    hide Class, AdjustedChange, RawChange;
    if names == [] {
      RowsOfNothing(previous, current, drift, threshold);
    } else {
      var rest := Rows(names[1..], previous, current, drift, threshold, verdict);
      RowsDistinct(names[1..], previous, current, drift, threshold, verdict);
      RowsMembers(names[1..], previous, current, drift, threshold, verdict);
      if Judge(previous, current, drift, threshold, names[0]) == verdict {
        assert names[0] !in names[1..];
        hide Rows, DistinctNames, Judge, RowOf;
        DistinctCons(RowOf(previous, current, drift, names[0]), rest);
      }
    }
  }

  function NotIn(previous: Entries): string -> bool { (n: string) => n !in previous }

  function Unknown(previous: Entries, names: seq<string>): seq<string> { Filter(NotIn(previous), names) }

  lemma UnknownSnoc(previous: Entries, names: seq<string>, last: string)
    ensures Unknown(previous, names + [last])
            == Unknown(previous, names) + (if last !in previous then [last] else [])
  {
    FilterSnoc(NotIn(previous), names, last);
  }

  lemma RowsOfNothing(previous: Entries, current: Entries, drift: Option<real>, threshold: real)
    ensures Rows([], previous, current, drift, threshold, Regressed) == []
    ensures Rows([], previous, current, drift, threshold, Improved) == []
    ensures Unknown(previous, []) == []
  {}

  /** How the class of a benchmark reads off its row. */
  lemma RowVerdict(previous: Entries, current: Entries, drift: Option<real>, threshold: real, name: string)
    requires name in current
    ensures Comparable(previous, name) <==> name in previous && previous[name] > 0.0
    ensures !Comparable(previous, name) ==>
      Judge(previous, current, drift, threshold, name) !in {Regressed, Improved}
    ensures Comparable(previous, name) ==>
      var adj := RowOf(previous, current, drift, name).adjChange;
      Judge(previous, current, drift, threshold, name)
      == if adj >= threshold then Regressed else if adj <= -threshold then Improved else Steady
  {
    hide AdjustedChange, RawChange;
  }

  /** The factor the comparison divides by. */
  ghost predicate DividesBy(drift: Option<real>, d: real) {
    d != 0.0 && (drift == Some(d) || (d == 1.0 && (drift == None || drift == Some(0.0))))
  }

  /** The three classes in multiples of the baseline: beyond `threshold` percent above, or below,
      the baseline times the factor.  A negative factor would turn the two round. */
  lemma ClassMeans(before: real, measured: real, drift: Option<real>, threshold: real, d: real)
    requires before > 0.0 && threshold > 0.0 && DividesBy(drift, d)
    ensures var high, low := (100.0 + threshold) * (d * before), (100.0 - threshold) * (d * before);
      var verdict := Class(before, measured, drift, threshold);
      && (d > 0.0 ==> (verdict == Regressed <==> measured * 100.0 >= high)
                      && (verdict == Improved <==> measured * 100.0 <= low))
      && (d < 0.0 ==> (verdict == Regressed <==> measured * 100.0 <= high)
                      && (verdict == Improved <==> measured * 100.0 >= low))
      && verdict in {Regressed, Improved, Steady}
  {
    ChangeMeans(before, measured, drift, d);
    var adj, base := AdjustedChange(before, measured, drift), d * before;
    hide AdjustedChange, DividesBy;
    assert (100.0 + adj) * base - (100.0 + threshold) * base == (adj - threshold) * base;
    assert (100.0 + adj) * base - (100.0 - threshold) * base == (adj + threshold) * base;
    SignOfProduct(adj - threshold, base);
    SignOfProduct(adj + threshold, base);
    SignOfProduct(d, before);
  }

  lemma SignOfProduct(x: real, y: real)
    ensures y > 0.0 ==> (x >= 0.0 <==> x * y >= 0.0) && (x <= 0.0 <==> x * y <= 0.0)
    ensures y < 0.0 ==> (x >= 0.0 <==> x * y <= 0.0) && (x <= 0.0 <==> x * y >= 0.0)
    ensures y > 0.0 ==> (x > 0.0 <==> x * y > 0.0) && (x < 0.0 <==> x * y < 0.0)
  {}

  /** The change shown is the percentage the reading stands above the baseline, times the factor. */
  lemma ChangeMeans(before: real, measured: real, drift: Option<real>, d: real)
    requires before > 0.0 && DividesBy(drift, d)
    ensures (100.0 + AdjustedChange(before, measured, drift)) * (d * before) == measured * 100.0
    ensures (100.0 + RawChange(before, measured)) * before == measured * 100.0
  {
    var q := Ratio(measured, before);
    assert q * before == measured;
    var raw := RawChange(before, measured);
    assert raw * before == (measured - before) * 100.0;
    if DriftApplies(drift) {
      var p := q / drift.value;
      assert p * d == q;
      assert p * 100.0 * (d * before) == measured * 100.0 by {
        assert p * (d * before) == p * d * before;
      }
    }
  }

  /** A row of the comparison, by the two runs it is drawn from. */
  ghost predicate RowTells(row: Row, previous: Entries, current: Entries, d: real) {
    && row.name in current && row.name in previous && previous[row.name] > 0.0
    && row.before == previous[row.name] && row.after == current[row.name]
    && (100.0 + row.rawChange) * row.before == row.after * 100.0
    && (100.0 + row.adjChange) * (d * row.before) == row.after * 100.0
  }

  /** At least `threshold` percent above its baseline times the factor; below, for a negative one. */
  ghost predicate Slower(previous: Entries, current: Entries, d: real, threshold: real, name: string) {
    && name in current && name in previous && previous[name] > 0.0
    && if d > 0.0 then current[name] * 100.0 >= (100.0 + threshold) * (d * previous[name])
       else current[name] * 100.0 <= (100.0 + threshold) * (d * previous[name])
  }

  ghost predicate Faster(previous: Entries, current: Entries, d: real, threshold: real, name: string) {
    && name in current && name in previous && previous[name] > 0.0
    && if d > 0.0 then current[name] * 100.0 <= (100.0 - threshold) * (d * previous[name])
       else current[name] * 100.0 >= (100.0 - threshold) * (d * previous[name])
  }

  ghost predicate HasRow(rows: seq<Row>, n: string) { exists r :: r in rows && r.name == n }

  /** Which benchmarks are listed, and what their rows say. */
  lemma RowsTell(names: seq<string>, previous: Entries, current: Entries, drift: Option<real>,
                 threshold: real, d: real, n: string)
    requires threshold > 0.0 && DividesBy(drift, d)
    ensures HasRow(Rows(names, previous, current, drift, threshold, Regressed), n)
            <==> n in names && Slower(previous, current, d, threshold, n)
    ensures HasRow(Rows(names, previous, current, drift, threshold, Improved), n)
            <==> n in names && Faster(previous, current, d, threshold, n)
    ensures forall r :: r in Rows(names, previous, current, drift, threshold, Regressed) && r.name == n ==>
              RowTells(r, previous, current, d)
    ensures forall r :: r in Rows(names, previous, current, drift, threshold, Improved) && r.name == n ==>
              RowTells(r, previous, current, d)
  {
    hide Rows, Judge, RowOf, RowTells, DividesBy, Slower, Faster;
    RowsMembers(names, previous, current, drift, threshold, Regressed);
    RowsMembers(names, previous, current, drift, threshold, Improved);
    OneRowTells(previous, current, drift, threshold, d, n);
    if n in names && Slower(previous, current, d, threshold, n) {
      assert RowOf(previous, current, drift, n) in Rows(names, previous, current, drift, threshold, Regressed);
    }
    if n in names && Faster(previous, current, d, threshold, n) {
      assert RowOf(previous, current, drift, n) in Rows(names, previous, current, drift, threshold, Improved);
    }
  }

  /** The two lists of a comparison, by the readings of both runs: every benchmark far enough off
      its baseline has one row, no other has any, and the rows carry the true numbers. */
  ghost predicate ListsTell(previous: Entries, current: Entries, d: real, threshold: real,
                            regressed: seq<Row>, improved: seq<Row>)
  {
    && (forall r :: r in regressed + improved ==> RowTells(r, previous, current, d))
    && (forall n :: HasRow(regressed, n) <==> Slower(previous, current, d, threshold, n))
    && (forall n :: HasRow(improved, n) <==> Faster(previous, current, d, threshold, n))
    && DistinctNames(regressed) && DistinctNames(improved)
  }

  lemma ListsOfSuiteTell(previous: Entries, current: Entries, drift: Option<real>, threshold: real, d: real)
    requires threshold > 0.0 && DividesBy(drift, d)
    ensures ListsTell(previous, current, d, threshold,
                      Rows(Names(current.Keys), previous, current, drift, threshold, Regressed),
                      Rows(Names(current.Keys), previous, current, drift, threshold, Improved))
  {
    hide *;
    var names := Names(current.Keys);
    var regressed := Rows(names, previous, current, drift, threshold, Regressed);
    var improved := Rows(names, previous, current, drift, threshold, Improved);
    RowsDistinct(names, previous, current, drift, threshold, Regressed);
    RowsDistinct(names, previous, current, drift, threshold, Improved);
    forall n ensures EntryTells(previous, current, d, threshold, regressed, improved, n) {
      RowsTell(names, previous, current, drift, threshold, d, n);
      SlowAndFastAreListed(previous, current, d, threshold, n);
      EntryFrom(previous, current, d, threshold, regressed, improved, names, n);
    }
    Assemble(previous, current, d, threshold, regressed, improved);
  }

  /** What the lists say of one benchmark. */
  ghost predicate EntryTells(previous: Entries, current: Entries, d: real, threshold: real,
                             regressed: seq<Row>, improved: seq<Row>, n: string)
  {
    && (HasRow(regressed, n) <==> Slower(previous, current, d, threshold, n))
    && (HasRow(improved, n) <==> Faster(previous, current, d, threshold, n))
    && (forall r :: r in regressed + improved && r.name == n ==> RowTells(r, previous, current, d))
  }

  lemma EntryFrom(previous: Entries, current: Entries, d: real, threshold: real,
                  regressed: seq<Row>, improved: seq<Row>, names: seq<string>, n: string)
    requires n in names <==> n in current
    requires HasRow(regressed, n) <==> n in names && Slower(previous, current, d, threshold, n)
    requires HasRow(improved, n) <==> n in names && Faster(previous, current, d, threshold, n)
    requires Slower(previous, current, d, threshold, n) || Faster(previous, current, d, threshold, n) ==> n in current
    requires forall r :: r in regressed && r.name == n ==> RowTells(r, previous, current, d)
    requires forall r :: r in improved && r.name == n ==> RowTells(r, previous, current, d)
    ensures EntryTells(previous, current, d, threshold, regressed, improved, n)
  {
    hide HasRow, RowTells, Slower, Faster;
  }

  lemma Assemble(previous: Entries, current: Entries, d: real, threshold: real,
                 regressed: seq<Row>, improved: seq<Row>)
    requires forall n :: EntryTells(previous, current, d, threshold, regressed, improved, n)
    requires DistinctNames(regressed) && DistinctNames(improved)
    ensures ListsTell(previous, current, d, threshold, regressed, improved)
  {
    hide HasRow, RowTells, Slower, Faster, DistinctNames;
    forall r | r in regressed + improved ensures RowTells(r, previous, current, d) {
      assert EntryTells(previous, current, d, threshold, regressed, improved, r.name);
    }
    forall n
      ensures HasRow(regressed, n) <==> Slower(previous, current, d, threshold, n)
      ensures HasRow(improved, n) <==> Faster(previous, current, d, threshold, n)
    {
      assert EntryTells(previous, current, d, threshold, regressed, improved, n);
    }
  }

  lemma SlowAndFastAreListed(previous: Entries, current: Entries, d: real, threshold: real, n: string)
    ensures Slower(previous, current, d, threshold, n) || Faster(previous, current, d, threshold, n) ==> n in current
  {}

  lemma ListsAlwaysTell(previous: Entries, current: Entries, drift: Option<real>, threshold: real)
    ensures var names := Names(current.Keys);
      threshold > 0.0 ==> forall d :: DividesBy(drift, d) ==>
        ListsTell(previous, current, d, threshold, Rows(names, previous, current, drift, threshold, Regressed),
                  Rows(names, previous, current, drift, threshold, Improved))
  {
    hide *;
    if threshold > 0.0 {
      forall d | DividesBy(drift, d) {
        ListsOfSuiteTell(previous, current, drift, threshold, d);
      }
    }
  }

  lemma NewNames(previous: Entries, names: seq<string>)
    ensures forall n :: n in Unknown(previous, names) <==> n in names && n !in previous
  {
    FilterMembers(NotIn(previous), names);
  }

  lemma OneRowTells(previous: Entries, current: Entries, drift: Option<real>, threshold: real, d: real, n: string)
    requires threshold > 0.0 && DividesBy(drift, d)
    ensures Judge(previous, current, drift, threshold, n) == Regressed <==> Slower(previous, current, d, threshold, n)
    ensures Judge(previous, current, drift, threshold, n) == Improved <==> Faster(previous, current, d, threshold, n)
    ensures Judge(previous, current, drift, threshold, n) in {Regressed, Improved} ==>
      && n in current && Comparable(previous, n)
      && RowOf(previous, current, drift, n).name == n
      && RowTells(RowOf(previous, current, drift, n), previous, current, d)
  {
    hide Class, AdjustedChange, RawChange;
    if n in current && n in previous && previous[n] > 0.0 {
      ClassMeans(previous[n], current[n], drift, threshold, d);
      ChangeMeans(previous[n], current[n], drift, d);
      hide DividesBy;
    }
  }

  method Diff(previous: Entries, current: Entries, threshold: real)
    returns (regressed: seq<Row>, improved: seq<Row>, added: seq<string>,
             removed: seq<string>, drift: Option<real>)
    ensures drift == GlobalDrift(previous, current)
    ensures regressed == Rows(Names(current.Keys), previous, current, drift, threshold, Regressed)
    ensures improved == Rows(Names(current.Keys), previous, current, drift, threshold, Improved)
    ensures threshold > 0.0 ==>
      forall d :: DividesBy(drift, d) ==> ListsTell(previous, current, d, threshold, regressed, improved)
    ensures added == Unknown(previous, Names(current.Keys))
    ensures forall n :: n in added <==> n in current && n !in previous
    ensures removed == Names(previous.Keys - current.Keys)
    ensures forall n :: n in removed <==> n in previous && n !in current
  {
    hide *;
    NewNames(previous, Names(current.Keys));
    RowsOfNothing(previous, current, GlobalDrift(previous, current), threshold);
    drift := GlobalDrift(previous, current);
    regressed, improved, added := [], [], [];
    var names := Names(current.Keys);
    for i := 0 to |names|
      invariant regressed == Rows(names[..i], previous, current, drift, threshold, Regressed)
      invariant improved == Rows(names[..i], previous, current, drift, threshold, Improved)
      invariant added == Unknown(previous, names[..i])
    {
      RowVerdict(previous, current, drift, threshold, names[i]);
      var name := names[i];
      assert names[..i + 1] == names[..i] + [name];
      RowsSnoc(names[..i], name, previous, current, drift, threshold, Regressed);
      RowsSnoc(names[..i], name, previous, current, drift, threshold, Improved);
      UnknownSnoc(previous, names[..i], name);
      if name !in previous {
        added := added + [name];
        continue;
      }
      if previous[name] <= 0.0 {
        continue;
      }
      assert Comparable(previous, name);
      var row := RowOf(previous, current, drift, name);
      if row.adjChange >= threshold {
        regressed := regressed + [row];
      } else if row.adjChange <= -threshold {
        improved := improved + [row];
      }
    }
    assert names[..|names|] == names;
    removed := Names(previous.Keys - current.Keys);
    ListsAlwaysTell(previous, current, drift, threshold);
  }

  // ----- what the correction removes

  function ScaleRun(current: Entries, c: real): Entries {
    map n | n in current :: Times(c, current[n])
  }

  lemma ScaledRatio(c: real, m: real, b: real)
    requires b > 0.0
    ensures Ratio(Times(c, m), b) == Times(c, Ratio(m, b))
  {}

  lemma {:induction false} RatiosScale(names: seq<string>, previous: Entries, current: Entries, c: real)
    ensures Ratios(names, previous, ScaleRun(current, c)) == Scaled(Ratios(names, previous, current), c)
  {
    hide Times, Ratio;
    if names == [] {
    } else {
      RatiosScale(names[1..], previous, current, c);
      var n := names[0];
      var rest := Ratios(names[1..], previous, current);
      if n in current && Comparable(previous, n) {
        ScaledRatio(c, current[n], previous[n]);
        ScaledCons(Ratio(current[n], previous[n]), rest, c);
      } else {
        assert [] + rest == rest;
        assert [] + Scaled(rest, c) == Scaled(rest, c);
      }
    }
  }

  function ScaleDrift(drift: Option<real>, c: real): Option<real> {
    match drift case None => None case Some(d) => Some(Times(c, d))
  }

  lemma DriftScales(previous: Entries, current: Entries, c: real)
    requires c > 0.0
    ensures GlobalDrift(previous, ScaleRun(current, c)) == ScaleDrift(GlobalDrift(previous, current), c)
  {
    hide Ratios, Median, Names, Scaled, Times;
    assert ScaleRun(current, c).Keys == current.Keys;
    RatiosScale(Names(current.Keys), previous, current, c);
    var ratios := SuiteRatios(previous, current);
    if |ratios| >= MIN_SAMPLES_FOR_DRIFT {
      MedianScales(ratios, c);
    }
  }

  lemma CancelFactor(x: real, d: real, c: real)
    requires c > 0.0 && d != 0.0
    ensures Times(c, d) != 0.0 && Times(c, x) / Times(c, d) == x / d
  {
    var q := x / d;
    assert q * d == x;
    assert (c * d) * q == c * x;
  }

  lemma ClassScales(b: real, m: real, drift: Option<real>, threshold: real, c: real)
    requires b > 0.0 && c > 0.0 && DriftApplies(drift)
    ensures Class(b, Times(c, m), ScaleDrift(drift, c), threshold) == Class(b, m, drift, threshold)
  {
    hide Times, Ratio;
    ScaledRatio(c, m, b);
    CancelFactor(Ratio(m, b), drift.value, c);
  }

  predicate SameClasses(previous: Entries, current: Entries, scaled: Entries, threshold: real)
    requires scaled.Keys == current.Keys
  {
    var drift, drift' := GlobalDrift(previous, current), GlobalDrift(previous, scaled);
    forall n :: n in current ==>
      Judge(previous, scaled, drift', threshold, n) == Judge(previous, current, drift, threshold, n)
  }

  /** A busy host scales every reading; where the correction applies nothing changes class. */
  lemma UniformSlowdownChangesNothing(previous: Entries, current: Entries, threshold: real, c: real)
    requires c > 0.0 && DriftApplies(GlobalDrift(previous, current))
    ensures SameClasses(previous, current, ScaleRun(current, c), threshold)
  {
    hide GlobalDrift, Class, Times, ScaleDrift;
    var drift := GlobalDrift(previous, current);
    DriftScales(previous, current, c);
    forall n | n in current
      ensures Judge(previous, ScaleRun(current, c), ScaleDrift(drift, c), threshold, n)
              == Judge(previous, current, drift, threshold, n)
    {
      if Comparable(previous, n) {
        ClassScales(previous[n], current[n], drift, threshold, c);
      }
    }
  }

  /** Nothing with a baseline read anything but zero. */
  predicate AllComparableZero(previous: Entries, current: Entries) {
    forall n :: n in current && Comparable(previous, n) ==> current[n] == 0.0
  }

  /** Exactly when the comparison ignores the host's speed: the factor is known and not
      zero, or nothing comparable read anything but zero. */
  lemma SpeedIndependence(previous: Entries, current: Entries, threshold: real)
    requires threshold > 0.0 && forall n :: n in current ==> current[n] >= 0.0
    ensures (forall c: real :: c > 0.0 ==> SameClasses(previous, current, ScaleRun(current, c), threshold))
            <==> (DriftApplies(GlobalDrift(previous, current)) || AllComparableZero(previous, current))
  {
    if DriftApplies(GlobalDrift(previous, current)) {
      forall c: real | c > 0.0 ensures SameClasses(previous, current, ScaleRun(current, c), threshold) {
        UniformSlowdownChangesNothing(previous, current, threshold, c);
      }
    } else if AllComparableZero(previous, current) {
      forall c: real | c > 0.0 ensures SameClasses(previous, current, ScaleRun(current, c), threshold) {
        ZeroSuiteScales(previous, current, threshold, c);
      }
    } else {
      var n :| n in current && Comparable(previous, n) && current[n] != 0.0;
      var c := RawComparisonSeesSpeed(previous, current, threshold, n);
    }
  }

  lemma UnusableStaysUnusable(drift: Option<real>, c: real)
    requires c > 0.0
    ensures DriftApplies(drift) <==> DriftApplies(ScaleDrift(drift, c))
  {
    if DriftApplies(drift) {
      CancelFactor(1.0, drift.value, c);
    }
  }

  lemma ZeroSuiteScales(previous: Entries, current: Entries, threshold: real, c: real)
    requires c > 0.0 && AllComparableZero(previous, current)
    requires !DriftApplies(GlobalDrift(previous, current))
    ensures SameClasses(previous, current, ScaleRun(current, c), threshold)
  {
    hide GlobalDrift;
    var drift := GlobalDrift(previous, current);
    DriftScales(previous, current, c);
    UnusableStaysUnusable(drift, c);
    forall n | n in current
      ensures Judge(previous, ScaleRun(current, c), ScaleDrift(drift, c), threshold, n)
              == Judge(previous, current, drift, threshold, n)
    {
      assert Times(c, 0.0) == 0.0;
    }
  }

  lemma RawLevelAndSteep(b: real, m: real, drift: Option<real>, threshold: real)
    returns (level: real, steep: real)
    requires b > 0.0 && m > 0.0 && threshold > 0.0 && !DriftApplies(drift)
    ensures level > 0.0 && steep > 0.0
    ensures Class(b, Times(level, m), drift, threshold) == Steady
    ensures Class(b, Times(steep, m), drift, threshold) == Regressed
  {
    level := b / m;
    assert level * m == b;
    var k := 1.0 + threshold / 100.0;
    steep := k * level;
    assert steep * m == k * b by { assert steep * m == k * (level * m); }
    assert k * b - b == threshold / 100.0 * b;
    assert (threshold / 100.0 * b) * 100.0 == threshold * b;
    assert threshold * b / b == threshold;
    assert k * level > 0.0;
  }

  lemma RawComparisonSeesSpeed(previous: Entries, current: Entries, threshold: real, n: string)
    returns (c: real)
    requires threshold > 0.0 && n in current && Comparable(previous, n) && current[n] > 0.0
    requires !DriftApplies(GlobalDrift(previous, current))
    ensures c > 0.0 && !SameClasses(previous, current, ScaleRun(current, c), threshold)
  {
    hide GlobalDrift, RawChange, Times;
    var drift := GlobalDrift(previous, current);
    var level, steep := RawLevelAndSteep(previous[n], current[n], drift, threshold);
    c := if Judge(previous, current, drift, threshold, n) == Steady then steep else level;
    DriftScales(previous, current, c);
    var drift' := ScaleDrift(drift, c);
    UnusableStaysUnusable(drift, c);
    assert Class(previous[n], Times(c, current[n]), drift', threshold)
        == Class(previous[n], Times(c, current[n]), drift, threshold);
  }

  lemma ClassAtDrift(b: real, m: real, r: real, threshold: real)
    requires b > 0.0 && threshold > 0.0 && Ratio(m, b) == r
    ensures Class(b, m, Some(r), threshold) == Steady <==> (r != 0.0 || threshold > 100.0)
  {
    assert m == r * b;
    if r == 0.0 {
      assert (0.0 - b) * 100.0 / b == -100.0;
    } else {
      assert r / r == 1.0;
    }
  }

  /** If most ratios agree on `r` the drift is `r`, and a benchmark at `r` stays
      unreported -- unless `r` is zero, which reads as "no factor". */
  lemma MajorityIsTheDrift(previous: Entries, current: Entries, threshold: real, r: real, n: string)
    requires |SuiteRatios(previous, current)| >= MIN_SAMPLES_FOR_DRIFT
    requires 2 * multiset(SuiteRatios(previous, current))[r] > |SuiteRatios(previous, current)|
    requires threshold > 0.0
    requires n in current && Comparable(previous, n) && Ratio(current[n], previous[n]) == r
    ensures GlobalDrift(previous, current) == Some(r)
    ensures Judge(previous, current, GlobalDrift(previous, current), threshold, n) == Steady
            <==> (r != 0.0 || threshold > 100.0)
  {
    MajorityIsMedian(SuiteRatios(previous, current), r);
    ClassAtDrift(previous[n], current[n], r, threshold);
  }

  // ----- inputs on which the correction does not help

  /** With one benchmark there is no factor: a host at half speed is a regression. */
  lemma SpeedShowsWithoutAFactor() returns (previous: Entries, current: Entries)
    ensures previous == current == map["b" := 100.0] && GlobalDrift(previous, current) == None
    ensures !SameClasses(previous, current, ScaleRun(current, 2.0), 25.0)
  {
    previous, current := map["b" := 100.0], map["b" := 100.0];
    var slow := ScaleRun(current, 2.0);
    assert slow["b"] == 200.0;
    assert Class(100.0, 100.0, None, 25.0) == Steady && Class(100.0, 200.0, None, 25.0) == Regressed;
    hide Class, Names, ScaleRun;
    assert "b" in current && Judge(previous, current, None, 25.0, "b") != Judge(previous, slow, None, 25.0, "b");
  }

  lemma {:induction false} MostlyZero(names: seq<string>, previous: Entries, current: Entries, others: set<string>)
    requires Distinct(names)
    requires forall n :: n in names ==> Comparable(previous, n) && n in current && (n !in others ==> current[n] == 0.0)
    ensures |Ratios(names, previous, current)| == |names|
    ensures multiset(Ratios(names, previous, current))[0.0] + |others| >= |names|
  {
    if names == [] {
    } else {
      hide Comparable;
      var first := names[0];
      assert first in names && first !in names[1..] && forall n :: n in names[1..] ==> n in names;
      MostlyZero(names[1..], previous, current, others - {first});
      var rest := Ratios(names[1..], previous, current);
      assert Ratios(names, previous, current) == [Ratio(current[first], previous[first])] + rest;
      assert first !in others ==> Ratio(current[first], previous[first]) == 0.0 && others - {first} == others;
    }
  }

  function EightNames(): (s: set<string>)
    ensures |s| == 8 && {"a", "f", "g", "h"} <= s
  {
    {"a", "b", "c", "d", "e", "f", "g", "h"}
  }

  lemma ZeroFactor(previous: Entries, current: Entries)
    requires previous == map n | n in EightNames() :: 100.0
    requires current == map n | n in EightNames() :: if n in {"f", "g", "h"} then 100.0 else 0.0
    ensures GlobalDrift(previous, current) == Some(0.0)
  {
    hide EightNames, Ratios, Median, Names;
    var names := Names(current.Keys);
    assert current.Keys == EightNames();
    assert |{"f", "g", "h"}| == 3;
    MostlyZero(names, previous, current, {"f", "g", "h"});
    MajorityIsMedian(SuiteRatios(previous, current), 0.0);
  }

  /** Five of eight benchmarks read zero.  The factor is zero and counts as missing: the
      majority at that very ratio is reported, and a slow host regresses the other three. */
  lemma ZeroFactorIsNoFactor() returns (previous: Entries, current: Entries)
    ensures GlobalDrift(previous, current) == Some(0.0)
    ensures "a" in current && Judge(previous, current, Some(0.0), 25.0, "a") == Improved
    ensures !SameClasses(previous, current, ScaleRun(current, 2.0), 25.0)
  {
    hide EightNames, GlobalDrift;
    previous := map n | n in EightNames() :: 100.0;
    current := map n | n in EightNames() :: if n in {"f", "g", "h"} then 100.0 else 0.0;
    ZeroFactor(previous, current);
    DriftScales(previous, current, 2.0);
    assert Class(100.0, 0.0, Some(0.0), 25.0) == Improved;
    assert Class(100.0, 100.0, Some(0.0), 25.0) == Steady && Class(100.0, 200.0, Some(0.0), 25.0) == Regressed;
    hide Class;
    var slow := ScaleRun(current, 2.0);
    assert current["f"] == 100.0 && slow["f"] == 200.0;
    assert Times(2.0, 0.0) == 0.0;
    assert "f" in current
        && Judge(previous, current, Some(0.0), 25.0, "f") != Judge(previous, slow, Some(0.0), 25.0, "f");
  }

  // ----- no comparison blames more than half the suite

  predicate Above(limit: real, x: real) { x > limit }

  lemma {:induction false} AboveSuffix(s: seq<real>, k: nat, limit: real)
    requires k <= |s| && forall i :: 0 <= i < k ==> s[i] <= limit
    ensures |Filter((x: real) => Above(limit, x), s)| <= |s| - k
  {
    var p := (x: real) => Above(limit, x);
    if k == 0 {
      FilterMembers(p, s);
    } else {
      AboveSuffix(s[1..], k - 1, limit);
      assert Filter(p, s) == Filter(p, s[1..]);
    }
  }

  lemma AtMostHalfAboveMedian(values: seq<real>)
    requires values != []
    ensures 2 * |Filter((x: real) => Above(Median(values), x), values)| <= |values|
  {
    SortRealsFacts(values);
    var s, med := SortReals(values), Median(values);
    var p := (x: real) => Above(med, x);
    FilterPermutation(p, s, values);
    var m := |s| / 2;
    if |s| % 2 == 1 {
      forall i | 0 <= i < m + 1 ensures s[i] <= med { if i < m { assert RealLe(s[i], s[m]); } }
      AboveSuffix(s, m + 1, med);
    } else {
      assert RealLe(s[m - 1], s[m]);
      forall i | 0 <= i < m ensures s[i] <= med { if i < m - 1 { assert RealLe(s[i], s[m - 1]); } }
      AboveSuffix(s, m, med);
    }
  }

  lemma RegressedIsAbove(b: real, m: real, d: real, threshold: real)
    requires b > 0.0 && d > 0.0 && threshold > 0.0
    requires Class(b, m, Some(d), threshold) == Regressed
    ensures Above(d, Ratio(m, b))
  {
    var q := Ratio(m, b);
    assert q / d > 1.0;
    assert (q / d) * d == q;
    ScalingKeepsOrder(d, 1.0, q / d);
  }

  lemma {:induction false} RegressedAreAbove(names: seq<string>, previous: Entries, current: Entries,
                                          threshold: real, d: real)
    requires threshold > 0.0 && d > 0.0
    ensures |Rows(names, previous, current, Some(d), threshold, Regressed)|
            <= |Filter((x: real) => Above(d, x), Ratios(names, previous, current))|
  {
    var p := (x: real) => Above(d, x);
    if names == [] {
    } else {
      var n := names[0];
      RegressedAreAbove(names[1..], previous, current, threshold, d);
      var here := if n in current && Comparable(previous, n) then [Ratio(current[n], previous[n])] else [];
      FilterConcat(p, here, Ratios(names[1..], previous, current));
      if Judge(previous, current, Some(d), threshold, n) == Regressed {
        RegressedIsAbove(previous[n], current[n], d, threshold);
        assert here[1..] == [] && |Filter(p, here)| == 1;
      }
    }
  }

  /** However the run moved, at most half of what can be compared is called regressed. */
  lemma AtMostHalfRegress(previous: Entries, current: Entries, threshold: real)
    requires threshold > 0.0 && forall n :: n in current ==> current[n] > 0.0
    requires |SuiteRatios(previous, current)| >= MIN_SAMPLES_FOR_DRIFT
    ensures 2 * |Rows(Names(current.Keys), previous, current, GlobalDrift(previous, current),
                      threshold, Regressed)|
            <= |SuiteRatios(previous, current)|
  {
    var ratios := SuiteRatios(previous, current);
    PositiveRatios(Names(current.Keys), previous, current);
    MedianPositive(ratios);
    AtMostHalfAboveMedian(ratios);
    RegressedAreAbove(Names(current.Keys), previous, current, threshold, Median(ratios));
  }

  lemma {:induction false} PositiveRatios(names: seq<string>, previous: Entries, current: Entries)
    requires forall n :: n in names && n in current ==> current[n] > 0.0
    ensures forall q :: q in Ratios(names, previous, current) ==> q > 0.0
  {
    if names == [] {
    } else {
      PositiveRatios(names[1..], previous, current);
      if names[0] in current && Comparable(previous, names[0]) {
        assert Ratio(current[names[0]], previous[names[0]]) > 0.0;
      }
    }
  }

  lemma MedianPositive(values: seq<real>)
    requires values != [] && forall v :: v in values ==> v > 0.0
    ensures Median(values) > 0.0
  {
    SortRealsFacts(values);
    var s := SortReals(values);
    assert s[|s| / 2] in s;
    if |s| % 2 == 0 { assert s[|s| / 2 - 1] in s; }
  }
}
