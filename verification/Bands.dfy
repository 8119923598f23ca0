/** Per-benchmark medians, Tukey fences and where a value sits against them
    (scripts/bench-history.py). */
module Bands {
  import opened Wrappers
  import opened Order
  import opened Stats
  import opened Drift
  import opened Records

  const MIN_WINDOW_FOR_BAND: nat := 6
  const TUKEY_K := 1.5
  const SPEED_WINDOW: nat := 8

  /** Every positive reading of `name`, oldest first. */
  function Samples(records: seq<Record>, name: string): seq<real> {
    if records == [] then []
    else
      var e := records[0].entries;
      (if name in e && e[name] > 0.0 then [e[name]] else []) + Samples(records[1..], name)
  }

  function NamesIn(records: seq<Record>): (names: set<string>)
    ensures forall n :: n !in names ==> Samples(records, n) == []
  {
    if records == [] then {} else records[0].entries.Keys + NamesIn(records[1..])
  }

  lemma {:induction false} SamplesSnoc(records: seq<Record>, last: Record, name: string)
    ensures Samples(records + [last], name)
            == Samples(records, name)
               + (if name in last.entries && last.entries[name] > 0.0 then [last.entries[name]] else [])
  {
    if records == [] {
      assert records + [last] == [last] && [last][1..] == [];
    } else {
      var first := records[0].entries;
      var here := if name in first && first[name] > 0.0 then [first[name]] else [];
      assert (records + [last])[1..] == records[1..] + [last];
      SamplesSnoc(records[1..], last, name);
      Regroup(here, Samples(records[1..], name),
              if name in last.entries && last.entries[name] > 0.0 then [last.entries[name]] else []);
    }
  }

  lemma {:induction false} SamplesPositive(records: seq<Record>, name: string)
    ensures forall v :: v in Samples(records, name) ==> v > 0.0
    ensures |Samples(records, name)| <= |records|
  {
    if records == [] {
    } else {
      SamplesPositive(records[1..], name);
    }
  }

  /** `acc` holds, for exactly the benchmarks with a positive reading, all of them. */
  ghost predicate Accumulates(acc: map<string, seq<real>>, records: seq<Record>) {
    && (forall n :: n in acc <==> Samples(records, n) != [])
    && (forall n :: n in acc ==> acc[n] == Samples(records, n))
  }

  /** The accumulator after some benchmarks of one more record have been filed. */
  ghost predicate PartlyFiled(acc: map<string, seq<real>>, before: map<string, seq<real>>,
                              e: Entries, names: seq<string>)
  {
    forall n :: FiledAt(acc, before, e, n in names, n)
  }

  ghost predicate FiledAt(acc: map<string, seq<real>>, before: map<string, seq<real>>, e: Entries,
                          listed: bool, n: string)
  {
    var old_ := if n in before then before[n] else [];
    var now := if n in acc then acc[n] else [];
    && (n in acc <==> now != [])
    && now == old_ + (if listed && n in e && e[n] > 0.0 then [e[n]] else [])
  }

  lemma FiledAll(acc: map<string, seq<real>>, before: map<string, seq<real>>,
                 records: seq<Record>, last: Record)
    requires Accumulates(before, records)
    requires PartlyFiled(acc, before, last.entries, Names(last.entries.Keys))
    ensures Accumulates(acc, records + [last])
  {
    hide Samples;
    forall n ensures (n in acc <==> Samples(records + [last], n) != [])
                  && (n in acc ==> acc[n] == Samples(records + [last], n))
    {
      SamplesSnoc(records, last, n);
      assert FiledAt(acc, before, last.entries, n in Names(last.entries.Keys), n);
      assert n in before <==> Samples(records, n) != [];
    }
  }

  lemma FileOne(acc: map<string, seq<real>>, before: map<string, seq<real>>, e: Entries,
                names: seq<string>, name: string)
    requires PartlyFiled(acc, before, e, names) && name !in names && name in e
    ensures e[name] > 0.0 ==>
      PartlyFiled(acc[name := (if name in acc then acc[name] else []) + [e[name]]], before, e,
                  names + [name])
    ensures e[name] <= 0.0 ==> PartlyFiled(acc, before, e, names + [name])
  {
    var more := acc[name := (if name in acc then acc[name] else []) + [e[name]]];
    assert FiledAt(acc, before, e, false, name);
    forall n
      ensures e[name] > 0.0 ==> FiledAt(more, before, e, n in names + [name], n)
      ensures e[name] <= 0.0 ==> FiledAt(acc, before, e, n in names + [name], n)
    {
      assert FiledAt(acc, before, e, n in names, n);
      assert n in names + [name] <==> n in names || n == name;
      if n == name {
        var old_ := if n in before then before[n] else [];
        assert old_ + [] == old_;
        assert (old_ + []) + [e[n]] == old_ + [e[n]];
      }
    }
  }

  method FileRecord(before: map<string, seq<real>>, e: Entries) returns (acc: map<string, seq<real>>)
    requires PartlyFiled(before, before, e, [])
    ensures PartlyFiled(acc, before, e, Names(e.Keys))
  {
    hide *;
    acc := before;
    var names := Names(e.Keys);
    for j := 0 to |names|
      invariant PartlyFiled(acc, before, e, names[..j])
    {
      var name := names[j];
      assert names[..j + 1] == names[..j] + [name];
      DistinctBefore(names, j);
      assert name in names;
      FileOne(acc, before, e, names[..j], name);
      if e[name] > 0.0 {
        acc := acc[name := (if name in acc then acc[name] else []) + [e[name]]];
      }
    }
    assert names[..|names|] == names;
  }

  lemma NothingFiled(acc: map<string, seq<real>>, records: seq<Record>, e: Entries)
    requires Accumulates(acc, records)
    ensures PartlyFiled(acc, acc, e, [])
  {
    hide Samples;
    forall n ensures FiledAt(acc, acc, e, false, n) {
      assert n in acc <==> Samples(records, n) != [];
      if n in acc { assert acc[n] + [] == acc[n]; }
    }
    assert forall n: string :: n !in [];
  }

  lemma NothingAccumulated()
    ensures Accumulates(map[], [])
  {}

  method CollectSamples(records: seq<Record>) returns (acc: map<string, seq<real>>)
    ensures Accumulates(acc, records)
  {
    acc := map[];
    NothingAccumulated();
    hide *;
    assert records[..0] == [];
    for i := 0 to |records|
      invariant Accumulates(acc, records[..i])
    {
      NothingFiled(acc, records[..i], records[i].entries);
      var next := FileRecord(acc, records[i].entries);
      FiledAll(next, acc, records[..i], records[i]);
      assert records[..i + 1] == records[..i] + [records[i]];
      acc := next;
    }
    assert records[..|records|] == records;
  }

  /** Median of each benchmark over the records that measured it. */
  function Medians(records: seq<Record>): Entries {
    map n | n in NamesIn(records) && Samples(records, n) != [] :: Median(Samples(records, n))
  }

  method PerBenchmarkMedian(records: seq<Record>) returns (medians: Entries)
    ensures medians == Medians(records)
  {
    hide Median;
    var acc := CollectSamples(records);
    medians := map n | n in acc && acc[n] != [] :: Median(acc[n]);
  }

  datatype Band = Band(lo: real, hi: real, median: real, n: nat)

  function FenceOf(values: seq<real>, k: real): Band
    requires |values| >= 2
  {
    var q1, q3 := Quartile(values, 1), Quartile(values, 3);
    var iqr := q3 - q1;
    Band(q1 - k * iqr, q3 + k * iqr, Quartile(values, 2), |values|)
  }

  function BandsOf(records: seq<Record>, k: real): map<string, Band> {
    map n | n in NamesIn(records) && |Samples(records, n)| >= MIN_WINDOW_FOR_BAND ::
      FenceOf(Samples(records, n), k)
  }

  method PerBenchmarkBands(records: seq<Record>, k: real) returns (bands: map<string, Band>)
    ensures bands == BandsOf(records, k)
  {
    hide FenceOf;
    var acc := CollectSamples(records);
    bands := map n | n in acc && |acc[n]| >= MIN_WINDOW_FOR_BAND :: FenceOf(acc[n], k);
  }

  /** A window that cannot hold enough samples bands nothing. */
  lemma ShortWindowHasNoBands(records: seq<Record>, k: real)
    requires |records| < MIN_WINDOW_FOR_BAND
    ensures BandsOf(records, k) == map[]
  {
    forall n ensures n !in BandsOf(records, k) { SamplesPositive(records, n); }
  }

  datatype BandVerdict = Outside | Within | Unjudged

  function BandPosition(value: real, band: Option<Band>, worse: bool): BandVerdict {
    match band
    case None => Unjudged
    case Some(b) =>
      if worse then (if value > b.hi then Outside else Within)
      else (if value < b.lo then Outside else Within)
  }

  function BandFor(bands: map<string, Band>, name: string): Option<Band> {
    if name in bands then Some(bands[name]) else None
  }

  /** Where a value stands, by the samples: nowhere with fewer than six of them, and outside
      when it is more than `k` times the quartile distance beyond the nearer quartile, on the
      side asked about. */
  lemma PositionMeans(records: seq<Record>, k: real, name: string, value: real)
    ensures var values, band := Samples(records, name), BandFor(BandsOf(records, k), name);
      if |values| < 6 then
        band == None && BandPosition(value, band, true) == BandPosition(value, band, false) == Unjudged
      else
        var q1, q3 := Quartile(values, 1), Quartile(values, 3);
        && band.Some? && band.value.median == Median(values) && band.value.n == |values|
        && BandPosition(value, band, true) == (if value - q3 > k * (q3 - q1) then Outside else Within)
        && BandPosition(value, band, false) == (if q1 - value > k * (q3 - q1) then Outside else Within)
  {
    hide *;
    var values := Samples(records, name);
    BandOf(records, k, name);
    if |values| >= 6 {
      FencePosition(values, k, value);
    } else {
      NoBandNoVerdict(value);
    }
  }

  lemma BandOf(records: seq<Record>, k: real, name: string)
    ensures BandFor(BandsOf(records, k), name)
            == if |Samples(records, name)| < 6 then None else Some(FenceOf(Samples(records, name), k))
  {
    hide FenceOf, Samples, NamesIn;
  }

  lemma NoBandNoVerdict(value: real)
    ensures BandPosition(value, None, true) == BandPosition(value, None, false) == Unjudged
  {}

  lemma FencePosition(values: seq<real>, k: real, value: real)
    requires |values| >= 2
    ensures var q1, q3, b := Quartile(values, 1), Quartile(values, 3), FenceOf(values, k);
      && b.median == Median(values) && b.n == |values|
      && BandPosition(value, Some(b), true) == (if value - q3 > k * (q3 - q1) then Outside else Within)
      && BandPosition(value, Some(b), false) == (if q1 - value > k * (q3 - q1) then Outside else Within)
  {
    SecondQuartile(values);
    hide Quartile, Median;
  }

  // ----- a benchmark that never moved

  lemma ConstantStatistics(values: seq<real>, x: real, k: real)
    requires |values| >= 2 && forall v :: v in values ==> v == x
    ensures Median(values) == x && FenceOf(values, k) == Band(x, x, x, |values|)
  {
    StatisticsBetween(values, x, x);
    assert k * 0.0 == 0.0;
  }

  /** Every sample inside the quartile box's own extremes is inside the fence. */
  lemma FenceContainsQuartiles(values: seq<real>, k: real)
    requires |values| >= 2 && k >= 0.0
    ensures var b := FenceOf(values, k);
            b.lo <= Quartile(values, 1) <= b.median <= Quartile(values, 3) <= b.hi
  {
    QuartilesOrdered(values);
    ProductNonNegative(k, Quartile(values, 3) - Quartile(values, 1));
  }

  lemma CutBounds(s: seq<real>, j: nat, w: real)
    requires j + 1 < |s| && s[j] <= s[j + 1] && 0.0 <= w <= 4.0
    ensures s[j] <= Cut(s[j], s[j + 1], w) <= s[j + 1]
  {
    WeightedBetween(s[j], s[j + 1], w, s[j], s[j + 1]);
  }

  lemma CutMonotone(a: real, b: real, w: real, w': real)
    requires a <= b && w <= w'
    ensures Cut(a, b, w) <= Cut(a, b, w')
  {
    ProductNonNegative(b - a, w' - w);
    assert (b - a) * (w' - w) == (a * (4.0 - w') + b * w') - (a * (4.0 - w) + b * w);
  }

  lemma CutIndices(i: nat, m: nat)
    requires m >= 1 && 1 <= i <= 2
    ensures i * m / 4 <= (i + 1) * m / 4 < m
    ensures i * m / 4 == (i + 1) * m / 4 ==> i * m % 4 <= (i + 1) * m % 4
  {
    if i == 1 { } else { }
  }

  lemma CutsOrdered(s: seq<real>, j: nat, w: real, j': nat, w': real)
    requires Sorted(s, RealLe) && j <= j' && j' + 1 < |s|
    requires 0.0 <= w <= 4.0 && 0.0 <= w' <= 4.0 && (j == j' ==> w <= w')
    ensures Cut(s[j], s[j + 1], w) <= Cut(s[j'], s[j' + 1], w')
  {
    assert RealLe(s[j], s[j + 1]) && RealLe(s[j'], s[j' + 1]);
    if j == j' {
      CutMonotone(s[j], s[j + 1], w, w');
    } else {
      CutBounds(s, j, w);
      CutBounds(s, j', w');
      assert j + 1 == j' || RealLe(s[j + 1], s[j']);
    }
  }

  lemma QuartileStep(values: seq<real>, i: nat)
    requires |values| >= 2 && 1 <= i <= 2
    ensures Quartile(values, i) <= Quartile(values, i + 1)
  {
    SortRealsFacts(values);
    hide SortReals, Sorted, Cut;
    var s := SortReals(values);
    var m := |s| - 1;
    CutIndices(i, m);
    CutsOrdered(s, i * m / 4, (i * m % 4) as real, (i + 1) * m / 4, ((i + 1) * m % 4) as real);
  }

  lemma QuartilesOrdered(values: seq<real>)
    requires |values| >= 2
    ensures Quartile(values, 1) <= Quartile(values, 2) <= Quartile(values, 3)
  {
    QuartileStep(values, 1);
    QuartileStep(values, 2);
  }
}
