/** How far code placement alone moves a benchmark, and which movements that excuses
    (scripts/bench-history.py, `layout_bands` and `split_by_layout`). */
module Layout {
  import opened Wrappers
  import opened Order
  import opened Stats
  import opened Drift
  import opened Records
  import opened Bands
  import opened Modes
  import opened LevelShift

  const MIN_PADS_FOR_LAYOUT_BAND := 3

  /** One `.text` offset of a sweep: the repeats measured there. */
  type Arm = seq<Record>

  /** Median over the repeats at one offset, for every benchmark read there. */
  function ArmEntries(arm: Arm): Entries {
    map n | n in NamesIn(arm) && Readings(arm, n) != [] :: Median(Readings(arm, n))
  }

  function AsRecord(e: Entries): Record {
    Record(None, None, None, None, None, None, None, false, e)
  }

  function PadEntries(arms: seq<Arm>): (pads: seq<Entries>)
    ensures |pads| == |arms|
    ensures forall i :: 0 <= i < |arms| ==> pads[i] == ArmEntries(arms[i])
  {
    if arms == [] then [] else [ArmEntries(arms[0])] + PadEntries(arms[1..])
  }

  /** Median of each benchmark across the offsets. */
  function PadMedians(pads: seq<Entries>): Entries {
    Medians(Map(AsRecord, pads))
  }

  predicate Correctable(pad: Entries, medians: Entries) {
    SpeedFactor(pad, medians).Some? && SpeedFactor(pad, medians).value > 0.0
  }

  function Correct(pad: Entries, medians: Entries): Entries
    requires Correctable(pad, medians)
  {
    map n | n in pad :: Divided(pad[n], SpeedFactor(pad, medians).value)
  }

  function CorrectAll(pads: seq<Entries>, medians: Entries): Option<seq<Entries>> {
    if pads == [] then Some([])
    else if !Correctable(pads[0], medians) then None
    else match CorrectAll(pads[1..], medians)
      case None => None
      case Some(rest) => Some([Correct(pads[0], medians)] + rest)
  }

  /** The readings of a benchmark across corrected offsets. */
  function Across(pads: seq<Entries>, name: string): seq<real> {
    if pads == [] then []
    else (if name in pads[0] then [pads[0][name]] else []) + Across(pads[1..], name)
  }

  predicate Everywhere(pads: seq<Entries>, name: string) {
    forall i :: 0 <= i < |pads| ==> name in pads[i]
  }

  lemma {:induction false} AcrossIsPointwise(pads: seq<Entries>, name: string)
    requires Everywhere(pads, name)
    ensures |Across(pads, name)| == |pads|
    ensures forall i :: 0 <= i < |pads| ==> Across(pads, name)[i] == pads[i][name]
  {
    if pads == [] {
    } else {
      assert Everywhere(pads[1..], name);
      AcrossIsPointwise(pads[1..], name);
      assert Across(pads, name) == [pads[0][name]] + Across(pads[1..], name);
      forall i | 0 <= i < |pads| ensures Across(pads, name)[i] == pads[i][name] {
        if i > 0 { assert pads[i] == pads[1..][i - 1]; }
      }
    }
  }

  /** `(hi - lo) * 100 / lo`. */
  function SpreadPct(lo: real, hi: real): real
    requires lo > 0.0
  {
    (hi - lo) * 100.0 / lo
  }

  function SpreadOf(pads: seq<Entries>, name: string): Option<real> {
    var values := Across(pads, name);
    if pads == [] || !Everywhere(pads, name) || values == [] || Lowest(values) <= 0.0 then None
    else Some(SpreadPct(Lowest(values), Highest(values)))
  }

  function SpreadBands(pads: seq<Entries>): map<string, real> {
    if pads == [] then map[]
    else map n | n in pads[0] && SpreadOf(pads, n).Some? :: SpreadOf(pads, n).value
  }

  /** The bands of one sweep, or none: too few offsets, or an offset whose host factor
      cannot be computed, leaves every benchmark unmeasured. */
  function LayoutBands(arms: seq<Arm>): map<string, real> {
    var pads := PadEntries(arms);
    if |arms| < MIN_PADS_FOR_LAYOUT_BAND then map[]
    else match CorrectAll(pads, PadMedians(pads))
      case None => map[]
      case Some(corrected) => SpreadBands(corrected)
  }

  lemma {:induction false} CorrectAllStep(pads: seq<Entries>, medians: Entries, k: nat)
    requires k < |pads| && CorrectAll(pads[..k], medians).Some?
    ensures Correctable(pads[k], medians) ==>
      CorrectAll(pads[..k + 1], medians)
      == Some(CorrectAll(pads[..k], medians).value + [Correct(pads[k], medians)])
    ensures !Correctable(pads[k], medians) ==> CorrectAll(pads, medians) == None
  {
    hide Correctable, Correct;
    if k == 0 {
      assert pads[..0] == [] && pads[..1][1..] == [] && pads[..1][0] == pads[0];
      NothingToCorrect(medians);
      if Correctable(pads[0], medians) {
        var c := Correct(pads[0], medians);
        var none: seq<Entries> := [];
        assert CorrectAll(pads[..1], medians) == Some([c] + none);
        assert [c] + none == none + [c];
      }
    } else {
      assert pads[..k][1..] == pads[1..][..k - 1] && pads[..k + 1][1..] == pads[1..][..k];
      assert pads[..k][0] == pads[0] && pads[..k + 1][0] == pads[0];
      CorrectAllStep(pads[1..], medians, k - 1);
      var rest := CorrectAll(pads[1..][..k - 1], medians).value;
      var first, last := Correct(pads[0], medians), pads[k];
      assert pads[1..][k - 1] == last;
      if Correctable(last, medians) {
        assert [first] + (rest + [Correct(last, medians)]) == ([first] + rest) + [Correct(last, medians)];
      }
    }
  }

  lemma LayoutUnfold(arms: seq<Arm>)
    ensures var pads := PadEntries(arms);
      LayoutBands(arms) ==
        (if |arms| < MIN_PADS_FOR_LAYOUT_BAND || CorrectAll(pads, PadMedians(pads)).None? then map[]
         else SpreadBands(CorrectAll(pads, PadMedians(pads)).value))
  {
    hide PadEntries, PadMedians, CorrectAll, SpreadBands;
  }

  lemma NothingToCorrect(medians: Entries)
    ensures CorrectAll([], medians) == Some([])
  {}

  method MeasureLayoutBands(arms: seq<Arm>) returns (bands: map<string, real>)
    ensures bands == LayoutBands(arms)
  {
    LayoutUnfold(arms);
    hide *;
    if |arms| < MIN_PADS_FOR_LAYOUT_BAND {
      return map[];
    }
    var pads := PadEntries(arms);
    var medians := PadMedians(pads);
    var corrected: seq<Entries> := [];
    NothingToCorrect(medians);
    assert pads[..0] == [];
    for k := 0 to |pads|
      invariant CorrectAll(pads[..k], medians) == Some(corrected)
    {
      CorrectAllStep(pads, medians, k);
      if !Correctable(pads[k], medians) {
        return map[];
      }
      corrected := corrected + [Correct(pads[k], medians)];
    }
    assert pads[..|pads|] == pads;
    bands := SpreadBands(corrected);
  }

  // ----- what a band means

  /** The relative change, up or down, in going from one layout to another. */
  function RelativeChange(src: real, dst: real): real
    requires src > 0.0
  {
    (if dst >= src then dst - src else src - dst) * 100.0 / src
  }

  /** It is the distance, as a percentage of where the move starts. */
  lemma ChangeIsTheDistance(src: real, dst: real)
    requires src > 0.0
    ensures RelativeChange(src, dst) >= 0.0
    ensures RelativeChange(src, dst) * src == if dst >= src then (dst - src) * 100.0 else (src - dst) * 100.0
  {
    var c := RelativeChange(src, dst);
    assert c * src == if dst >= src then (dst - src) * 100.0 else (src - dst) * 100.0;
    ScalingKeepsOrder(src, 0.0, c);
  }

  lemma QuotientMonotone(a: real, b: real, x: real, y: real)
    requires 0.0 <= a <= b && 0.0 < y <= x
    ensures a * 100.0 / x <= b * 100.0 / y
  {
    var p, q := a * 100.0 / x, b * 100.0 / y;
    assert p * x == a * 100.0 && q * y == b * 100.0;
    assert q >= 0.0;
    ProductNonNegative(q, x - y);
    assert q * x - q * y == q * (x - y);
    ScalingKeepsOrder(x, p, q);
  }

  lemma ChangeWithinSpread(lo: real, hi: real, src: real, dst: real)
    requires 0.0 < lo <= src <= hi && lo <= dst <= hi
    ensures RelativeChange(src, dst) <= SpreadPct(lo, hi)
  {
    var d := if dst >= src then dst - src else src - dst;
    QuotientMonotone(d, hi - lo, src, lo);
  }

  /** The spread bounds the movement between any two measured layouts, and some pair
      moves by exactly that much. */
  lemma SpreadIsTight(pads: seq<Entries>, name: string)
    requires name in SpreadBands(pads)
    ensures Everywhere(pads, name) && forall i :: 0 <= i < |pads| ==> pads[i][name] > 0.0
    ensures forall i, j :: 0 <= i < |pads| && 0 <= j < |pads| ==>
      RelativeChange(pads[i][name], pads[j][name]) <= SpreadBands(pads)[name]
    ensures exists i, j :: (0 <= i < |pads| && 0 <= j < |pads|
                            && RelativeChange(pads[i][name], pads[j][name]) == SpreadBands(pads)[name])
  {
    hide RelativeChange, SpreadPct;
    AcrossIsPointwise(pads, name);
    var values := Across(pads, name);
    var lo, hi := Lowest(values), Highest(values);
    forall i | 0 <= i < |pads| ensures lo <= pads[i][name] <= hi {
      assert values[i] in values;
    }
    forall i, j | 0 <= i < |pads| && 0 <= j < |pads|
      ensures RelativeChange(pads[i][name], pads[j][name]) <= SpreadBands(pads)[name]
    {
      ChangeWithinSpread(lo, hi, pads[i][name], pads[j][name]);
    }
    var a :| 0 <= a < |values| && values[a] == lo;
    var b :| 0 <= b < |values| && values[b] == hi;
    WidestPair(lo, hi);
    assert RelativeChange(pads[a][name], pads[b][name]) == SpreadBands(pads)[name];
  }

  lemma WidestPair(lo: real, hi: real)
    requires 0.0 < lo <= hi
    ensures RelativeChange(lo, hi) == SpreadPct(lo, hi)
  {}

  lemma {:induction false} UncorrectableVoids(pads: seq<Entries>, medians: Entries, k: nat)
    requires k < |pads| && !Correctable(pads[k], medians)
    ensures CorrectAll(pads, medians) == None
  {
    hide Correctable, Correct;
    if k > 0 {
      UncorrectableVoids(pads[1..], medians, k - 1);
    }
  }

  /** One offset without a computable host factor leaves every benchmark without a band. */
  lemma UncorrectableArmVoids(arms: seq<Arm>, k: nat)
    requires k < |arms| && !Correctable(ArmEntries(arms[k]), PadMedians(PadEntries(arms)))
    ensures LayoutBands(arms) == map[]
  {
    hide Correctable, ArmEntries, PadMedians, CorrectAll, LayoutBands;
    UncorrectableVoids(PadEntries(arms), PadMedians(PadEntries(arms)), k);
    LayoutUnfold(arms);
  }

  lemma {:induction false} CorrectedNames(pads: seq<Entries>, medians: Entries, k: nat)
    requires CorrectAll(pads, medians).Some? && k < |pads|
    ensures |CorrectAll(pads, medians).value| == |pads|
    ensures CorrectAll(pads, medians).value[k].Keys == pads[k].Keys
  {
    hide Correctable;
    if k > 0 {
      CorrectedNames(pads[1..], medians, k - 1);
    } else if |pads| > 1 {
      CorrectedNames(pads[1..], medians, 0);
    }
  }

  /** A band needs a reading at every offset of the sweep. */
  lemma BandNeedsEveryArm(arms: seq<Arm>, name: string, k: nat)
    requires name in LayoutBands(arms) && k < |arms|
    ensures Readings(arms[k], name) != []
  {
    LayoutUnfold(arms);
    var pads := PadEntries(arms);
    var medians := PadMedians(pads);
    hide PadEntries, PadMedians, CorrectAll, LayoutBands, SpreadBands;
    CorrectedNames(pads, medians, k);
    SpreadIsTight(CorrectAll(pads, medians).value, name);
    assert pads[k] == ArmEntries(arms[k]);
  }

  // ----- a band, by the readings

  lemma {:induction false} ReadNamesListed(arm: Arm, name: string)
    ensures Readings(arm, name) != [] ==> name in NamesIn(arm)
  {
    if arm != [] {
      ReadNamesListed(arm[1..], name);
    }
  }

  /** One offset's entry for a benchmark: the median of the repeats that read it. */
  lemma ArmMeans(arm: Arm, name: string)
    ensures name in ArmEntries(arm) <==> Readings(arm, name) != []
    ensures name in ArmEntries(arm) ==> ArmEntries(arm)[name] == Median(Readings(arm, name))
  {
    ReadNamesListed(arm, name);
    hide Readings, Median, NamesIn;
  }

  /** The positive entries of a benchmark across the offsets. */
  ghost function PositiveEntries(pads: seq<Entries>, name: string): seq<real> {
    if pads == [] then []
    else (if name in pads[0] && pads[0][name] > 0.0 then [pads[0][name]] else []) + PositiveEntries(pads[1..], name)
  }

  lemma {:induction false} PadSamples(pads: seq<Entries>, name: string)
    ensures Samples(Map(AsRecord, pads), name) == PositiveEntries(pads, name)
    ensures PositiveEntries(pads, name) != [] ==> name in NamesIn(Map(AsRecord, pads))
  {
    if pads != [] {
      PadSamples(pads[1..], name);
      assert Map(AsRecord, pads)[1..] == Map(AsRecord, pads[1..]);
    }
  }

  /** The reference of a sweep: the median of the positive entries, where there is one. */
  lemma PadMedianMeans(pads: seq<Entries>, name: string)
    ensures name in PadMedians(pads) <==> PositiveEntries(pads, name) != []
    ensures name in PadMedians(pads) ==> PadMedians(pads)[name] == Median(PositiveEntries(pads, name))
  {
    PadSamples(pads, name);
    hide Samples, NamesIn, Median, PositiveEntries;
  }

  /** An offset is divided by its host factor: the whole offset read that many times dearer. */
  lemma CorrectDivides(pad: Entries, medians: Entries, factor: real)
    requires SpeedFactor(pad, medians) == Some(factor)
    ensures factor > 0.0 && Correctable(pad, medians) && Correct(pad, medians).Keys == pad.Keys
    ensures forall n :: n in pad ==> Times(Correct(pad, medians)[n], factor) == pad[n]
  {
    FactorIsPositive(pad, medians);
    hide SpeedFactor;
    forall n | n in pad ensures Times(Correct(pad, medians)[n], factor) == pad[n] {
      assert Divided(pad[n], factor) * factor == pad[n];
    }
  }

  lemma CorrectAllCons(pads: seq<Entries>, medians: Entries)
    requires pads != [] && Correctable(pads[0], medians) && CorrectAll(pads[1..], medians).Some?
    ensures CorrectAll(pads, medians) == Some([Correct(pads[0], medians)] + CorrectAll(pads[1..], medians).value)
  {
    hide Correctable, Correct;
  }

  lemma {:induction false} CorrectedAt(pads: seq<Entries>, medians: Entries, k: nat)
    requires k < |pads| && forall i :: 0 <= i < |pads| ==> Correctable(pads[i], medians)
    ensures CorrectAll(pads, medians).Some? && |CorrectAll(pads, medians).value| == |pads|
    ensures CorrectAll(pads, medians).value[k] == Correct(pads[k], medians)
  {
    hide *;
    if |pads| == 1 {
      NothingToCorrect(medians);
      assert pads[1..] == [];
    } else {
      CorrectedAt(pads[1..], medians, if k == 0 then 0 else k - 1);
    }
    CorrectAllCons(pads, medians);
  }

  /** What one sweep says of a benchmark read at every offset, each offset having a host factor:
      with the medians divided by the factors, it has a band exactly when they are all positive,
      and the highest is that many percent above the lowest.  No other benchmark has one. */
  lemma BandMeans(arms: seq<Arm>, name: string, factors: seq<real>, corrected: seq<real>)
    requires |arms| == |factors| == |corrected| >= 3
    requires var medians := PadMedians(PadEntries(arms));
      forall i :: 0 <= i < |arms| ==>
        && SpeedFactor(ArmEntries(arms[i]), medians) == Some(factors[i])
        && Readings(arms[i], name) != [] && Times(corrected[i], factors[i]) == Median(Readings(arms[i], name))
    ensures name in LayoutBands(arms) <==> forall i :: 0 <= i < |arms| ==> corrected[i] > 0.0
    ensures name in LayoutBands(arms) ==>
      exists i, j :: Extremes(corrected, i, j) && PercentAbove(LayoutBands(arms)[name], corrected[i], corrected[j])
  {
    hide *;
    var pads := PadEntries(arms);
    var medians := PadMedians(pads);
    forall k | 0 <= k < |pads| ensures Correctable(pads[k], medians) {
      CorrectDivides(pads[k], medians, factors[k]);
    }
    CorrectedAt(pads, medians, 0);
    forall k | 0 <= k < |pads|
      ensures name in CorrectAll(pads, medians).value[k] && CorrectAll(pads, medians).value[k][name] == corrected[k]
    {
      ArmMeans(arms[k], name);
      CorrectedAt(pads, medians, k);
      CorrectDivides(pads[k], medians, factors[k]);
      OnlyQuotient(Correct(pads[k], medians)[name], corrected[k], factors[k]);
    }
    SweptBands(arms);
    SpreadMeans(CorrectAll(pads, medians).value, name, corrected);
  }

  lemma SweptBands(arms: seq<Arm>)
    requires |arms| >= 3 && CorrectAll(PadEntries(arms), PadMedians(PadEntries(arms))).Some?
    ensures LayoutBands(arms) == SpreadBands(CorrectAll(PadEntries(arms), PadMedians(PadEntries(arms))).value)
  {
    hide LayoutBands, PadEntries, PadMedians, CorrectAll, SpreadBands;
    LayoutUnfold(arms);
  }

  lemma OnlyQuotient(a: real, b: real, factor: real)
    requires factor > 0.0 && Times(a, factor) == Times(b, factor)
    ensures a == b
  {
    assert (a - b) * factor == 0.0;
  }

  /** Place `i` holds the lowest value and place `j` the highest. */
  ghost predicate Extremes(values: seq<real>, i: int, j: int) {
    0 <= i < |values| && 0 <= j < |values| && forall k :: 0 <= k < |values| ==> values[i] <= values[k] <= values[j]
  }

  lemma SpreadMeans(pads: seq<Entries>, name: string, values: seq<real>)
    requires |pads| == |values| >= 1
    requires forall i :: 0 <= i < |pads| ==> name in pads[i] && pads[i][name] == values[i]
    ensures name in SpreadBands(pads) <==> forall i :: 0 <= i < |values| ==> values[i] > 0.0
    ensures name in SpreadBands(pads) ==>
      exists i, j :: Extremes(values, i, j) && PercentAbove(SpreadBands(pads)[name], values[i], values[j])
  {
    AcrossIsPointwise(pads, name);
    assert Across(pads, name) == values;
    var lo, hi := Lowest(values), Highest(values);
    SpreadUnfold(pads, name, values);
    hide *;
    var i :| 0 <= i < |values| && values[i] == lo;
    var j :| 0 <= j < |values| && values[j] == hi;
    LowAndHigh(values, i, j);
    if lo > 0.0 {
      SpreadTimes(lo, hi);
    }
  }

  lemma LowAndHigh(values: seq<real>, i: nat, j: nat)
    requires i < |values| && j < |values| && values[i] == Lowest(values) && values[j] == Highest(values)
    ensures Extremes(values, i, j) && (values[i] > 0.0 <==> forall k :: 0 <= k < |values| ==> values[k] > 0.0)
  {
    var lo, hi := Lowest(values), Highest(values);
    hide Lowest, Highest;
    forall k | 0 <= k < |values| ensures lo <= values[k] <= hi { assert values[k] in values; }
  }

  lemma SpreadUnfold(pads: seq<Entries>, name: string, values: seq<real>)
    requires pads != [] && name in pads[0] && Everywhere(pads, name) && values == Across(pads, name) && values != []
    ensures name in SpreadBands(pads) <==> Lowest(values) > 0.0
    ensures Lowest(values) > 0.0 ==> SpreadBands(pads)[name] == SpreadPct(Lowest(values), Highest(values))
  {
    hide Across, Everywhere, Lowest, Highest, SpreadPct;
  }

  /** `hi` is `pct` percent above `lo`. */
  ghost predicate PercentAbove(pct: real, lo: real, hi: real) { (100.0 + pct) * lo == 100.0 * hi }

  lemma SpreadTimes(lo: real, hi: real)
    requires lo > 0.0
    ensures PercentAbove(SpreadPct(lo, hi), lo, hi)
  {
    assert (hi - lo) * 100.0 / lo * lo == (hi - lo) * 100.0;
  }

  /** A sweep of fewer than three offsets measures nothing, and neither does one with an offset
      that shares fewer than eight usable benchmarks with the rest. */
  lemma NoSweepNoBands(arms: seq<Arm>, k: nat)
    ensures |arms| < 3 ==> LayoutBands(arms) == map[]
    ensures k < |arms| && SpeedFactor(ArmEntries(arms[k]), PadMedians(PadEntries(arms))).None? ==>
      LayoutBands(arms) == map[]
  {
    LayoutUnfold(arms);
    if k < |arms| && SpeedFactor(ArmEntries(arms[k]), PadMedians(PadEntries(arms))).None? {
      UncorrectableArmVoids(arms, k);
    }
    hide LayoutBands, PadEntries, PadMedians, SpeedFactor, CorrectAll;
  }

  // ----- the excuse

  function Magnitude(x: real): real { if x < 0.0 then -x else x }

  predicate ExcusedByLayout(name: string, change: real, bands: map<string, real>) {
    name in bands && Magnitude(change) <= bands[name]
  }

  /** A movement is excused when it stays within its band, up and down. */
  lemma ExcuseMeans(name: string, change: real, bands: map<string, real>)
    ensures ExcusedByLayout(name, change, bands) <==> name in bands && -bands[name] <= change <= bands[name]
  {}

  /** A benchmark that any offset of the sweep did not read is never excused, however small
      its movement. */
  lemma UnsweptIsNeverExcused(arms: seq<Arm>, name: string, change: real, k: nat)
    requires k < |arms| && Readings(arms[k], name) == []
    ensures !ExcusedByLayout(name, change, LayoutBands(arms))
  {
    hide LayoutBands, Readings;
    if name in LayoutBands(arms) {
      BandNeedsEveryArm(arms, name, k);
      assert false;
    }
  }

  /** An excused movement is one that two builds of the same source really produced. */
  lemma ExcuseHasAWitness(arms: seq<Arm>, name: string, change: real)
    requires ExcusedByLayout(name, change, LayoutBands(arms))
    ensures var pads := PadEntries(arms);
      && |arms| >= MIN_PADS_FOR_LAYOUT_BAND
      && CorrectAll(pads, PadMedians(pads)).Some?
      && var corrected := CorrectAll(pads, PadMedians(pads)).value;
         exists i, j :: 0 <= i < |corrected| && 0 <= j < |corrected|
           && name in corrected[i] && name in corrected[j] && corrected[i][name] > 0.0
           && RelativeChange(corrected[i][name], corrected[j][name]) >= Magnitude(change)
  {
    LayoutUnfold(arms);
    var pads := PadEntries(arms);
    hide PadEntries, PadMedians, CorrectAll, LayoutBands, SpreadBands;
    var corrected := CorrectAll(pads, PadMedians(pads)).value;
    SpreadIsTight(corrected, name);
  }
}
