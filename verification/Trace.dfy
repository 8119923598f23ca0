/** Reading the host's reference cost at every suite position off the canary trace
    (scripts/bench-history.py). */
module Trace {
  import opened Wrappers
  import opened Order
  import opened Stats
  import opened Drift

  const MIN_TRACE_SAMPLES := 3

  /** One canary sample; a field that is missing or not an integer is `None`. */
  datatype Sample = Sample(pos: Option<int>, centi: Option<int>, edge: Option<string>)

  datatype Point = Point(pos: int, centi: int)

  predicate PointLe(a: Point, b: Point) {
    a.pos < b.pos || (a.pos == b.pos && a.centi <= b.centi)
  }

  predicate Usable(s: Sample) { s.pos.Some? && s.centi.Some? && s.centi.value > 0 }

  function Points(trace: seq<Sample>): seq<Point> {
    if trace == [] then []
    else (if Usable(trace[0]) then [Point(trace[0].pos.value, trace[0].centi.value)] else []) + Points(trace[1..])
  }

  function PositionedSamples(trace: seq<Sample>): seq<Point> { Sort(Points(trace), PointLe) }

  function EdgeReadings(trace: seq<Sample>, which: string): seq<Option<int>> {
    if trace == [] then []
    else (if trace[0].edge == Some(which) then [trace[0].centi] else []) + EdgeReadings(trace[1..], which)
  }

  /** The endpoint's reading, refused when the label is missing, repeated or unusable. */
  function TraceEdge(trace: seq<Sample>, which: string): Option<int> {
    var hits := EdgeReadings(trace, which);
    if |hits| != 1 || hits[0].None? || hits[0].value <= 0 then None else hits[0]
  }

  function Centi(p: Point): real { p.centi as real }

  function TraceReference(trace: seq<Sample>): Option<real> {
    var samples := PositionedSamples(trace);
    if |samples| < MIN_TRACE_SAMPLES then None else Some(Median(Map(Centi, samples)))
  }

  /** `d` of `span` equal parts of a rise. */
  function Share(rise: real, d: real, span: real): real
    requires span > 0.0
  {
    rise * d / span
  }

  /** A point on the line from `lo` to `hi`, `d` of `span` steps along. */
  function Lerp(lo: real, hi: real, d: real, span: real): real
    requires span > 0.0
  {
    lo + Share(hi - lo, d, span)
  }

  /** The first bracketing pair's reading; `None` when no pair brackets `pos`. */
  function Bracketed(points: seq<Point>, pos: int): Option<real> {
    if |points| < 2 then None
    else
      var lo, hi := points[0], points[1];
      if lo.pos <= pos <= hi.pos then
        if hi.pos - lo.pos <= 0 then Some(Centi(lo))
        else Some(Lerp(Centi(lo), Centi(hi), (pos - lo.pos) as real, (hi.pos - lo.pos) as real))
      else Bracketed(points[1..], pos)
  }

  function ReadAt(points: seq<Point>, pos: int): Option<real>
    requires points != []
  {
    if pos <= points[0].pos then Some(Centi(points[0]))
    else if pos >= points[|points| - 1].pos then Some(Centi(points[|points| - 1]))
    else Bracketed(points, pos)
  }

  /** The samples, with the `end` reading placed at the last suite position when it
      lies beyond them. */
  function Support(trace: seq<Sample>, lastPos: Option<int>): seq<Point>
    requires PositionedSamples(trace) != []
  {
    var samples := PositionedSamples(trace);
    var end := TraceEdge(trace, "end");
    if end.Some? && lastPos.Some? && lastPos.value > samples[|samples| - 1].pos
    then samples + [Point(lastPos.value, end.value)]
    else samples
  }

  function InterpolateTrace(trace: seq<Sample>, pos: int, lastPos: Option<int>): Option<real> {
    if |PositionedSamples(trace)| < MIN_TRACE_SAMPLES then None
    else ReadAt(Support(trace, lastPos), pos)
  }

  /** The reading lies on the straight line between the two points around the position, and
      is the first or the last one's before and after them all. */
  ghost predicate OnTheLine(points: seq<Point>, pos: int, reading: real)
    requires points != []
  {
    && (pos <= points[0].pos ==> reading == points[0].centi as real)
    && (points[0].pos < pos && points[|points| - 1].pos <= pos ==> reading == points[|points| - 1].centi as real)
    && forall k :: 0 <= k < |points| - 1 && points[k].pos < pos < points[k + 1].pos ==>
         Proportional(points[k], points[k + 1], pos, reading)
  }

  /** As far between the two costs as the position is between the two places. */
  ghost predicate Proportional(p: Point, q: Point, pos: int, reading: real) {
    (reading - p.centi as real) * (q.pos - p.pos) as real == (q.centi as real - p.centi as real) * (pos - p.pos) as real
  }

  method Interpolate(trace: seq<Sample>, pos: int, lastPos: Option<int>) returns (reading: Option<real>)
    ensures reading == InterpolateTrace(trace, pos, lastPos)
    ensures reading.Some? <==> |PositionedSamples(trace)| >= 3
    ensures reading.Some? ==> OnTheLine(Support(trace, lastPos), pos, reading.value)
  {
    InterpolationIsOnTheLine(trace, pos, lastPos);
    hide PositionedSamples, Lerp, OnTheLine;
    if |PositionedSamples(trace)| < MIN_TRACE_SAMPLES {
      return None;
    }
    var points := Support(trace, lastPos);
    hide Support;
    if pos <= points[0].pos {
      return Some(Centi(points[0]));
    }
    if pos >= points[|points| - 1].pos {
      return Some(Centi(points[|points| - 1]));
    }
    for i := 0 to |points| - 1
      invariant Bracketed(points, pos) == Bracketed(points[i..], pos)
    {
      var lo, hi := points[i], points[i + 1];
      assert points[i..][0] == lo && points[i..][1] == hi && points[i..][1..] == points[i + 1..];
      if lo.pos <= pos <= hi.pos {
        var span := hi.pos - lo.pos;
        if span <= 0 {
          return Some(Centi(lo));
        }
        return Some(Lerp(Centi(lo), Centi(hi), (pos - lo.pos) as real, span as real));
      }
    }
    return None;
  }

  function LastPosition(names: seq<string>, positions: map<string, int>): (last: int)
    requires names != [] && forall n :: n in names ==> n in positions
    ensures forall n :: n in names ==> positions[n] <= last
    ensures exists n :: n in names && positions[n] == last
  {
    if |names| == 1 then positions[names[0]]
    else
      var rest := LastPosition(names[1..], positions);
      assert names == [names[0]] + names[1..];
      if positions[names[0]] >= rest then positions[names[0]] else rest
  }

  function Factor(reading: real, reference: real): real
    requires reference != 0.0
  {
    reading / reference
  }

  /** How much dearer the host was where each benchmark ran; empty when no model exists. */
  function PositionalFactors(trace: seq<Sample>, positions: map<string, int>): map<string, real> {
    var reference := TraceReference(trace);
    if reference.None? || reference.value == 0.0 || positions == map[] then map[]
    else
      var names := Names(positions.Keys);
      var last := Some(LastPosition(names, positions));
      map n | n in positions && InterpolateTrace(trace, positions[n], last).Some? ::
        Factor(InterpolateTrace(trace, positions[n], last).value, reference.value)
  }

  // ----- the samples are in order and positive

  ghost predicate Ordered(points: seq<Point>) {
    forall i, j :: 0 <= i < j < |points| ==> points[i].pos <= points[j].pos
  }

  lemma {:induction false} PointsPositive(trace: seq<Sample>)
    ensures forall p :: p in Points(trace) ==> p.centi > 0
  {
    if trace == [] {
    } else {
      PointsPositive(trace[1..]);
    }
  }

  lemma SamplesFacts(trace: seq<Sample>)
    ensures Ordered(PositionedSamples(trace))
    ensures forall p :: p in PositionedSamples(trace) ==> p.centi > 0
    ensures forall p :: p in PositionedSamples(trace) <==> p in Points(trace)
  {
    var samples := PositionedSamples(trace);
    SortIsSorted(Points(trace), PointLe);
    SortPermutes(Points(trace), PointLe);
    MembersAgree(samples, Points(trace));
    PointsPositive(trace);
    hide PositionedSamples, Points;
    forall i, j | 0 <= i < j < |samples| ensures samples[i].pos <= samples[j].pos {
      assert PointLe(samples[i], samples[j]);
    }
  }

  lemma SupportFacts(trace: seq<Sample>, lastPos: Option<int>)
    requires PositionedSamples(trace) != []
    ensures Ordered(Support(trace, lastPos)) && PositionedSamples(trace) <= Support(trace, lastPos)
    ensures forall p :: p in Support(trace, lastPos) ==> p.centi > 0
  {
    SamplesFacts(trace);
    hide PositionedSamples, Points, EdgeReadings;
    var samples, points := PositionedSamples(trace), Support(trace, lastPos);
    if |points| > |samples| {
      assert points == samples + [points[|samples|]];
    }
  }

  // ----- what is read, and between what

  lemma {:induction false} PointsConcat(a: seq<Sample>, b: seq<Sample>, which: string)
    ensures Points(a + b) == Points(a) + Points(b)
    ensures EdgeReadings(a + b, which) == EdgeReadings(a, which) + EdgeReadings(b, which)
  {
    if a == [] {
      assert a + b == b;
    } else {
      assert (a + b)[0] == a[0] && (a + b)[1..] == a[1..] + b;
      PointsConcat(a[1..], b, which);
      var here := if Usable(a[0]) then [Point(a[0].pos.value, a[0].centi.value)] else [];
      Regroup(here, Points(a[1..]), Points(b));
      var hit := if a[0].edge == Some(which) then [a[0].centi] else [];
      Regroup(hit, EdgeReadings(a[1..], which), EdgeReadings(b, which));
    }
  }

  /** One more sample, anywhere in the trace, counts when it has a place and a positive cost, and
      under its own label only. */
  lemma OneMoreSample(a: seq<Sample>, s: Sample, b: seq<Sample>, which: string)
    ensures Points(a + [s] + b)
            == Points(a)
               + (if s.pos.Some? && s.centi.Some? && s.centi.value > 0 then [Point(s.pos.value, s.centi.value)] else [])
               + Points(b)
    ensures EdgeReadings(a + [s] + b, which)
            == EdgeReadings(a, which) + (if s.edge == Some(which) then [s.centi] else []) + EdgeReadings(b, which)
  {
    JustOneSample(s, which);
    hide *;
    PointsConcat(a + [s], b, which);
    PointsConcat(a, [s], which);
  }

  lemma JustOneSample(s: Sample, which: string)
    ensures Points([s])
            == if s.pos.Some? && s.centi.Some? && s.centi.value > 0 then [Point(s.pos.value, s.centi.value)] else []
    ensures EdgeReadings([s], which) == if s.edge == Some(which) then [s.centi] else []
  {
    assert [s][1..] == [];
  }

  ghost predicate InOrder(p: Point, q: Point) { p.pos < q.pos || (p.pos == q.pos && p.centi <= q.centi) }

  /** The samples by place, and by cost within a place. */
  lemma SamplesAre(trace: seq<Sample>)
    ensures var samples := PositionedSamples(trace);
      && multiset(samples) == multiset(Points(trace))
      && forall i, j :: 0 <= i < j < |samples| ==> InOrder(samples[i], samples[j])
  {
    var samples := PositionedSamples(trace);
    PointsAreOrdered();
    SortIsSorted(Points(trace), PointLe);
    SortPermutes(Points(trace), PointLe);
    hide PositionedSamples, Points;
    forall i, j | 0 <= i < j < |samples| ensures InOrder(samples[i], samples[j]) {
      assert PointLe(samples[i], samples[j]);
    }
  }

  lemma PointsAreOrdered()
    ensures TotalPreorder(PointLe)
  {}

  /** Exactly one sample carries the label. */
  ghost predicate OnlyOne(trace: seq<Sample>, which: string, i: int) {
    0 <= i < |trace| && trace[i].edge == Some(which)
    && forall j :: 0 <= j < |trace| && j != i ==> trace[j].edge != Some(which)
  }

  lemma {:induction false} EdgeNone(trace: seq<Sample>, which: string)
    ensures EdgeReadings(trace, which) == [] <==> forall s :: s in trace ==> s.edge != Some(which)
  {
    if trace != [] {
      EdgeNone(trace[1..], which);
      assert trace == [trace[0]] + trace[1..];
    }
  }

  lemma {:induction false} EdgeOne(trace: seq<Sample>, which: string)
    ensures |EdgeReadings(trace, which)| == 1 <==> exists i :: OnlyOne(trace, which, i)
    ensures forall i :: OnlyOne(trace, which, i) ==> EdgeReadings(trace, which) == [trace[i].centi]
  {
    if trace != [] {
      var rest := trace[1..];
      EdgeUnfold(trace, which);
      hide EdgeReadings;
      if trace[0].edge == Some(which) {
        EdgeNone(rest, which);
        if EdgeReadings(rest, which) == [] {
          forall j | 0 <= j < |trace| && j != 0 ensures trace[j].edge != Some(which) {
            assert trace[j] == rest[j - 1] && rest[j - 1] in rest;
          }
          assert OnlyOne(trace, which, 0);
        } else {
          var s :| s in rest && s.edge == Some(which);
          var j :| 0 <= j < |rest| && rest[j] == s;
          assert trace[j + 1].edge == Some(which);
        }
      } else {
        EdgeOne(rest, which);
        forall i | OnlyOne(trace, which, i) ensures OnlyOne(rest, which, i - 1) {
          OnlyOneTail(trace, which, i);
        }
        forall i | OnlyOne(rest, which, i) ensures OnlyOne(trace, which, i + 1) {
          assert trace[i + 1] == rest[i];
          forall j | 0 <= j < |trace| && j != i + 1 ensures trace[j].edge != Some(which) {
            assert j > 0 ==> trace[j] == rest[j - 1];
          }
        }
      }
    }
  }

  lemma OnlyOneTail(trace: seq<Sample>, which: string, i: int)
    requires OnlyOne(trace, which, i) && i > 0
    ensures OnlyOne(trace[1..], which, i - 1)
  {
    var rest := trace[1..];
    forall j | 0 <= j < |rest| && j != i - 1 ensures rest[j].edge != Some(which) {
      assert rest[j] == trace[j + 1];
    }
  }

  /** An endpoint is legible exactly when one sample, and no other, carries its label and that
      sample has a positive cost: the cost that is read. */
  lemma EdgeMeans(trace: seq<Sample>, which: string, cost: int)
    ensures TraceEdge(trace, which) == Some(cost)
            <==> cost > 0 && exists i :: OnlyOne(trace, which, i) && trace[i].centi == Some(cost)
  {
    EdgeOne(trace, which);
    hide EdgeReadings, OnlyOne;
    if i :| OnlyOne(trace, which, i) {
      assert EdgeReadings(trace, which)[0] == trace[i].centi by { InRange(trace, which, i); }
    }
  }

  lemma InRange(trace: seq<Sample>, which: string, i: int)
    requires OnlyOne(trace, which, i)
    ensures 0 <= i < |trace|
  {}

  /** The end reading is added at the last suite position when there is one, it is legible, and
      every sample was taken before that position; otherwise the samples stand alone. */
  lemma SupportMeans(trace: seq<Sample>, last: int, cost: int)
    requires PositionedSamples(trace) != []
    ensures Support(trace, None) == PositionedSamples(trace)
    ensures TraceEdge(trace, "end") == None ==> Support(trace, Some(last)) == PositionedSamples(trace)
    ensures TraceEdge(trace, "end") == Some(cost) ==>
      Support(trace, Some(last)) == PositionedSamples(trace)
        + if forall p :: p in PositionedSamples(trace) ==> p.pos < last then [Point(last, cost)] else []
  {
    SamplesFacts(trace);
    hide PositionedSamples, TraceEdge, Points;
    var samples := PositionedSamples(trace);
    assert samples[|samples| - 1] in samples;
    assert samples + [] == samples;
    forall p | p in samples ensures p.pos <= samples[|samples| - 1].pos {
      var i :| 0 <= i < |samples| && samples[i] == p;
      assert i < |samples| - 1 ==> samples[i].pos <= samples[|samples| - 1].pos;
    }
  }

  lemma LerpIsProportional(p: Point, q: Point, pos: int)
    requires p.pos < q.pos
    ensures Proportional(p, q, pos, Lerp(Centi(p), Centi(q), (pos - p.pos) as real, (q.pos - p.pos) as real))
  {
    var rise, d, span := Centi(q) - Centi(p), (pos - p.pos) as real, (q.pos - p.pos) as real;
    assert span > 0.0;
    assert Share(rise, d, span) * span == rise * d;
  }

  lemma {:induction false} BracketedBetween(points: seq<Point>, pos: int, k: nat)
    requires Ordered(points) && k + 1 < |points| && points[k].pos < pos < points[k + 1].pos
    ensures Bracketed(points, pos)
            == Some(Lerp(Centi(points[k]), Centi(points[k + 1]), (pos - points[k].pos) as real,
                         (points[k + 1].pos - points[k].pos) as real))
  {
    hide Lerp, Centi;
    if k > 0 {
      assert points[1].pos <= points[k].pos;
      BracketedBetween(points[1..], pos, k - 1);
    }
  }

  lemma ReadIsOnTheLine(points: seq<Point>, pos: int)
    requires points != [] && Ordered(points)
    ensures ReadAt(points, pos).Some? && OnTheLine(points, pos, ReadAt(points, pos).value)
  {
    ReadIsTotal(points, pos, 0.0, 0.0);
    hide Bracketed, Proportional, Lerp;
    forall k | 0 <= k < |points| - 1 && points[k].pos < pos < points[k + 1].pos
      ensures Proportional(points[k], points[k + 1], pos, ReadAt(points, pos).value)
    {
      assert points[0].pos <= points[k].pos;
      assert points[k + 1].pos <= points[|points| - 1].pos;
      BracketedBetween(points, pos, k);
      LerpIsProportional(points[k], points[k + 1], pos);
    }
  }

  lemma InterpolationIsOnTheLine(trace: seq<Sample>, pos: int, lastPos: Option<int>)
    ensures InterpolateTrace(trace, pos, lastPos).Some? <==> |PositionedSamples(trace)| >= 3
    ensures |PositionedSamples(trace)| >= 3 ==>
      OnTheLine(Support(trace, lastPos), pos, InterpolateTrace(trace, pos, lastPos).value)
  {
    if |PositionedSamples(trace)| >= 3 {
      SupportFacts(trace, lastPos);
      hide Support, PositionedSamples, ReadAt, OnTheLine;
      ReadIsOnTheLine(Support(trace, lastPos), pos);
    }
  }

  /** With distinct positions the reading is on the line between any two neighbours, ends included. */
  lemma OnTheLineBetweenNeighbours(trace: seq<Sample>, pos: int, lastPos: Option<int>, k: nat)
    requires |PositionedSamples(trace)| >= 3 && DistinctPositions(PositionedSamples(trace))
    requires k + 1 < |Support(trace, lastPos)|
    requires Support(trace, lastPos)[k].pos <= pos <= Support(trace, lastPos)[k + 1].pos
    ensures InterpolateTrace(trace, pos, lastPos).Some?
    ensures Proportional(Support(trace, lastPos)[k], Support(trace, lastPos)[k + 1], pos,
                         InterpolateTrace(trace, pos, lastPos).value)
  {
    InterpolationIsOnTheLine(trace, pos, lastPos);
    hide PositionedSamples, Support, InterpolateTrace;
    var p, q := Support(trace, lastPos)[k], Support(trace, lastPos)[k + 1];
    if pos == p.pos {
      ExactAtSamples(trace, lastPos, k);
    } else if pos == q.pos {
      ExactAtSamples(trace, lastPos, k + 1);
    }
  }

  // ----- total, and between its samples

  lemma ProductOver(x: real, d: real, span: real, t: real)
    requires span > 0.0 && t * span == d
    ensures Share(x, d, span) == Times(x, t)
  {
    assert x * d == x * t * span;
    assert x * t * span / span == x * t;
  }

  lemma ConvexBetween(a: real, b: real, t: real, lo: real, hi: real)
    requires lo <= a <= hi && lo <= b <= hi && 0.0 <= t <= 1.0
    ensures lo <= a + Times(b - a, t) <= hi
  {
    ProductNonNegative(1.0 - t, a - lo);
    ProductNonNegative(t, b - lo);
    assert a + (b - a) * t - lo == (1.0 - t) * (a - lo) + t * (b - lo);
    ProductNonNegative(1.0 - t, hi - a);
    ProductNonNegative(t, hi - b);
    assert hi - (a + (b - a) * t) == (1.0 - t) * (hi - a) + t * (hi - b);
  }

  lemma PartOf(d: real, span: real)
    requires 0.0 <= d <= span && span > 0.0
    ensures 0.0 <= d / span <= 1.0 && d / span * span == d
  {
    var t := d / span;
    assert t * span == d;
    ScalingKeepsOrder(span, t, 1.0);
    ScalingKeepsOrder(span, 0.0, t);
  }

  lemma LerpBetween(a: real, b: real, d: real, span: real, lo: real, hi: real)
    requires lo <= a <= hi && lo <= b <= hi && 0.0 <= d <= span && span > 0.0
    ensures lo <= Lerp(a, b, d, span) <= hi
  {
    PartOf(d, span);
    hide Share, Times;
    ProductOver(b - a, d, span, d / span);
    ConvexBetween(a, b, d / span, lo, hi);
  }

  lemma {:induction false} BracketedIsTotal(points: seq<Point>, pos: int, lo: real, hi: real)
    requires |points| >= 2 && Ordered(points)
    requires points[0].pos <= pos <= points[|points| - 1].pos
    requires forall p :: p in points ==> lo <= Centi(p) <= hi
    ensures Bracketed(points, pos).Some? && lo <= Bracketed(points, pos).value <= hi
  {
    hide Lerp;
    assert points[0] in points && points[1] in points;
    if points[0].pos <= pos <= points[1].pos {
      if points[1].pos > points[0].pos {
        LerpBetween(Centi(points[0]), Centi(points[1]), (pos - points[0].pos) as real,
                    (points[1].pos - points[0].pos) as real, lo, hi);
      }
    } else {
      BracketedIsTotal(points[1..], pos, lo, hi);
    }
  }

  /** Three samples are enough: the reading exists everywhere -- the final `None` cannot
      be reached -- and never leaves the range of the samples it is drawn from. */
  lemma InterpolationIsTotal(trace: seq<Sample>, pos: int, lastPos: Option<int>, lo: real, hi: real)
    ensures InterpolateTrace(trace, pos, lastPos).Some? <==> |PositionedSamples(trace)| >= MIN_TRACE_SAMPLES
    ensures (|PositionedSamples(trace)| >= MIN_TRACE_SAMPLES
             && forall p :: p in Support(trace, lastPos) ==> lo <= Centi(p) <= hi)
            ==> lo <= InterpolateTrace(trace, pos, lastPos).value <= hi
  {
    if |PositionedSamples(trace)| >= MIN_TRACE_SAMPLES {
      SupportFacts(trace, lastPos);
      var points := Support(trace, lastPos);
      hide Support, PositionedSamples;
      ReadIsTotal(points, pos, lo, hi);
    }
  }

  lemma {:induction false} Extremes(points: seq<Point>) returns (lo: real, hi: real)
    requires points != []
    ensures forall p :: p in points ==> lo <= Centi(p) <= hi
  {
    lo, hi := Centi(points[0]), Centi(points[0]);
    if |points| > 1 {
      assert points == [points[0]] + points[1..];
      var a, b := Extremes(points[1..]);
      lo := if a < lo then a else lo;
      hi := if b > hi then b else hi;
    }
  }

  lemma ReadIsTotal(points: seq<Point>, pos: int, lo: real, hi: real)
    requires points != [] && Ordered(points)
    ensures ReadAt(points, pos).Some?
    ensures (forall p :: p in points ==> lo <= Centi(p) <= hi) ==> lo <= ReadAt(points, pos).value <= hi
  {
    hide Bracketed;
    assert points[0] in points && points[|points| - 1] in points;
    if points[0].pos < pos < points[|points| - 1].pos {
      var a, b := Extremes(points);
      BracketedIsTotal(points, pos, a, b);
      if forall p :: p in points ==> lo <= Centi(p) <= hi {
        BracketedIsTotal(points, pos, lo, hi);
      }
    }
  }

  // ----- exact at the samples

  ghost predicate DistinctPositions(points: seq<Point>) {
    forall i, j :: 0 <= i < j < |points| ==> points[i].pos < points[j].pos
  }

  /** The reading is the own value of some sample at that very position. */
  ghost predicate SampledAt(points: seq<Point>, pos: int, reading: Option<real>) {
    exists q :: q in points && q.pos == pos && reading == Some(Centi(q))
  }

  lemma {:induction false} BracketedReadsASample(points: seq<Point>, i: nat)
    requires |points| >= 2 && i < |points| && Ordered(points)
    ensures SampledAt(points, points[i].pos, Bracketed(points, points[i].pos))
  {
    var lo, hi, pos := points[0], points[1], points[i].pos;
    assert lo in points && hi in points;
    if lo.pos <= pos <= hi.pos {
      assert i > 0 ==> hi.pos <= pos;
      if hi.pos > lo.pos {
        LerpEnds(Centi(lo), Centi(hi), (hi.pos - lo.pos) as real);
      }
    } else {
      BracketedReadsASample(points[1..], i - 1);
      assert forall q :: q in points[1..] ==> q in points;
    }
  }

  lemma LerpEnds(lo: real, hi: real, span: real)
    requires span > 0.0
    ensures Lerp(lo, hi, 0.0, span) == lo && Lerp(lo, hi, span, span) == hi
  {
    assert (hi - lo) * span / span == hi - lo;
  }

  lemma ReadsASample(points: seq<Point>, i: nat)
    requires Ordered(points) && |points| >= 2 && i < |points|
    ensures SampledAt(points, points[i].pos, ReadAt(points, points[i].pos))
  {
    hide Bracketed, Centi;
    BracketedReadsASample(points, i);
    assert points[0] in points && points[|points| - 1] in points;
    assert points[0].pos <= points[i].pos <= points[|points| - 1].pos;
  }

  /** A benchmark sitting on a sample's position gets some sample's own value at that position:
      nothing is interpolated there, even where positions repeat. */
  lemma SamplePositionsReadSamples(trace: seq<Sample>, lastPos: Option<int>, i: nat)
    requires |PositionedSamples(trace)| >= MIN_TRACE_SAMPLES && i < |Support(trace, lastPos)|
    ensures var points := Support(trace, lastPos);
      SampledAt(points, points[i].pos, InterpolateTrace(trace, points[i].pos, lastPos))
  {
    SupportFacts(trace, lastPos);
    hide Support, PositionedSamples, ReadAt, SampledAt;
    ReadsASample(Support(trace, lastPos), i);
  }

  /** With distinct positions it is that very sample's value. */
  lemma ExactAtSamples(trace: seq<Sample>, lastPos: Option<int>, i: nat)
    requires |PositionedSamples(trace)| >= MIN_TRACE_SAMPLES
    requires DistinctPositions(PositionedSamples(trace)) && i < |Support(trace, lastPos)|
    ensures var p := Support(trace, lastPos)[i];
      InterpolateTrace(trace, p.pos, lastPos) == Some(Centi(p))
  {
    SupportDistinct(trace, lastPos);
    SamplePositionsReadSamples(trace, lastPos, i);
    hide *;
    OnlySampleThere(Support(trace, lastPos), i, InterpolateTrace(trace, Support(trace, lastPos)[i].pos, lastPos));
  }

  lemma OnlySampleThere(points: seq<Point>, i: nat, reading: Option<real>)
    requires DistinctPositions(points) && i < |points| && SampledAt(points, points[i].pos, reading)
    ensures reading == Some(Centi(points[i]))
  {
    var q :| q in points && q.pos == points[i].pos && reading == Some(Centi(q));
    var j :| 0 <= j < |points| && points[j] == q;
    SamePlace(points, i, j);
  }

  lemma SamePlace(points: seq<Point>, i: nat, j: nat)
    requires DistinctPositions(points) && i < |points| && j < |points|
    ensures points[i].pos == points[j].pos ==> i == j
  {
    assert i < j ==> points[i].pos < points[j].pos;
    assert j < i ==> points[j].pos < points[i].pos;
  }

  lemma SupportDistinct(trace: seq<Sample>, lastPos: Option<int>)
    requires PositionedSamples(trace) != [] && DistinctPositions(PositionedSamples(trace))
    ensures DistinctPositions(Support(trace, lastPos)) && |Support(trace, lastPos)| >= |PositionedSamples(trace)|
  {
    hide PositionedSamples, EdgeReadings;
    var samples, points := PositionedSamples(trace), Support(trace, lastPos);
    if |points| > |samples| {
      forall i, j | 0 <= i < j < |points| ensures points[i].pos < points[j].pos {
        assert points[i] == samples[i];
        assert i < |samples| - 1 ==> samples[i].pos < samples[|samples| - 1].pos;
      }
    }
  }

  // ----- a uniform cost cancels

  function ScaleSample(k: int, s: Sample): Sample {
    match s.centi case None => s case Some(c) => s.(centi := Some(k * c))
  }

  function ScaleTrace(trace: seq<Sample>, k: int): seq<Sample> {
    Map((s: Sample) => ScaleSample(k, s), trace)
  }

  function ScalePoint(k: int, p: Point): Point { Point(p.pos, k * p.centi) }

  function ScalePoints(points: seq<Point>, k: int): (r: seq<Point>)
    ensures |r| == |points|
    ensures forall i :: 0 <= i < |points| ==> r[i] == ScalePoint(k, points[i])
  {
    Map((p: Point) => ScalePoint(k, p), points)
  }

  lemma PositiveProduct(k: int, c: int)
    requires k > 0
    ensures k * c > 0 <==> c > 0
  {}

  lemma ScaledOrder(k: int, a: Point, b: Point)
    requires k > 0
    ensures PointLe(a, b) <==> PointLe(ScalePoint(k, a), ScalePoint(k, b))
  {
    PositiveProduct(k, b.centi - a.centi);
    PositiveProduct(k, a.centi - b.centi);
    assert k * (b.centi - a.centi) == k * b.centi - k * a.centi;
  }

  lemma {:induction false} PointsScale(trace: seq<Sample>, k: int)
    requires k > 0
    ensures Points(ScaleTrace(trace, k)) == ScalePoints(Points(trace), k)
  {
    if trace == [] {
    } else {
      PointsScale(trace[1..], k);
      var s := trace[0];
      if s.centi.Some? { PositiveProduct(k, s.centi.value); }
      assert ScaleTrace(trace, k)[1..] == ScaleTrace(trace[1..], k);
      assert Usable(s) <==> Usable(ScaleSample(k, s));
    }
  }

  lemma SamplesScale(trace: seq<Sample>, k: int)
    requires k > 0
    ensures PositionedSamples(ScaleTrace(trace, k)) == ScalePoints(PositionedSamples(trace), k)
  {
    PointsScale(trace, k);
    var f := (p: Point) => ScalePoint(k, p);
    forall a, b ensures PointLe(a, b) <==> PointLe(f(a), f(b)) { ScaledOrder(k, a, b); }
    SortCommutes(Points(trace), PointLe, f, PointLe);
    hide ScalePoint, PointLe;
    assert ScalePoints(Points(trace), k) == Map(f, Points(trace));
    assert ScalePoints(PositionedSamples(trace), k) == Map(f, PositionedSamples(trace));
  }

  lemma CentiScales(p: Point, k: int)
    ensures Centi(ScalePoint(k, p)) == Times(k as real, Centi(p))
  {}

  lemma CentisScale(points: seq<Point>, k: int)
    ensures Map(Centi, ScalePoints(points, k)) == Scaled(Map(Centi, points), k as real)
  {
    hide Centi, ScalePoint, Times;
    forall i | 0 <= i < |points|
      ensures Centi(ScalePoint(k, points[i])) == Times(k as real, Centi(points[i]))
    {
      CentiScales(points[i], k);
    }
  }

  lemma ReferenceScales(trace: seq<Sample>, k: int)
    requires k > 0
    ensures TraceReference(ScaleTrace(trace, k))
            == match TraceReference(trace) case None => None case Some(r) => Some(Times(k as real, r))
  {
    SamplesScale(trace, k);
    CentisScale(PositionedSamples(trace), k);
    hide PositionedSamples, Times, Median, Scaled;
    if |PositionedSamples(trace)| >= MIN_TRACE_SAMPLES {
      MedianScales(Map(Centi, PositionedSamples(trace)), k as real);
    }
  }

  lemma LerpScales(c: real, lo: real, hi: real, d: real, span: real)
    requires span > 0.0
    ensures Lerp(Times(c, lo), Times(c, hi), d, span) == Times(c, Lerp(lo, hi, d, span))
  {
    var x := (hi - lo) * d;
    assert (c * hi - c * lo) * d == c * x;
    assert c * x / span == c * (x / span);
  }

  function ScaleReading(c: real, r: Option<real>): Option<real> {
    match r case None => None case Some(v) => Some(Times(c, v))
  }

  lemma {:induction false} BracketedScales(points: seq<Point>, pos: int, k: int)
    ensures Bracketed(ScalePoints(points, k), pos) == ScaleReading(k as real, Bracketed(points, pos))
  {
    hide Centi, Times, Lerp;
    if |points| >= 2 {
      var lo, hi := points[0], points[1];
      CentiScales(lo, k);
      CentiScales(hi, k);
      if lo.pos <= pos <= hi.pos {
        if hi.pos > lo.pos {
          LerpScales(k as real, Centi(lo), Centi(hi), (pos - lo.pos) as real, (hi.pos - lo.pos) as real);
        }
      } else {
        BracketedScales(points[1..], pos, k);
        assert ScalePoints(points, k)[1..] == ScalePoints(points[1..], k);
      }
    }
  }

  lemma ReadScales(points: seq<Point>, pos: int, k: int)
    requires points != []
    ensures ReadAt(ScalePoints(points, k), pos) == ScaleReading(k as real, ReadAt(points, pos))
  {
    hide Centi, Times, Bracketed;
    BracketedScales(points, pos, k);
    CentiScales(points[0], k);
    CentiScales(points[|points| - 1], k);
  }

  lemma {:induction false} EdgeReadingsScale(trace: seq<Sample>, which: string, k: int)
    ensures |EdgeReadings(ScaleTrace(trace, k), which)| == |EdgeReadings(trace, which)|
    ensures forall i :: 0 <= i < |EdgeReadings(trace, which)| ==>
      EdgeReadings(ScaleTrace(trace, k), which)[i]
      == match EdgeReadings(trace, which)[i] case None => None case Some(c) => Some(k * c)
  {
    if trace == [] {
    } else {
      EdgeReadingsScale(trace[1..], which, k);
      ScaleTraceUnfold(trace, k);
      EdgeUnfold(trace, which);
      EdgeUnfold(ScaleTrace(trace, k), which);
      hide EdgeReadings, ScaleTrace;
      assert ScaleSample(k, trace[0]).edge == trace[0].edge;
    }
  }

  lemma ScaleTraceUnfold(trace: seq<Sample>, k: int)
    requires trace != []
    ensures ScaleTrace(trace, k) != [] && ScaleTrace(trace, k)[0] == ScaleSample(k, trace[0])
    ensures ScaleTrace(trace, k)[1..] == ScaleTrace(trace[1..], k)
  {}

  lemma EdgeUnfold(trace: seq<Sample>, which: string)
    requires trace != []
    ensures EdgeReadings(trace, which)
            == (if trace[0].edge == Some(which) then [trace[0].centi] else []) + EdgeReadings(trace[1..], which)
  {}

  lemma SupportScales(trace: seq<Sample>, lastPos: Option<int>, k: int)
    requires k > 0 && PositionedSamples(trace) != []
    ensures PositionedSamples(ScaleTrace(trace, k)) != []
    ensures Support(ScaleTrace(trace, k), lastPos) == ScalePoints(Support(trace, lastPos), k)
  {
    SamplesScale(trace, k);
    EdgeReadingsScale(trace, "end", k);
    var end := TraceEdge(trace, "end");
    var hits := EdgeReadings(trace, "end");
    if |hits| == 1 && hits[0].Some? { PositiveProduct(k, hits[0].value); }
    hide PositionedSamples, EdgeReadings;
    assert TraceEdge(ScaleTrace(trace, k), "end")
        == match end case None => None case Some(c) => Some(k * c);
  }

  lemma InterpolationScales(trace: seq<Sample>, pos: int, lastPos: Option<int>, k: int)
    requires k > 0
    ensures InterpolateTrace(ScaleTrace(trace, k), pos, lastPos)
            == ScaleReading(k as real, InterpolateTrace(trace, pos, lastPos))
  {
    SamplesScale(trace, k);
    hide ReadAt, Support, PositionedSamples, Times;
    if |PositionedSamples(trace)| >= MIN_TRACE_SAMPLES {
      SupportScales(trace, lastPos, k);
      ReadScales(Support(trace, lastPos), pos, k);
    }
  }

  lemma FactorCancels(reading: real, reference: real, c: real)
    requires c > 0.0 && reference != 0.0
    ensures Times(c, reference) != 0.0 && Factor(Times(c, reading), Times(c, reference)) == Factor(reading, reference)
  {
    CancelFactor(reading, reference, c);
  }

  /** Every factor survives a host that is uniformly dearer. */
  lemma FactorsIgnoreScale(trace: seq<Sample>, positions: map<string, int>, k: int)
    requires k > 0
    ensures PositionalFactors(ScaleTrace(trace, k), positions) == PositionalFactors(trace, positions)
  {
    hide InterpolateTrace, TraceReference, Names, Times, Factor, LastPosition;
    ReferenceScales(trace, k);
    var reference := TraceReference(trace);
    if reference.Some? {
      UnusableStaysUnusable(reference, k as real);
      if reference.value != 0.0 && positions != map[] {
        var last := Some(LastPosition(Names(positions.Keys), positions));
        forall n | n in positions
          ensures InterpolateTrace(ScaleTrace(trace, k), positions[n], last)
                  == ScaleReading(k as real, InterpolateTrace(trace, positions[n], last))
          ensures InterpolateTrace(trace, positions[n], last).Some? ==>
            Factor(Times(k as real, InterpolateTrace(trace, positions[n], last).value),
                   Times(k as real, reference.value))
            == Factor(InterpolateTrace(trace, positions[n], last).value, reference.value)
        {
          InterpolationScales(trace, positions[n], last, k);
          if InterpolateTrace(trace, positions[n], last).Some? {
            FactorCancels(InterpolateTrace(trace, positions[n], last).value, reference.value, k as real);
          }
        }
      }
    }
  }

  /** What a factor is: with three samples every benchmark has one, and the factor times the median
      sample cost is the cost on the line where the benchmark ran; with fewer none has. */
  lemma FactorsMean(trace: seq<Sample>, positions: map<string, int>, costs: seq<real>, last: int, n: string)
    requires |costs| == |PositionedSamples(trace)|
    requires forall i :: 0 <= i < |costs| ==> costs[i] == PositionedSamples(trace)[i].centi as real
    requires forall m :: m in positions ==> positions[m] <= last
    requires exists m :: m in positions && positions[m] == last
    ensures n in PositionalFactors(trace, positions) <==> n in positions && |PositionedSamples(trace)| >= 3
    ensures n in PositionalFactors(trace, positions) ==>
      && Median(costs) > 0.0
      && OnTheLine(Support(trace, Some(last)), positions[n],
                   Times(PositionalFactors(trace, positions)[n], Median(costs)))
  {
    if |PositionedSamples(trace)| >= 3 {
      LastIs(positions, last);
      ReferenceIs(trace, costs);
      hide *;
      FactorAt(trace, positions, last, Median(costs), n);
    } else {
      NoModelNoFactors(trace, positions);
    }
  }

  lemma FactorAt(trace: seq<Sample>, positions: map<string, int>, last: int, reference: real, n: string)
    requires |PositionedSamples(trace)| >= 3 && TraceReference(trace) == Some(reference) && reference > 0.0
    requires positions != map[] && Names(positions.Keys) != []
    requires LastPosition(Names(positions.Keys), positions) == last
    ensures n in PositionalFactors(trace, positions) <==> n in positions
    ensures n in PositionalFactors(trace, positions) ==>
      OnTheLine(Support(trace, Some(last)), positions[n], Times(PositionalFactors(trace, positions)[n], reference))
  {
    FactorsUnfold(trace, positions);
    hide *;
    if n in positions {
      InterpolationIsOnTheLine(trace, positions[n], Some(last));
      FactorTimes(Support(trace, Some(last)), positions[n], PositionalFactors(trace, positions)[n],
                  InterpolateTrace(trace, positions[n], Some(last)).value, reference);
    }
  }

  lemma FactorTimes(points: seq<Point>, pos: int, factor: real, reading: real, reference: real)
    requires reference != 0.0 && factor == Factor(reading, reference)
    requires points != [] && OnTheLine(points, pos, reading)
    ensures OnTheLine(points, pos, Times(factor, reference))
  {
    assert Times(factor, reference) == reading;
    hide OnTheLine, Factor, Times;
  }

  lemma LastIs(positions: map<string, int>, last: int)
    requires forall m :: m in positions ==> positions[m] <= last
    requires exists m :: m in positions && positions[m] == last
    ensures positions != map[] && Names(positions.Keys) != []
    ensures LastPosition(Names(positions.Keys), positions) == last
  {
    var m :| m in positions && positions[m] == last;
    assert m in positions.Keys && m in Names(positions.Keys);
    hide LastPosition, Names;
  }

  lemma ReferenceIs(trace: seq<Sample>, costs: seq<real>)
    requires |costs| == |PositionedSamples(trace)| >= 3
    requires forall i :: 0 <= i < |costs| ==> costs[i] == PositionedSamples(trace)[i].centi as real
    ensures TraceReference(trace) == Some(Median(costs)) && Median(costs) > 0.0
  {
    SamplesFacts(trace);
    hide PositionedSamples, Points, Median;
    var samples := PositionedSamples(trace);
    assert Map(Centi, samples) == costs;
    forall v | v in costs ensures v > 0.0 {
      var i :| 0 <= i < |costs| && costs[i] == v;
      assert samples[i] in samples;
    }
    MedianPositive(costs);
  }

  /** Two traces in any fixed proportion p : q give the same factors. */
  lemma FactorsIgnoreProportion(t: seq<Sample>, u: seq<Sample>, positions: map<string, int>, p: int, q: int)
    requires p > 0 && q > 0 && ScaleTrace(t, p) == ScaleTrace(u, q)
    ensures PositionalFactors(t, positions) == PositionalFactors(u, positions)
  {
    hide PositionalFactors;
    FactorsIgnoreScale(t, positions, p);
    FactorsIgnoreScale(u, positions, q);
  }

  /** A host that never moved needs no correction anywhere. */
  lemma ConstantTraceHasUnitFactors(trace: seq<Sample>, positions: map<string, int>, c: int)
    requires c > 0 && forall s :: s in trace && s.centi.Some? && s.centi.value > 0 ==> s.centi.value == c
    ensures |PositionedSamples(trace)| >= MIN_TRACE_SAMPLES ==>
      PositionalFactors(trace, positions).Keys == positions.Keys
    ensures forall n :: n in PositionalFactors(trace, positions) ==> PositionalFactors(trace, positions)[n] == 1.0
  {
    hide PositionedSamples, Names, InterpolateTrace, Factor;
    if |PositionedSamples(trace)| >= MIN_TRACE_SAMPLES && positions != map[] {
      var last := Some(LastPosition(Names(positions.Keys), positions));
      ConstantReadings(trace, last, c);
      UnitFactor(c);
      FactorsUnfold(trace, positions);
      hide *;
      forall n ensures n in PositionalFactors(trace, positions) <==> n in positions
               ensures n in positions ==> PositionalFactors(trace, positions)[n] == 1.0 {}
    } else {
      NoModelNoFactors(trace, positions);
    }
  }

  lemma UnitFactor(c: int)
    requires c > 0
    ensures Factor(c as real, c as real) == 1.0
  {}

  lemma NoModelNoFactors(trace: seq<Sample>, positions: map<string, int>)
    requires |PositionedSamples(trace)| < MIN_TRACE_SAMPLES || positions == map[]
    ensures PositionalFactors(trace, positions) == map[]
  {
    hide PositionedSamples;
  }

  lemma FactorsUnfold(trace: seq<Sample>, positions: map<string, int>)
    requires TraceReference(trace).Some? && TraceReference(trace).value != 0.0 && positions != map[]
    ensures var last := Some(LastPosition(Names(positions.Keys), positions));
      forall n :: (n in PositionalFactors(trace, positions)
                   <==> n in positions && InterpolateTrace(trace, positions[n], last).Some?)
               && (n in PositionalFactors(trace, positions) ==>
                   PositionalFactors(trace, positions)[n]
                   == Factor(InterpolateTrace(trace, positions[n], last).value, TraceReference(trace).value))
  {
    hide InterpolateTrace, TraceReference, Names, Factor;
  }

  lemma {:induction false} ConstantPoints(trace: seq<Sample>, c: int)
    requires forall s :: s in trace && s.centi.Some? && s.centi.value > 0 ==> s.centi.value == c
    ensures forall p :: p in Points(trace) ==> p.centi == c
  {
    if trace == [] {
    } else {
      assert trace[0] in trace;
      ConstantPoints(trace[1..], c);
    }
  }

  lemma {:induction false} EdgeIsSampled(trace: seq<Sample>, which: string)
    ensures forall h :: h in EdgeReadings(trace, which) ==> exists s :: s in trace && s.centi == h
  {
    if trace == [] {
    } else {
      EdgeIsSampled(trace[1..], which);
      assert trace[0] in trace;
    }
  }

  lemma ConstantReadings(trace: seq<Sample>, last: Option<int>, c: int)
    requires |PositionedSamples(trace)| >= MIN_TRACE_SAMPLES
    requires forall s :: s in trace && s.centi.Some? && s.centi.value > 0 ==> s.centi.value == c
    ensures TraceReference(trace) == Some(c as real)
    ensures forall pos :: InterpolateTrace(trace, pos, last) == Some(c as real)
  {
    hide *;
    SamplesNonEmpty(trace);
    ConstantPoints(trace, c);
    SamplesFacts(trace);
    ConstantMedian(PositionedSamples(trace), c);
    ReferenceUnfold(trace);
    ConstantSupport(trace, last, c);
    forall pos ensures InterpolateTrace(trace, pos, last) == Some(c as real) {
      InterpolationIsTotal(trace, pos, last, c as real, c as real);
    }
  }

  lemma SamplesNonEmpty(trace: seq<Sample>)
    requires |PositionedSamples(trace)| >= MIN_TRACE_SAMPLES
    ensures PositionedSamples(trace) != [] && Map(Centi, PositionedSamples(trace)) != []
  {
    hide PositionedSamples;
  }

  lemma ReferenceUnfold(trace: seq<Sample>)
    requires |PositionedSamples(trace)| >= MIN_TRACE_SAMPLES && Map(Centi, PositionedSamples(trace)) != []
    ensures TraceReference(trace) == Some(Median(Map(Centi, PositionedSamples(trace))))
  {
    hide PositionedSamples, Median, Map;
  }

  lemma ConstantMedian(samples: seq<Point>, c: int)
    requires samples != [] && forall p :: p in samples ==> p.centi == c
    ensures Median(Map(Centi, samples)) == c as real
  {
    hide Median;
    var centis := Map(Centi, samples);
    forall v | v in centis ensures v == c as real {
      var i :| 0 <= i < |centis| && centis[i] == v;
      assert samples[i] in samples;
    }
    StatisticsBetween(centis, c as real, c as real);
  }

  lemma ConstantSupport(trace: seq<Sample>, last: Option<int>, c: int)
    requires PositionedSamples(trace) != []
    requires forall s :: s in trace && s.centi.Some? && s.centi.value > 0 ==> s.centi.value == c
    ensures forall p :: p in Support(trace, last) ==> Centi(p) == c as real
  {
    ConstantPoints(trace, c);
    SamplesFacts(trace);
    EdgeIsSampled(trace, "end");
    hide PositionedSamples, Points, EdgeReadings;
    var hits := EdgeReadings(trace, "end");
    if |hits| == 1 { assert hits[0] in hits; }
    var samples, points := PositionedSamples(trace), Support(trace, last);
    if |points| > |samples| {
      assert points == samples + [points[|samples|]];
    }
  }
}
