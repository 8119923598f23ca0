/** The gating pipeline: which movements fail the build (scripts/bench-history.py, `report`). */
module Gate {
  import opened Wrappers
  import opened Drift
  import opened Records
  import opened Bands
  import opened Layout
  import Repl = Replication

  /** A flagged movement with its benchmark's own band appended. */
  datatype BandedRow = BandedRow(row: Row, band: Option<Band>)

  function Tagged(rows: seq<Row>, bands: map<string, Band>): (r: seq<BandedRow>)
    ensures |r| == |rows|
    ensures forall i :: 0 <= i < |rows| ==> r[i] == BandedRow(rows[i], BandFor(bands, rows[i].name))
  {
    if rows == [] then []
    else [BandedRow(rows[0], BandFor(bands, rows[0].name))] + Tagged(rows[1..], bands)
  }

  /** What the gate consults: the recent fences, the benchmarks whose own measurement
      window was unstable, the layout bands in force, and the history. */
  datatype Evidence = Evidence(bands: map<string, Band>, unstable: set<string>,
                               layout: map<string, real>,
                               records: seq<Record>, at: Setting, thisRun: Option<Record>)

  datatype Fate = WithinRange | MeasurementVoid | ExplainedByLayout
                | Contradicted | Replicated | Unreplicated | Unconfirmed

  predicate Excused(b: BandedRow, layout: map<string, real>) {
    ExcusedByLayout(b.row.name, b.row.adjChange, layout)
  }

  function Replicability(b: BandedRow, ev: Evidence): Repl.Replicability {
    Repl.ReplicationVerdict(ev.records, ev.at, b.row.name, ev.thisRun, b.row.after, b.band)
  }

  /** Where one regressed row ends up, decided in one pass. */
  function FateOf(b: BandedRow, ev: Evidence): Fate {
    var position := BandPosition(b.row.after, b.band, true);
    if position == Within then WithinRange
    else if b.row.name in ev.unstable then MeasurementVoid
    else if position == Unjudged then Unconfirmed
    else if Excused(b, ev.layout) then ExplainedByLayout
    else match Replicability(b, ev)
      case Contradicted => Fate.Contradicted
      case Replicated => Fate.Replicated
      case Unreplicated => Fate.Unreplicated
  }

  /** The seven fates by the evidence: a row inside its fence is noise; failing that one of an
      unstable benchmark is void, and one without a fence unconfirmed; one beyond its fence is
      excused by a sweep that covers it, contradicted by a stored reading of the image inside
      the fence, and otherwise stands -- replicated when there is any stored reading. */
  lemma FateMeans(b: BandedRow, ev: Evidence)
    ensures var fate, name := FateOf(b, ev), b.row.name;
      var stored := Repl.ValuesForBinary(ComparableRecords(ev.records, ev.at), name, ev.thisRun);
      var beyond := b.band.Some? && b.row.after > b.band.value.hi;
      var swept := name in ev.layout && -ev.layout[name] <= b.row.adjChange <= ev.layout[name];
      var stands := name !in ev.unstable && beyond && !swept;
      && (fate == WithinRange <==> b.band.Some? && b.row.after <= b.band.value.hi)
      && (fate == MeasurementVoid <==> name in ev.unstable && (b.band.None? || beyond))
      && (fate == Unconfirmed <==> name !in ev.unstable && b.band.None?)
      && (fate == ExplainedByLayout <==> name !in ev.unstable && beyond && swept)
      && (fate == Fate.Contradicted <==> stands && exists s :: s in stored && s <= b.band.value.hi)
      && (fate == Fate.Unreplicated <==> stands && stored == [])
      && (fate == Fate.Replicated <==> stands && stored != [] && forall s :: s in stored ==> s > b.band.value.hi)
  {
    var stored := Repl.ValuesForBinary(ComparableRecords(ev.records, ev.at), b.row.name, ev.thisRun);
    if b.band.Some? && b.row.after > b.band.value.hi {
      Repl.VerdictMeans(stored, b.row.after, b.band.value);
      assert b.band == Some(b.band.value);
    }
    hide Repl.Verdict, Repl.ValuesForBinary, ComparableRecords;
  }

  // ----- the pipeline's stages

  /** `out` is the part of `src` on which `p` holds, repeats and all. */
  ghost predicate Takes(out: seq<BandedRow>, src: seq<BandedRow>, p: BandedRow -> bool) {
    forall x :: multiset(out)[x] == if p(x) then multiset(src)[x] else 0
  }

  lemma TakesSnoc(out: seq<BandedRow>, src: seq<BandedRow>, p: BandedRow -> bool, x: BandedRow)
    requires Takes(out, src, p)
    ensures p(x) ==> Takes(out + [x], src + [x], p)
    ensures !p(x) ==> Takes(out, src + [x], p)
  {}

  ghost function At(position: BandVerdict, worse: bool): BandedRow -> bool {
    (b: BandedRow) => BandPosition(b.row.after, b.band, worse) == position
  }

  method SplitByBand(flagged: seq<Row>, bands: map<string, Band>, worse: bool)
    returns (outside: seq<BandedRow>, within: seq<BandedRow>, unjudged: seq<BandedRow>)
    ensures Takes(outside, Tagged(flagged, bands), At(Outside, worse))
    ensures Takes(within, Tagged(flagged, bands), At(Within, worse))
    ensures Takes(unjudged, Tagged(flagged, bands), At(Unjudged, worse))
  {
    ghost var src := Tagged(flagged, bands);
    outside, within, unjudged := [], [], [];
    for i := 0 to |flagged|
      invariant Takes(outside, src[..i], At(Outside, worse))
      invariant Takes(within, src[..i], At(Within, worse))
      invariant Takes(unjudged, src[..i], At(Unjudged, worse))
    {
      var entry := BandedRow(flagged[i], BandFor(bands, flagged[i].name));
      assert src[..i + 1] == src[..i] + [entry];
      TakesSnoc(outside, src[..i], At(Outside, worse), entry);
      TakesSnoc(within, src[..i], At(Within, worse), entry);
      TakesSnoc(unjudged, src[..i], At(Unjudged, worse), entry);
      match BandPosition(entry.row.after, entry.band, worse)
      case Outside => outside := outside + [entry];
      case Within => within := within + [entry];
      case Unjudged => unjudged := unjudged + [entry];
    }
    assert src[..|flagged|] == src;
  }

  ghost function Steadily(unstable: set<string>, steady: bool): BandedRow -> bool {
    (b: BandedRow) => (b.row.name !in unstable) == steady
  }

  method WithdrawUnstable(rows: seq<BandedRow>, unstable: set<string>)
    returns (keep: seq<BandedRow>, voided: seq<BandedRow>)
    ensures Takes(keep, rows, Steadily(unstable, true))
    ensures Takes(voided, rows, Steadily(unstable, false))
  {
    keep, voided := [], [];
    for i := 0 to |rows|
      invariant Takes(keep, rows[..i], Steadily(unstable, true))
      invariant Takes(voided, rows[..i], Steadily(unstable, false))
    {
      assert rows[..i + 1] == rows[..i] + [rows[i]];
      TakesSnoc(keep, rows[..i], Steadily(unstable, true), rows[i]);
      TakesSnoc(voided, rows[..i], Steadily(unstable, false), rows[i]);
      if rows[i].row.name in unstable {
        voided := voided + [rows[i]];
      } else {
        keep := keep + [rows[i]];
      }
    }
    assert rows[..|rows|] == rows;
  }

  datatype LayoutVerdict = Unexplained | Explained | Unmeasured

  function LayoutPosition(b: BandedRow, layout: map<string, real>): LayoutVerdict {
    if b.row.name !in layout then Unmeasured
    else if Magnitude(b.row.adjChange) <= layout[b.row.name] then Explained
    else Unexplained
  }

  ghost function Placed(v: LayoutVerdict, layout: map<string, real>): BandedRow -> bool {
    (b: BandedRow) => LayoutPosition(b, layout) == v
  }

  method SplitByLayout(rows: seq<BandedRow>, layout: map<string, real>)
    returns (unexplained: seq<BandedRow>, explained: seq<BandedRow>, unmeasured: seq<BandedRow>)
    ensures Takes(unexplained, rows, Placed(Unexplained, layout))
    ensures Takes(explained, rows, Placed(Explained, layout))
    ensures Takes(unmeasured, rows, Placed(Unmeasured, layout))
  {
    unexplained, explained, unmeasured := [], [], [];
    for i := 0 to |rows|
      invariant Takes(unexplained, rows[..i], Placed(Unexplained, layout))
      invariant Takes(explained, rows[..i], Placed(Explained, layout))
      invariant Takes(unmeasured, rows[..i], Placed(Unmeasured, layout))
    {
      assert rows[..i + 1] == rows[..i] + [rows[i]];
      TakesSnoc(unexplained, rows[..i], Placed(Unexplained, layout), rows[i]);
      TakesSnoc(explained, rows[..i], Placed(Explained, layout), rows[i]);
      TakesSnoc(unmeasured, rows[..i], Placed(Unmeasured, layout), rows[i]);
      match LayoutPosition(rows[i], layout)
      case Unmeasured => unmeasured := unmeasured + [rows[i]];
      case Explained => explained := explained + [rows[i]];
      case Unexplained => unexplained := unexplained + [rows[i]];
    }
    assert rows[..|rows|] == rows;
  }

  ghost function Shown(v: Repl.Replicability, ev: Evidence): BandedRow -> bool {
    (b: BandedRow) => Replicability(b, ev) == v
  }

  method SplitByReplication(rows: seq<BandedRow>, ev: Evidence)
    returns (repl: seq<BandedRow>, unrep: seq<BandedRow>, contra: seq<BandedRow>)
    ensures Takes(repl, rows, Shown(Repl.Replicated, ev))
    ensures Takes(unrep, rows, Shown(Repl.Unreplicated, ev))
    ensures Takes(contra, rows, Shown(Repl.Contradicted, ev))
  {
    hide Replicability;
    repl, unrep, contra := [], [], [];
    for i := 0 to |rows|
      invariant Takes(repl, rows[..i], Shown(Repl.Replicated, ev))
      invariant Takes(unrep, rows[..i], Shown(Repl.Unreplicated, ev))
      invariant Takes(contra, rows[..i], Shown(Repl.Contradicted, ev))
    {
      assert rows[..i + 1] == rows[..i] + [rows[i]];
      TakesSnoc(repl, rows[..i], Shown(Repl.Replicated, ev), rows[i]);
      TakesSnoc(unrep, rows[..i], Shown(Repl.Unreplicated, ev), rows[i]);
      TakesSnoc(contra, rows[..i], Shown(Repl.Contradicted, ev), rows[i]);
      match Replicability(rows[i], ev)
      case Replicated => repl := repl + [rows[i]];
      case Contradicted => contra := contra + [rows[i]];
      case Unreplicated => unrep := unrep + [rows[i]];
    }
    assert rows[..|rows|] == rows;
  }

  // ----- the pipeline

  datatype Buckets = Buckets(within: seq<BandedRow>, voided: seq<BandedRow>, layout: seq<BandedRow>,
                             contradicted: seq<BandedRow>, replicated: seq<BandedRow>,
                             unreplicated: seq<BandedRow>, unconfirmed: seq<BandedRow>)

  function BucketFor(b: Buckets, fate: Fate): seq<BandedRow> {
    match fate
    case WithinRange => b.within
    case MeasurementVoid => b.voided
    case ExplainedByLayout => b.layout
    case Contradicted => b.contradicted
    case Replicated => b.replicated
    case Unreplicated => b.unreplicated
    case Unconfirmed => b.unconfirmed
  }

  ghost function Meets(fate: Fate, ev: Evidence): BandedRow -> bool {
    (b: BandedRow) => FateOf(b, ev) == fate
  }

  /** The one-pass reading, in terms of what each stage tests. */
  lemma FateByStages(x: BandedRow, ev: Evidence)
    ensures FateOf(x, ev) ==
      (if At(Within, true)(x) then WithinRange
       else if Steadily(ev.unstable, false)(x) then MeasurementVoid
       else if At(Unjudged, true)(x) then Unconfirmed
       else if Placed(Explained, ev.layout)(x) then ExplainedByLayout
       else if Shown(Repl.Contradicted, ev)(x) then Fate.Contradicted
       else if Shown(Repl.Replicated, ev)(x) then Fate.Replicated
       else Fate.Unreplicated)
    ensures At(Outside, true)(x) <==> !At(Within, true)(x) && !At(Unjudged, true)(x)
    ensures !(At(Within, true)(x) && At(Unjudged, true)(x))
    ensures Steadily(ev.unstable, true)(x) <==> !Steadily(ev.unstable, false)(x)
    ensures Placed(Explained, ev.layout)(x) <==>
      !Placed(Unexplained, ev.layout)(x) && !Placed(Unmeasured, ev.layout)(x)
    ensures !(Placed(Unexplained, ev.layout)(x) && Placed(Unmeasured, ev.layout)(x))
    ensures Shown(Repl.Unreplicated, ev)(x) <==>
      !Shown(Repl.Contradicted, ev)(x) && !Shown(Repl.Replicated, ev)(x)
    ensures !(Shown(Repl.Contradicted, ev)(x) && Shown(Repl.Replicated, ev)(x))
  {
    hide Replicability;
  }

  lemma CountIn(out: seq<BandedRow>, src: seq<BandedRow>, p: BandedRow -> bool, x: BandedRow)
    requires Takes(out, src, p)
    ensures multiset(out)[x] == if p(x) then multiset(src)[x] else 0
  {}

  lemma CountConcat(a: seq<BandedRow>, b: seq<BandedRow>, x: BandedRow)
    ensures multiset(a + b)[x] == multiset(a)[x] + multiset(b)[x]
  {}

  lemma PipelineAgrees(
    src: seq<BandedRow>, regOut: seq<BandedRow>, within: seq<BandedRow>, unjudged: seq<BandedRow>,
    outKept: seq<BandedRow>, outVoid: seq<BandedRow>,
    unjudgedKept: seq<BandedRow>, unjudgedVoid: seq<BandedRow>,
    unexplained: seq<BandedRow>, explained: seq<BandedRow>, unswept: seq<BandedRow>,
    repl: seq<BandedRow>, unrep: seq<BandedRow>, contra: seq<BandedRow>,
    ev: Evidence, x: BandedRow, fate: Fate)
    requires Takes(regOut, src, At(Outside, true)) && Takes(within, src, At(Within, true))
    requires Takes(unjudged, src, At(Unjudged, true))
    requires Takes(outKept, regOut, Steadily(ev.unstable, true))
    requires Takes(outVoid, regOut, Steadily(ev.unstable, false))
    requires Takes(unjudgedKept, unjudged, Steadily(ev.unstable, true))
    requires Takes(unjudgedVoid, unjudged, Steadily(ev.unstable, false))
    requires Takes(unexplained, outKept, Placed(Unexplained, ev.layout))
    requires Takes(explained, outKept, Placed(Explained, ev.layout))
    requires Takes(unswept, outKept, Placed(Unmeasured, ev.layout))
    requires Takes(repl, unexplained + unswept, Shown(Repl.Replicated, ev))
    requires Takes(unrep, unexplained + unswept, Shown(Repl.Unreplicated, ev))
    requires Takes(contra, unexplained + unswept, Shown(Repl.Contradicted, ev))
    ensures var out := Buckets(within, outVoid + unjudgedVoid, explained, contra, repl, unrep, unjudgedKept);
      multiset(BucketFor(out, fate))[x] == if FateOf(x, ev) == fate then multiset(src)[x] else 0
  {
    FateByStages(x, ev);
    hide FateOf, At, Steadily, Placed, Shown, Takes;
    CountIn(regOut, src, At(Outside, true), x);
    CountIn(within, src, At(Within, true), x);
    CountIn(unjudged, src, At(Unjudged, true), x);
    CountIn(outKept, regOut, Steadily(ev.unstable, true), x);
    CountIn(outVoid, regOut, Steadily(ev.unstable, false), x);
    CountIn(unjudgedKept, unjudged, Steadily(ev.unstable, true), x);
    CountIn(unjudgedVoid, unjudged, Steadily(ev.unstable, false), x);
    CountConcat(outVoid, unjudgedVoid, x);
    CountIn(unexplained, outKept, Placed(Unexplained, ev.layout), x);
    CountIn(explained, outKept, Placed(Explained, ev.layout), x);
    CountIn(unswept, outKept, Placed(Unmeasured, ev.layout), x);
    CountConcat(unexplained, unswept, x);
    CountIn(repl, unexplained + unswept, Shown(Repl.Replicated, ev), x);
    CountIn(unrep, unexplained + unswept, Shown(Repl.Unreplicated, ev), x);
    CountIn(contra, unexplained + unswept, Shown(Repl.Contradicted, ev), x);
  }

  /** The staged pipeline files every row where the one-pass reading says. */
  method GateRegressions(regressed: seq<Row>, ev: Evidence) returns (out: Buckets)
    ensures forall fate :: Takes(BucketFor(out, fate), Tagged(regressed, ev.bands), Meets(fate, ev))
  {
    hide FateOf, At, Steadily, Placed, Shown, Tagged, BucketFor;
    var regOut, within, unjudged := SplitByBand(regressed, ev.bands, true);
    var outKept, outVoid := WithdrawUnstable(regOut, ev.unstable);
    var unjudgedKept, unjudgedVoid := WithdrawUnstable(unjudged, ev.unstable);
    var unexplained, explained, unswept := SplitByLayout(outKept, ev.layout);
    var repl, unrep, contra := SplitByReplication(unexplained + unswept, ev);
    out := Buckets(within, outVoid + unjudgedVoid, explained, contra, repl, unrep, unjudgedKept);
    ghost var src := Tagged(regressed, ev.bands);
    forall x, fate ensures
      multiset(BucketFor(out, fate))[x] == (if FateOf(x, ev) == fate then multiset(src)[x] else 0)
    {
      hide Takes;
      PipelineAgrees(src, regOut, within, unjudged, outKept, outVoid, unjudgedKept, unjudgedVoid,
                     unexplained, explained, unswept, repl, unrep, contra, ev, x, fate);
    }
  }

  lemma BucketCount(out: Buckets, src: seq<BandedRow>, ev: Evidence, fate: Fate, x: BandedRow)
    requires Takes(BucketFor(out, fate), src, Meets(fate, ev))
    ensures multiset(BucketFor(out, fate))[x] == if FateOf(x, ev) == fate then multiset(src)[x] else 0
  {
    hide FateOf, BucketFor;
  }

  /** The seven buckets together hold every regressed row exactly as often as it came in. */
  lemma EveryRowHasOneBucket(out: Buckets, src: seq<BandedRow>, ev: Evidence)
    requires forall fate :: Takes(BucketFor(out, fate), src, Meets(fate, ev))
    ensures multiset(src) == multiset(out.within) + multiset(out.voided) + multiset(out.layout)
            + multiset(out.contradicted) + multiset(out.replicated) + multiset(out.unreplicated)
            + multiset(out.unconfirmed)
    ensures forall f, g, x :: x in BucketFor(out, f) && x in BucketFor(out, g) ==> f == g
  {
    hide FateOf, Takes, Meets;
    forall f, g, x | x in BucketFor(out, f) && x in BucketFor(out, g) ensures f == g {
      BucketCount(out, src, ev, f, x);
      BucketCount(out, src, ev, g, x);
      assert x in multiset(BucketFor(out, f)) && x in multiset(BucketFor(out, g));
    }
    var all := multiset(out.within) + multiset(out.voided) + multiset(out.layout)
            + multiset(out.contradicted) + multiset(out.replicated) + multiset(out.unreplicated)
            + multiset(out.unconfirmed);
    forall x ensures all[x] == multiset(src)[x] {
      BucketCount(out, src, ev, WithinRange, x);
      BucketCount(out, src, ev, MeasurementVoid, x);
      BucketCount(out, src, ev, ExplainedByLayout, x);
      BucketCount(out, src, ev, Fate.Contradicted, x);
      BucketCount(out, src, ev, Fate.Replicated, x);
      BucketCount(out, src, ev, Fate.Unreplicated, x);
      BucketCount(out, src, ev, Unconfirmed, x);
    }
  }
}
