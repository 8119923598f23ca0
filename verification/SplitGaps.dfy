/** Exactly which mode splits the search finds, and which readings let it miss one
    (scripts/bench-history.py, `mode_split_search`). */
module SplitGaps {
  import opened Wrappers
  import opened Records
  import opened Modes

  predicate IsStructured(window: seq<Record>, name: string, split: real) {
    ModeStructure(window, name, split).mode == Structured
  }

  /** Gap `i` between adjacent readings separates binaries, whichever split in it is taken. */
  predicate StructuredGap(window: seq<Record>, name: string, i: nat) {
    var values := Observed(window, name);
    i + 1 < |values| && IsStructured(window, name, Midpoint(values[i], values[i + 1]))
  }

  predicate MidpointInside(values: seq<real>, i: nat, low: real, high: real) {
    i + 1 < |values| && low < Midpoint(values[i], values[i + 1]) <= high
  }

  /** The verdict is constant over a gap. */
  lemma GapVerdict(window: seq<Record>, name: string, i: nat, s: real)
    requires var values := Observed(window, name); i + 1 < |values| && values[i] < s <= values[i + 1]
    ensures IsStructured(window, name, s) <==> StructuredGap(window, name, i)
  {
    VerdictAtMidpoint(window, name, i, s);
    hide ModeStructure, Observed, Midpoint;
  }

  /** A structured split lies in a structured gap. */
  lemma SplitHasGap(window: seq<Record>, name: string, s: real) returns (i: nat)
    requires IsStructured(window, name, s)
    ensures var values := Observed(window, name); i + 1 < |values| && values[i] < s <= values[i + 1]
    ensures StructuredGap(window, name, i)
  {
    i := StructuredSplitHasGap(window, name, s);
    hide ModeStructure, Observed;
  }

  /** The search succeeds exactly when the midpoint of some structured gap lies in (low, high]. */
  lemma FoundIffMidpointInside(window: seq<Record>, name: string, low: real, high: real)
    ensures SearchedSplit(window, name, low, high).Some? <==>
      exists i: nat :: StructuredGap(window, name, i) && MidpointInside(Observed(window, name), i, low, high)
  {
    var values := Observed(window, name);
    SearchIsBest(window, name, low, high);
    hide ModeStructure, Observed, SearchedSplit, Candidates;
    match SearchedSplit(window, name, low, high)
    case Some(best) =>
      CandidateMeaning(values, low, high, best);
      var i :| 0 <= i < |values| - 1
               && best == Candidate(values[i + 1] - values[i], Midpoint(values[i], values[i + 1]))
               && low < best.split <= high;
      assert StructuredGap(window, name, i) && MidpointInside(values, i, low, high);
    case None =>
      forall i: nat | MidpointInside(values, i, low, high) ensures !StructuredGap(window, name, i) {
        var c := Candidate(values[i + 1] - values[i], Midpoint(values[i], values[i + 1]));
        CandidateMeaning(values, low, high, c);
        assert c in Candidates(values, low, high);
      }
  }

  /** A structured gap that lies between `low` and `high` is always found: only the gaps that
      contain one of the two can be lost. */
  lemma InnerGapIsFound(window: seq<Record>, name: string, low: real, high: real, i: nat)
    requires StructuredGap(window, name, i)
    requires low <= Observed(window, name)[i] && Observed(window, name)[i + 1] <= high
    ensures SearchedSplit(window, name, low, high).Some?
  {
    var values := Observed(window, name);
    ObservedFacts(window, name);
    MidpointBetween(values[i], values[i + 1]);
    assert MidpointInside(values, i, low, high);
    hide ModeStructure, Observed, SearchedSplit;
    FoundIffMidpointInside(window, name, low, high);
  }

  // ----- what can be missed, over all labellings of the same readings

  /** Some split in (low, high] separates binaries, and the search returns nothing. */
  ghost predicate Missed(window: seq<Record>, name: string, low: real, high: real) {
    && SearchedSplit(window, name, low, high) == None
    && exists s :: low < s <= high && IsStructured(window, name, s)
  }

  /** The same runs, attributed to other commits. */
  ghost predicate Relabelled(window: seq<Record>, other: seq<Record>) {
    && |other| == |window|
    && forall k :: 0 <= k < |window| ==> other[k] == window[k].(commit := other[k].commit)
  }

  predicate Reads(r: Record, name: string) { name in r.entries }

  /** A gap that reaches into (low, high] while its midpoint stays outside. */
  predicate Clipped(lower: real, upper: real, low: real, high: real) {
    && low < high && lower < high && low < upper
    && !(low < Midpoint(lower, upper) <= high)
  }

  predicate TwoAtMost(window: seq<Record>, name: string, x: real) {
    exists j, k :: 0 <= j < k < |window| && Reads(window[j], name) && Reads(window[k], name)
      && window[j].entries[name] <= x && window[k].entries[name] <= x
  }

  predicate TwoAtLeast(window: seq<Record>, name: string, x: real) {
    exists j, k :: 0 <= j < k < |window| && Reads(window[j], name) && Reads(window[k], name)
      && window[j].entries[name] >= x && window[k].entries[name] >= x
  }

  /** Read off the values alone: a clipped gap with two readings on either side. */
  predicate CanBeMissed(window: seq<Record>, name: string, low: real, high: real) {
    var values := Observed(window, name);
    exists i :: 0 <= i < |values| - 1 && Clipped(values[i], values[i + 1], low, high)
                && TwoAtMost(window, name, values[i]) && TwoAtLeast(window, name, values[i + 1])
  }

  lemma {:induction false} RelabelledReads(window: seq<Record>, other: seq<Record>, name: string)
    requires Relabelled(window, other)
    ensures Readings(other, name) == Readings(window, name)
  {
    if window != [] {
      assert other[0] == window[0].(commit := other[0].commit);
      assert Relabelled(window[1..], other[1..]) by {
        forall k | 0 <= k < |window[1..]| ensures other[1..][k] == window[1..][k].(commit := other[1..][k].commit) {
          assert other[k + 1] == window[k + 1].(commit := other[k + 1].commit);
        }
      }
      RelabelledReads(window[1..], other[1..], name);
    }
  }

  lemma {:induction false} ReadingIndex(window: seq<Record>, name: string, v: real) returns (k: nat)
    requires v in Readings(window, name)
    ensures k < |window| && Reads(window[k], name) && window[k].entries[name] == v
  {
    if Reads(window[0], name) && window[0].entries[name] == v {
      k := 0;
    } else {
      k := ReadingIndex(window[1..], name, v);
      k := k + 1;
    }
  }

  lemma {:induction false} CommitIndex(window: seq<Record>, name: string, c: string) returns (k: nat)
    requires CommitReadings(window, name, c) != []
    ensures k < |window| && Reads(window[k], name)
    ensures window[k].entries[name] == CommitReadings(window, name, c)[0]
    ensures CommitReadings(window[k + 1..], name, c) == CommitReadings(window, name, c)[1..]
  {
    var r := window[0];
    if Reads(r, name) && Truthy(r.commit) && r.commit.value == c {
      k := 0;
    } else {
      k := CommitIndex(window[1..], name, c);
      assert window[1..][k + 1..] == window[k + 1 + 1..];
      k := k + 1;
    }
  }

  /** A repeated commit has readings at two places. */
  lemma CommitPair(window: seq<Record>, name: string, c: string) returns (j: nat, k: nat)
    requires |CommitReadings(window, name, c)| > 1
    ensures j < k < |window| && Reads(window[j], name) && Reads(window[k], name)
    ensures window[j].entries[name] in CommitReadings(window, name, c)
    ensures window[k].entries[name] in CommitReadings(window, name, c)
  {
    j := CommitIndex(window, name, c);
    var rest := window[j + 1..];
    k := CommitIndex(rest, name, c);
    assert window[j + 1 + k] == rest[k];
    assert CommitReadings(rest, name, c)[0] == CommitReadings(window, name, c)[1];
    k := j + 1 + k;
  }

  lemma RelabelledPairs(window: seq<Record>, other: seq<Record>, name: string, x: real)
    requires Relabelled(window, other)
    ensures TwoAtMost(other, name, x) <==> TwoAtMost(window, name, x)
    ensures TwoAtLeast(other, name, x) <==> TwoAtLeast(window, name, x)
  {
    assert forall k :: 0 <= k < |window| ==> other[k].entries == window[k].entries;
  }

  lemma NoReadingInside(window: seq<Record>, name: string, i: nat)
    requires i + 1 < |Observed(window, name)|
    ensures var values := Observed(window, name);
      forall v :: v in Readings(window, name) ==> v <= values[i] || values[i + 1] <= v
  {
    ObservedFacts(window, name);
    var values := Observed(window, name);
    hide Observed;
    forall v | v in Readings(window, name) ensures v <= values[i] || values[i + 1] <= v {
      var k :| 0 <= k < |values| && values[k] == v;
    }
  }

  lemma PairBelow(window: seq<Record>, name: string, c: string, x: real)
    requires |CommitReadings(window, name, c)| > 1
    requires forall v :: v in CommitReadings(window, name, c) ==> v <= x
    ensures TwoAtMost(window, name, x)
  {
    var j, k := CommitPair(window, name, c);
    hide CommitReadings;
  }

  lemma PairAbove(window: seq<Record>, name: string, c: string, x: real)
    requires |CommitReadings(window, name, c)| > 1
    requires forall v :: v in CommitReadings(window, name, c) ==> v >= x
    ensures TwoAtLeast(window, name, x)
  {
    var j, k := CommitPair(window, name, c);
    hide CommitReadings;
  }

  lemma SidesOf(window: seq<Record>, name: string, s: real) returns (b: string, a: string)
    requires IsStructured(window, name, s)
    ensures b in Repeats(window, name) && forall v :: v in Repeats(window, name)[b] ==> v < s
    ensures a in Repeats(window, name) && forall v :: v in Repeats(window, name)[a] ==> v >= s
  {
    RepeatsObserved(window, name);
    hide Repeats;
    var v := ModeStructure(window, name, s);
    b :| b in v.below;
    a :| a in v.above;
  }

  lemma RepeatsMeans(window: seq<Record>, name: string, c: string)
    requires c in Repeats(window, name)
    ensures Repeats(window, name)[c] == CommitReadings(window, name, c) && |CommitReadings(window, name, c)| > 1
    ensures forall v :: v in CommitReadings(window, name, c) ==> v in Readings(window, name)
  {
    CommitReadingsObserved(window, name, c);
    hide CommitReadings, Readings, CommitsIn;
  }

  /** What is missed lies in a clipped gap with two readings on either side. */
  lemma MissedIsClipped(window: seq<Record>, name: string, low: real, high: real)
    requires Missed(window, name, low, high)
    ensures CanBeMissed(window, name, low, high)
  {
    hide Observed, SearchedSplit, Readings, Repeats, CommitReadings, IsStructured, TwoAtMost, TwoAtLeast;
    var s :| low < s <= high && IsStructured(window, name, s);
    var i := SplitHasGap(window, name, s);
    FoundIffMidpointInside(window, name, low, high);
    hide StructuredGap;
    var values := Observed(window, name);
    assert Clipped(values[i], values[i + 1], low, high) by {
      assert !MidpointInside(values, i, low, high);
    }
    NoReadingInside(window, name, i);
    var b, a := SidesOf(window, name, s);
    RepeatsMeans(window, name, b);
    RepeatsMeans(window, name, a);
    PairBelow(window, name, b, values[i]);
    PairAbove(window, name, a, values[i + 1]);
  }

  // ----- a labelling that loses a clipped gap

  /** Two repeated commits, one wholly below the other: the structured splits are exactly
      those between them. */
  lemma TwoCommitsStructured(window: seq<Record>, name: string, p: string, q: string, s: real)
    requires p != q && Repeats(window, name).Keys == {p, q}
    requires Repeats(window, name)[p] != [] && Repeats(window, name)[q] != []
    requires Highest(Repeats(window, name)[p]) < Lowest(Repeats(window, name)[q])
    ensures IsStructured(window, name, s) <==>
      Highest(Repeats(window, name)[p]) < s <= Lowest(Repeats(window, name)[q])
  {
    hide Repeats;
    var repeats := Repeats(window, name);
    assert |repeats| == |repeats.Keys| == 2;
    var v := ModeStructure(window, name, s);
    assert Lowest(repeats[p]) <= Highest(repeats[p]) && Lowest(repeats[q]) <= Highest(repeats[q]);
    assert p in v.below <==> Highest(repeats[p]) < s;
    assert q in v.above <==> Lowest(repeats[q]) >= s;
    assert v.below != {} && v.above != {} ==> p in v.below || q in v.below;
  }

  /** Runs `j` and `k`, and no others, are labelled with the commit. */
  ghost predicate OnlyTwo(window: seq<Record>, name: string, c: string, j: nat, k: nat) {
    && j < k < |window| && Reads(window[j], name) && Reads(window[k], name) && c != ""
    && forall m :: 0 <= m < |window| ==> (window[m].commit == Some(c) <==> m == j || m == k)
  }

  /** What those two read, as far as they are at `i` or later. */
  function TwoFrom(window: seq<Record>, name: string, j: nat, k: nat, i: nat): seq<real>
    requires j < k < |window| && Reads(window[j], name) && Reads(window[k], name)
  {
    if i <= j then [window[j].entries[name], window[k].entries[name]]
    else if i <= k then [window[k].entries[name]]
    else []
  }

  lemma TwoFromStep(window: seq<Record>, name: string, c: string, j: nat, k: nat, i: nat)
    requires OnlyTwo(window, name, c, j, k) && i < |window|
    ensures TwoFrom(window, name, j, k, i) == Labelled(window[i], name, c) + TwoFrom(window, name, j, k, i + 1)
  {}

  /** Two readings are all a commit has when only those two runs are labelled with it. */
  lemma {:induction false} TwoReadings(window: seq<Record>, name: string, c: string, j: nat, k: nat, i: nat)
    requires OnlyTwo(window, name, c, j, k) && i <= |window|
    ensures CommitReadings(window[i..], name, c) == TwoFrom(window, name, j, k, i)
    decreases |window| - i
  {
    hide *;
    if i < |window| {
      TwoFromStep(window, name, c, j, k, i);
      CommitReadingsFrom(window, name, c, i);
      TwoReadings(window, name, c, j, k, i + 1);
    } else {
      NothingLeft(window, name, c, j, k);
    }
  }

  lemma NothingLeft(window: seq<Record>, name: string, c: string, j: nat, k: nat)
    requires OnlyTwo(window, name, c, j, k)
    ensures CommitReadings(window[|window|..], name, c) == TwoFrom(window, name, j, k, |window|) == []
  {}

  lemma CommitReadingsFrom(window: seq<Record>, name: string, c: string, i: nat)
    requires i < |window|
    ensures CommitReadings(window[i..], name, c)
            == Labelled(window[i], name, c) + CommitReadings(window[i + 1..], name, c)
  {
    hide Labelled;
    assert window[i..][0] == window[i] && window[i..][1..] == window[i + 1..];
  }

  predicate Credited(window: seq<Record>, c: string) {
    exists k :: 0 <= k < |window| && window[k].commit == Some(c)
  }

  lemma {:induction false} CommitLabels(window: seq<Record>)
    ensures forall c :: c in CommitsIn(window) <==> c != "" && Credited(window, c)
  {
    if window != [] {
      CommitLabels(window[1..]);
      forall c ensures c in CommitsIn(window) <==> c != "" && Credited(window, c) {
        if k :| 0 <= k < |window| && window[k].commit == Some(c) {
          assert k > 0 ==> window[1..][k - 1].commit == Some(c);
        }
        if k :| 0 <= k < |window[1..]| && window[1..][k].commit == Some(c) {
          assert window[k + 1].commit == Some(c);
        }
      }
    }
  }

  function LabelOf(i: nat, j: nat, k: nat, l: nat, m: nat): Option<string> {
    if i == j || i == k then Some("p") else if i == l || i == m then Some("q") else None
  }

  /** The labelling that attributes runs `j`, `k` to one commit, `l`, `m` to another and the
      rest to none. */
  function Label(window: seq<Record>, j: nat, k: nat, l: nat, m: nat): (other: seq<Record>)
    ensures |other| == |window|
    ensures forall i :: 0 <= i < |window| ==>
      other[i] == window[i].(commit := LabelOf(i, j, k, l, m))
  {
    seq(|window|, i requires 0 <= i < |window| => window[i].(commit := LabelOf(i, j, k, l, m)))
  }

  lemma LabelRepeats(window: seq<Record>, name: string, j: nat, k: nat, l: nat, m: nat)
    requires j < k < |window| && l < m < |window| && j != l && j != m && k != l && k != m
    requires Reads(window[j], name) && Reads(window[k], name) && Reads(window[l], name) && Reads(window[m], name)
    ensures Relabelled(window, Label(window, j, k, l, m))
    ensures Repeats(Label(window, j, k, l, m), name)
            == map["p" := [window[j].entries[name], window[k].entries[name]],
                   "q" := [window[l].entries[name], window[m].entries[name]]]
  {
    hide CommitReadings, CommitsIn, Label;
    var other := Label(window, j, k, l, m);
    TwoReadings(other, name, "p", j, k, 0);
    TwoReadings(other, name, "q", l, m, 0);
    assert other[0..] == other;
    assert CommitReadings(other, name, "p") == [window[j].entries[name], window[k].entries[name]];
    assert CommitReadings(other, name, "q") == [window[l].entries[name], window[m].entries[name]];
    CommitLabels(other);
    assert other[j].commit == Some("p") && other[l].commit == Some("q");
    assert CommitsIn(other) == {"p", "q"};
  }

  lemma HighestOfTwo(x: real, y: real)
    ensures Highest([x, y]) == if x >= y then x else y
    ensures Lowest([x, y]) == if x <= y then x else y
  {
    assert x in [x, y] && y in [x, y];
  }

  /** Two places with readings at most `x`, one of them reading `x` itself. */
  lemma PairAtLower(window: seq<Record>, name: string, x: real) returns (j: nat, k: nat)
    requires TwoAtMost(window, name, x) && x in Readings(window, name)
    ensures j < k < |window| && Reads(window[j], name) && Reads(window[k], name)
    ensures Highest([window[j].entries[name], window[k].entries[name]]) == x
  {
    var a, b :| 0 <= a < b < |window| && Reads(window[a], name) && Reads(window[b], name)
                && window[a].entries[name] <= x && window[b].entries[name] <= x;
    var e := ReadingIndex(window, name, x);
    var other := if e == a then b else a;
    j, k := if e < other then e else other, if e < other then other else e;
    HighestOfTwo(window[j].entries[name], window[k].entries[name]);
  }

  lemma PairAtUpper(window: seq<Record>, name: string, x: real) returns (j: nat, k: nat)
    requires TwoAtLeast(window, name, x) && x in Readings(window, name)
    ensures j < k < |window| && Reads(window[j], name) && Reads(window[k], name)
    ensures Lowest([window[j].entries[name], window[k].entries[name]]) == x
  {
    var a, b :| 0 <= a < b < |window| && Reads(window[a], name) && Reads(window[b], name)
                && window[a].entries[name] >= x && window[b].entries[name] >= x;
    var e := ReadingIndex(window, name, x);
    var other := if e == a then b else a;
    j, k := if e < other then e else other, if e < other then other else e;
    HighestOfTwo(window[j].entries[name], window[k].entries[name]);
  }

  lemma GapsAreApart(values: seq<real>, g: nat, i: nat)
    requires StrictlyIncreasing(values) && g + 1 < |values| && i + 1 < |values|
    ensures g < i ==> values[g + 1] <= values[i]
    ensures i < g ==> values[i + 1] <= values[g]
  {}

  /** Only one gap is structured, and its midpoint is outside: the search finds nothing. */
  lemma LoneGapIsMissed(window: seq<Record>, name: string, low: real, high: real, i: nat)
    requires var values := Observed(window, name);
      && i + 1 < |values| && Clipped(values[i], values[i + 1], low, high)
      && forall s :: IsStructured(window, name, s) <==> values[i] < s <= values[i + 1]
    ensures Missed(window, name, low, high)
  {
    ObservedFacts(window, name);
    FoundIffMidpointInside(window, name, low, high);
    var values := Observed(window, name);
    hide Observed, IsStructured, SearchedSplit, Readings;
    forall g: nat | StructuredGap(window, name, g) ensures g == i {
      MidpointBetween(values[g], values[g + 1]);
      GapsAreApart(values, g, i);
    }
    var s := if values[i + 1] <= high then values[i + 1] else high;
    assert low < s <= high && IsStructured(window, name, s);
  }

  /** A clipped gap with two readings on either side is lost by some labelling. */
  lemma ClippedCanBeLost(window: seq<Record>, name: string, low: real, high: real) returns (other: seq<Record>)
    requires CanBeMissed(window, name, low, high)
    ensures Relabelled(window, other) && Missed(other, name, low, high)
  {
    hide Readings, Observed, TwoAtMost, TwoAtLeast, Highest, Lowest, Repeats, ModeStructure;
    var values := Observed(window, name);
    ObservedFacts(window, name);
    var i :| 0 <= i < |values| - 1 && Clipped(values[i], values[i + 1], low, high)
             && TwoAtMost(window, name, values[i]) && TwoAtLeast(window, name, values[i + 1]);
    assert values[i] in values && values[i + 1] in values;
    var j, k := PairAtLower(window, name, values[i]);
    var l, m := PairAtUpper(window, name, values[i + 1]);
    PairsApart(window, name, j, k, l, m);
    LabelRepeats(window, name, j, k, l, m);
    other := Label(window, j, k, l, m);
    RelabelledReads(window, other, name);
    SameReadingsObserved(window, other, name);
    forall s ensures IsStructured(other, name, s) <==> values[i] < s <= values[i + 1] {
      TwoCommitsStructured(other, name, "p", "q", s);
    }
    LoneGapIsMissed(other, name, low, high, i);
  }

  lemma PairsApart(window: seq<Record>, name: string, j: nat, k: nat, l: nat, m: nat)
    requires j < k < |window| && l < m < |window|
    requires Reads(window[j], name) && Reads(window[k], name) && Reads(window[l], name) && Reads(window[m], name)
    requires Highest([window[j].entries[name], window[k].entries[name]])
             < Lowest([window[l].entries[name], window[m].entries[name]])
    ensures j != l && j != m && k != l && k != m
  {
    HighestOfTwo(window[j].entries[name], window[k].entries[name]);
    HighestOfTwo(window[l].entries[name], window[m].entries[name]);
  }

  lemma SameReadingsObserved(window: seq<Record>, other: seq<Record>, name: string)
    requires Readings(other, name) == Readings(window, name)
    ensures Observed(other, name) == Observed(window, name)
  {
    hide Readings;
  }

  /** Whatever commits the runs are attributed to, no structured split in (low, high] is
      missed -- exactly when the readings have no clipped gap with two of them on either side. */
  lemma NothingMissedIff(window: seq<Record>, name: string, low: real, high: real)
    ensures (forall other :: Relabelled(window, other) ==> !Missed(other, name, low, high))
            <==> !CanBeMissed(window, name, low, high)
  {
    hide Missed, CanBeMissed, Relabelled;
    if CanBeMissed(window, name, low, high) {
      var other := ClippedCanBeLost(window, name, low, high);
    }
    forall other | Relabelled(window, other) && Missed(other, name, low, high)
      ensures CanBeMissed(window, name, low, high)
    {
      MissedIsClipped(other, name, low, high);
      RelabelledKeeps(window, other, name, low, high);
    }
  }

  lemma RelabelledKeeps(window: seq<Record>, other: seq<Record>, name: string, low: real, high: real)
    requires Relabelled(window, other)
    ensures CanBeMissed(other, name, low, high) <==> CanBeMissed(window, name, low, high)
  {
    hide Observed, Relabelled, TwoAtMost, TwoAtLeast, Clipped;
    RelabelledReads(window, other, name);
    SameReadingsObserved(window, other, name);
    forall x ensures TwoAtMost(other, name, x) <==> TwoAtMost(window, name, x)
             ensures TwoAtLeast(other, name, x) <==> TwoAtLeast(window, name, x) {
      RelabelledPairs(window, other, name, x);
    }
  }
}
