/** Does a split separate binaries or only runs?  The repeat-commit test and the search
    for the widest split that passes it (scripts/bench-history.py). */
module Modes {
  import opened Wrappers
  import opened Order
  import opened Stats
  import opened Records

  const MODE_MIN_REPEAT_COMMITS := 2

  /** Every reading of `name` in the window, oldest first. */
  function Readings(window: seq<Record>, name: string): seq<real> {
    if window == [] then []
    else (if name in window[0].entries then [window[0].entries[name]] else []) + Readings(window[1..], name)
  }

  /** A run's reading of `name`, if the run is labelled with that commit. */
  function Labelled(r: Record, name: string, commit: string): seq<real> {
    if name in r.entries && Truthy(r.commit) && r.commit.value == commit then [r.entries[name]] else []
  }

  /** The readings of `name` labelled with one commit. */
  function CommitReadings(window: seq<Record>, name: string, commit: string): seq<real> {
    if window == [] then []
    else
      Labelled(window[0], name, commit) + CommitReadings(window[1..], name, commit)
  }

  function CommitsIn(window: seq<Record>): set<string> {
    if window == [] then {}
    else (if Truthy(window[0].commit) then {window[0].commit.value} else {}) + CommitsIn(window[1..])
  }

  /** The commits measured more than once. */
  function Repeats(window: seq<Record>, name: string): map<string, seq<real>> {
    map c | c in CommitsIn(window) && |CommitReadings(window, name, c)| > 1 :: CommitReadings(window, name, c)
  }

  lemma {:induction false} CommitSnoc(window: seq<Record>, last: Record, name: string, c: string)
    ensures CommitReadings(window + [last], name, c)
            == CommitReadings(window, name, c)
               + Labelled(last, name, c)
  {
    if window == [] {
      assert window + [last] == [last] && [last][1..] == [];
    } else {
      assert (window + [last])[0] == window[0] && (window + [last])[1..] == window[1..] + [last];
      CommitSnoc(window[1..], last, name, c);
      Regroup(Labelled(window[0], name, c), CommitReadings(window[1..], name, c), Labelled(last, name, c));
    }
  }

  lemma {:induction false} ReadCommitsAreLabels(window: seq<Record>, name: string, c: string)
    requires CommitReadings(window, name, c) != []
    ensures c in CommitsIn(window)
  {
    if !(name in window[0].entries && Truthy(window[0].commit) && window[0].commit.value == c) {
      ReadCommitsAreLabels(window[1..], name, c);
    }
  }

  /** `acc` files, under exactly the commits that were read, their readings in order. */
  ghost predicate FiledByCommit(acc: map<string, seq<real>>, window: seq<Record>, name: string) {
    forall c :: (c in acc <==> CommitReadings(window, name, c) != [])
             && (c in acc ==> acc[c] == CommitReadings(window, name, c))
  }

  lemma FiledOne(acc: map<string, seq<real>>, window: seq<Record>, r: Record, name: string)
    requires FiledByCommit(acc, window, name)
    ensures !(name in r.entries && Truthy(r.commit)) ==> FiledByCommit(acc, window + [r], name)
    ensures name in r.entries && Truthy(r.commit) ==>
      var c := r.commit.value;
      FiledByCommit(acc[c := (if c in acc then acc[c] else []) + [r.entries[name]]], window + [r], name)
  {
    hide CommitReadings;
    forall c {
      CommitSnoc(window, r, name, c);
    }
    if name in r.entries && Truthy(r.commit) {
      var c := r.commit.value;
      assert c !in acc ==> CommitReadings(window, name, c) == [];
    }
  }

  method RepeatsByCommit(window: seq<Record>, name: string) returns (repeats: map<string, seq<real>>)
    ensures repeats == Repeats(window, name)
  {
    var acc: map<string, seq<real>> := map[];
    for i := 0 to |window|
      invariant FiledByCommit(acc, window[..i], name)
    {
      FiledOne(acc, window[..i], window[i], name);
      assert window[..i + 1] == window[..i] + [window[i]];
      var r := window[i];
      if name !in r.entries || !Truthy(r.commit) {
        continue;
      }
      var c := r.commit.value;
      acc := acc[c := (if c in acc then acc[c] else []) + [r.entries[name]]];
    }
    assert window[..|window|] == window;
    hide CommitReadings;
    forall c | CommitReadings(window, name, c) != [] ensures c in CommitsIn(window) {
      ReadCommitsAreLabels(window, name, c);
    }
    repeats := map c | c in acc && |acc[c]| > 1 :: acc[c];
  }

  function Lowest(values: seq<real>): (lo: real)
    requires values != []
    ensures lo in values && forall v :: v in values ==> lo <= v
  {
    if |values| == 1 then values[0]
    else
      assert values == [values[0]] + values[1..];
      var rest := Lowest(values[1..]);
      if values[0] <= rest then values[0] else rest
  }

  function Highest(values: seq<real>): (hi: real)
    requires values != []
    ensures hi in values && forall v :: v in values ==> v <= hi
  {
    if |values| == 1 then values[0]
    else
      assert values == [values[0]] + values[1..];
      var rest := Highest(values[1..]);
      if values[0] >= rest then values[0] else rest
  }

  datatype Mode = Structured | RunNoise | Undecided

  datatype ModeVerdict = ModeVerdict(mode: Mode, repeats: map<string, seq<real>>,
                                     straddling: set<string>, below: set<string>, above: set<string>)

  function ModeStructure(window: seq<Record>, name: string, split: real): ModeVerdict {
    var repeats := Repeats(window, name);
    var straddling := set c | c in repeats && Lowest(repeats[c]) < split <= Highest(repeats[c]);
    var below := set c | c in repeats && Highest(repeats[c]) < split;
    var above := set c | c in repeats && Lowest(repeats[c]) >= split;
    var mode :=
      if |repeats| < MODE_MIN_REPEAT_COMMITS then Undecided
      else if straddling != {} then RunNoise
      else if below != {} && above != {} then Structured
      else Undecided;
    ModeVerdict(mode, repeats, straddling, below, above)
  }

  /** Every repeated commit is below, straddling or above, and in only one of them. */
  lemma SidesPartitionRepeats(window: seq<Record>, name: string, split: real)
    ensures var v := ModeStructure(window, name, split);
      && v.below + v.straddling + v.above == v.repeats.Keys
      && v.below !! v.straddling !! v.above
  {
    var v := ModeStructure(window, name, split);
    forall c | c in v.repeats ensures Lowest(v.repeats[c]) <= Highest(v.repeats[c]) {}
  }

  // ----- the verdict, by the readings

  lemma {:induction false} CommitConcat(a: seq<Record>, b: seq<Record>, name: string, c: string)
    ensures CommitReadings(a + b, name, c) == CommitReadings(a, name, c) + CommitReadings(b, name, c)
    ensures Readings(a + b, name) == Readings(a, name) + Readings(b, name)
  {
    if a == [] {
      assert a + b == b;
    } else {
      assert (a + b)[0] == a[0] && (a + b)[1..] == a[1..] + b;
      CommitConcat(a[1..], b, name, c);
      Regroup(Labelled(a[0], name, c), CommitReadings(a[1..], name, c), CommitReadings(b, name, c));
      var here := if name in a[0].entries then [a[0].entries[name]] else [];
      Regroup(here, Readings(a[1..], name), Readings(b, name));
    }
  }

  /** One more run, anywhere in the window, adds its reading to the benchmark's and to those of
      the commit it names, in its place. */
  lemma OneMoreReading(a: seq<Record>, r: Record, b: seq<Record>, name: string, c: string)
    ensures CommitReadings(a + [r] + b, name, c)
            == CommitReadings(a, name, c)
               + (if name in r.entries && r.commit == Some(c) && c != "" then [r.entries[name]] else [])
               + CommitReadings(b, name, c)
    ensures Readings(a + [r] + b, name)
            == Readings(a, name) + (if name in r.entries then [r.entries[name]] else []) + Readings(b, name)
  {
    JustOneReading(r, name, c);
    hide *;
    CommitConcat(a + [r], b, name, c);
    CommitConcat(a, [r], name, c);
  }

  lemma JustOneReading(r: Record, name: string, c: string)
    ensures CommitReadings([r], name, c)
            == if name in r.entries && r.commit == Some(c) && c != "" then [r.entries[name]] else []
    ensures Readings([r], name) == if name in r.entries then [r.entries[name]] else []
  {
    assert [r][1..] == [];
  }

  /** Measured more than once. */
  ghost predicate Repeated(window: seq<Record>, name: string, c: string) {
    |CommitReadings(window, name, c)| >= 2
  }

  ghost predicate TwoRepeated(window: seq<Record>, name: string) {
    exists c, d :: c != d && Repeated(window, name, c) && Repeated(window, name, d)
  }

  /** Read below the split in one run and not below it in another. */
  ghost predicate OnBothSides(window: seq<Record>, name: string, split: real, c: string) {
    Repeated(window, name, c)
    && exists u, v :: u in CommitReadings(window, name, c) && v in CommitReadings(window, name, c) && u < split <= v
  }

  ghost predicate WhollyBelow(window: seq<Record>, name: string, split: real, c: string) {
    Repeated(window, name, c) && forall v :: v in CommitReadings(window, name, c) ==> v < split
  }

  ghost predicate WhollyAbove(window: seq<Record>, name: string, split: real, c: string) {
    Repeated(window, name, c) && forall v :: v in CommitReadings(window, name, c) ==> split <= v
  }

  /** The commits behind a verdict: which are repeated, and on which side of the split. */
  lemma VerdictSides(window: seq<Record>, name: string, split: real, c: string)
    ensures var v := ModeStructure(window, name, split);
      && (c in v.repeats <==> Repeated(window, name, c))
      && (c in v.repeats ==> v.repeats[c] == CommitReadings(window, name, c))
      && (c in v.straddling <==> OnBothSides(window, name, split, c))
      && (c in v.below <==> WhollyBelow(window, name, split, c))
      && (c in v.above <==> WhollyAbove(window, name, split, c))
  {
    if CommitReadings(window, name, c) != [] {
      ReadCommitsAreLabels(window, name, c);
    }
    hide CommitReadings, CommitsIn, Lowest, Highest;
  }

  lemma ModeFromSides(window: seq<Record>, name: string, split: real)
    ensures var v := ModeStructure(window, name, split);
      v.mode == if |v.repeats| < 2 then Undecided
                else if v.straddling != {} then RunNoise
                else if v.below != {} && v.above != {} then Structured else Undecided
  {
    hide Repeats, Lowest, Highest;
  }

  lemma AtLeastTwo<T>(s: set<T>)
    ensures |s| >= 2 <==> exists a, b :: a != b && a in s && b in s
  {
    if |s| >= 2 {
      var a :| a in s;
      assert |s - {a}| >= 1;
      var b :| b in s - {a};
    } else if a, b :| a != b && a in s && b in s {
      assert {a, b} <= s && |{a, b}| == 2;
      SubsetSize({a, b}, s);
    }
  }

  lemma {:induction false} SubsetSize<T>(a: set<T>, b: set<T>)
    requires a <= b
    ensures |a| <= |b|
  {
    if x :| x in a {
      SubsetSize(a - {x}, b - {x});
    }
  }

  /** The split separates commits: at least two are repeated, none was read on both sides, and one
      stayed below and one not. */
  ghost predicate Separates(window: seq<Record>, name: string, split: real) {
    && TwoRepeated(window, name) && !(exists c :: OnBothSides(window, name, split, c))
    && (exists c :: WhollyBelow(window, name, split, c)) && exists c :: WhollyAbove(window, name, split, c)
  }

  /** What the verdict says of the readings, for every window and split: noise when some repeated
      commit was read on both sides, structure when none was and one stayed below and one above,
      and nothing with fewer than two repeated commits. */
  lemma ModeMeans(window: seq<Record>, name: string, split: real)
    ensures var mode := ModeStructure(window, name, split).mode;
      && (mode == RunNoise <==> TwoRepeated(window, name) && exists c :: OnBothSides(window, name, split, c))
      && (mode == Structured <==> Separates(window, name, split))
      && (mode == Undecided <==> mode != RunNoise && mode != Structured)
  {
    var v := ModeStructure(window, name, split);
    ModeFromSides(window, name, split);
    AtLeastTwo(v.repeats.Keys);
    assert |v.repeats| == |v.repeats.Keys|;
    hide *;
    forall c {
      VerdictSides(window, name, split, c);
    }
    TwoAre(window, name, v.repeats.Keys);
    SeparatesUnfold(window, name, split);
    assert v.straddling != {} <==> exists c :: c in v.straddling;
    assert v.below != {} <==> exists c :: c in v.below;
    assert v.above != {} <==> exists c :: c in v.above;
  }

  lemma SeparatesUnfold(window: seq<Record>, name: string, split: real)
    ensures Separates(window, name, split) <==>
      && TwoRepeated(window, name) && !(exists c :: OnBothSides(window, name, split, c))
      && (exists c :: WhollyBelow(window, name, split, c)) && exists c :: WhollyAbove(window, name, split, c)
  {}

  lemma TwoAre(window: seq<Record>, name: string, repeats: set<string>)
    requires forall c :: c in repeats <==> Repeated(window, name, c)
    ensures TwoRepeated(window, name) <==> exists c, d :: c != d && c in repeats && d in repeats
  {
    hide Repeated;
  }

  lemma {:induction false} CommitReadingsObserved(window: seq<Record>, name: string, commit: string)
    ensures forall v :: v in CommitReadings(window, name, commit) ==> v in Readings(window, name)
  {
    if window == [] {
    } else {
      CommitReadingsObserved(window[1..], name, commit);
    }
  }

  lemma RepeatsObserved(window: seq<Record>, name: string)
    ensures forall c :: c in Repeats(window, name) ==> Repeats(window, name)[c] != []
    ensures forall c, v :: c in Repeats(window, name) && v in Repeats(window, name)[c] ==> v in Readings(window, name)
  {
    forall c, v | c in Repeats(window, name) && v in Repeats(window, name)[c] ensures v in Readings(window, name) {
      CommitReadingsObserved(window, name, c);
    }
  }

  /** No reading tells two splits apart. */
  ghost predicate SameGap(values: seq<real>, s: real, t: real) {
    forall v :: v in values ==> (v < s <==> v < t)
  }

  /** Splits inside one gap between observed values give one and the same verdict. */
  lemma OneVerdictPerGap(window: seq<Record>, name: string, s: real, t: real)
    requires SameGap(Readings(window, name), s, t)
    ensures ModeStructure(window, name, s) == ModeStructure(window, name, t)
  {
    var repeats := Repeats(window, name);
    RepeatsObserved(window, name);
    hide Repeats, Readings;
    forall c | c in repeats
      ensures Lowest(repeats[c]) < s <==> Lowest(repeats[c]) < t
      ensures Highest(repeats[c]) < s <==> Highest(repeats[c]) < t
    {
      var lo, hi := Lowest(repeats[c]), Highest(repeats[c]);
      assert lo in repeats[c] && hi in repeats[c];
      assert lo in Readings(window, name) && hi in Readings(window, name);
    }
    var v, w := ModeStructure(window, name, s), ModeStructure(window, name, t);
    assert v.straddling == w.straddling && v.below == w.below && v.above == w.above;
  }

  // ----- the search

  function Dedup(s: seq<real>): seq<real> {
    if |s| <= 1 then s
    else if s[0] == s[1] then Dedup(s[1..])
    else [s[0]] + Dedup(s[1..])
  }

  ghost predicate StrictlyIncreasing(s: seq<real>) {
    forall i, j :: 0 <= i < j < |s| ==> s[i] < s[j]
  }

  lemma {:induction false} DedupFacts(s: seq<real>)
    requires Sorted(s, RealLe)
    ensures StrictlyIncreasing(Dedup(s))
    ensures forall v :: v in Dedup(s) <==> v in s
    ensures s != [] ==> Dedup(s) != [] && Dedup(s)[0] == s[0]
  {
    if |s| <= 1 {
    } else {
      DedupFacts(s[1..]);
      assert RealLe(s[0], s[1]);
      var rest := Dedup(s[1..]);
      assert s == [s[0]] + s[1..];
      if s[0] != s[1] {
        forall k | 0 <= k < |rest| ensures s[0] < rest[k] {
          if k > 0 { assert rest[0] < rest[k]; }
        }
      }
    }
  }

  /** The distinct readings, ascending. */
  function Observed(window: seq<Record>, name: string): seq<real> {
    Dedup(SortReals(Readings(window, name)))
  }

  datatype Candidate = Candidate(gap: real, split: real)

  function Midpoint(lower: real, upper: real): real { (lower + upper) / 2.0 }

  /** The midpoint of two neighbours, if it lies in the interval. */
  function CandidateAt(lower: real, upper: real, low: real, high: real): seq<Candidate> {
    var split := Midpoint(lower, upper);
    if low < split <= high then [Candidate(upper - lower, split)] else []
  }

  function Candidates(values: seq<real>, low: real, high: real): seq<Candidate> {
    if |values| < 2 then []
    else CandidateAt(values[0], values[1], low, high) + Candidates(values[1..], low, high)
  }

  /** `sorted(candidates, reverse=True)`: widest gap first, then the higher split. */
  predicate WiderFirst(a: Candidate, b: Candidate) {
    a.gap > b.gap || (a.gap == b.gap && a.split >= b.split)
  }

  function FirstStructured(window: seq<Record>, name: string, candidates: seq<Candidate>): Option<Candidate> {
    if candidates == [] then None
    else if ModeStructure(window, name, candidates[0].split).mode == Structured then Some(candidates[0])
    else FirstStructured(window, name, candidates[1..])
  }

  function SearchedSplit(window: seq<Record>, name: string, low: real, high: real): Option<Candidate> {
    FirstStructured(window, name, Sort(Candidates(Observed(window, name), low, high), WiderFirst))
  }

  lemma {:induction false} CandidatesSnoc(values: seq<real>, next: real, low: real, high: real)
    requires values != []
    ensures Candidates(values + [next], low, high)
            == Candidates(values, low, high) + CandidateAt(values[|values| - 1], next, low, high)
  {
    var more, last := values + [next], values[|values| - 1];
    CandidatesUnfold(more, low, high);
    CandidatesUnfold(values, low, high);
    if |values| == 1 {
      assert more[1..] == [next];
    } else {
      hide *;
      assert more[0] == values[0] && more[1] == values[1] && more[1..] == values[1..] + [next];
      CandidatesSnoc(values[1..], next, low, high);
      Regroup(CandidateAt(values[0], values[1], low, high), Candidates(values[1..], low, high),
              CandidateAt(last, next, low, high));
    }
  }

  lemma CandidateIf(lower: real, upper: real, low: real, high: real)
    ensures low < Midpoint(lower, upper) <= high ==>
      CandidateAt(lower, upper, low, high) == [Candidate(upper - lower, Midpoint(lower, upper))]
    ensures !(low < Midpoint(lower, upper) <= high) ==> CandidateAt(lower, upper, low, high) == []
  {}

  lemma CandidatesUnfold(values: seq<real>, low: real, high: real)
    ensures Candidates(values, low, high)
            == if |values| < 2 then []
               else CandidateAt(values[0], values[1], low, high) + Candidates(values[1..], low, high)
  {
    hide Midpoint;
  }

  lemma SearchUnfold(window: seq<Record>, name: string, low: real, high: real)
    ensures SearchedSplit(window, name, low, high)
            == FirstStructured(window, name, Sort(Candidates(Observed(window, name), low, high), WiderFirst))
    ensures forall values :: |values| < 2 ==> Candidates(values, low, high) == []
    ensures FirstStructured(window, name, []) == None
  {}

  lemma FirstStructuredUnfold(window: seq<Record>, name: string, cs: seq<Candidate>)
    requires cs != []
    ensures FirstStructured(window, name, cs)
            == (if ModeStructure(window, name, cs[0].split).mode == Structured then Some(cs[0])
                else FirstStructured(window, name, cs[1..]))
  {}

  method ModeSplitSearch(window: seq<Record>, name: string, low: real, high: real)
    returns (found: Option<(real, ModeVerdict)>)
    ensures match SearchedSplit(window, name, low, high)
            case None => found == None
            case Some(c) => found == Some((c.split, ModeStructure(window, name, c.split)))
    ensures found.Some? ==> low < found.value.0 <= high && Separates(window, name, found.value.0)
    ensures found.None? ==>
      forall c :: c in Candidates(Observed(window, name), low, high) ==> !Separates(window, name, c.split)
  {
    FoundSeparates(window, name, low, high);
    SearchUnfold(window, name, low, high);
    hide *;
    var values := Observed(window, name);
    var candidates: seq<Candidate> := [];
    var i := 1;
    while i < |values|
      invariant 1 <= i && (|values| >= 1 ==> i <= |values|)
      invariant candidates == Candidates(values[..if i <= |values| then i else 0], low, high)
    {
      assert values[..i + 1] == values[..i] + [values[i]];
      CandidatesSnoc(values[..i], values[i], low, high);
      CandidateIf(values[i - 1], values[i], low, high);
      var split := Midpoint(values[i - 1], values[i]);
      if low < split <= high {
        candidates := candidates + [Candidate(values[i] - values[i - 1], split)];
      }
      i := i + 1;
    }
    assert values[..|values|] == values;
    var ordered := Sort(candidates, WiderFirst);
    var k := 0;
    while k < |ordered|
      invariant 0 <= k <= |ordered|
      invariant SearchedSplit(window, name, low, high) == FirstStructured(window, name, ordered[k..])
    {
      FirstStructuredUnfold(window, name, ordered[k..]);
      assert ordered[k..] != [] && ordered[k..][0] == ordered[k] && ordered[k..][1..] == ordered[k + 1..];
      var verdict := ModeStructure(window, name, ordered[k].split);
      if verdict.mode == Structured {
        return Some((ordered[k].split, verdict));
      }
      k := k + 1;
    }
    assert ordered[k..] == [];
    return None;
  }

  lemma WiderFirstIsOrder()
    ensures TotalPreorder(WiderFirst)
  {}

  lemma {:induction false} FirstStructuredFacts(window: seq<Record>, name: string, cs: seq<Candidate>)
    requires Sorted(cs, WiderFirst)
    ensures match FirstStructured(window, name, cs)
            case None => forall c :: c in cs ==> ModeStructure(window, name, c.split).mode != Structured
            case Some(best) =>
              && best in cs && ModeStructure(window, name, best.split).mode == Structured
              && forall c :: c in cs && ModeStructure(window, name, c.split).mode == Structured ==>
                   c == best || WiderFirst(best, c)
  {
    hide ModeStructure, WiderFirst;
    if cs == [] {
    } else {
      FirstStructuredFacts(window, name, cs[1..]);
      assert cs == [cs[0]] + cs[1..];
    }
  }

  /** The search returns a structured candidate with the widest gap, of equal ones the higher
      split, and nothing exactly when no candidate midpoint is structured. */
  lemma SearchIsBest(window: seq<Record>, name: string, low: real, high: real)
    ensures var cs := Candidates(Observed(window, name), low, high);
      match SearchedSplit(window, name, low, high)
      case None => forall c :: c in cs ==> ModeStructure(window, name, c.split).mode != Structured
      case Some(best) =>
        && best in cs && ModeStructure(window, name, best.split).mode == Structured
        && forall c :: c in cs && ModeStructure(window, name, c.split).mode == Structured ==>
             c.gap < best.gap || (c.gap == best.gap && c.split <= best.split)
  {
    var cs := Candidates(Observed(window, name), low, high);
    WiderFirstIsOrder();
    SortIsSorted(cs, WiderFirst);
    SortPermutes(cs, WiderFirst);
    MembersAgree(cs, Sort(cs, WiderFirst));
    hide ModeStructure, Candidates, Observed, Sort;
    FirstStructuredFacts(window, name, Sort(cs, WiderFirst));
  }

  lemma FoundSeparates(window: seq<Record>, name: string, low: real, high: real)
    ensures match SearchedSplit(window, name, low, high)
      case None => forall c :: c in Candidates(Observed(window, name), low, high) ==> !Separates(window, name, c.split)
      case Some(best) => low < best.split <= high && Separates(window, name, best.split)
  {
    hide *;
    SearchIsBest(window, name, low, high);
    match SearchedSplit(window, name, low, high)
    case None =>
      forall c | c in Candidates(Observed(window, name), low, high) ensures !Separates(window, name, c.split) {
        ModeMeans(window, name, c.split);
      }
    case Some(best) =>
      ModeMeans(window, name, best.split);
      CandidateHalves(Observed(window, name), low, high, best);
  }

  /** A candidate is the point halfway between two adjacent readings, with their distance. */
  lemma CandidateHalves(values: seq<real>, low: real, high: real, c: Candidate)
    ensures c in Candidates(values, low, high) <==>
      exists i :: 0 <= i < |values| - 1 && c.gap == values[i + 1] - values[i]
                  && 2.0 * c.split == values[i] + values[i + 1] && low < c.split <= high
  {
    CandidateMeaning(values, low, high, c);
    hide Candidates;
  }

  /** A candidate is exactly the midpoint of two adjacent readings, inside (low, high]. */
  lemma {:induction false} CandidateMeaning(values: seq<real>, low: real, high: real, c: Candidate)
    ensures c in Candidates(values, low, high) <==>
      exists i :: 0 <= i < |values| - 1 && c == Candidate(values[i + 1] - values[i], Midpoint(values[i], values[i + 1]))
                  && low < c.split <= high
  {
    hide Midpoint;
    if |values| < 2 {
    } else {
      var rest := values[1..];
      CandidateMeaning(rest, low, high, c);
      if i :| 0 <= i < |values| - 1 && c == Candidate(values[i + 1] - values[i], Midpoint(values[i], values[i + 1]))
              && low < c.split <= high {
        if i > 0 { assert rest[i - 1] == values[i] && rest[i - 1 + 1] == values[i + 1]; }
      }
      if c in Candidates(rest, low, high) {
        var j :| 0 <= j < |rest| - 1 && c == Candidate(rest[j + 1] - rest[j], Midpoint(rest[j], rest[j + 1]))
                 && low < c.split <= high;
        assert values[j + 1] == rest[j] && values[j + 1 + 1] == rest[j + 1];
      }
    }
  }

  lemma ObservedFacts(window: seq<Record>, name: string)
    ensures StrictlyIncreasing(Observed(window, name))
    ensures forall v :: v in Observed(window, name) <==> v in Readings(window, name)
  {
    SortRealsFacts(Readings(window, name));
    DedupFacts(SortReals(Readings(window, name)));
  }

  /** The gap of a sorted list that a value falls into. */
  lemma {:induction false} GapOf(values: seq<real>, s: real) returns (i: nat)
    requires StrictlyIncreasing(values)
    requires exists v :: v in values && v < s
    requires exists v :: v in values && s <= v
    ensures i + 1 < |values| && values[i] < s <= values[i + 1]
  {
    var v :| v in values && v < s;
    var w :| w in values && s <= w;
    var j :| 0 <= j < |values| && values[j] == v;
    var k :| 0 <= k < |values| && values[k] == w;
    assert j < k;
    i := j;
    while values[i + 1] < s
      invariant i < k && values[i] < s
      decreases k - i
    {
      i := i + 1;
    }
  }

  /** Any structured split lies in a gap of structured splits. */
  lemma StructuredSplitHasGap(window: seq<Record>, name: string, split: real) returns (i: nat)
    requires ModeStructure(window, name, split).mode == Structured
    ensures var values := Observed(window, name);
      && i + 1 < |values| && values[i] < split <= values[i + 1]
      && ModeStructure(window, name, Midpoint(values[i], values[i + 1])).mode == Structured
  {
    var below, above := ReadingsAround(window, name, split);
    hide ModeStructure, Observed, Readings, Midpoint, StrictlyIncreasing;
    ObservedFacts(window, name);
    assert below in Observed(window, name) && above in Observed(window, name);
    i := GapOf(Observed(window, name), split);
    VerdictAtMidpoint(window, name, i, split);
  }

  /** The search finds such a gap, or a wider one, as soon as its midpoint lies in (low, high]. */
  lemma SearchIsComplete(window: seq<Record>, name: string, low: real, high: real, split: real) returns (i: nat)
    requires ModeStructure(window, name, split).mode == Structured
    ensures var values := Observed(window, name);
      && i + 1 < |values| && values[i] < split <= values[i + 1]
      && ModeStructure(window, name, Midpoint(values[i], values[i + 1])).mode == Structured
      && (low < Midpoint(values[i], values[i + 1]) <= high ==>
            SearchedSplit(window, name, low, high).Some?
            && SearchedSplit(window, name, low, high).value.gap >= values[i + 1] - values[i])
  {
    hide ModeStructure, Observed, SearchedSplit, Midpoint, Candidates;
    i := StructuredSplitHasGap(window, name, split);
    var values := Observed(window, name);
    CandidateMeaning(values, low, high,
                     Candidate(values[i + 1] - values[i], Midpoint(values[i], values[i + 1])));
    SearchIsBest(window, name, low, high);
  }

  lemma VerdictAtMidpoint(window: seq<Record>, name: string, i: nat, s: real)
    requires var values := Observed(window, name); i + 1 < |values| && values[i] < s <= values[i + 1]
    ensures var values := Observed(window, name);
      ModeStructure(window, name, s) == ModeStructure(window, name, Midpoint(values[i], values[i + 1]))
  {
    var values := Observed(window, name);
    var mid := Midpoint(values[i], values[i + 1]);
    MidpointBetween(values[i], values[i + 1]);
    hide ModeStructure, Observed, Readings, Midpoint;
    GapHasNoReading(window, name, i, s);
    GapHasNoReading(window, name, i, mid);
    OneVerdictPerGap(window, name, s, mid);
  }

  lemma MidpointBetween(a: real, b: real)
    requires a < b
    ensures a < Midpoint(a, b) < b
  {}

  /** A structured split has readings on either side. */
  lemma ReadingsAround(window: seq<Record>, name: string, split: real) returns (below: real, above: real)
    requires ModeStructure(window, name, split).mode == Structured
    ensures below in Readings(window, name) && below < split
    ensures above in Readings(window, name) && split <= above
  {
    RepeatsObserved(window, name);
    hide Repeats, Readings;
    var verdict := ModeStructure(window, name, split);
    var b :| b in verdict.below;
    var a :| a in verdict.above;
    below, above := Highest(verdict.repeats[b]), Lowest(verdict.repeats[a]);
    assert below in verdict.repeats[b] && above in verdict.repeats[a];
  }

  lemma GapHasNoReading(window: seq<Record>, name: string, i: nat, s: real)
    requires var values := Observed(window, name); i + 1 < |values| && values[i] < s <= values[i + 1]
    ensures forall v :: v in Readings(window, name) ==> (v < s <==> v <= Observed(window, name)[i])
  {
    ObservedFacts(window, name);
    var values := Observed(window, name);
    hide Observed;
    forall v | v in Readings(window, name) ensures v < s <==> v <= values[i] {
      var k :| 0 <= k < |values| && values[k] == v;
      if k < i { assert values[k] < values[i]; }
      if i < k { assert values[i + 1] <= values[k]; }
    }
  }
}
