/** The boot history: how it is read back, and how many boots running the tree has come
    up clean (scripts/boot-history.py). */
module BootLedger {
  import opened Wrappers
  import opened Order

  datatype Verdict = Pass | PassTooling | BenchIncomplete | SelftestFail | Panic | Wedge | Timeout
                   | HostFail | NoBoot | Unrecognised(text: string)

  predicate IsClean(v: Verdict) { v == Pass || v == PassTooling || v == BenchIncomplete }

  /** A record's field as JSON gives it. */
  datatype Field = Missing | Text(s: string) | Other(shown: string, truthy: bool)

  /** The sort coerces a stamp to a string, and every false value to the empty one. */
  function SortKey(ts: Field): string {
    match ts
    case Missing => ""
    case Text(s) => s
    case Other(shown, truthy) => if truthy then shown else ""
  }

  /** A field as a report shows it: `str(rec.get(name, ""))`. */
  function Shown(ts: Field): string {
    match ts
    case Missing => ""
    case Text(s) => s
    case Other(shown, _) => shown
  }

  datatype Boot = Boot(ts: Field, commit: Field, verdict: Verdict, experiment: bool, fingerprints: set<string>)

  /** One line of the file as the reader finds it. */
  datatype Line = Blank | Malformed | NotARecord | Record(boot: Boot)

  predicate DescribesTree(b: Boot) { !b.experiment && b.verdict != HostFail }

  // ----- reading the file back in order

  predicate Earlier(a: Boot, b: Boot) { LexLe(SortKey(a.ts), SortKey(b.ts)) }

  function BootsOf(lines: seq<Line>): seq<Boot> {
    if lines == [] then []
    else (if lines[0].Record? then [lines[0].boot] else []) + BootsOf(lines[1..])
  }

  lemma {:induction false} BootsOfSnoc(lines: seq<Line>, last: Line)
    ensures BootsOf(lines + [last]) == BootsOf(lines) + (if last.Record? then [last.boot] else [])
  {
    if lines == [] {
      assert lines + [last] == [last] && [last][1..] == [];
    } else {
      assert (lines + [last])[1..] == lines[1..] + [last];
      BootsOfSnoc(lines[1..], last);
      Regroup(if lines[0].Record? then [lines[0].boot] else [], BootsOf(lines[1..]),
              if last.Record? then [last.boot] else []);
    }
  }

  lemma {:induction false} BootsOfConcat(a: seq<Line>, b: seq<Line>)
    ensures BootsOf(a + b) == BootsOf(a) + BootsOf(b)
  {
    if a == [] {
      assert a + b == b;
    } else {
      assert (a + b)[0] == a[0] && (a + b)[1..] == a[1..] + b;
      BootsOfConcat(a[1..], b);
      Regroup(if a[0].Record? then [a[0].boot] else [], BootsOf(a[1..]), BootsOf(b));
    }
  }

  /** The history: damaged lines dropped, the rest in a stable order of their stamps. */
  function History(lines: seq<Line>): seq<Boot> { Sort(BootsOf(lines), Earlier) }

  /** The boots that sort alike under one key. */
  function Stamped(key: string): Boot -> bool { (b: Boot) => SortKey(b.ts) == key }

  /** Oldest first, nothing lost or added, and boots of one stamp keep their order in the file. */
  lemma HistoryIsStable(lines: seq<Line>)
    ensures Sorted(History(lines), Earlier) && multiset(History(lines)) == multiset(BootsOf(lines))
    ensures forall key :: Filter(Stamped(key), History(lines)) == Filter(Stamped(key), BootsOf(lines))
  {
    EarlierIsOrder();
    SortIsSorted(BootsOf(lines), Earlier);
    SortPermutes(BootsOf(lines), Earlier);
    hide Sort, BootsOf, Filter;
    forall key ensures Filter(Stamped(key), History(lines)) == Filter(Stamped(key), BootsOf(lines)) {
      LexTotal(key, key);
      SortIsStable(BootsOf(lines), Earlier, Stamped(key));
    }
  }

  method LoadHistory(lines: seq<Line>) returns (records: seq<Boot>)
    ensures records == History(lines)
    ensures Sorted(records, Earlier) && multiset(records) == multiset(BootsOf(lines))
    ensures forall key :: Filter(Stamped(key), records) == Filter(Stamped(key), BootsOf(lines))
  {
    HistoryIsStable(lines);
    hide Filter, Stamped, Earlier, Sort, Sorted;
    records := [];
    for i := 0 to |lines|
      invariant records == BootsOf(lines[..i])
    {
      assert lines[..i + 1] == lines[..i] + [lines[i]];
      BootsOfSnoc(lines[..i], lines[i]);
      if lines[i].Record? {
        records := records + [lines[i].boot];
      }
    }
    assert lines[..|lines|] == lines;
    records := Sort(records, Earlier);
  }

  lemma EarlierIsOrder()
    ensures TotalPreorder(Earlier)
  {
    LexIsOrder();
    forall a, b, c | Earlier(a, b) && Earlier(b, c) ensures Earlier(a, c) {
      LexTransitive(SortKey(a.ts), SortKey(b.ts), SortKey(c.ts));
    }
    forall a, b ensures Earlier(a, b) || Earlier(b, a) {
      LexTotal(SortKey(a.ts), SortKey(b.ts));
    }
  }

  // ----- the clean streak

  /** Tree-describing records, most recent first, up to the first that is not clean. */
  function CleanStreak(records: seq<Boot>): nat {
    if records == [] then 0
    else
      var last := records[|records| - 1];
      if !DescribesTree(last) then CleanStreak(records[..|records| - 1])
      else if IsClean(last.verdict) then 1 + CleanStreak(records[..|records| - 1])
      else 0
  }

  method TailCleanStreak(records: seq<Boot>) returns (streak: nat)
    ensures streak == CleanStreak(records)
  {
    streak := 0;
    var i := |records|;
    assert records[..i] == records;
    while i > 0
      invariant 0 <= i <= |records|
      invariant CleanStreak(records) == streak + CleanStreak(records[..i])
    {
      i := i - 1;
      var rec := records[i];
      assert records[..i + 1][..i] == records[..i];
      if !DescribesTree(rec) {
        continue;
      }
      if IsClean(rec.verdict) {
        streak := streak + 1;
      } else {
        break;
      }
    }
  }

  predicate CleanTree(b: Boot) { DescribesTree(b) && IsClean(b.verdict) }

  predicate DirtyTree(b: Boot) { DescribesTree(b) && !IsClean(b.verdict) }

  function TreeRecords(records: seq<Boot>): seq<Boot> { Filter(DescribesTree, records) }

  lemma {:induction false} StreakSkipsForeign(records: seq<Boot>)
    ensures CleanStreak(records) == CleanStreak(TreeRecords(records))
  {
    if records != [] {
      var init, last := records[..|records| - 1], records[|records| - 1];
      assert records == init + [last];
      StreakSkipsForeign(init);
      FilterConcat(DescribesTree, init, [last]);
      assert [last][1..] == [];
      var t := TreeRecords(init);
      assert TreeRecords(records) == t + (if DescribesTree(last) then [last] else []);
      var whole := t + [last];
      assert whole[|whole| - 1] == last && whole[..|whole| - 1] == t;
      assert t + [] == t;
    }
  }

  /** Probes and host failures may be inserted anywhere without moving the streak. */
  lemma ForeignRowsChangeNothing(records: seq<Boot>, more: seq<Boot>)
    requires TreeRecords(records) == TreeRecords(more)
    ensures CleanStreak(records) == CleanStreak(more)
  {
    StreakSkipsForeign(records);
    StreakSkipsForeign(more);
  }

  /** The streak is the length of the longest clean run at the end of the tree's records. */
  lemma {:induction false} StreakIsLongestCleanSuffix(tree: seq<Boot>)
    requires forall b :: b in tree ==> DescribesTree(b)
    ensures var n := CleanStreak(tree);
      && n <= |tree|
      && (forall i :: |tree| - n <= i < |tree| ==> IsClean(tree[i].verdict))
      && (n < |tree| ==> !IsClean(tree[|tree| - n - 1].verdict))
  {
    if tree != [] {
      var last := tree[|tree| - 1];
      assert last in tree;
      if IsClean(last.verdict) {
        var init := tree[..|tree| - 1];
        StreakIsLongestCleanSuffix(init);
        var n := CleanStreak(init);
        assert n < |init| ==> tree[|tree| - (n + 1) - 1] == init[|init| - n - 1];
      }
    }
  }

  // ----- does the order of lines in the file matter?

  predicate CleanAfter(t: string, b: Boot) { CleanTree(b) && !LexLe(SortKey(b.ts), t) }

  predicate CleanAt(t: string, b: Boot) { CleanTree(b) && SortKey(b.ts) == t }

  function Matching(p: Boot -> bool, records: seq<Boot>): nat { |Filter(p, records)| }

  /** The latest stamp of a record that ends a streak. */
  ghost predicate LatestDirty(records: seq<Boot>, d: Boot) {
    d in records && DirtyTree(d) && forall b :: b in records && DirtyTree(b) ==> LexLe(SortKey(b.ts), SortKey(d.ts))
  }

  lemma {:induction false} MatchingConcat(p: Boot -> bool, a: seq<Boot>, b: seq<Boot>)
    ensures Matching(p, a + b) == Matching(p, a) + Matching(p, b)
  {
    FilterConcat(p, a, b);
  }

  lemma {:induction false} MatchingNone(p: Boot -> bool, s: seq<Boot>)
    requires forall b :: b in s ==> !p(b)
    ensures Matching(p, s) == 0
  {
    if s != [] {
      assert s[0] in s;
      MatchingNone(p, s[1..]);
    }
  }

  lemma MatchingOne(p: Boot -> bool, b: Boot)
    ensures Matching(p, [b]) == if p(b) then 1 else 0
  {
    assert [b][1..] == [];
    assert Filter(p, [b]) == (if p(b) then [b] else []) + Filter(p, []);
  }

  lemma {:induction false} MatchingSame(p: Boot -> bool, q: Boot -> bool, s: seq<Boot>)
    requires forall b :: b in s ==> (p(b) <==> q(b))
    ensures Matching(p, s) == Matching(q, s)
  {
    if s != [] {
      assert s[0] in s;
      MatchingSame(p, q, s[1..]);
    }
  }

  /** With no failure behind it the streak counts every clean boot of the tree. */
  lemma {:induction false} AllCleanStreak(s: seq<Boot>)
    requires forall b :: b in s ==> !DirtyTree(b)
    ensures CleanStreak(s) == Matching(CleanTree, s)
  {
    if s != [] {
      var init, last := s[..|s| - 1], s[|s| - 1];
      assert s == init + [last] && last in s;
      AllCleanStreak(init);
      MatchingConcat(CleanTree, init, [last]);
      MatchingOne(CleanTree, last);
    }
  }

  /** A failure with only clean or foreign rows after it: the streak counts those after it. */
  lemma {:induction false} StreakAfterFailure(front: seq<Boot>, d: Boot, back: seq<Boot>)
    requires DirtyTree(d) && forall b :: b in back ==> !DirtyTree(b)
    ensures CleanStreak(front + [d] + back) == Matching(CleanTree, back)
  {
    var whole := front + [d] + back;
    if back == [] {
      assert whole == front + [d];
      assert whole[|whole| - 1] == d;
    } else {
      var init, last := back[..|back| - 1], back[|back| - 1];
      assert back == init + [last] && last in back;
      assert whole[|whole| - 1] == last && whole[..|whole| - 1] == front + [d] + init;
      StreakAfterFailure(front, d, init);
      MatchingConcat(CleanTree, init, [last]);
      MatchingOne(CleanTree, last);
    }
  }

  /** Splits a sequence at its last streak-ending record. */
  lemma {:induction false} LastDirty(s: seq<Boot>) returns (i: nat)
    requires exists b :: b in s && DirtyTree(b)
    ensures i < |s| && DirtyTree(s[i])
    ensures forall b :: b in s[i + 1..] ==> !DirtyTree(b)
  {
    var init, last := s[..|s| - 1], s[|s| - 1];
    assert s == init + [last];
    i := |s| - 1;
    if !DirtyTree(last) {
      i := LastDirty(init);
      assert s[i + 1..] == init[i + 1..] + [last];
    }
  }

  /** Whatever the order in the file, the streak lies between the clean boots strictly
      after the latest failure and those not before it. */
  lemma StreakRange(records: seq<Boot>, d: Boot)
    requires Sorted(records, Earlier) && LatestDirty(records, d)
    ensures var t := SortKey(d.ts);
      Matching((b: Boot) => CleanAfter(t, b), records) <= CleanStreak(records)
      <= Matching((b: Boot) => CleanAfter(t, b), records) + Matching((b: Boot) => CleanAt(t, b), records)
  {
    LatestIsAFailure(records, d);
    hide *;
    var i := LastDirty(records);
    LastFailureIsLatest(records, d, i);
    StreakFromLastFailure(records, d, i);
    SplitAround(records, i);
    MatchingConcat((b: Boot) => CleanAt(SortKey(d.ts), b), records[..i + 1], records[i + 1..]);
  }

  lemma LatestIsAFailure(records: seq<Boot>, d: Boot)
    requires LatestDirty(records, d)
    ensures d in records && DirtyTree(d)
  {}

  /** In sorted order the boots after the last failure are those stamped later and some
      of those stamped alike. */
  lemma StreakFromLastFailure(records: seq<Boot>, d: Boot, i: nat)
    requires Sorted(records, Earlier) && i < |records| && DirtyTree(records[i])
    requires forall b :: b in records[i + 1..] ==> !DirtyTree(b)
    requires SortKey(records[i].ts) == SortKey(d.ts)
    ensures var t := SortKey(d.ts);
      CleanStreak(records) == Matching((b: Boot) => CleanAfter(t, b), records)
                              + Matching((b: Boot) => CleanAt(t, b), records[i + 1..])
  {
    var t := SortKey(d.ts);
    var after := (b: Boot) => CleanAfter(t, b);
    var front, back := records[..i + 1], records[i + 1..];
    StampsAround(records, i);
    hide *;
    SplitAround(records, i);
    StreakAfterFailure(records[..i], records[i], back);
    MatchingConcat(after, front, back);
    NoneAfter(front, t);
    SplitByStamp(back, t);
  }

  lemma NoneAfter(boots: seq<Boot>, t: string)
    requires forall b :: b in boots ==> LexLe(SortKey(b.ts), t)
    ensures Matching((b: Boot) => CleanAfter(t, b), boots) == 0
  {
    MatchingNone((b: Boot) => CleanAfter(t, b), boots);
  }

  lemma StampsAround(records: seq<Boot>, i: nat)
    requires Sorted(records, Earlier) && i < |records|
    ensures forall b :: b in records[..i + 1] ==> LexLe(SortKey(b.ts), SortKey(records[i].ts))
    ensures forall b :: b in records[i + 1..] ==> LexLe(SortKey(records[i].ts), SortKey(b.ts))
  {
    hide LexLe;
    LexTotal(SortKey(records[i].ts), SortKey(records[i].ts));
    forall b | b in records[..i + 1] ensures LexLe(SortKey(b.ts), SortKey(records[i].ts)) {
      var k :| 0 <= k <= i && records[k] == b;
      assert k < i ==> Earlier(records[k], records[i]);
    }
    forall b | b in records[i + 1..] ensures LexLe(SortKey(records[i].ts), SortKey(b.ts)) {
      var k :| 0 <= k < |records[i + 1..]| && records[i + 1..][k] == b;
      assert Earlier(records[i], records[i + 1 + k]);
    }
  }

  lemma LastFailureIsLatest(records: seq<Boot>, d: Boot, i: nat)
    requires Sorted(records, Earlier) && LatestDirty(records, d)
    requires i < |records| && DirtyTree(records[i]) && forall b :: b in records[i + 1..] ==> !DirtyTree(b)
    ensures SortKey(records[i].ts) == SortKey(d.ts)
  {
    hide LexLe;
    var k :| 0 <= k < |records| && records[k] == d;
    forall m | i < m < |records| ensures !DirtyTree(records[m]) {
      assert records[i + 1..][m - i - 1] == records[m];
    }
    assert k < i ==> Earlier(records[k], records[i]);
    assert records[i] in records;
    LexTotal(SortKey(d.ts), SortKey(d.ts));
    LexAntisymmetric(SortKey(records[i].ts), SortKey(d.ts));
  }

  lemma {:induction false} SplitByStamp(s: seq<Boot>, t: string)
    requires forall b :: b in s ==> LexLe(t, SortKey(b.ts))
    ensures Matching(CleanTree, s)
            == Matching((b: Boot) => CleanAfter(t, b), s) + Matching((b: Boot) => CleanAt(t, b), s)
  {
    if s != [] {
      assert s[0] in s;
      SplitByStamp(s[1..], t);
      LexTotal(t, t);
      if LexLe(SortKey(s[0].ts), t) { LexAntisymmetric(SortKey(s[0].ts), t); }
    }
  }

  /** No clean boot of the tree shares its stamp with the latest failure. */
  ghost predicate Unambiguous(records: seq<Boot>) {
    forall c, d :: c in records && LatestDirty(records, d) && CleanTree(c) ==> SortKey(c.ts) != SortKey(d.ts)
  }

  ghost predicate OrderIndependent(lines: seq<Line>) {
    forall other: seq<Line> :: multiset(BootsOf(other)) == multiset(BootsOf(lines)) ==>
      CleanStreak(History(other)) == CleanStreak(History(lines))
  }

  lemma {:induction false} LatestDirtyExists(records: seq<Boot>)
    requires exists b :: b in records && DirtyTree(b)
    ensures exists d :: LatestDirty(records, d)
  {
    var first, rest := records[0], records[1..];
    assert records == [first] + rest;
    LexTotal(SortKey(first.ts), SortKey(first.ts));
    if exists b :: b in rest && DirtyTree(b) {
      LatestDirtyExists(rest);
      var d :| LatestDirty(rest, d);
      LexTotal(SortKey(first.ts), SortKey(d.ts));
      var latest := if DirtyTree(first) && LexLe(SortKey(d.ts), SortKey(first.ts)) then first else d;
      forall b | b in records && DirtyTree(b) ensures LexLe(SortKey(b.ts), SortKey(latest.ts)) {
        if b in rest && latest == first { LexTransitive(SortKey(b.ts), SortKey(d.ts), SortKey(first.ts)); }
      }
      assert LatestDirty(records, latest);
    } else {
      assert LatestDirty(records, first);
    }
  }

  lemma SortedBoots(boots: seq<Boot>)
    ensures Sorted(Sort(boots, Earlier), Earlier)
    ensures multiset(Sort(boots, Earlier)) == multiset(boots)
    ensures forall b :: b in Sort(boots, Earlier) <==> b in boots
  {
    EarlierIsOrder();
    SortIsSorted(boots, Earlier);
    SortPermutes(boots, Earlier);
    MembersAgree(boots, Sort(boots, Earlier));
  }

  /** What the streak is when no stamp is shared with the latest failure. */
  lemma UnambiguousStreak(boots: seq<Boot>, d: Boot)
    requires Unambiguous(boots) && LatestDirty(boots, d)
    ensures CleanStreak(Sort(boots, Earlier)) == Matching((b: Boot) => CleanAfter(SortKey(d.ts), b), boots)
  {
    SortedBoots(boots);
    var sorted := Sort(boots, Earlier);
    var t := SortKey(d.ts);
    hide Sort, Sorted, LexLe, CleanStreak;
    StreakRange(sorted, d);
    MatchingNone((b: Boot) => CleanAt(t, b), sorted);
    FilterPermutation((b: Boot) => CleanAfter(t, b), sorted, boots);
  }

  lemma NoFailureStreak(boots: seq<Boot>)
    requires forall b :: b in boots ==> !DirtyTree(b)
    ensures CleanStreak(Sort(boots, Earlier)) == Matching(CleanTree, boots)
  {
    SortedBoots(boots);
    hide Sort;
    AllCleanStreak(Sort(boots, Earlier));
    FilterPermutation(CleanTree, Sort(boots, Earlier), boots);
  }

  /** Unshared stamps: every order of the lines gives the same streak. */
  lemma UnambiguousIsOrderIndependent(a: seq<Boot>, b: seq<Boot>)
    requires Unambiguous(a) && multiset(a) == multiset(b)
    ensures CleanStreak(Sort(a, Earlier)) == CleanStreak(Sort(b, Earlier))
  {
    MembersAgree(a, b);
    hide Sort, CleanStreak, LexLe;
    if exists d :: d in a && DirtyTree(d) {
      LatestDirtyExists(a);
      var d :| LatestDirty(a, d);
      assert Unambiguous(b) by {
        forall c, e | c in b && LatestDirty(b, e) && CleanTree(c) ensures SortKey(c.ts) != SortKey(e.ts) {
          assert LatestDirty(a, e);
        }
      }
      UnambiguousStreak(a, d);
      UnambiguousStreak(b, d);
      FilterPermutation((x: Boot) => CleanAfter(SortKey(d.ts), x), a, b);
    } else {
      NoFailureStreak(a);
      NoFailureStreak(b);
      FilterPermutation(CleanTree, a, b);
    }
  }

  // ----- a shared stamp makes the order matter

  lemma {:induction false} InsertBeforeTail(x: Boot, low: seq<Boot>, y: Boot, high: seq<Boot>)
    requires Earlier(x, y)
    ensures Insert(x, low + [y] + high, Earlier) == Insert(x, low, Earlier) + [y] + high
  {
    hide LexLe;
    var whole := low + [y] + high;
    if low == [] {
      assert whole[0] == y;
    } else {
      assert whole[0] == low[0] && whole[1..] == low[1..] + [y] + high;
      if !Earlier(x, low[0]) {
        InsertBeforeTail(x, low[1..], y, high);
      }
    }
  }

  lemma {:induction false} InsertAfterFront(x: Boot, low: seq<Boot>, high: seq<Boot>)
    requires forall l :: l in low ==> !Earlier(x, l)
    ensures Insert(x, low + high, Earlier) == low + Insert(x, high, Earlier)
  {
    if low == [] {
      assert low + high == high;
    } else {
      assert low[0] in low;
      assert (low + high)[0] == low[0] && (low + high)[1..] == low[1..] + high;
      InsertAfterFront(x, low[1..], high);
    }
  }

  /** The sort being stable, the last line of the file comes last among its equals. */
  lemma {:induction false} LastLineComesLast(boots: seq<Boot>, x: Boot) returns (low: seq<Boot>, high: seq<Boot>)
    ensures Sort(boots + [x], Earlier) == low + [x] + high
    ensures forall l :: l in low ==> Earlier(l, x)
    ensures forall h :: h in high ==> !Earlier(h, x)
  {
    if boots == [] {
      low, high := [], [];
      assert (boots + [x])[1..] == [];
    } else {
      var first := boots[0];
      assert (boots + [x])[0] == first && (boots + [x])[1..] == boots[1..] + [x];
      low, high := LastLineComesLast(boots[1..], x);
      InsertPermutes(first, low, Earlier);
      InsertPermutes(first, high, Earlier);
      InsertMembers(first, low);
      InsertMembers(first, high);
      if Earlier(first, x) {
        InsertBeforeTail(first, low, x, high);
        low := Insert(first, low, Earlier);
      } else {
        forall l | l in low + [x] ensures !Earlier(first, l) {
          if Earlier(first, l) && l in low { LexTransitive(SortKey(first.ts), SortKey(l.ts), SortKey(x.ts)); }
        }
        InsertAfterFront(first, low + [x], high);
        high := Insert(first, high, Earlier);
      }
    }
  }

  lemma InsertMembers(x: Boot, s: seq<Boot>)
    ensures forall y :: y in Insert(x, s, Earlier) <==> y == x || y in s
  {
    InsertPermutes(x, s, Earlier);
    MembersAgree(Insert(x, s, Earlier), [x] + s);
  }

  /** Filed last, a failure has none of its own stamp behind it. */
  lemma FailureFiledLast(boots: seq<Boot>, d: Boot)
    requires LatestDirty(boots + [d], d)
    ensures CleanStreak(Sort(boots + [d], Earlier))
            == Matching((b: Boot) => CleanAfter(SortKey(d.ts), b), boots + [d])
  {
    var t := SortKey(d.ts);
    var low, high := LastLineComesLast(boots, d);
    var sorted := Sort(boots + [d], Earlier);
    SortedBoots(boots + [d]);
    assert sorted == low + [d] + high;
    var i := |low|;
    assert sorted[i] == d && sorted[i + 1..] == high;
    forall b | b in high ensures !DirtyTree(b) && !CleanAt(t, b) {
      assert b in sorted;
      LexTotal(t, t);
    }
    hide Sort, Sorted, CleanStreak, LexLe;
    StreakFromLastFailure(sorted, d, i);
    MatchingNone((b: Boot) => CleanAt(t, b), high);
    FilterPermutation((b: Boot) => CleanAfter(t, b), sorted, boots + [d]);
  }

  lemma FailureBeforeClean(low: seq<Boot>, c: Boot, high: seq<Boot>, d: Boot) returns (i: nat)
    requires var sorted := low + [c] + high; Sorted(sorted, Earlier) && LatestDirty(sorted, d)
    requires CleanTree(c) && SortKey(c.ts) == SortKey(d.ts)
    requires forall h :: h in high ==> !Earlier(h, c)
    ensures i < |low| && var sorted := low + [c] + high;
      && DirtyTree(sorted[i]) && SortKey(sorted[i].ts) == SortKey(d.ts)
      && (forall b :: b in sorted[i + 1..] ==> !DirtyTree(b))
      && c in sorted[i + 1..]
  {
    var sorted := low + [c] + high;
    i := LastDirty(sorted);
    LastFailureIsLatest(sorted, d, i);
    LexTotal(SortKey(c.ts), SortKey(c.ts));
    forall k | |low| < k < |sorted| ensures !Earlier(sorted[k], c) {
      assert sorted[k] == high[k - |low| - 1];
    }
    assert sorted[|low|] == c && i < |low|;
    assert c == sorted[i + 1..][|low| - i - 1];
  }

  /** Filed last, a clean boot of the failure's stamp is counted. */
  lemma CleanBootFiledLast(boots: seq<Boot>, c: Boot, d: Boot)
    requires LatestDirty(boots + [c], d) && CleanTree(c) && SortKey(c.ts) == SortKey(d.ts)
    ensures CleanStreak(Sort(boots + [c], Earlier))
            > Matching((b: Boot) => CleanAfter(SortKey(d.ts), b), boots + [c])
  {
    var t := SortKey(d.ts);
    SortedBoots(boots + [c]);
    hide Sort, Sorted, CleanStreak, LexLe, Matching;
    var low, high := LastLineComesLast(boots, c);
    var sorted := Sort(boots + [c], Earlier);
    assert LatestDirty(sorted, d);
    var i := FailureBeforeClean(low, c, high, d);
    StreakFromLastFailure(sorted, d, i);
    SameCount((b: Boot) => CleanAfter(t, b), sorted, boots + [c]);
    HasMatch((b: Boot) => CleanAt(t, b), sorted[i + 1..], c);
  }

  lemma SameCount(p: Boot -> bool, s: seq<Boot>, t: seq<Boot>)
    requires multiset(s) == multiset(t)
    ensures Matching(p, s) == Matching(p, t)
  {
    FilterPermutation(p, s, t);
  }

  lemma HasMatch(p: Boot -> bool, s: seq<Boot>, b: Boot)
    requires b in s && p(b)
    ensures Matching(p, s) > 0
  {
    FilterMembers(p, s);
    assert b in Filter(p, s);
  }

  function Without(s: seq<Boot>, x: Boot): seq<Boot> {
    if s == [] then [] else if s[0] == x then s[1..] else [s[0]] + Without(s[1..], x)
  }

  lemma {:induction false} WithoutMultiset(s: seq<Boot>, x: Boot)
    requires x in s
    ensures multiset(Without(s, x)) + multiset{x} == multiset(s)
  {
    assert s == [s[0]] + s[1..];
    if s[0] != x {
      WithoutMultiset(s[1..], x);
    }
  }

  lemma SharedStampBreaksOrder(boots: seq<Boot>, c: Boot, d: Boot) returns (a: seq<Boot>, b: seq<Boot>)
    requires c in boots && LatestDirty(boots, d) && CleanTree(c) && SortKey(c.ts) == SortKey(d.ts)
    ensures multiset(a) == multiset(b) == multiset(boots)
    ensures CleanStreak(Sort(a, Earlier)) != CleanStreak(Sort(b, Earlier))
  {
    WithoutMultiset(boots, c);
    var fewer := Without(boots, c);
    assert d in multiset(boots) && d != c;
    assert d in multiset(fewer);
    WithoutMultiset(fewer, d);
    var rest := Without(fewer, d);
    a := rest + [d] + [c];
    b := [c] + rest + [d];
    assert multiset(a) == multiset(rest) + multiset{d} + multiset{c};
    assert multiset(b) == multiset{c} + multiset(rest) + multiset{d};
    MembersAgree(a, boots);
    MembersAgree(b, boots);
    hide Sort, CleanStreak, LexLe, Without;
    assert LatestDirty(a, d) && LatestDirty(b, d);
    CleanBootFiledLast(rest + [d], c, d);
    FailureFiledLast([c] + rest, d);
    FilterPermutation((x: Boot) => CleanAfter(SortKey(d.ts), x), a, b);
  }

  function AsLines(boots: seq<Boot>): seq<Line> {
    if boots == [] then [] else [Record(boots[0])] + AsLines(boots[1..])
  }

  lemma {:induction false} AsLinesBoots(boots: seq<Boot>)
    ensures BootsOf(AsLines(boots)) == boots
  {
    if boots != [] {
      AsLinesBoots(boots[1..]);
      assert AsLines(boots)[1..] == AsLines(boots[1..]);
    }
  }

  /** The published streak does not depend on the order of lines in the file exactly when
      no clean boot shares its stamp with the latest failure -- in particular whenever
      all stamps differ. */
  lemma FileOrderMattersOnlyOnSharedStamps(lines: seq<Line>)
    ensures OrderIndependent(lines) <==> Unambiguous(BootsOf(lines))
  {
    var boots := BootsOf(lines);
    hide Sort, CleanStreak, LexLe, BootsOf;
    if Unambiguous(boots) {
      forall other: seq<Line> | multiset(BootsOf(other)) == multiset(boots)
        ensures CleanStreak(History(other)) == CleanStreak(History(lines))
      {
        UnambiguousIsOrderIndependent(boots, BootsOf(other));
      }
    } else {
      var c, d :| c in boots && LatestDirty(boots, d) && CleanTree(c) && SortKey(c.ts) == SortKey(d.ts);
      var a, b := SharedStampBreaksOrder(boots, c, d);
      AsLinesBoots(a);
      AsLinesBoots(b);
      assert CleanStreak(History(AsLines(a))) != CleanStreak(History(AsLines(b)));
    }
  }

  /** A clean boot and a panic with one stamp: whichever line comes last decides. */
  lemma OneStampTwoStreaks() returns (pass: Boot, panic: Boot)
    ensures CleanStreak(History([Record(pass), Record(panic)])) == 0
    ensures CleanStreak(History([Record(panic), Record(pass)])) == 1
    ensures !OrderIndependent([Record(pass), Record(panic)])
  {
    pass := Boot(Text("t"), Missing, Pass, false, {});
    panic := pass.(verdict := Panic);
    LexTotal("t", "t");
    TwoBootStreak(pass, panic);
    TwoBootStreak(panic, pass);
    hide *;
    TwoBoots(pass, panic);
    TwoBoots(panic, pass);
    OrderMatters([Record(pass), Record(panic)], [Record(panic), Record(pass)]);
  }

  lemma OrderMatters(lines: seq<Line>, other: seq<Line>)
    requires multiset(BootsOf(other)) == multiset(BootsOf(lines))
    requires CleanStreak(History(other)) != CleanStreak(History(lines))
    ensures !OrderIndependent(lines)
  {
    hide BootsOf, CleanStreak, History;
  }

  lemma TwoBootStreak(first: Boot, second: Boot)
    requires DescribesTree(first) && DescribesTree(second)
    ensures CleanStreak([first, second])
            == if !IsClean(second.verdict) then 0 else if IsClean(first.verdict) then 2 else 1
  {
    StreakSnoc([], first);
    StreakSnoc([first], second);
    assert [] + [first] == [first] && [first] + [second] == [first, second];
    assert CleanStreak([]) == 0;
    hide CleanStreak;
  }

  lemma TwoBoots(first: Boot, second: Boot)
    requires Earlier(first, second)
    ensures BootsOf([Record(first), Record(second)]) == [first, second]
    ensures History([Record(first), Record(second)]) == [first, second]
  {
    hide Earlier;
    assert BootsOf([Record(second)]) == [second] by { assert [Record(second)][1..] == []; }
    assert BootsOf([Record(first), Record(second)]) == [first, second] by {
      assert [Record(first), Record(second)][1..] == [Record(second)];
    }
    assert [first, second][1..] == [second] && [second][1..] == [];
    assert Sort([second], Earlier) == [second];
  }

  /** Pairwise distinct stamps are enough. */
  lemma DistinctStampsAreOrderIndependent(lines: seq<Line>)
    requires var boots := BootsOf(lines);
      forall i, j :: 0 <= i < j < |boots| ==> SortKey(boots[i].ts) != SortKey(boots[j].ts)
    ensures OrderIndependent(lines)
  {
    var boots := BootsOf(lines);
    FileOrderMattersOnlyOnSharedStamps(lines);
    hide BootsOf, OrderIndependent, LexLe;
    forall c, d | c in boots && LatestDirty(boots, d) && CleanTree(c) ensures SortKey(c.ts) != SortKey(d.ts) {
      var i :| 0 <= i < |boots| && boots[i] == c;
      var j :| 0 <= j < |boots| && boots[j] == d;
      assert i != j;
    }
  }

  // ----- probes and host failures in the file

  lemma EarlierChains(x: Boot, s: seq<Boot>, y: Boot)
    requires Sorted(s, Earlier) && s != [] && Earlier(x, s[0]) && y in s
    ensures Earlier(x, y)
  {
    var i :| 0 <= i < |s| && s[i] == y;
    if i > 0 {
      assert Earlier(s[0], s[i]);
      LexTransitive(SortKey(x.ts), SortKey(s[0].ts), SortKey(y.ts));
    }
  }

  lemma {:induction false} FilterInsert(p: Boot -> bool, x: Boot, s: seq<Boot>)
    requires Sorted(s, Earlier)
    ensures Filter(p, Insert(x, s, Earlier))
            == if p(x) then Insert(x, Filter(p, s), Earlier) else Filter(p, s)
  {
    assert Filter(p, []) == [];
    hide Filter, Insert, Earlier;
    InsertUnfold(x, s);
    if s == [] {
      FilterCons(p, x, []);
    } else if Earlier(x, s[0]) {
      FilterCons(p, x, s);
      var kept := Filter(p, s);
      FilterMembers(p, s);
      InsertUnfold(x, kept);
      if kept != [] {
        assert kept[0] in kept;
        EarlierChains(x, s, kept[0]);
      }
    } else {
      SortedTail(s, Earlier);
      FilterInsert(p, x, s[1..]);
      FilterUnfold(p, s);
      FilterCons(p, s[0], Insert(x, s[1..], Earlier));
      FilterCons(p, s[0], s[1..]);
      var rest := Filter(p, s[1..]);
      InsertPast(x, s[0], rest);
      SplitAround(s, 0);
    }
  }

  lemma InsertUnfold(x: Boot, s: seq<Boot>)
    ensures Insert(x, s, Earlier)
            == if s == [] then [x] else if Earlier(x, s[0]) then [x] + s else [s[0]] + Insert(x, s[1..], Earlier)
    ensures [x] + [] == [x]
  {
    hide Earlier;
  }

  lemma InsertPast(x: Boot, first: Boot, rest: seq<Boot>)
    requires !Earlier(x, first)
    ensures Insert(x, [first] + rest, Earlier) == [first] + Insert(x, rest, Earlier)
  {
    hide Earlier;
    assert ([first] + rest)[1..] == rest;
  }

  lemma {:induction false} FilterSort(p: Boot -> bool, s: seq<Boot>)
    ensures Filter(p, Sort(s, Earlier)) == Sort(Filter(p, s), Earlier)
  {
    hide Filter, Earlier;
    if s == [] {
      assert Filter(p, []) == [] by { FilterMembers(p, []); }
    } else {
      FilterSort(p, s[1..]);
      SortedBoots(s[1..]);
      FilterInsert(p, s[0], Sort(s[1..], Earlier));
      assert s == [s[0]] + s[1..];
      FilterCons(p, s[0], s[1..]);
      assert ([s[0]] + Filter(p, s[1..]))[1..] == Filter(p, s[1..]);
    }
  }

  /** Two files that agree on the tree's own boots, in order, publish the same streak:
      experiments, host failures and damaged lines may stand anywhere. */
  lemma ForeignLinesChangeNothing(lines: seq<Line>, other: seq<Line>)
    requires TreeRecords(BootsOf(lines)) == TreeRecords(BootsOf(other))
    ensures CleanStreak(History(lines)) == CleanStreak(History(other))
  {
    FilterSort(DescribesTree, BootsOf(lines));
    FilterSort(DescribesTree, BootsOf(other));
    hide Sort, CleanStreak, BootsOf;
    ForeignRowsChangeNothing(History(lines), History(other));
  }

  /** An experiment or a host failure, wherever its line stands and whatever its stamp, leaves
      the published streak as it was. */
  lemma ProbeLinesChangeNothing(a: seq<Line>, r: Boot, b: seq<Line>)
    requires r.experiment || r.verdict == HostFail
    ensures CleanStreak(History(a + [Record(r)] + b)) == CleanStreak(History(a + b))
  {
    assert Filter(DescribesTree, [r]) == [] by { assert !DescribesTree(r) && [r][1..] == []; }
    OneLine(Record(r));
    hide *;
    LineBetween(a, Record(r), b);
    FilterConcat(DescribesTree, BootsOf(a), BootsOf(b));
    FilterConcat(DescribesTree, BootsOf(a) + [r], BootsOf(b));
    FilterConcat(DescribesTree, BootsOf(a), [r]);
    assert Filter(DescribesTree, BootsOf(a)) + [] == Filter(DescribesTree, BootsOf(a));
    AgreeOnTheTree(a + [Record(r)] + b, a + b);
  }

  lemma AgreeOnTheTree(lines: seq<Line>, other: seq<Line>)
    requires Filter(DescribesTree, BootsOf(lines)) == Filter(DescribesTree, BootsOf(other))
    ensures CleanStreak(History(lines)) == CleanStreak(History(other))
  {
    hide History, CleanStreak, DescribesTree, BootsOf;
    ForeignLinesChangeNothing(lines, other);
  }

  /** A line that is no record changes nothing at all. */
  lemma DamagedLineChangesNothing(a: seq<Line>, l: Line, b: seq<Line>)
    requires l in {Blank, Malformed, NotARecord}
    ensures History(a + [l] + b) == History(a + b)
  {
    OneLine(l);
    LineBetween(a, l, b);
    hide BootsOf;
    assert BootsOf(a) + [] == BootsOf(a);
  }

  lemma OneLine(l: Line)
    ensures BootsOf([l]) == if l.Record? then [l.boot] else []
  {
    assert [l][1..] == [];
  }

  lemma LineBetween(a: seq<Line>, l: Line, b: seq<Line>)
    ensures BootsOf(a + [l] + b) == BootsOf(a) + BootsOf([l]) + BootsOf(b) && BootsOf(a + b) == BootsOf(a) + BootsOf(b)
  {
    hide BootsOf;
    BootsOfConcat(a + [l], b);
    BootsOfConcat(a, [l]);
    BootsOfConcat(a, b);
  }

  lemma {:induction false} LastStaysLast(boots: seq<Boot>, x: Boot)
    requires forall y :: y in boots ==> Earlier(y, x)
    ensures Sort(boots + [x], Earlier) == Sort(boots, Earlier) + [x]
  {
    if boots == [] {
      assert [x][1..] == [] && boots + [x] == [x];
      assert Sort(boots, Earlier) + [x] == [x];
    } else {
      var first, rest := boots[0], boots[1..];
      assert (boots + [x])[0] == first && (boots + [x])[1..] == rest + [x];
      LastStaysLast(rest, x);
      hide Insert, Earlier;
      var sorted := Sort(rest, Earlier);
      assert sorted + [x] + [] == sorted + [x];
      InsertBeforeTail(first, sorted, x, []);
      assert Insert(first, sorted, Earlier) + [x] + [] == Insert(first, sorted, Earlier) + [x];
    }
  }

  lemma LatestComesLast(lines: seq<Line>, b: Boot)
    requires forall x :: x in BootsOf(lines) ==> Earlier(x, b)
    ensures History(lines + [Record(b)]) == History(lines) + [b]
  {
    BootsOfSnoc(lines, Record(b));
    hide BootsOf, Sort, Earlier;
    LastStaysLast(BootsOf(lines), b);
  }

  /** What one more boot of the tree does when it is the latest: a clean verdict adds one, a host
      failure nothing, and any other verdict ends the streak. */
  lemma LatestBootDecides(lines: seq<Line>, b: Boot)
    requires !b.experiment && forall x :: x in BootsOf(lines) ==> LexLe(SortKey(x.ts), SortKey(b.ts))
    ensures History(lines + [Record(b)]) == History(lines) + [b]
    ensures var before, after := CleanStreak(History(lines)), CleanStreak(History(lines + [Record(b)]));
      match b.verdict
      case Pass => after == before + 1
      case PassTooling => after == before + 1
      case BenchIncomplete => after == before + 1
      case HostFail => after == before
      case SelftestFail => after == 0
      case Panic => after == 0
      case Wedge => after == 0
      case Timeout => after == 0
      case NoBoot => after == 0
      case Unrecognised(_) => after == 0
  {
    assert forall x :: x in BootsOf(lines) ==> Earlier(x, b);
    LatestComesLast(lines, b);
    StreakSnoc(History(lines), b);
    hide History, CleanStreak;
  }

  // ----- one fingerprint's standing

  function Since(tree: seq<Boot>, fp: string): nat {
    if tree == [] || fp in tree[|tree| - 1].fingerprints then 0
    else 1 + Since(tree[..|tree| - 1], fp)
  }

  function Hits(tree: seq<Boot>, fp: string): nat {
    if tree == [] then 0
    else Hits(tree[..|tree| - 1], fp) + (if fp in tree[|tree| - 1].fingerprints then 1 else 0)
  }

  /** The latest boot with the fingerprint: the one just before the gap. */
  function LastHit(tree: seq<Boot>, fp: string): Option<Boot> {
    var n := Since(tree, fp);
    if n < |tree| then Some(tree[|tree| - n - 1]) else None
  }

  function LastSeen(tree: seq<Boot>, fp: string): string {
    match LastHit(tree, fp) case None => "" case Some(b) => Shown(b.ts)
  }

  function LastCommit(tree: seq<Boot>, fp: string): string {
    match LastHit(tree, fp) case None => "" case Some(b) => Shown(b.commit)
  }

  class Streak {
    const fp: string
    var recorded: nat
    var occurrences: nat
    var sinceLast: nat
    var lastSeen: string
    var lastCommit: string

    constructor (fp: string, recorded: nat)
      ensures this.fp == fp && this.recorded == recorded
      ensures occurrences == 0 && sinceLast == 0 && lastSeen == "" && lastCommit == ""
    {
      this.fp := fp;
      this.recorded := recorded;
      occurrences, sinceLast, lastSeen, lastCommit := 0, 0, "", "";
    }

    method Observe(rec: Boot)
      modifies this
      ensures recorded == old(recorded)
      ensures fp in rec.fingerprints ==>
        && occurrences == old(occurrences) + 1 && sinceLast == 0
        && lastSeen == Shown(rec.ts) && lastCommit == Shown(rec.commit)
      ensures fp !in rec.fingerprints ==>
        && occurrences == old(occurrences) && sinceLast == old(sinceLast) + 1
        && lastSeen == old(lastSeen) && lastCommit == old(lastCommit)
    {
      if fp in rec.fingerprints {
        occurrences := occurrences + 1;
        sinceLast := 0;
        lastSeen := Shown(rec.ts);
        lastCommit := Shown(rec.commit);
      } else {
        sinceLast := sinceLast + 1;
      }
    }
  }

  /** What one more boot does to a fingerprint's standing. */
  lemma StandingSnoc(tree: seq<Boot>, b: Boot, fp: string)
    ensures fp in b.fingerprints ==>
      && Hits(tree + [b], fp) == Hits(tree, fp) + 1 && Since(tree + [b], fp) == 0
      && LastSeen(tree + [b], fp) == Shown(b.ts) && LastCommit(tree + [b], fp) == Shown(b.commit)
    ensures fp !in b.fingerprints ==>
      && Hits(tree + [b], fp) == Hits(tree, fp) && Since(tree + [b], fp) == 1 + Since(tree, fp)
      && LastSeen(tree + [b], fp) == LastSeen(tree, fp) && LastCommit(tree + [b], fp) == LastCommit(tree, fp)
  {
    assert (tree + [b])[..|tree|] == tree;
    if fp !in b.fingerprints {
      assert LastHit(tree + [b], fp) == LastHit(tree, fp);
    }
    hide Shown;
  }

  /** The latest boot with the fingerprint is shown by its fields as they are: a false stamp or
      commit as its own text, only a missing one as nothing. */
  lemma LatestHitIsShown(tree: seq<Boot>, b: Boot, fp: string, text: string, truthy: bool)
    requires fp in b.fingerprints
    ensures b.ts == Missing ==> LastSeen(tree + [b], fp) == ""
    ensures b.ts == Text(text) || b.ts == Other(text, truthy) ==> LastSeen(tree + [b], fp) == text
    ensures b.commit == Missing ==> LastCommit(tree + [b], fp) == ""
    ensures b.commit == Text(text) || b.commit == Other(text, truthy) ==> LastCommit(tree + [b], fp) == text
  {
    StandingSnoc(tree, b, fp);
    hide LastSeen, LastCommit;
  }

  lemma NoStanding(fp: string)
    ensures Hits([], fp) == 0 && Since([], fp) == 0 && LastSeen([], fp) == "" && LastCommit([], fp) == ""
  {}

  method StreakFor(records: seq<Boot>, fp: string) returns (st: Streak)
    ensures fresh(st) && st.fp == fp
    ensures st.recorded == |TreeRecords(records)|
    ensures st.occurrences == Hits(TreeRecords(records), fp)
    ensures st.sinceLast == Since(TreeRecords(records), fp)
    ensures st.lastSeen == LastSeen(TreeRecords(records), fp)
    ensures st.lastCommit == LastCommit(TreeRecords(records), fp)
  {
    var tree := TreeRecords(records);
    st := new Streak(fp, |tree|);
    NoStanding(fp);
    hide Hits, Since, LastSeen, LastCommit, TreeRecords;
    assert tree[..0] == [];
    for i := 0 to |tree|
      invariant st.recorded == |tree|
      invariant st.occurrences == Hits(tree[..i], fp) && st.sinceLast == Since(tree[..i], fp)
      invariant st.lastSeen == LastSeen(tree[..i], fp) && st.lastCommit == LastCommit(tree[..i], fp)
    {
      StandingSnoc(tree[..i], tree[i], fp);
      assert tree[..i + 1] == tree[..i] + [tree[i]];
      st.Observe(tree[i]);
    }
    assert tree[..|tree|] == tree;
  }

  /** The two counts describe one history: the last `Since` boots are without the
      fingerprint, and the one before them, if there is any, had it. */
  lemma {:induction false} SinceIsTheLastGap(tree: seq<Boot>, fp: string)
    ensures var n := Since(tree, fp);
      && n <= |tree|
      && (forall i :: |tree| - n <= i < |tree| ==> fp !in tree[i].fingerprints)
      && (n < |tree| ==> fp in tree[|tree| - n - 1].fingerprints)
      && (n == |tree| <==> Hits(tree, fp) == 0)
  {
    if tree != [] && fp !in tree[|tree| - 1].fingerprints {
      var init := tree[..|tree| - 1];
      SinceIsTheLastGap(init, fp);
      var n := Since(init, fp);
      assert n < |init| ==> tree[|tree| - (n + 1) - 1] == init[|init| - n - 1];
    }
  }

  // ----- the verdict of one boot

  /** What the serial log shows; `markerIsBootOk` says the awaited marker is BOOT_OK. */
  datatype Serial = Serial(markerOk: bool, bootOk: bool, markerIsBootOk: bool, died: bool)

  function VerdictFromEvidence(serial: Option<Serial>, exitCode: int): Verdict {
    match serial
    case None => NoBoot
    case Some(s) =>
      if s.markerOk then
        if exitCode == 0 then Pass else if exitCode == 3 then PassTooling else SelftestFail
      else if s.bootOk && !s.markerIsBootOk then BenchIncomplete
      else if s.died then Panic
      else if exitCode == 2 then Wedge
      else Timeout
  }

  predicate HarnessAborted(exitCode: int) { exitCode == 126 || exitCode == 127 }

  function Classify(serial: Option<Serial>, exitCode: int, hostFailed: bool): Verdict {
    var verdict := VerdictFromEvidence(serial, exitCode);
    if IsClean(verdict) || verdict == NoBoot then verdict
    else if hostFailed then HostFail
    else if HarnessAborted(exitCode) && verdict != Panic then HostFail
    else verdict
  }

  /** Every verdict by what the serial log, the exit code and the host showed. */
  lemma VerdictTable(serial: Option<Serial>, exitCode: int, hostFailed: bool)
    ensures var v := Classify(serial, exitCode, hostFailed);
      && (v == NoBoot <==> serial.None?)
      && (v == Pass <==> serial.Some? && serial.value.markerOk && exitCode == 0)
      && (v == PassTooling <==> serial.Some? && serial.value.markerOk && exitCode == 3)
      && (v == BenchIncomplete <==>
            serial.Some? && !serial.value.markerOk && serial.value.bootOk && !serial.value.markerIsBootOk)
      && (v == SelftestFail <==>
            serial.Some? && serial.value.markerOk && exitCode !in {0, 3, 126, 127} && !hostFailed)
      && (v == Panic <==>
            serial.Some? && !serial.value.markerOk && (!serial.value.bootOk || serial.value.markerIsBootOk)
            && serial.value.died && !hostFailed)
      && (v == Wedge <==>
            serial.Some? && !serial.value.markerOk && (!serial.value.bootOk || serial.value.markerIsBootOk)
            && !serial.value.died && exitCode == 2 && !hostFailed)
      && (v == Timeout <==>
            serial.Some? && !serial.value.markerOk && (!serial.value.bootOk || serial.value.markerIsBootOk)
            && !serial.value.died && exitCode !in {2, 126, 127} && !hostFailed)
      && (v == HostFail <==>
            && serial.Some? && v !in {Pass, PassTooling, BenchIncomplete}
            && (hostFailed || (exitCode in {126, 127} && (serial.value.markerOk || !serial.value.died))))
  {}

  /** One boot's facts, as they stood when it was judged. */
  datatype Facts = Facts(serial: Option<Serial>, exitCode: int, hostFailed: bool,
                         ts: Field, commit: Field, experiment: bool)

  function Judged(f: Facts): Boot {
    Boot(f.ts, f.commit, Classify(f.serial, f.exitCode, f.hostFailed), f.experiment, {})
  }

  function AtFaceValue(f: Facts): Boot {
    Boot(f.ts, f.commit, VerdictFromEvidence(f.serial, f.exitCode), f.experiment, {})
  }

  /** One boot, judged with and without the host's own evidence. */
  lemma BlameMovesOneWay(f: Facts)
    ensures CleanTree(Judged(f)) <==> CleanTree(AtFaceValue(f))
    ensures DirtyTree(Judged(f)) ==> DirtyTree(AtFaceValue(f))
    ensures !f.hostFailed && !HarnessAborted(f.exitCode) ==> Judged(f) == AtFaceValue(f)
    ensures f.serial.Some? && f.serial.value.died && !f.serial.value.markerOk
            && !(f.serial.value.bootOk && !f.serial.value.markerIsBootOk) && !f.hostFailed
            ==> Judged(f).verdict == Panic
    ensures Judged(f).ts == AtFaceValue(f).ts == f.ts && Judged(f).commit == AtFaceValue(f).commit == f.commit
    ensures Judged(f).experiment == AtFaceValue(f).experiment == f.experiment
  {}

  lemma StreakSnoc(boots: seq<Boot>, b: Boot)
    ensures CleanStreak(boots + [b])
            == if CleanTree(b) then 1 + CleanStreak(boots)
               else if DirtyTree(b) then 0 else CleanStreak(boots)
  {
    assert (boots + [b])[..|boots|] == boots;
  }

  lemma {:induction false} MapSnoc(f: Facts -> Boot, init: seq<Facts>, last: Facts)
    ensures Map(f, init + [last]) == Map(f, init) + [f(last)]
  {}

  /** Blaming the host only ever takes failures away from the tree: over any history it
      leaves the number of clean boots as it was, never shortens the streak, and leaves
      it alone where no host failed. */
  lemma {:induction false} HostBlameNeverMakesACleanBoot(history: seq<Facts>)
    ensures Matching(CleanTree, Map(Judged, history)) == Matching(CleanTree, Map(AtFaceValue, history))
    ensures CleanStreak(Map(Judged, history)) >= CleanStreak(Map(AtFaceValue, history))
    ensures (forall f :: f in history ==> !f.hostFailed && !HarnessAborted(f.exitCode)) ==>
      CleanStreak(Map(Judged, history)) == CleanStreak(Map(AtFaceValue, history))
  {
    if history != [] {
      var init, last := history[..|history| - 1], history[|history| - 1];
      assert history == init + [last] && last in history;
      HostBlameNeverMakesACleanBoot(init);
      MapSnoc(Judged, init, last);
      MapSnoc(AtFaceValue, init, last);
      BlameMovesOneWay(last);
      hide *;
      OneMoreVerdict(Map(Judged, init), Map(AtFaceValue, init), Judged(last), AtFaceValue(last));
    }
  }

  lemma OneMoreVerdict(judged: seq<Boot>, raw: seq<Boot>, j: Boot, r: Boot)
    requires CleanTree(j) <==> CleanTree(r)
    requires DirtyTree(j) ==> DirtyTree(r)
    requires Matching(CleanTree, judged) == Matching(CleanTree, raw) && CleanStreak(judged) >= CleanStreak(raw)
    ensures Matching(CleanTree, judged + [j]) == Matching(CleanTree, raw + [r])
    ensures CleanStreak(judged + [j]) >= CleanStreak(raw + [r])
    ensures j == r && CleanStreak(judged) == CleanStreak(raw) ==>
      CleanStreak(judged + [j]) == CleanStreak(raw + [r])
  {
    hide CleanTree, DirtyTree, Matching, CleanStreak;
    MatchingConcat(CleanTree, judged, [j]);
    MatchingConcat(CleanTree, raw, [r]);
    MatchingOne(CleanTree, j);
    MatchingOne(CleanTree, r);
    StreakSnoc(judged, j);
    StreakSnoc(raw, r);
  }
}
