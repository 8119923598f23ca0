/** Boots whose stamp is missing, null or no string: where the history puts them, and when
    they can move the streak (scripts/boot-history.py, `load_history`). */
module BootStamps {
  import opened Order
  import opened BootLedger

  /** A stamp as the recorder writes it: a string, and not the empty one. */
  predicate Genuine(b: Boot) { b.ts.Text? && b.ts.s != "" }

  /** Sorts strictly before, whatever the order in the file. */
  predicate StrictlyBefore(a: Boot, b: Boot) {
    LexLe(SortKey(a.ts), SortKey(b.ts)) && SortKey(a.ts) != SortKey(b.ts)
  }

  /** Files with the same records, in any order. */
  ghost predicate SameRecords(lines: seq<Line>, boots: seq<Boot>) {
    multiset(BootsOf(lines)) == multiset(boots)
  }

  lemma HistoryFacts(lines: seq<Line>, boots: seq<Boot>)
    requires SameRecords(lines, boots)
    ensures Sorted(History(lines), Earlier) && |History(lines)| == |boots|
    ensures forall b :: b in History(lines) <==> b in boots
  {
    HistoryIsStable(lines);
    hide History, BootsOf, Sorted;
    MembersAgree(History(lines), boots);
  }

  /** In order, a later place means no smaller stamp. */
  lemma PlaceFollowsStamp(records: seq<Boot>, i: nat, j: nat)
    requires Sorted(records, Earlier) && i < |records| && j < |records| && StrictlyBefore(records[i], records[j])
    ensures i < j
  {
    if j < i {
      assert Earlier(records[j], records[i]);
      LexAntisymmetric(SortKey(records[i].ts), SortKey(records[j].ts));
    }
  }

  // ----- no stamp at all

  /** A record without a usable stamp -- missing, blank, null, zero or false -- comes before
      every record with one. */
  lemma UnstampedComeFirst(lines: seq<Line>, i: nat, j: nat)
    requires i < |History(lines)| && j < |History(lines)|
    requires var d := History(lines)[i].ts; d == Missing || d == Field.Text("") || (d.Other? && !d.truthy)
    requires var g := History(lines)[j].ts; (g.Text? && g.s != "") || (g.Other? && g.truthy && g.shown != "")
    ensures i < j
  {
    HistoryIsStable(lines);
    PlaceFollowsStamp(History(lines), i, j);
  }

  /** Records with a stamp follow the text it reads as, a string or anything true alike. */
  lemma StampedFollowTheText(lines: seq<Line>, i: nat, j: nat, s: string, t: string)
    requires i < j < |History(lines)|
    requires History(lines)[i].ts in {Field.Text(s), Other(s, true)}
    requires History(lines)[j].ts in {Field.Text(t), Other(t, true)}
    ensures LexLe(s, t)
  {
    HistoryIsStable(lines);
    hide History, LexLe;
    assert Earlier(History(lines)[i], History(lines)[j]);
  }

  // ----- any damaged stamp

  /** Filed last, a record comes after every record stamped no later. */
  lemma FiledLast(boots: seq<Boot>, d: Boot) returns (lines: seq<Line>, at: nat)
    requires d in boots
    ensures SameRecords(lines, boots) && at < |History(lines)| && History(lines)[at] == d
    ensures forall j :: at < j < |History(lines)| ==> !Earlier(History(lines)[j], d)
  {
    var rest := Without(boots, d);
    WithoutMultiset(boots, d);
    lines := AsLines(rest + [d]);
    AsLinesBoots(rest + [d]);
    var low, high := LastLineComesLast(rest, d);
    at := |low|;
    hide Without, AsLines, BootsOf, Sort, Earlier;
    var h := low + [d] + high;
    assert History(lines) == h;
    forall j | at < j < |h| ensures !Earlier(h[j], d) {
      assert h[j] == high[j - at - 1] && h[j] in high;
    }
  }

  /** `d` comes before every record with a genuine stamp. */
  ghost predicate ComesEarly(records: seq<Boot>, d: Boot) {
    forall i, j :: 0 <= i < |records| && 0 <= j < |records| && records[i] == d && Genuine(records[j]) ==> i < j
  }

  /** Whatever the order of lines, a record with a damaged stamp comes before every genuine one
      exactly when what its stamp reads as sorts before all of theirs. */
  lemma DamagedSortsEarlyIff(boots: seq<Boot>, d: Boot)
    requires d in boots && !Genuine(d)
    ensures (forall lines :: SameRecords(lines, boots) ==> ComesEarly(History(lines), d))
            <==> forall g :: g in boots && Genuine(g) ==> StrictlyBefore(d, g)
  {
    hide History, BootsOf, SameRecords, Genuine, Earlier;
    if forall g :: g in boots && Genuine(g) ==> StrictlyBefore(d, g) {
      forall lines | SameRecords(lines, boots) ensures ComesEarly(History(lines), d) {
        HistoryFacts(lines, boots);
        var h := History(lines);
        forall i, j | 0 <= i < |h| && 0 <= j < |h| && h[i] == d && Genuine(h[j]) ensures i < j {
          assert h[j] in h;
          PlaceFollowsStamp(h, i, j);
        }
      }
    } else {
      var g :| g in boots && Genuine(g) && !StrictlyBefore(d, g);
      var lines, i := FiledLast(boots, d);
      HistoryFacts(lines, boots);
      assert g in History(lines);
      var j :| 0 <= j < |History(lines)| && History(lines)[j] == g;
      NotBefore(g, d);
      assert !ComesEarly(History(lines), d);
    }
  }

  lemma NotBefore(g: Boot, d: Boot)
    requires !StrictlyBefore(d, g)
    ensures Earlier(g, d)
  {
    LexTotal(SortKey(g.ts), SortKey(d.ts));
  }

  /** The latest of the damaged stamps. */
  lemma {:induction false} LatestDamaged(boots: seq<Boot>) returns (d: Boot)
    requires exists b :: b in boots && !Genuine(b)
    ensures d in boots && !Genuine(d)
    ensures forall b :: b in boots && !Genuine(b) ==> Earlier(b, d)
  {
    EarlierIsOrder();
    hide Genuine, Earlier;
    var first, rest := boots[0], boots[1..];
    assert boots == [first] + rest;
    if exists b :: b in rest && !Genuine(b) {
      d := LatestDamaged(rest);
      if !Genuine(first) && Earlier(d, first) {
        d := first;
      }
    } else {
      d := first;
    }
  }

  /** Some genuine stamp is later than every damaged one. */
  ghost predicate GenuineIsLatest(boots: seq<Boot>) {
    exists g :: g in boots && Genuine(g) && forall d :: d in boots && !Genuine(d) ==> StrictlyBefore(d, g)
  }

  /** No order of lines lets a damaged stamp displace the latest record from the end exactly
      when some genuine stamp is later than all of the damaged ones. */
  lemma LatestIsGenuineIff(boots: seq<Boot>)
    requires boots != []
    ensures (forall lines :: SameRecords(lines, boots) && History(lines) != [] ==>
               Genuine(History(lines)[|History(lines)| - 1]))
            <==> GenuineIsLatest(boots)
  {
    hide History, BootsOf, SameRecords, Genuine, Earlier;
    if GenuineIsLatest(boots) {
      forall lines | SameRecords(lines, boots) && History(lines) != []
        ensures Genuine(History(lines)[|History(lines)| - 1])
      {
        HistoryFacts(lines, boots);
        GenuineAtTheEnd(History(lines), boots);
      }
    } else {
      var lines := DamagedIsLatest(boots);
    }
  }

  lemma GenuineAtTheEnd(records: seq<Boot>, boots: seq<Boot>)
    requires Sorted(records, Earlier) && records != [] && (forall b :: b in records <==> b in boots)
    requires GenuineIsLatest(boots)
    ensures Genuine(records[|records| - 1])
  {
    hide Earlier, Genuine;
    var g :| g in boots && Genuine(g) && forall d :: d in boots && !Genuine(d) ==> StrictlyBefore(d, g);
    hide StrictlyBefore;
    assert g in records;
    var i :| 0 <= i < |records| && records[i] == g;
    var last := records[|records| - 1];
    assert last in boots;
    if StrictlyBefore(last, g) {
      PlaceFollowsStamp(records, |records| - 1, i);
      assert false;
    }
  }

  lemma DamagedIsLatest(boots: seq<Boot>) returns (lines: seq<Line>)
    requires boots != [] && !GenuineIsLatest(boots)
    ensures SameRecords(lines, boots) && History(lines) != []
    ensures !Genuine(History(lines)[|History(lines)| - 1])
  {
    hide History, SameRecords, Genuine;
    DamagedExists(boots);
    var d := LatestDamaged(boots);
    var at: nat;
    lines, at := FiledLast(boots, d);
    HistoryFacts(lines, boots);
    var h := History(lines);
    forall b | b in boots ensures Earlier(b, d) {
      NothingBeats(boots, d, b);
    }
    hide Earlier;
    assert h[|h| - 1] in boots by { assert h[|h| - 1] in h; }
    assert at == |h| - 1;
  }

  lemma DamagedExists(boots: seq<Boot>)
    requires boots != [] && !GenuineIsLatest(boots)
    ensures exists b :: b in boots && !Genuine(b)
  {
    hide Genuine, StrictlyBefore;
    assert boots[0] in boots;
  }

  lemma NothingBeats(boots: seq<Boot>, d: Boot, b: Boot)
    requires !GenuineIsLatest(boots) && b in boots
    requires forall x :: x in boots && !Genuine(x) ==> Earlier(x, d)
    ensures Earlier(b, d)
  {
    hide Genuine;
    if Genuine(b) {
      var x :| x in boots && !Genuine(x) && !StrictlyBefore(x, b);
      NotBefore(b, x);
      LexTransitive(SortKey(b.ts), SortKey(x.ts), SortKey(d.ts));
    }
  }

  // ----- the streak

  predicate NotStampedBefore(key: string, b: Boot) { LexLe(key, SortKey(b.ts)) }

  function FromKey(key: string): Boot -> bool { (b: Boot) => NotStampedBefore(key, b) }

  /** In sorted order the records from a stamp on are the end of the history. */
  lemma {:induction false} FromKeyIsSuffix(records: seq<Boot>, key: string) returns (low: seq<Boot>)
    requires Sorted(records, Earlier)
    ensures records == low + Filter(FromKey(key), records)
  {
    hide Filter;
    if records == [] {
      low := [];
      FilterMembers(FromKey(key), records);
    } else {
      var first, rest := records[0], records[1..];
      assert records == [first] + rest;
      FilterCons(FromKey(key), first, rest);
      SortedTail(records, Earlier);
      low := FromKeyIsSuffix(rest, key);
      if NotStampedBefore(key, first) {
        AllFromKey(records, key);
        low := [];
      } else {
        low := [first] + low;
      }
    }
  }

  lemma AllFromKey(records: seq<Boot>, key: string)
    requires Sorted(records, Earlier) && records != [] && NotStampedBefore(key, records[0])
    ensures Filter(FromKey(key), records) == records
  {
    LexTotal(SortKey(records[0].ts), SortKey(records[0].ts));
    forall b | b in records ensures FromKey(key)(b) {
      EarlierChains(records[0], records, b);
      LexTransitive(key, SortKey(records[0].ts), SortKey(b.ts));
    }
    FilterAll(FromKey(key), records);
  }

  lemma {:induction false} StreakFromAFailure(low: seq<Boot>, high: seq<Boot>)
    requires exists b :: b in high && DirtyTree(b)
    ensures CleanStreak(low + high) == CleanStreak(high)
  {
    var init, last := high[..|high| - 1], high[|high| - 1];
    assert high == init + [last];
    assert low + high == (low + init) + [last];
    StreakSnoc(low + init, last);
    StreakSnoc(init, last);
    hide CleanStreak;
    if !DirtyTree(last) {
      StreakFromAFailure(low, init);
    }
  }

  lemma StreakFromKey(lines: seq<Line>, d: Boot)
    requires d in BootsOf(lines) && DirtyTree(d)
    ensures CleanStreak(History(lines))
            == CleanStreak(Sort(Filter(FromKey(SortKey(d.ts)), BootsOf(lines)), Earlier))
  {
    var from := FromKey(SortKey(d.ts));
    LexTotal(SortKey(d.ts), SortKey(d.ts));
    FilterMembers(from, History(lines));
    HistoryIsStable(lines);
    MembersAgree(History(lines), BootsOf(lines));
    FilterSort(from, BootsOf(lines));
    var low := FromKeyIsSuffix(History(lines), SortKey(d.ts));
    assert d in Filter(from, History(lines));
    hide CleanStreak, Filter, BootsOf, Sort, DirtyTree, Earlier;
    StreakFromAFailure(low, Filter(from, History(lines)));
  }

  /** The streak reads nothing stamped before a failure: files that agree on what is stamped
      no earlier publish the same one. */
  lemma OnlyLaterRecordsMoveTheStreak(lines: seq<Line>, other: seq<Line>, d: Boot)
    requires d in BootsOf(lines) && d in BootsOf(other) && DirtyTree(d)
    requires Filter(FromKey(SortKey(d.ts)), BootsOf(lines)) == Filter(FromKey(SortKey(d.ts)), BootsOf(other))
    ensures CleanStreak(History(lines)) == CleanStreak(History(other))
  {
    hide *;
    StreakFromKey(lines, d);
    StreakFromKey(other, d);
  }

  /** A record stamped before some failure never moves the streak, wherever its line stands:
      one without a stamp never does once a failure has one. */
  lemma OlderRecordNeverMovesTheStreak(a: seq<Line>, b: seq<Line>, x: Boot, d: Boot)
    requires d in BootsOf(a + b) && DirtyTree(d) && StrictlyBefore(x, d)
    ensures CleanStreak(History(a + [Record(x)] + b)) == CleanStreak(History(a + b))
  {
    var from := FromKey(SortKey(d.ts));
    var lines, other := a + b, a + [Record(x)] + b;
    assert !from(x) by {
      if from(x) { LexAntisymmetric(SortKey(x.ts), SortKey(d.ts)); }
    }
    assert BootsOf([Record(x)]) == [x] by { assert [Record(x)][1..] == []; }
    assert Filter(from, [x]) == [] by { assert [x][1..] == []; }
    hide *;
    BootsOfConcat(a, b);
    BootsOfConcat(a + [Record(x)], b);
    BootsOfConcat(a, [Record(x)]);
    FilterConcat(from, BootsOf(a), BootsOf(b));
    FilterConcat(from, BootsOf(a) + [x], BootsOf(b));
    FilterConcat(from, BootsOf(a), [x]);
    assert Filter(from, BootsOf(a)) + [] == Filter(from, BootsOf(a));
    assert d in BootsOf(other);
    OnlyLaterRecordsMoveTheStreak(lines, other, d);
  }

  /** A panic stamped with the number 3 comes after a clean boot of 2026, though its line comes
      first: the streak is lost, which it is not when the stamp is null. */
  lemma NumberStampComesLast() returns (panic: Boot, pass: Boot)
    ensures panic.ts == Other("3", true) && !Genuine(panic) && pass.ts == Field.Text("2026-09-01") && Genuine(pass)
    ensures History([Record(panic), Record(pass)]) == [pass, panic]
    ensures CleanStreak(History([Record(panic), Record(pass)])) == 0
    ensures CleanStreak(History([Record(panic.(ts := Other("None", false))), Record(pass)])) == 1
  {
    panic := Boot(Other("3", true), Missing, Panic, false, {});
    pass := Boot(Field.Text("2026-09-01"), Missing, Pass, false, {});
    var nameless := panic.(ts := Other("None", false));
    assert Earlier(pass, panic) && !Earlier(panic, pass) && Earlier(nameless, pass);
    TwoBootStreak(pass, panic);
    TwoBootStreak(nameless, pass);
    hide *;
    TwoBootsSwapped(panic, pass);
    TwoBoots(nameless, pass);
  }

  lemma TwoBootsSwapped(first: Boot, second: Boot)
    requires !Earlier(first, second)
    ensures History([Record(first), Record(second)]) == [second, first]
  {
    hide Earlier;
    assert BootsOf([Record(second)]) == [second] by { assert [Record(second)][1..] == []; }
    assert BootsOf([Record(first), Record(second)]) == [first, second] by {
      assert [Record(first), Record(second)][1..] == [Record(second)];
    }
    assert [first, second][1..] == [second] && [second][1..] == [];
    assert Sort([second], Earlier) == [second];
    assert Insert(first, [], Earlier) == [first];
  }
}
