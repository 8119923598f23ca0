/** The rename ledger: where a benchmark's series continues, and which disappearances it
    excuses (scripts/bench-history.py). */
module Renames {
  import opened Wrappers
  import opened Order

  type Ledger = map<string, string>

  /** The name `k` steps along the chain, while the chain lasts. */
  ghost function Step(name: string, renames: Ledger, k: nat): string
    decreases k
  {
    if k == 0 then name
    else
      var before := Step(name, renames, k - 1);
      if before in renames then renames[before] else before
  }

  /** The chain of `name` stops at `end` after `k` renames. */
  ghost predicate EndsAfter(name: string, renames: Ledger, k: nat, end: string) {
    && Step(name, renames, k) == end
    && end !in renames
    && forall i :: 0 <= i < k ==> Step(name, renames, i) in renames
  }

  ghost predicate Ends(name: string, renames: Ledger, end: string) {
    exists k :: EndsAfter(name, renames, k, end)
  }

  ghost predicate Loops(name: string, renames: Ledger) {
    forall k: nat :: Step(name, renames, k) in renames
  }

  lemma {:induction false} StepsCompose(name: string, renames: Ledger, a: nat, b: nat)
    ensures Step(name, renames, a + b) == Step(Step(name, renames, a), renames, b)
    decreases b
  {
    if b > 0 {
      StepsCompose(name, renames, a, b - 1);
    }
  }

  lemma {:induction false} StuckAtEnd(name: string, renames: Ledger, k: nat, end: string, more: nat)
    requires EndsAfter(name, renames, k, end)
    ensures Step(name, renames, k + more) == end
    decreases more
  {
    if more > 0 {
      StuckAtEnd(name, renames, k, end, more - 1);
    }
  }

  /** A chain has at most one end, and then it does not loop. */
  lemma EndIsUnique(name: string, renames: Ledger, end: string)
    requires Ends(name, renames, end)
    ensures !Loops(name, renames)
    ensures forall other :: Ends(name, renames, other) ==> other == end
  {
    var k: nat :| EndsAfter(name, renames, k, end);
    forall other | Ends(name, renames, other) ensures other == end {
      var m: nat :| EndsAfter(name, renames, m, other);
      if m < k {
        assert Step(name, renames, m) in renames;
      } else {
        StuckAtEnd(name, renames, k, end, m - k);
      }
    }
    assert Step(name, renames, k) !in renames;
  }

  /** Once a chain meets a name again it goes round for ever. */
  lemma RepeatMeansLoop(name: string, renames: Ledger, i: nat, j: nat)
    requires i < j && Step(name, renames, i) == Step(name, renames, j)
    requires forall m: nat :: m < j ==> Step(name, renames, m) in renames
    ensures Loops(name, renames)
  {
    forall k: nat ensures Step(name, renames, k) in renames {
      StaysInside(name, renames, i, j, k);
    }
  }

  lemma {:induction false} StaysInside(name: string, renames: Ledger, i: nat, j: nat, k: nat)
    requires i < j && Step(name, renames, i) == Step(name, renames, j)
    requires forall m: nat :: m < j ==> Step(name, renames, m) in renames
    ensures Step(name, renames, k) in renames
    decreases k
  {
    if k >= j {
      StaysInside(name, renames, i, j, k - j + i);
      StepsCompose(name, renames, j, k - j);
      StepsCompose(name, renames, i, k - j);
      assert i + (k - j) == k - j + i && j + (k - j) == k;
    }
  }

  /** The names met in `k` steps, with the place each was met. */
  ghost predicate Visited(seen: set<string>, name: string, renames: Ledger, k: nat) {
    && (forall i: nat :: i <= k ==> Step(name, renames, i) in seen)
    && (forall s :: s in seen ==> exists i: nat :: i <= k && Step(name, renames, i) == s)
  }

  method ResolveRename(start: string, renames: Ledger) returns (result: Option<string>)
    ensures result.None? <==> Loops(start, renames)
    ensures forall end :: result == Some(end) <==> Ends(start, renames, end)
  {
    var seen := {start};
    var name := start;
    ghost var k: nat := 0;
    while name in renames
      invariant name == Step(start, renames, k)
      invariant forall i: nat :: i < k ==> Step(start, renames, i) in renames
      invariant Visited(seen, start, renames, k)
      invariant forall s :: s in seen && s != name ==> s in renames
      decreases renames.Keys - seen, if name in renames then 1 else 0
    {
      var next := renames[name];
      assert next == Step(start, renames, k + 1);
      if next in seen {
        ghost var i: nat :| i <= k && Step(start, renames, i) == next;
        RepeatMeansLoop(start, renames, i, k + 1);
        forall end ensures !Ends(start, renames, end) {
          if Ends(start, renames, end) { EndIsUnique(start, renames, end); }
        }
        return None;
      }
      ghost var was := seen;
      seen := seen + {next};
      forall s | s in seen ensures exists i: nat :: i <= k + 1 && Step(start, renames, i) == s {
        if s in was {
          var i: nat :| i <= k && Step(start, renames, i) == s;
          assert i <= k + 1;
        } else {
          assert Step(start, renames, k + 1) == s;
        }
      }
      name := next;
      k := k + 1;
    }
    assert EndsAfter(start, renames, k, name);
    EndIsUnique(start, renames, name);
    result := Some(name);
  }

  /** What `ResolveRename` returns, as a value. */
  ghost function Resolve(name: string, renames: Ledger): (r: Option<string>)
    ensures r.None? ==> forall end :: !Ends(name, renames, end)
    ensures forall end :: r == Some(end) <==> Ends(name, renames, end)
  {
    if end :| Ends(name, renames, end) then
      EndIsUnique(name, renames, end);
      Some(end)
    else None
  }

  /** A name is its own end exactly when it has no entry. */
  lemma OwnEndMeansNoEntry(name: string, renames: Ledger)
    ensures Resolve(name, renames) == Some(name) <==> name !in renames
  {
    if name !in renames {
      assert EndsAfter(name, renames, 0, name);
    }
  }

  // ----- a later rename keeps the earlier entries true

  lemma {:induction false} StepsAgree(name: string, renames: Ledger, wider: Ledger, k: nat)
    requires forall n :: n in renames ==> n in wider && wider[n] == renames[n]
    requires forall i: nat :: i < k ==> Step(name, renames, i) in renames
    ensures Step(name, wider, k) == Step(name, renames, k)
    decreases k
  {
    if k > 0 {
      StepsAgree(name, renames, wider, k - 1);
    }
  }

  /** Renaming the end of a chain onward carries every name of the chain to the new end,
      or, if that closes a circle, resolves none of them. */
  lemma RenamingOnward(name: string, renames: Ledger, end: string, next: string)
    requires Ends(name, renames, end)
    ensures Resolve(name, renames[end := next]) == Resolve(next, renames[end := next])
  {
    var wider := renames[end := next];
    var k: nat :| EndsAfter(name, renames, k, end);
    forall i: nat | i <= k ensures Step(name, wider, i) == Step(name, renames, i) {
      StepsAgree(name, renames, wider, i);
    }
    assert Step(name, wider, k + 1) == next;
    forall last ensures Ends(name, wider, last) <==> Ends(next, wider, last) {
      SameEnds(name, wider, k + 1, next, last);
    }
  }

  lemma SameEnds(name: string, renames: Ledger, k: nat, mid: string, last: string)
    requires Step(name, renames, k) == mid
    requires forall i: nat :: i < k ==> Step(name, renames, i) in renames
    ensures Ends(name, renames, last) <==> Ends(mid, renames, last)
  {
    if Ends(name, renames, last) {
      var m: nat :| EndsAfter(name, renames, m, last);
      assert m < k ==> Step(name, renames, m) in renames;
      forall i: nat | i <= m - k ensures Step(mid, renames, i) == Step(name, renames, k + i) {
        StepsCompose(name, renames, k, i);
      }
      assert EndsAfter(mid, renames, m - k, last);
    }
    if Ends(mid, renames, last) {
      var m: nat :| EndsAfter(mid, renames, m, last);
      forall i: nat | i <= m ensures Step(name, renames, k + i) == Step(mid, renames, i) {
        StepsCompose(name, renames, k, i);
      }
      forall i | 0 <= i < k + m ensures Step(name, renames, i) in renames {
        if i >= k { assert Step(mid, renames, i - k) in renames; assert i == k + (i - k); }
      }
      assert EndsAfter(name, renames, k + m, last);
    }
  }

  // ----- vanished benchmarks

  datatype Loss = Excused | Undeclared | Misdeclared(successor: Option<string>)

  /** Excused only on positive evidence: still declared, or continued in this very run. */
  ghost function LossOf(name: string, current: set<string>, renames: Ledger, declared: set<string>): Loss {
    if name in declared then Excused
    else if name !in renames then Undeclared
    else match Resolve(name, renames)
      case None => Misdeclared(None)
      case Some(end) => if end in current then Excused else Misdeclared(Some(end))
  }

  lemma LossUnfold(name: string, current: set<string>, renames: Ledger, declared: set<string>)
    ensures LossOf(name, current, renames, declared) ==
      (if name in declared then Excused
       else match Resolve(name, renames)
         case None => Misdeclared(None)
         case Some(end) =>
           if end == name then Undeclared
           else if end in current then Excused else Misdeclared(Some(end)))
  {
    OwnEndMeansNoEntry(name, renames);
    hide Resolve;
  }

  /** The fault of a name that is not declared, by the ledger's chain: none without an entry is
      excused, and one with an entry is excused or not by where its chain ends. */
  lemma LossMeans(name: string, current: set<string>, renames: Ledger, declared: set<string>, end: string)
    requires name !in declared
    ensures LossOf(name, current, renames, declared) == Undeclared <==> name !in renames
    ensures name in renames && Ends(name, renames, end) ==>
      LossOf(name, current, renames, declared) == if end in current then Excused else Misdeclared(Some(end))
    ensures name in renames && (forall e :: !Ends(name, renames, e)) ==>
      LossOf(name, current, renames, declared) == Misdeclared(None)
  {
    if Ends(name, renames, end) {
      EndIsUnique(name, renames, end);
    }
  }

  /** The names that nothing accounts for, in order. */
  ghost function UndeclaredIn(names: seq<string>, current: set<string>, renames: Ledger,
                              declared: set<string>): seq<string>
  {
    if names == [] then []
    else
      (if LossOf(names[0], current, renames, declared).Undeclared? then [names[0]] else [])
      + UndeclaredIn(names[1..], current, renames, declared)
  }

  /** The names whose entry leads nowhere that is measured, with where it leads. */
  ghost function MisdeclaredIn(names: seq<string>, current: set<string>, renames: Ledger,
                               declared: set<string>): seq<(string, Option<string>)>
  {
    if names == [] then []
    else
      var loss := LossOf(names[0], current, renames, declared);
      (if loss.Misdeclared? then [(names[0], loss.successor)] else [])
      + MisdeclaredIn(names[1..], current, renames, declared)
  }

  lemma {:induction false} LossesSnoc(names: seq<string>, last: string, current: set<string>, renames: Ledger,
                                      declared: set<string>)
    ensures UndeclaredIn([], current, renames, declared) == []
    ensures MisdeclaredIn([], current, renames, declared) == []
    ensures UndeclaredIn(names + [last], current, renames, declared)
            == UndeclaredIn(names, current, renames, declared)
               + (if LossOf(last, current, renames, declared).Undeclared? then [last] else [])
    ensures var loss := LossOf(last, current, renames, declared);
            MisdeclaredIn(names + [last], current, renames, declared)
            == MisdeclaredIn(names, current, renames, declared)
               + (if loss.Misdeclared? then [(last, loss.successor)] else [])
  {
    hide LossOf;
    if names == [] {
      assert names + [last] == [last];
    } else {
      assert (names + [last])[0] == names[0] && (names + [last])[1..] == names[1..] + [last];
      LossesSnoc(names[1..], last, current, renames, declared);
      var first, loss := LossOf(names[0], current, renames, declared), LossOf(last, current, renames, declared);
      Regroup(if first.Undeclared? then [names[0]] else [], UndeclaredIn(names[1..], current, renames, declared),
              if loss.Undeclared? then [last] else []);
      Regroup(if first.Misdeclared? then [(names[0], first.successor)] else [],
              MisdeclaredIn(names[1..], current, renames, declared),
              if loss.Misdeclared? then [(last, loss.successor)] else []);
    }
  }

  method UnexplainedRemovals(removed: set<string>, current: set<string>, renames: Ledger,
                             declared: set<string>)
    returns (undeclared: seq<string>, misdeclared: seq<(string, Option<string>)>)
    ensures undeclared == UndeclaredIn(Names(removed), current, renames, declared)
    ensures misdeclared == MisdeclaredIn(Names(removed), current, renames, declared)
  {
    hide *;
    var names := Names(removed);
    LossesSnoc([], "", current, renames, declared);
    undeclared, misdeclared := [], [];
    for i := 0 to |names|
      invariant undeclared == UndeclaredIn(names[..i], current, renames, declared)
      invariant misdeclared == MisdeclaredIn(names[..i], current, renames, declared)
    {
      var name := names[i];
      assert names[..i + 1] == names[..i] + [name];
      LossesSnoc(names[..i], name, current, renames, declared);
      LossUnfold(name, current, renames, declared);
      if name in declared {
        continue;
      }
      var successor := ResolveRename(name, renames);
      SameAsResolve(name, renames, successor);
      if successor == Some(name) {
        undeclared := undeclared + [name];
      } else if successor.None? || successor.value !in current {
        misdeclared := misdeclared + [(name, successor)];
      }
    }
    assert names[..|names|] == names;
  }

  lemma SameAsResolve(name: string, renames: Ledger, r: Option<string>)
    requires forall end :: r == Some(end) <==> Ends(name, renames, end)
    ensures r == Resolve(name, renames)
  {
    var q := Resolve(name, renames);
    if r.Some? { assert Ends(name, renames, r.value); }
    if q.Some? { assert Ends(name, renames, q.value); }
  }

  /** The two lists name exactly the unexcused benchmarks, each under its own fault. */
  lemma {:induction false} LossesMembers(names: seq<string>, current: set<string>, renames: Ledger,
                                         declared: set<string>)
    ensures forall n :: (n in UndeclaredIn(names, current, renames, declared)
                         <==> n in names && LossOf(n, current, renames, declared) == Undeclared)
    ensures forall n, s :: ((n, s) in MisdeclaredIn(names, current, renames, declared)
                            <==> n in names && LossOf(n, current, renames, declared) == Misdeclared(s))
  {
    hide LossOf;
    if names == [] {
    } else {
      LossesMembers(names[1..], current, renames, declared);
      assert names == [names[0]] + names[1..];
    }
  }

  /** Nothing is excused for want of evidence, and a broken chain excuses nothing. */
  lemma ExcuseNeedsEvidence(name: string, current: set<string>, renames: Ledger, declared: set<string>)
    ensures LossOf(name, current, renames, declared) == Excused <==>
      name in declared
      || (name in renames && exists end :: Ends(name, renames, end) && end in current)
    ensures name !in declared && Loops(name, renames) ==>
      LossOf(name, current, renames, declared) == Misdeclared(None)
  {
    if Loops(name, renames) {
      assert Step(name, renames, 0) in renames;
      forall end ensures !Ends(name, renames, end) {
        if Ends(name, renames, end) { EndIsUnique(name, renames, end); }
      }
    }
  }
}
