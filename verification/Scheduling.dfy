/** How many of the suggested edits the latest-start-first loop manages to apply
    (apply_clippy_fixes.py). */
module Scheduling {
  import opened Order
  import opened Edits

  predicate Replaces(e: Edit) { e.start < e.end }

  /** Two edits can both be applied: neither reaches into the other's range. */
  predicate Apart(a: Edit, b: Edit) { a.end <= b.start || b.end <= a.start }

  /** A set of in-range edits that can all be applied together. */
  ghost predicate Compatible(edits: set<Edit>, length: int) {
    && (forall e :: e in edits ==> InRange(e, length))
    && (forall a, b :: a in edits && b in edits && a != b ==> Apart(a, b))
  }

  ghost function Applied(ordered: seq<Edit>, length: int): set<Edit> {
    Elements(Chosen(ordered, length, length + 1))
  }

  /** Nothing that can be applied together has more members than what was applied. */
  ghost predicate Maximum(ordered: seq<Edit>, length: int) {
    forall rival: set<Edit> ::
      Compatible(rival, length) && rival <= Elements(ordered) ==> |rival| <= |Applied(ordered, length)|
  }

  // ----- what was applied is itself compatible, and hits every replacement

  lemma DescendingTail(ordered: seq<Edit>)
    requires Descending(ordered) && ordered != []
    ensures Descending(ordered[1..])
    ensures forall e :: e in ordered[1..] ==> e.start <= ordered[0].start && e != ordered[0]
    ensures forall e :: e in ordered <==> e == ordered[0] || e in ordered[1..]
  {
    var rest := ordered[1..];
    assert ordered == [ordered[0]] + rest;
    forall i, j | 0 <= i < j < |rest| ensures rest[i].start >= rest[j].start && rest[i] != rest[j] {
      assert rest[i] == ordered[i + 1] && rest[j] == ordered[j + 1];
    }
    forall e | e in rest ensures e.start <= ordered[0].start && e != ordered[0] {
      var j :| 0 <= j < |rest| && rest[j] == e;
      assert ordered[0].start >= ordered[j + 1].start && ordered[0] != ordered[j + 1];
    }
  }

  lemma AppliedCompatible(ordered: seq<Edit>, length: int)
    ensures Compatible(Applied(ordered, length), length)
    ensures Applied(ordered, length) <= Elements(ordered)
  {
    var chosen := Chosen(ordered, length, length + 1);
    ChosenIsChain(ordered, length, length + 1);
    forall a, b | a in chosen && b in chosen && a != b ensures Apart(a, b) {
      var i :| 0 <= i < |chosen| && chosen[i] == a;
      var j :| 0 <= j < |chosen| && chosen[j] == b;
      if i < j { assert chosen[j].end <= chosen[i].start; } else { assert chosen[i].end <= chosen[j].start; }
    }
  }

  /** Every in-range replacement contains the start of an applied edit. */
  lemma {:induction false} ReplacementsAreHit(ordered: seq<Edit>, length: int, last: int, e: Edit)
    requires Descending(ordered) && (forall f :: f in ordered && InRange(f, length) ==> f.start <= last)
    requires e in ordered && InRange(e, length) && Replaces(e)
    ensures e.start <= last < e.end
         || exists c :: c in Chosen(ordered, length, last) && e.start <= c.start < e.end
  {
    var f := ordered[0];
    var rest := ordered[1..];
    assert ordered == [f] + rest;
    DescendingTail(ordered);
    if InRange(f, length) && f.end <= last {
      assert Chosen(ordered, length, last) == [f] + Chosen(rest, length, f.start);
      if e != f {
        ReplacementsAreHit(rest, length, f.start, e);
        if e.start <= f.start < e.end { assert f in Chosen(ordered, length, last); }
      } else {
        assert f in Chosen(ordered, length, last);
      }
    } else if e != f {
      ReplacementsAreHit(rest, length, last, e);
    }
  }

  /** Pairwise apart replacements are at most as many as the edits whose starts they contain. */
  lemma {:induction false} HitsBoundCount(rivals: set<Edit>, hits: set<Edit>)
    requires forall e :: e in rivals ==> Replaces(e)
    requires forall a, b :: a in rivals && b in rivals && a != b ==> Apart(a, b)
    requires forall e :: e in rivals ==> exists h :: h in hits && e.start <= h.start < e.end
    ensures |rivals| <= |hits|
  {
    if rivals != {} {
      var e :| e in rivals;
      var h :| h in hits && e.start <= h.start < e.end;
      forall f | f in rivals - {e} ensures exists g :: g in hits - {h} && f.start <= g.start < f.end {
        var g :| g in hits && f.start <= g.start < f.end;
        assert Apart(e, f);
        assert g in hits - {h};
      }
      HitsBoundCount(rivals - {e}, hits - {h});
    }
  }

  // ----- when an insertion takes a replacement's place

  /** A replacement that would still fit beside everything applied, so that only an
      insertion applied at its own start kept it out. */
  ghost predicate Masked(e: Edit, ordered: seq<Edit>, length: int) {
    && e in ordered && InRange(e, length) && Replaces(e)
    && forall c :: c in Applied(ordered, length) ==>
         !(e.start < c.start < e.end) && !(c.start == e.start && Replaces(c))
  }

  /** An edit whose start an applied insertion took, and which contains no other applied
      start, is apart from everything in the chain. */
  lemma ApartFromChain(chosen: seq<Edit>, length: int, insert: Edit, e: Edit, c: Edit)
    requires Chain(chosen, length) && insert in chosen && c in chosen
    requires insert.start == e.start && !Replaces(insert)
    requires !(e.start < c.start < e.end) && !(c.start == e.start && Replaces(c))
    ensures Apart(c, e)
  {
    var k :| 0 <= k < |chosen| && chosen[k] == insert;
    var i :| 0 <= i < |chosen| && chosen[i] == c;
    assert InRange(insert, length);
    assert i < k ==> chosen[k].end <= chosen[i].start;
    assert k < i ==> chosen[i].end <= chosen[k].start;
  }

  lemma CompatibleWith(edits: set<Edit>, length: int, e: Edit)
    requires Compatible(edits, length) && InRange(e, length)
    requires forall c :: c in edits ==> Apart(c, e)
    ensures Compatible(edits + {e}, length)
  {}

  lemma AppliedMembers(ordered: seq<Edit>, length: int)
    ensures forall c :: c in Applied(ordered, length) <==> c in Chosen(ordered, length, length + 1)
  {
    hide Chosen;
  }

  /** What takes a masked replacement's place is an insertion at its start. */
  lemma MaskedByInsertion(ordered: seq<Edit>, length: int, e: Edit) returns (insert: Edit)
    requires Descending(ordered) && Masked(e, ordered, length)
    ensures insert in Applied(ordered, length) && insert.start == e.start && !Replaces(insert)
  {
    hide Applied, Chosen, Descending;
    AppliedMembers(ordered, length);
    forall f | f in ordered && InRange(f, length) ensures f.start <= length + 1 {}
    ReplacementsAreHit(ordered, length, length + 1, e);
    insert :| insert in Chosen(ordered, length, length + 1) && e.start <= insert.start < e.end;
  }

  lemma MaskedIsCompatible(ordered: seq<Edit>, length: int, e: Edit)
    requires Descending(ordered) && Masked(e, ordered, length)
    ensures e !in Applied(ordered, length) && Compatible(Applied(ordered, length) + {e}, length)
    ensures exists c :: c in Applied(ordered, length) && c.start == e.start && !Replaces(c)
  {
    hide Applied, Chosen, Descending, Compatible, Chain;
    AppliedMembers(ordered, length);
    AppliedCompatible(ordered, length);
    ChosenIsChain(ordered, length, length + 1);
    var insert := MaskedByInsertion(ordered, length, e);
    forall c | c in Applied(ordered, length) ensures Apart(c, e) {
      ApartFromChain(Chosen(ordered, length, length + 1), length, insert, e, c);
    }
    CompatibleWith(Applied(ordered, length), length, e);
  }

  /** The loop applies a largest possible set exactly when it masks nothing. */
  lemma MaximumIffNothingMasked(ordered: seq<Edit>, length: int)
    requires Descending(ordered)
    ensures Maximum(ordered, length) <==> forall e :: !Masked(e, ordered, length)
  {
    var applied := Applied(ordered, length);
    if e :| Masked(e, ordered, length) {
      MaskedIsCompatible(ordered, length, e);
      AppliedCompatible(ordered, length);
      var rival := applied + {e};
      assert rival <= Elements(ordered) && |rival| == |applied| + 1;
    }
    if forall e :: !Masked(e, ordered, length) {
      forall rival: set<Edit> | Compatible(rival, length) && rival <= Elements(ordered)
        ensures |rival| <= |applied|
      {
        RivalIsNoLarger(ordered, length, rival);
      }
    }
  }

  /** Every in-range insertion is applied. */
  lemma {:induction false} InsertionsAreApplied(ordered: seq<Edit>, length: int, last: int, e: Edit)
    requires Descending(ordered) && (forall f :: f in ordered && InRange(f, length) ==> f.start <= last)
    requires e in ordered && InRange(e, length) && !Replaces(e)
    ensures e in Chosen(ordered, length, last)
  {
    var f := ordered[0];
    var rest := ordered[1..];
    assert ordered == [f] + rest;
    DescendingTail(ordered);
    if e != f {
      InsertionsAreApplied(rest, length, if InRange(f, length) && f.end <= last then f.start else last, e);
    }
  }

  lemma UnmaskedIsHit(e: Edit, ordered: seq<Edit>, length: int, inserts: set<Edit>)
    requires e in ordered && InRange(e, length) && Replaces(e) && !Masked(e, ordered, length)
    requires forall i :: i in inserts ==> InRange(i, length) && !Replaces(i) && Apart(i, e)
    ensures exists h :: h in Applied(ordered, length) - inserts && e.start <= h.start < e.end
  {
    hide Applied;
    var h :| h in Applied(ordered, length) && (e.start < h.start < e.end || (h.start == e.start && Replaces(h)));
    assert h in Applied(ordered, length) - inserts;
  }

  lemma RivalIsNoLarger(ordered: seq<Edit>, length: int, rival: set<Edit>)
    requires Descending(ordered) && forall e :: !Masked(e, ordered, length)
    requires Compatible(rival, length) && rival <= Elements(ordered)
    ensures |rival| <= |Applied(ordered, length)|
  {
    var applied := Applied(ordered, length);
    var inserts, swaps := BySort(rival);
    forall e | e in inserts ensures e in applied {
      InsertionsAreApplied(ordered, length, length + 1, e);
    }
    forall e | e in swaps ensures exists h :: h in applied - inserts && e.start <= h.start < e.end {
      UnmaskedIsHit(e, ordered, length, inserts);
    }
    assert forall a, b :: a in swaps && b in swaps && a != b ==> Apart(a, b);
    assert forall e :: e in swaps ==> Replaces(e);
    hide *;
    HitsBoundCount(swaps, applied - inserts);
  }

  /** A set of edits, split into its insertions and its replacements. */
  lemma BySort(edits: set<Edit>) returns (inserts: set<Edit>, swaps: set<Edit>)
    ensures forall e :: e in inserts <==> e in edits && !Replaces(e)
    ensures forall e :: e in swaps <==> e in edits && Replaces(e)
    ensures |edits| == |inserts| + |swaps|
  {
    inserts := set e | e in edits && !Replaces(e);
    swaps := set e | e in edits && Replaces(e);
    assert edits == inserts + swaps && inserts !! swaps;
  }

  // ----- the same condition, read off the edits before anything is applied

  /** Walk the edits once: `gap` is how far a replacement starting at `last` may reach
      when only insertions were accepted at `last`.  True when a replacement that fits
      that gap comes after such an insertion. */
  predicate InsertionBlocks(ordered: seq<Edit>, length: int, last: int, gap: int) {
    if ordered == [] then false
    else
      var e := ordered[0];
      if InRange(e, length) && e.end <= last then
        InsertionBlocks(ordered[1..], length, e.start,
                        if Replaces(e) then e.start else if e.start == last then gap else last)
      else
        (InRange(e, length) && e.start == last && e.end <= gap)
        || InsertionBlocks(ordered[1..], length, last, gap)
  }

  ghost predicate MaskedBelow(e: Edit, chosen: seq<Edit>, length: int, last: int, gap: int) {
    && InRange(e, length) && Replaces(e)
    && (forall c :: c in chosen ==> !(e.start < c.start < e.end) && !(c.start == e.start && Replaces(c)))
    && e.end <= (if e.start == last then gap else last)
  }

  lemma {:induction false} BlocksMeansMasked(ordered: seq<Edit>, length: int, last: int, gap: int)
    requires Descending(ordered) && (forall f :: f in ordered && InRange(f, length) ==> f.start <= last) && last <= gap
    ensures InsertionBlocks(ordered, length, last, gap)
      <==> exists e :: e in ordered && MaskedBelow(e, Chosen(ordered, length, last), length, last, gap)
    decreases |ordered|, 1
  {
    if ordered != [] {
      var f := ordered[0];
      var rest := ordered[1..];
      assert ordered == [f] + rest;
      DescendingTail(ordered);
      if InRange(f, length) && f.end <= last {
        AcceptedStep(f, rest, length, last, gap);
      } else {
        SkippedStep(f, rest, length, last, gap);
      }
    }
  }

  lemma AcceptedStep(f: Edit, rest: seq<Edit>, length: int, last: int, gap: int)
    requires Descending(rest) && (forall g :: g in rest ==> g.start <= f.start) && last <= gap
    requires InRange(f, length) && f.end <= last
    ensures var ordered := [f] + rest;
      InsertionBlocks(ordered, length, last, gap)
      <==> exists e :: e in ordered && MaskedBelow(e, Chosen(ordered, length, last), length, last, gap)
    decreases |rest| + 1, 0
  {
    var ordered := [f] + rest;
    var gap' := if Replaces(f) then f.start else if f.start == last then gap else last;
    var below := Chosen(rest, length, f.start);
    assert ordered[1..] == rest;
    assert Chosen(ordered, length, last) == [f] + below;
    BlocksMeansMasked(rest, length, f.start, gap');
    hide InsertionBlocks, Chosen, Descending, MaskedBelow;
    forall e | e in rest
      ensures MaskedBelow(e, [f] + below, length, last, gap) <==> MaskedBelow(e, below, length, f.start, gap')
    {
      MaskedPastAccepted(e, f, below, length, last, gap);
    }
    AcceptedIsNotMasked(f, below, length, last, gap);
    assert forall e :: e in ordered <==> e == f || e in rest;
  }

  lemma MaskedPastAccepted(e: Edit, f: Edit, below: seq<Edit>, length: int, last: int, gap: int)
    requires InRange(f, length) && f.end <= last <= gap && e.start <= f.start
    ensures var gap' := if Replaces(f) then f.start else if f.start == last then gap else last;
      MaskedBelow(e, [f] + below, length, last, gap) <==> MaskedBelow(e, below, length, f.start, gap')
  {
    assert f in [f] + below;
    assert forall c :: c in [f] + below <==> c == f || c in below;
  }

  lemma AcceptedIsNotMasked(f: Edit, below: seq<Edit>, length: int, last: int, gap: int)
    ensures !MaskedBelow(f, [f] + below, length, last, gap)
  {
    assert f in [f] + below;
  }

  lemma SkippedStep(f: Edit, rest: seq<Edit>, length: int, last: int, gap: int)
    requires Descending(rest) && last <= gap
    requires forall g :: g in [f] + rest && InRange(g, length) ==> g.start <= last
    requires !(InRange(f, length) && f.end <= last)
    ensures var ordered := [f] + rest;
      InsertionBlocks(ordered, length, last, gap)
      <==> exists e :: e in ordered && MaskedBelow(e, Chosen(ordered, length, last), length, last, gap)
    decreases |rest| + 1, 0
  {
    var ordered := [f] + rest;
    var chosen := Chosen(rest, length, last);
    assert ordered[1..] == rest;
    assert Chosen(ordered, length, last) == chosen;
    assert forall g :: g in rest ==> g in ordered;
    BlocksMeansMasked(rest, length, last, gap);
    ChosenIsChain(rest, length, last);
    assert f in ordered;
    if InRange(f, length) && f.start == last && f.end <= gap {
      forall c | c in chosen ensures !(f.start < c.start < f.end) && !(c.start == f.start && Replaces(c)) {
        assert c in rest;
      }
      assert MaskedBelow(f, chosen, length, last, gap);
    }
  }

  /** A check on the collected edits alone decides whether the loop will apply as many
      as can be applied together. */
  lemma MaximumIffNoInsertionBlocks(ordered: seq<Edit>, length: int)
    requires Descending(ordered)
    ensures Maximum(ordered, length) <==> !InsertionBlocks(ordered, length, length + 1, length + 1)
  {
    MaximumIffNothingMasked(ordered, length);
    BlocksMeansMasked(ordered, length, length + 1, length + 1);
    var chosen := Chosen(ordered, length, length + 1);
    forall e | e in ordered
      ensures MaskedBelow(e, chosen, length, length + 1, length + 1) <==> Masked(e, ordered, length)
    {
      assert forall c :: c in chosen <==> c in Applied(ordered, length);
    }
  }

  lemma MaskedSharesStart(ordered: seq<Edit>, length: int, e: Edit)
    requires Descending(ordered) && Masked(e, ordered, length)
    ensures exists c :: c in ordered && InRange(c, length) && c.start == e.start && !Replaces(c)
  {
    AppliedCompatible(ordered, length);
    MaskedIsCompatible(ordered, length, e);
  }

  /** Distinct non-empty edits, or insertions that share no start with a replacement: the
      loop applies a largest possible set whatever order ties come in. */
  lemma SeparateStartsAreMaximum(ordered: seq<Edit>, length: int)
    requires Descending(ordered)
    requires forall a, b :: (a in ordered && b in ordered && InRange(a, length) && InRange(b, length)
                             && a.start == b.start && Replaces(a)) ==> Replaces(b)
    ensures Maximum(ordered, length)
  {
    MaximumIffNothingMasked(ordered, length);
    forall e ensures !Masked(e, ordered, length) {
      if Masked(e, ordered, length) {
        MaskedSharesStart(ordered, length, e);
      }
    }
  }

  /** What the loop promises: on a file whose collected edits are all in range and replace
      something, no edits that can be applied together are more than it applies. */
  lemma LargestPossible(ordered: seq<Edit>, edits: set<Edit>, length: int, rival: set<Edit>)
    requires Descends(ordered, edits)
    requires forall e :: e in edits ==> InRange(e, length) && Replaces(e)
    requires rival <= edits && Compatible(rival, length)
    ensures |rival| <= |Chosen(ordered, length, length + 1)|
  {
    SeparateStartsAreMaximum(ordered, length);
    AppliedCount(ordered, length);
  }

  // ----- the same condition on the collected set, whatever order ties come in

  /** Something is applied at start `s`: an edit that contains no other such start. */
  predicate Live(edits: set<Edit>, length: int, s: int)
    decreases length - s
  {
    exists e :: e in edits && InRange(e, length) && e.start == s
                && forall t :: s < t < e.end ==> !Live(edits, length, t)
  }

  /** Nothing is applied strictly inside the edit. */
  predicate Clear(edits: set<Edit>, length: int, e: Edit) {
    InRange(e, length) && forall t :: e.start < t < e.end ==> !Live(edits, length, t)
  }

  /** An insertion and a replacement that would fit, at one start. */
  predicate TieDecides(edits: set<Edit>, length: int) {
    exists i, e :: i in edits && e in edits && InRange(i, length) && !Replaces(i) && i.start == e.start
                   && Replaces(e) && Clear(edits, length, e)
  }

  /** Where edits are applied does not depend on the order of ties. */
  lemma {:induction false} LiveIsApplied(ordered: seq<Edit>, edits: set<Edit>, length: int, s: int)
    requires Descends(ordered, edits)
    ensures Live(edits, length, s) <==> exists c :: c in Chosen(ordered, length, length + 1) && c.start == s
    decreases length - s
  {
    var chosen := Chosen(ordered, length, length + 1);
    hide Chosen, Descending;
    ChosenIsChain(ordered, length, length + 1);
    forall t | s < t <= length
      ensures Live(edits, length, t) <==> exists c :: c in chosen && c.start == t
    {
      LiveIsApplied(ordered, edits, length, t);
    }
    assert forall c :: c in chosen && s < c.start ==> InRange(c, length) && Live(edits, length, c.start);
    if Live(edits, length, s) {
      var e :| e in edits && InRange(e, length) && e.start == s
               && forall t :: s < t < e.end ==> !Live(edits, length, t);
      StartIsTaken(ordered, length, e);
    }
    if c :| c in chosen && c.start == s {
      forall t | s < t < c.end ensures !Live(edits, length, t) {
        if d :| d in chosen && d.start == t {
          ChainApart(chosen, length, c, d);
        }
      }
    }
  }

  lemma StartIsTaken(ordered: seq<Edit>, length: int, e: Edit)
    requires Descending(ordered) && e in ordered && InRange(e, length)
    requires forall c :: c in Chosen(ordered, length, length + 1) ==> !(e.start < c.start < e.end)
    ensures exists c :: c in Chosen(ordered, length, length + 1) && c.start == e.start
  {
    hide Chosen, Descending;
    if Replaces(e) {
      ReplacementsAreHit(ordered, length, length + 1, e);
    } else {
      InsertionsAreApplied(ordered, length, length + 1, e);
    }
  }

  lemma ChainApart(chosen: seq<Edit>, length: int, c: Edit, d: Edit)
    requires Chain(chosen, length) && c in chosen && d in chosen && c != d
    ensures Apart(c, d)
  {
    var i :| 0 <= i < |chosen| && chosen[i] == c;
    var j :| 0 <= j < |chosen| && chosen[j] == d;
    assert i < j ==> chosen[j].end <= chosen[i].start;
    assert j < i ==> chosen[i].end <= chosen[j].start;
  }

  /** A masked replacement is one a tie decided against. */
  lemma MaskedIsTie(ordered: seq<Edit>, edits: set<Edit>, length: int, e: Edit)
    requires Descends(ordered, edits) && Masked(e, ordered, length)
    ensures TieDecides(edits, length)
  {
    hide Chosen, Applied, Descending, Live;
    var insert := MaskedByInsertion(ordered, length, e);
    AppliedMembers(ordered, length);
    ChosenIsChain(ordered, length, length + 1);
    forall t | e.start < t < e.end ensures !Live(edits, length, t) {
      LiveIsApplied(ordered, edits, length, t);
    }
    assert insert in edits && e in edits && Clear(edits, length, e);
  }

  // ----- an order in which the insertion comes first

  lemma DescendsConcat(a: seq<Edit>, b: seq<Edit>, s: set<Edit>, t: set<Edit>)
    requires Descends(a, s) && Descends(b, t) && s !! t
    requires forall e, f :: e in s && f in t ==> f.start <= e.start
    ensures Descends(a + b, s + t)
  {
    var ab := a + b;
    forall i, j | 0 <= i < j < |ab| ensures ab[i].start >= ab[j].start && ab[i] != ab[j] {
      if i < |a| <= j {
        assert ab[i] in a && ab[j] == b[j - |a|] && ab[j] in b;
      }
    }
  }

  lemma {:induction false} OrderExists(edits: set<Edit>) returns (ordered: seq<Edit>)
    ensures Descends(ordered, edits)
  {
    if edits == {} {
      ordered := [];
    } else {
      LatestExists(edits);
      var e :| IsLatest(e, edits);
      var rest := OrderExists(edits - {e});
      DescendsConcat([e], rest, {e}, edits - {e});
      ordered := [e] + rest;
      assert {e} + (edits - {e}) == edits;
    }
  }

  lemma {:induction false} ChosenConcat(a: seq<Edit>, b: seq<Edit>, length: int, last: int)
    ensures Chosen(a + b, length, last) == Chosen(a, length, last) + Chosen(b, length, LastStart(a, length, last))
  {
    if a == [] {
      assert a + b == b;
    } else {
      var e := a[0];
      assert (a + b)[0] == e && (a + b)[1..] == a[1..] + b;
      ChosenConcat(a[1..], b, length, if InRange(e, length) && e.end <= last then e.start else last);
    }
  }

  /** After an insertion no replacement at its start is applied. */
  lemma InsertionShutsOut(above: seq<Edit>, insert: Edit, below: seq<Edit>, length: int, c: Edit)
    requires InRange(insert, length) && !Replaces(insert)
    requires forall e :: e in above ==> e.start > insert.start
    requires c in Chosen(above + ([insert] + below), length, length + 1) && c.start == insert.start
    ensures !Replaces(c)
  {
    var last := LastStart(above, length, length + 1);
    ChosenConcat(above, [insert] + below, length, length + 1);
    LastStartIsCut(above, length, length + 1);
    ChosenIsChain(above, length, length + 1);
    assert last >= insert.start;
    assert ([insert] + below)[1..] == below;
    assert Chosen([insert] + below, length, last) == [insert] + Chosen(below, length, insert.start);
    ChosenIsChain(below, length, insert.start);
    hide Chosen;
  }

  /** Some order takes a given edit before every other edit at its start. */
  lemma OrderAround(edits: set<Edit>, insert: Edit)
    returns (above: seq<Edit>, below: seq<Edit>, ordered: seq<Edit>)
    requires insert in edits
    ensures ordered == above + ([insert] + below) && Descends(ordered, edits)
    ensures forall f :: f in above ==> f.start > insert.start
  {
    hide Descends;
    var late, rest := StartsAfter(edits, insert);
    above := OrderExists(late);
    below := OrderExists(rest);
    ordered := InsertFirst(above, insert, below, late, rest);
    DescendsMeans(above, late);
  }

  lemma StartsAfter(edits: set<Edit>, insert: Edit) returns (late: set<Edit>, rest: set<Edit>)
    requires insert in edits
    ensures late + ({insert} + rest) == edits && insert !in rest && insert !in late && late !! rest
    ensures forall f :: f in late ==> f.start > insert.start
    ensures forall f :: f in rest ==> f.start <= insert.start
  {
    late := set f | f in edits && f.start > insert.start;
    rest := edits - late - {insert};
  }

  lemma TieCanMask(edits: set<Edit>, length: int) returns (ordered: seq<Edit>, e: Edit)
    requires TieDecides(edits, length)
    ensures Descends(ordered, edits) && Masked(e, ordered, length)
  {
    hide Chosen, Live, Applied, Descends, Masked, Clear;
    var insert: Edit;
    insert, e :| insert in edits && e in edits && InRange(insert, length) && !Replaces(insert)
                 && insert.start == e.start && Replaces(e) && Clear(edits, length, e);
    var above, below;
    above, below, ordered := OrderAround(edits, insert);
    hide InRange, Replaces;
    ShutOutIsMasked(ordered, edits, length, e, above, insert, below);
  }

  lemma ShutOutIsMasked(ordered: seq<Edit>, edits: set<Edit>, length: int, e: Edit,
                        above: seq<Edit>, insert: Edit, below: seq<Edit>)
    requires Descends(ordered, edits) && ordered == above + ([insert] + below)
    requires InRange(insert, length) && !Replaces(insert) && insert.start == e.start
    requires e in edits && Replaces(e) && Clear(edits, length, e)
    requires forall f :: f in above ==> f.start > insert.start
    ensures Masked(e, ordered, length)
  {
    hide Chosen, Live, Applied, Descends;
    AppliedMembers(ordered, length);
    DescendsMeans(ordered, edits);
    forall c | c in Chosen(ordered, length, length + 1)
      ensures !(e.start < c.start < e.end) && !(c.start == e.start && Replaces(c))
    {
      LiveIsApplied(ordered, edits, length, c.start);
      if c.start == e.start {
        InsertionShutsOut(above, insert, below, length, c);
      }
    }
  }

  lemma DescendsMeans(ordered: seq<Edit>, edits: set<Edit>)
    requires Descends(ordered, edits)
    ensures Descending(ordered) && forall e :: e in ordered <==> e in edits
  {}

  lemma InsertFirst(above: seq<Edit>, insert: Edit, below: seq<Edit>, late: set<Edit>, rest: set<Edit>)
    returns (ordered: seq<Edit>)
    requires Descends(above, late) && Descends(below, rest) && insert !in rest && insert !in late && late !! rest
    requires forall f :: f in late ==> f.start > insert.start
    requires forall f :: f in rest ==> f.start <= insert.start
    ensures ordered == above + ([insert] + below)
    ensures Descends(ordered, late + ({insert} + rest))
  {
    DescendsConcat([insert], below, {insert}, rest);
    DescendsConcat(above, [insert] + below, late, {insert} + rest);
    ordered := above + ([insert] + below);
  }

  /** The collected edits alone decide it: every order they may be taken in applies a largest
      possible set exactly when no tie between an insertion and a fitting replacement has to
      be broken. */
  lemma EveryOrderIsMaximumIff(edits: set<Edit>, length: int)
    ensures (forall ordered :: Descends(ordered, edits) ==> Maximum(ordered, length))
            <==> !TieDecides(edits, length)
  {
    hide TieDecides, Maximum, Masked, Descends;
    if TieDecides(edits, length) {
      var ordered, e := TieCanMask(edits, length);
      DescendsMeans(ordered, edits);
      MaximumIffNothingMasked(ordered, length);
      assert Descends(ordered, edits) && !Maximum(ordered, length);
    } else {
      forall ordered | Descends(ordered, edits) ensures Maximum(ordered, length) {
        DescendsMeans(ordered, edits);
        MaximumIffNothingMasked(ordered, length);
        if e :| Masked(e, ordered, length) {
          MaskedIsTie(ordered, edits, length, e);
        }
      }
    }
  }

  /** The order of a tie matters: an insertion taken first shuts out a replacement at the
      same place, though both could be applied. */
  lemma TieOrderMatters() returns (insert: Edit, replace: Edit)
    ensures Descending([insert, replace]) && Descending([replace, insert])
    ensures !Maximum([insert, replace], 8) && Maximum([replace, insert], 8)
  {
    insert, replace := Edit(5, 5, "x"), Edit(5, 8, "y");
    MaximumIffNoInsertionBlocks([insert, replace], 8);
    MaximumIffNoInsertionBlocks([replace, insert], 8);
    assert [insert, replace][1..] == [replace] && [replace, insert][1..] == [insert];
    assert [replace][1..] == [] && [insert][1..] == [];
    assert InsertionBlocks([replace], 8, 5, 9);
    assert !InsertionBlocks([], 8, 5, 5);
    assert !InsertionBlocks([insert], 8, 5, 5);
  }

  /** `applied` counts exactly the edits of that set. */
  lemma AppliedCount(ordered: seq<Edit>, length: int)
    requires Descending(ordered)
    ensures |Applied(ordered, length)| == |Chosen(ordered, length, length + 1)|
  {
    ChosenDistinct(ordered, length, length + 1);
    DistinctCount(Chosen(ordered, length, length + 1));
  }

  lemma {:induction false} ChosenDistinct(ordered: seq<Edit>, length: int, last: int)
    requires Descending(ordered)
    ensures Distinct(Chosen(ordered, length, last))
  {
    if ordered != [] {
      var f := ordered[0];
      var rest := ordered[1..];
      DescendingTail(ordered);
      if InRange(f, length) && f.end <= last {
        ChosenDistinct(rest, length, f.start);
        ChosenIsChain(rest, length, f.start);
        var below := Chosen(rest, length, f.start);
        assert Chosen(ordered, length, last) == [f] + below;
        assert forall i :: 0 <= i < |below| ==> below[i] in below;
      } else {
        ChosenDistinct(rest, length, last);
        assert Chosen(ordered, length, last) == Chosen(rest, length, last);
      }
    }
  }

  lemma {:induction false} DistinctCount(s: seq<Edit>)
    requires Distinct(s)
    ensures |Elements(s)| == |s|
  {
    if s != [] {
      var last := s[|s| - 1];
      var init := s[..|s| - 1];
      DistinctCount(init);
      assert last !in init;
      assert Elements(s) == Elements(init) + {last};
    }
  }
}
