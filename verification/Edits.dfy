/** Splicing suggested edits into a file, last start first (apply_clippy_fixes.py). */
module Edits {
  import opened Wrappers

  /** Replace `text[start..end]` by `rep`; equal bounds insert. */
  datatype Edit = Edit(start: int, end: int, rep: string)

  // ----- the line table

  function SplitLines(text: string): (lines: seq<string>)
    ensures lines != []
  {
    if text == "" then [""]
    else
      var rest := SplitLines(text[1..]);
      if text[0] == '\n' then [""] + rest
      else [[text[0]] + rest[0]] + rest[1..]
  }

  /** Where line `i` (from zero) begins, each line being followed by one newline. */
  function StartOf(lines: seq<string>, i: nat): nat
    requires i <= |lines|
  {
    if i == 0 then 0 else StartOf(lines, i - 1) + |lines[i - 1]| + 1
  }

  lemma StartOfStep(lines: seq<string>, i: nat)
    ensures StartOf(lines, 0) == 0
    ensures i < |lines| ==> StartOf(lines, i + 1) == StartOf(lines, i) + |lines[i]| + 1
  {}

  method BuildLineStarts(lines: seq<string>) returns (lineStarts: array<int>)
    ensures fresh(lineStarts) && lineStarts.Length == |lines| + 1
    ensures lineStarts[..] == Table(lines)
  {
    hide StartOf;
    lineStarts := new int[|lines| + 1](_ => 0);
    var acc := 0;
    StartOfStep(lines, 0);
    for i := 0 to |lines|
      invariant acc == StartOf(lines, i)
      invariant forall k :: 0 <= k < i ==> lineStarts[k] == StartOf(lines, k)
    {
      StartOfStep(lines, i);
      lineStarts[i] := acc;
      acc := acc + |lines[i]| + 1;
    }
    lineStarts[|lines|] := acc;
  }

  /** A list subscript: negative indices count from the back, the rest raises. */
  function Subscript(s: seq<int>, i: int): Option<int> {
    if 0 <= i < |s| then Some(s[i])
    else if -|s| <= i < 0 then Some(s[i + |s|])
    else None
  }

  /** One-based line and column to an offset; `None` is the caught IndexError. */
  function LineColToOffset(lineStarts: seq<int>, line: int, col: int): Option<int> {
    match Subscript(lineStarts, line - 1)
    case None => None
    case Some(start) => Some(start + (col - 1))
  }

  lemma {:induction false} StartOfTail(line: string, lines: seq<string>, i: nat)
    requires i <= |lines|
    ensures StartOf([line] + lines, i + 1) == |line| + 1 + StartOf(lines, i)
  {
    if i > 0 {
      StartOfTail(line, lines, i - 1);
      assert ([line] + lines)[i] == lines[i - 1];
    } else {
      assert ([line] + lines)[0] == line;
      assert StartOf([line] + lines, 0) == 0;
    }
  }

  lemma {:induction false} StartOfLonger(c: char, lines: seq<string>, i: nat)
    requires lines != [] && 1 <= i <= |lines|
    ensures StartOf([[c] + lines[0]] + lines[1..], i) == StartOf(lines, i) + 1
  {
    var longer := [[c] + lines[0]] + lines[1..];
    if i > 1 {
      StartOfLonger(c, lines, i - 1);
      assert longer[i - 1] == lines[i - 1];
    } else {
      assert longer[0] == [c] + lines[0];
      assert StartOf(longer, 0) == 0 && StartOf(lines, 0) == 0;
    }
  }

  lemma {:induction false} StartNamesCharacters(text: string, i: nat, k: nat)
    requires i < |SplitLines(text)| && k <= |SplitLines(text)[i]|
    ensures var lines := SplitLines(text);
      && StartOf(lines, i) + k <= |text|
      && (k < |lines[i]| ==> StartOf(lines, i) + k < |text| && text[StartOf(lines, i) + k] == lines[i][k])
      && (k == |lines[i]| && i + 1 < |lines| ==>
            StartOf(lines, i) + k < |text| && text[StartOf(lines, i) + k] == '\n')
      && (k == |lines[i]| && i + 1 == |lines| ==> StartOf(lines, i) + k == |text|)
  {
    if text == "" {
    } else {
      var rest := SplitLines(text[1..]);
      if text[0] == '\n' {
        if i > 0 {
          StartOfTail("", rest, i - 1);
          StartNamesCharacters(text[1..], i - 1, k);
        }
      } else {
        if i > 0 {
          StartOfLonger(text[0], rest, i);
          StartNamesCharacters(text[1..], i, k);
        } else if k > 0 {
          StartNamesCharacters(text[1..], 0, k - 1);
        }
      }
    }
  }

  /** The lines hold everything but the newlines. */
  lemma {:induction false} LinesHoldNoNewline(text: string)
    ensures forall l :: l in SplitLines(text) ==> '\n' !in l
  {
    if text != "" {
      LinesHoldNoNewline(text[1..]);
      var rest := SplitLines(text[1..]);
      assert rest == [rest[0]] + rest[1..];
    }
  }

  lemma {:induction false} StartsIncrease(lines: seq<string>, i: nat, j: nat)
    requires i < j <= |lines|
    ensures StartOf(lines, i) + |lines[i]| + 1 <= StartOf(lines, j)
  {
    if i < j - 1 {
      StartsIncrease(lines, i, j - 1);
    }
  }

  /** A line/column inside the text, columns running one past the line's last character. */
  predicate InText(lines: seq<string>, line: int, col: int) {
    1 <= line <= |lines| && 1 <= col <= |lines[line - 1]| + 1
  }

  ghost function Table(lines: seq<string>): (t: seq<int>)
    ensures |t| == |lines| + 1
    ensures forall i :: 0 <= i <= |lines| ==> t[i] == StartOf(lines, i)
  {
    seq(|lines| + 1, (i: nat) requires i <= |lines| => StartOf(lines, i))
  }

  /** A line and column in the text name that line's character; the column after its last
      character names the newline, or after the last line the end of the text. */
  lemma LineTableNamesCharacters(text: string, line: int, col: int)
    requires InText(SplitLines(text), line, col)
    ensures var lines := SplitLines(text);
      match LineColToOffset(Table(lines), line, col)
      case None => false
      case Some(o) =>
        && 0 <= o <= |text|
        && (col <= |lines[line - 1]| ==> o < |text| && text[o] == lines[line - 1][col - 1])
        && (col > |lines[line - 1]| && line < |lines| ==> o < |text| && text[o] == '\n')
        && (col > |lines[line - 1]| && line == |lines| ==> o == |text|)
  {
    StartNamesCharacters(text, line - 1, col - 1);
  }

  /** A line is caught as out of range exactly when a subscript of the table fails: below minus the
      number of lines, or above one past the last.  Line zero is the end of the table, and negative
      lines count back from it. */
  lemma LinesCaught(lines: seq<string>, line: int, col: int)
    ensures LineColToOffset(Table(lines), line, col).None? <==> line < -|lines| || line > |lines| + 1
    ensures 1 <= line <= |lines| + 1 ==>
      LineColToOffset(Table(lines), line, col) == Some(StartOf(lines, line - 1) + col - 1)
    ensures -|lines| <= line <= 0 ==>
      LineColToOffset(Table(lines), line, col) == Some(StartOf(lines, |lines| + line) + col - 1)
  {}

  /** Offsets grow strictly with (line, column), so no two positions collide. */
  lemma OffsetsFollowReadingOrder(lines: seq<string>, line: int, col: int, line': int, col': int)
    requires InText(lines, line, col) && InText(lines, line', col')
    ensures var t := Table(lines);
      && LineColToOffset(t, line, col).Some? && LineColToOffset(t, line', col').Some?
      && (LineColToOffset(t, line, col).value < LineColToOffset(t, line', col').value
          <==> line < line' || (line == line' && col < col'))
  {
    if line < line' {
      StartsIncrease(lines, line - 1, line' - 1);
    } else if line' < line {
      StartsIncrease(lines, line' - 1, line - 1);
    }
  }

  // ----- the order edits are taken in

  /** Latest start first, and no edit twice. */
  ghost predicate Descending(ordered: seq<Edit>) {
    forall i, j :: 0 <= i < j < |ordered| ==> ordered[i].start >= ordered[j].start && ordered[i] != ordered[j]
  }

  /** `ordered` lists a set of edits, latest start first.  Edits with one start may come in
      any order: the set they were collected in has none. */
  ghost predicate Descends(ordered: seq<Edit>, edits: set<Edit>) {
    && (forall e :: e in ordered <==> e in edits)
    && |ordered| == |edits|
    && Descending(ordered)
  }

  predicate IsLatest(e: Edit, edits: set<Edit>) {
    e in edits && forall f :: f in edits ==> f.start <= e.start
  }

  lemma {:induction false} LatestExists(edits: set<Edit>)
    requires edits != {}
    ensures exists e :: IsLatest(e, edits)
  {
    var e :| e in edits;
    if edits == {e} {
      assert IsLatest(e, edits);
    } else {
      LatestExists(edits - {e});
      var other :| IsLatest(other, edits - {e});
      assert IsLatest(if other.start >= e.start then other else e, edits);
    }
  }

  lemma DescendsSnoc(ordered: seq<Edit>, edits: set<Edit>, e: Edit)
    requires Descends(ordered, edits) && e !in edits
    requires forall f :: f in ordered ==> e.start <= f.start
    ensures Descends(ordered + [e], edits + {e})
  {
    var more := ordered + [e];
    forall i, j | 0 <= i < j < |more| ensures more[i].start >= more[j].start && more[i] != more[j] {
      assert more[i] == ordered[i] && ordered[i] in ordered;
    }
  }

  method OrderEdits(edits: set<Edit>) returns (ordered: seq<Edit>)
    ensures Descends(ordered, edits)
  {
    ordered := [];
    var rest := edits;
    while rest != {}
      invariant rest <= edits
      invariant Descends(ordered, edits - rest)
      invariant forall e, f :: e in ordered && f in rest ==> f.start <= e.start
      decreases rest
    {
      LatestExists(rest);
      var e :| IsLatest(e, rest);
      assert edits - (rest - {e}) == (edits - rest) + {e};
      DescendsSnoc(ordered, edits - rest, e);
      hide Descends;
      ordered := ordered + [e];
      rest := rest - {e};
    }
    assert edits - rest == edits;
  }

  // ----- the splice loop

  predicate InRange(e: Edit, length: int) { 0 <= e.start <= e.end <= length }

  /** The edits the loop applies, in the order it applies them. */
  function Chosen(ordered: seq<Edit>, length: int, last: int): seq<Edit> {
    if ordered == [] then []
    else
      var e := ordered[0];
      if InRange(e, length) && e.end <= last then [e] + Chosen(ordered[1..], length, e.start)
      else Chosen(ordered[1..], length, last)
  }

  /** `last_start` after the loop has seen `ordered`. */
  function LastStart(ordered: seq<Edit>, length: int, last: int): int {
    if ordered == [] then last
    else
      var e := ordered[0];
      LastStart(ordered[1..], length, if InRange(e, length) && e.end <= last then e.start else last)
  }

  lemma {:induction false} ChosenSnoc(ordered: seq<Edit>, e: Edit, length: int, last: int)
    ensures var takes := InRange(e, length) && e.end <= LastStart(ordered, length, last);
      && Chosen(ordered + [e], length, last) == Chosen(ordered, length, last) + (if takes then [e] else [])
      && LastStart(ordered + [e], length, last) == (if takes then e.start else LastStart(ordered, length, last))
  {
    if ordered == [] {
      assert ordered + [e] == [e];
    } else {
      var f := ordered[0];
      assert (ordered + [e])[1..] == ordered[1..] + [e];
      ChosenSnoc(ordered[1..], e, length, if InRange(f, length) && f.end <= last then f.start else last);
    }
  }

  /** Applied edits in descending order, none reaching into the one applied before it. */
  ghost predicate Chain(chosen: seq<Edit>, length: int) {
    && (forall e :: e in chosen ==> InRange(e, length))
    && (forall i, j :: 0 <= i < j < |chosen| ==> chosen[j].end <= chosen[i].start)
  }

  lemma {:induction false} ChosenIsChain(ordered: seq<Edit>, length: int, last: int)
    ensures Chain(Chosen(ordered, length, last), length)
    ensures forall e :: e in Chosen(ordered, length, last) ==> e.end <= last && e in ordered
  {
    if ordered == [] {
    } else {
      var e := ordered[0];
      if InRange(e, length) && e.end <= last {
        ChosenIsChain(ordered[1..], length, e.start);
      } else {
        ChosenIsChain(ordered[1..], length, last);
      }
    }
  }

  /** All replacements at once: from `pos` on, the original text with each edit's range
      replaced; `chosen` is in descending order, so its last edit comes first. */
  function Simultaneous(text: string, chosen: seq<Edit>): string
    requires Chain(chosen, |text|)
    decreases |chosen|
  {
    SimultaneousFrom(text, 0, chosen)
  }

  function SimultaneousFrom(text: string, pos: nat, chosen: seq<Edit>): string
    requires pos <= |text| && Chain(chosen, |text|)
    requires forall e :: e in chosen ==> pos <= e.start
    decreases |chosen|
  {
    if chosen == [] then text[pos..]
    else
      var first := chosen[|chosen| - 1];
      assert first in chosen;
      text[pos..first.start] + first.rep + SimultaneousFrom(text, first.end, chosen[..|chosen| - 1])
  }

  /** Where the untouched front of the text ends. */
  function Cut(text: string, chosen: seq<Edit>): int {
    if chosen == [] then |text| else chosen[|chosen| - 1].start
  }

  lemma CutIsLeast(text: string, chosen: seq<Edit>)
    requires Chain(chosen, |text|)
    ensures 0 <= Cut(text, chosen) <= |text|
    ensures forall e :: e in chosen ==> Cut(text, chosen) <= e.start
  {
    if chosen != [] {
      var least := chosen[|chosen| - 1];
      assert least in chosen;
      forall e | e in chosen ensures least.start <= e.start {
        var i :| 0 <= i < |chosen| && chosen[i] == e;
        assert i < |chosen| - 1 ==> chosen[|chosen| - 1].end <= chosen[i].start;
      }
    }
  }

  lemma FrontIsOriginal(text: string, pos: nat, chosen: seq<Edit>)
    requires pos <= |text| && Chain(chosen, |text|)
    requires forall e :: e in chosen ==> pos <= e.start
    ensures pos <= Cut(text, chosen) <= |text|
    ensures forall e :: e in chosen ==> Cut(text, chosen) <= e.start
    ensures SimultaneousFrom(text, pos, chosen)
            == text[pos..Cut(text, chosen)] + SimultaneousFrom(text, Cut(text, chosen), chosen)
  {
    CutIsLeast(text, chosen);
    if chosen == [] {
      assert text[pos..] == text[pos..|text|] + text[|text|..];
    } else {
      var first := chosen[|chosen| - 1];
      assert first in chosen;
      var front, rest := text[pos..first.start], SimultaneousFrom(text, first.end, chosen[..|chosen| - 1]);
      assert SimultaneousFrom(text, pos, chosen) == front + first.rep + rest;
      assert SimultaneousFrom(text, first.start, chosen) == text[first.start..first.start] + first.rep + rest;
      hide *;
      assert text[first.start..first.start] == "";
      assert front + first.rep + rest == front + ("" + first.rep + rest);
    }
  }

  /** One splice into the half-rewritten text is one more edit of the simultaneous rewrite. */
  lemma SpliceExtends(text: string, chosen: seq<Edit>, e: Edit)
    requires Chain(chosen, |text|) && InRange(e, |text|) && e.end <= Cut(text, chosen)
    ensures Chain(chosen + [e], |text|)
    ensures var now := Simultaneous(text, chosen);
      && e.end <= |now|
      && now[..e.start] + e.rep + now[e.end..] == Simultaneous(text, chosen + [e])
      && now[..e.start] == text[..e.start]
  {
    var more := chosen + [e];
    assert more[..|more| - 1] == chosen;
    CutIsLeast(text, chosen);
    forall i, j | 0 <= i < j < |more| ensures more[j].end <= more[i].start {
      assert more[i] == chosen[i] && chosen[i] in chosen;
    }
    FrontIsOriginal(text, 0, chosen);
    FrontIsOriginal(text, e.end, chosen);
    var cut := Cut(text, chosen);
    var tail := SimultaneousFrom(text, cut, chosen);
    var now := Simultaneous(text, chosen);
    assert now == text[..cut] + tail;
    assert now[..e.start] == text[..e.start];
    assert now[e.end..] == text[e.end..cut] + tail;
  }

  lemma LastStartIsCut(ordered: seq<Edit>, length: int, last: int)
    ensures var chosen := Chosen(ordered, length, last);
      LastStart(ordered, length, last) == if chosen == [] then last else chosen[|chosen| - 1].start
  {
    if ordered != [] {
      var e := ordered[0];
      if InRange(e, length) && e.end <= last {
        LastStartIsCut(ordered[1..], length, e.start);
      } else {
        LastStartIsCut(ordered[1..], length, last);
      }
    }
  }

  /** The loop's own bound check reads the text it is changing; it decides as if it read
      the original. */
  lemma CurrentLengthDecidesAlike(text: string, ordered: seq<Edit>, e: Edit)
    ensures var chosen := Chosen(ordered, |text|, |text| + 1);
      var last := LastStart(ordered, |text|, |text| + 1);
      && Chain(chosen, |text|)
      && ((e.start > e.end || e.end > |Simultaneous(text, chosen)| || e.start < 0 || e.end > last)
          <==> !(InRange(e, |text|) && e.end <= last))
      && (InRange(e, |text|) && e.end <= last ==> e.end <= Cut(text, chosen))
  {
    ChosenIsChain(ordered, |text|, |text| + 1);
    LastStartIsCut(ordered, |text|, |text| + 1);
    var chosen := Chosen(ordered, |text|, |text| + 1);
    FrontIsOriginal(text, 0, chosen);
    if chosen == [] {
      assert Simultaneous(text, chosen) == text;
    } else {
      assert chosen[|chosen| - 1] in chosen;
    }
  }

  method ApplyInOrder(original: string, ordered: seq<Edit>)
    returns (text: string, applied: nat, skipped: nat)
    ensures var chosen := Chosen(ordered, |original|, |original| + 1);
      && Chain(chosen, |original|)
      && text == Simultaneous(original, chosen)
      && applied == |chosen|
      && applied + skipped == |ordered|
  {
    text, applied, skipped := original, 0, 0;
    var lastStart := |original| + 1;
    ChosenIsChain([], |original|, |original| + 1);
    for i := 0 to |ordered|
      invariant lastStart == LastStart(ordered[..i], |original|, |original| + 1)
      invariant Chain(Chosen(ordered[..i], |original|, |original| + 1), |original|)
      invariant text == Simultaneous(original, Chosen(ordered[..i], |original|, |original| + 1))
      invariant applied == |Chosen(ordered[..i], |original|, |original| + 1)|
      invariant applied + skipped == i
    {
      hide Chosen, LastStart, Simultaneous, Chain;
      var e := ordered[i];
      ghost var chosen := Chosen(ordered[..i], |original|, |original| + 1);
      assert ordered[..i + 1] == ordered[..i] + [e];
      ChosenSnoc(ordered[..i], e, |original|, |original| + 1);
      CurrentLengthDecidesAlike(original, ordered[..i], e);
      if e.start > e.end || e.end > |text| || e.start < 0 {
        assert chosen + [] == chosen;
        skipped := skipped + 1;
        continue;
      }
      if e.end > lastStart {
        assert chosen + [] == chosen;
        skipped := skipped + 1;
        continue;
      }
      SpliceExtends(original, chosen, e);
      text := text[..e.start] + e.rep + text[e.end..];
      lastStart := e.start;
      applied := applied + 1;
    }
    assert ordered[..|ordered|] == ordered;
  }

  /** One file's edits: some order of the collected set, latest start first. */
  method ApplyEdits(original: string, edits: set<Edit>)
    returns (text: string, applied: nat, skipped: nat, ghost ordered: seq<Edit>)
    ensures Descends(ordered, edits)
    ensures var chosen := Chosen(ordered, |original|, |original| + 1);
      && Chain(chosen, |original|)
      && text == Simultaneous(original, chosen)
      && applied == |chosen|
    ensures applied + skipped == |edits|
  {
    var sorted := OrderEdits(edits);
    ordered := sorted;
    text, applied, skipped := ApplyInOrder(original, sorted);
  }
}
