/** Blanking test items before a file is judged (scripts/argv-utf8.py, `mask_test_regions`). */
module TestMask {
  import opened Order
  import opened Text

  predicate HasTestAttribute(line: string) {
    Contains(line, "#[cfg(test)]") || Contains(line, "#[test]")
  }

  /** A line has a test attribute wherever one of the two stands in it. */
  lemma AttributeMeans(line: string)
    ensures HasTestAttribute(line) <==>
      exists front, back :: line == front + "#[cfg(test)]" + back || line == front + "#[test]" + back
  {
    var cfg, test := "#[cfg(test)]", "#[test]";
    ContainsMeans(line, cfg);
    ContainsMeans(line, test);
    hide Contains;
  }

  // ----- the brace scanner

  datatype Scan = Scan(depth: int, started: bool, done: bool)

  const START := Scan(0, false, false)

  function Step(s: Scan, ch: char): Scan {
    if ch == '{' then Scan(s.depth + 1, true, false)
    else if ch == '}' then Scan(s.depth - 1, s.started, s.started && s.depth - 1 <= 0)
    else if ch == ';' && !s.started then Scan(s.depth, s.started, true)
    else s
  }

  /** The scanner after `text`, stopping where it is done. */
  function Scanned(s: Scan, text: string): Scan
    decreases |text|
  {
    if s.done || text == "" then s else Scanned(Step(s, text[0]), text[1..])
  }

  /** How many lines the item that starts on the first one takes up: up to the line where
      the scanner is done, or all of them. */
  function ItemLines(lines: seq<string>, s: Scan): (k: nat)
    ensures k <= |lines| && (lines != [] ==> k >= 1)
  {
    if lines == [] then 0
    else
      var after := Scanned(s, lines[0]);
      if after.done then 1 else 1 + ItemLines(lines[1..], after)
  }

  function Blanks(n: nat): (r: seq<string>)
    ensures |r| == n && forall i :: 0 <= i < n ==> r[i] == ""
  {
    if n == 0 then [] else [""] + Blanks(n - 1)
  }

  function Mask(lines: seq<string>): seq<string> {
    if lines == [] then []
    else if HasTestAttribute(lines[0]) then
      var k := ItemLines(lines, START);
      Blanks(k) + Mask(lines[k..])
    else [lines[0]] + Mask(lines[1..])
  }

  // ----- the loops

  lemma ScannedStep(s: Scan, line: string, k: nat)
    requires k < |line|
    ensures !s.done ==> Scanned(s, line[k..]) == Scanned(Step(s, line[k]), line[k + 1..])
    ensures s.done ==> Scanned(s, line[k..]) == s
  {
    assert line[k..][1..] == line[k + 1..];
  }

  method ScanLine(line: string, s: Scan) returns (after: Scan)
    requires !s.done
    ensures after == Scanned(s, line)
  {
    var depth, started, done := s.depth, s.started, false;
    var k := 0;
    while k < |line| && !done
      invariant 0 <= k <= |line|
      invariant Scanned(s, line) == Scanned(Scan(depth, started, done), line[k..])
    {
      ScannedStep(Scan(depth, started, done), line, k);
      var ch := line[k];
      if ch == '{' {
        depth := depth + 1;
        started := true;
      } else if ch == '}' {
        depth := depth - 1;
        if started && depth <= 0 {
          done := true;
        }
      } else if ch == ';' && !started {
        done := true;
      }
      k := k + 1;
    }
    assert done || line[k..] == "";
    after := Scan(depth, started, done);
  }

  method FindItemEnd(lines: seq<string>, i: nat) returns (j: nat)
    requires i < |lines|
    ensures ItemLines(lines[i..], START) == (if j < |lines| then j + 1 else |lines|) - i
    ensures i <= j <= |lines|
  {
    j := i;
    var s := START;
    while j < |lines| && !s.done
      invariant i <= j <= |lines|
      invariant !s.done ==> ItemLines(lines[i..], START) == (j - i) + ItemLines(lines[j..], s)
      invariant s.done ==> j < |lines| && ItemLines(lines[i..], START) == j + 1 - i
      decreases |lines| - j, if s.done then 0 else 1
    {
      assert lines[j..][1..] == lines[j + 1..];
      s := ScanLine(lines[j], s);
      if !s.done {
        j := j + 1;
      }
    }
  }

  lemma MaskSuffix(lines: seq<string>, i: nat)
    requires i < |lines|
    ensures HasTestAttribute(lines[i]) ==>
      var k := ItemLines(lines[i..], START);
      1 <= k <= |lines| - i && Mask(lines[i..]) == Blanks(k) + Mask(lines[i + k..])
    ensures !HasTestAttribute(lines[i]) ==> Mask(lines[i..]) == [lines[i]] + Mask(lines[i + 1..])
  {
    hide HasTestAttribute;
    assert lines[i..][1..] == lines[i + 1..];
    if HasTestAttribute(lines[i]) {
      var k := ItemLines(lines[i..], START);
      assert lines[i..][k..] == lines[i + k..];
    }
  }

  method BlankRange(out: array<string>, i: nat, end: nat)
    requires i <= end <= out.Length
    modifies out
    ensures out[..] == old(out[..i]) + Blanks(end - i) + old(out[end..])
  {
    for k := i to end
      invariant forall m :: 0 <= m < out.Length ==> out[m] == if i <= m < k then "" else old(out[m])
    {
      out[k] := "";
    }
  }

  /** `finished` is the masked front, as far as line `i`; the rest is still untouched. */
  ghost predicate MaskedSoFar(lines: seq<string>, out: seq<string>, finished: seq<string>, i: nat) {
    && i == |finished| <= |lines|
    && out == finished + lines[i..]
    && Mask(lines) == finished + Mask(lines[i..])
  }

  lemma MaskedStart(lines: seq<string>)
    ensures MaskedSoFar(lines, lines, [], 0)
  {
    assert lines[0..] == lines;
    assert [] + Mask(lines) == Mask(lines);
  }

  lemma MaskedEnd(lines: seq<string>, out: seq<string>, finished: seq<string>)
    requires MaskedSoFar(lines, out, finished, |lines|)
    ensures out == Mask(lines)
  {
    assert lines[|lines|..] == [];
  }

  lemma MaskedKeepsLine(lines: seq<string>, out: seq<string>, finished: seq<string>, i: nat)
    requires MaskedSoFar(lines, out, finished, i) && i < |lines| && !HasTestAttribute(lines[i])
    ensures MaskedSoFar(lines, out, finished + [lines[i]], i + 1)
  {
    MaskSuffix(lines, i);
    hide Mask, HasTestAttribute;
    assert lines[i..] == [lines[i]] + lines[i + 1..];
  }

  lemma OverwriteMiddle(finished: seq<string>, lines: seq<string>, i: nat, end: nat)
    requires i == |finished| && i <= end <= |lines|
    ensures (finished + lines[i..])[..i] == finished && (finished + lines[i..])[end..] == lines[end..]
  {
    assert (finished + lines[i..])[end..] == lines[i..][end - i..];
  }

  lemma MaskedBlanksItem(lines: seq<string>, out: seq<string>, finished: seq<string>, i: nat, end: nat)
    requires MaskedSoFar(lines, out, finished, i) && i < |lines| && HasTestAttribute(lines[i])
    requires end == i + ItemLines(lines[i..], START) && end <= |lines|
    ensures MaskedSoFar(lines, out[..i] + Blanks(end - i) + out[end..], finished + Blanks(end - i), end)
  {
    MaskSuffix(lines, i);
    hide Mask, HasTestAttribute, ItemLines, Blanks;
    Regroup(finished, Blanks(end - i), Mask(lines[end..]));
    OverwriteMiddle(finished, lines, i, end);
  }

  method MaskTestRegions(lines: seq<string>) returns (result: seq<string>)
    ensures result == Mask(lines)
  {
    var n := |lines|;
    var out := new string[n]((i: int) requires 0 <= i < n => lines[i]);
    var i := 0;
    ghost var finished := [];
    assert out[..] == lines;
    MaskedStart(lines);
    hide *;
    while i < n
      invariant 0 <= i <= n
      invariant MaskedSoFar(lines, out[..], finished, i)
    {
      if HasTestAttribute(lines[i]) {
        var j := FindItemEnd(lines, i);
        var end := if j + 1 < n then j + 1 else n;
        MaskedBlanksItem(lines, out[..], finished, i, end);
        ghost var was := out[..];
        BlankRange(out, i, end);
        assert out[..] == was[..i] + Blanks(end - i) + was[end..];
        finished := finished + Blanks(end - i);
        i := end;
        continue;
      }
      MaskedKeepsLine(lines, out[..], finished, i);
      finished := finished + [lines[i]];
      i := i + 1;
    }
    MaskedEnd(lines, out[..], finished);
    result := out[..];
  }

  lemma MaskOfNothing()
    ensures Mask([]) == []
  {}

  // ----- line by line

  /** Line numbers still mean what they did: as many lines, each as it was or blank; every
      line bearing a test attribute is blank. */
  lemma {:induction false} MaskKeepsOrBlanks(lines: seq<string>)
    ensures |Mask(lines)| == |lines|
    ensures forall i :: 0 <= i < |lines| ==>
      && (Mask(lines)[i] == lines[i] || Mask(lines)[i] == "")
      && (HasTestAttribute(lines[i]) ==> Mask(lines)[i] == "")
    decreases |lines|
  {
    hide HasTestAttribute;
    if lines == [] {
    } else if HasTestAttribute(lines[0]) {
      var k := ItemLines(lines, START);
      MaskKeepsOrBlanks(lines[k..]);
    } else {
      MaskKeepsOrBlanks(lines[1..]);
    }
  }

  lemma BlankHasNoAttribute()
    ensures !HasTestAttribute("")
  {}

  lemma {:induction false} MaskOfClean(lines: seq<string>)
    requires forall i :: 0 <= i < |lines| ==> !HasTestAttribute(lines[i])
    ensures Mask(lines) == lines
  {
    hide HasTestAttribute;
    if lines != [] {
      MaskOfClean(lines[1..]);
      assert lines == [lines[0]] + lines[1..];
    }
  }

  /** Masking twice masks nothing more, and a file without test items is left alone. */
  lemma MaskIsIdempotent(lines: seq<string>)
    ensures Mask(Mask(lines)) == Mask(lines)
    ensures Mask(lines) == lines <==> forall i :: 0 <= i < |lines| ==> !HasTestAttribute(lines[i])
  {
    MaskKeepsOrBlanks(lines);
    BlankHasNoAttribute();
    hide HasTestAttribute, Mask;
    var masked := Mask(lines);
    forall i | 0 <= i < |masked| ensures !HasTestAttribute(masked[i]) {
      assert masked[i] == lines[i] || masked[i] == "";
    }
    MaskOfClean(masked);
    if forall i :: 0 <= i < |lines| ==> !HasTestAttribute(lines[i]) {
      MaskOfClean(lines);
    }
  }

  // ----- a file in two parts

  /** The scanner gets done somewhere in these lines. */
  predicate ItemCloses(lines: seq<string>, s: Scan) {
    lines != [] && (Scanned(s, lines[0]).done || ItemCloses(lines[1..], Scanned(s, lines[0])))
  }

  /** No test item is still open at the end. */
  predicate Closed(lines: seq<string>) {
    if lines == [] then true
    else if HasTestAttribute(lines[0]) then
      ItemCloses(lines, START) && Closed(lines[ItemLines(lines, START)..])
    else Closed(lines[1..])
  }

  lemma {:induction false} ItemInFront(a: seq<string>, b: seq<string>, s: Scan)
    requires a != []
    ensures ItemCloses(a, s) ==> ItemLines(a + b, s) == ItemLines(a, s)
    ensures !ItemCloses(a, s) ==> ItemLines(a + b, s) >= |a| && ItemLines(a, s) == |a|
  {
    var after := Scanned(s, a[0]);
    assert (a + b)[0] == a[0] && (a + b)[1..] == a[1..] + b;
    if |a| == 1 {
      assert a[1..] == [];
      assert !ItemCloses(a[1..], after);
    } else if !after.done {
      ItemInFront(a[1..], b, after);
    }
  }

  lemma {:induction false} ClosedPartsMaskApart(a: seq<string>, b: seq<string>)
    requires Closed(a)
    ensures Mask(a + b) == Mask(a) + Mask(b)
    decreases |a|
  {
    hide HasTestAttribute;
    if a == [] {
      assert a + b == b;
    } else if HasTestAttribute(a[0]) {
      var k := ItemLines(a, START);
      ItemInFront(a, b, START);
      assert (a + b)[k..] == a[k..] + b;
      ClosedPartsMaskApart(a[k..], b);
    } else {
      assert (a + b)[1..] == a[1..] + b;
      ClosedPartsMaskApart(a[1..], b);
    }
  }

  lemma {:induction false} OpenPartSwallows(a: seq<string>, line: string)
    requires !Closed(a) && !HasTestAttribute(line)
    ensures Mask(a + [line]) == Mask(a) + [""]
    decreases |a|
  {
    hide HasTestAttribute;
    assert a != [];
    if HasTestAttribute(a[0]) {
      var k := ItemLines(a, START);
      ItemInFront(a, [line], START);
      if ItemCloses(a, START) {
        assert (a + [line])[k..] == a[k..] + [line];
        OpenPartSwallows(a[k..], line);
      } else {
        SwallowedByOpenItem(a, line);
      }
    } else {
      assert (a + [line])[1..] == a[1..] + [line];
      OpenPartSwallows(a[1..], line);
    }
  }

  lemma SwallowedByOpenItem(a: seq<string>, line: string)
    requires a != [] && HasTestAttribute(a[0]) && !ItemCloses(a, START)
    ensures Mask(a + [line]) == Mask(a) + [""]
  {
    hide HasTestAttribute;
    ItemInFront(a, [line], START);
    OpenTakesOneMore(a, line, START);
    MaskOfOneItem(a + [line]);
    MaskOfOneItem(a);
    hide Mask, ItemLines;
    assert Blanks(|a| + 1) == Blanks(|a|) + [""];
  }

  lemma MaskOfOneItem(lines: seq<string>)
    requires lines != [] && HasTestAttribute(lines[0]) && ItemLines(lines, START) == |lines|
    ensures Mask(lines) == Blanks(|lines|)
  {
    hide HasTestAttribute, ItemLines, Blanks;
    MaskOfNothing();
    assert lines[|lines|..] == [];
    assert Mask(lines) == Blanks(|lines|) + [];
  }

  lemma {:induction false} OpenTakesOneMore(a: seq<string>, line: string, s: Scan)
    requires a != [] && !ItemCloses(a, s)
    ensures ItemLines(a + [line], s) == |a| + 1
  {
    var after := Scanned(s, a[0]);
    assert (a + [line])[0] == a[0] && (a + [line])[1..] == a[1..] + [line];
    if |a| == 1 {
      assert a[1..] + [line] == [line];
      assert [line][1..] == [];
      assert ItemLines([line], after) == 1;
    } else {
      OpenTakesOneMore(a[1..], line, after);
    }
  }

  /** What follows is judged as if it stood alone exactly when no test item is left open. */
  lemma PartsMaskApartIffClosed(a: seq<string>)
    ensures Closed(a) <==> forall b :: Mask(a + b) == Mask(a) + Mask(b)
  {
    if Closed(a) {
      forall b ensures Mask(a + b) == Mask(a) + Mask(b) { ClosedPartsMaskApart(a, b); }
    } else {
      var line := "x";
      assert !HasTestAttribute(line) by { assert line[1..] == ""; }
      OpenPartSwallows(a, line);
      assert [line][1..] == [];
      assert Mask([line]) == [line] + Mask([]);
      assert (Mask(a) + [""])[|Mask(a)|] == "";
      assert (Mask(a) + Mask([line]))[|Mask(a)|] == line;
      assert Mask(a + [line]) != Mask(a) + Mask([line]);
    }
  }

  /** A lone attribute line leaves its item open, and the next line goes with it. */
  lemma LoneAttributeSwallows() returns (a: seq<string>)
    ensures a == ["#[cfg(test)]"] && !Closed(a)
    ensures Mask(a + ["x"]) == ["", ""] && Mask(a) + Mask(["x"]) == ["", "x"]
  {
    var line := "#[cfg(test)]";
    a := [line];
    hide *;
    AttributeLine(line);
    LoneOpenLine(line);
    OrdinaryLine();
    OpenPartSwallows(a, "x");
    MaskOfClean(["x"]);
    assert [""] + [""] == ["", ""] && [""] + ["x"] == ["", "x"];
  }

  lemma OrdinaryLine()
    ensures !HasTestAttribute("x")
  {
    assert "x"[1..] == "";
  }

  lemma AttributeLine(line: string)
    requires line == "#[cfg(test)]"
    ensures HasTestAttribute(line) && Scanned(START, line) == START && !Scanned(START, line).done
  {
    assert forall k :: 0 <= k < |line| ==> line[k] != '{' && line[k] != '}' && line[k] != ';';
    QuietLine(line);
    hide Scanned;
  }

  /** A line without braces and semicolons leaves the scanner where it starts. */
  lemma QuietLine(line: string)
    requires forall k :: 0 <= k < |line| ==> line[k] != '{' && line[k] != '}' && line[k] != ';'
    ensures Scanned(START, line) == START
  {
    ScannerCountsBraces(line);
    CountAbsent(line, '{');
    CountAbsent(line, '}');
    hide Scanned, Count;
  }

  lemma {:induction false} CountAbsent(a: string, c: char)
    ensures Count(a, c) == 0 <==> c !in a
  {
    if a != "" {
      CountAbsent(a[..|a| - 1], c);
      assert a == a[..|a| - 1] + [a[|a| - 1]];
    }
  }

  lemma LoneOpenLine(line: string)
    requires HasTestAttribute(line) && !Scanned(START, line).done
    ensures !Closed([line]) && Mask([line]) == [""]
  {
    hide HasTestAttribute, Scanned;
    assert [line][1..] == [];
    assert !ItemCloses([], Scanned(START, line)) && !ItemCloses([line], START);
    assert ItemLines([line], START) == 1;
    assert Blanks(1) == [""] && Mask([line]) == Blanks(1) + Mask([]);
  }

  // ----- where the scan of an item ends, without the scanner

  function Count(text: string, c: char): nat {
    if text == "" then 0 else (if text[|text| - 1] == c then 1 else 0) + Count(text[..|text| - 1], c)
  }

  /** The scan ends on character `k`: a brace that leaves as many closed as opened once one
      has been opened, or a semicolon before any. */
  predicate EndsAt(text: string, k: nat)
    requires k < |text|
  {
    || (text[k] == '}' && Count(text[..k], '{') > 0 && Count(text[..k + 1], '}') >= Count(text[..k + 1], '{'))
    || (text[k] == ';' && Count(text[..k], '{') == 0)
  }

  lemma {:induction false} ScannedSnoc(s: Scan, text: string, c: char)
    ensures Scanned(s, text + [c])
            == if Scanned(s, text).done then Scanned(s, text) else Step(Scanned(s, text), c)
    decreases |text|
  {
    if text == "" {
      assert (text + [c])[1..] == "";
    } else if !s.done {
      assert (text + [c])[0] == text[0] && (text + [c])[1..] == text[1..] + [c];
      ScannedSnoc(Step(s, text[0]), text[1..], c);
    }
  }

  /** The scanner is done exactly when some character ends the scan; until then it holds
      the brace balance. */
  lemma {:induction false} ScannerCountsBraces(text: string)
    ensures Scanned(START, text).done <==> exists k :: 0 <= k < |text| && EndsAt(text, k)
    ensures !Scanned(START, text).done ==>
      && Scanned(START, text).depth == Count(text, '{') - Count(text, '}')
      && (Scanned(START, text).started <==> Count(text, '{') > 0)
  {
    if text != "" {
      var front, c := text[..|text| - 1], text[|text| - 1];
      assert text == front + [c];
      ScannerCountsBraces(front);
      ScannedSnoc(START, front, c);
      forall k | 0 <= k < |front| ensures EndsAt(text, k) <==> EndsAt(front, k) {
        assert text[..k] == front[..k] && text[..k + 1] == front[..k + 1];
      }
      assert text[..|front| + 1] == text && text[..|front|] == front;
      if Scanned(START, front).done {
        var k :| 0 <= k < |front| && EndsAt(front, k);
        assert EndsAt(text, k);
      } else {
        assert Scanned(START, text).done <==> EndsAt(text, |front|);
        assert forall k :: 0 <= k < |front| ==> !EndsAt(front, k);
      }
    }
  }

  function Flat(lines: seq<string>): string {
    if lines == [] then "" else lines[0] + Flat(lines[1..])
  }

  lemma {:induction false} ScannedConcat(s: Scan, a: string, b: string)
    ensures Scanned(s, a + b) == Scanned(Scanned(s, a), b)
    decreases |a|
  {
    if a == "" {
      assert a + b == b;
    } else if !s.done {
      assert (a + b)[0] == a[0] && (a + b)[1..] == a[1..] + b;
      ScannedConcat(Step(s, a[0]), a[1..], b);
    }
  }

  lemma {:induction false} ItemLinesIsLeast(lines: seq<string>, s: Scan, m: nat)
    requires m <= |lines| && !s.done
    ensures Scanned(s, Flat(lines[..m])).done <==> m >= ItemLines(lines, s) && ItemCloses(lines, s)
  {
    if m == 0 {
      assert lines[..0] == [];
    } else {
      var after := Scanned(s, lines[0]);
      assert lines[..m][0] == lines[0] && lines[..m][1..] == lines[1..][..m - 1];
      ScannedConcat(s, lines[0], Flat(lines[1..][..m - 1]));
      if !after.done {
        ItemLinesIsLeast(lines[1..], after, m - 1);
      }
    }
  }

  /** The blanked region: the fewest lines, from the attribute on, whose characters contain
      the scan's end. */
  lemma RegionEndsWithTheItem(lines: seq<string>, m: nat)
    requires m <= |lines|
    ensures (exists k :: 0 <= k < |Flat(lines[..m])| && EndsAt(Flat(lines[..m]), k))
            <==> m >= ItemLines(lines, START) && ItemCloses(lines, START)
  {
    ScannerCountsBraces(Flat(lines[..m]));
    ItemLinesIsLeast(lines, START, m);
  }
}
