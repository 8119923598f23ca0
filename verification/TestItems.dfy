/** Does the blanked region end where the test item does?  The scanner's rule against the brace
    that closes the item's first one (scripts/argv-utf8.py, `mask_test_regions`). */
module TestItems {
  import opened TestMask

  /** How many braces opened from `o` on are still open after `k`. */
  function Open(text: string, o: nat, k: nat): int
    requires o <= k < |text|
  {
    Count(text[o..k + 1], '{') - Count(text[o..k + 1], '}')
  }

  /** `o` is the first opening brace of the text and `c` the brace that closes it. */
  ghost predicate Closes(text: string, o: nat, c: nat) {
    && o < c < |text|
    && text[o] == '{' && '{' !in text[..o]
    && text[c] == '}' && Open(text, o, c) == 0
    && forall k :: o < k < c ==> Open(text, o, k) > 0
  }

  /** The scan of an item ends on character `k`. */
  ghost predicate StopsAt(text: string, k: nat) {
    k < |text| && EndsAt(text, k) && forall m :: 0 <= m < k ==> !EndsAt(text, m)
  }

  lemma {:induction false} CountConcat(a: string, b: string, c: char)
    ensures Count(a + b, c) == Count(a, c) + Count(b, c)
  {
    if b == "" {
      assert a + b == a;
    } else {
      assert (a + b)[..|a + b| - 1] == a + b[..|b| - 1];
      CountConcat(a, b[..|b| - 1], c);
    }
  }

  /** Before the first brace only a semicolon ends the item. */
  lemma EndsBeforeBrace(text: string, o: nat, k: nat)
    requires k <= o < |text| && text[o] == '{' && '{' !in text[..o]
    ensures EndsAt(text, k) <==> text[k] == ';'
  {
    assert '{' !in text[..k];
    CountAbsent(text[..k], '{');
    if k < o { assert text[k] == text[..o][k]; }
  }

  /** After it, a closing brace that the stray ones in front help to balance. */
  lemma EndsAfterBrace(text: string, o: nat, k: nat)
    requires o < k < |text| && text[o] == '{' && '{' !in text[..o]
    ensures EndsAt(text, k) <==>
      text[k] == '}' && Open(text, o, k) <= Count(text[..o], '}')
  {
    assert text[..k + 1] == text[..o] + text[o..k + 1];
    CountConcat(text[..o], text[o..k + 1], '{');
    CountConcat(text[..o], text[o..k + 1], '}');
    CountAbsent(text[..o], '{');
    assert '{' in text[..k] by { assert text[..k][o] == '{'; }
    CountAbsent(text[..k], '{');
  }

  lemma {:induction false} LastOf(text: string, x: char) returns (k: nat)
    requires x in text
    ensures k < |text| && text[k] == x && x !in text[k + 1..]
  {
    k := |text| - 1;
    if text[k] != x {
      var init := text[..k];
      assert text == init + [text[k]];
      k := LastOf(init, x);
      assert text[k + 1..] == init[k + 1..] + [text[|text| - 1]];
    }
  }

  /** The last closing brace inside leaves exactly the item's own brace open. */
  lemma LastInnerBrace(text: string, o: nat, c: nat) returns (k: nat)
    requires Closes(text, o, c) && '}' in text[o + 1..c]
    ensures o < k < c && text[k] == '}' && Open(text, o, k) <= 1
  {
    k := LastOf(text[o + 1..c], '}');
    k := o + 1 + k;
    var tail := text[k + 1..c];
    assert tail == text[o + 1..c][k - o..];
    OpenStep(text, o, k, c);
    CountAbsent(tail, '}');
  }

  lemma OpenStep(text: string, o: nat, k: nat, c: nat)
    requires o <= k < c < |text| && text[c] == '}'
    ensures Open(text, o, c)
            == Open(text, o, k) + Count(text[k + 1..c], '{') - Count(text[k + 1..c], '}') - 1
  {
    var front, tail := text[o..k + 1], text[k + 1..c];
    assert text[o..c + 1] == front + (tail + [text[c]]);
    CountConcat(front, tail + [text[c]], '{');
    CountConcat(front, tail + [text[c]], '}');
    CountConcat(tail, [text[c]], '{');
    CountConcat(tail, [text[c]], '}');
    assert [text[c]][..0] == "";
    assert Count([text[c]], '}') == 1 && Count([text[c]], '{') == 0;
  }

  /** The scan ends on the brace that closes the item's first one exactly when no semicolon
      comes before that first brace, and no stray closing brace does unless nothing inside the
      item is closed. */
  lemma StopsAtItsBraceIff(text: string, o: nat, c: nat)
    requires Closes(text, o, c)
    ensures StopsAt(text, c) <==>
      ';' !in text[..o] && ('}' !in text[..o] || '}' !in text[o + 1..c])
  {
    hide Count, EndsAt, Open;
    EndsAfterBrace(text, o, c);
    CountAbsent(text[..o], '}');
    forall k | 0 <= k <= o ensures EndsAt(text, k) <==> text[k] == ';' { EndsBeforeBrace(text, o, k); }
    forall k | o < k < c
      ensures EndsAt(text, k) <==>
        text[k] == '}' && Open(text, o, k) <= Count(text[..o], '}')
    {
      EndsAfterBrace(text, o, k);
    }
    if ';' in text[..o] {
      var m :| 0 <= m < o && text[..o][m] == ';';
      assert EndsAt(text, m);
    } else if '}' in text[..o] && '}' in text[o + 1..c] {
      var k := LastInnerBrace(text, o, c);
      assert EndsAt(text, k);
    } else {
      forall m | 0 <= m < c ensures !EndsAt(text, m) {
        if m < o {
          assert text[m] == text[..o][m];
        } else if m > o && text[m] == '}' {
          assert text[m] == text[o + 1..c][m - o - 1];
        }
      }
    }
  }

  // ----- in lines

  lemma {:induction false} FlatPrefix(lines: seq<string>, m: nat)
    requires m <= |lines|
    ensures Flat(lines[..m]) <= Flat(lines)
  {
    if m > 0 {
      FlatPrefix(lines[1..], m - 1);
      assert lines[..m][1..] == lines[1..][..m - 1];
    }
  }

  lemma EndsInPrefix(text: string, front: string, k: nat)
    requires front <= text && k < |front|
    ensures EndsAt(front, k) <==> EndsAt(text, k)
  {
    assert front == text[..|front|];
    assert front[..k] == text[..k] && front[..k + 1] == text[..k + 1];
  }

  lemma EndsInFront(lines: seq<string>, m: nat, c: nat)
    requires m <= |lines| && StopsAt(Flat(lines), c)
    ensures (exists k :: 0 <= k < |Flat(lines[..m])| && EndsAt(Flat(lines[..m]), k)) <==> c < |Flat(lines[..m])|
  {
    FlatPrefix(lines, m);
    hide Flat, EndsAt;
    var text, front := Flat(lines), Flat(lines[..m]);
    forall k | 0 <= k < |front| ensures EndsAt(front, k) <==> EndsAt(text, k) { EndsInPrefix(text, front, k); }
  }

  /** The blanked lines are exactly those up to the one on which the scan ends. */
  lemma RegionReachesTheStop(lines: seq<string>, c: nat)
    requires StopsAt(Flat(lines), c)
    ensures var m := ItemLines(lines, START);
      1 <= m <= |lines| && |Flat(lines[..m - 1])| <= c < |Flat(lines[..m])|
  {
    var m := ItemLines(lines, START);
    assert lines != [];
    EndsInFront(lines, |lines|, c);
    RegionEndsWithTheItem(lines, |lines|);
    assert lines[..|lines|] == lines;
    EndsInFront(lines, m, c);
    RegionEndsWithTheItem(lines, m);
    EndsInFront(lines, m - 1, c);
    RegionEndsWithTheItem(lines, m - 1);
    hide ItemLines, Flat;
  }

  // ----- a signature with a semicolon in it

  lemma SemicolonEnds(line: string, k: nat)
    requires k < |line| && line[k] == ';' && '{' !in line[..k]
    ensures Scanned(START, line).done
  {
    CountAbsent(line[..k], '{');
    assert EndsAt(line, k);
    hide EndsAt, Scanned;
    ScannerCountsBraces(line);
  }

  lemma MaskedSignature(attribute: string, signature: string, body: seq<string>)
    requires HasTestAttribute(attribute) && Scanned(START, attribute) == START
    requires Scanned(START, signature).done
    requires forall i :: 0 <= i < |body| ==> !HasTestAttribute(body[i])
    ensures Mask([attribute, signature] + body) == ["", ""] + body
  {
    var lines := [attribute, signature] + body;
    hide HasTestAttribute, Scanned, Mask;
    assert lines[1..] == [signature] + body && lines[2..] == body && lines[0..] == lines;
    assert ItemLines(lines[1..], START) == 1;
    assert ItemLines(lines, START) == 2;
    MaskSuffix(lines, 0);
    MaskOfClean(body);
    assert Blanks(2) == ["", ""];
  }

  lemma ArrayTypeEnds()
    ensures Scanned(START, "fn f(a: [u8; 4]) {").done
  {
    hide *;
    assert "fn f(a: [u8; 4]) {"[..11] == "fn f(a: [u8";
    SemicolonEnds("fn f(a: [u8; 4]) {", 11);
  }

  lemma ClosingLine()
    ensures !HasTestAttribute("}")
  {
    assert "}"[1..] == "";
  }

  /** A semicolon in an array type ends the scan: the lines of the body are not blanked. */
  lemma ArrayTypeEndsTheScan()
    ensures Mask(["#[cfg(test)]", "fn f(a: [u8; 4]) {", "}"]) == ["", "", "}"]
  {
    hide *;
    ArrayTypeEnds();
    ClosingLine();
    var attribute, signature, body := "#[cfg(test)]", "fn f(a: [u8; 4]) {", "}";
    AttributeLine(attribute);
    MaskedSignature(attribute, signature, [body]);
    assert [attribute, signature] + [body] == [attribute, signature, body];
    assert ["", ""] + [body] == ["", "", body];
  }
}
