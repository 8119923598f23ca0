/** The string operations the tools share: substring search and blank trimming. */
module Text {

  /** `part in s`. */
  predicate Contains(s: string, part: string) {
    part <= s || (s != "" && Contains(s[1..], part))
  }

  /** Found means that it stands somewhere. */
  lemma {:induction false} ContainsMeans(s: string, part: string)
    ensures Contains(s, part) <==> exists front, back :: s == front + part + back
  {
    if part <= s {
      assert s == "" + part + s[|part|..];
    } else if s != "" {
      ContainsMeans(s[1..], part);
      if Contains(s[1..], part) {
        var front, back :| s[1..] == front + part + back;
        assert s == [s[0]] + front + part + back;
      }
      if front, back :| s == front + part + back {
        NotAtTheFront(s, front, part, back);
      }
    }
  }

  lemma NotAtTheFront(s: string, front: string, part: string, back: string)
    requires s == front + part + back && !(part <= s)
    ensures front != "" && s[1..] == front[1..] + part + back
  {
    assert front == "" ==> s == part + back;
  }

  /** `str.isspace` of one character. */
  predicate IsSpace(c: char) {
    var n := c as int;
    n == 32 || 9 <= n <= 13 || 28 <= n <= 31 || n == 0x85 || n == 0xA0 || n == 0x1680
    || 0x2000 <= n <= 0x200A || n == 0x2028 || n == 0x2029 || n == 0x202F || n == 0x205F || n == 0x3000
  }

  function LStrip(s: string): string {
    if s != "" && IsSpace(s[0]) then LStrip(s[1..]) else s
  }

  function RStrip(s: string): (r: string)
    ensures r <= s
    ensures r != "" ==> !IsSpace(r[|r| - 1])
  {
    if s != "" && IsSpace(s[|s| - 1]) then RStrip(s[..|s| - 1]) else s
  }

  function Strip(s: string): string { RStrip(LStrip(s)) }

  /** The blanks, by code point. */
  lemma BlanksAre(c: char)
    ensures IsSpace(c) <==> c as int in {
      9, 10, 11, 12, 13, 28, 29, 30, 31, 32, 133, 160, 5760, 8192, 8193, 8194, 8195, 8196, 8197, 8198, 8199,
      8200, 8201, 8202, 8232, 8233, 8239, 8287, 12288}
  {}

  /** No blank at either end. */
  ghost predicate Trimmed(s: string) { s != "" ==> !IsSpace(s[0]) && !IsSpace(s[|s| - 1]) }

  lemma {:induction false} LStripMeans(s: string) returns (lead: string)
    ensures s == lead + LStrip(s) && AllSpace(lead)
    ensures LStrip(s) != "" ==> !IsSpace(LStrip(s)[0])
  {
    lead := "";
    if s != "" && IsSpace(s[0]) {
      var rest := LStripMeans(s[1..]);
      lead := [s[0]] + rest;
    }
  }

  lemma {:induction false} RStripMeans(s: string) returns (trail: string)
    ensures s == RStrip(s) + trail && AllSpace(trail)
  {
    trail := "";
    if s != "" && IsSpace(s[|s| - 1]) {
      var rest := RStripMeans(s[..|s| - 1]);
      trail := rest + [s[|s| - 1]];
      assert s == s[..|s| - 1] + [s[|s| - 1]];
    }
  }

  /** Trimming takes away blanks at both ends, all of them and nothing else. */
  lemma StripMeans(s: string) returns (lead: string, trail: string)
    ensures s == lead + Strip(s) + trail && AllSpace(lead) && AllSpace(trail) && Trimmed(Strip(s))
  {
    lead := LStripMeans(s);
    trail := RStripMeans(LStrip(s));
    hide LStrip, RStrip, IsSpace, AllSpace;
    assert s == lead + (Strip(s) + trail);
    if Strip(s) != "" {
      assert Strip(s)[0] == LStrip(s)[0];
    }
  }

  ghost predicate AllSpace(s: string) { forall i :: 0 <= i < |s| ==> IsSpace(s[i]) }

  /** Trailing blanks, and nothing else, are dropped. */
  lemma {:induction false} RStripDropsBlanks(s: string, blanks: string)
    requires AllSpace(blanks) && (s != "" ==> !IsSpace(s[|s| - 1]))
    ensures RStrip(s + blanks) == s
  {
    if blanks == "" {
      assert s + blanks == s;
    } else {
      var t := s + blanks;
      assert t[|t| - 1] == blanks[|blanks| - 1];
      assert t[..|t| - 1] == s + blanks[..|blanks| - 1];
      RStripDropsBlanks(s, blanks[..|blanks| - 1]);
    }
  }

  /** Leading blanks are dropped up to the first character that is none. */
  lemma {:induction false} LStripStops(s: string, rest: string)
    requires rest != "" && !IsSpace(rest[0])
    ensures LStrip(s + rest) == LStrip(s) + rest
  {
    if s == "" {
      assert s + rest == rest;
    } else {
      assert (s + rest)[0] == s[0] && (s + rest)[1..] == s[1..] + rest;
      if IsSpace(s[0]) {
        LStripStops(s[1..], rest);
      }
    }
  }
}
