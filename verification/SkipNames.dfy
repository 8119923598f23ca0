/** Naming the self-test sections a boot skipped, and telling those that ran elsewhere
    from those that never ran (scripts/boot-history.py). */
module SkipNames {
  import opened Wrappers
  import opened Order
  import opened Text

  // ----- dropping the reason

  /** Scans back from `i`: the opening parenthesis that brings the balance to zero. */
  function OpeningOf(text: string, i: nat, depth: int): Option<nat>
    requires i <= |text|
  {
    if i == 0 then None
    else if text[i - 1] == ')' then OpeningOf(text, i - 1, depth + 1)
    else if text[i - 1] == '(' then
      if depth - 1 == 0 then Some(i - 1) else OpeningOf(text, i - 1, depth - 1)
    else OpeningOf(text, i - 1, depth)
  }

  function StripTrailingParen(text: string): string {
    var t := RStrip(text);
    if t == "" || t[|t| - 1] != ')' then t
    else match OpeningOf(t, |t|, 0)
      case None => t
      case Some(i) => if i <= |t| then RStrip(t[..i]) else t
  }

  method DropTrailingParen(text: string) returns (result: string)
    ensures result == StripTrailingParen(text)
  {
    var t := RStrip(text);
    if t == "" || t[|t| - 1] != ')' {
      return t;
    }
    var depth := 0;
    var i := |t|;
    while i > 0
      invariant 0 <= i <= |t|
      invariant OpeningOf(t, |t|, 0) == OpeningOf(t, i, depth)
    {
      i := i - 1;
      if t[i] == ')' {
        depth := depth + 1;
      } else if t[i] == '(' {
        depth := depth - 1;
        if depth == 0 {
          return RStrip(t[..i]);
        }
      }
    }
    result := t;
  }

  /** Opened minus closed. */
  function Depth(s: string): int {
    if s == "" then 0
    else Depth(s[..|s| - 1]) + (if s[|s| - 1] == '(' then 1 else if s[|s| - 1] == ')' then -1 else 0)
  }

  /** Every parenthesis matched inside, to any depth of nesting. */
  ghost predicate Balanced(s: string) {
    Depth(s) == 0 && forall k :: 0 <= k <= |s| ==> Depth(s[..k]) >= 0
  }

  lemma {:induction false} DepthConcat(a: string, b: string)
    ensures Depth(a + b) == Depth(a) + Depth(b)
  {
    if b == "" {
      assert a + b == a;
    } else {
      assert (a + b)[..|a + b| - 1] == a + b[..|b| - 1];
      DepthConcat(a, b[..|b| - 1]);
    }
  }

  /** Closed minus opened in what stands from `k` on. */
  function Excess(t: string, k: nat): int
    requires k <= |t|
  {
    -Depth(t[k..])
  }

  lemma ExcessStep(t: string, k: nat)
    requires k < |t|
    ensures Excess(t, |t|) == 0
    ensures Excess(t, k) == Excess(t, k + 1) + (if t[k] == ')' then 1 else if t[k] == '(' then -1 else 0)
  {
    assert t[k..] == [t[k]] + t[k + 1..] && t[|t|..] == "";
    DepthConcat([t[k]], t[k + 1..]);
    assert Depth([t[k]]) == (if t[k] == '(' then 1 else if t[k] == ')' then -1 else 0) by {
      assert [t[k]][..0] == "";
    }
  }

  /** Everything from `p` on is one group: more is closed than opened until `p` itself. */
  ghost predicate GroupFrom(t: string, p: nat) {
    && p + 1 < |t| && Excess(t, p) == 0
    && forall q :: p < q < |t| ==> Excess(t, q) >= 1
  }

  lemma {:induction false} OpeningMeans(t: string, i: nat)
    requires i < |t| && forall q :: i <= q < |t| ==> Excess(t, q) >= 1
    ensures match OpeningOf(t, i, Excess(t, i))
      case None => forall p: nat :: !GroupFrom(t, p)
      case Some(p) => p < i && GroupFrom(t, p)
    decreases i
  {
    if i == 0 {
      forall p: nat ensures !GroupFrom(t, p) {
        assert p < |t| ==> Excess(t, p) >= 1;
      }
    } else {
      ExcessStep(t, i - 1);
      if Excess(t, i - 1) >= 1 {
        OpeningMeans(t, i - 1);
      }
    }
  }

  /** A group at the end is a parenthesised, balanced reason. */
  lemma GroupIsBalanced(t: string, p: nat)
    ensures GroupFrom(t, p) <==> exists reason :: Balanced(reason) && p <= |t| && t[p..] == "(" + reason + ")"
  {
    if GroupFrom(t, p) {
      GroupHasReason(t, p);
    }
    if exists reason :: Balanced(reason) && p <= |t| && t[p..] == "(" + reason + ")" {
      var reason :| Balanced(reason) && p <= |t| && t[p..] == "(" + reason + ")";
      ReasonMakesGroup(t, p, reason);
    }
  }

  lemma GroupHasReason(t: string, p: nat)
    requires GroupFrom(t, p)
    ensures exists reason :: Balanced(reason) && t[p..] == "(" + reason + ")"
  {
    ExcessStep(t, p);
    ExcessStep(t, |t| - 1);
    assert Excess(t, p + 1) == 1 && Excess(t, |t| - 1) == 1;
    var reason := t[p + 1..|t| - 1];
    assert t[p..] == "(" + reason + ")";
    forall k | 0 <= k <= |reason| ensures Depth(reason[..k]) >= 0 {
      assert t[p + 1..] == reason[..k] + t[p + 1 + k..];
      assert Excess(t, p + 1 + k) >= 1;
      DepthConcat(reason[..k], t[p + 1 + k..]);
    }
    assert reason[..|reason|] == reason;
    assert t[p + 1..] == reason + t[|t| - 1..];
    DepthConcat(reason, t[|t| - 1..]);
    assert Balanced(reason);
  }

  lemma SuffixCloses(reason: string, k: nat)
    requires Balanced(reason) && k <= |reason|
    ensures Depth(reason[k..] + ")") <= -1
    ensures Depth(reason + ")") == -1
  {
    assert reason == reason[..k] + reason[k..];
    DepthConcat(reason[..k], reason[k..]);
    DepthConcat(reason[k..], ")");
    DepthConcat(reason, ")");
    assert ")"[..0] == "";
  }

  lemma ReasonMakesGroup(t: string, p: nat, reason: string)
    requires Balanced(reason) && p <= |t| && t[p..] == "(" + reason + ")"
    ensures GroupFrom(t, p)
  {
    hide Depth, Balanced;
    assert |t| == p + |reason| + 2 && t[p] == t[p..][0] == '(';
    forall q | p < q < |t| ensures Excess(t, q) >= 1 {
      var k := q - p - 1;
      assert t[q..] == t[p..][q - p..];
      assert t[p..][q - p..] == reason[k..] + ")";
      SuffixCloses(reason, k);
    }
    assert t[p + 1..] == t[p..][1..];
    assert t[p..][1..] == reason + ")";
    SuffixCloses(reason, 0);
    assert Excess(t, p + 1) == 1;
    hide Excess;
    ExcessStep(t, p);
  }

  /** A balanced reason, nested to any depth, comes off whole; blanks around it too. */
  lemma ReasonIsStripped(name: string, reason: string, blanks: string)
    requires Balanced(reason) && AllSpace(blanks)
    ensures StripTrailingParen(name + "(" + reason + ")" + blanks) == RStrip(name)
  {
    hide *;
    var t := name + "(" + reason + ")";
    var p := |name|;
    assert t != "" && t[|t| - 1] == ')';
    ParenIsNoSpace();
    RStripDropsBlanks(t, blanks);
    assert t[p..] == "(" + reason + ")";
    ReasonMakesGroup(t, p, reason);
    OpeningFromEnd(t);
    OneGroupOnly(t, p, OpeningOf(t, |t|, 0).value);
    StripAtOpening(t + blanks, t, p);
    assert t[..p] == name;
    assert t + blanks == name + "(" + reason + ")" + blanks;
  }

  lemma ParenIsNoSpace()
    ensures !IsSpace(')')
  {}

  lemma StripAtOpening(text: string, t: string, p: nat)
    requires RStrip(text) == t && t != "" && t[|t| - 1] == ')' && p <= |t| && OpeningOf(t, |t|, 0) == Some(p)
    ensures StripTrailingParen(text) == RStrip(t[..p])
  {}

  lemma OpeningFromEnd(t: string)
    requires t != "" && t[|t| - 1] == ')'
    ensures match OpeningOf(t, |t|, 0)
      case None => forall p: nat :: !GroupFrom(t, p)
      case Some(p) => GroupFrom(t, p)
  {
    ExcessStep(t, |t| - 1);
    OpeningMeans(t, |t| - 1);
  }

  lemma OneGroupOnly(t: string, p: nat, q: nat)
    requires GroupFrom(t, p) && GroupFrom(t, q)
    ensures p == q
  {
    hide Excess;
  }

  ghost predicate EndsInReason(t: string) {
    exists p: nat, reason :: p <= |t| && Balanced(reason) && t[p..] == "(" + reason + ")"
  }

  /** The text is only trimmed on the right exactly when it ends in no balanced group. */
  lemma OnlyTrimmedWithoutReason(text: string)
    ensures StripTrailingParen(text) == RStrip(text) <==> !EndsInReason(RStrip(text))
  {
    var t := RStrip(text);
    hide RStrip;
    if EndsInReason(t) {
      var p: nat, reason :| p <= |t| && Balanced(reason) && t[p..] == "(" + reason + ")";
      ReasonMakesGroup(t, p, reason);
      assert t[|t| - 1] == t[p..][|t[p..]| - 1];
      OpeningFromEnd(t);
      StripAtOpening(text, t, OpeningOf(t, |t|, 0).value);
    } else if t != "" && t[|t| - 1] == ')' {
      OpeningFromEnd(t);
      if OpeningOf(t, |t|, 0).Some? {
        GroupIsBalanced(t, OpeningOf(t, |t|, 0).value);
      }
    }
  }

  // ----- unbalanced text

  lemma {:induction false} BlanksHaveNoDepth(s: string)
    ensures Depth(RStrip(s)) == Depth(s)
    ensures Balanced(RStrip(s)) <==> Balanced(s)
  {
    if s != "" && IsSpace(s[|s| - 1]) {
      var init := s[..|s| - 1];
      BlanksHaveNoDepth(init);
      assert Depth(s) == Depth(init);
      assert s[..|s|] == s;
      assert forall k :: 0 <= k <= |init| ==> s[..k] == init[..k];
    }
  }

  lemma GroupPrefixDepth(name: string, reason: string, k: nat)
    requires Balanced(reason) && k <= |reason| + 2
    ensures var t := name + ("(" + reason + ")");
      Depth(t[..|name| + k]) == Depth(name) + (if 0 < k < |reason| + 2 then 1 + Depth(reason[..k - 1]) else 0)
  {
    var group := "(" + reason + ")";
    GroupPrefixes(reason, k);
    DepthConcat(name, group[..k]);
    assert (name + group)[..|name| + k] == name + group[..k];
  }

  /** A balanced group at the end changes neither the balance nor whether all is matched. */
  lemma GroupHasNoDepth(name: string, reason: string)
    requires Balanced(reason)
    ensures Depth(name + ("(" + reason + ")")) == Depth(name)
    ensures Balanced(name + ("(" + reason + ")")) <==> Balanced(name)
  {
    var t := name + ("(" + reason + ")");
    GroupPrefixDepth(name, reason, |reason| + 2);
    assert t[..|t|] == t;
    hide Depth;
    assert forall k :: 0 <= k <= |name| ==> t[..k] == name[..k];
    if Balanced(name) {
      forall k | 0 <= k <= |t| ensures Depth(t[..k]) >= 0 {
        if k > |name| {
          var j := k - |name|;
          GroupPrefixDepth(name, reason, j);
          assert k == |name| + j;
          assert j <= |reason| + 1 ==> Depth(reason[..j - 1]) >= 0;
        } else {
          assert t[..k] == name[..k];
        }
      }
    }
  }

  lemma GroupPrefixes(reason: string, k: nat)
    requires Balanced(reason) && k <= |reason| + 2
    ensures var group := "(" + reason + ")";
      Depth(group[..k]) == if 0 < k < |group| then 1 + Depth(reason[..k - 1]) else 0
  {
    var group := "(" + reason + ")";
    if 0 < k < |group| {
      assert group[..k] == "(" + reason[..k - 1];
      DepthConcat("(", reason[..k - 1]);
      assert Depth("(") == 1 by { assert "("[..0] == ""; }
    } else if k == |group| {
      assert group[..k] == ("(" + reason) + ")";
      DepthConcat("(", reason);
      DepthConcat("(" + reason, ")");
      assert Depth("(") == 1 by { assert "("[..0] == ""; }
      assert Depth(")") == -1 by { assert ")"[..0] == ""; }
    }
  }

  /** Trimming never mends a text: what was unbalanced stays so, by as much. */
  lemma TrimmingKeepsBalance(text: string)
    ensures Depth(StripTrailingParen(text)) == Depth(text)
    ensures Balanced(StripTrailingParen(text)) <==> Balanced(text)
  {
    var t := RStrip(text);
    BlanksHaveNoDepth(text);
    hide Depth, Balanced, RStrip;
    if t != "" && t[|t| - 1] == ')' {
      OpeningFromEnd(t);
      if OpeningOf(t, |t|, 0).Some? {
        var p := OpeningOf(t, |t|, 0).value;
        GroupHasReason(t, p);
        var reason :| Balanced(reason) && t[p..] == "(" + reason + ")";
        assert t == t[..p] + ("(" + reason + ")");
        GroupHasNoDepth(t[..p], reason);
        BlanksHaveNoDepth(t[..p]);
        StripAtOpening(text, t, p);
      }
    }
  }

  /** Text whose parentheses do not match comes back unchanged exactly when it ends in no
      balanced group of its own; otherwise it is half trimmed, and still unbalanced. */
  lemma UnbalancedIsUnchangedIff(text: string)
    requires !Balanced(text)
    ensures StripTrailingParen(text) == RStrip(text) <==> !EndsInReason(RStrip(text))
    ensures !Balanced(StripTrailingParen(text)) && Depth(StripTrailingParen(text)) == Depth(text)
  {
    OnlyTrimmedWithoutReason(text);
    TrimmingKeepsBalance(text);
  }

  /** One closing parenthesis is missing, and half of the reason stays. */
  lemma HalfTrimmedExample()
    ensures !Balanced("foo (a (b)") && Depth("foo (a (b)") == 1
    ensures StripTrailingParen("foo (a (b)") == "foo (a"
  {
    hide *;
    LetterIsBalanced();
    assert "foo (a (b)" == "foo (a " + "(" + "b" + ")" + "";
    ReasonIsStripped("foo (a ", "b", "");
    RStripDropsBlanks("foo (a", " ");
    assert "foo (a" + " " == "foo (a ";
    GroupHasNoDepth("foo (a ", "b");
    assert "foo (a (b)" == "foo (a " + ("(" + "b" + ")");
    OneOpen();
  }

  lemma LetterIsBalanced()
    ensures Balanced("b") && AllSpace("") && AllSpace(" ") && !IsSpace('a')
  {
    assert "b"[..0] == "" && "b"[..1] == "b";
  }

  lemma OneOpen()
    ensures Depth("foo (a ") == 1 && !Balanced("foo (a ")
  {
    NoParenNoDepth("foo ");
    NoParenNoDepth("a ");
    assert Depth("(") == 1 by { assert "("[..0] == ""; }
    assert "foo (a " == "foo " + ("(" + "a ");
    DepthConcat("foo ", "(" + "a ");
    DepthConcat("(", "a ");
    hide Depth;
  }

  lemma {:induction false} NoParenNoDepth(s: string)
    requires forall i :: 0 <= i < |s| ==> s[i] != '(' && s[i] != ')'
    ensures Depth(s) == 0
  {
    if s != "" {
      NoParenNoDepth(s[..|s| - 1]);
    }
  }

  // ----- one stable name

  predicate Trails(c: char) {
    c == ' ' || c == '\t' || c == ':' || c == '-' || c == '\U{2014}' || c == '\U{2013}' || c == '.'
  }

  function TrimLeading(s: string): string { if s != "" && Trails(s[0]) then TrimLeading(s[1..]) else s }

  function TrimTrailing(s: string): string {
    if s != "" && Trails(s[|s| - 1]) then TrimTrailing(s[..|s| - 1]) else s
  }

  /** Words joined by single blanks: `" ".join(section.split())`. */
  function Collapse(s: string, inWord: bool, started: bool): string {
    if s == "" then ""
    else if IsSpace(s[0]) then Collapse(s[1..], false, started)
    else (if !inWord && started then " " else "") + [s[0]] + Collapse(s[1..], true, true)
  }

  function SectionOf(before: string, after: string): string {
    var section := StripTrailingParen(Strip(Strip(before) + " " + Strip(after)));
    TrimTrailing(TrimLeading(Collapse(section, false, false)))
  }

  function SkipName(tag: string, before: string, after: string): string {
    RStrip(tag + " " + SectionOf(before, after))
  }

  /** The name carries nothing of the reason, so two boots that give different reasons
      still name one section alike. */
  lemma NameIgnoresReason(tag: string, before: string, after: string, reason: string)
    requires Balanced(reason)
    ensures SkipName(tag, before, after + "(" + reason + ")") == SkipName(tag, before, after + "()")
  {
    hide StripTrailingParen, LStrip, RStrip;
    SectionWithoutReason(before, after, reason);
    assert Depth("") == 0 && Balanced("");
    SectionWithoutReason(before, after, "");
    assert after + "(" + "" + ")" == after + "()";
  }

  lemma TrimAround(s: string, group: string)
    requires group != "" && group[0] == '(' && group[|group| - 1] == ')'
    ensures Strip(s + group) == LStrip(s) + group
  {
    ParenStays();
    hide *;
    LStripStops(s, group);
    var t := LStrip(s) + group;
    assert t[|t| - 1] == ')';
    RStripDropsBlanks(t, "");
    assert t + "" == t;
    StripUnfold(s + group);
  }

  lemma ParenStays()
    ensures !IsSpace('(') && !IsSpace(')') && AllSpace("")
  {}

  lemma StripUnfold(s: string)
    ensures Strip(s) == RStrip(LStrip(s))
  {
    hide LStrip, RStrip;
  }

  lemma SectionWithoutReason(before: string, after: string, reason: string)
    requires Balanced(reason)
    ensures StripTrailingParen(Strip(Strip(before) + " " + Strip(after + "(" + reason + ")")))
            == RStrip(LStrip(Strip(before) + " " + LStrip(after)))
  {
    hide StripTrailingParen, Strip, LStrip, RStrip, Balanced;
    var group := "(" + reason + ")";
    assert after + "(" + reason + ")" == after + group;
    TrimAround(after, group);
    var front := Strip(before) + " " + LStrip(after);
    assert Strip(before) + " " + (LStrip(after) + group) == front + group;
    TrimAround(front, group);
    var name := LStrip(front);
    assert AllSpace("");
    ReasonIsStripped(name, reason, "");
    assert name + "(" + reason + ")" + "" == name + group;
  }

  // ----- what is left of the section

  /** The characters trimmed off a section: blank, tab, colon, full stop and three kinds of dash. */
  lemma TrimmedCharacters(c: char)
    ensures Trails(c) <==> c as int in {9, 32, 45, 46, 58, 8211, 8212}
  {}

  function FirstWord(s: string): (w: string)
    ensures w <= s && (s != "" && !IsSpace(s[0]) ==> w != "")
  {
    if s == "" || IsSpace(s[0]) then "" else [s[0]] + FirstWord(s[1..])
  }

  /** The runs of characters between blanks: `str.split`. */
  ghost function Words(s: string): seq<string>
    decreases |s|
  {
    if s == "" then []
    else if IsSpace(s[0]) then Words(s[1..])
    else [FirstWord(s)] + Words(s[|FirstWord(s)|..])
  }

  /** Words with one blank between any two. */
  ghost function Spaced(words: seq<string>): string {
    if words == [] then "" else if |words| == 1 then words[0] else words[0] + " " + Spaced(words[1..])
  }

  lemma {:induction false} CollapseInWord(s: string)
    ensures Collapse(s, true, true) == FirstWord(s) + Collapse(s[|FirstWord(s)|..], false, true)
  {
    if s != "" && !IsSpace(s[0]) {
      CollapseInWord(s[1..]);
      assert s[1..][|FirstWord(s[1..])|..] == s[|FirstWord(s)|..];
    } else {
      assert s[0..] == s;
    }
  }

  /** Collapsing joins the words. */
  lemma {:induction false} CollapseJoins(s: string, started: bool)
    ensures Collapse(s, false, started) == (if started && Words(s) != [] then " " else "") + Spaced(Words(s))
    decreases |s|
  {
    if s != "" {
      if IsSpace(s[0]) {
        CollapseJoins(s[1..], started);
      } else {
        var rest := s[|FirstWord(s)|..];
        CollapseFirst(s, started);
        hide *;
        CollapseJoins(rest, true);
        SpacedCons(FirstWord(s), Words(rest));
        Glued(if started then " " else "", FirstWord(s), (if Words(rest) != [] then " " else "") + Spaced(Words(rest)));
      }
    }
  }

  lemma Glued(a: string, b: string, c: string)
    ensures a + b + c == a + (b + c)
  {}

  lemma CollapseFirst(s: string, started: bool)
    requires s != "" && !IsSpace(s[0])
    ensures var w := FirstWord(s);
      && 0 < |w| <= |s| && Words(s) == [w] + Words(s[|w|..])
      && Collapse(s, false, started) == (if started then " " else "") + w + Collapse(s[|w|..], false, true)
  {
    FirstWordUnfold(s);
    CollapseUnfold(s, started);
    hide *;
    CollapseInWord(s[1..]);
    var sp, tail := if started then " " else "", FirstWord(s[1..]);
    var rest := Collapse(s[|FirstWord(s)|..], false, true);
    Glued(sp + [s[0]], tail, rest);
    Glued(sp, [s[0]], tail);
  }

  lemma FirstWordUnfold(s: string)
    requires s != "" && !IsSpace(s[0])
    ensures var w, tail := FirstWord(s), FirstWord(s[1..]);
      && w == [s[0]] + tail && |tail| < |w| <= |s| && s[1..][|tail|..] == s[|w|..]
      && Words(s) == [w] + Words(s[|w|..])
  {
    hide IsSpace;
  }

  lemma CollapseUnfold(s: string, started: bool)
    requires s != "" && !IsSpace(s[0])
    ensures Collapse(s, false, started) == (if started then " " else "") + [s[0]] + Collapse(s[1..], true, true)
  {
    hide IsSpace;
  }

  lemma SpacedCons(w: string, words: seq<string>)
    ensures Spaced([w] + words) == w + ((if words != [] then " " else "") + Spaced(words))
  {
    assert ([w] + words)[1..] == words;
  }

  ghost predicate AllTrail(s: string) { forall i :: 0 <= i < |s| ==> Trails(s[i]) }

  lemma {:induction false} TrimLeadingMeans(s: string) returns (lead: string)
    ensures s == lead + TrimLeading(s) && AllTrail(lead)
    ensures TrimLeading(s) != "" ==> !Trails(TrimLeading(s)[0])
  {
    lead := "";
    if s != "" && Trails(s[0]) {
      var rest := TrimLeadingMeans(s[1..]);
      lead := [s[0]] + rest;
    }
  }

  lemma {:induction false} TrimTrailingMeans(s: string) returns (trail: string)
    ensures s == TrimTrailing(s) + trail && AllTrail(trail)
    ensures TrimTrailing(s) != "" ==> !Trails(TrimTrailing(s)[|TrimTrailing(s)| - 1])
  {
    trail := "";
    if s != "" && Trails(s[|s| - 1]) {
      var rest := TrimTrailingMeans(s[..|s| - 1]);
      trail := rest + [s[|s| - 1]];
      assert s == s[..|s| - 1] + [s[|s| - 1]];
    }
  }

  /** `section` is `whole` without trimmed characters at its ends, all of them and nothing else. */
  ghost predicate TrimsTo(whole: string, section: string) {
    && (exists lead, trail :: whole == lead + section + trail && AllTrail(lead) && AllTrail(trail))
    && (section != "" ==> !Trails(section[0]) && !Trails(section[|section| - 1]))
  }

  /** A section is the words of its core -- the text around the skip less a balanced reason -- with
      one blank between them, trimmed. */
  lemma SectionIs(before: string, after: string)
    ensures var core := StripTrailingParen(Strip(Strip(before) + " " + Strip(after)));
      TrimsTo(Spaced(Words(core)), SectionOf(before, after))
  {
    hide StripTrailingParen, Strip, Trails, Words, Spaced;
    var core := StripTrailingParen(Strip(Strip(before) + " " + Strip(after)));
    CollapseJoins(core, false);
    var whole := Collapse(core, false, false);
    assert whole == Spaced(Words(core));
    hide Collapse;
    var lead := TrimLeadingMeans(whole);
    var trail := TrimTrailingMeans(TrimLeading(whole));
    var section := SectionOf(before, after);
    assert whole == lead + section + trail;
    assert section != "" ==> section[0] == TrimLeading(whole)[0];
  }

  lemma {:induction false} FirstWordStops(a: string, c: char, b: string)
    requires IsSpace(c)
    ensures FirstWord(a + [c] + b) == FirstWord(a)
  {
    var s := a + [c] + b;
    if a == "" {
      assert s[0] == c;
    } else {
      assert s[0] == a[0] && s[1..] == a[1..] + [c] + b;
      FirstWordStops(a[1..], c, b);
    }
  }

  /** A blank parts the words before it from those after it. */
  lemma {:induction false} WordsPart(a: string, c: char, b: string)
    requires IsSpace(c)
    ensures Words(a + [c] + b) == Words(a) + Words(b)
    decreases |a|
  {
    var s := a + [c] + b;
    if a == "" {
      assert s[0] == c && s[1..] == b;
    } else if IsSpace(a[0]) {
      assert s[0] == a[0] && s[1..] == a[1..] + [c] + b;
      WordsPart(a[1..], c, b);
    } else {
      var w := FirstWord(a);
      FirstWordStops(a, c, b);
      assert s[0] == a[0] && s[|w|..] == a[|w|..] + [c] + b;
      WordsPart(a[|w|..], c, b);
    }
  }

  lemma {:induction false} BlanksHaveNoWords(s: string)
    requires AllSpace(s)
    ensures Words(s) == []
  {
    if s != "" {
      BlanksHaveNoWords(s[1..]);
    }
  }

  lemma WordsBesideBlanks(blanks: string, s: string)
    requires AllSpace(blanks)
    ensures Words(blanks + s) == Words(s) && Words(s + blanks) == Words(s)
  {
    if blanks == "" {
      assert blanks + s == s && s + blanks == s;
    } else {
      BlanksHaveNoWords(blanks[1..]);
      var init, last := blanks[..|blanks| - 1], blanks[|blanks| - 1];
      BlanksHaveNoWords(init);
      hide Words, IsSpace;
      assert s + blanks == s + [blanks[0]] + blanks[1..];
      WordsPart(s, blanks[0], blanks[1..]);
      assert blanks + s == init + [last] + s;
      WordsPart(init, last, s);
    }
  }

  lemma WordsOfStripped(s: string)
    ensures Words(LStrip(s)) == Words(s) && Words(RStrip(s)) == Words(s) && Words(Strip(s)) == Words(s)
  {
    hide Words, LStrip, RStrip, AllSpace, IsSpace;
    var lead := LStripMeans(s);
    WordsBesideBlanks(lead, LStrip(s));
    var trail := RStripMeans(s);
    WordsBesideBlanks(trail, RStrip(s));
    var end := RStripMeans(LStrip(s));
    WordsBesideBlanks(end, Strip(s));
  }

  lemma WordsAround(before: string, after: string)
    ensures Words(Strip(before) + " " + Strip(after)) == Words(before) + Words(after)
    ensures Words(Strip(before) + " " + LStrip(after)) == Words(before) + Words(after)
  {
    assert IsSpace(' ');
    hide Words, Strip, LStrip, RStrip, IsSpace;
    WordsPart(Strip(before), ' ', Strip(after));
    WordsPart(Strip(before), ' ', LStrip(after));
    WordsOfStripped(before);
    WordsOfStripped(after);
  }

  /** The section's own words survive: with a reason at the end, or with none, they are all the
      words before and after the skip. */
  lemma SectionKeepsItsWords(before: string, after: string, reason: string)
    requires Balanced(reason)
    ensures TrimsTo(Spaced(Words(before) + Words(after)), SectionOf(before, after + "(" + reason + ")"))
    ensures !EndsInReason(RStrip(Strip(Strip(before) + " " + Strip(after)))) ==>
      TrimsTo(Spaced(Words(before) + Words(after)), SectionOf(before, after))
  {
    hide *;
    SectionIs(before, after + "(" + reason + ")");
    SectionWithoutReason(before, after, reason);
    WordsAround(before, after);
    var text := Strip(before) + " " + LStrip(after);
    WordsOfStripped(text);
    WordsOfStripped(LStrip(text));
    var whole := Strip(before) + " " + Strip(after);
    if !EndsInReason(RStrip(Strip(whole))) {
      SectionIs(before, after);
      OnlyTrimmedWithoutReason(Strip(whole));
      WordsOfStripped(whole);
      WordsOfStripped(Strip(whole));
    }
  }

  // ----- skipped here, ran there

  const MIN_COVER_KEY := 8

  /** What the line scanner makes of a skip announcement. */
  datatype Announcement = Announcement(tag: string, before: string, after: string, summary: bool)

  datatype LogLine = LogLine(text: string, skip: Option<Announcement>)

  /** `"skip" in line.lower()`; besides the ASCII letters only the Kelvin sign lowers to k. */
  predicate MentionsSkip(text: string) {
    exists i :: 0 <= i < |text| - 3
      && (text[i] == 's' || text[i] == 'S')
      && (text[i + 1] == 'k' || text[i + 1] == 'K' || text[i + 1] == '\U{212A}')
      && (text[i + 2] == 'i' || text[i + 2] == 'I')
      && (text[i + 3] == 'p' || text[i + 3] == 'P')
  }

  /** A bracketed tag with no closing bracket inside. */
  ghost predicate IsTag(tag: string) {
    |tag| >= 3 && tag[0] == '[' && tag[|tag| - 1] == ']' && forall i :: 0 <= i < |tag| - 1 ==> tag[i] != ']'
  }

  /** What the scanner's pattern guarantees of a line it matched. */
  ghost predicate Scanned(line: LogLine) {
    line.skip.Some? ==> MentionsSkip(line.text) && IsTag(line.skip.value.tag)
  }

  datatype Triple = Triple(name: string, tag: string, section: string)

  function TripleOf(a: Announcement): Triple {
    var name := SkipName(a.tag, a.before, a.after);
    Triple(name, a.tag, Strip(if |a.tag| <= |name| then name[|a.tag|..] else ""))
  }

  function Triples(lines: seq<LogLine>): set<Triple> {
    if lines == [] then {}
    else
      var skip := lines[0].skip;
      (if skip.Some? && !skip.value.summary && TripleOf(skip.value).name != "" then {TripleOf(skip.value)} else {})
      + Triples(lines[1..])
  }

  lemma {:induction false} CollapsedBlanks(s: string, inWord: bool, started: bool)
    ensures forall i :: 0 <= i < |Collapse(s, inWord, started)| && IsSpace(Collapse(s, inWord, started)[i]) ==>
              Collapse(s, inWord, started)[i] == ' '
  {
    if s != "" {
      CollapsedBlanks(s[1..], false, started);
      CollapsedBlanks(s[1..], true, true);
    }
  }

  /** A section has no blank at either end. */
  lemma SectionIsTrimmed(before: string, after: string)
    ensures Trimmed(SectionOf(before, after))
  {
    hide StripTrailingParen, Strip;
    assert Trails(' ');
    var core := StripTrailingParen(Strip(Strip(before) + " " + Strip(after)));
    CollapsedBlanks(core, false, false);
    var whole := Collapse(core, false, false);
    hide Collapse, Trails;
    var lead := TrimLeadingMeans(whole);
    var trail := TrimTrailingMeans(TrimLeading(whole));
    var section := SectionOf(before, after);
    assert whole == lead + section + trail;
    if section != "" {
      assert section[0] == TrimLeading(whole)[0];
      assert whole[|lead|] == section[0] && whole[|lead| + |section| - 1] == section[|section| - 1];
    }
  }

  /** What an announcement is filed under: its tag, its section, and the two with a blank between
      them as the name -- the tag alone where no section is left. */
  lemma TripleMeans(a: Announcement)
    requires IsTag(a.tag)
    ensures var section := SectionOf(a.before, a.after);
      TripleOf(a) == Triple(if section == "" then a.tag else a.tag + " " + section, a.tag, section)
  {
    var section := SectionOf(a.before, a.after);
    SectionIsTrimmed(a.before, a.after);
    hide SectionOf;
    TaggedName(a.tag, section);
  }

  lemma TaggedName(tag: string, section: string)
    requires IsTag(tag) && Trimmed(section)
    ensures var name := RStrip(tag + " " + section);
      && name == (if section == "" then tag else tag + " " + section)
      && |tag| <= |name| && Strip(name[|tag|..]) == section
  {
    assert !IsSpace(']') && AllSpace(" ") && AllSpace("") && Strip("") == "";
    assert tag != "" && tag[|tag| - 1] == ']';
    hide *;
    var whole := tag + " " + section;
    if section == "" {
      RStripDropsBlanks(tag, " ");
      assert whole == tag + " " && tag[|tag|..] == "";
    } else {
      LastOfTrimmed(section);
      RStripDropsBlanks(whole, "");
      assert whole + "" == whole && whole[|tag|..] == " " + section;
      StripOneBlank(section);
    }
  }

  lemma LastOfTrimmed(s: string)
    requires Trimmed(s) && s != ""
    ensures !IsSpace(s[|s| - 1])
  {}

  lemma StripOneBlank(s: string)
    requires Trimmed(s) && s != ""
    ensures Strip(" " + s) == s
  {
    assert AllSpace("");
    hide LStrip, RStrip, IsSpace, AllSpace;
    LStripStops(" ", s);
    BlankIsStripped();
    RStripDropsBlanks(s, "");
    assert s + "" == s && "" + s == s;
  }

  lemma BlankIsStripped()
    ensures LStrip(" ") == ""
  {
    assert " "[1..] == "";
  }

  /** The sections a log announces as skipped: one for each announcement that is no summary. */
  lemma {:induction false} TriplesMean(lines: seq<LogLine>, t: Triple)
    ensures t in Triples(lines) <==>
      t.name != "" && exists l :: l in lines && l.skip.Some? && !l.skip.value.summary && t == TripleOf(l.skip.value)
  {
    hide TripleOf;
    if lines != [] {
      TriplesMean(lines[1..], t);
      assert lines == [lines[0]] + lines[1..];
    }
  }

  function BeforeParen(s: string): string {
    if s == "" || s[0] == '(' then "" else [s[0]] + BeforeParen(s[1..])
  }

  /** The text a result line must contain to count as this section. */
  function CoverKey(section: string): string {
    var key := Strip(BeforeParen(section));
    if |key| < MIN_COVER_KEY then section else key
  }

  predicate Covers(line: LogLine, t: Triple) {
    && !MentionsSkip(line.text)
    && t.tag <= line.text
    && CoverKey(t.section) != ""
    && Contains(line.text, CoverKey(t.section))
  }

  predicate Ran(lines: seq<LogLine>, t: Triple) {
    exists i :: 0 <= i < |lines| && Covers(lines[i], t)
  }

  function UncoveredNames(lines: seq<LogLine>): set<string> {
    set t | t in Triples(lines) && !Ran(lines, t) :: t.name
  }

  function CoveredNames(lines: seq<LogLine>): set<string> {
    set t | t in Triples(lines) && Ran(lines, t) :: t.name
  }

  lemma {:induction false} BeforeParenStops(front: string, rest: string)
    requires '(' !in front
    ensures BeforeParen(front) == front && BeforeParen(front + "(" + rest) == front
  {
    var s := front + "(" + rest;
    if front == "" {
      assert s[0] == '(';
    } else {
      assert s[0] == front[0] && s[1..] == front[1..] + "(" + rest;
      BeforeParenStops(front[1..], rest);
    }
  }

  /** A section is looked for by what stands before its first parenthesis, or whole when that has
      fewer than eight characters. */
  lemma KeyMeans(section: string, front: string, rest: string)
    requires '(' !in front && (section == front || section == front + "(" + rest)
    ensures CoverKey(section) == if |Strip(front)| < 8 then section else Strip(front)
  {
    BeforeParenStops(front, rest);
    hide Strip, BeforeParen;
  }

  /** A line shows that a section ran when it begins with the tag, contains the key, and does not
      itself speak of skipping; nothing shows it for an empty section. */
  lemma CoversMeans(line: LogLine, t: Triple)
    ensures Covers(line, t) <==>
      && !MentionsSkip(line.text) && CoverKey(t.section) != ""
      && (exists rest :: line.text == t.tag + rest)
      && (exists front, back :: line.text == front + CoverKey(t.section) + back)
  {
    ContainsMeans(line.text, CoverKey(t.section));
    hide MentionsSkip, CoverKey, Contains;
    if t.tag <= line.text {
      assert line.text == t.tag + line.text[|t.tag|..];
    }
  }

  /** The word in either case, and with the Kelvin sign for its k. */
  lemma SkipSpelled(text: string)
    ensures MentionsSkip(text) <==>
      exists front, s, k, i, p, back :: Spelling(s, k, i, p) && text == front + [s, k, i, p] + back
  {
    if MentionsSkip(text) {
      var j :| 0 <= j < |text| - 3
        && (text[j] == 's' || text[j] == 'S')
        && (text[j + 1] == 'k' || text[j + 1] == 'K' || text[j + 1] == '\U{212A}')
        && (text[j + 2] == 'i' || text[j + 2] == 'I') && (text[j + 3] == 'p' || text[j + 3] == 'P');
      assert text == text[..j] + [text[j], text[j + 1], text[j + 2], text[j + 3]] + text[j + 4..];
      assert Spelling(text[j], text[j + 1], text[j + 2], text[j + 3]);
    }
    if front, s, k, i, p, back :| Spelling(s, k, i, p) && text == front + [s, k, i, p] + back {
      var j := |front|;
      assert text[j] == s && text[j + 1] == k && text[j + 2] == i && text[j + 3] == p;
    }
  }

  ghost predicate Spelling(s: char, k: char, i: char, p: char) {
    s as int in {83, 115} && k as int in {75, 107, 8490} && i as int in {73, 105} && p as int in {80, 112}
  }

  // ----- the loops

  lemma {:induction false} TriplesConcat(a: seq<LogLine>, b: seq<LogLine>)
    ensures Triples(a + b) == Triples(a) + Triples(b)
  {
    if a == [] {
      assert a + b == b;
    } else {
      assert (a + b)[1..] == a[1..] + b;
      TriplesConcat(a[1..], b);
    }
  }

  method SkipTriples(lines: seq<LogLine>) returns (triples: set<Triple>)
    ensures triples == Triples(lines)
  {
    hide TripleOf;
    triples := {};
    for i := 0 to |lines|
      invariant triples == Triples(lines[..i])
    {
      assert lines[..i + 1] == lines[..i] + [lines[i]];
      TriplesConcat(lines[..i], [lines[i]]);
      assert [lines[i]][1..] == [];
      var skip := lines[i].skip;
      if skip.None? || skip.value.summary {
        continue;
      }
      var t := TripleOf(skip.value);
      if t.name == "" {
        continue;
      }
      triples := triples + {t};
    }
    assert lines[..|lines|] == lines;
  }

  /** The lines that could be evidence for a tag: under it, and not about skipping. */
  method EvidenceLines(lines: seq<LogLine>, tag: string) returns (other: seq<LogLine>)
    ensures forall l :: l in other <==> l in lines && !MentionsSkip(l.text) && tag <= l.text
  {
    hide MentionsSkip;
    other := [];
    for i := 0 to |lines|
      invariant forall l :: l in other <==> l in lines[..i] && !MentionsSkip(l.text) && tag <= l.text
    {
      assert lines[..i + 1] == lines[..i] + [lines[i]];
      if MentionsSkip(lines[i].text) {
        continue;
      }
      if tag <= lines[i].text {
        other := other + [lines[i]];
      }
    }
    assert lines[..|lines|] == lines;
  }

  method SectionRan(lines: seq<LogLine>, t: Triple) returns (ran: bool)
    ensures ran <==> Ran(lines, t)
  {
    var other := EvidenceLines(lines, t.tag);
    var key := CoverKey(t.section);
    ran := false;
    hide MentionsSkip, CoverKey, Contains;
    for i := 0 to |other|
      invariant ran <==> key != "" && exists k :: 0 <= k < i && Contains(other[k].text, key)
    {
      if key != "" && Contains(other[i].text, key) {
        ran := true;
      }
    }
    if ran {
      var k :| 0 <= k < |other| && Contains(other[k].text, key);
      assert other[k] in other;
      var i :| 0 <= i < |lines| && lines[i] == other[k];
      assert Covers(lines[i], t);
    }
    if i :| 0 <= i < |lines| && Covers(lines[i], t) {
      assert lines[i] in other;
      var k :| 0 <= k < |other| && other[k] == lines[i];
      assert Contains(other[k].text, key);
    }
  }

  ghost predicate AllScanned(lines: seq<LogLine>) {
    forall i :: 0 <= i < |lines| ==> Scanned(lines[i])
  }

  /** The list being built holds each name of a set once. */
  ghost predicate Lists(names: seq<string>, s: set<string>) {
    multiset(names) == multiset(s)
  }

  lemma ListsSorted(names: seq<string>, s: set<string>)
    requires Lists(names, s)
    ensures Sort(names, LexLe) == Names(s)
  {
    LexIsOrder();
    SortIsSorted(names, LexLe);
    SortPermutes(names, LexLe);
    NamesMultiset(s);
    SortedIsUnique(Sort(names, LexLe), Names(s), LexLe);
  }

  lemma {:induction false} NamesMultiset(s: set<string>)
    ensures multiset(Names(s)) == multiset(s)
  {
    var r := Names(s);
    forall x ensures multiset(r)[x] == multiset(s)[x] {
      OccursOnce(r, x);
    }
  }

  method PartitionSkips(lines: seq<LogLine>) returns (uncovered: seq<string>, covered: seq<string>)
    requires AllScanned(lines)
    ensures uncovered == Names(UncoveredNames(lines))
    ensures covered == Names(CoveredNames(lines))
  {
    hide *;
    var triples := SkipTriples(lines);
    NamesTellTriplesApart(lines);
    NothingSplit(lines);
    uncovered, covered := [], [];
    ghost var seen: set<Triple> := {};
    var rest := triples;
    while rest != {}
      invariant seen !! rest && seen + rest == triples
      invariant SplitSoFar(seen, lines, uncovered, covered)
      decreases rest
    {
      var t :| t in rest;
      var ran := SectionRan(lines, t);
      SomeAreDistinct(triples, seen + {t});
      OneMoreName(seen, t, lines, uncovered, covered);
      if ran {
        covered := covered + [t.name];
      } else {
        uncovered := uncovered + [t.name];
      }
      seen := seen + {t};
      rest := rest - {t};
    }
    SplitDone(lines, uncovered, covered);
    uncovered, covered := Sort(uncovered, LexLe), Sort(covered, LexLe);
  }

  /** The two lists hold the names of the triples seen so far, each on its side. */
  ghost predicate SplitSoFar(seen: set<Triple>, lines: seq<LogLine>, uncovered: seq<string>, covered: seq<string>) {
    && Lists(uncovered, NamesWhere(seen, u => !Ran(lines, u)))
    && Lists(covered, NamesWhere(seen, u => Ran(lines, u)))
  }

  lemma NothingSplit(lines: seq<LogLine>)
    ensures SplitSoFar({}, lines, [], [])
  {
    hide Ran;
    assert NamesWhere({}, u => !Ran(lines, u)) == {} && NamesWhere({}, u => Ran(lines, u)) == {};
  }

  lemma SplitDone(lines: seq<LogLine>, uncovered: seq<string>, covered: seq<string>)
    requires SplitSoFar(Triples(lines), lines, uncovered, covered)
    ensures Sort(uncovered, LexLe) == Names(UncoveredNames(lines))
    ensures Sort(covered, LexLe) == Names(CoveredNames(lines))
  {
    hide Triples, Ran, Sort, Names, LexLe;
    assert UncoveredNames(lines) == NamesWhere(Triples(lines), u => !Ran(lines, u));
    assert CoveredNames(lines) == NamesWhere(Triples(lines), u => Ran(lines, u));
    ListsSorted(uncovered, UncoveredNames(lines));
    ListsSorted(covered, CoveredNames(lines));
  }

  lemma SomeAreDistinct(triples: set<Triple>, some: set<Triple>)
    requires DistinctlyNamed(triples) && some <= triples
    ensures DistinctlyNamed(some)
  {}

  ghost predicate DistinctlyNamed(triples: set<Triple>) {
    forall t, u :: t in triples && u in triples && t.name == u.name ==> t == u
  }

  lemma OneMoreName(seen: set<Triple>, t: Triple, lines: seq<LogLine>, uncovered: seq<string>, covered: seq<string>)
    requires DistinctlyNamed(seen + {t}) && t !in seen
    requires SplitSoFar(seen, lines, uncovered, covered)
    ensures Ran(lines, t) ==> SplitSoFar(seen + {t}, lines, uncovered, covered + [t.name])
    ensures !Ran(lines, t) ==> SplitSoFar(seen + {t}, lines, uncovered + [t.name], covered)
  {
    hide Ran, NamesWhere, Lists;
    var ran, not := u => Ran(lines, u), u => !Ran(lines, u);
    NamesOfMore(seen, t, ran);
    NamesOfMore(seen, t, not);
    ListsMore(covered, NamesWhere(seen, ran), t.name);
    ListsMore(uncovered, NamesWhere(seen, not), t.name);
    assert NamesWhere(seen, ran) + {} == NamesWhere(seen, ran);
    assert NamesWhere(seen, not) + {} == NamesWhere(seen, not);
  }

  lemma ListsMore(names: seq<string>, s: set<string>, n: string)
    requires Lists(names, s) && n !in s
    ensures Lists(names + [n], s + {n})
  {}

  ghost function NamesWhere(triples: set<Triple>, p: Triple -> bool): set<string> {
    set u | u in triples && p(u) :: u.name
  }

  lemma NamesOfMore(seen: set<Triple>, t: Triple, p: Triple -> bool)
    requires DistinctlyNamed(seen + {t}) && t !in seen
    ensures t.name !in NamesWhere(seen, p)
    ensures NamesWhere(seen + {t}, p) == NamesWhere(seen, p) + (if p(t) then {t.name} else {})
  {
    forall n ensures n in NamesWhere(seen + {t}, p) <==> n in NamesWhere(seen, p) + (if p(t) then {t.name} else {}) {
      if n in NamesWhere(seen + {t}, p) {
        var u :| u in seen + {t} && p(u) && u.name == n;
      }
      if n == t.name && p(t) {
        assert t in seen + {t};
      }
    }
  }

  // ----- what the split guarantees

  lemma {:induction false} TripleSource(lines: seq<LogLine>, t: Triple)
    requires t in Triples(lines)
    ensures exists i :: 0 <= i < |lines| && lines[i].skip.Some? && t == TripleOf(lines[i].skip.value)
  {
    hide TripleOf;
    if lines[0].skip.Some? && t == TripleOf(lines[0].skip.value) {
    } else {
      TripleSource(lines[1..], t);
      var i :| 0 <= i < |lines[1..]| && lines[1..][i].skip.Some? && t == TripleOf(lines[1..][i].skip.value);
      assert lines[i + 1] == lines[1..][i];
    }
  }

  lemma NameStartsWithTag(a: Announcement)
    requires IsTag(a.tag)
    ensures a.tag <= TripleOf(a).name
  {
    var whole := a.tag + " " + SectionOf(a.before, a.after);
    hide SectionOf;
    KeepsFront(a.tag, " " + SectionOf(a.before, a.after));
    assert a.tag + (" " + SectionOf(a.before, a.after)) == whole;
  }

  lemma {:induction false} KeepsFront(front: string, back: string)
    requires front != "" && !IsSpace(front[|front| - 1])
    ensures front <= RStrip(front + back)
    decreases |back|
  {
    if back == "" {
      assert front + back == front;
    } else {
      var t := front + back;
      assert t[|t| - 1] == back[|back| - 1] && t[..|t| - 1] == front + back[..|back| - 1];
      KeepsFront(front, back[..|back| - 1]);
    }
  }

  lemma TagEnd(name: string, t: string)
    requires IsTag(t) && t <= name
    ensures |t| <= |name| && name[|t| - 1] == ']' && t == name[..|t|]
    ensures forall i :: 0 <= i < |t| - 1 ==> name[i] != ']'
  {
    assert forall i :: 0 <= i < |t| ==> t[i] == name[i];
  }

  lemma OneTagPerName(name: string, t: string, u: string)
    requires IsTag(t) && IsTag(u) && t <= name && u <= name
    ensures t == u
  {
    TagEnd(name, t);
    TagEnd(name, u);
    assert |t| == |u|;
  }

  /** A name belongs to one section under one tag only. */
  lemma NamesTellTriplesApart(lines: seq<LogLine>)
    requires AllScanned(lines)
    ensures DistinctlyNamed(Triples(lines))
  {
    forall t, u | t in Triples(lines) && u in Triples(lines) && t.name == u.name ensures t == u {
      TripleSource(lines, t);
      TripleSource(lines, u);
      var i :| 0 <= i < |lines| && lines[i].skip.Some? && t == TripleOf(lines[i].skip.value);
      var j :| 0 <= j < |lines| && lines[j].skip.Some? && u == TripleOf(lines[j].skip.value);
      assert Scanned(lines[i]) && Scanned(lines[j]);
      NameStartsWithTag(lines[i].skip.value);
      NameStartsWithTag(lines[j].skip.value);
      hide SkipName, Strip, IsTag;
      OneTagPerName(t.name, t.tag, u.tag);
    }
  }

  /** Every named skip is in exactly one of the two lists. */
  lemma SkipsArePartitioned(lines: seq<LogLine>)
    requires AllScanned(lines)
    ensures UncoveredNames(lines) !! CoveredNames(lines)
    ensures UncoveredNames(lines) + CoveredNames(lines) == set t | t in Triples(lines) :: t.name
  {
    NamesTellTriplesApart(lines);
    hide Triples, Ran;
  }

  /** One more line that does not speak of skipping can only move names out of the
      uncovered list. */
  lemma QuietLineOnlyCovers(lines: seq<LogLine>, more: LogLine)
    requires Scanned(more) && !MentionsSkip(more.text)
    ensures Triples(lines + [more]) == Triples(lines)
    ensures UncoveredNames(lines + [more]) <= UncoveredNames(lines)
    ensures CoveredNames(lines) <= CoveredNames(lines + [more])
  {
    hide Covers, MentionsSkip;
    TriplesConcat(lines, [more]);
    assert [more][1..] == [];
    forall t | Ran(lines, t) ensures Ran(lines + [more], t) {
      var i :| 0 <= i < |lines| && Covers(lines[i], t);
      assert Covers((lines + [more])[i], t);
    }
    hide Triples, Ran;
  }
}
