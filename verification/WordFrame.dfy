/** The frame bash's words come back in -- a count line, then NUL-terminated words -- and
    its decoder (scripts/bashprobe.py). */
module WordFrame {
  import opened Wrappers

  type byte = x: int | 0 <= x < 256

  const NUL: byte := 0
  const NEWLINE: byte := 10
  const UNDERSCORE: byte := 95

  // ----- the emitter

  function Digits(n: nat): (s: seq<byte>)
    ensures s != [] && forall b :: b in s ==> 48 <= b <= 57
  {
    if n < 10 then [48 + n] else Digits(n / 10) + [48 + n % 10]
  }

  function Payload(words: seq<seq<byte>>): seq<byte> {
    if words == [] then [] else words[0] + [NUL] + Payload(words[1..])
  }

  function Emit(words: seq<seq<byte>>): seq<byte> {
    Digits(|words|) + [NEWLINE] + Payload(words)
  }

  // ----- the decoder

  /** `bytes.partition`: what stands before and after the first separator. */
  function Partition(s: seq<byte>, sep: byte): Option<(seq<byte>, seq<byte>)> {
    if s == [] then None
    else if s[0] == sep then Some(([], s[1..]))
    else match Partition(s[1..], sep)
      case None => None
      case Some((head, tail)) => Some(([s[0]] + head, tail))
  }

  /** `bytes.split`: the fields between separators, one more than there are separators. */
  function Split(s: seq<byte>, sep: byte): (fields: seq<seq<byte>>)
    ensures fields != []
  {
    if s == [] then [[]]
    else
      var rest := Split(s[1..], sep);
      if s[0] == sep then [[]] + rest
      else [[s[0]] + rest[0]] + rest[1..]
  }

  predicate IsSpace(b: byte) { b == 32 || 9 <= b <= 13 }

  predicate IsDigit(b: byte) { 48 <= b <= 57 }

  function TrimLeft(s: seq<byte>): seq<byte> {
    if s != [] && IsSpace(s[0]) then TrimLeft(s[1..]) else s
  }

  function TrimRight(s: seq<byte>): seq<byte> {
    if s != [] && IsSpace(s[|s| - 1]) then TrimRight(s[..|s| - 1]) else s
  }

  /** Digits, single underscores allowed between two of them. */
  function DigitString(s: seq<byte>): (r: Option<int>)
    ensures r.Some? ==> r.value >= 0
  {
    if s == [] || !IsDigit(s[|s| - 1]) then None
    else
      var d := s[|s| - 1] - 48;
      if |s| == 1 then Some(d)
      else
        var front := if s[|s| - 2] == UNDERSCORE then s[..|s| - 2] else s[..|s| - 1];
        match DigitString(front)
        case None => None
        case Some(v) => Some(10 * v + d)
  }

  /** A sign and digits. */
  function SignedInt(t: seq<byte>): Option<int> {
    if t != [] && (t[0] == 43 || t[0] == 45) then
      match DigitString(t[1..])
      case None => None
      case Some(v) => Some(if t[0] == 45 then 0 - v else v)
    else match DigitString(t)
      case None => None
      case Some(v) => Some(v)
  }

  /** `int(count)`: surrounding blanks, a sign and underscores are all accepted. */
  function ParseInt(s: seq<byte>): Option<int> { SignedInt(TrimRight(TrimLeft(s))) }

  /** `Rejected` is bash declining the line; `Broken` is a ProbeError. */
  datatype Answer = Rejected | Broken | Words(words: seq<seq<byte>>)

  function Decode(exitCode: int, stdout: seq<byte>): Answer {
    if exitCode != 0 then Rejected
    else match Partition(stdout, NEWLINE)
      case None => Broken
      case Some((count, rest)) =>
        match ParseInt(count)
        case None => Broken
        case Some(n) =>
          var fields := Split(rest, NUL);
          if |fields| != n + 1 || fields[|fields| - 1] != [] then Broken
          else Words(fields[..|fields| - 1])
  }

  // ----- splitting undoes joining

  ghost predicate NulFree(words: seq<seq<byte>>) {
    forall w :: w in words ==> NUL !in w
  }

  lemma {:induction false} SplitConcat(w: seq<byte>, s: seq<byte>)
    requires NUL !in w
    ensures Split(w + [NUL] + s, NUL) == [w] + Split(s, NUL)
  {
    var whole := w + [NUL] + s;
    if w == [] {
      assert whole[0] == NUL && whole[1..] == s;
    } else {
      assert whole[0] == w[0] && whole[1..] == w[1..] + [NUL] + s;
      SplitConcat(w[1..], s);
      assert [w[0]] + w[1..] == w;
    }
  }

  lemma {:induction false} SplitPayload(words: seq<seq<byte>>)
    requires NulFree(words)
    ensures Split(Payload(words), NUL) == words + [[]]
  {
    if words == [] {
      assert Split([], NUL) == [[]];
    } else {
      assert words[0] in words;
      SplitPayload(words[1..]);
      SplitConcat(words[0], Payload(words[1..]));
      assert [words[0]] + (words[1..] + [[]]) == words + [[]];
    }
  }

  function Joined(fields: seq<seq<byte>>): seq<byte>
    requires fields != []
  {
    Payload(fields[..|fields| - 1]) + fields[|fields| - 1]
  }

  lemma JoinedStep(b: byte, rest: seq<seq<byte>>)
    requires rest != []
    ensures Joined([[]] + rest) == [NUL] + Joined(rest)
    ensures Joined([[b] + rest[0]] + rest[1..]) == [b] + Joined(rest)
  {
    var started, grown := [[]] + rest, [[b] + rest[0]] + rest[1..];
    var init := rest[..|rest| - 1];
    assert started[..|started| - 1] == [[]] + init && ([[]] + init)[1..] == init;
    assert Payload([[]] + init) == [NUL] + Payload(init);
    if |rest| == 1 {
      assert grown[..0] == [] && init == [];
    } else {
      assert grown[..|grown| - 1] == [[b] + rest[0]] + init[1..];
      assert ([[b] + rest[0]] + init[1..])[1..] == init[1..];
      assert Payload([[b] + rest[0]] + init[1..]) == [b] + Payload(init);
    }
  }

  lemma NulFreeGrows(b: byte, rest: seq<seq<byte>>)
    requires rest != [] && NulFree(rest)
    ensures NulFree([[]] + rest)
    ensures b != NUL ==> NulFree([[b] + rest[0]] + rest[1..])
  {
    assert rest[0] in rest && forall w :: w in rest[1..] ==> w in rest;
  }

  /** Fields never contain the separator, and joining them gives the input back. */
  lemma {:induction false} FieldsRebuild(s: seq<byte>)
    ensures NulFree(Split(s, NUL)) && s == Joined(Split(s, NUL))
  {
    if s == [] {
      assert Split(s, NUL)[..0] == [];
    } else {
      FieldsRebuild(s[1..]);
      var rest := Split(s[1..], NUL);
      JoinedStep(s[0], rest);
      assert Split(s, NUL) == if s[0] == NUL then [[]] + rest else [[s[0]] + rest[0]] + rest[1..];
      hide Joined, Split, NulFree;
      assert s == [s[0]] + s[1..];
      NulFreeGrows(s[0], rest);
    }
  }

  lemma {:induction false} PartitionMeans(s: seq<byte>, sep: byte)
    ensures match Partition(s, sep)
      case None => sep !in s
      case Some((head, tail)) => sep !in head && s == head + [sep] + tail
  {
    if s != [] && s[0] != sep {
      PartitionMeans(s[1..], sep);
      assert s == [s[0]] + s[1..];
    }
  }

  lemma {:induction false} PartitionAtFirst(head: seq<byte>, sep: byte, tail: seq<byte>)
    requires sep !in head
    ensures Partition(head + [sep] + tail, sep) == Some((head, tail))
  {
    var s := head + [sep] + tail;
    if head == [] {
      assert s[0] == sep && s[1..] == tail;
    } else {
      assert s[0] == head[0] && s[1..] == head[1..] + [sep] + tail;
      PartitionAtFirst(head[1..], sep, tail);
      assert [head[0]] + head[1..] == head;
    }
  }

  // ----- the count line

  lemma {:induction false} DigitsParse(n: nat)
    ensures DigitString(Digits(n)) == Some(n)
    decreases n
  {
    if n >= 10 {
      DigitsParse(n / 10);
      var s := Digits(n);
      var front := Digits(n / 10);
      assert s[..|s| - 1] == front;
      assert s[|s| - 2] == front[|front| - 1] && front[|front| - 1] in front;
      assert 10 * (n / 10) + n % 10 == n;
    }
  }

  lemma CountParses(n: nat)
    ensures ParseInt(Digits(n)) == Some(n) && NEWLINE !in Digits(n)
  {
    DigitsParse(n);
    var s := Digits(n);
    assert s[0] in s && s[|s| - 1] in s;
    assert TrimLeft(s) == s && TrimRight(s) == s;
  }

  /** Digits in groups: every byte a digit or an underscore, no underscore at either end or beside
      another. */
  ghost predicate Grouped(s: seq<byte>) {
    && s != [] && 48 <= s[0] <= 57 && 48 <= s[|s| - 1] <= 57
    && (forall i :: 0 <= i < |s| ==> 48 <= s[i] <= 57 || s[i] == 95)
    && (forall i :: 0 <= i < |s| - 1 ==> s[i] != 95 || s[i + 1] != 95)
  }

  /** The number such digits write in base ten, the underscores left out. */
  ghost function Decimal(s: seq<byte>): int {
    if s == [] then 0
    else
      var front, last: int := Decimal(s[..|s| - 1]), s[|s| - 1];
      if last == 95 then front else 10 * front + (last - 48)
  }

  lemma GroupedFront(s: seq<byte>)
    requires |s| >= 2
    ensures var front := if s[|s| - 2] == 95 then s[..|s| - 2] else s[..|s| - 1];
      && (Grouped(s) <==> 48 <= s[|s| - 1] <= 57 && Grouped(front))
      && Decimal(front) == Decimal(s[..|s| - 1])
  {
    var init := s[..|s| - 1];
    if s[|s| - 2] == 95 {
      var front := s[..|s| - 2];
      assert init[..|init| - 1] == front && init[|init| - 1] == 95;
      hide Decimal;
      assert forall i :: 0 <= i < |front| ==> s[i] == front[i];
      if front != [] {
        assert s[|s| - 3] == front[|front| - 1];
      }
    } else {
      hide Decimal;
      assert forall i :: 0 <= i < |init| ==> s[i] == init[i];
    }
  }

  /** Read as a number exactly when the digits are well grouped, and as the number they write. */
  lemma {:induction false} DigitStringMeans(s: seq<byte>)
    ensures DigitString(s) == if Grouped(s) then Some(Decimal(s)) else None
    decreases |s|
  {
    if |s| == 1 {
      assert s[..0] == [];
    } else if |s| >= 2 {
      var front := if s[|s| - 2] == 95 then s[..|s| - 2] else s[..|s| - 1];
      GroupedFront(s);
      DigitStringMeans(front);
      hide Grouped;
    }
  }

  ghost predicate Blank(s: seq<byte>) { forall i :: 0 <= i < |s| ==> s[i] in {9, 10, 11, 12, 13, 32} }

  lemma {:induction false} TrimLeftMeans(s: seq<byte>) returns (lead: seq<byte>)
    ensures s == lead + TrimLeft(s) && Blank(lead)
    ensures TrimLeft(s) != [] ==> TrimLeft(s)[0] !in {9, 10, 11, 12, 13, 32}
  {
    lead := [];
    if s != [] && IsSpace(s[0]) {
      var rest := TrimLeftMeans(s[1..]);
      lead := [s[0]] + rest;
    }
  }

  lemma {:induction false} TrimRightMeans(s: seq<byte>) returns (trail: seq<byte>)
    ensures s == TrimRight(s) + trail && Blank(trail)
    ensures TrimRight(s) != [] ==> TrimRight(s)[|TrimRight(s)| - 1] !in {9, 10, 11, 12, 13, 32}
  {
    trail := [];
    if s != [] && IsSpace(s[|s| - 1]) {
      var rest := TrimRightMeans(s[..|s| - 1]);
      trail := rest + [s[|s| - 1]];
      assert s == s[..|s| - 1] + [s[|s| - 1]];
    }
  }

  /** A sign, or none, in front of the digits. */
  ghost predicate Signed(t: seq<byte>, digits: seq<byte>, negative: bool) {
    (t == [45] + digits && negative) || ((t == [43] + digits || t == digits) && !negative)
  }

  /** A numeral: blanks around a sign, or none, and well-grouped digits. */
  ghost predicate Numeral(s: seq<byte>, v: int) {
    exists lead, t, trail, digits, negative ::
      && s == lead + t + trail && Blank(lead) && Blank(trail) && Signed(t, digits, negative)
      && Grouped(digits) && v == if negative then -Decimal(digits) else Decimal(digits)
  }

  lemma {:induction false} TrimLeftStops(lead: seq<byte>, rest: seq<byte>)
    requires Blank(lead) && (rest != [] ==> rest[0] !in {9, 10, 11, 12, 13, 32})
    ensures TrimLeft(lead + rest) == rest
  {
    if lead == [] {
      assert lead + rest == rest;
    } else {
      assert (lead + rest)[0] == lead[0] && (lead + rest)[1..] == lead[1..] + rest;
      assert lead[0] in {9, 10, 11, 12, 13, 32};
      assert Blank(lead[1..]) by { assert forall i :: 0 <= i < |lead[1..]| ==> lead[1..][i] == lead[i + 1]; }
      TrimLeftStops(lead[1..], rest);
    }
  }

  lemma {:induction false} TrimRightStops(front: seq<byte>, trail: seq<byte>)
    requires Blank(trail) && (front != [] ==> front[|front| - 1] !in {9, 10, 11, 12, 13, 32})
    ensures TrimRight(front + trail) == front
  {
    if trail == [] {
      assert front + trail == front;
    } else {
      var whole, init := front + trail, trail[..|trail| - 1];
      assert whole[|whole| - 1] == trail[|trail| - 1] && whole[..|whole| - 1] == front + init;
      assert trail[|trail| - 1] in {9, 10, 11, 12, 13, 32};
      assert Blank(init) by { assert forall i :: 0 <= i < |init| ==> init[i] == trail[i]; }
      TrimRightStops(front, init);
    }
  }

  /** A count line reads as a number exactly when it is a numeral, and then as that number. */
  lemma CountMeans(s: seq<byte>, v: int)
    ensures ParseInt(s) == Some(v) <==> Numeral(s, v)
  {
    if Numeral(s, v) {
      var lead, t, trail, digits, negative :|
        && s == lead + t + trail && Blank(lead) && Blank(trail) && Signed(t, digits, negative)
        && Grouped(digits) && v == if negative then -Decimal(digits) else Decimal(digits);
      NumeralReads(s, lead, t, trail, digits, negative);
    }
    if ParseInt(s) == Some(v) {
      ParsedIsNumeral(s, v);
    }
  }

  lemma NumeralReads(s: seq<byte>, lead: seq<byte>, t: seq<byte>, trail: seq<byte>, digits: seq<byte>, negative: bool)
    requires s == lead + t + trail && Blank(lead) && Blank(trail) && Signed(t, digits, negative) && Grouped(digits)
    ensures ParseInt(s) == Some(if negative then -Decimal(digits) else Decimal(digits))
  {
    SignedEnds(t, digits, negative);
    assert s == lead + (t + trail);
    DigitStringMeans(digits);
    hide Blank, Grouped, Decimal, DigitString;
    TrimLeftStops(lead, t + trail);
    TrimRightStops(t, trail);
    hide TrimLeft, TrimRight;
    assert t != digits ==> t[1..] == digits;
  }

  lemma SignedEnds(t: seq<byte>, digits: seq<byte>, negative: bool)
    requires Signed(t, digits, negative) && Grouped(digits)
    ensures t != [] && t[0] !in {9, 10, 11, 12, 13, 32} && t[|t| - 1] !in {9, 10, 11, 12, 13, 32}
    ensures t == digits ==> 48 <= t[0] <= 57
  {
    assert t[|t| - 1] == digits[|digits| - 1];
  }

  lemma SignedIntMeans(t: seq<byte>, v: int) returns (digits: seq<byte>, negative: bool)
    requires SignedInt(t) == Some(v)
    ensures Signed(t, digits, negative) && Grouped(digits)
    ensures v == if negative then -Decimal(digits) else Decimal(digits)
  {
    var signed := t != [] && (t[0] == 43 || t[0] == 45);
    digits := if signed then t[1..] else t;
    negative := signed && t[0] == 45;
    DigitStringMeans(digits);
    hide DigitString, Grouped, Decimal;
    assert signed ==> t == [t[0]] + digits;
  }

  lemma ParsedIsNumeral(s: seq<byte>, v: int)
    requires ParseInt(s) == Some(v)
    ensures Numeral(s, v)
  {
    var lead := TrimLeftMeans(s);
    var trail := TrimRightMeans(TrimLeft(s));
    var t := TrimRight(TrimLeft(s));
    hide SignedInt, TrimLeft, TrimRight, Blank, Grouped, Decimal, Signed;
    var digits, negative := SignedIntMeans(t, v);
    assert s == lead + t + trail;
  }

  // ----- what the decoder accepts

  /** `s` frames `words`: a line that reads as their number, then each one terminated. */
  ghost predicate Frames(s: seq<byte>, words: seq<seq<byte>>) {
    && NulFree(words)
    && exists count :: NEWLINE !in count && ParseInt(count) == Some(|words|)
                       && s == count + [NEWLINE] + Payload(words)
  }

  /** Accepted means framed and framed means accepted; everything else that bash answered
      is an error, never a short list.  A nonzero exit code is a refusal, whatever was printed. */
  lemma DecodesExactlyFrames(s: seq<byte>, words: seq<seq<byte>>)
    ensures Decode(0, s) == Words(words) <==> Frames(s, words)
    ensures forall code :: Decode(code, s) == Rejected <==> code != 0
  {
    PartitionMeans(s, NEWLINE);
    if Frames(s, words) {
      var count :| NEWLINE !in count && ParseInt(count) == Some(|words|)
                   && s == count + [NEWLINE] + Payload(words);
      PartitionAtFirst(count, NEWLINE, Payload(words));
      SplitPayload(words);
      assert (words + [[]])[..|words|] == words;
    }
    if Decode(0, s) == Words(words) {
      var parts := Partition(s, NEWLINE).value;
      FieldsRebuild(parts.1);
      var fields := Split(parts.1, NUL);
      assert words == fields[..|fields| - 1];
      assert Payload(words) + [] == Payload(words);
      assert ParseInt(parts.0) == Some(|words|);
    }
  }

  /** Every list of NUL-free words survives the trip: empty lists, empty words, newlines. */
  lemma RoundTrip(words: seq<seq<byte>>)
    requires NulFree(words)
    ensures Decode(0, Emit(words)) == Words(words)
  {
    CountParses(|words|);
    DecodesExactlyFrames(Emit(words), words);
  }

  /** The bytes of a frame: the count in decimal, a newline, and a zero after every word. */
  lemma {:induction false} FrameIs(words: seq<seq<byte>>, w: seq<byte>)
    ensures Emit(words) == Digits(|words|) + [10] + Payload(words) && Decimal(Digits(|words|)) == |words|
    ensures Payload([]) == [] && Payload(words + [w]) == Payload(words) + w + [0]
  {
    DigitsParse(|words|);
    DigitStringMeans(Digits(|words|));
    hide DigitString, Grouped, Decimal, Digits;
    if words == [] {
      assert words + [w] == [w] && [w][1..] == [];
    } else {
      assert (words + [w])[0] == words[0] && (words + [w])[1..] == words[1..] + [w];
      FrameIs(words[1..], w);
    }
  }

  // ----- truncated and over-long reads

  function NulCount(s: seq<byte>): nat {
    if s == [] then 0 else (if s[0] == NUL then 1 else 0) + NulCount(s[1..])
  }

  lemma {:induction false} NulCountConcat(a: seq<byte>, b: seq<byte>)
    ensures NulCount(a + b) == NulCount(a) + NulCount(b)
    ensures NUL !in a ==> NulCount(a) == 0
    ensures NUL in a ==> NulCount(a) > 0
  {
    if a == [] {
      assert a + b == b;
    } else {
      assert (a + b)[1..] == a[1..] + b;
      NulCountConcat(a[1..], b);
    }
  }

  lemma {:induction false} PayloadShape(words: seq<seq<byte>>)
    requires NulFree(words)
    ensures NulCount(Payload(words)) == |words|
    ensures words != [] ==> Payload(words) != [] && Payload(words)[|Payload(words)| - 1] == NUL
  {
    if words != [] {
      assert words[0] in words;
      PayloadShape(words[1..]);
      NulCountConcat(words[0] + [NUL], Payload(words[1..]));
      NulCountConcat(words[0], [NUL]);
      assert NulCount([NUL]) == 1 by { assert [NUL][1..] == []; }
    }
  }

  lemma PayloadHasNoExtension(words: seq<seq<byte>>, more: seq<seq<byte>>, extra: seq<byte>)
    requires NulFree(words) && NulFree(more) && |words| == |more|
    requires Payload(more) == Payload(words) + extra
    ensures extra == []
  {
    var whole := Payload(more);
    assert extra != [] ==> whole[|whole| - 1] == extra[|extra| - 1] && extra[|extra| - 1] in extra;
    assert more == [] ==> whole == [];
    PayloadShape(words);
    PayloadShape(more);
    NulCountConcat(Payload(words), extra);
    NulCountConcat(extra, []);
  }

  /** No accepted frame is a strict prefix of another: the frames form a prefix code. */
  lemma FramesArePrefixFree(s: seq<byte>, t: seq<byte>, words: seq<seq<byte>>, more: seq<seq<byte>>)
    requires Frames(s, words) && Frames(t, more) && s <= t
    ensures s == t
  {
    hide ParseInt, Payload, Partition, NulFree;
    var c :| NEWLINE !in c && ParseInt(c) == Some(|words|) && s == c + [NEWLINE] + Payload(words);
    var d :| NEWLINE !in d && ParseInt(d) == Some(|more|) && t == d + [NEWLINE] + Payload(more);
    var extra := t[|s|..];
    assert t == s + extra;
    assert t == c + [NEWLINE] + (Payload(words) + extra);
    PartitionAtFirst(c, NEWLINE, Payload(words) + extra);
    PartitionAtFirst(d, NEWLINE, Payload(more));
    PayloadHasNoExtension(words, more, extra);
  }

  /** Cutting an accepted answer short, or reading past its end, always raises. */
  lemma TruncatedOrOverlongRaises(s: seq<byte>, t: seq<byte>)
    requires Decode(0, s).Words? && s != t && (s <= t || t <= s)
    ensures Decode(0, t) == Broken
  {
    DecodesExactlyFrames(s, Decode(0, s).words);
    match Decode(0, t)
    case Words(more) =>
      DecodesExactlyFrames(t, more);
      if s <= t {
        FramesArePrefixFree(s, t, Decode(0, s).words, more);
      } else {
        FramesArePrefixFree(t, s, more, Decode(0, s).words);
      }
    case Rejected =>
      DecodesExactlyFrames(t, []);
    case Broken =>
  }

  // ----- the marker and the retry

  /** What one call of wsl.exe came to. */
  datatype Attempt = TimedOut | NotFound | Finished(exitCode: int, stdout: seq<byte>)

  datatype Transport = Declined | Ran(exitCode: int, stdout: seq<byte>)

  /** Bash demonstrably ran: its first line is the marker. */
  ghost predicate Marked(a: Attempt, marker: seq<byte>, rest: seq<byte>) {
    a.Finished? && a.stdout == marker + [NEWLINE] + rest
  }

  const ATTEMPTS := 2

  /** At most two attempts; a timeout is not retried, and nothing without the marker is
      ever taken for bash's answer. */
  method Run(attempts: seq<Attempt>, marker: seq<byte>) returns (result: Transport, used: nat)
    requires |attempts| >= ATTEMPTS && NEWLINE !in marker
    ensures 1 <= used <= 2
    ensures forall i :: 0 <= i < used - 1 ==>
      attempts[i].Finished? && forall rest :: !Marked(attempts[i], marker, rest)
    ensures forall code, out :: result == Ran(code, out) <==>
      Marked(attempts[used - 1], marker, out) && attempts[used - 1].exitCode == code
    ensures result.Declined? && attempts[used - 1].Finished? ==> used == 2
  {
    used := 0;
    while used < ATTEMPTS
      invariant 0 <= used <= ATTEMPTS
      invariant forall i :: 0 <= i < used ==>
        attempts[i].Finished? && forall rest :: !Marked(attempts[i], marker, rest)
    {
      var r := attempts[used];
      used := used + 1;
      if !r.Finished? {
        return Declined, used;
      }
      var parts := Partition(r.stdout, NEWLINE);
      PartitionMeans(r.stdout, NEWLINE);
      forall rest ensures Marked(r, marker, rest) <==> parts == Some((marker, rest)) {
        PartitionAtFirst(marker, NEWLINE, rest);
      }
      if parts.Some? && parts.value.0 == marker {
        return Ran(r.exitCode, parts.value.1), used;
      }
    }
    result := Declined;
  }
}
