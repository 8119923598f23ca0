/** The lexical normalisation of embedded artifact paths, and the list of them
    (kernel/build.rs, `embedded_service_artifacts`). */
module Paths {
  import opened Order

  /** What `Path::components` yields. */
  datatype Component = Prefix(drive: string) | RootDir | CurDir | ParentDir | Normal(name: string)

  // ----- the component stack

  function Push(parts: seq<Component>, c: Component): seq<Component> {
    match c
    case ParentDir => if parts == [] then [] else parts[..|parts| - 1]
    case CurDir => parts
    case _ => parts + [c]
  }

  function PushAll(parts: seq<Component>, comps: seq<Component>): seq<Component>
    decreases |comps|
  {
    if comps == [] then parts else PushAll(Push(parts, comps[0]), comps[1..])
  }

  function Normalised(comps: seq<Component>): seq<Component> { PushAll([], comps) }

  lemma {:induction false} PushAllSnoc(parts: seq<Component>, comps: seq<Component>, c: Component)
    ensures PushAll(parts, comps + [c]) == Push(PushAll(parts, comps), c)
    decreases |comps|
  {
    if comps == [] {
      assert comps + [c] == [c];
      assert [c][1..] == [];
    } else {
      assert (comps + [c])[1..] == comps[1..] + [c];
      PushAllSnoc(Push(parts, comps[0]), comps[1..], c);
    }
  }

  method Normalise(joined: seq<Component>) returns (parts: seq<Component>)
    ensures parts == Normalised(joined)
  {
    parts := [];
    for i := 0 to |joined|
      invariant parts == PushAll([], joined[..i])
    {
      assert joined[..i + 1] == joined[..i] + [joined[i]];
      PushAllSnoc([], joined[..i], joined[i]);
      match joined[i]
      case ParentDir =>
        if parts != [] {
          parts := parts[..|parts| - 1];
        }
      case CurDir =>
      case other => parts := parts + [joined[i]];
    }
    assert joined[..|joined|] == joined;
  }

  ghost predicate Plain(parts: seq<Component>) {
    forall i :: 0 <= i < |parts| ==> !parts[i].CurDir? && !parts[i].ParentDir?
  }

  lemma {:induction false} PushAllIsPlain(parts: seq<Component>, comps: seq<Component>)
    requires Plain(parts)
    ensures Plain(PushAll(parts, comps))
    ensures Plain(comps) ==> PushAll(parts, comps) == parts + comps
    decreases |comps|
  {
    if comps == [] {
      assert parts + comps == parts;
    } else {
      PushAllIsPlain(Push(parts, comps[0]), comps[1..]);
      if Plain(comps) {
        assert parts + [comps[0]] + comps[1..] == parts + comps;
      }
    }
  }

  /** No `.` and no `..` is left, so normalising again changes nothing. */
  lemma NormalisedIsStable(comps: seq<Component>)
    ensures Plain(Normalised(comps)) && Normalised(Normalised(comps)) == Normalised(comps)
  {
    PushAllIsPlain([], comps);
    PushAllIsPlain([], Normalised(comps));
    assert [] + Normalised(comps) == Normalised(comps);
  }

  // ----- where a path leads in a tree without links

  /** A place in the tree: the names from the root down to it. */
  type Place = seq<string>

  /** One step of walking: the parent of the root is the root. */
  function Walk(at: Place, c: Component): Place {
    match c
    case Prefix(_) => at
    case RootDir => []
    case CurDir => at
    case ParentDir => if at == [] then [] else at[..|at| - 1]
    case Normal(name) => at + [name]
  }

  function WalkAll(at: Place, comps: seq<Component>): Place
    decreases |comps|
  {
    if comps == [] then at else WalkAll(Walk(at, comps[0]), comps[1..])
  }

  /** As `Path::components` yields them: a prefix and a root only at the front. */
  ghost predicate WellFormed(comps: seq<Component>) {
    && (forall i :: 0 <= i < |comps| && comps[i].Prefix? ==> i == 0)
    && (forall i :: 0 <= i < |comps| && comps[i].RootDir? ==> i == 0 || (i == 1 && comps[0].Prefix?))
  }

  predicate IsName(c: Component) { c.Normal? }

  /** Every `..` takes back a name: the path never climbs above where it starts. */
  predicate NeverClimbs(parts: seq<Component>, comps: seq<Component>)
    decreases |comps|
  {
    if comps == [] then true
    else
      (comps[0].ParentDir? ==> parts != [] && IsName(parts[|parts| - 1]))
      && NeverClimbs(Push(parts, comps[0]), comps[1..])
  }

  lemma {:induction false} WalkConcat(at: Place, a: seq<Component>, b: seq<Component>)
    ensures WalkAll(at, a + b) == WalkAll(WalkAll(at, a), b)
    decreases |a|
  {
    if a == [] {
      assert a + b == b;
    } else {
      assert (a + b)[1..] == a[1..] + b;
      WalkConcat(Walk(at, a[0]), a[1..], b);
    }
  }

  lemma WalkSnoc(at: Place, a: seq<Component>, c: Component)
    ensures WalkAll(at, a + [c]) == Walk(WalkAll(at, a), c)
  {
    WalkConcat(at, a, [c]);
    assert [c][1..] == [];
  }

  lemma PushWalks(at: Place, parts: seq<Component>, c: Component)
    requires c.ParentDir? ==> parts != [] && IsName(parts[|parts| - 1])
    ensures WalkAll(at, Push(parts, c)) == Walk(WalkAll(at, parts), c)
  {
    if c.ParentDir? {
      var init, last := parts[..|parts| - 1], parts[|parts| - 1];
      assert parts == init + [last];
      WalkSnoc(at, init, last);
    } else if !c.CurDir? {
      WalkSnoc(at, parts, c);
    }
  }

  /** Without climbing, the short path leads where the long one does, from anywhere. */
  lemma {:induction false} NormalisedLeadsThere(at: Place, parts: seq<Component>, comps: seq<Component>)
    requires NeverClimbs(parts, comps)
    ensures WalkAll(at, PushAll(parts, comps)) == WalkAll(WalkAll(at, parts), comps)
    decreases |comps|
  {
    if comps != [] {
      PushWalks(at, parts, comps[0]);
      NormalisedLeadsThere(at, Push(parts, comps[0]), comps[1..]);
    }
  }

  // ----- a climb is lost

  ghost predicate Rootless(comps: seq<Component>) {
    forall i :: 0 <= i < |comps| ==> !comps[i].RootDir?
  }

  function NameCount(comps: seq<Component>): nat {
    if comps == [] then 0 else (if comps[0].Normal? then 1 else 0) + NameCount(comps[1..])
  }

  function ClimbCount(comps: seq<Component>): nat {
    if comps == [] then 0 else (if comps[0].ParentDir? then 1 else 0) + ClimbCount(comps[1..])
  }

  lemma RootlessTail(comps: seq<Component>)
    requires Rootless(comps) && comps != []
    ensures Rootless(comps[1..]) && !comps[0].RootDir?
  {
    forall i | 0 <= i < |comps[1..]| ensures !comps[1..][i].RootDir? {
      assert comps[1..][i] == comps[i + 1];
    }
  }

  /** How deep a relative path ends, from a start deep enough for all its climbs. */
  lemma {:induction false} RelativeDepth(at: Place, comps: seq<Component>)
    requires Rootless(comps) && |at| >= ClimbCount(comps)
    ensures |WalkAll(at, comps)| == |at| + NameCount(comps) - ClimbCount(comps)
    decreases |comps|
  {
    if comps != [] {
      RootlessTail(comps);
      RelativeDepth(Walk(at, comps[0]), comps[1..]);
    }
  }

  lemma {:induction false} NameCountSnoc(parts: seq<Component>, c: Component)
    ensures NameCount(parts + [c]) == NameCount(parts) + (if c.Normal? then 1 else 0)
  {
    if parts == [] {
      assert parts + [c] == [c];
      assert [c][1..] == [];
    } else {
      assert (parts + [c])[1..] == parts[1..] + [c];
      NameCountSnoc(parts[1..], c);
    }
  }

  lemma PushedParent(parts: seq<Component>, c: Component)
    requires c.ParentDir? && parts != []
    ensures Push(parts, c) == parts[..|parts| - 1]
    ensures parts == parts[..|parts| - 1] + [parts[|parts| - 1]]
  {}

  lemma PushCounts(parts: seq<Component>, c: Component)
    ensures c.ParentDir? && parts != [] && IsName(parts[|parts| - 1]) ==>
      NameCount(Push(parts, c)) == NameCount(parts) - 1
    ensures c.ParentDir? && !(parts != [] && IsName(parts[|parts| - 1])) ==>
      NameCount(Push(parts, c)) == NameCount(parts)
    ensures !c.ParentDir? ==> NameCount(Push(parts, c)) == NameCount(parts) + (if c.Normal? then 1 else 0)
  {
    hide NameCount;
    if c.ParentDir? && parts != [] {
      SplitAround(parts, |parts| - 1);
      NameCountSnoc(parts[..|parts| - 1], parts[|parts| - 1]);
      PushedParent(parts, c);
    } else if !c.ParentDir? && !c.CurDir? {
      NameCountSnoc(parts, c);
    }
  }

  /** A `..` with no name to take back leaves the normalised path too deep. */
  lemma {:induction false} ClimbLeavesNames(parts: seq<Component>, comps: seq<Component>)
    ensures var deep := NameCount(PushAll(parts, comps));
            var fair := NameCount(parts) + NameCount(comps) - ClimbCount(comps);
      deep >= fair && (!NeverClimbs(parts, comps) ==> deep > fair)
    decreases |comps|
  {
    if comps != [] {
      PushCounts(parts, comps[0]);
      ClimbLeavesNames(Push(parts, comps[0]), comps[1..]);
    }
  }

  lemma {:induction false} PlainHasNoClimbs(parts: seq<Component>)
    requires Plain(parts)
    ensures ClimbCount(parts) == 0
  {
    if parts != [] {
      assert Plain(parts[1..]) by {
        forall i | 0 <= i < |parts[1..]| ensures !parts[1..][i].CurDir? && !parts[1..][i].ParentDir? {
          assert parts[1..][i] == parts[i + 1];
        }
      }
      PlainHasNoClimbs(parts[1..]);
    }
  }

  lemma {:induction false} RootlessStays(parts: seq<Component>, comps: seq<Component>)
    requires Rootless(parts) && Rootless(comps)
    ensures Rootless(PushAll(parts, comps))
    decreases |comps|
  {
    if comps != [] {
      RootlessTail(comps);
      RootlessStays(Push(parts, comps[0]), comps[1..]);
    }
  }

  /** A root at the bottom and only names above it. */
  ghost predicate Rooted(parts: seq<Component>, r: nat) {
    && r < |parts| && parts[r] == RootDir
    && (forall i :: 0 <= i < r ==> !parts[i].RootDir?)
    && (forall i :: r < i < |parts| ==> parts[i].Normal?)
  }

  /** Climbing out of an absolute path pops its root for good. */
  lemma {:induction false} ClimbDropsRoot(parts: seq<Component>, r: nat, comps: seq<Component>)
    requires Rooted(parts, r) && Rootless(comps) && !NeverClimbs(parts, comps)
    requires forall i :: 0 <= i < |comps| ==> !comps[i].Prefix?
    ensures Rootless(PushAll(parts, comps))
    decreases |comps|
  {
    RootlessTail(comps);
    var next := Push(parts, comps[0]);
    if comps[0].ParentDir? && !IsName(parts[|parts| - 1]) {
      assert r == |parts| - 1;
      RootlessStays(next, comps[1..]);
    } else {
      assert Rooted(next, r);
      forall i | 0 <= i < |comps[1..]| ensures !comps[1..][i].Prefix? { assert comps[1..][i] == comps[i + 1]; }
      ClimbDropsRoot(next, r, comps[1..]);
    }
  }

  /** A start the two paths leave towards different places. */
  lemma RelativeClimbIsLost(comps: seq<Component>) returns (at: Place)
    requires Rootless(comps) && !NeverClimbs([], comps)
    ensures WalkAll(at, Normalised(comps)) != WalkAll(at, comps)
  {
    at := seq(ClimbCount(comps), _ => "d");
    RelativeDepth(at, comps);
    RootlessStays([], comps);
    NormalisedIsStable(comps);
    PlainHasNoClimbs(Normalised(comps));
    RelativeDepth(at, Normalised(comps));
    ClimbLeavesNames([], comps);
  }

  /** Root and prefix, split off the front of an absolute path. */
  lemma AbsoluteClimbIsLost(front: seq<Component>, rest: seq<Component>) returns (at: Place)
    requires front == [RootDir] || (|front| == 2 && front[0].Prefix? && front[1] == RootDir)
    requires Rootless(rest) && forall i :: 0 <= i < |rest| ==> !rest[i].Prefix?
    requires !NeverClimbs([], front + rest)
    ensures WalkAll(at, Normalised(front + rest)) != WalkAll(at, front + rest)
  {
    var comps := front + rest;
    FrontIsKept(front, rest);
    assert Rooted(front, |front| - 1);
    ClimbDropsRoot(front, |front| - 1, rest);
    NormalisedIsStable(comps);
    PlainHasNoClimbs(Normalised(comps));
    var end := WalkAll([], comps);
    at := seq(|end| + 1, _ => "d");
    RelativeDepth(at, Normalised(comps));
    WalkConcat(at, front, rest);
    WalkConcat([], front, rest);
    FrontGoesToRoot(at, front);
    FrontGoesToRoot([], front);
  }

  lemma FrontGoesToRoot(at: Place, front: seq<Component>)
    requires front == [RootDir] || (|front| == 2 && front[0].Prefix? && front[1] == RootDir)
    ensures WalkAll(at, front) == []
  {
    assert front[1..] == [] || front[1..] == [RootDir];
    assert [RootDir][1..] == [];
  }

  lemma FrontIsKept(front: seq<Component>, rest: seq<Component>)
    requires front == [RootDir] || (|front| == 2 && front[0].Prefix? && front[1] == RootDir)
    ensures Normalised(front + rest) == PushAll(front, rest)
    ensures NeverClimbs([], front + rest) <==> NeverClimbs(front, rest)
  {
    var comps := front + rest;
    assert Push([], comps[0]) == [comps[0]];
    if |front| == 1 {
      assert comps[1..] == rest;
    } else {
      var tail := comps[1..];
      assert tail[0] == RootDir && tail[1..] == rest;
      assert Push([front[0]], RootDir) == front;
      assert PushAll([], comps) == PushAll([front[0]], tail);
      assert PushAll([front[0]], tail) == PushAll(front, rest);
    }
  }

  /** Normalising keeps where a path leads -- from every start -- exactly when the path
      never climbs above where it begins. */
  lemma SameTargetIffNeverClimbs(comps: seq<Component>)
    requires WellFormed(comps)
    ensures NeverClimbs([], comps) <==> forall at: Place :: WalkAll(at, Normalised(comps)) == WalkAll(at, comps)
  {
    if NeverClimbs([], comps) {
      forall at: Place ensures WalkAll(at, Normalised(comps)) == WalkAll(at, comps) {
        NormalisedLeadsThere(at, [], comps);
      }
    } else if Rootless(comps) {
      var at := RelativeClimbIsLost(comps);
    } else {
      var r := if comps[0].RootDir? then 0 else 1;
      var front, rest := comps[..r + 1], comps[r + 1..];
      assert comps == front + rest;
      assert front == [RootDir] || front == [comps[0], RootDir];
      forall i | 0 <= i < |rest| ensures !rest[i].RootDir? && !rest[i].Prefix? {
        assert rest[i] == comps[r + 1 + i];
      }
      var at := AbsoluteClimbIsLost(front, rest);
    }
  }

  lemma ClimbFromRoot(rest: seq<Component>)
    requires forall i :: 0 <= i < |rest| ==> rest[i].Normal?
    ensures !NeverClimbs([], [RootDir, ParentDir] + rest)
    ensures Normalised([RootDir, ParentDir] + rest) == rest
    ensures forall at: Place :: WalkAll(at, [RootDir, ParentDir] + rest) == WalkAll([], rest)
  {
    var comps := [RootDir, ParentDir] + rest;
    assert comps[1..] == [ParentDir] + rest && comps[1..][1..] == rest;
    assert Push([], RootDir) == [RootDir] && Push([RootDir], ParentDir) == [];
    assert PushAll([RootDir], comps[1..]) == PushAll([], rest);
    PushAllIsPlain([], rest);
    assert [] + rest == rest;
    assert !NeverClimbs([RootDir], comps[1..]);
  }

  /** `/../services/x` climbs above its start: the root is dropped, and from another directory
      the short path leads elsewhere. */
  lemma ClimbingLosesTheRoot() returns (comps: seq<Component>)
    ensures WellFormed(comps) && !NeverClimbs([], comps)
    ensures comps == [RootDir, ParentDir, Normal("services"), Normal("x")]
    ensures Normalised(comps) == [Normal("services"), Normal("x")]
    ensures WalkAll(["d"], comps) == ["services", "x"]
    ensures WalkAll(["d"], Normalised(comps)) == ["d", "services", "x"]
  {
    var rest := [Normal("services"), Normal("x")];
    comps := [RootDir, ParentDir, Normal("services"), Normal("x")];
    assert comps == [RootDir, ParentDir] + rest;
    ClimbFromRoot(rest);
    assert rest[1..] == [Normal("x")] && rest[1..][1..] == [];
    assert WalkAll([], rest) == ["services", "x"] && WalkAll(["d"], rest) == ["d", "services", "x"];
    hide NeverClimbs, Normalised;
  }

  // ----- existing files

  /** Walking through places that exist: every name taken must name one. */
  predicate CanWalk(tree: set<Place>, at: Place, comps: seq<Component>)
    decreases |comps|
  {
    comps == []
    || ((comps[0].Normal? ==> Walk(at, comps[0]) in tree) && CanWalk(tree, Walk(at, comps[0]), comps[1..]))
  }

  lemma {:induction false} CanWalkConcat(tree: set<Place>, at: Place, a: seq<Component>, b: seq<Component>)
    ensures CanWalk(tree, at, a + b) <==> CanWalk(tree, at, a) && CanWalk(tree, WalkAll(at, a), b)
    decreases |a|
  {
    if a == [] {
      assert a + b == b;
    } else {
      assert (a + b)[1..] == a[1..] + b;
      CanWalkConcat(tree, Walk(at, a[0]), a[1..], b);
    }
  }

  /** If the long path can be walked in a tree without links, so can the short one, and it
      ends at the same file.  (The short one may exist where the long one does not.) */
  lemma {:induction false} ShortPathReachesSameFile(tree: set<Place>, at: Place, parts: seq<Component>,
                                                    comps: seq<Component>)
    requires NeverClimbs(parts, comps)
    requires CanWalk(tree, at, parts) && CanWalk(tree, WalkAll(at, parts), comps)
    ensures CanWalk(tree, at, PushAll(parts, comps))
    ensures WalkAll(at, PushAll(parts, comps)) == WalkAll(WalkAll(at, parts), comps)
    decreases |comps|
  {
    if comps != [] {
      var c := comps[0];
      PushWalks(at, parts, c);
      if c.ParentDir? {
        assert parts == parts[..|parts| - 1] + [parts[|parts| - 1]];
        CanWalkConcat(tree, at, parts[..|parts| - 1], [parts[|parts| - 1]]);
      } else if !c.CurDir? {
        CanWalkConcat(tree, at, parts, [c]);
        assert [c][1..] == [];
      }
      ShortPathReachesSameFile(tree, at, Push(parts, c), comps[1..]);
    }
  }

  // ----- the artifact list

  /** One `include_bytes!` path joined to its file's directory. */
  datatype Include = Include(joined: seq<Component>, isService: bool)

  /** What reading the source tree finds; unreadable entries are simply not there. */
  datatype Node = Dir(entries: seq<Node>) | RustFile(includes: seq<Include>) | OtherFile

  function ComponentText(c: Component): string {
    match c
    case Prefix(drive) => drive
    case RootDir => "/"
    case CurDir => "."
    case ParentDir => ".."
    case Normal(name) => name
  }

  /** `PathBuf::push`: the separator is supplied where one is missing. */
  function Extended(out: string, c: Component): string {
    if c.Prefix? then c.drive
    else if c.RootDir? then out + "/"
    else if out == "" || out[|out| - 1] == '/' then out + ComponentText(c)
    else out + "/" + ComponentText(c)
  }

  function Rendered(out: string, parts: seq<Component>): string
    decreases |parts|
  {
    if parts == [] then out else Rendered(Extended(out, parts[0]), parts[1..])
  }

  function Slashed(s: string): string {
    if s == "" then "" else [if s[0] == '\\' then '/' else s[0]] + Slashed(s[1..])
  }

  function ArtifactPath(joined: seq<Component>): string { Slashed(Rendered("", Normalised(joined))) }

  /** Names with a separator between any two. */
  function Joined(names: seq<string>): string {
    if names == [] then "" else if |names| == 1 then names[0] else names[0] + "/" + Joined(names[1..])
  }

  /** Directory and file names: never empty, and without a separator in them. */
  ghost predicate Nameable(names: seq<string>) {
    forall i :: 0 <= i < |names| ==> names[i] != "" && '/' !in names[i]
  }

  function AsNames(names: seq<string>): (parts: seq<Component>)
    ensures |parts| == |names| && forall i :: 0 <= i < |names| ==> parts[i] == Normal(names[i])
  {
    if names == [] then [] else [Normal(names[0])] + AsNames(names[1..])
  }

  /** Written out after something, names follow with their separators; only what ends in one,
      or is empty, needs none in front. */
  lemma {:induction false} NamesAreJoined(out: string, names: seq<string>)
    requires Nameable(names) && names != []
    ensures Rendered(out, AsNames(names))
            == out + (if out == "" || out[|out| - 1] == '/' then "" else "/") + Joined(names)
    decreases |names|
  {
    hide *;
    var sep := if out == "" || out[|out| - 1] == '/' then "" else "/";
    var next := out + sep + names[0];
    FirstNameWritten(out, names);
    NameableTail(names);
    JoinedStep(names);
    if |names| > 1 {
      NameEndsPlain(out + sep, names[0]);
      NamesAreJoined(next, names[1..]);
      Glued(out + sep, names[0], Joined(names[1..]));
    }
  }

  lemma Glued(a: string, b: string, c: string)
    ensures a + (b + "/" + c) == a + b + "/" + c
  {}

  lemma NameableTail(names: seq<string>)
    requires Nameable(names) && names != []
    ensures names[0] != "" && '/' !in names[0] && Nameable(names[1..])
  {
    assert forall i :: 0 <= i < |names[1..]| ==> names[1..][i] == names[i + 1];
  }

  lemma FirstNameWritten(out: string, names: seq<string>)
    requires names != []
    ensures var next := out + (if out == "" || out[|out| - 1] == '/' then "" else "/") + names[0];
      Rendered(out, AsNames(names)) == if |names| == 1 then next else Rendered(next, AsNames(names[1..]))
  {
    var next := out + (if out == "" || out[|out| - 1] == '/' then "" else "/") + names[0];
    assert AsNames(names)[0] == Normal(names[0]) && AsNames(names)[1..] == AsNames(names[1..]);
    assert out + "" + names[0] == out + names[0];
    assert Extended(out, Normal(names[0])) == next;
    if |names| == 1 {
      assert AsNames(names[1..]) == [] && Rendered(next, []) == next;
    }
  }

  lemma NameEndsPlain(out: string, name: string)
    requires name != "" && '/' !in name
    ensures var next := out + name; next != "" && next[|next| - 1] != '/'
  {
    assert name[|name| - 1] in name;
  }

  lemma JoinedStep(names: seq<string>)
    requires names != []
    ensures Joined(names) == if |names| == 1 then names[0] else names[0] + "/" + Joined(names[1..])
  {}

  /** The path of an artifact as text: its names with a slash between any two, after a slash for
      the root and whatever drive it is on, and every backslash turned. */
  lemma ArtifactPathIs(joined: seq<Component>, names: seq<string>, drive: string)
    requires Nameable(names) && names != []
    ensures Normalised(joined) == AsNames(names) ==> ArtifactPath(joined) == Slashed(Joined(names))
    ensures Normalised(joined) == [RootDir] + AsNames(names) ==> ArtifactPath(joined) == Slashed("/" + Joined(names))
    ensures Normalised(joined) == [Prefix(drive), RootDir] + AsNames(names) ==>
      ArtifactPath(joined) == Slashed(drive + "/" + Joined(names))
  {
    RootIsASlash(AsNames(names), drive);
    hide Rendered, Normalised, Slashed, Joined;
    NamesAreJoined("", names);
    NamesAreJoined("/", names);
    NamesAreJoined(drive + "/", names);
    assert "" + "" + Joined(names) == Joined(names);
    assert "/" + "" + Joined(names) == "/" + Joined(names);
    assert drive + "/" + "" + Joined(names) == drive + "/" + Joined(names);
  }

  lemma RootIsASlash(parts: seq<Component>, drive: string)
    ensures Rendered("", [RootDir] + parts) == Rendered("/", parts)
    ensures Rendered("", [Prefix(drive), RootDir] + parts) == Rendered(drive + "/", parts)
  {
    var rooted, whole := [RootDir] + parts, [Prefix(drive), RootDir] + parts;
    assert rooted[1..] == parts && whole[1..] == rooted;
    assert Extended("", RootDir) == "/";
  }

  /** Only backslashes change, each into a slash. */
  lemma {:induction false} SlashedAt(s: string)
    ensures |Slashed(s)| == |s|
    ensures forall k :: 0 <= k < |s| ==> Slashed(s)[k] == if s[k] == '\\' then '/' else s[k]
  {
    if s != "" {
      SlashedAt(s[1..]);
    }
  }

  function FileArtifacts(includes: seq<Include>): set<string> {
    if includes == [] then {}
    else (if includes[0].isService then {ArtifactPath(includes[0].joined)} else {}) + FileArtifacts(includes[1..])
  }

  /** Every service artifact embedded anywhere below a node. */
  function ArtifactsOf(node: Node): set<string>
    decreases node, 1
  {
    match node
    case Dir(entries) => ArtifactsIn(entries)
    case RustFile(includes) => FileArtifacts(includes)
    case OtherFile => {}
  }

  function ArtifactsIn(nodes: seq<Node>): set<string>
    decreases nodes, 0
  {
    if nodes == [] then {} else ArtifactsOf(nodes[0]) + ArtifactsIn(nodes[1..])
  }

  function Size(node: Node): (n: nat)
    ensures n >= 1
    decreases node, 1
  {
    match node
    case Dir(entries) => 1 + SizeOf(entries)
    case _ => 1
  }

  function SizeOf(nodes: seq<Node>): nat
    decreases nodes, 0
  {
    if nodes == [] then 0 else Size(nodes[0]) + SizeOf(nodes[1..])
  }

  lemma {:induction false} NodesConcat(a: seq<Node>, b: seq<Node>)
    ensures ArtifactsIn(a + b) == ArtifactsIn(a) + ArtifactsIn(b)
    ensures SizeOf(a + b) == SizeOf(a) + SizeOf(b)
  {
    if a == [] {
      assert a + b == b;
    } else {
      assert (a + b)[1..] == a[1..] + b;
      NodesConcat(a[1..], b);
    }
  }

  lemma OneNode(n: Node)
    ensures ArtifactsIn([n]) == ArtifactsOf(n) && SizeOf([n]) == Size(n)
  {
    assert [n][1..] == [];
  }

  lemma {:induction false} FileArtifactsSnoc(includes: seq<Include>, last: Include)
    ensures FileArtifacts(includes + [last])
            == FileArtifacts(includes) + (if last.isService then {ArtifactPath(last.joined)} else {})
  {
    hide ArtifactPath;
    if includes == [] {
      assert includes + [last] == [last];
      assert [last][1..] == [];
    } else {
      assert (includes + [last])[1..] == includes[1..] + [last];
      FileArtifactsSnoc(includes[1..], last);
    }
  }

  /** A file contributes the path of each service it embeds, and no other. */
  lemma {:induction false} FileArtifactsAre(includes: seq<Include>)
    ensures forall s :: s in FileArtifacts(includes) <==>
      exists i :: 0 <= i < |includes| && includes[i].isService && ArtifactPath(includes[i].joined) == s
  {
    hide ArtifactPath;
    if includes != [] {
      var front, last := includes[..|includes| - 1], includes[|includes| - 1];
      assert includes == front + [last];
      FileArtifactsAre(front);
      FileArtifactsSnoc(front, last);
      forall i | 0 <= i < |front| ensures front[i] == includes[i] {}
    }
  }

  method ScanFile(includes: seq<Include>, before: seq<string>) returns (found: seq<string>)
    requires Distinct(before)
    ensures Distinct(found) && Elements(found) == Elements(before) + FileArtifacts(includes)
  {
    hide Rendered, Slashed, Normalised;
    found := before;
    for i := 0 to |includes|
      invariant Distinct(found) && Elements(found) == Elements(before) + FileArtifacts(includes[..i])
    {
      assert includes[..i + 1] == includes[..i] + [includes[i]];
      FileArtifactsSnoc(includes[..i], includes[i]);
      if !includes[i].isService {
        continue;
      }
      var parts := Normalise(includes[i].joined);
      var s := Slashed(Rendered("", parts));
      assert s == ArtifactPath(includes[i].joined);
      if s !in found {
        assert Elements(found + [s]) == Elements(found) + {s};
        found := found + [s];
      }
    }
    assert includes[..|includes|] == includes;
  }

  lemma NoNodes()
    ensures ArtifactsIn([]) == {} && SizeOf([]) == 0
  {}

  lemma NodeSnoc(nodes: seq<Node>, n: Node)
    ensures ArtifactsIn(nodes + [n]) == ArtifactsIn(nodes) + ArtifactsOf(n)
    ensures SizeOf(nodes + [n]) == SizeOf(nodes) + Size(n)
  {
    NodesConcat(nodes, [n]);
    OneNode(n);
  }

  lemma ArtifactsAtNode(n: Node)
    ensures n.RustFile? ==> ArtifactsOf(n) == FileArtifacts(n.includes)
    ensures n.OtherFile? ==> ArtifactsOf(n) == {}
  {}

  method ScanDirectory(entries: seq<Node>, before: seq<string>, stack: seq<Node>)
    returns (found: seq<string>, later: seq<Node>)
    requires Distinct(before) && forall d :: d in stack ==> d.Dir?
    ensures Distinct(found) && forall d :: d in later ==> d.Dir?
    ensures Elements(found) + ArtifactsIn(later) == Elements(before) + ArtifactsIn(stack) + ArtifactsIn(entries)
    ensures SizeOf(later) <= SizeOf(stack) + SizeOf(entries)
  {
    hide ArtifactsOf, ArtifactsIn, Size, SizeOf, FileArtifacts, Distinct, Elements;
    NoNodes();
    found, later := before, stack;
    assert entries[..0] == [];
    for i := 0 to |entries|
      invariant Distinct(found) && forall d :: d in later ==> d.Dir?
      invariant Elements(found) + ArtifactsIn(later) ==
        Elements(before) + ArtifactsIn(stack) + ArtifactsIn(entries[..i])
      invariant SizeOf(later) <= SizeOf(stack) + SizeOf(entries[..i])
    {
      assert entries[..i + 1] == entries[..i] + [entries[i]];
      NodeSnoc(entries[..i], entries[i]);
      NodeSnoc(later, entries[i]);
      match entries[i]
      case Dir(_) =>
        later := later + [entries[i]];
      case RustFile(includes) =>
        ArtifactsAtNode(entries[i]);
        found := ScanFile(includes, found);
      case OtherFile =>
        ArtifactsAtNode(entries[i]);
    }
    assert entries[..|entries|] == entries;
  }

  /** The list for a source tree: every embedded service artifact once, in sorted order,
      whatever order directories were listed in. */
  method EmbeddedServiceArtifacts(entries: seq<Node>) returns (found: seq<string>)
    ensures found == Names(ArtifactsIn(entries))
  {
    found := [];
    var stack := [Dir(entries)];
    OneNode(Dir(entries));
    while stack != []
      invariant Distinct(found)
      invariant Elements(found) + ArtifactsIn(stack) == ArtifactsIn(entries)
      invariant forall d :: d in stack ==> d.Dir?
      decreases SizeOf(stack)
    {
      var dir, rest := stack[|stack| - 1], stack[..|stack| - 1];
      assert stack == rest + [dir];
      NodesConcat(rest, [dir]);
      OneNode(dir);
      assert dir in stack;
      found, stack := ScanDirectory(dir.entries, found, rest);
    }
    SortedOnce(found, ArtifactsIn(entries));
    found := Sort(found, LexLe);
  }

  lemma SortedOnce(found: seq<string>, all: set<string>)
    requires Distinct(found) && Elements(found) == all
    ensures Sort(found, LexLe) == Names(all)
  {
    LexIsOrder();
    SortIsSorted(found, LexLe);
    SortPermutes(found, LexLe);
    var names := Names(all);
    forall x ensures multiset(found)[x] == multiset(names)[x] {
      OccursOnce(found, x);
      OccursOnce(names, x);
    }
    SortedIsUnique(Sort(found, LexLe), names, LexLe);
  }

  /** Everything listed on one side is listed on the other, at every level. */
  ghost predicate Within(a: seq<Node>, b: seq<Node>)
    decreases a, 0
  {
    forall n :: n in a ==> exists m :: m in b && NodeWithin(n, m)
  }

  ghost predicate NodeWithin(n: Node, m: Node)
    decreases n, 1
  {
    if n.Dir? then m.Dir? && Within(n.entries, m.entries) else n == m
  }

  lemma {:induction false} WithinFindsNoMore(a: seq<Node>, b: seq<Node>)
    requires Within(a, b)
    ensures ArtifactsIn(a) <= ArtifactsIn(b)
    decreases a, 0
  {
    if a != [] {
      assert a[0] in a;
      var m :| m in b && NodeWithin(a[0], m);
      NodeFindsNoMore(a[0], m);
      MemberContributes(b, m);
      assert forall n :: n in a[1..] ==> n in a;
      WithinFindsNoMore(a[1..], b);
    }
  }

  lemma {:induction false} NodeFindsNoMore(n: Node, m: Node)
    requires NodeWithin(n, m)
    ensures ArtifactsOf(n) <= ArtifactsOf(m)
    decreases n, 1
  {
    if n.Dir? {
      WithinFindsNoMore(n.entries, m.entries);
    }
  }

  /** Two listings of one tree, in whatever order its directories were read, give one list. */
  lemma ListingOrderIsIrrelevant(a: seq<Node>, b: seq<Node>)
    requires Within(a, b) && Within(b, a)
    ensures Names(ArtifactsIn(a)) == Names(ArtifactsIn(b))
  {
    hide Within, Names;
    WithinFindsNoMore(a, b);
    WithinFindsNoMore(b, a);
    assert ArtifactsIn(a) == ArtifactsIn(b);
  }

  lemma {:induction false} MemberContributes(nodes: seq<Node>, n: Node)
    requires n in nodes
    ensures ArtifactsOf(n) <= ArtifactsIn(nodes)
  {
    if nodes[0] != n {
      MemberContributes(nodes[1..], n);
    }
  }
}
