/** Which benchmark functions `run_all` really reaches (scripts/bench-history.py,
    `reachable_bench_fns`). */
module Reach {
  import opened Wrappers
  import opened Order

  const ROOT := "run_all"

  /** Each function defined in the file, with the names called in its body, in order. */
  type Calls = map<string, seq<string>>

  ghost predicate Edge(calls: Calls, caller: string, callee: string) {
    caller in calls && callee in calls && callee in calls[caller]
  }

  /** A chain of defined functions, each calling the next. */
  ghost predicate IsPath(calls: Calls, path: seq<string>) {
    && path != []
    && path[0] in calls
    && forall i :: 0 <= i < |path| - 1 ==> Edge(calls, path[i], path[i + 1])
  }

  ghost predicate Reachable(calls: Calls, src: string, dst: string) {
    exists path :: IsPath(calls, path) && path[0] == src && path[|path| - 1] == dst
  }

  lemma ReachStep(calls: Calls, src: string, mid: string, dst: string)
    requires Reachable(calls, src, mid) && Edge(calls, mid, dst)
    ensures Reachable(calls, src, dst)
  {
    var path :| IsPath(calls, path) && path[0] == src && path[|path| - 1] == mid;
    var longer := path + [dst];
    assert IsPath(calls, longer) && longer[0] == src && longer[|longer| - 1] == dst;
  }

  lemma ReachSelf(calls: Calls, src: string)
    requires src in calls
    ensures Reachable(calls, src, src)
  {
    assert IsPath(calls, [src]);
  }

  /** A set that contains the start and every callee of its members contains every path. */
  lemma {:induction false} ClosedSetHoldsPaths(calls: Calls, seen: set<string>, path: seq<string>)
    requires IsPath(calls, path) && path[0] in seen
    requires forall a, b :: a in seen && Edge(calls, a, b) ==> b in seen
    ensures path[|path| - 1] in seen
  {
    if |path| > 1 {
      assert Edge(calls, path[0], path[1]);
      var rest := path[1..];
      forall i | 0 <= i < |rest| - 1 ensures Edge(calls, rest[i], rest[i + 1]) {
        assert Edge(calls, path[i + 1], path[i + 2]);
      }
      ClosedSetHoldsPaths(calls, seen, rest);
    }
  }

  function Unvisited(calls: Calls, seen: set<string>): string -> bool {
    (callee: string) => callee in calls && callee !in seen
  }

  /** The callees of one body that still have to be visited. */
  function Fresh(callees: seq<string>, calls: Calls, seen: set<string>): seq<string> {
    Filter(Unvisited(calls, seen), callees)
  }

  method QueueCallees(callees: seq<string>, calls: Calls, seen: set<string>, queue: seq<string>)
    returns (longer: seq<string>)
    ensures longer == queue + Fresh(callees, calls, seen)
  {
    longer := queue;
    for i := 0 to |callees|
      invariant longer == queue + Fresh(callees[..i], calls, seen)
    {
      assert callees[..i + 1] == callees[..i] + [callees[i]];
      FilterSnoc(Unvisited(calls, seen), callees[..i], callees[i]);
      if callees[i] in calls && callees[i] !in seen {
        longer := longer + [callees[i]];
      }
    }
    assert callees[..|callees|] == callees;
  }

  /** Everything a seen function calls is seen or still queued. */
  ghost predicate Frontier(calls: Calls, seen: set<string>, queue: seq<string>) {
    && (forall q :: q in queue ==> Reachable(calls, ROOT, q))
    && (forall s :: s in seen ==> s in calls && Reachable(calls, ROOT, s))
    && (forall a, b :: a in seen && Edge(calls, a, b) ==> b in seen || b in queue)
    && (ROOT in seen || ROOT in queue)
  }

  lemma FrontierSkips(calls: Calls, seen: set<string>, queue: seq<string>)
    requires Frontier(calls, seen, queue) && queue != [] && queue[|queue| - 1] in seen
    ensures Frontier(calls, seen, queue[..|queue| - 1])
  {
    assert queue == queue[..|queue| - 1] + [queue[|queue| - 1]];
  }

  lemma FrontierVisits(calls: Calls, seen: set<string>, queue: seq<string>)
    requires Frontier(calls, seen, queue) && queue != [] && queue[|queue| - 1] in calls
    ensures var name := queue[|queue| - 1];
            Frontier(calls, seen + {name}, queue[..|queue| - 1] + Fresh(calls[name], calls, seen + {name}))
  {
    var name := queue[|queue| - 1];
    var rest := queue[..|queue| - 1];
    assert queue == rest + [name];
    FilterMembers(Unvisited(calls, seen + {name}), calls[name]);
    var next := rest + Fresh(calls[name], calls, seen + {name});
    forall q | q in next ensures Reachable(calls, ROOT, q) {
      if q !in rest {
        assert Edge(calls, name, q);
        ReachStep(calls, ROOT, name, q);
      }
    }
    forall a, b | a in seen + {name} && Edge(calls, a, b) ensures b in seen + {name} || b in next {}
  }

  lemma ReachableIsDefined(calls: Calls, dst: string)
    requires Reachable(calls, ROOT, dst)
    ensures dst in calls
  {
    var path :| IsPath(calls, path) && path[0] == ROOT && path[|path| - 1] == dst;
    if |path| > 1 {
      assert Edge(calls, path[|path| - 2], path[|path| - 2 + 1]);
    }
  }

  lemma FrontierDone(calls: Calls, seen: set<string>)
    requires Frontier(calls, seen, [])
    ensures forall n :: n in seen <==> Reachable(calls, ROOT, n)
  {
    forall n | Reachable(calls, ROOT, n) ensures n in seen {
      var path :| IsPath(calls, path) && path[0] == ROOT && path[|path| - 1] == n;
      ClosedSetHoldsPaths(calls, seen, path);
    }
  }

  lemma FrontierStart(calls: Calls)
    requires ROOT in calls
    ensures Frontier(calls, {}, [ROOT])
  {
    ReachSelf(calls, ROOT);
  }

  lemma FrontierNext(calls: Calls, seen: set<string>, queue: seq<string>)
    requires Frontier(calls, seen, queue) && queue != []
    ensures queue[|queue| - 1] in calls
  {
    assert queue[|queue| - 1] in queue;
    ReachableIsDefined(calls, queue[|queue| - 1]);
  }

  /** What has been seen carries its own body. */
  ghost predicate Agrees(seen: Calls, calls: Calls) {
    forall n :: n in seen ==> n in calls && seen[n] == calls[n]
  }

  lemma NothingSeen(calls: Calls)
    ensures Agrees(map[], calls)
  {}

  lemma AgreesMeans(seen: Calls, calls: Calls)
    requires Agrees(seen, calls)
    ensures forall n :: n in seen ==> n in calls && seen[n] == calls[n]
  {}

  lemma VisitOne(seen: Calls, calls: Calls, name: string)
    requires Agrees(seen, calls) && name in calls && name !in seen
    ensures var visited := seen[name := calls[name]];
      && Agrees(visited, calls) && visited.Keys == seen.Keys + {name}
      && |calls.Keys - visited.Keys| < |calls.Keys - seen.Keys|
  {
    var visited := seen[name := calls[name]];
    assert visited.Keys == seen.Keys + {name};
    FewerUnseen(calls.Keys, seen.Keys, name);
  }

  lemma FewerUnseen(all: set<string>, seen: set<string>, name: string)
    requires name in all && name !in seen
    ensures |all - (seen + {name})| < |all - seen|
  {
    assert all - (seen + {name}) == (all - seen) - {name};
  }

  /** Terminates on every call graph and returns exactly what `run_all` reaches; nothing
      at all is answered when `run_all` is not defined. */
  method ReachableBenchFns(calls: Calls) returns (result: Option<Calls>)
    ensures result.None? <==> "run_all" !in calls
    ensures result.Some? ==>
      forall n :: (n in result.value <==> Reachable(calls, "run_all", n))
               && (n in result.value ==> n in calls && result.value[n] == calls[n])
  {
    if ROOT !in calls {
      return None;
    }
    var seen: Calls := map[];
    var queue := [ROOT];
    FrontierStart(calls);
    hide Frontier, Reachable, Fresh, Agrees;
    NothingSeen(calls);
    while queue != []
      invariant Frontier(calls, seen.Keys, queue)
      invariant Agrees(seen, calls)
      decreases |calls.Keys - seen.Keys|, |queue|
    {
      var name := queue[|queue| - 1];
      FrontierNext(calls, seen.Keys, queue);
      if name in seen {
        FrontierSkips(calls, seen.Keys, queue);
        queue := queue[..|queue| - 1];
        continue;
      }
      FrontierVisits(calls, seen.Keys, queue);
      VisitOne(seen, calls, name);
      seen := seen[name := calls[name]];
      queue := QueueCallees(calls[name], calls, seen.Keys, queue[..|queue| - 1]);
    }
    FrontierDone(calls, seen.Keys);
    AgreesMeans(seen, calls);
    result := Some(seen);
  }
}
