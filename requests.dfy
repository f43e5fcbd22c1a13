/**
  The request driver: for every request (origin, destination, priority letters) one
  optimal route per requested criterion, and the compromise among them.
*/
module Requests {
  import opened Base
  import opened Network
  import opened Solver
  import opened Reconstruct
  import opened Compromise

  /** A request, with the city names already looked up as vertex ids. */
  datatype Request = Request(start: int, end: int, priorities: seq<Letter>)

  /** One per-criterion result: the three totals and the restored path. */
  datatype Route = Route(totals: Totals, path: seq<int>)

  /**
    What one request comes to:
    AlreadyThere: origin and destination coincide (a block saying so is written);
    Skipped: no priority letters, so no result and no block;
    NoRoute: the path could not be restored (an error block is written);
    Routes: the results per letter, in insertion order, and the compromise letter;
    Crashed: `find_optimal_path` raised, which aborts the whole run.
  */
  datatype Outcome =
    | AlreadyThere
    | Skipped
    | NoRoute
    | Routes(keys: seq<Letter>, routes: map<Letter, Route>, best: Letter)
    | Crashed

  /** `find_optimal_path` raises on this request: a vertex is not in the graph. */
  predicate Crashes(adj: Adjacency, q: Request)
  {
    q.start != q.end && q.priorities != [] && (q.start !in adj || q.end !in adj)
  }

  /**
    Distinct letters in order of first occurrence: the key order of a dictionary
    into which the letters are inserted one after another.
  */
  function FirstOccurrences(s: seq<Letter>): (r: seq<Letter>)
    ensures Distinct(r)
    ensures forall x :: x in r <==> x in s
  {
    if s == [] then []
    else
      var r0 := FirstOccurrences(s[..|s| - 1]);
      if s[|s| - 1] in r0 then r0 else r0 + [s[|s| - 1]]
  }

  /** Inserting one more letter adds it at the end unless it is already a key. */
  lemma FirstOccurrencesSnoc(s: seq<Letter>, x: Letter)
    ensures FirstOccurrences(s + [x]) == if x in FirstOccurrences(s) then FirstOccurrences(s) else FirstOccurrences(s) + [x]
  {
    assert (s + [x])[..|s + [x]| - 1] == s;
  }

  /** Of two letters in `FirstOccurrences(s)`, the earlier one occurs in `s` before any occurrence of the later. */
  lemma {:induction false} FirstOccurrencesInOrder(s: seq<Letter>, i: nat, j: nat, m: nat)
    requires i < j < |FirstOccurrences(s)| && m < |s| && s[m] == FirstOccurrences(s)[j]
    ensures FirstOccurrences(s)[i] in s[..m]
  {
    var s0, x := s[..|s| - 1], s[|s| - 1];
    var r, r0 := FirstOccurrences(s), FirstOccurrences(s[..|s| - 1]);
    assert r == r0 || (x !in r0 && r == r0 + [x]);
    if m < |s0| {
      assert s[m] == s0[m] && s[..m] == s0[..m];
      if j < |r0| {
        FirstOccurrencesInOrder(s0, i, j, m);
      } else {
        assert false;
      }
    } else {
      assert s[..m] == s0;
      assert r[i] == r0[i] && r0[i] in r0;
    }
  }

  /** The first letter of the request is the first key. */
  lemma FirstOccurrencesHead(s: seq<Letter>)
    requires s != []
    ensures FirstOccurrences(s) != [] && FirstOccurrences(s)[0] == s[0]
  {
    assert s[0] in s;
    if FirstOccurrences(s)[0] != s[0] {
      var k :| 0 <= k < |FirstOccurrences(s)| && FirstOccurrences(s)[k] == s[0];
      FirstOccurrencesInOrder(s, 0, k, 0);
    }
  }

  /** The compromise key of every result. */
  function Scores(routes: map<Letter, Route>, priorities: seq<Letter>): (score: map<Letter, seq<nat>>)
    ensures score.Keys == routes.Keys
    ensures forall p :: p in routes ==> |score[p]| == |priorities|
  {
    map p | p in routes :: CompromiseKey(routes[p].totals, priorities)
  }

  /**
    `r` is an optimal route under criterion `c`: a path from `start` to `end` visiting no
    vertex twice, along arcs whose totals are `r.totals`, and no walk from `start` to `end`
    is lighter under `c`.
  */
  ghost predicate OptimalRoute(adj: Adjacency, start: int, end: int, c: Criterion, r: Route)
  {
    && |r.path| > 0 && r.path[0] == start && r.path[|r.path| - 1] == end && Distinct(r.path)
    && (exists es :: IsWalk(adj, r.path, es) && SumOf(es) == r.totals)
    && LowerBound(adj, start, end, Component(r.totals, c), c)
  }

  /** One optimal route under each of the letters, and no other. */
  ghost predicate RoutesFor(adj: Adjacency, start: int, end: int, letters: seq<Letter>, routes: map<Letter, Route>)
  {
    && (forall p :: p in routes <==> p in letters)
    && (forall p :: p in routes ==> OptimalRoute(adj, start, end, Column(p), routes[p]))
  }

  /** Storing an optimal route under one more letter (`results_metricks[i] = ...`). */
  lemma StoreRoute(adj: Adjacency, start: int, end: int, letters: seq<Letter>, routes: map<Letter, Route>,
                   p: Letter, route: Route)
    requires RoutesFor(adj, start, end, letters, routes)
    requires OptimalRoute(adj, start, end, Column(p), route)
    ensures RoutesFor(adj, start, end, letters + [p], routes[p := route])
  {
  }

  /**
    The results of a request with letters `priorities`: one optimal route per distinct
    letter, the letters in order of first occurrence, and the compromise chosen by
    `min` over that order with the compromise key.
  */
  ghost predicate Ranked(adj: Adjacency, start: int, end: int, priorities: seq<Letter>,
                         keys: seq<Letter>, routes: map<Letter, Route>, best: Letter)
  {
    && keys == FirstOccurrences(priorities)
    && RoutesFor(adj, start, end, priorities, routes)
    && |keys| > 0 && (forall i :: 0 <= i < |keys| ==> keys[i] in routes)
    && best == Select(keys, Scores(routes, priorities))
  }

  /** The correct outcome of one request; the five cases exclude each other. */
  ghost predicate Answers(adj: Adjacency, q: Request, o: Outcome)
  {
    match o
    case AlreadyThere => q.start == q.end
    case Skipped => q.start != q.end && q.priorities == []
    case Crashed => Crashes(adj, q)
    case NoRoute =>
      && q.start != q.end && q.priorities != [] && q.start in adj && q.end in adj
      && !Reachable(adj, q.start, q.end)
    case Routes(keys, routes, best) =>
      && q.start != q.end && q.priorities != [] && q.start in adj && q.end in adj
      && Reachable(adj, q.start, q.end)
      && Ranked(adj, q.start, q.end, q.priorities, keys, routes, best)
  }

  /** Whatever tie order the searches follow, every request has one kind of outcome. */
  lemma AnswersAgreeOnKind(adj: Adjacency, q: Request, o1: Outcome, o2: Outcome)
    requires Answers(adj, q, o1) && Answers(adj, q, o2)
    ensures o1.AlreadyThere? == o2.AlreadyThere? && o1.Skipped? == o2.Skipped?
    ensures o1.NoRoute? == o2.NoRoute? && o1.Routes? == o2.Routes? && o1.Crashed? == o2.Crashed?
    ensures o1.Routes? ==> o1.keys == o2.keys && o1.routes.Keys == o2.routes.Keys
  {
    if o1.Routes? && o2.Routes? {
      assert forall p :: p in o1.routes <==> p in o2.routes;
    }
  }

  /** An answer is `Crashed` exactly when the request makes the search raise. */
  lemma CrashedExactly(adj: Adjacency, q: Request, o: Outcome)
    requires Answers(adj, q, o)
    ensures o.Crashed? <==> Crashes(adj, q)
  {
  }

  /** Under the compromise key the chosen result is no worse than the first letter's result in that letter's criterion. */
  lemma FirstComponentNoWorse(routes: map<Letter, Route>, priorities: seq<Letter>, keys: seq<Letter>)
    requires priorities != [] && |keys| > 0 && keys[0] == priorities[0]
    requires forall i :: 0 <= i < |keys| ==> keys[i] in routes
    ensures Select(keys, Scores(routes, priorities)) in routes
    ensures Component(routes[Select(keys, Scores(routes, priorities))].totals, Column(priorities[0]))
         <= Component(routes[priorities[0]].totals, Column(priorities[0]))
  {
    var score := Scores(routes, priorities);
    var b := Select(keys, score);
    var k0, kb := score[keys[0]], score[b];
    assert !LexLess(k0, kb);
  }

  /** A walk no heavier under `c` than an optimal route for `c` is optimal for `c` as well. */
  lemma NoWorseIsOptimal(adj: Adjacency, start: int, end: int, c: Criterion, c': Criterion, r0: Route, rb: Route)
    requires OptimalRoute(adj, start, end, c, r0) && OptimalRoute(adj, start, end, c', rb)
    requires Component(rb.totals, c) <= Component(r0.totals, c)
    ensures OptimalRoute(adj, start, end, c, rb)
  {
    var es :| IsWalk(adj, rb.path, es) && SumOf(es) == rb.totals;
    assert WalkFromTo(adj, rb.path, es, start, end);
  }

  /**
    The compromise is optimal for the first priority letter: its key is no larger than the
    key of the route optimised for that letter, whose first component is the optimum.
  */
  lemma {:induction false} CompromiseLeadsOnFirstPriority(adj: Adjacency, q: Request, o: Outcome)
    requires Answers(adj, q, o) && o.Routes?
    ensures o.best in o.routes
    ensures OptimalRoute(adj, q.start, q.end, Column(q.priorities[0]), o.routes[o.best])
  {
    var p0: Letter := q.priorities[0];
    assert RoutesFor(adj, q.start, q.end, q.priorities, o.routes);
    assert p0 in q.priorities;
    FirstOccurrencesHead(q.priorities);
    FirstComponentNoWorse(o.routes, q.priorities, o.keys);
    NoWorseIsOptimal(adj, q.start, q.end, Column(p0), Column(o.best), o.routes[p0], o.routes[o.best]);
  }

  /**
    One letter of a request (origin and destination differ): searching its criterion
    raises when a vertex is not in the graph, restoring the path fails exactly when the
    destination is unreachable, and otherwise the result is an optimal route.
  */
  method EvaluateLetter(g: Graph, start: int, end: int, p: Letter) returns (r: Result<Route, Outcome>)
    requires Closed(g.adj) && start != end
    ensures r == Failure(Crashed) <==> start !in g.adj || end !in g.adj
    ensures r == Failure(NoRoute) <==> start in g.adj && end in g.adj && !Reachable(g.adj, start, end)
    ensures r.Failure? ==> r.error == Crashed || r.error == NoRoute
    ensures r.Success? ==> OptimalRoute(g.adj, start, end, Column(p), r.value)
  {
    var c := Column(p);
    var found := FindOptimalPath(g, start, end, c);
    if found.Failure? {
      assert 0 <= c < 3 && found.error == MissingVertex;
      return Failure(Crashed);
    }
    var prev, totals := found.value.prev, found.value.totals;
    var restored := RestorePath(prev, start, end);
    if restored.Failure? {
      // Only the RuntimeError "no path" is caught; after a search the other failures,
      // including the KeyError of a missing predecessor, cannot occur.
      assert restored == Failure(NoPath);
      return Failure(NoRoute);
    }
    var path := restored.value;
    ghost var q', es :| IsPrevPath(prev, q', start, end) && IsWalk(g.adj, q', es) && SumOf(es) == totals.value;
    PrevPathUnique(prev, path, q', start, end);
    r := Success(Route(totals.value, path));
  }

  /** The results of a request so far: the letters in insertion order and the route per letter. */
  datatype Collected = Collected(keys: seq<Letter>, routes: map<Letter, Route>)

  /**
    The loop over the priority letters of a request whose origin and destination differ:
    each letter's result is stored under the letter, and a failed restore ends the loop
    (with an error block, and then the request is over).
  */
  method CollectRoutes(g: Graph, start: int, end: int, priorities: seq<Letter>) returns (r: Result<Collected, Outcome>)
    requires Closed(g.adj) && start != end
    ensures r == Failure(Crashed) <==> priorities != [] && (start !in g.adj || end !in g.adj)
    ensures r == Failure(NoRoute) <==> priorities != [] && start in g.adj && end in g.adj && !Reachable(g.adj, start, end)
    ensures r.Failure? ==> r.error == Crashed || r.error == NoRoute
    ensures r.Success? ==> r.value.keys == FirstOccurrences(priorities) && RoutesFor(g.adj, start, end, priorities, r.value.routes)
    ensures r.Success? && priorities != [] ==> start in g.adj && end in g.adj && Reachable(g.adj, start, end)
    ensures r.Success? ==> (r.value.routes == map[] <==> priorities == [])
  {
    var routes: map<Letter, Route> := map[];
    var keys: seq<Letter> := [];
    var i := 0;
    while i < |priorities|
      invariant 0 <= i <= |priorities|
      invariant i > 0 ==> start in g.adj && end in g.adj && Reachable(g.adj, start, end)
      invariant keys == FirstOccurrences(priorities[..i])
      invariant RoutesFor(g.adj, start, end, priorities[..i], routes)
    {
      var p: Letter := priorities[i];
      var result := EvaluateLetter(g, start, end, p);
      if result == Failure(Crashed) {
        return Failure(Crashed);
      }
      if result.Failure? {
        // The loop ends with the error block; no result was stored before, so the
        // request ends there too.
        assert i == 0 && routes == map[] && !Reachable(g.adj, start, end);
        return Failure(NoRoute);
      }
      PrefixGrows(priorities, i);
      FirstOccurrencesSnoc(priorities[..i], p);
      StoreRoute(g.adj, start, end, priorities[..i], routes, p, result.value);
      routes := routes[p := result.value];
      if p !in keys {
        keys := keys + [p];
      }
      i := i + 1;
    }
    assert priorities[..i] == priorities;
    if priorities != [] {
      assert priorities[0] in routes;
    }
    r := Success(Collected(keys, routes));
  }

  /**
    One request: a short cut when origin and destination coincide, then the results per
    letter, and when there are any, the compromise among them.
  */
  method EvaluateRequest(g: Graph, q: Request) returns (o: Outcome)
    requires Closed(g.adj)
    ensures Answers(g.adj, q, o)
  {
    if q.start == q.end {
      return AlreadyThere;
    }
    var collected := CollectRoutes(g, q.start, q.end, q.priorities);
    if collected.Failure? {
      return collected.error;
    }
    var keys, routes := collected.value.keys, collected.value.routes;
    if routes == map[] {
      return Skipped;
    }
    assert keys != [] by {
      var p :| p in routes;
    }
    var best := Select(keys, Scores(routes, q.priorities));
    o := Routes(keys, routes, best);
  }

  /**
    All requests in order (the loop at module level): every request is answered, and an
    exception aborts the run, so no output at all is produced (None).
  */
  method EvaluateAll(g: Graph, requests: seq<Request>) returns (r: Option<seq<Outcome>>)
    requires Closed(g.adj)
    ensures r.None? <==> exists k :: 0 <= k < |requests| && Crashes(g.adj, requests[k])
    ensures r.Some? ==> |r.value| == |requests| && forall k :: 0 <= k < |requests| ==> Answers(g.adj, requests[k], r.value[k])
  {
    var outcomes: seq<Outcome> := [];
    var k := 0;
    while k < |requests|
      invariant 0 <= k <= |requests| && |outcomes| == k
      invariant forall j :: 0 <= j < k ==> Answers(g.adj, requests[j], outcomes[j])
      invariant forall j :: 0 <= j < k ==> !Crashes(g.adj, requests[j])
    {
      var o := EvaluateRequest(g, requests[k]);
      CrashedExactly(g.adj, requests[k], o);
      if o.Crashed? {
        return None;
      }
      ghost var before := outcomes;
      outcomes := outcomes + [o];
      assert forall j :: 0 <= j < k ==> outcomes[j] == before[j];
      k := k + 1;
    }
    return Some(outcomes);
  }
}
