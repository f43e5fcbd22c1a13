/**
  The road network of the routing script: an undirected weighted multigraph kept as a
  dictionary from vertex to its list of outgoing arcs.  Every link is stored as two
  mirrored arcs with identical weights.
*/
module Network {
  import opened Base

  /** One outgoing arc: its target and the three weights (length, time, cost). */
  datatype Edge = Edge(to: int, length: nat, time: nat, cost: nat)

  /** Running (length, time, cost) totals along a walk. */
  datatype Totals = Totals(length: nat, time: nat, cost: nat)

  const Zero: Totals := Totals(0, 0, 0)

  /** The `adj` dictionary: each vertex's outgoing arcs in insertion order. */
  type Adjacency = map<int, seq<Edge>>

  /** The criterion index of the source: 0 is length, 1 time, 2 cost. */
  type Criterion = c: int | 0 <= c < 3

  /** Totals after one more arc: each component grows by the arc's weight. */
  function Add(t: Totals, e: Edge): Totals
  {
    Totals(t.length + e.length, t.time + e.time, t.cost + e.cost)
  }

  /** Component `criterion` of a totals vector. */
  function Component(t: Totals, criterion: Criterion): nat
  {
    if criterion == 0 then t.length else if criterion == 1 then t.time else t.cost
  }

  /** Weight of an arc under a criterion, `[e.length, e.time, e.cost][criterion]`. */
  function Weight(e: Edge, criterion: Criterion): nat
  {
    if criterion == 0 then e.length else if criterion == 1 then e.time else e.cost
  }

  lemma AddComponent(t: Totals, e: Edge, criterion: Criterion)
    ensures Component(Add(t, e), criterion) == Component(t, criterion) + Weight(e, criterion)
  {
  }

  /** A link as handed to `add_edge`: two endpoints and three weights. */
  datatype Link = Link(u: int, v: int, length: nat, time: nat, cost: nat)

  /** The arcs that adding link `l` appends to the list of vertex `x`, in append order. */
  function ArcsAt(l: Link, x: int): seq<Edge>
  {
    (if l.u == x then [Edge(l.v, l.length, l.time, l.cost)] else [])
    + (if l.v == x then [Edge(l.u, l.length, l.time, l.cost)] else [])
  }

  /** The adjacency list of `x` after the links have been added in order. */
  function ArcsOf(links: seq<Link>, x: int): seq<Edge>
  {
    if links == [] then [] else ArcsOf(links[..|links| - 1], x) + ArcsAt(links[|links| - 1], x)
  }

  /** Every arc leads to a registered vertex. */
  predicate Closed(adj: map<int, seq<Edge>>)
  {
    forall u, i :: u in adj && 0 <= i < |adj[u]| ==> adj[u][i].to in adj
  }

  /** Arcs with the given target and weights, counted in the list of `x`. */
  function Multiplicity(arcs: seq<Edge>, e: Edge): nat
  {
    multiset(arcs)[e]
  }

  /**
    Mirrored arcs: vertex `u` has as many arcs to `v` with weights (L, T, C) as `v` has
    to `u` with the same weights.
  */
  lemma {:induction false} ArcsMirrored(links: seq<Link>, u: int, v: int, length: nat, time: nat, cost: nat)
    ensures Multiplicity(ArcsOf(links, u), Edge(v, length, time, cost))
         == Multiplicity(ArcsOf(links, v), Edge(u, length, time, cost))
  {
    if links != [] {
      var init, l := links[..|links| - 1], links[|links| - 1];
      ArcsMirrored(init, u, v, length, time, cost);
      assert ArcsOf(links, u) == ArcsOf(init, u) + ArcsAt(l, u);
      assert ArcsOf(links, v) == ArcsOf(init, v) + ArcsAt(l, v);
      LinkMirrored(l, u, v, length, time, cost);
    }
  }

  /** One link contributes as many `u`-to-`v` arcs as `v`-to-`u` arcs of the same weights. */
  lemma LinkMirrored(l: Link, u: int, v: int, length: nat, time: nat, cost: nat)
    ensures Multiplicity(ArcsAt(l, u), Edge(v, length, time, cost)) == Multiplicity(ArcsAt(l, v), Edge(u, length, time, cost))
  {
    var fwd, bwd := Edge(l.v, l.length, l.time, l.cost), Edge(l.u, l.length, l.time, l.cost);
    var a, b := Edge(v, length, time, cost), Edge(u, length, time, cost);
    assert multiset(ArcsAt(l, u)) == (if l.u == u then multiset{fwd} else multiset{}) + (if l.v == u then multiset{bwd} else multiset{});
    assert multiset(ArcsAt(l, v)) == (if l.u == v then multiset{fwd} else multiset{}) + (if l.v == v then multiset{bwd} else multiset{});
  }

  /** Arcs built from links whose endpoints are registered lead to registered vertices. */
  lemma {:induction false} ArcsClosed(links: seq<Link>, keys: set<int>, x: int)
    requires forall l :: l in links ==> l.u in keys && l.v in keys
    ensures forall i :: 0 <= i < |ArcsOf(links, x)| ==> ArcsOf(links, x)[i].to in keys
  {
    if links != [] {
      var init := links[..|links| - 1];
      assert forall l :: l in init ==> l in links;
      ArcsClosed(init, keys, x);
    }
  }

  /**
    The graph object: `adj` is the source's dictionary; the ghost `links` records the
    calls to `add_edge` so far, and Valid() says the dictionary is exactly what those calls
    built.
  */
  class Graph {
    var adj: map<int, seq<Edge>>
    ghost var links: seq<Link>

    ghost predicate Valid()
      reads this
    {
      && (forall l :: l in links ==> l.u in adj && l.v in adj)
      && (forall x :: x in adj ==> adj[x] == ArcsOf(links, x))
    }

    constructor ()
      ensures Valid() && adj == map[] && links == []
    {
      adj := map[];
      links := [];
    }

    /** Registers `v` with an empty arc list unless it is already present. */
    method AddVertex(v: int)
      requires Valid()
      modifies this
      ensures Valid() && links == old(links)
      ensures v in old(adj) ==> adj == old(adj)
      ensures v !in old(adj) ==> adj == old(adj)[v := []]
    {
      if v !in adj {
        ArcsAbsent(links, v);
        adj := adj[v := []];
      }
    }

    /** Appends the arc u->v to the list of u and the arc v->u to the list of v. */
    method AddEdge(u: int, v: int, length: nat, time: nat, cost: nat)
      requires Valid()
      requires u in adj && v in adj
      modifies this
      ensures Valid() && links == old(links) + [Link(u, v, length, time, cost)]
      ensures adj.Keys == old(adj).Keys
      ensures u != v ==> adj[u] == old(adj)[u] + [Edge(v, length, time, cost)]
      ensures u != v ==> adj[v] == old(adj)[v] + [Edge(u, length, time, cost)]
      ensures u == v ==> adj[u] == old(adj)[u] + [Edge(v, length, time, cost), Edge(u, length, time, cost)]
      ensures forall x :: x in adj && x != u && x != v ==> adj[x] == old(adj)[x]
    {
      var l := Link(u, v, length, time, cost);
      var adj1 := adj[u := adj[u] + [Edge(v, length, time, cost)]];
      adj := adj1[v := adj1[v] + [Edge(u, length, time, cost)]];
      links := links + [l];
      forall x | x in adj
        ensures adj[x] == ArcsOf(links, x)
      {
        assert links[..|links| - 1] == old(links);
      }
    }

    /** Valid graphs are closed: the solver may look up every arc target. */
    lemma ValidIsClosed()
      requires Valid()
      ensures Closed(adj)
    {
      forall x | x in adj
        ensures forall i :: 0 <= i < |adj[x]| ==> adj[x][i].to in adj
      {
        ArcsClosed(links, adj.Keys, x);
      }
    }

    /** Every arc of a valid graph has its mirror image in the target's list. */
    lemma ValidIsMirrored(u: int, v: int, length: nat, time: nat, cost: nat)
      requires Valid() && u in adj && v in adj
      ensures Multiplicity(adj[u], Edge(v, length, time, cost)) == Multiplicity(adj[v], Edge(u, length, time, cost))
    {
      ArcsMirrored(links, u, v, length, time, cost);
    }
  }

  /** A vertex not named by any link has no arcs. */
  lemma {:induction false} ArcsAbsent(links: seq<Link>, x: int)
    requires forall l :: l in links ==> l.u != x && l.v != x
    ensures ArcsOf(links, x) == []
  {
    if links != [] {
      var init := links[..|links| - 1];
      assert forall l :: l in init ==> l in links;
      ArcsAbsent(init, x);
    }
  }

  // ---------------------------------------------------------------------------------
  // Walks and predecessor paths

  /** `vs` is a walk in the graph and `es[i]` is the arc it takes from vs[i] to vs[i+1]. */
  ghost predicate IsWalk(adj: map<int, seq<Edge>>, vs: seq<int>, es: seq<Edge>)
  {
    && |vs| == |es| + 1
    && forall i :: 0 <= i < |es| ==> vs[i] in adj && es[i] in adj[vs[i]] && es[i].to == vs[i + 1]
  }

  /** A walk from `s` to `t`. */
  ghost predicate WalkFromTo(adj: map<int, seq<Edge>>, vs: seq<int>, es: seq<Edge>, s: int, t: int)
  {
    IsWalk(adj, vs, es) && vs[0] == s && vs[|vs| - 1] == t
  }

  /** Some walk leads from `s` to `t`. */
  ghost predicate Reachable(adj: map<int, seq<Edge>>, s: int, t: int)
  {
    exists vs, es :: WalkFromTo(adj, vs, es, s, t)
  }

  /** The (length, time, cost) totals of the arcs of a walk. */
  function SumOf(es: seq<Edge>): Totals
  {
    if es == [] then Zero else Add(SumOf(es[..|es| - 1]), es[|es| - 1])
  }

  /** No walk from `s` to `t` is lighter than `d` under the criterion. */
  ghost predicate LowerBound(adj: map<int, seq<Edge>>, s: int, t: int, d: nat, criterion: Criterion)
  {
    forall vs, es :: WalkFromTo(adj, vs, es, s, t) ==> d <= Component(SumOf(es), criterion)
  }

  /**
    `q` is a simple path from `s` to `e` along the predecessor dictionary: each vertex
    after the first is a key of `prev` mapped to the vertex before it.
  */
  predicate IsPrevPath(prev: map<int, int>, q: seq<int>, s: int, e: int)
  {
    && |q| > 0 && q[0] == s && q[|q| - 1] == e
    && Distinct(q)
    && forall i :: 0 < i < |q| ==> q[i] in prev && prev[q[i]] == q[i - 1]
  }

  /** A predecessor path and its walk extend by one recorded arc to a vertex not yet on the path. */
  lemma ExtendPath(adj: map<int, seq<Edge>>, prev: map<int, int>, q: seq<int>, es: seq<Edge>, s: int, u: int, e: Edge)
    requires IsPrevPath(prev, q, s, u) && IsWalk(adj, q, es)
    requires u in adj && e in adj[u] && e.to in prev && prev[e.to] == u && e.to !in q
    ensures IsPrevPath(prev, q + [e.to], s, e.to) && IsWalk(adj, q + [e.to], es + [e])
    ensures SumOf(es + [e]) == Add(SumOf(es), e)
  {
    var q', es' := q + [e.to], es + [e];
    assert es'[..|es'| - 1] == es;
    assert forall i :: 0 <= i < |q| ==> q'[i] == q[i];
  }
}
