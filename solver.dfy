/**
  The single-criterion solver `find_optimal_path`: Dijkstra's algorithm with lazy deletion,
  minimising one weight while carrying all three running totals in every frontier entry.
*/
module Solver {
  import opened Base
  import opened Network

  /** A best-known value: INF (never reached) or a finite number. */
  datatype Bound = Inf | Fin(value: nat)

  /** `w < bound`, where INF is above every number. */
  predicate Below(w: nat, b: Bound)
  {
    b.Inf? || w < b.value
  }

  /** A heap entry `(w, u, l, t, c)`: key, vertex and the three running totals. */
  datatype Entry = Entry(key: nat, vertex: int, totals: Totals)

  /** The two ValueErrors raised before any computation. */
  datatype SolveError = MissingVertex | BadCriterion

  /**
    What `find_optimal_path` returns: the predecessor dictionary, and the destination's
    totals when it was popped (None when it never was).
  */
  datatype Search = Search(prev: map<int, int>, totals: Option<Totals>)

  /**
    The contract of a completed search for criterion `c`:
    the destination is found exactly when it is reachable (and then it is a key of `prev`,
    unless it is the origin); the chosen component of the totals is no larger than that of
    any walk; the totals are exactly the sums of the arcs along the predecessor path; and
    every recorded predecessor is joined to its vertex by an arc.
  */
  ghost predicate Solved(adj: Adjacency, start: int, end: int, c: Criterion, prev: map<int, int>, totals: Option<Totals>)
  {
    && (totals.Some? <==> Reachable(adj, start, end))
    && (start != end ==> (end in prev <==> totals.Some?))
    && (totals.Some? ==> LowerBound(adj, start, end, Component(totals.value, c), c))
    && (totals.Some? ==> exists q, es :: IsPrevPath(prev, q, start, end) && IsWalk(adj, q, es) && SumOf(es) == totals.value)
    && PrevJoined(adj, prev)
  }

  /** Every recorded predecessor is joined to its vertex by an arc. */
  ghost predicate PrevJoined(adj: Adjacency, prev: map<int, int>)
  {
    forall v :: v in prev ==> prev[v] in adj && exists j :: 0 <= j < |adj[prev[v]]| && adj[prev[v]][j].to == v
  }

  // ---------------------------------------------------------------------------------
  // Views of the loop state.  Besides the program variables `dist`, `prev` and the heap
  // `pq`, the proof keeps ghost bookkeeping: `rank` gives the order in which vertices
  // were settled (popped while not stale), `next` the next rank, `done` the totals carried
  // by the entry that settled each vertex, and `via` the arc through which each
  // predecessor was recorded.

  ghost predicate Reached(dist: map<int, Bound>, v: int)
  {
    v in dist && dist[v].Fin?
  }

  /** The finite best-known value of `v` (0 when it is INF or absent). */
  ghost function Val(dist: map<int, Bound>, v: int): nat
  {
    if Reached(dist, v) then dist[v].value else 0
  }

  ghost function Arcs(adj: Adjacency, x: int): seq<Edge>
  {
    if x in adj then adj[x] else []
  }

  /** The totals of the path recorded for `v`: its predecessor's settled totals plus the arc. */
  ghost function Expected(prev: map<int, int>, done: map<int, Totals>, via: map<int, Edge>, start: int, v: int): Totals
  {
    if v != start && v in prev && prev[v] in done && v in via then Add(done[prev[v]], via[v]) else Zero
  }

  ghost predicate Frame(adj: Adjacency, start: int, end: int)
  {
    Closed(adj) && start in adj && end in adj
  }

  /** `dist` has a value for every vertex, 0 at the origin. */
  ghost predicate DistOk(adj: Adjacency, start: int, dist: map<int, Bound>)
  {
    dist.Keys == adj.Keys && start in dist && dist[start] == Fin(0)
  }

  /** Settled vertices are reached vertices other than the destination. */
  ghost predicate RankOk(adj: Adjacency, end: int, dist: map<int, Bound>, rank: map<int, nat>, next: nat, done: map<int, Totals>)
  {
    && rank.Keys <= adj.Keys && end !in rank && done.Keys == rank.Keys
    && forall x :: x in rank ==> Reached(dist, x) && rank[x] < next
  }

  /** Predecessors were settled earlier and are joined to their vertex by the recorded arc. */
  ghost predicate PrevOk(adj: Adjacency, start: int, dist: map<int, Bound>, prev: map<int, int>, rank: map<int, nat>, via: map<int, Edge>)
  {
    && via.Keys == prev.Keys && start !in prev
    && (forall v :: v in prev ==>
          && v in adj && prev[v] in rank && Reached(dist, v)
          && via[v] in Arcs(adj, prev[v]) && via[v].to == v
          && (v in rank ==> rank[prev[v]] < rank[v]))
    && (forall v :: v in adj && Reached(dist, v) ==> v == start || v in prev)
  }

  /** Settled totals follow the predecessor tree and their chosen component is `dist`. */
  ghost predicate DoneOk(start: int, c: Criterion, dist: map<int, Bound>, prev: map<int, int>, rank: map<int, nat>,
                         done: map<int, Totals>, via: map<int, Edge>)
  {
    forall x :: x in rank ==>
      x in done && Component(done[x], c) == Val(dist, x) && done[x] == Expected(prev, done, via, start, x)
  }

  /** Every key is the chosen component of the entry's totals and is never below `dist`. */
  ghost predicate EntriesOk(adj: Adjacency, c: Criterion, dist: map<int, Bound>, pq: multiset<Entry>)
  {
    forall x :: x in pq ==>
      x.vertex in adj && x.key == Component(x.totals, c) && Reached(dist, x.vertex) && Val(dist, x.vertex) <= x.key
  }

  /** No settled value exceeds any key in the heap. */
  ghost predicate MonoOk(dist: map<int, Bound>, rank: map<int, nat>, pq: multiset<Entry>)
  {
    forall x, y :: x in pq && y in rank ==> Val(dist, y) <= x.key
  }

  /** The entry whose key equals `dist` of an unsettled vertex carries its recorded path's totals. */
  ghost predicate CurrentOk(start: int, dist: map<int, Bound>, prev: map<int, int>, rank: map<int, nat>,
                            done: map<int, Totals>, via: map<int, Edge>, pq: multiset<Entry>)
  {
    forall x :: x in pq && x.vertex !in rank && Reached(dist, x.vertex) && Val(dist, x.vertex) == x.key ==>
      x.totals == Expected(prev, done, via, start, x.vertex)
  }

  /** Every reached, unsettled vertex has an entry at its current value. */
  ghost predicate FrontierOk(adj: Adjacency, dist: map<int, Bound>, rank: map<int, nat>, pq: multiset<Entry>)
  {
    forall v :: v in adj && v !in rank && Reached(dist, v) ==>
      exists x :: x in pq && x.vertex == v && x.key == Val(dist, v)
  }

  /**
    Entries of settled vertices are all stale, and each vertex has at most one entry at its
    current value: every push strictly lowers the value, so no key is pushed twice.
  */
  ghost predicate HeapOk(dist: map<int, Bound>, rank: map<int, nat>, pq: multiset<Entry>)
  {
    && (forall x :: x in pq && x.vertex in rank ==> Val(dist, x.vertex) < x.key)
    && (forall x :: x in pq && x.key == Val(dist, x.vertex) ==> pq[x] == 1)
    && (forall x, y :: x in pq && y in pq && x.vertex == y.vertex && x.key == Val(dist, x.vertex) && y.key == x.key ==> x == y)
  }

  /** Settled values are optimal: no walk to a settled vertex is lighter. */
  ghost predicate OptimalOk(adj: Adjacency, start: int, c: Criterion, dist: map<int, Bound>, rank: map<int, nat>)
  {
    forall x :: x in rank ==> LowerBound(adj, start, x, Val(dist, x), c)
  }

  /** Arc `j` of `x` cannot improve `dist` any more. */
  ghost predicate ArcRelaxed(adj: Adjacency, c: Criterion, dist: map<int, Bound>, x: int, j: int)
  {
    0 <= j < |Arcs(adj, x)| ==>
      var e := Arcs(adj, x)[j];
      Reached(dist, e.to) && Val(dist, e.to) <= Val(dist, x) + Weight(e, c)
  }

  ghost predicate AllRelaxed(adj: Adjacency, c: Criterion, dist: map<int, Bound>, rank: map<int, nat>)
  {
    forall x, j :: x in rank && 0 <= j < |Arcs(adj, x)| ==> ArcRelaxed(adj, c, dist, x, j)
  }

  /** Every arc of every settled vertex is relaxed, except arcs `i..` of `u`. */
  ghost predicate RelaxedExcept(adj: Adjacency, c: Criterion, dist: map<int, Bound>, rank: map<int, nat>, u: int, i: int)
  {
    forall x, j :: x in rank && 0 <= j < |Arcs(adj, x)| && (x == u ==> j < i) ==> ArcRelaxed(adj, c, dist, x, j)
  }

  /** `u` is being relaxed: settled at key `k` with totals `tot`, and no settled value exceeds `k`. */
  ghost predicate Focus(dist: map<int, Bound>, rank: map<int, nat>, done: map<int, Totals>, u: int, k: nat, tot: Totals)
  {
    && u in rank && Reached(dist, u) && Val(dist, u) == k && u in done && done[u] == tot
    && forall y :: y in rank ==> Val(dist, y) <= k
  }

  /** The parts of the invariant shared by both loops. */
  ghost predicate Core(adj: Adjacency, start: int, end: int, c: Criterion, dist: map<int, Bound>, prev: map<int, int>,
                       pq: multiset<Entry>, rank: map<int, nat>, next: nat, done: map<int, Totals>, via: map<int, Edge>)
  {
    && Frame(adj, start, end) && DistOk(adj, start, dist) && RankOk(adj, end, dist, rank, next, done)
    && PrevOk(adj, start, dist, prev, rank, via) && DoneOk(start, c, dist, prev, rank, done, via)
    && EntriesOk(adj, c, dist, pq) && MonoOk(dist, rank, pq) && CurrentOk(start, dist, prev, rank, done, via, pq)
    && FrontierOk(adj, dist, rank, pq) && HeapOk(dist, rank, pq) && OptimalOk(adj, start, c, dist, rank)
  }

  /** The invariant of the `while pq` loop. */
  ghost predicate Inv(adj: Adjacency, start: int, end: int, c: Criterion, dist: map<int, Bound>, prev: map<int, int>,
                      pq: multiset<Entry>, rank: map<int, nat>, next: nat, done: map<int, Totals>, via: map<int, Edge>)
  {
    Core(adj, start, end, c, dist, prev, pq, rank, next, done, via) && AllRelaxed(adj, c, dist, rank)
  }

  /** The invariant of the loop over the arcs of the settled vertex `u`, after `i` of them. */
  ghost predicate InRelax(adj: Adjacency, start: int, end: int, c: Criterion, dist: map<int, Bound>, prev: map<int, int>,
                          pq: multiset<Entry>, rank: map<int, nat>, next: nat, done: map<int, Totals>, via: map<int, Edge>,
                          u: int, k: nat, tot: Totals, i: nat)
  {
    && Core(adj, start, end, c, dist, prev, pq, rank, next, done, via)
    && RelaxedExcept(adj, c, dist, rank, u, i) && Focus(dist, rank, done, u, k, tot) && i <= |Arcs(adj, u)|
  }

  // ---------------------------------------------------------------------------------
  // Initialisation and the heap

  lemma InitEstablishes(adj: Adjacency, start: int, end: int, c: Criterion)
    requires Frame(adj, start, end)
    ensures Inv(adj, start, end, c, (map v | v in adj :: Inf)[start := Fin(0)], map[], multiset{Entry(0, start, Zero)},
                map[], 0, map[], map[])
  {
    var dist := (map v | v in adj :: Inf)[start := Fin(0)];
    var pq := multiset{Entry(0, start, Zero)};
    forall v | v in adj && Reached(dist, v)
      ensures exists x :: x in pq && x.vertex == v && x.key == Val(dist, v)
    {
      assert v == start;
      assert Entry(0, start, Zero) in pq;
    }
  }

  /** A non-empty heap has an entry of least key. */
  lemma MinExists(pq: multiset<Entry>)
    requires pq != multiset{}
    ensures exists x :: x in pq && forall y :: y in pq ==> x.key <= y.key
    decreases |pq|
  {
    var z :| z in pq;
    var rest := pq - multiset{z};
    assert forall y :: y in pq ==> y == z || y in rest;
    if rest != multiset{} {
      MinExists(rest);
      var m :| m in rest && forall y :: y in rest ==> m.key <= y.key;
      if z.key >= m.key {
        assert m in pq;
      }
    }
  }

  // ---------------------------------------------------------------------------------
  // The cut argument

  /**
    A walk from the origin that ends outside the settled set has an entry in the heap whose
    key does not exceed the walk's weight.
  */
  lemma {:induction false} Cut(adj: Adjacency, start: int, end: int, c: Criterion, dist: map<int, Bound>,
                               pq: multiset<Entry>, rank: map<int, nat>, vs: seq<int>, es: seq<Edge>)
    requires Frame(adj, start, end) && DistOk(adj, start, dist) && FrontierOk(adj, dist, rank, pq)
    requires OptimalOk(adj, start, c, dist, rank) && AllRelaxed(adj, c, dist, rank)
    requires IsWalk(adj, vs, es) && vs[0] == start
    ensures vs[|vs| - 1] !in rank ==> exists x :: x in pq && x.key <= Component(SumOf(es), c)
    decreases |es|
  {
    var n := |es|;
    var t := vs[n];
    if n == 0 {
      if t !in rank {
        var x :| x in pq && x.vertex == start && x.key == Val(dist, start);
      }
    } else {
      var vs', es' := vs[..n], es[..n - 1];
      assert IsWalk(adj, vs', es');
      Cut(adj, start, end, c, dist, pq, rank, vs', es');
      var y, e := vs[n - 1], es[n - 1];
      assert es == es' + [e];
      AddComponent(SumOf(es'), e, c);
      if t !in rank && y in rank {
        assert WalkFromTo(adj, vs', es', start, y);
        var j :| 0 <= j < |adj[y]| && adj[y][j] == e;
        assert ArcRelaxed(adj, c, dist, y, j);
        var x :| x in pq && x.vertex == t && x.key == Val(dist, t);
      }
    }
  }

  // ---------------------------------------------------------------------------------
  // Popping

  /** Dropping a stale entry, or an entry of a settled vertex, keeps the heap invariants. */
  lemma DropQueue(adj: Adjacency, start: int, c: Criterion, dist: map<int, Bound>, prev: map<int, int>,
                  rank: map<int, nat>, done: map<int, Totals>, via: map<int, Edge>, pq: multiset<Entry>, x: Entry)
    requires EntriesOk(adj, c, dist, pq) && MonoOk(dist, rank, pq) && CurrentOk(start, dist, prev, rank, done, via, pq)
    requires FrontierOk(adj, dist, rank, pq)
    requires x in pq && (x.vertex in rank || Val(dist, x.vertex) != x.key)
    ensures EntriesOk(adj, c, dist, pq - multiset{x}) && MonoOk(dist, rank, pq - multiset{x})
    ensures CurrentOk(start, dist, prev, rank, done, via, pq - multiset{x}) && FrontierOk(adj, dist, rank, pq - multiset{x})
  {
    var pq' := pq - multiset{x};
    assert forall z :: z in pq' ==> z in pq;
    forall v | v in adj && v !in rank && Reached(dist, v)
      ensures exists z :: z in pq' && z.vertex == v && z.key == Val(dist, v)
    {
      var z :| z in pq && z.vertex == v && z.key == Val(dist, v);
      assert z != x && z in pq';
    }
  }

  /** Removing any entry keeps stale entries stale and current entries unique. */
  lemma DropHeap(dist: map<int, Bound>, rank: map<int, nat>, pq: multiset<Entry>, x: Entry)
    requires HeapOk(dist, rank, pq) && x in pq
    ensures HeapOk(dist, rank, pq - multiset{x})
  {
    assert forall z :: z in pq - multiset{x} ==> z in pq && (pq - multiset{x})[z] <= pq[z];
  }

  /** Popping a stale entry (`d > dist[u]`) changes nothing but the heap. */
  lemma DropKeeps(adj: Adjacency, start: int, end: int, c: Criterion, dist: map<int, Bound>, prev: map<int, int>,
                  pq: multiset<Entry>, rank: map<int, nat>, next: nat, done: map<int, Totals>, via: map<int, Edge>, x: Entry)
    requires Inv(adj, start, end, c, dist, prev, pq, rank, next, done, via)
    requires x in pq && x.vertex in dist && dist[x.vertex].Fin? && x.key > dist[x.vertex].value
    ensures Inv(adj, start, end, c, dist, prev, pq - multiset{x}, rank, next, done, via)
  {
    DropQueue(adj, start, c, dist, prev, rank, done, via, pq, x);
    DropHeap(dist, rank, pq, x);
  }

  /** Every heap entry names a vertex whose value is finite. */
  lemma EntryInRange(adj: Adjacency, start: int, end: int, c: Criterion, dist: map<int, Bound>, prev: map<int, int>,
                     pq: multiset<Entry>, rank: map<int, nat>, next: nat, done: map<int, Totals>, via: map<int, Edge>, x: Entry)
    requires Inv(adj, start, end, c, dist, prev, pq, rank, next, done, via) && x in pq
    ensures x.vertex in dist && x.vertex in adj
  {
  }

  /** Every arc of the vertex being relaxed leads to a vertex that has a value. */
  lemma ArcInRange(adj: Adjacency, start: int, end: int, c: Criterion, dist: map<int, Bound>, prev: map<int, int>,
                   pq: multiset<Entry>, rank: map<int, nat>, next: nat, done: map<int, Totals>, via: map<int, Edge>,
                   u: int, k: nat, tot: Totals, i: nat, e: Edge)
    requires InRelax(adj, start, end, c, dist, prev, pq, rank, next, done, via, u, k, tot, i)
    requires i < |Arcs(adj, u)| && e == Arcs(adj, u)[i]
    ensures e.to in dist
  {
    assert e in adj[u];
  }

  /** The least entry, when not stale, belongs to a vertex not yet settled and holds its value. */
  lemma LiveEntry(adj: Adjacency, start: int, end: int, c: Criterion, dist: map<int, Bound>, prev: map<int, int>,
                  pq: multiset<Entry>, rank: map<int, nat>, next: nat, done: map<int, Totals>, via: map<int, Edge>, x: Entry)
    requires Inv(adj, start, end, c, dist, prev, pq, rank, next, done, via)
    requires x in pq && x.vertex in dist && !(dist[x.vertex].Fin? && x.key > dist[x.vertex].value)
    ensures Reached(dist, x.vertex) && Val(dist, x.vertex) == x.key && x.vertex !in rank && x.vertex in adj
  {
  }

  /** Settling the popped vertex: its other entries are stale because its current entry was unique. */
  lemma SettleHeap(adj: Adjacency, c: Criterion, dist: map<int, Bound>, rank: map<int, nat>, pq: multiset<Entry>, x: Entry, next: nat)
    requires HeapOk(dist, rank, pq) && EntriesOk(adj, c, dist, pq)
    requires x in pq && Val(dist, x.vertex) == x.key
    ensures HeapOk(dist, rank[x.vertex := next], pq - multiset{x})
  {
    var pq' := pq - multiset{x};
    assert forall z :: z in pq' ==> z in pq && pq'[z] <= pq[z];
  }

  /** Pushing `(w, v, t)` for a strictly lower `w` makes it the only current entry of `v`. */
  lemma PushHeap(adj: Adjacency, c: Criterion, dist: map<int, Bound>, rank: map<int, nat>, pq: multiset<Entry>, v: int, w: nat, t: Totals)
    requires HeapOk(dist, rank, pq) && EntriesOk(adj, c, dist, pq)
    requires v !in rank && v in dist && Below(w, dist[v])
    ensures HeapOk(dist[v := Fin(w)], rank, pq + multiset{Entry(w, v, t)})
  {
    var dist', pushed := dist[v := Fin(w)], Entry(w, v, t);
    var pq' := pq + multiset{pushed};
    assert forall y :: y != v ==> Val(dist', y) == Val(dist, y);
    assert pushed !in pq;
    assert forall z :: z in pq' ==> z == pushed || z in pq;
    assert forall z :: z in pq && z.vertex == v ==> z.key > w;
  }

  /** The popped entry of an unsettled vertex carries its optimal value. */
  lemma SettleBound(adj: Adjacency, start: int, end: int, c: Criterion, dist: map<int, Bound>,
                    pq: multiset<Entry>, rank: map<int, nat>, x: Entry)
    requires Frame(adj, start, end) && DistOk(adj, start, dist) && FrontierOk(adj, dist, rank, pq)
    requires OptimalOk(adj, start, c, dist, rank) && AllRelaxed(adj, c, dist, rank)
    requires x in pq && (forall y :: y in pq ==> x.key <= y.key) && x.vertex !in rank
    ensures LowerBound(adj, start, x.vertex, x.key, c)
  {
    forall vs, es | WalkFromTo(adj, vs, es, start, x.vertex)
      ensures x.key <= Component(SumOf(es), c)
    {
      Cut(adj, start, end, c, dist, pq, rank, vs, es);
    }
  }

  /** Settling `u` at rank `next` keeps the rank bookkeeping. */
  lemma SettleRank(adj: Adjacency, end: int, dist: map<int, Bound>, rank: map<int, nat>, next: nat,
                   done: map<int, Totals>, u: int, t: Totals)
    requires RankOk(adj, end, dist, rank, next, done)
    requires u in adj && Reached(dist, u) && u != end
    ensures RankOk(adj, end, dist, rank[u := next], next + 1, done[u := t])
  {
  }

  /** Settling `u` keeps every predecessor settled before its vertex. */
  lemma SettlePrev(adj: Adjacency, start: int, end: int, dist: map<int, Bound>, prev: map<int, int>, rank: map<int, nat>,
                   next: nat, done: map<int, Totals>, via: map<int, Edge>, u: int)
    requires RankOk(adj, end, dist, rank, next, done) && PrevOk(adj, start, dist, prev, rank, via) && u !in rank
    ensures PrevOk(adj, start, dist, prev, rank[u := next], via)
  {
    var rank' := rank[u := next];
    forall v | v in prev && v in rank'
      ensures rank'[prev[v]] < rank'[v]
    {
      assert prev[v] in rank && prev[v] != u;
    }
  }

  /** Settling `u` with the totals of its recorded path keeps the settled totals consistent. */
  lemma SettleDone(start: int, c: Criterion, dist: map<int, Bound>, prev: map<int, int>, rank: map<int, nat>,
                   done: map<int, Totals>, via: map<int, Edge>, u: int, next: nat, t: Totals)
    requires DoneOk(start, c, dist, prev, rank, done, via) && done.Keys == rank.Keys && u !in rank
    requires forall v :: v in prev ==> prev[v] in rank
    requires Component(t, c) == Val(dist, u) && t == Expected(prev, done, via, start, u)
    ensures DoneOk(start, c, dist, prev, rank[u := next], done[u := t], via)
  {
    var done' := done[u := t];
    forall y | y in rank || y == u
      ensures Expected(prev, done', via, start, y) == Expected(prev, done, via, start, y)
    {
      if y != start && y in prev {
        assert prev[y] != u;
      }
    }
  }

  /** Settling `u` keeps the heap invariants for the heap without the popped entry. */
  lemma SettleQueue(adj: Adjacency, start: int, end: int, c: Criterion, dist: map<int, Bound>, prev: map<int, int>,
                    pq: multiset<Entry>, rank: map<int, nat>, next: nat, done: map<int, Totals>, via: map<int, Edge>, x: Entry)
    requires EntriesOk(adj, c, dist, pq) && MonoOk(dist, rank, pq) && CurrentOk(start, dist, prev, rank, done, via, pq)
    requires FrontierOk(adj, dist, rank, pq) && forall v :: v in prev ==> prev[v] in rank
    requires x in pq && (forall y :: y in pq ==> x.key <= y.key)
    requires Reached(dist, x.vertex) && Val(dist, x.vertex) == x.key && x.vertex !in rank
    ensures EntriesOk(adj, c, dist, pq - multiset{x})
    ensures MonoOk(dist, rank[x.vertex := next], pq - multiset{x})
    ensures CurrentOk(start, dist, prev, rank[x.vertex := next], done[x.vertex := x.totals], via, pq - multiset{x})
    ensures FrontierOk(adj, dist, rank[x.vertex := next], pq - multiset{x})
  {
    var u := x.vertex;
    var pq', rank', done' := pq - multiset{x}, rank[u := next], done[u := x.totals];
    assert forall z :: z in pq' ==> z in pq;
    forall z | z in pq' && z.vertex !in rank' && Reached(dist, z.vertex) && Val(dist, z.vertex) == z.key
      ensures z.totals == Expected(prev, done', via, start, z.vertex)
    {
      if z.vertex != start && z.vertex in prev {
        assert prev[z.vertex] in rank;
      }
    }
    forall v | v in adj && v !in rank' && Reached(dist, v)
      ensures exists z :: z in pq' && z.vertex == v && z.key == Val(dist, v)
    {
      var z :| z in pq && z.vertex == v && z.key == Val(dist, v);
      assert z != x && z in pq';
    }
  }

  /** Popping a least, non-stale entry of an unsettled vertex other than the destination settles it. */
  lemma SettleKeeps(adj: Adjacency, start: int, end: int, c: Criterion, dist: map<int, Bound>, prev: map<int, int>,
                    pq: multiset<Entry>, rank: map<int, nat>, next: nat, done: map<int, Totals>, via: map<int, Edge>, x: Entry)
    requires Inv(adj, start, end, c, dist, prev, pq, rank, next, done, via)
    requires x in pq && (forall y :: y in pq ==> x.key <= y.key)
    requires Reached(dist, x.vertex) && Val(dist, x.vertex) == x.key && x.vertex !in rank && x.vertex != end
    ensures InRelax(adj, start, end, c, dist, prev, pq - multiset{x}, rank[x.vertex := next], next + 1,
                    done[x.vertex := x.totals], via, x.vertex, x.key, x.totals, 0)
  {
    var u := x.vertex;
    var rank' := rank[u := next];
    SettleBound(adj, start, end, c, dist, pq, rank, x);
    assert Component(x.totals, c) == x.key;
    assert x.totals == Expected(prev, done, via, start, u);
    SettleRank(adj, end, dist, rank, next, done, u, x.totals);
    SettlePrev(adj, start, end, dist, prev, rank, next, done, via, u);
    SettleDone(start, c, dist, prev, rank, done, via, u, next, x.totals);
    SettleQueue(adj, start, end, c, dist, prev, pq, rank, next, done, via, x);
    SettleHeap(adj, c, dist, rank, pq, x, next);
    forall y | y in rank'
      ensures Val(dist, y) <= x.key
    {
      if y != u {
        assert MonoOk(dist, rank, pq);
      }
    }
    forall y, j | y in rank' && 0 <= j < |Arcs(adj, y)| && (y == u ==> j < 0)
      ensures ArcRelaxed(adj, c, dist, y, j)
    {
    }
  }

  // ---------------------------------------------------------------------------------
  // Relaxing one arc

  /** An improving arc leads to a vertex that is neither settled nor the origin. */
  lemma ImproveTarget(adj: Adjacency, start: int, end: int, c: Criterion, dist: map<int, Bound>, prev: map<int, int>,
                      pq: multiset<Entry>, rank: map<int, nat>, next: nat, done: map<int, Totals>, via: map<int, Edge>,
                      u: int, k: nat, tot: Totals, i: nat, e: Edge, w: nat)
    requires InRelax(adj, start, end, c, dist, prev, pq, rank, next, done, via, u, k, tot, i)
    requires i < |Arcs(adj, u)| && e == Arcs(adj, u)[i] && w == k + Weight(e, c)
    requires e.to in dist && Below(w, dist[e.to])
    ensures e in Arcs(adj, u) && e.to in adj && e.to !in rank && e.to != start && Component(tot, c) == k
  {
  }

  /** Lowering the value of an unsettled vertex changes no settled value. */
  lemma LowerKeepsSettled(adj: Adjacency, start: int, end: int, c: Criterion, dist: map<int, Bound>, rank: map<int, nat>,
                          next: nat, done: map<int, Totals>, v: int, w: nat)
    requires DistOk(adj, start, dist) && RankOk(adj, end, dist, rank, next, done)
    requires OptimalOk(adj, start, c, dist, rank)
    requires v in adj && v !in rank && v != start
    ensures DistOk(adj, start, dist[v := Fin(w)])
    ensures RankOk(adj, end, dist[v := Fin(w)], rank, next, done)
    ensures OptimalOk(adj, start, c, dist[v := Fin(w)], rank)
  {
    var dist' := dist[v := Fin(w)];
    assert forall y :: y in rank ==> Val(dist', y) == Val(dist, y);
  }

  /** Recording `u` as the predecessor of an unsettled `v` keeps the tree and the settled totals. */
  lemma RecordKeepsTree(adj: Adjacency, start: int, c: Criterion, dist: map<int, Bound>, prev: map<int, int>,
                        rank: map<int, nat>, done: map<int, Totals>, via: map<int, Edge>, u: int, e: Edge, w: nat)
    requires PrevOk(adj, start, dist, prev, rank, via) && DoneOk(start, c, dist, prev, rank, done, via)
    requires u in rank && e in Arcs(adj, u) && e.to in adj && e.to !in rank && e.to != start
    ensures PrevOk(adj, start, dist[e.to := Fin(w)], prev[e.to := u], rank, via[e.to := e])
    ensures DoneOk(start, c, dist[e.to := Fin(w)], prev[e.to := u], rank, done, via[e.to := e])
  {
    var v := e.to;
    var dist', prev', via' := dist[v := Fin(w)], prev[v := u], via[v := e];
    assert forall y :: y != v ==> Val(dist', y) == Val(dist, y) && Reached(dist', y) == Reached(dist, y);
    assert forall y :: y in rank ==> Expected(prev', done, via', start, y) == Expected(prev, done, via, start, y);
  }

  /** Pushing `(w, v, t)` after lowering `v` to `w` keeps every key at or above `dist`. */
  lemma PushEntries(adj: Adjacency, c: Criterion, dist: map<int, Bound>, pq: multiset<Entry>, v: int, w: nat, t: Totals)
    requires EntriesOk(adj, c, dist, pq) && v in adj && v in dist && Below(w, dist[v]) && Component(t, c) == w
    ensures EntriesOk(adj, c, dist[v := Fin(w)], pq + multiset{Entry(w, v, t)})
  {
    assert forall z :: z in pq + multiset{Entry(w, v, t)} ==> z == Entry(w, v, t) || z in pq;
  }

  /** Pushing a key no smaller than every settled value keeps the heap above the settled set. */
  lemma PushMono(dist: map<int, Bound>, rank: map<int, nat>, pq: multiset<Entry>, v: int, w: nat, t: Totals)
    requires MonoOk(dist, rank, pq) && v !in rank && forall y :: y in rank ==> Val(dist, y) <= w
    ensures MonoOk(dist[v := Fin(w)], rank, pq + multiset{Entry(w, v, t)})
  {
    assert forall y :: y in rank ==> Val(dist[v := Fin(w)], y) == Val(dist, y);
    assert forall z :: z in pq + multiset{Entry(w, v, t)} ==> z == Entry(w, v, t) || z in pq;
  }

  /** The pushed entry is the only current entry of `v`, and it carries the totals of the recorded path. */
  lemma PushCurrent(adj: Adjacency, start: int, c: Criterion, dist: map<int, Bound>, prev: map<int, int>,
                    rank: map<int, nat>, done: map<int, Totals>, via: map<int, Edge>, pq: multiset<Entry>,
                    u: int, tot: Totals, e: Edge, w: nat)
    requires CurrentOk(start, dist, prev, rank, done, via, pq) && EntriesOk(adj, c, dist, pq)
    requires e.to in dist && Below(w, dist[e.to]) && e.to != start && u in done && done[u] == tot
    ensures CurrentOk(start, dist[e.to := Fin(w)], prev[e.to := u], rank, done, via[e.to := e],
                      pq + multiset{Entry(w, e.to, Add(tot, e))})
  {
    var v := e.to;
    var dist', prev', via' := dist[v := Fin(w)], prev[v := u], via[v := e];
    var pushed := Entry(w, v, Add(tot, e));
    assert forall y :: y != v ==> Val(dist', y) == Val(dist, y) && Reached(dist', y) == Reached(dist, y);
    assert forall y :: y != v ==> Expected(prev', done, via', start, y) == Expected(prev, done, via, start, y);
    assert forall z :: z in pq + multiset{pushed} ==> z == pushed || z in pq;
  }

  /** After the push, every reached unsettled vertex still has an entry at its value. */
  lemma PushFrontier(adj: Adjacency, dist: map<int, Bound>, rank: map<int, nat>, pq: multiset<Entry>, v: int, w: nat, t: Totals)
    requires FrontierOk(adj, dist, rank, pq)
    ensures FrontierOk(adj, dist[v := Fin(w)], rank, pq + multiset{Entry(w, v, t)})
  {
    var dist', pq' := dist[v := Fin(w)], pq + multiset{Entry(w, v, t)};
    forall v' | v' in adj && v' !in rank && Reached(dist', v')
      ensures exists z :: z in pq' && z.vertex == v' && z.key == Val(dist', v')
    {
      if v' == v {
        assert Entry(w, v, t) in pq';
      } else {
        var z :| z in pq && z.vertex == v' && z.key == Val(dist, v');
        assert z in pq';
      }
    }
  }

  /** The improvement also relaxes arc `i` of `u` and keeps the earlier arcs relaxed. */
  lemma ImproveRelaxed(adj: Adjacency, c: Criterion, dist: map<int, Bound>, rank: map<int, nat>, u: int, k: nat, i: nat,
                       e: Edge, w: nat)
    requires RelaxedExcept(adj, c, dist, rank, u, i) && i < |Arcs(adj, u)| && e == Arcs(adj, u)[i] && w == k + Weight(e, c)
    requires u in rank && Reached(dist, u) && Val(dist, u) == k && e.to !in rank
    requires e.to in dist && Below(w, dist[e.to])
    ensures RelaxedExcept(adj, c, dist[e.to := Fin(w)], rank, u, i + 1)
  {
    var dist' := dist[e.to := Fin(w)];
    forall x, j | x in rank && 0 <= j < |Arcs(adj, x)| && (x == u ==> j < i + 1)
      ensures ArcRelaxed(adj, c, dist', x, j)
    {
      if x != u || j < i {
        assert ArcRelaxed(adj, c, dist, x, j);
      }
    }
  }

  /** Lowering an unsettled vertex keeps the focus on `u`. */
  lemma FocusKept(dist: map<int, Bound>, rank: map<int, nat>, done: map<int, Totals>, u: int, k: nat, tot: Totals, v: int, w: nat)
    requires Focus(dist, rank, done, u, k, tot) && v !in rank
    ensures Focus(dist[v := Fin(w)], rank, done, u, k, tot)
  {
    assert forall y :: y in rank ==> Val(dist[v := Fin(w)], y) == Val(dist, y);
  }

  /** Lowering `e.to` through the settled `u`, recording `u` and pushing the entry keeps the shared invariant. */
  lemma ImproveCore(adj: Adjacency, start: int, end: int, c: Criterion, dist: map<int, Bound>, prev: map<int, int>,
                    pq: multiset<Entry>, rank: map<int, nat>, next: nat, done: map<int, Totals>, via: map<int, Edge>,
                    u: int, k: nat, tot: Totals, e: Edge, w: nat)
    requires Core(adj, start, end, c, dist, prev, pq, rank, next, done, via) && Focus(dist, rank, done, u, k, tot)
    requires Component(tot, c) == k && e in Arcs(adj, u) && e.to in adj && e.to !in rank && e.to != start
    requires w == k + Weight(e, c) && e.to in dist && Below(w, dist[e.to])
    ensures Core(adj, start, end, c, dist[e.to := Fin(w)], prev[e.to := u], pq + multiset{Entry(w, e.to, Add(tot, e))},
                 rank, next, done, via[e.to := e])
  {
    LowerKeepsSettled(adj, start, end, c, dist, rank, next, done, e.to, w);
    RecordKeepsTree(adj, start, c, dist, prev, rank, done, via, u, e, w);
    AddComponent(tot, e, c);
    PushEntries(adj, c, dist, pq, e.to, w, Add(tot, e));
    PushMono(dist, rank, pq, e.to, w, Add(tot, e));
    PushCurrent(adj, start, c, dist, prev, rank, done, via, pq, u, tot, e, w);
    PushFrontier(adj, dist, rank, pq, e.to, w, Add(tot, e));
    PushHeap(adj, c, dist, rank, pq, e.to, w, Add(tot, e));
  }

  /** An arc that improves `dist` updates its target, records `u` and pushes a new entry. */
  lemma ImproveKeeps(adj: Adjacency, start: int, end: int, c: Criterion, dist: map<int, Bound>, prev: map<int, int>,
                     pq: multiset<Entry>, rank: map<int, nat>, next: nat, done: map<int, Totals>, via: map<int, Edge>,
                     u: int, k: nat, tot: Totals, i: nat, e: Edge, w: nat)
    requires InRelax(adj, start, end, c, dist, prev, pq, rank, next, done, via, u, k, tot, i)
    requires i < |Arcs(adj, u)| && e == Arcs(adj, u)[i] && w == k + Weight(e, c)
    requires e.to in dist && Below(w, dist[e.to])
    ensures InRelax(adj, start, end, c, dist[e.to := Fin(w)], prev[e.to := u], pq + multiset{Entry(w, e.to, Add(tot, e))},
                    rank, next, done, via[e.to := e], u, k, tot, i + 1)
  {
    ImproveTarget(adj, start, end, c, dist, prev, pq, rank, next, done, via, u, k, tot, i, e, w);
    ImproveCore(adj, start, end, c, dist, prev, pq, rank, next, done, via, u, k, tot, e, w);
    ImproveRelaxed(adj, c, dist, rank, u, k, i, e, w);
    FocusKept(dist, rank, done, u, k, tot, e.to, w);
  }

  /** An arc that does not improve `dist` is relaxed already. */
  lemma SkipKeeps(adj: Adjacency, start: int, end: int, c: Criterion, dist: map<int, Bound>, prev: map<int, int>,
                  pq: multiset<Entry>, rank: map<int, nat>, next: nat, done: map<int, Totals>, via: map<int, Edge>,
                  u: int, k: nat, tot: Totals, i: nat, e: Edge, w: nat)
    requires InRelax(adj, start, end, c, dist, prev, pq, rank, next, done, via, u, k, tot, i)
    requires i < |Arcs(adj, u)| && e == Arcs(adj, u)[i] && w == k + Weight(e, c)
    requires e.to in dist && !Below(w, dist[e.to])
    ensures InRelax(adj, start, end, c, dist, prev, pq, rank, next, done, via, u, k, tot, i + 1)
  {
    forall x, j | x in rank && 0 <= j < |Arcs(adj, x)| && (x == u ==> j < i + 1)
      ensures ArcRelaxed(adj, c, dist, x, j)
    {
    }
  }

  lemma RelaxedAll(adj: Adjacency, start: int, end: int, c: Criterion, dist: map<int, Bound>, prev: map<int, int>,
                   pq: multiset<Entry>, rank: map<int, nat>, next: nat, done: map<int, Totals>, via: map<int, Edge>,
                   u: int, k: nat, tot: Totals)
    requires InRelax(adj, start, end, c, dist, prev, pq, rank, next, done, via, u, k, tot, |Arcs(adj, u)|)
    ensures Inv(adj, start, end, c, dist, prev, pq, rank, next, done, via)
  {
  }

  // ---------------------------------------------------------------------------------
  // The end of the search

  /** The settled vertices, read along `prev` from the origin, form a predecessor path and a walk. */
  lemma {:induction false} ChainTo(adj: Adjacency, start: int, end: int, c: Criterion, dist: map<int, Bound>,
                                   prev: map<int, int>, rank: map<int, nat>, next: nat, done: map<int, Totals>,
                                   via: map<int, Edge>, v: int)
    returns (q: seq<int>, es: seq<Edge>)
    requires RankOk(adj, end, dist, rank, next, done) && PrevOk(adj, start, dist, prev, rank, via)
    requires DoneOk(start, c, dist, prev, rank, done, via) && v in rank
    ensures IsPrevPath(prev, q, start, v) && IsWalk(adj, q, es) && SumOf(es) == done[v]
    ensures forall i :: 0 <= i < |q| ==> q[i] in rank && rank[q[i]] <= rank[v]
    decreases rank[v]
  {
    if v == start {
      q, es := [start], [];
    } else {
      var u := prev[v];
      var q', es' := ChainTo(adj, start, end, c, dist, prev, rank, next, done, via, u);
      assert v !in q';
      ExtendPath(adj, prev, q', es', start, u, via[v]);
      q, es := q' + [v], es' + [via[v]];
    }
  }

  lemma PrevArcs(adj: Adjacency, start: int, dist: map<int, Bound>, prev: map<int, int>, rank: map<int, nat>, via: map<int, Edge>)
    requires PrevOk(adj, start, dist, prev, rank, via) && rank.Keys <= adj.Keys
    ensures PrevJoined(adj, prev)
  {
    forall v | v in prev
      ensures prev[v] in adj && exists j :: 0 <= j < |adj[prev[v]]| && adj[prev[v]][j].to == v
    {
      var j :| 0 <= j < |adj[prev[v]]| && adj[prev[v]][j] == via[v];
    }
  }

  /** The destination, reached but never settled, has a recorded path through settled vertices. */
  lemma FoundPath(adj: Adjacency, start: int, end: int, c: Criterion, dist: map<int, Bound>, prev: map<int, int>,
                  rank: map<int, nat>, next: nat, done: map<int, Totals>, via: map<int, Edge>)
    returns (q: seq<int>, es: seq<Edge>)
    requires RankOk(adj, end, dist, rank, next, done) && PrevOk(adj, start, dist, prev, rank, via)
    requires DoneOk(start, c, dist, prev, rank, done, via) && end in adj && Reached(dist, end)
    ensures IsPrevPath(prev, q, start, end) && IsWalk(adj, q, es) && SumOf(es) == Expected(prev, done, via, start, end)
  {
    if end == start {
      q, es := [start], [];
    } else {
      var u := prev[end];
      var q', es' := ChainTo(adj, start, end, c, dist, prev, rank, next, done, via, u);
      assert end !in q';
      ExtendPath(adj, prev, q', es', start, u, via[end]);
      q, es := q' + [end], es' + [via[end]];
    }
  }

  /** Popping the destination at its current value completes the search. */
  lemma FoundSolves(adj: Adjacency, start: int, end: int, c: Criterion, dist: map<int, Bound>, prev: map<int, int>,
                    pq: multiset<Entry>, rank: map<int, nat>, next: nat, done: map<int, Totals>, via: map<int, Edge>, x: Entry)
    requires Inv(adj, start, end, c, dist, prev, pq, rank, next, done, via)
    requires x in pq && (forall y :: y in pq ==> x.key <= y.key)
    requires x.vertex == end && Reached(dist, end) && Val(dist, end) == x.key
    ensures Solved(adj, start, end, c, prev, Some(x.totals))
  {
    SettleBound(adj, start, end, c, dist, pq, rank, x);
    assert x.totals == Expected(prev, done, via, start, end);
    assert Component(x.totals, c) == x.key;
    var q, es := FoundPath(adj, start, end, c, dist, prev, rank, next, done, via);
    assert WalkFromTo(adj, q, es, start, end);
    PrevArcs(adj, start, dist, prev, rank, via);
  }

  /** An empty heap means the destination cannot be reached. */
  lemma ExhaustedSolves(adj: Adjacency, start: int, end: int, c: Criterion, dist: map<int, Bound>, prev: map<int, int>,
                        rank: map<int, nat>, next: nat, done: map<int, Totals>, via: map<int, Edge>)
    requires Inv(adj, start, end, c, dist, prev, multiset{}, rank, next, done, via)
    ensures Solved(adj, start, end, c, prev, None)
  {
    forall vs, es | WalkFromTo(adj, vs, es, start, end)
      ensures false
    {
      Cut(adj, start, end, c, dist, multiset{}, rank, vs, es);
    }
    PrevArcs(adj, start, dist, prev, rank, via);
  }

  // ---------------------------------------------------------------------------------
  // The solver

  /** `dist` never goes up: every finite value stays finite and no larger. */
  predicate NoHigher(after: map<int, Bound>, before: map<int, Bound>)
  {
    && after.Keys == before.Keys
    && forall v :: v in before && before[v].Fin? ==> after[v].Fin? && after[v].value <= before[v].value
  }

  /** Lowering one value keeps `dist` below its earlier version. */
  lemma LowerIsNoHigher(after: map<int, Bound>, before: map<int, Bound>, v: int, w: nat)
    requires NoHigher(after, before) && v in after && Below(w, after[v])
    ensures NoHigher(after[v := Fin(w)], before)
  {
  }

  /**
    The relaxation loop of `find_optimal_path`: for each arc `(u, v)` in insertion order,
    if `d` plus the arc's weight is below `dist[v]`, lower `dist[v]`, record `u` as the
    predecessor of `v` and push the entry for `v` with the extended totals.
  */
  method RelaxArcs(adj: Adjacency, c: Criterion, u: int, d: nat, t: Totals,
                   dist: map<int, Bound>, prev: map<int, int>, pq: multiset<Entry>,
                   ghost start: int, ghost end: int, ghost rank: map<int, nat>, ghost next: nat,
                   ghost done: map<int, Totals>, ghost via: map<int, Edge>)
    returns (dist': map<int, Bound>, prev': map<int, int>, pq': multiset<Entry>, ghost via': map<int, Edge>)
    requires u in adj && InRelax(adj, start, end, c, dist, prev, pq, rank, next, done, via, u, d, t, 0)
    ensures Inv(adj, start, end, c, dist', prev', pq', rank, next, done, via')
    ensures NoHigher(dist', dist)
  {
    dist', prev', pq', via' := dist, prev, pq, via;
    var edges := adj[u];
    var i := 0;
    while i < |edges|
      invariant edges == Arcs(adj, u) && i <= |edges|
      invariant InRelax(adj, start, end, c, dist', prev', pq', rank, next, done, via', u, d, t, i)
      invariant NoHigher(dist', dist)
    {
      var e := edges[i];
      var w := d + Weight(e, c);
      ArcInRange(adj, start, end, c, dist', prev', pq', rank, next, done, via', u, d, t, i, e);
      if Below(w, dist'[e.to]) {
        ImproveKeeps(adj, start, end, c, dist', prev', pq', rank, next, done, via', u, d, t, i, e, w);
        LowerIsNoHigher(dist', dist, e.to, w);
        dist' := dist'[e.to := Fin(w)];
        prev' := prev'[e.to := u];
        via' := via'[e.to := e];
        pq' := pq' + multiset{Entry(w, e.to, Add(t, e))};
      } else {
        SkipKeeps(adj, start, end, c, dist', prev', pq', rank, next, done, via', u, d, t, i, e, w);
      }
      i := i + 1;
    }
    RelaxedAll(adj, start, end, c, dist', prev', pq', rank, next, done, via', u, d, t);
  }

  /** Settling one more vertex shrinks the set of unsettled vertices. */
  lemma SettleShrinks(adj: Adjacency, rank: map<int, nat>, u: int, n: nat)
    requires u in adj && u !in rank
    ensures |adj.Keys - rank[u := n].Keys| < |adj.Keys - rank.Keys|
  {
    var rest := adj.Keys - rank[u := n].Keys;
    assert rank[u := n].Keys == rank.Keys + {u};
    assert adj.Keys - rank.Keys == rest + {u} && u !in rest;
  }

  /**
    The search loop of `find_optimal_path`: pop an entry of least key; skip it when stale
    (`d > dist[u]`); stop when it is the destination; otherwise relax the arcs of its vertex.
    The pop takes any entry of least key, so the contract holds for every tie order.
  */
  method RunSearch(adj: Adjacency, start: int, end: int, c: Criterion) returns (prev: map<int, int>, totals: Option<Totals>)
    requires Frame(adj, start, end)
    ensures Solved(adj, start, end, c, prev, totals)
    ensures start == end ==> prev == map[] && totals == Some(Zero)
  {
    var dist := (map v | v in adj :: Inf)[start := Fin(0)];
    prev := map[];
    totals := None;
    var pq := multiset{Entry(0, start, Zero)};
    ghost var rank: map<int, nat> := map[];
    ghost var next: nat := 0;
    ghost var done: map<int, Totals> := map[];
    ghost var via: map<int, Edge> := map[];
    InitEstablishes(adj, start, end, c);

    while pq != multiset{}
      invariant Inv(adj, start, end, c, dist, prev, pq, rank, next, done, via)
      invariant totals == None
      invariant start == end ==> prev == map[] && pq == multiset{Entry(0, start, Zero)}
      decreases |adj.Keys - rank.Keys|, |pq|
    {
      MinExists(pq);
      var x :| x in pq && forall y :: y in pq ==> x.key <= y.key;
      var u := x.vertex;
      EntryInRange(adj, start, end, c, dist, prev, pq, rank, next, done, via, x);
      if dist[u].Fin? && x.key > dist[u].value {
        DropKeeps(adj, start, end, c, dist, prev, pq, rank, next, done, via, x);
        pq := pq - multiset{x};
        continue;
      }
      LiveEntry(adj, start, end, c, dist, prev, pq, rank, next, done, via, x);
      if u == end {
        FoundSolves(adj, start, end, c, dist, prev, pq, rank, next, done, via, x);
        totals := Some(x.totals);
        return;
      }
      SettleKeeps(adj, start, end, c, dist, prev, pq, rank, next, done, via, x);
      SettleShrinks(adj, rank, u, next);
      rank, next, done := rank[u := next], next + 1, done[u := x.totals];
      pq := pq - multiset{x};
      dist, prev, pq, via := RelaxArcs(adj, c, u, x.key, x.totals, dist, prev, pq, start, end, rank, next, done, via);
    }
    ExhaustedSolves(adj, start, end, c, dist, prev, rank, next, done, via);
  }

  /**
    `find_optimal_path(graph, start, end, criterion)`: fails before computing anything when
    an endpoint is not a vertex or the criterion is not 0, 1 or 2; otherwise searches and
    returns the predecessor dictionary and the destination's three totals.
  */
  method FindOptimalPath(g: Graph, start: int, end: int, criterion: int) returns (r: Result<Search, SolveError>)
    requires Closed(g.adj)
    ensures (start !in g.adj || end !in g.adj) <==> r == Failure(MissingVertex)
    ensures (start in g.adj && end in g.adj && !(0 <= criterion < 3)) <==> r == Failure(BadCriterion)
    ensures r.Success? ==> 0 <= criterion < 3 && Solved(g.adj, start, end, criterion, r.value.prev, r.value.totals)
    ensures r.Success? && start == end ==> r.value == Search(map[], Some(Zero))
  {
    if start !in g.adj || end !in g.adj {
      return Failure(MissingVertex);
    }
    if criterion != 0 && criterion != 1 && criterion != 2 {
      return Failure(BadCriterion);
    }
    var prev, totals := RunSearch(g.adj, start, end, criterion);
    r := Success(Search(prev, totals));
  }

  /**
    Running the same request twice yields the same optimum: two totals that are both
    realised by walks and both lower bounds agree on the chosen component.
  */
  lemma OptimumIsUnique(adj: Adjacency, start: int, end: int, c: Criterion, t1: Totals, t2: Totals,
                        vs1: seq<int>, es1: seq<Edge>, vs2: seq<int>, es2: seq<Edge>)
    requires WalkFromTo(adj, vs1, es1, start, end) && SumOf(es1) == t1 && LowerBound(adj, start, end, Component(t1, c), c)
    requires WalkFromTo(adj, vs2, es2, start, end) && SumOf(es2) == t2 && LowerBound(adj, start, end, Component(t2, c), c)
    ensures Component(t1, c) == Component(t2, c)
  {
  }
}
