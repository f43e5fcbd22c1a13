/**
  Path reconstruction: walking the predecessor dictionary produced by the solver back
  from the destination to the origin, with a visited set guarding against cycles.
*/
module Reconstruct {
  import opened Base
  import opened Network

  /**
    NoPath: the destination has no predecessor ("path does not exist");
    Cycle: the backward walk came back to a vertex it had already passed;
    MissingPredecessor: the walk reached a vertex other than the origin that has no
    predecessor (a KeyError in the lookup `prev[cur]`, not one of the two reported errors).
  */
  datatype RestoreError = NoPath | Cycle | MissingPredecessor

  /**
    `w` follows predecessors backwards (w[i] == prev[w[i-1]]), visits no vertex twice
    and never reaches `start`.
  */
  predicate BackWalk(prev: map<int, int>, w: seq<int>, start: int)
  {
    && |w| > 0 && Distinct(w)
    && (forall i :: 0 <= i < |w| ==> w[i] != start)
    && forall i :: 0 <= i < |w| - 1 ==> w[i] in prev && prev[w[i]] == w[i + 1]
  }

  /** A backward walk extends by the predecessor of its last vertex. */
  lemma BackWalkExtend(prev: map<int, int>, w: seq<int>, start: int, cur: int)
    requires w == [] || (BackWalk(prev, w, start) && w[|w| - 1] in prev && prev[w[|w| - 1]] == cur)
    requires cur !in w && cur != start
    ensures BackWalk(prev, w + [cur], start)
  {
  }

  /** A backward walk that has arrived at the origin, read forwards, is a predecessor path. */
  lemma ArrivedWalkIsPath(prev: map<int, int>, w: seq<int>, start: int, end: int)
    requires w == [] ==> start == end
    requires w != [] ==> BackWalk(prev, w, start) && w[0] == end && w[|w| - 1] in prev && prev[w[|w| - 1]] == start
    ensures IsPrevPath(prev, Reversed(w + [start]), start, end)
  {
    var p := w + [start];
    var q := Reversed(p);
    forall i | 0 < i < |q|
      ensures q[i] in prev && prev[q[i]] == q[i - 1]
    {
      var j := |p| - 1 - i;
      assert q[i] == p[j] && q[i - 1] == p[j + 1];
    }
    forall i, j | 0 <= i < j < |q|
      ensures q[i] != q[j]
    {
      assert q[i] == p[|p| - 1 - i] && q[j] == p[|p| - 1 - j];
    }
  }

  /**
    A backward walk from the destination is the tail of every predecessor path to the
    destination, read backwards, and stops short of its first vertex.
  */
  lemma {:induction false} BackWalkFollowsPath(prev: map<int, int>, w: seq<int>, q: seq<int>, start: int, end: int, k: nat)
    requires BackWalk(prev, w, start) && w[0] == end
    requires IsPrevPath(prev, q, start, end)
    requires k < |w|
    ensures k < |q| - 1 && w[k] == q[|q| - 1 - k]
  {
    if k > 0 {
      BackWalkFollowsPath(prev, w, q, start, end, k - 1);
      assert w[k] == prev[w[k - 1]];
      assert q[|q| - 1 - k] == prev[q[|q| - k]];
      assert w[k] != q[0];
    } else {
      assert w[0] != q[0];
    }
  }

  /** A backward walk that ends at a missing key or closes a cycle rules out every predecessor path. */
  lemma BlockedWalkHasNoPath(prev: map<int, int>, w: seq<int>, start: int, end: int)
    requires BackWalk(prev, w, start) && w[0] == end
    requires w[|w| - 1] !in prev || prev[w[|w| - 1]] in w
    ensures forall q :: !IsPrevPath(prev, q, start, end)
  {
    forall q | IsPrevPath(prev, q, start, end)
      ensures false
    {
      var n := |w| - 1;
      BackWalkFollowsPath(prev, w, q, start, end, n);
      var at := |q| - 1 - n;
      assert q[at] in prev && prev[q[at]] == q[at - 1];
      if w[n] in prev {
        var j :| 0 <= j < |w| && w[j] == prev[w[n]];
        BackWalkFollowsPath(prev, w, q, start, end, j);
      }
    }
  }

  /** There is at most one predecessor path between two vertices. */
  lemma {:induction false} PrevPathUnique(prev: map<int, int>, p: seq<int>, q: seq<int>, start: int, end: int)
    requires IsPrevPath(prev, p, start, end) && IsPrevPath(prev, q, start, end)
    ensures p == q
    decreases if |p| > |q| then 1 else 0
  {
    if |p| > |q| {
      PrevPathUnique(prev, q, p, start, end);
    } else {
      SameTail(prev, p, q, start, end, |p| - 1);
      assert |p| == |q|;
      forall i | 0 <= i < |p|
        ensures p[i] == q[i]
      {
        SameTail(prev, p, q, start, end, |p| - 1 - i);
      }
    }
  }

  lemma {:induction false} SameTail(prev: map<int, int>, p: seq<int>, q: seq<int>, start: int, end: int, k: nat)
    requires IsPrevPath(prev, p, start, end) && IsPrevPath(prev, q, start, end)
    requires |p| <= |q| && k < |p|
    ensures p[|p| - 1 - k] == q[|q| - 1 - k]
  {
    if k > 0 {
      SameTail(prev, p, q, start, end, k - 1);
    }
  }

  /**
    Walks `prev` backwards from `end` until `start`, failing on an absent destination,
    on a revisited vertex and on a vertex with no predecessor; returns the walk reversed.
  */
  method RestorePath(prev: map<int, int>, start: int, end: int) returns (r: Result<seq<int>, RestoreError>)
    ensures end !in prev <==> r == Failure(NoPath)
    ensures r.Success? ==> IsPrevPath(prev, r.value, start, end)
    ensures r == Failure(Cycle) ==>
      exists w :: BackWalk(prev, w, start) && w[0] == end && w[|w| - 1] in prev && prev[w[|w| - 1]] in w
    ensures r == Failure(MissingPredecessor) ==>
      exists w :: BackWalk(prev, w, start) && w[0] == end && w[|w| - 1] !in prev
    ensures r.Failure? && end in prev ==> forall q :: !IsPrevPath(prev, q, start, end)
  {
    var path: seq<int> := [];
    var cur := end;
    var visited: set<int> := {};
    if cur !in prev {
      return Failure(NoPath);
    }
    while cur != start
      invariant visited <= prev.Keys
      invariant forall v :: v in visited <==> v in path
      invariant path == [] ==> cur == end
      invariant path != [] ==> BackWalk(prev, path, start) && path[0] == end
      invariant path != [] ==> path[|path| - 1] in prev && prev[path[|path| - 1]] == cur
      decreases |prev.Keys - visited|
    {
      if cur in visited {
        BlockedWalkHasNoPath(prev, path, start, end);
        return Failure(Cycle);
      }
      ghost var before := prev.Keys - visited;
      BackWalkExtend(prev, path, start, cur);
      visited := visited + {cur};
      path := path + [cur];
      if cur !in prev {
        BlockedWalkHasNoPath(prev, path, start, end);
        return Failure(MissingPredecessor);
      }
      assert prev.Keys - visited < before;
      cur := prev[cur];
    }
    ArrivedWalkIsPath(prev, path, start, end);
    path := path + [start];
    r := Success(Reversed(path));
  }
}
