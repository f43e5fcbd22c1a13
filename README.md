# Multi-criterion routing: a verified model

This project models the routing core of the script `exam/Main.py`. The script builds an
undirected road network in which every road has three integer weights: length (`Д`),
time (`В`) and cost (`С`). The model assumes these are non-negative (see "Left out"). For
each request the script then:

1. finds one optimal route per requested criterion, using Dijkstra's algorithm with lazy
   deletion;
2. restores each route from the predecessor dictionary;
3. picks as the compromise the result whose metrics, read in the request's priority
   order, are lexicographically smallest.

The model is split into six modules:

- `Base` (`base.dfy`): `Option`, `Result`, sequence reversal and distinctness.
- `Network` (`network.dfy`): `Edge`, the three running totals, and the `Graph` class.
  - The class owns the `adj` dictionary, which `AddVertex` and `AddEdge` update in place.
  - A ghost list of the links added so far is tied to the dictionary by `Valid()`.
  - The module also defines walks, their weight sums, lower bounds and predecessor paths.
- `Solver` (`solver.dfy`): `find_optimal_path`.
  - The heap is a multiset of entries `(key, vertex, totals)`. A pop takes any entry of
    least key, so every contract holds whatever order `heapq` uses to break ties.
  - The `while pq` loop is `RunSearch` and the loop over the arcs of a popped vertex is
    `RelaxArcs`. Both are imperative, with loop invariants.
  - The invariant of the `while pq` loop says that:
    - every key is the chosen component of the totals its entry carries;
    - settled vertices carry optimal values;
    - the recorded predecessors form a tree whose arc sums are the carried totals.
  - `RelaxArcs` also ensures that no value of `dist` goes up (`NoHigher`).
- `Reconstruct` (`reconstruct.dfy`): `restore_path`, an imperative loop over the
  predecessor dictionary with its visited set.
- `Compromise` (`compromise.dfy`): `compromise_key`, Python's tuple `<`, and
  `min(keys, key=...)` as a left fold.
- `Requests` (`requests.dfy`): the driver.
  - `EvaluateLetter` handles one letter of a request.
  - `CollectRoutes` is the loop over the priority letters.
  - `EvaluateRequest` handles one request; `EvaluateAll` handles all of them.

What each request comes to is stated by the ghost predicate `Requests.Answers`:

- origin equals destination: "already there";
- no priority letters: nothing is written;
- an unknown vertex: the search raises, which aborts the whole run;
- the destination is unreachable: an error block is written;
- otherwise:
  - one optimal route per distinct letter, in insertion order;
  - the compromise is the `min` over that order.

Parameters of the model:

- Vertex ids are `int`.
- The request's city names are taken as already resolved to ids.
- The graph is passed in already built.

After a failed restore, the code breaks out of the letter loop. If a result had already
been stored, it would then go on to the selection. `Requests.CollectRoutes` proves this
cannot happen. A restore fails exactly when the destination is unreachable, and that does
not depend on the criterion, so it is the first letter's restore that fails.

## Model

| member | source | states |
|---|---|---|
| Network.Graph.constructor | exam/Main.py:42-43 | a new graph has an empty dictionary and satisfies the graph invariant |
| Network.Graph.AddVertex | exam/Main.py:45-47 | a vertex already present leaves `adj` unchanged; a new vertex gets an empty arc list and nothing else changes; links are unchanged and the invariant is kept |
| Network.Graph.AddEdge | exam/Main.py:49-51 | with both endpoints registered, exactly one arc `(v,L,T,C)` is appended to `adj[u]` and one arc `(u,L,T,C)` to `adj[v]` (both to the same list for a loop `u == v`); the key set and every other list are unchanged; the link is recorded and the invariant is kept |
| Network.ArcsMirrored | exam/Main.py:49-51 | after any sequence of `add_edge` calls, `u` has exactly as many arcs to `v` with weights (L,T,C) as `v` has to `u` with those weights |
| Network.Graph.ValidIsMirrored | exam/Main.py:49-51 | in every graph built by the two methods, the arc lists are mirrored, counted with multiplicity |
| Network.Graph.ValidIsClosed | exam/Main.py:45-51 | in every graph built by the two methods, every arc leads to a registered vertex, so the solver's lookups `dist[e.to]` succeed |
| Network.AddComponent | exam/Main.py:161-169 | the new key `cur_weight + weights[criterion]` is the chosen component of the new totals `cur + (e.length, e.time, e.cost)` |
| Solver.FindOptimalPath | exam/Main.py:129-172 | fails with MissingVertex exactly when an endpoint is not a vertex, and with BadCriterion exactly when both are vertices but the criterion is not 0, 1 or 2; otherwise the result satisfies `Solved` (totals found iff the destination is reachable; end in prev iff found, when the endpoints differ; minimal chosen component; the totals are the arc sums along the predecessor path; every predecessor is joined to its vertex by an arc); for equal endpoints it returns an empty prev and zero totals |
| Solver.RunSearch | exam/Main.py:137-172 | the `while pq` loop, under any tie order, ends in a state satisfying `Solved`; starting at the destination it returns at once with zero totals |
| Solver.RelaxArcs | exam/Main.py:160-170 | relaxing all arcs of the popped vertex restores the loop invariant: every arc of every settled vertex is relaxed, keys equal the chosen component of the carried totals; and no value of `dist` goes up |
| Solver.InitEstablishes | exam/Main.py:137-145 | `dist` at INF except 0 at the origin, an empty prev and the single entry `(0, start, 0, 0, 0)` satisfy the loop invariant |
| Solver.DropKeeps | exam/Main.py:149-152 | discarding a stale entry (`key > dist[u]`) keeps the loop invariant |
| Solver.SettleKeeps | exam/Main.py:149-160 | popping a least, non-stale entry of a vertex other than the destination settles it at an optimal value: the invariant holds during its relaxation |
| Solver.ImproveKeeps | exam/Main.py:164-170 | lowering `dist[v]` to the strictly smaller candidate, recording `prev[v] = u` and pushing `(w, v, totals + arc)` keeps the relaxation invariant, with one more arc relaxed |
| Solver.SkipKeeps | exam/Main.py:164 | an arc that does not improve `dist[v]` is already relaxed, so the invariant holds with one more arc done |
| Solver.LowerIsNoHigher | exam/Main.py:164-165 | overwriting `dist[v]` only with a strictly smaller value keeps `dist` no higher than before |
| Solver.Cut | exam/Main.py:141-152 | every walk from the origin to an unsettled vertex has a heap entry whose key does not exceed the walk's chosen weight |
| Solver.FoundSolves | exam/Main.py:154-158 | popping the destination at its current value yields totals realised along the predecessor path whose chosen component is a lower bound over all walks |
| Solver.ExhaustedSolves | exam/Main.py:148-172 | when the heap runs empty, no walk reaches the destination and the totals stay None |
| Solver.OptimumIsUnique | exam/Main.py:154-158 | two totals, each realised by a walk and each a lower bound, agree on the chosen component |
| Reconstruct.RestorePath | exam/Main.py:176-194 | fails with "no path" exactly when `end` is not in prev; on success, the path runs from start to end, visits no vertex twice and links every vertex to its predecessor; a "cycle" failure exhibits a backward walk returning to a visited vertex; a failed lookup `prev[cur]` exhibits a walk stuck at a vertex without predecessor; and any failure when `end` is in prev means no predecessor path exists |
| Reconstruct.PrevPathUnique | exam/Main.py:184-194 | a predecessor dictionary admits at most one path from start to end, so the restored path is the solver's path |
| Reconstruct.BlockedWalkHasNoPath | exam/Main.py:184-190 | a backward walk that revisits a vertex or reaches one with no predecessor rules out every predecessor path |
| Base.Reversed | exam/Main.py:193 | `path.reverse()`: same length, element `i` is element `n-1-i` of the input |
| Compromise.Column | exam/Main.py:7-11 | `Д` is criterion 0, `В` is 1, `С` is 2, and conversely |
| Compromise.CompromiseKey | exam/Main.py:198-200 | one component per priority letter, in priority order: length for `Д`, time for `В`, cost for `С` |
| Compromise.LexLessIsFirstDifference | exam/Main.py:242-245 | for keys of equal length, tuple `<` holds iff the keys agree up to some index and the first is smaller there (both directions) |
| Compromise.LexLessIrreflexive | exam/Main.py:242-245 | no key is below itself |
| Compromise.LexLessTransitive | exam/Main.py:242-245 | tuple `<` is transitive |
| Compromise.LexLessTotal | exam/Main.py:242-245 | any two keys are equal or ordered one way or the other |
| Compromise.Select | exam/Main.py:242-245 | `min` returns one of the keys, no key scores below it, and every key before its first position scores differently |
| Compromise.SelectIsFirstMinimal | exam/Main.py:242-245 | every key before the chosen one scores strictly higher under tuple `<` |
| Compromise.SelectExample | exam/Main.py:242-245 | the results (5,10,20), (8,4,20) and (9,9,3) under priorities time, cost, length select the time result |
| Requests.FirstOccurrences | exam/Main.py:224-236 | the keys of `results_metricks` are the requested letters, each once |
| Requests.FirstOccurrencesInOrder | exam/Main.py:224-236 | of two keys, the earlier one occurs in the request before any occurrence of the later one |
| Requests.FirstOccurrencesHead | exam/Main.py:224-236 | the first requested letter is the first key |
| Requests.StoreRoute | exam/Main.py:236 | storing an optimal route under one more letter keeps one optimal route per letter seen |
| Requests.EvaluateLetter | exam/Main.py:227-236 | the search raises exactly when an endpoint is not a vertex; the restore fails exactly when the destination is unreachable; otherwise the result is a simple path from origin to destination whose arc sums are its totals and whose chosen component is minimal |
| Requests.CollectRoutes | exam/Main.py:224-239 | raises exactly when some letter is requested and an endpoint is missing; ends with the error block exactly when some letter is requested and the destination is unreachable; otherwise the keys are the letters in first-occurrence order, with one optimal route each, and no routes only for no letters |
| Requests.EvaluateRequest | exam/Main.py:210-245 | the outcome of the request satisfies `Answers`: already there iff the endpoints coincide; nothing written iff there are no letters; a crash iff the search raises; an error block iff the destination is unreachable; otherwise one optimal route per distinct letter in insertion order, and the compromise is `min` by compromise key |
| Requests.EvaluateAll | exam/Main.py:205-264 | for the modelled stages only (the search, the restore and the selection), no output at all iff some request makes the search raise; otherwise one answer per request, each satisfying `Answers`; an unknown city name and the three-letter output loop also abort the run, but both are outside the model |
| Requests.CrashedExactly | exam/Main.py:131-132 | an answer is a crash exactly when an endpoint of a request with letters is missing from the graph |
| Requests.AnswersAgreeOnKind | exam/Main.py:210-245 | any two answers to the same request are of the same kind and, with routes, have the same keys and the same letters |
| Requests.FirstComponentNoWorse | exam/Main.py:242-245 | the compromise is no heavier than the first letter's route under the first letter's criterion |
| Requests.NoWorseIsOptimal | exam/Main.py:242-245 | a route no heavier under a criterion than an optimal route for it is itself optimal for it |
| Requests.CompromiseLeadsOnFirstPriority | exam/Main.py:242-245 | the compromise route is an optimal route for the first priority letter |

## Left out

- Input parsing (`read_input`, exam/Main.py:66-120) is not modelled. That covers file
  opening, line splitting, the regular expressions and `int()` conversion. Priority letters
  are taken as already filtered to `Д`, `В` and `С`.
- The lookup of city names to ids (exam/Main.py:214-215) is not modelled: requests carry
  vertex ids. An unknown name raises `KeyError` in the source, which would abort the run.
- Text formatting and file output are not modelled: exam/Main.py:216, 219, 232 and
  247-261, the `__str__` methods (exam/Main.py:31-32, 53-58) and the writing of
  `output.txt`. The outcome datatype records which kind of block would be written.
- The output loop over all three letters (exam/Main.py:247-248) is not modelled. It looks
  up every criterion even when the request named fewer. In the source, such a request
  raises `KeyError` and aborts the run. That is part of the formatting stage.
- The catch-all `except` (exam/Main.py:263-264) prints a message. It is modelled only as
  "no output" (`None` from `EvaluateAll`).
- INF is not modelled as a float (exam/Main.py:5). It is the `Inf` case of `Bound`.
- `heapq` (exam/Main.py:149, 167-170) is modelled as a multiset with extract-any-minimum.
  Which of several equally good routes is returned is therefore left open. Contracts state
  only optimal totals and well-formed paths.
- Weights are natural numbers. The source accepts any Python `int`, but the algorithm is
  only correct for non-negative weights.
- Network.Graph.AddEdge: requires both endpoints to be registered. With an unregistered
  endpoint the source raises `KeyError`, possibly after appending to `adj[u]`; that path
  is not modelled.
- Reconstruct.RestorePath: `path.reverse()` is modelled on a value sequence (`Reversed`).
  The path list is local, so aliasing plays no part.
- Solver.RelaxArcs: the `dist`, `prev` and heap dictionaries are local values passed in
  and out, not shared objects.
