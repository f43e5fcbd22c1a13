/**
  Ranking the per-criterion results of one request: the compromise key of a result lists
  its totals in the order of the request's priority letters, keys compare as Python tuples
  do (lexicographically), and the compromise is the first result, in insertion order,
  whose key is smallest.
*/
module Compromise {
  import opened Network

  /** A priority letter: `Д` (length), `В` (time) or `С` (cost). */
  type Letter = ch: char | ch == 'Д' || ch == 'В' || ch == 'С' witness 'Д'

  /** The criterion index of a letter, as in the table `CRITERION_NAMES`. */
  function Column(p: Letter): (c: Criterion)
    ensures p == 'Д' <==> c == 0
    ensures p == 'В' <==> c == 1
    ensures p == 'С' <==> c == 2
  {
    if p == 'Д' then 0 else if p == 'В' then 1 else 2
  }

  /** `compromise_key(result, priorities)`: one component of the totals per priority letter. */
  function CompromiseKey(t: Totals, priorities: seq<Letter>): (k: seq<nat>)
    ensures |k| == |priorities|
    ensures forall i :: 0 <= i < |priorities| ==>
      k[i] == (if priorities[i] == 'Д' then t.length else if priorities[i] == 'В' then t.time else t.cost)
  {
    if priorities == [] then []
    else CompromiseKey(t, priorities[..|priorities| - 1]) + [Component(t, Column(priorities[|priorities| - 1]))]
  }

  /** Python's `<` on tuples of numbers: the first difference decides, and a proper prefix is smaller. */
  predicate LexLess(a: seq<nat>, b: seq<nat>)
    decreases |a|
  {
    if a == [] then b != []
    else if b == [] then false
    else a[0] < b[0] || (a[0] == b[0] && LexLess(a[1..], b[1..]))
  }

  /** The reference reading of `<` for keys of equal length: equal up to some index, smaller there. */
  predicate FirstDifferenceBelow(a: seq<nat>, b: seq<nat>)
  {
    exists i :: 0 <= i < |a| && i < |b| && a[..i] == b[..i] && a[i] < b[i]
  }

  lemma {:induction false} LexLessIsFirstDifference(a: seq<nat>, b: seq<nat>)
    requires |a| == |b|
    ensures LexLess(a, b) <==> FirstDifferenceBelow(a, b)
    decreases |a|
  {
    if a != [] {
      LexLessIsFirstDifference(a[1..], b[1..]);
      if LexLess(a, b) && a[0] == b[0] && !(a[0] < b[0]) {
        var i :| 0 <= i < |a[1..]| && i < |b[1..]| && a[1..][..i] == b[1..][..i] && a[1..][i] < b[1..][i];
        assert a[..i + 1] == [a[0]] + a[1..][..i] && b[..i + 1] == [b[0]] + b[1..][..i];
        assert a[i + 1] < b[i + 1];
      }
      if FirstDifferenceBelow(a, b) && !(a[0] < b[0]) {
        var i :| 0 <= i < |a| && i < |b| && a[..i] == b[..i] && a[i] < b[i];
        assert i > 0 && a[0] == a[..i][0] == b[..i][0] == b[0];
        assert a[1..][..i - 1] == a[..i][1..] && b[1..][..i - 1] == b[..i][1..];
        assert a[1..][i - 1] < b[1..][i - 1];
      }
    }
  }

  lemma {:induction false} LexLessIrreflexive(a: seq<nat>)
    ensures !LexLess(a, a)
    decreases |a|
  {
    if a != [] {
      LexLessIrreflexive(a[1..]);
    }
  }

  lemma {:induction false} LexLessTransitive(a: seq<nat>, b: seq<nat>, c: seq<nat>)
    requires LexLess(a, b) && LexLess(b, c)
    ensures LexLess(a, c)
    decreases |a|
  {
    if a != [] && a[0] == b[0] && b[0] == c[0] {
      LexLessTransitive(a[1..], b[1..], c[1..]);
    }
  }

  /** Any two keys are ordered one way or the other, or equal. */
  lemma {:induction false} LexLessTotal(a: seq<nat>, b: seq<nat>)
    ensures LexLess(a, b) || a == b || LexLess(b, a)
    decreases |a|
  {
    if a != [] && b != [] && a[0] == b[0] {
      LexLessTotal(a[1..], b[1..]);
      if a[1..] == b[1..] {
        assert a == [a[0]] + a[1..] && b == [b[0]] + b[1..];
      }
    }
  }

  /**
    `min(keys, key=...)`: scan the keys in order and replace the current choice only by a
    strictly smaller key, so the first of several smallest keys is chosen.  The chosen key
    is one of `keys`, no key scores below it, and every key before it scores differently.
  */
  function Select(keys: seq<Letter>, score: map<Letter, seq<nat>>): (b: Letter)
    requires |keys| > 0 && forall i :: 0 <= i < |keys| ==> keys[i] in score
    ensures b in keys && b in score
    ensures forall i :: 0 <= i < |keys| ==> !LexLess(score[keys[i]], score[b])
    ensures exists i :: 0 <= i < |keys| && keys[i] == b && forall j :: 0 <= j < i ==> score[keys[j]] != score[b]
  {
    if |keys| == 1 then
      LexLessIrreflexive(score[keys[0]]);
      keys[0]
    else
      var init, last := keys[..|keys| - 1], keys[|keys| - 1];
      var b0 := Select(init, score);
      if LexLess(score[last], score[b0]) then
        SelectReplaced(init, score, b0, last);
        assert keys == init + [last];
        last
      else
        SelectKept(init, score, b0, last);
        assert keys == init + [last];
        b0
  }

  /** When the last key does not beat the choice among the earlier ones, that choice stands. */
  lemma SelectKept(init: seq<Letter>, score: map<Letter, seq<nat>>, b0: Letter, last: Letter)
    requires forall i :: 0 <= i < |init| ==> init[i] in score
    requires b0 in score && last in score && !LexLess(score[last], score[b0])
    requires forall i :: 0 <= i < |init| ==> !LexLess(score[init[i]], score[b0])
    requires exists i :: 0 <= i < |init| && init[i] == b0 && forall j :: 0 <= j < i ==> score[init[j]] != score[b0]
    ensures forall i :: 0 <= i < |init + [last]| ==> !LexLess(score[(init + [last])[i]], score[b0])
    ensures exists i :: 0 <= i < |init + [last]| && (init + [last])[i] == b0 && forall j :: 0 <= j < i ==> score[(init + [last])[j]] != score[b0]
  {
    var k :| 0 <= k < |init| && init[k] == b0 && forall j :: 0 <= j < k ==> score[init[j]] != score[b0];
    var keys := init + [last];
    assert forall j :: 0 <= j < |init| ==> keys[j] == init[j];
    assert keys[k] == b0;
  }

  /** When the last key beats the choice among the earlier ones, it beats every earlier key. */
  lemma SelectReplaced(init: seq<Letter>, score: map<Letter, seq<nat>>, b0: Letter, last: Letter)
    requires forall i :: 0 <= i < |init| ==> init[i] in score
    requires b0 in score && last in score && LexLess(score[last], score[b0])
    requires forall i :: 0 <= i < |init| ==> !LexLess(score[init[i]], score[b0])
    ensures forall i :: 0 <= i < |init + [last]| ==> !LexLess(score[(init + [last])[i]], score[last])
    ensures forall i :: 0 <= i < |init| ==> score[init[i]] != score[last]
  {
    LexLessIrreflexive(score[last]);
    forall i | 0 <= i < |init|
      ensures score[init[i]] != score[last] && !LexLess(score[init[i]], score[last])
    {
      if LexLess(score[init[i]], score[last]) {
        LexLessTransitive(score[init[i]], score[last], score[b0]);
      }
    }
  }

  /** Every key scored before the chosen one scores strictly higher. */
  lemma SelectIsFirstMinimal(keys: seq<Letter>, score: map<Letter, seq<nat>>, i: nat)
    requires |keys| > 0 && forall j :: 0 <= j < |keys| ==> keys[j] in score
    requires i < |keys| && keys[i] == Select(keys, score) && forall j :: 0 <= j < i ==> keys[j] != keys[i]
    ensures forall j :: 0 <= j < i ==> LexLess(score[Select(keys, score)], score[keys[j]])
  {
    var b := Select(keys, score);
    var k :| 0 <= k < |keys| && keys[k] == b && forall j :: 0 <= j < k ==> score[keys[j]] != score[b];
    assert k >= i;
    forall j | 0 <= j < i
      ensures LexLess(score[b], score[keys[j]])
    {
      LexLessTotal(score[b], score[keys[j]]);
    }
  }

  /**
    A worked case: results (5, 10, 20) for length, (8, 4, 20) for time and (9, 9, 3) for
    cost, priorities time, cost, length: the keys are (10, 20, 5), (4, 20, 8) and (9, 3, 9),
    and the time result wins.
  */
  lemma SelectExample()
    ensures Select(['В', 'С', 'Д'], map['Д' := CompromiseKey(Totals(5, 10, 20), ['В', 'С', 'Д']),
                                      'В' := CompromiseKey(Totals(8, 4, 20), ['В', 'С', 'Д']),
                                      'С' := CompromiseKey(Totals(9, 9, 3), ['В', 'С', 'Д'])]) == 'В'
  {
    var p: seq<Letter> := ['В', 'С', 'Д'];
    var kd, kv, ks := CompromiseKey(Totals(5, 10, 20), p), CompromiseKey(Totals(8, 4, 20), p), CompromiseKey(Totals(9, 9, 3), p);
    assert kd == [10, 20, 5] && kv == [4, 20, 8] && ks == [9, 3, 9];
    var score := map['Д' := kd, 'В' := kv, 'С' := ks];
    var b := Select(p, score);
    assert forall i :: 0 <= i < |p| ==> !LexLess(score[p[i]], score[b]);
    assert LexLess(kv, kd) && LexLess(kv, ks);
  }
}
