/**
 * Whole-table operations shared by the cleaners and the aggregator: a table is
 * a sequence of rows, and a boolean-mask selection `df[mask]` keeps the rows
 * whose mask entry holds, in their original order.
 */
module Tables {

  /** `xs` can be obtained from `ys` by deleting rows, keeping the order of the rest. */
  ghost predicate IsSubsequence<T>(xs: seq<T>, ys: seq<T>)
    decreases |ys|
  {
    if |xs| == 0 then true
    else if |ys| == 0 then false
    else (xs[0] == ys[0] && IsSubsequence(xs[1..], ys[1..])) || IsSubsequence(xs, ys[1..])
  }

  /** Row selection by a per-row predicate (pandas `df[df[...] ...]`). */
  function Filter<T>(xs: seq<T>, keep: T -> bool): (r: seq<T>)
    ensures |r| <= |xs|
    ensures forall k :: 0 <= k < |r| ==> r[k] in xs && keep(r[k])
    ensures forall k :: 0 <= k < |xs| && keep(xs[k]) ==> xs[k] in r
    ensures IsSubsequence(r, xs)
    ensures forall k {:trigger multiset(r)[xs[k]]} :: 0 <= k < |xs| && keep(xs[k]) ==> multiset(r)[xs[k]] == multiset(xs)[xs[k]]
  {
    if |xs| == 0 then []
    else
      var rest := Filter(xs[1..], keep);
      var r := if keep(xs[0]) then [xs[0]] + rest else rest;
      KeptMultiplicity(xs, keep, rest, r);
      r
  }

  /** The multiplicity clause of `Filter`, carried from the tail to the whole table. */
  lemma KeptMultiplicity<T>(xs: seq<T>, keep: T -> bool, rest: seq<T>, r: seq<T>)
    requires |xs| > 0
    requires forall k :: 0 <= k < |rest| ==> rest[k] in xs[1..]
    requires forall k :: 0 <= k < |xs[1..]| && keep(xs[1..][k]) ==>
      multiset(rest)[xs[1..][k]] == multiset(xs[1..])[xs[1..][k]]
    requires r == if keep(xs[0]) then [xs[0]] + rest else rest
    ensures forall k {:trigger multiset(r)[xs[k]]} :: 0 <= k < |xs| && keep(xs[k]) ==> multiset(r)[xs[k]] == multiset(xs)[xs[k]]
  {
    assert xs == [xs[0]] + xs[1..];
    assert multiset(xs) == multiset([xs[0]]) + multiset(xs[1..]);
    forall k | 0 <= k < |xs| && keep(xs[k]) ensures multiset(r)[xs[k]] == multiset(xs)[xs[k]] {
      if k > 0 {
        assert xs[k] == xs[1..][k - 1];
      }
      if xs[k] == xs[0] && xs[0] !in xs[1..] {
        assert xs[0] !in rest;
      } else if xs[k] == xs[0] {
        var j :| 0 <= j < |xs[1..]| && xs[1..][j] == xs[0];
      }
    }
  }

  lemma {:induction false} SubsequenceMembers<T>(xs: seq<T>, ys: seq<T>)
    requires IsSubsequence(xs, ys)
    ensures forall k :: 0 <= k < |xs| ==> xs[k] in ys
    decreases |ys|
  {
    if |xs| > 0 {
      if xs[0] == ys[0] && IsSubsequence(xs[1..], ys[1..]) {
        SubsequenceMembers(xs[1..], ys[1..]);
        assert forall k :: 1 <= k < |xs| ==> xs[k] == xs[1..][k - 1];
      } else {
        SubsequenceMembers(xs, ys[1..]);
      }
    }
  }

  /** Deleting rows twice is deleting rows once. */
  lemma {:induction false} SubsequenceTransitive<T>(xs: seq<T>, ys: seq<T>, zs: seq<T>)
    requires IsSubsequence(xs, ys) && IsSubsequence(ys, zs)
    ensures IsSubsequence(xs, zs)
    decreases |zs|
  {
    if |xs| > 0 {
      assert |ys| > 0 && |zs| > 0;
      if ys[0] == zs[0] && IsSubsequence(ys[1..], zs[1..]) {
        if xs[0] == ys[0] && IsSubsequence(xs[1..], ys[1..]) {
          SubsequenceTransitive(xs[1..], ys[1..], zs[1..]);
        } else {
          SubsequenceTransitive(xs, ys[1..], zs[1..]);
        }
      } else {
        SubsequenceTransitive(xs, ys, zs[1..]);
      }
    }
  }

  /** Selection keeps every row when every row passes. */
  lemma {:induction false} FilterAll<T>(xs: seq<T>, keep: T -> bool)
    requires forall k :: 0 <= k < |xs| ==> keep(xs[k])
    ensures Filter(xs, keep) == xs
    decreases |xs|
  {
    if |xs| > 0 {
      FilterAll(xs[1..], keep);
    }
  }

  lemma {:induction false} FilterAppend<T>(xs: seq<T>, ys: seq<T>, keep: T -> bool)
    ensures Filter(xs + ys, keep) == Filter(xs, keep) + Filter(ys, keep)
    decreases |xs|
  {
    if |xs| > 0 {
      assert (xs + ys)[1..] == xs[1..] + ys;
      FilterAppend(xs[1..], ys, keep);
    } else {
      assert xs + ys == ys;
    }
  }

  /** Selecting with two masks that agree on every row gives the same rows. */
  lemma {:induction false} FilterCongruent<T>(xs: seq<T>, keep: T -> bool, keep': T -> bool)
    requires forall k :: 0 <= k < |xs| ==> keep(xs[k]) == keep'(xs[k])
    ensures Filter(xs, keep) == Filter(xs, keep')
    decreases |xs|
  {
    if |xs| > 0 {
      assert forall k :: 1 <= k < |xs| ==> xs[1..][k - 1] == xs[k];
      FilterCongruent(xs[1..], keep, keep');
    }
  }
}
