/**
  `left.merge(right, on=..., how="left")`: for each left row, in left order, one output
  row per matching right row (in right order), or a single row with the right-hand
  columns missing when nothing matches. A left row is never dropped.
*/
module Merge {
  import opened Wrappers
  import Seqs

  /** An output row of the merge: the left row and the right row joined to it, if any. */
  datatype Joined<L, R> = Joined(left: L, right: Option<R>)

  /** The selection `right[key] == k`. */
  function HasKey<R, K(==)>(rkey: R -> K, k: K): R -> bool
  {
    m => rkey(m) == k
  }

  /** The right rows whose key is `k`, in right-table order. */
  function Matches<R(==), K(==)>(right: seq<R>, rkey: R -> K, k: K): (r: seq<R>)
    ensures forall j :: 0 <= j < |r| ==> r[j] in right && rkey(r[j]) == k
    ensures forall j :: 0 <= j < |right| && rkey(right[j]) == k ==> right[j] in r
  {
    Seqs.Filter(HasKey(rkey, k), right)
  }

  /**
    The output rows produced by one left row: one per matching right row, in right
    order, or a single row without a right side when nothing matches.
  */
  function JoinOne<L, R(==), K(==)>(l: L, right: seq<R>, lkey: L -> K, rkey: R -> K): (r: seq<Joined<L, R>>)
    ensures |r| >= 1
    ensures forall t :: 0 <= t < |r| ==> r[t].left == l
    ensures Matches(right, rkey, lkey(l)) == [] ==> r == [Joined(l, None)]
    ensures Matches(right, rkey, lkey(l)) != [] ==>
      |r| == |Matches(right, rkey, lkey(l))| &&
      forall t :: 0 <= t < |r| ==> r[t].right == Some(Matches(right, rkey, lkey(l))[t])
  {
    var ms := Matches(right, rkey, lkey(l));
    if ms == [] then [Joined(l, None)]
    else seq(|ms|, j requires 0 <= j < |ms| => Joined(l, Some(ms[j])))
  }

  /**
    The left merge. Each output row carries a left row (and each left row appears in
    some output row, `LeftMergeKeepsLeft`); a joined right row is a right row with the
    same key, and a row is left unmatched only when no right row has its key.
  */
  function LeftMerge<L, R(==), K(==)>(left: seq<L>, right: seq<R>, lkey: L -> K, rkey: R -> K): (r: seq<Joined<L, R>>)
    ensures |r| >= |left|
    ensures forall t :: 0 <= t < |r| ==> r[t].left in left
    ensures forall t :: 0 <= t < |r| && r[t].right.Some? ==>
      r[t].right.value in right && rkey(r[t].right.value) == lkey(r[t].left)
    ensures forall t, j :: 0 <= t < |r| && r[t].right.None? && 0 <= j < |right| ==>
      rkey(right[j]) != lkey(r[t].left)
  {
    if left == [] then []
    else
      var head, tail := JoinOne(left[0], right, lkey, rkey), LeftMerge(left[1..], right, lkey, rkey);
      assert forall t :: 0 <= t < |tail| ==> tail[t].left in left;
      head + tail
  }

  /** Merging a concatenation is concatenating the merges: output rows follow left-row order. */
  lemma {:induction false} LeftMergeAppend<L, R, K>(a: seq<L>, b: seq<L>, right: seq<R>, lkey: L -> K, rkey: R -> K)
    ensures LeftMerge(a + b, right, lkey, rkey) == LeftMerge(a, right, lkey, rkey) + LeftMerge(b, right, lkey, rkey)
  {
    if a == [] {
      assert a + b == b;
    } else {
      var ab := a + b;
      assert ab[0] == a[0];
      assert ab[1..] == a[1..] + b;
      LeftMergeAppend(a[1..], b, right, lkey, rkey);
    }
  }

  /**
    Left row `i`'s output rows start right after those of the rows before it: the first
    of them sits at `|LeftMerge(left[..i], ...)|`.
  */
  lemma LeftMergeAt<L, R, K>(left: seq<L>, right: seq<R>, lkey: L -> K, rkey: R -> K, i: nat)
    requires i < |left|
    ensures |LeftMerge(left[..i], right, lkey, rkey)| < |LeftMerge(left, right, lkey, rkey)|
    ensures LeftMerge(left, right, lkey, rkey)[|LeftMerge(left[..i], right, lkey, rkey)|].left == left[i]
  {
    var before := LeftMerge(left[..i], right, lkey, rkey);
    var from := LeftMerge(left[i..], right, lkey, rkey);
    assert left == left[..i] + left[i..];
    LeftMergeAppend(left[..i], left[i..], right, lkey, rkey);
    assert from == JoinOne(left[i], right, lkey, rkey) + LeftMerge(left[i..][1..], right, lkey, rkey);
    assert LeftMerge(left, right, lkey, rkey)[|before|] == from[0];
  }

  /** Some output row carries the left row `l`. */
  ghost predicate HasRowFor<L, R>(r: seq<Joined<L, R>>, l: L)
  {
    exists t :: 0 <= t < |r| && r[t].left == l
  }

  /** No left row is lost: every left row appears in some output row. */
  lemma LeftMergeKeepsLeft<L, R, K>(left: seq<L>, right: seq<R>, lkey: L -> K, rkey: R -> K)
    ensures forall i :: 0 <= i < |left| ==> HasRowFor(LeftMerge(left, right, lkey, rkey), left[i])
  {
    forall i | 0 <= i < |left|
      ensures HasRowFor(LeftMerge(left, right, lkey, rkey), left[i])
    {
      LeftMergeAt(left, right, lkey, rkey, i);
      var t := |LeftMerge(left[..i], right, lkey, rkey)|;
      assert LeftMerge(left, right, lkey, rkey)[t].left == left[i];
    }
  }

  /** No two right rows share a key. */
  predicate UniqueKeys<R, K(==)>(right: seq<R>, rkey: R -> K)
  {
    forall a, b :: 0 <= a < b < |right| ==> rkey(right[a]) != rkey(right[b])
  }

  /** The right row with key `k`, the first one if several have it. */
  function Lookup<R(==), K(==)>(right: seq<R>, rkey: R -> K, k: K): (r: Option<R>)
    ensures r.Some? ==> r.value in right && rkey(r.value) == k
    ensures r.None? ==> forall j :: 0 <= j < |right| ==> rkey(right[j]) != k
  {
    var ms := Matches(right, rkey, k);
    if ms == [] then None else Some(ms[0])
  }

  /** With unique right keys a key matches at most one right row. */
  lemma {:induction false} MatchesUnique<R, K>(right: seq<R>, rkey: R -> K, k: K)
    requires UniqueKeys(right, rkey)
    ensures |Matches(right, rkey, k)| <= 1
  {
    if right != [] {
      var rest := right[1..];
      assert UniqueKeys(rest, rkey) by {
        forall a, b | 0 <= a < b < |rest| ensures rkey(rest[a]) != rkey(rest[b]) {
          assert rest[a] == right[a + 1] && rest[b] == right[b + 1];
        }
      }
      MatchesUnique(rest, rkey, k);
      assert Matches(right, rkey, k) ==
        (if rkey(right[0]) == k then [right[0]] else []) + Matches(rest, rkey, k);
      if rkey(right[0]) == k {
        forall j | 0 <= j < |rest| ensures !HasKey(rkey, k)(rest[j]) {
          assert rest[j] == right[j + 1];
        }
        Seqs.FilterNone(HasKey(rkey, k), rest);
      }
    }
  }

  /**
    When the right keys are unique, the merge keeps the row count and the left-row order:
    output row `i` is left row `i` with the right row of the same key, or nothing.
  */
  lemma {:induction false} LeftMergeUnique<L, R, K>(left: seq<L>, right: seq<R>, lkey: L -> K, rkey: R -> K)
    requires UniqueKeys(right, rkey)
    ensures |LeftMerge(left, right, lkey, rkey)| == |left|
    ensures forall i :: 0 <= i < |left| ==>
      LeftMerge(left, right, lkey, rkey)[i] == Joined(left[i], Lookup(right, rkey, lkey(left[i])))
  {
    if left != [] {
      MatchesUnique(right, rkey, lkey(left[0]));
      LeftMergeUnique(left[1..], right, lkey, rkey);
      var head := JoinOne(left[0], right, lkey, rkey);
      var tail := LeftMerge(left[1..], right, lkey, rkey);
      var ms := Matches(right, rkey, lkey(left[0]));
      if ms != [] {
        assert |head| == 1 && head[0] == Joined(left[0], Some(ms[0]));
      }
      assert head == [Joined(left[0], Lookup(right, rkey, lkey(left[0])))];
      assert LeftMerge(left, right, lkey, rkey) == head + tail;
      forall i | 1 <= i < |left|
        ensures (head + tail)[i] == Joined(left[i], Lookup(right, rkey, lkey(left[i])))
      {
        assert (head + tail)[i] == tail[i - 1];
        assert left[1..][i - 1] == left[i];
      }
    }
  }
}
