/**
  Data-sufficiency helpers for the long M4 table. The column parameters of the source
  (`value_col`, `grouping_col`, `time_col`) are the accessor functions `value`, `group`
  and `time`.
*/
module Preprocessing {
  import opened Wrappers
  import Seqs

  /** The selection `df[value_col].notna()`. */
  function HasValue<R>(value: R -> Option<real>): R -> bool
  {
    x => value(x).Some?
  }

  /** `drop_na`: the rows whose value is present, and every such row. */
  function DropNa<R(==)>(rows: seq<R>, value: R -> Option<real>): (r: seq<R>)
    ensures forall i :: 0 <= i < |r| ==> value(r[i]).Some? && r[i] in rows
    ensures forall i :: 0 <= i < |rows| && value(rows[i]).Some? ==> rows[i] in r
  {
    Seqs.Filter(HasValue(value), rows)
  }

  /** A row with a value is kept as often as it occurs; a row without one is gone. */
  lemma DropNaMultiplicity<R>(rows: seq<R>, value: R -> Option<real>, x: R)
    ensures multiset(DropNa(rows, value))[x] == if value(x).Some? then multiset(rows)[x] else 0
  {
    Seqs.FilterMultiplicity(HasValue(value), rows, x);
  }

  /** `drop_na` keeps the original order: it distributes over concatenation. */
  lemma DropNaOrder<R>(a: seq<R>, b: seq<R>, value: R -> Option<real>)
    ensures DropNa(a + b, value) == DropNa(a, value) + DropNa(b, value)
  {
    Seqs.FilterAppend(HasValue(value), a, b);
  }

  /** `drop_na` is idempotent. */
  lemma DropNaIdempotent<R>(rows: seq<R>, value: R -> Option<real>)
    ensures DropNa(DropNa(rows, value), value) == DropNa(rows, value)
  {
    Seqs.FilterIdempotent(HasValue(value), rows);
  }

  /** The selection `df[time_col] < required_days`. */
  function Before<R>(time: R -> int, required: int): R -> bool
  {
    x => time(x) < required
  }

  /** `df.groupby(grouping_col)[value_col].count()` for one key: the rows of series `k` with a value. */
  function NonMissingCount<R, K(==)>(rows: seq<R>, group: R -> K, value: R -> Option<real>, k: K): nat
  {
    if rows == [] then 0
    else (if group(rows[0]) == k && value(rows[0]).Some? then 1 else 0) + NonMissingCount(rows[1..], group, value, k)
  }

  /**
    The quantity the sufficiency rule is about: how many rows of series `k` have a
    value at a time index below `required`.
  */
  function ValidCount<R, K(==)>(rows: seq<R>, group: R -> K, value: R -> Option<real>, time: R -> int,
                                required: int, k: K): nat
  {
    if rows == [] then 0
    else (if group(rows[0]) == k && value(rows[0]).Some? && time(rows[0]) < required then 1 else 0)
         + ValidCount(rows[1..], group, value, time, required, k)
  }

  /** Counting the early rows is counting the valid ones. */
  lemma {:induction false} CountEarly<R, K>(rows: seq<R>, group: R -> K, value: R -> Option<real>, time: R -> int,
                                           required: int, k: K)
    ensures NonMissingCount(Seqs.Filter(Before(time, required), rows), group, value, k) ==
            ValidCount(rows, group, value, time, required, k)
  {
    if rows != [] {
      CountEarly(rows[1..], group, value, time, required, k);
      var p := Before(time, required);
      var head := if p(rows[0]) then [rows[0]] else [];
      NonMissingCountAppend(head, Seqs.Filter(p, rows[1..]), group, value, k);
    }
  }

  lemma {:induction false} NonMissingCountAppend<R, K>(a: seq<R>, b: seq<R>, group: R -> K, value: R -> Option<real>, k: K)
    ensures NonMissingCount(a + b, group, value, k) == NonMissingCount(a, group, value, k) + NonMissingCount(b, group, value, k)
  {
    if a == [] {
      assert a + b == b;
    } else {
      assert (a + b)[0] == a[0];
      assert (a + b)[1..] == a[1..] + b;
      NonMissingCountAppend(a[1..], b, group, value, k);
    }
  }

  /** The distinct keys of `rows`, in order of first appearance (the groups of a `groupby`). */
  function Keys<R, K(==)>(rows: seq<R>, group: R -> K): (r: seq<K>)
    ensures forall j :: 0 <= j < |r| ==> exists i :: 0 <= i < |rows| && group(rows[i]) == r[j]
    ensures forall i :: 0 <= i < |rows| ==> group(rows[i]) in r
    ensures forall a, b :: 0 <= a < b < |r| ==> r[a] != r[b]
  {
    if rows == [] then []
    else
      var ks := Keys(rows[..|rows| - 1], group);
      var last := group(rows[|rows| - 1]);
      assert forall i :: 0 <= i < |rows| - 1 ==> rows[i] == rows[..|rows| - 1][i];
      if last in ks then ks else ks + [last]
  }

  /** The selection `counts >= required_days`, with the counts taken over `initial`. */
  function Enough<R, K(==)>(initial: seq<R>, group: R -> K, value: R -> Option<real>, required: int): K -> bool
  {
    k => NonMissingCount(initial, group, value, k) >= required
  }

  /**
    `get_valid_series_ids`: the series whose early rows have enough values, each once;
    `ValidSeriesIff` states which ids are returned.
  */
  function GetValidSeriesIds<R(==), K(==)>(rows: seq<R>, group: R -> K, value: R -> Option<real>,
                                           time: R -> int, required: int): (r: seq<K>)
    ensures forall a, b :: 0 <= a < b < |r| ==> r[a] != r[b]
  {
    var ks := Keys(Seqs.Filter(Before(time, required), rows), group);
    Seqs.FilterDistinct(Enough(Seqs.Filter(Before(time, required), rows), group, value, required), ks);
    Seqs.Filter(Enough(Seqs.Filter(Before(time, required), rows), group, value, required), ks)
  }

  /**
    An id is returned exactly when it has a row with a time index below `required` and
    at least `required` of its rows with such a time index have a value.
  */
  lemma ValidSeriesIff<R, K>(rows: seq<R>, group: R -> K, value: R -> Option<real>, time: R -> int,
                             required: int, k: K)
    ensures k in GetValidSeriesIds(rows, group, value, time, required) <==>
      (exists i :: 0 <= i < |rows| && group(rows[i]) == k && time(rows[i]) < required) &&
      ValidCount(rows, group, value, time, required, k) >= required
  {
    var initial := Seqs.Filter(Before(time, required), rows);
    var ks := Keys(initial, group);
    CountEarly(rows, group, value, time, required, k);
    if k in ks {
      var i :| 0 <= i < |initial| && group(initial[i]) == k;
      var i' :| 0 <= i' < |rows| && rows[i'] == initial[i];
    }
    if exists i :: 0 <= i < |rows| && group(rows[i]) == k && time(rows[i]) < required {
      var i :| 0 <= i < |rows| && group(rows[i]) == k && time(rows[i]) < required;
      assert Before(time, required)(rows[i]);
      var i' :| 0 <= i' < |initial| && initial[i'] == rows[i];
    }
  }

  /** A row with a time index at or after `required` never changes the result. */
  lemma LateRowIgnored<R, K>(a: seq<R>, x: R, b: seq<R>, group: R -> K, value: R -> Option<real>,
                             time: R -> int, required: int)
    requires time(x) >= required
    ensures GetValidSeriesIds(a + [x] + b, group, value, time, required) ==
            GetValidSeriesIds(a + b, group, value, time, required)
  {
    var p := Before(time, required);
    Seqs.FilterAppend(p, a + [x], b);
    Seqs.FilterAppend(p, a, [x]);
    Seqs.FilterSingleton(p, x);
    Seqs.FilterAppend(p, a, b);
    assert Seqs.Filter(p, a + [x] + b) == Seqs.Filter(p, a + b);
  }

  /** Within each series, no two rows share a time index. */
  predicate UniqueTimes<R, K(==)>(rows: seq<R>, group: R -> K, time: R -> int)
  {
    forall i, j :: 0 <= i < j < |rows| && group(rows[i]) == group(rows[j]) ==> time(rows[i]) != time(rows[j])
  }

  /** The time indices below `required` at which series `k` has a value. */
  function EarlyTimes<R, K(==)>(rows: seq<R>, group: R -> K, value: R -> Option<real>, time: R -> int,
                                required: int, k: K): (r: set<int>)
    ensures forall t :: t in r ==>
      t < required && exists i :: 0 <= i < |rows| && group(rows[i]) == k && value(rows[i]).Some? && time(rows[i]) == t
  {
    if rows == [] then {}
    else
      var rest := EarlyTimes(rows[1..], group, value, time, required, k);
      assert forall t :: t in rest ==>
        exists i :: 0 <= i < |rows| && group(rows[i]) == k && value(rows[i]).Some? && time(rows[i]) == t by {
        forall t | t in rest
          ensures exists i :: 0 <= i < |rows| && group(rows[i]) == k && value(rows[i]).Some? && time(rows[i]) == t
        {
          var i :| 0 <= i < |rows[1..]| && group(rows[1..][i]) == k && value(rows[1..][i]).Some? && time(rows[1..][i]) == t;
          assert rows[1..][i] == rows[i + 1];
        }
      }
      (if group(rows[0]) == k && value(rows[0]).Some? && time(rows[0]) < required then {time(rows[0])} else {}) + rest
  }

  /** With unique time indices per series, every counted row contributes its own time index. */
  lemma {:induction false} EarlyTimesCount<R, K>(rows: seq<R>, group: R -> K, value: R -> Option<real>,
                                                time: R -> int, required: int, k: K)
    requires UniqueTimes(rows, group, time)
    ensures |EarlyTimes(rows, group, value, time, required, k)| == ValidCount(rows, group, value, time, required, k)
  {
    if rows != [] {
      var rest := rows[1..];
      assert UniqueTimes(rest, group, time) by {
        forall i, j | 0 <= i < j < |rest| && group(rest[i]) == group(rest[j])
          ensures time(rest[i]) != time(rest[j])
        {
          assert rest[i] == rows[i + 1] && rest[j] == rows[j + 1];
        }
      }
      EarlyTimesCount(rest, group, value, time, required, k);
      var later := EarlyTimes(rest, group, value, time, required, k);
      if group(rows[0]) == k && value(rows[0]).Some? && time(rows[0]) < required {
        forall t | t in later ensures t != time(rows[0]) {
          var i :| 0 <= i < |rest| && group(rest[i]) == k && value(rest[i]).Some? && time(rest[i]) == t;
          assert rest[i] == rows[i + 1];
        }
      }
    }
  }

  /** The time indices `0 .. n-1`. */
  function Range(n: int): (r: set<int>)
    ensures forall t :: t in r <==> 0 <= t < n
    decreases n
  {
    if n <= 0 then {} else Range(n - 1) + {n - 1}
  }

  lemma {:induction false} RangeSize(n: nat)
    ensures |Range(n)| == n
  {
    if n > 0 {
      RangeSize(n - 1);
      var below := Range(n - 1);
      assert n - 1 !in below;
      assert Range(n) == below + {n - 1};
      assert |below + {n - 1}| == |below| + 1;
    }
  }

  /**
    "At least `required` days of data from the start": when time indices are
    non-negative and unique within each series, a returned series has a value at every
    time index `0 .. required-1`.
  */
  lemma ValidFromStart<R, K>(rows: seq<R>, group: R -> K, value: R -> Option<real>, time: R -> int,
                             required: int, k: K, t: int)
    requires UniqueTimes(rows, group, time)
    requires forall i :: 0 <= i < |rows| ==> time(rows[i]) >= 0
    requires k in GetValidSeriesIds(rows, group, value, time, required)
    requires 0 <= t < required
    ensures exists i :: 0 <= i < |rows| && group(rows[i]) == k && time(rows[i]) == t && value(rows[i]).Some?
  {
    ValidSeriesIff(rows, group, value, time, required, k);
    var S := EarlyTimes(rows, group, value, time, required, k);
    EarlyTimesCount(rows, group, value, time, required, k);
    FullRange(S, required, t);
  }

  /** A subset of `0 .. n-1` with at least `n` elements holds every index. */
  lemma FullRange(S: set<int>, n: nat, t: int)
    requires forall x :: x in S ==> 0 <= x < n
    requires |S| >= n
    requires 0 <= t < n
    ensures t in S
  {
    RangeSize(n);
    if t !in S {
      var rest := Range(n) - {t};
      assert S <= rest;
      assert |rest| == n - 1;
      SubsetSize(S, rest);
    }
  }

  lemma SubsetSize(a: set<int>, b: set<int>)
    requires a <= b
    ensures |a| <= |b|
  {
    assert b == a + (b - a);
  }
}
