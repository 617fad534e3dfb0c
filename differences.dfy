/**
  Rate-of-change features: the per-series day-over-day sales difference, computed
  over the frame sorted by date, and the mean of those differences over every
  (category, date) cell, broadcast back to the rows and added to the frame in place.
*/
module Differences {
  import opened Wrappers

  /** The columns of a sales row the features read; dates are day ordinals. */
  datatype SalesRow = SalesRow(id: string, catId: string, date: int, sales: real)

  /** A row with its `sales_diff` column (`None` for NaN). */
  datatype DiffRow = DiffRow(obs: SalesRow, salesDiff: Option<real>)

  predicate SortedByDate(s: seq<SalesRow>)
  {
    forall i, j :: 0 <= i < j < |s| ==> s[i].date <= s[j].date
  }

  function Insert(x: SalesRow, s: seq<SalesRow>): (r: seq<SalesRow>)
    requires SortedByDate(s)
    ensures |r| == |s| + 1
    ensures r[0] == if s == [] || x.date <= s[0].date then x else s[0]
    ensures SortedByDate(r)
  {
    if s == [] || x.date <= s[0].date then
      [x] + s
    else
      var rest := Insert(x, s[1..]);
      assert s[0].date <= rest[0].date;
      [s[0]] + rest
  }

  lemma {:induction false} InsertPermutes(x: SalesRow, s: seq<SalesRow>)
    requires SortedByDate(s)
    ensures multiset(Insert(x, s)) == multiset(s) + multiset{x}
  {
    if s != [] && x.date > s[0].date {
      InsertPermutes(x, s[1..]);
      assert s == [s[0]] + s[1..];
    }
  }

  /** `sort_values("date")`: a date-ordered rearrangement of the rows. */
  function SortByDate(s: seq<SalesRow>): (r: seq<SalesRow>)
    ensures SortedByDate(r)
    ensures multiset(r) == multiset(s)
  {
    if s == [] then []
    else
      assert s == [s[0]] + s[1..];
      InsertPermutes(s[0], SortByDate(s[1..]));
      Insert(s[0], SortByDate(s[1..]))
  }

  /** The position of the latest row before `i` whose group is `g`. */
  function PrevIndex(rows: seq<SalesRow>, group: SalesRow -> string, g: string, i: nat): (r: Option<nat>)
    requires i <= |rows|
    ensures r.Some? ==> r.value < i && group(rows[r.value]) == g
    ensures r.Some? ==> forall k :: r.value < k < i ==> group(rows[k]) != g
    ensures r.None? ==> forall k :: 0 <= k < i ==> group(rows[k]) != g
  {
    if i == 0 then None
    else if group(rows[i - 1]) == g then Some(i - 1)
    else PrevIndex(rows, group, g, i - 1)
  }

  /** What `diff()` promises for row `i`: its sales less those of the previous row of its group. */
  function DiffAt(rows: seq<SalesRow>, group: SalesRow -> string, i: nat): Option<real>
    requires i < |rows|
  {
    match PrevIndex(rows, group, group(rows[i]), i)
    case None => None
    case Some(j) => Some(rows[i].sales - rows[j].sales)
  }

  /** One pass over the rows, remembering the last sales value seen for each group. */
  function DiffFrom(rows: seq<SalesRow>, group: SalesRow -> string, last: map<string, real>): (r: seq<Option<real>>)
    ensures |r| == |rows|
  {
    if rows == [] then []
    else
      var g := group(rows[0]);
      [if g in last then Some(rows[0].sales - last[g]) else None]
        + DiffFrom(rows[1..], group, last[g := rows[0].sales])
  }

  /** `groupby(group)["sales"].diff()` in frame order. */
  function GroupedDiff(rows: seq<SalesRow>, group: SalesRow -> string): (r: seq<Option<real>>)
    ensures |r| == |rows|
  {
    DiffFrom(rows, group, map[])
  }

  /** The last sales value of each group in a prefix. */
  function LastSales(p: seq<SalesRow>, group: SalesRow -> string): map<string, real>
  {
    if p == [] then map[]
    else LastSales(p[..|p| - 1], group)[group(p[|p| - 1]) := p[|p| - 1].sales]
  }

  lemma {:induction false} LastSalesPrev(rows: seq<SalesRow>, group: SalesRow -> string, g: string, i: nat)
    requires i <= |rows|
    ensures g in LastSales(rows[..i], group) <==> PrevIndex(rows, group, g, i).Some?
    ensures g in LastSales(rows[..i], group) ==>
      LastSales(rows[..i], group)[g] == rows[PrevIndex(rows, group, g, i).value].sales
  {
    if i > 0 {
      assert rows[..i][..i - 1] == rows[..i - 1];
      LastSalesPrev(rows, group, g, i - 1);
    }
  }

  lemma {:induction false} DiffFromAt(rows: seq<SalesRow>, group: SalesRow -> string, n: nat, i: nat)
    requires n <= i < |rows|
    ensures DiffFrom(rows[n..], group, LastSales(rows[..n], group))[i - n] == DiffAt(rows, group, i)
    decreases i - n
  {
    var last := LastSales(rows[..n], group);
    if n == i {
      LastSalesPrev(rows, group, group(rows[i]), i);
    } else {
      assert rows[n..][1..] == rows[n + 1..];
      assert rows[..n + 1][..n] == rows[..n];
      assert LastSales(rows[..n + 1], group) == last[group(rows[n]) := rows[n].sales];
      DiffFromAt(rows, group, n + 1, i);
    }
  }

  /** The pass computes, for every row, exactly the difference `diff()` promises. */
  lemma GroupedDiffIsPrevious(rows: seq<SalesRow>, group: SalesRow -> string)
    ensures forall i :: 0 <= i < |rows| ==> GroupedDiff(rows, group)[i] == DiffAt(rows, group, i)
  {
    forall i | 0 <= i < |rows|
      ensures GroupedDiff(rows, group)[i] == DiffAt(rows, group, i)
    {
      assert rows[0..] == rows && rows[..0] == [];
      DiffFromAt(rows, group, 0, i);
    }
  }

  /** `add_differences`: the rows sorted by date, each with its group's previous-row difference. */
  function AddDifferences(df: seq<SalesRow>, group: SalesRow -> string): (r: seq<DiffRow>)
    ensures |r| == |df|
    ensures forall i :: 0 <= i < |r| ==> r[i].obs in df
  {
    var sorted := SortByDate(df);
    var diffs := GroupedDiff(sorted, group);
    assert |multiset(sorted)| == |multiset(df)|;
    assert forall i :: 0 <= i < |sorted| ==> sorted[i] in multiset(df);
    seq(|sorted|, i requires 0 <= i < |sorted| => DiffRow(sorted[i], diffs[i]))
  }

  function Observations(rows: seq<DiffRow>): (r: seq<SalesRow>)
    ensures |r| == |rows|
    ensures forall i :: 0 <= i < |rows| ==> r[i] == rows[i].obs
  {
    if rows == [] then [] else [rows[0].obs] + Observations(rows[1..])
  }

  /**
    The result holds the same rows, ordered by date, and each row's difference is
    its sales less those of the previous row of its group in that order.
  */
  lemma AddDifferencesSpec(df: seq<SalesRow>, group: SalesRow -> string)
    ensures |AddDifferences(df, group)| == |df|
    ensures multiset(Observations(AddDifferences(df, group))) == multiset(df)
    ensures SortedByDate(Observations(AddDifferences(df, group)))
    ensures forall i :: 0 <= i < |df| ==>
      AddDifferences(df, group)[i].salesDiff == DiffAt(Observations(AddDifferences(df, group)), group, i)
  {
    var r := AddDifferences(df, group);
    var sorted := SortByDate(df);
    assert |multiset(sorted)| == |multiset(df)|;
    assert Observations(r) == sorted;
    GroupedDiffIsPrevious(sorted, group);
  }

  /** Within a group, no two rows share a date (one observation per series and day). */
  predicate UniqueGroupDates(rows: seq<SalesRow>, group: SalesRow -> string)
  {
    forall i, j :: 0 <= i < j < |rows| && group(rows[i]) == group(rows[j]) ==> rows[i].date != rows[j].date
  }

  /**
    On a date-sorted frame with one row per group and date, the row `diff()` subtracts is
    the group's row with the latest earlier date, so the result does not depend on how the
    sort orders ties between groups; without such a row the difference is missing.
  */
  lemma DiffIsPreviousDate(rows: seq<SalesRow>, group: SalesRow -> string, i: nat)
    requires i < |rows|
    requires SortedByDate(rows) && UniqueGroupDates(rows, group)
    ensures PrevIndex(rows, group, group(rows[i]), i).None? ==>
      forall k :: 0 <= k < |rows| && group(rows[k]) == group(rows[i]) ==> rows[k].date >= rows[i].date
    ensures PrevIndex(rows, group, group(rows[i]), i).Some? ==>
      var j := PrevIndex(rows, group, group(rows[i]), i).value;
      && rows[j].date < rows[i].date
      && forall k :: 0 <= k < |rows| && group(rows[k]) == group(rows[i]) && rows[k].date < rows[i].date ==>
           rows[k].date <= rows[j].date
  {
    var g := group(rows[i]);
    var p := PrevIndex(rows, group, g, i);
    if p.None? {
      FirstOfGroup(rows, group, g, i);
    } else {
      LatestOfGroup(rows, group, g, i, p.value);
    }
  }

  /** A row with no earlier row of its group has the group's earliest date. */
  lemma FirstOfGroup(rows: seq<SalesRow>, group: SalesRow -> string, g: string, i: nat)
    requires i < |rows| && SortedByDate(rows)
    requires forall k :: 0 <= k < i ==> group(rows[k]) != g
    ensures forall k :: 0 <= k < |rows| && group(rows[k]) == g ==> rows[k].date >= rows[i].date
  {
    forall k | 0 <= k < |rows| && group(rows[k]) == g
      ensures rows[k].date >= rows[i].date
    {
      assert k >= i;
    }
  }

  /** The previous row `j` of the group holds the group's latest date before row `i`'s. */
  lemma LatestOfGroup(rows: seq<SalesRow>, group: SalesRow -> string, g: string, i: nat, j: nat)
    requires j < i < |rows| && SortedByDate(rows) && UniqueGroupDates(rows, group)
    requires group(rows[i]) == g && group(rows[j]) == g
    requires forall k :: j < k < i ==> group(rows[k]) != g
    ensures rows[j].date < rows[i].date
    ensures forall k :: 0 <= k < |rows| && group(rows[k]) == g && rows[k].date < rows[i].date ==>
      rows[k].date <= rows[j].date
  {
    assert rows[j].date <= rows[i].date;
    assert rows[j].date != rows[i].date;
    forall k | 0 <= k < |rows| && group(rows[k]) == g && rows[k].date < rows[i].date
      ensures rows[k].date <= rows[j].date
    {
      assert k < i;
      assert k <= j;
    }
  }

  /** The non-missing differences of the rows in category `cat` on `date`. */
  function CellDiffs(rows: seq<DiffRow>, cat: string, date: int): (r: seq<real>)
    ensures |r| <= |rows|
  {
    if rows == [] then [] else Contribution(rows[0], cat, date) + CellDiffs(rows[1..], cat, date)
  }

  /** What one row adds to the cell of `cat` on `date`: its difference, if it is in the cell and present. */
  function Contribution(row: DiffRow, cat: string, date: int): (r: seq<real>)
    ensures |r| <= 1
  {
    if row.obs.catId == cat && row.obs.date == date && row.salesDiff.Some? then [row.salesDiff.value] else []
  }

  function Sum(xs: seq<real>): real
  {
    if xs == [] then 0.0 else xs[0] + Sum(xs[1..])
  }

  /** pandas' NaN-skipping mean: missing when there is nothing to average. */
  function Mean(xs: seq<real>): (r: Option<real>)
    ensures r.None? <==> xs == []
    ensures r.Some? ==> r.value * (|xs| as real) == Sum(xs)
  {
    if xs == [] then None else Some(Sum(xs) / (|xs| as real))
  }

  /** The (sum, count) recorded for a cell so far. */
  function Entry(acc: map<(string, int), (real, nat)>, key: (string, int)): (real, nat)
  {
    if key in acc then acc[key] else (0.0, 0)
  }

  /** Adds one row's present difference to the (sum, count) of its cell. */
  function AddRow(acc: map<(string, int), (real, nat)>, row: DiffRow): map<(string, int), (real, nat)>
  {
    if row.salesDiff.None? then acc
    else
      var key := (row.obs.catId, row.obs.date);
      acc[key := (Entry(acc, key).0 + row.salesDiff.value, Entry(acc, key).1 + 1)]
  }

  /** Running (sum, count) of the present differences per (category, date) cell. */
  function CellTotals(rows: seq<DiffRow>, acc: map<(string, int), (real, nat)>): map<(string, int), (real, nat)>
  {
    if rows == [] then acc else CellTotals(rows[1..], AddRow(acc, rows[0]))
  }

  function CellMean(totals: map<(string, int), (real, nat)>, row: DiffRow): Option<real>
  {
    var e := Entry(totals, (row.obs.catId, row.obs.date));
    if e.1 > 0 then Some(e.0 / (e.1 as real)) else None
  }

  /** `groupby(["cat_id", "date"])["sales_diff"].transform("mean")`. */
  function CategoryMeanColumn(rows: seq<DiffRow>): (r: seq<Option<real>>)
    ensures |r| == |rows|
  {
    var totals := CellTotals(rows, map[]);
    seq(|rows|, i requires 0 <= i < |rows| => CellMean(totals, rows[i]))
  }

  lemma {:induction false} SumAppend(a: seq<real>, b: seq<real>)
    ensures Sum(a + b) == Sum(a) + Sum(b)
  {
    if a == [] {
      assert a + b == b;
    } else {
      assert (a + b)[1..] == a[1..] + b;
      SumAppend(a[1..], b);
    }
  }

  lemma AddRowEntry(acc: map<(string, int), (real, nat)>, row: DiffRow, key: (string, int))
    ensures Entry(AddRow(acc, row), key)
      == (Entry(acc, key).0 + Sum(Contribution(row, key.0, key.1)), Entry(acc, key).1 + |Contribution(row, key.0, key.1)|)
  {
    var c := Contribution(row, key.0, key.1);
    if c != [] {
      assert c[1..] == [];
    }
  }

  /** Folding the rows into the totals adds each cell's sum and count of present differences. */
  lemma {:induction false} CellTotalsAt(rows: seq<DiffRow>, acc: map<(string, int), (real, nat)>, key: (string, int))
    ensures Entry(CellTotals(rows, acc), key)
      == (Entry(acc, key).0 + Sum(CellDiffs(rows, key.0, key.1)), Entry(acc, key).1 + |CellDiffs(rows, key.0, key.1)|)
  {
    if rows != [] {
      CellTotalsAt(rows[1..], AddRow(acc, rows[0]), key);
      AddRowEntry(acc, rows[0], key);
      SumAppend(Contribution(rows[0], key.0, key.1), CellDiffs(rows[1..], key.0, key.1));
    }
  }

  /** Each row receives the mean of the present differences of its (category, date) cell. */
  lemma CategoryMeanIsCellMean(rows: seq<DiffRow>)
    ensures forall i :: 0 <= i < |rows| ==>
      CategoryMeanColumn(rows)[i] == Mean(CellDiffs(rows, rows[i].obs.catId, rows[i].obs.date))
  {
    forall i | 0 <= i < |rows|
      ensures CategoryMeanColumn(rows)[i] == Mean(CellDiffs(rows, rows[i].obs.catId, rows[i].obs.date))
    {
      CellTotalsAt(rows, map[], (rows[i].obs.catId, rows[i].obs.date));
    }
  }

  /** Rows of the same category and date receive the same value. */
  lemma SameCellSameMean(rows: seq<DiffRow>, i: nat, j: nat)
    requires i < |rows| && j < |rows|
    requires rows[i].obs.catId == rows[j].obs.catId && rows[i].obs.date == rows[j].obs.date
    ensures CategoryMeanColumn(rows)[i] == CategoryMeanColumn(rows)[j]
  {
  }

  /** A data frame with its `sales_diff` column, to which the category mean is added in place. */
  class FeatureFrame {
    var rows: seq<DiffRow>
    /** The `cat_mean_diff` column, once added. */
    var catMeanDiff: Option<seq<Option<real>>>

    predicate Valid()
      reads this
    {
      catMeanDiff.Some? ==> |catMeanDiff.value| == |rows|
    }

    constructor(rows: seq<DiffRow>)
      ensures this.rows == rows && catMeanDiff == None
      ensures Valid()
    {
      this.rows := rows;
      catMeanDiff := None;
    }

    /** `add_category_mean_diff`: sets the column, leaving the rows as they were. */
    method AddCategoryMeanDiff()
      modifies this
      ensures rows == old(rows)
      ensures catMeanDiff == Some(CategoryMeanColumn(rows))
      ensures Valid()
    {
      catMeanDiff := Some(CategoryMeanColumn(rows));
    }
  }
}
