/**
  The wide-to-long reshape `DataFrame.melt(id_vars, value_vars, var_name, value_name)`
  as both loaders use it: one output row per (value column, input row), all rows for
  the first value column first, then all rows for the next, and so on.
*/
module Melt {
  import Seqs

  /** One row of a wide table: its identifier part and the cells of the other columns. */
  datatype WideRow<I, V> = WideRow(id: I, cells: seq<V>)

  /** A wide table: `columns` names the non-identifier columns, in header order. */
  datatype Wide<I, V> = Wide(columns: seq<string>, rows: seq<WideRow<I, V>>)

  /** Every row has exactly one cell per column. */
  predicate WellFormed<I, V>(w: Wide<I, V>)
  {
    forall i :: 0 <= i < |w.rows| ==> |w.rows[i].cells| == |w.columns|
  }

  /** One row of the long table: the identifier, the source column's name and the cell. */
  datatype LongRow<I, V> = LongRow(id: I, variable: string, value: V)

  /** Adds `d` to every position. */
  function Shift(s: seq<nat>, d: nat): (r: seq<nat>)
    ensures |r| == |s|
    ensures forall j :: 0 <= j < |s| ==> r[j] == s[j] + d
  {
    seq(|s|, j requires 0 <= j < |s| => s[j] + d)
  }

  /**
    The positions of the value columns (`[c for c in df.columns if isValue(c)]`), strictly
    increasing; `ValueColumnNames` shows that they name exactly the columns satisfying `isValue`.
  */
  function ValueColumns(columns: seq<string>, isValue: string -> bool): (r: seq<nat>)
    ensures |r| == |Seqs.Filter(isValue, columns)|
    ensures forall j :: 0 <= j < |r| ==> r[j] < |columns|
    ensures forall j, j' :: 0 <= j < j' < |r| ==> r[j] < r[j']
  {
    if columns == [] then []
    else (if isValue(columns[0]) then [0] else []) + Shift(ValueColumns(columns[1..], isValue), 1)
  }

  /** The `j`-th value position holds the `j`-th column name that satisfies `isValue`. */
  lemma {:induction false} ValueColumnNames(columns: seq<string>, isValue: string -> bool, j: nat)
    requires j < |ValueColumns(columns, isValue)|
    ensures columns[ValueColumns(columns, isValue)[j]] == Seqs.Filter(isValue, columns)[j]
  {
    var r, rest := ValueColumns(columns, isValue), ValueColumns(columns[1..], isValue);
    var f, f' := Seqs.Filter(isValue, columns), Seqs.Filter(isValue, columns[1..]);
    if isValue(columns[0]) {
      assert f == [columns[0]] + f';
      assert r == [0] + Shift(rest, 1);
      if j > 0 {
        ValueColumnNames(columns[1..], isValue, j - 1);
        assert r[j] == rest[j - 1] + 1;
        assert columns[r[j]] == columns[1..][rest[j - 1]];
        assert f[j] == f'[j - 1];
      } else {
        assert r[0] == 0 && f[0] == columns[0];
      }
    } else {
      assert f == f';
      assert r == Shift(rest, 1);
      ValueColumnNames(columns[1..], isValue, j);
      assert r[j] == rest[j] + 1;
      assert columns[r[j]] == columns[1..][rest[j]];
    }
  }

  /** Every value position names the column the filter keeps at that place. */
  lemma ValueColumnNamesAll(columns: seq<string>, isValue: string -> bool)
    ensures forall j :: 0 <= j < |ValueColumns(columns, isValue)| ==>
      columns[ValueColumns(columns, isValue)[j]] == Seqs.Filter(isValue, columns)[j]
  {
    forall j | 0 <= j < |ValueColumns(columns, isValue)| {
      ValueColumnNames(columns, isValue, j);
    }
  }

  /** The names of the columns at positions `cols`. */
  function ColumnNames(columns: seq<string>, cols: seq<nat>): (r: seq<string>)
    requires forall j :: 0 <= j < |cols| ==> cols[j] < |columns|
    ensures |r| == |cols| && forall j :: 0 <= j < |cols| ==> r[j] == columns[cols[j]]
  {
    seq(|cols|, j requires 0 <= j < |cols| => columns[cols[j]])
  }

  /** All rows of `rows` for the single column at position `c`, in row order. */
  function MeltColumn<I, V>(columns: seq<string>, rows: seq<WideRow<I, V>>, c: nat): (r: seq<LongRow<I, V>>)
    requires c < |columns|
    requires forall i :: 0 <= i < |rows| ==> |rows[i].cells| == |columns|
    ensures |r| == |rows|
    ensures forall i :: 0 <= i < |rows| ==> r[i] == LongRow(rows[i].id, columns[c], rows[i].cells[c])
  {
    if rows == [] then []
    else [LongRow(rows[0].id, columns[c], rows[0].cells[c])] + MeltColumn(columns, rows[1..], c)
  }

  /** The size of `m` blocks of `n` rows, `m * n` (`BlocksIsProduct`). */
  function Blocks(m: nat, n: nat): nat
  {
    if m == 0 then 0 else n + Blocks(m - 1, n)
  }

  /** The position of row `i` of block `j` when blocks have `n` rows, `j * n + i` (`BlockIsProduct`). */
  function Block(j: nat, i: nat, n: nat): nat
  {
    if j == 0 then i else n + Block(j - 1, i, n)
  }

  lemma {:induction false} BlocksIsProduct(m: nat, n: nat)
    ensures Blocks(m, n) == m * n
  {
    if m > 0 {
      BlocksIsProduct(m - 1, n);
      assert m * n == n + (m - 1) * n;
    }
  }

  lemma {:induction false} BlockIsProduct(j: nat, i: nat, n: nat)
    ensures Block(j, i, n) == j * n + i
  {
    if j > 0 {
      BlockIsProduct(j - 1, i, n);
      assert j * n == n + (j - 1) * n;
    }
  }

  /** The long rows for the columns at positions `cols`, column-major. */
  function MeltColumns<I, V>(w: Wide<I, V>, cols: seq<nat>): (r: seq<LongRow<I, V>>)
    requires WellFormed(w)
    requires forall j :: 0 <= j < |cols| ==> cols[j] < |w.columns|
    ensures |r| == Blocks(|cols|, |w.rows|)
  {
    if cols == [] then [] else MeltColumn(w.columns, w.rows, cols[0]) + MeltColumns(w, cols[1..])
  }

  /** Every long row's `variable` names one of the melted columns. */
  lemma {:induction false} MeltColumnsVariables<I, V>(w: Wide<I, V>, cols: seq<nat>)
    requires WellFormed(w)
    requires forall j :: 0 <= j < |cols| ==> cols[j] < |w.columns|
    ensures forall k :: 0 <= k < |MeltColumns(w, cols)| ==> MeltColumns(w, cols)[k].variable in ColumnNames(w.columns, cols)
  {
    if cols != [] {
      var first, rest := MeltColumn(w.columns, w.rows, cols[0]), MeltColumns(w, cols[1..]);
      var names, names' := ColumnNames(w.columns, cols), ColumnNames(w.columns, cols[1..]);
      MeltColumnsVariables(w, cols[1..]);
      assert MeltColumns(w, cols) == first + rest;
      var all: seq<LongRow<I, V>> := first + rest;
      forall k | 0 <= k < |all| ensures all[k].variable in names {
        if k < |first| {
          assert first[k].variable == names[0];
        } else {
          assert all[k] == rest[k - |first|];
          var j :| 0 <= j < |names'| && names'[j] == rest[k - |first|].variable;
          assert names[j + 1] == names'[j];
        }
      }
    }
  }

  /** Row `Block(j, i, n)` of the column-major result is input row `i` met with column `cols[j]`. */
  lemma {:induction false} MeltColumnsAt<I, V>(w: Wide<I, V>, cols: seq<nat>, j: nat, i: nat)
    requires WellFormed(w)
    requires forall j :: 0 <= j < |cols| ==> cols[j] < |w.columns|
    requires j < |cols| && i < |w.rows|
    ensures Block(j, i, |w.rows|) < |MeltColumns(w, cols)|
    ensures MeltColumns(w, cols)[Block(j, i, |w.rows|)] ==
      LongRow(w.rows[i].id, w.columns[cols[j]], w.rows[i].cells[cols[j]])
  {
    var first := MeltColumn(w.columns, w.rows, cols[0]);
    var rest := MeltColumns(w, cols[1..]);
    assert MeltColumns(w, cols) == first + rest;
    if j > 0 {
      MeltColumnsAt(w, cols[1..], j - 1, i);
      assert Block(j, i, |w.rows|) == |first| + Block(j - 1, i, |w.rows|);
      assert cols[1..][j - 1] == cols[j];
    }
  }

  /**
    `melt`: one row per (value column, input row), column-major. The output has
    (value columns) x (input rows) rows.
  */
  function Melt<I, V>(w: Wide<I, V>, isValue: string -> bool): (r: seq<LongRow<I, V>>)
    requires WellFormed(w)
    ensures |r| == Blocks(|Seqs.Filter(isValue, w.columns)|, |w.rows|)
  {
    MeltColumns(w, ValueColumns(w.columns, isValue))
  }

  /** Every long row's `variable` is the name of a value column. */
  lemma MeltVariables<I, V>(w: Wide<I, V>, isValue: string -> bool)
    requires WellFormed(w)
    ensures forall k :: 0 <= k < |Melt(w, isValue)| ==> Melt(w, isValue)[k].variable in Seqs.Filter(isValue, w.columns)
  {
    ValueColumnNamesAll(w.columns, isValue);
    MeltColumnsVariables(w, ValueColumns(w.columns, isValue));
    assert ColumnNames(w.columns, ValueColumns(w.columns, isValue)) == Seqs.Filter(isValue, w.columns);
  }

  /**
    Row `Block(j, i, n)`, that is `j * n + i`, of the melt carries input row `i`'s identifier, the name of the
    `j`-th value column and, unchanged, the cell where the two meet.
  */
  lemma MeltAt<I, V>(w: Wide<I, V>, isValue: string -> bool, j: nat, i: nat)
    requires WellFormed(w)
    requires j < |Seqs.Filter(isValue, w.columns)| && i < |w.rows|
    ensures Block(j, i, |w.rows|) < |Melt(w, isValue)|
    ensures Melt(w, isValue)[Block(j, i, |w.rows|)] ==
      LongRow(w.rows[i].id, Seqs.Filter(isValue, w.columns)[j],
              w.rows[i].cells[ValueColumns(w.columns, isValue)[j]])
  {
    MeltColumnsAt(w, ValueColumns(w.columns, isValue), j, i);
    ValueColumnNames(w.columns, isValue, j);
  }

  /** The number of long rows whose value satisfies `q`. */
  function CountValues<I, V>(q: V -> bool, s: seq<LongRow<I, V>>): nat
  {
    if s == [] then 0 else (if q(s[0].value) then 1 else 0) + CountValues(q, s[1..])
  }

  /** The number of rows whose cell at position `c` satisfies `q`. */
  function ColumnCount<I, V>(q: V -> bool, rows: seq<WideRow<I, V>>, c: nat): nat
    requires forall i :: 0 <= i < |rows| ==> c < |rows[i].cells|
  {
    if rows == [] then 0 else (if q(rows[0].cells[c]) then 1 else 0) + ColumnCount(q, rows[1..], c)
  }

  /** The number of cells in the columns at positions `cols` that satisfy `q`. */
  function CellCount<I, V>(q: V -> bool, w: Wide<I, V>, cols: seq<nat>): nat
    requires WellFormed(w)
    requires forall j :: 0 <= j < |cols| ==> cols[j] < |w.columns|
  {
    if cols == [] then 0 else ColumnCount(q, w.rows, cols[0]) + CellCount(q, w, cols[1..])
  }

  lemma {:induction false} CountValuesAppend<I, V>(q: V -> bool, a: seq<LongRow<I, V>>, b: seq<LongRow<I, V>>)
    ensures CountValues(q, a + b) == CountValues(q, a) + CountValues(q, b)
  {
    if a == [] {
      assert a + b == b;
    } else {
      assert (a + b)[0] == a[0];
      assert (a + b)[1..] == a[1..] + b;
      CountValuesAppend(q, a[1..], b);
    }
  }

  lemma {:induction false} MeltColumnCount<I, V>(q: V -> bool, columns: seq<string>, rows: seq<WideRow<I, V>>, c: nat)
    requires c < |columns|
    requires forall i :: 0 <= i < |rows| ==> |rows[i].cells| == |columns|
    ensures CountValues(q, MeltColumn(columns, rows, c)) == ColumnCount(q, rows, c)
  {
    if rows != [] {
      MeltColumnCount(q, columns, rows[1..], c);
      CountValuesAppend(q, [LongRow(rows[0].id, columns[c], rows[0].cells[c])], MeltColumn(columns, rows[1..], c));
    }
  }

  /** Reshaping neither adds nor loses a cell: as many long rows satisfy `q` as cells of the value columns do. */
  lemma {:induction false} MeltColumnsCount<I, V>(q: V -> bool, w: Wide<I, V>, cols: seq<nat>)
    requires WellFormed(w)
    requires forall j :: 0 <= j < |cols| ==> cols[j] < |w.columns|
    ensures CountValues(q, MeltColumns(w, cols)) == CellCount(q, w, cols)
  {
    if cols != [] {
      MeltColumnCount(q, w.columns, w.rows, cols[0]);
      MeltColumnsCount(q, w, cols[1..]);
      CountValuesAppend(q, MeltColumn(w.columns, w.rows, cols[0]), MeltColumns(w, cols[1..]));
    }
  }
}
