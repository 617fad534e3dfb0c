/**
  The M4 Daily loader: rename the identifier column, keep the sampled series, melt the
  wide table to one row per (series, time index) and left-merge the Daily metadata.
*/
module LoadM4 {
  import opened Wrappers
  import Seqs
  import Melt
  import Merge

  /** The raw file calls its identifier column `V1`; the loader renames it. */
  const RawIdColumn: string := "V1"
  const IdColumn: string := "M4id"
  const DailyPeriod: string := "Daily"

  /** A row of the M4 metadata file. */
  datatype MetaRow = MetaRow(m4id: string, category: string, frequency: int, horizon: int,
                             sp: string, startingDate: string)

  /** The Daily training table: the name of its identifier column and the wide values. */
  datatype DailyFrame = DailyFrame(idColumn: string, table: Melt.Wide<string, Option<real>>)

  /** A row of the long table: `M4id`, `value`, `time_idx`. */
  datatype LongRow = LongRow(m4id: string, value: Option<real>, timeIdx: int)

  /** A row of the processed table: the long row with the metadata merged in. */
  datatype DailyRow = DailyRow(m4id: string, value: Option<real>, timeIdx: int,
                               category: Option<string>, sp: Option<string>)

  // ---------------------------------------------------------------- loading

  /** `rename(columns={"V1": "M4id"})` on one column name. */
  function RenameColumn(c: string): (r: string)
    ensures c == RawIdColumn ==> r == IdColumn
    ensures r != RawIdColumn
    ensures c != RawIdColumn ==> r == c
  {
    if c == RawIdColumn then IdColumn else c
  }

  function RenameColumns(cols: seq<string>): (r: seq<string>)
    ensures |r| == |cols|
    ensures forall j :: 0 <= j < |cols| ==> r[j] == RenameColumn(cols[j])
  {
    seq(|cols|, j requires 0 <= j < |cols| => RenameColumn(cols[j]))
  }

  /** The selection `df["M4id"].isin(ids)`. */
  function InIds(ids: seq<string>): Melt.WideRow<string, Option<real>> -> bool
  {
    (row: Melt.WideRow<string, Option<real>>) => row.id in ids
  }

  /**
    `load_m4_daily_wide` after the file is read: rename `V1` to `M4id`; with a sampled-id
    list keep exactly the rows whose `M4id` is in it (in their order, see
    `LoadDailyWideOrder`), without one keep every row. The selection `df["M4id"]` fails
    when, after the rename, there is no `M4id` column.
  */
  function LoadDailyWide(raw: DailyFrame, sampledIds: Option<seq<string>>): (r: Option<DailyFrame>)
    ensures r.None? <==> sampledIds.Some? && RenameColumn(raw.idColumn) != IdColumn
    ensures r.Some? ==> r.value.idColumn == RenameColumn(raw.idColumn)
    ensures r.Some? ==> r.value.table.columns == RenameColumns(raw.table.columns)
    ensures r.Some? && sampledIds.None? ==> r.value.table.rows == raw.table.rows
    ensures r.Some? && sampledIds.Some? ==>
      (forall i :: 0 <= i < |r.value.table.rows| ==>
         r.value.table.rows[i] in raw.table.rows && r.value.table.rows[i].id in sampledIds.value) &&
      (forall i :: 0 <= i < |raw.table.rows| && raw.table.rows[i].id in sampledIds.value ==>
         raw.table.rows[i] in r.value.table.rows)
    ensures r.Some? && Melt.WellFormed(raw.table) ==> Melt.WellFormed(r.value.table)
  {
    if sampledIds.Some? && RenameColumn(raw.idColumn) != IdColumn then None
    else
      var rows := if sampledIds.None? then raw.table.rows
                  else Seqs.Filter(InIds(sampledIds.value), raw.table.rows);
      Some(DailyFrame(RenameColumn(raw.idColumn), Melt.Wide(RenameColumns(raw.table.columns), rows)))
  }

  /** The id filter keeps each sampled row exactly as often as it occurs, and no other row. */
  lemma LoadDailyWideMultiplicity(raw: DailyFrame, ids: seq<string>, x: Melt.WideRow<string, Option<real>>)
    requires RenameColumn(raw.idColumn) == IdColumn
    ensures multiset(LoadDailyWide(raw, Some(ids)).value.table.rows)[x] ==
      if x.id in ids then multiset(raw.table.rows)[x] else 0
  {
    Seqs.FilterMultiplicity(InIds(ids), raw.table.rows, x);
  }

  /** The id filter keeps the input order: filtering a concatenation concatenates the filtered parts. */
  lemma LoadDailyWideOrder(raw: DailyFrame, ids: seq<string>, a: seq<Melt.WideRow<string, Option<real>>>,
                           b: seq<Melt.WideRow<string, Option<real>>>)
    requires RenameColumn(raw.idColumn) == IdColumn
    requires raw.table.rows == a + b
    ensures LoadDailyWide(raw, Some(ids)).value.table.rows ==
      LoadDailyWide(DailyFrame(raw.idColumn, Melt.Wide(raw.table.columns, a)), Some(ids)).value.table.rows +
      LoadDailyWide(DailyFrame(raw.idColumn, Melt.Wide(raw.table.columns, b)), Some(ids)).value.table.rows
  {
    Seqs.FilterAppend(InIds(ids), a, b);
  }

  // ---------------------------------------------------------------- time index

  predicate IsValueColumn(c: string)
  {
    |c| >= 1 && c[0] == 'V'
  }

  predicate IsDigit(ch: char)
  {
    '0' <= ch <= '9'
  }

  /** `c[1:]` is a non-empty string of decimal digits, so that `astype(int)` succeeds. */
  predicate HasDigitSuffix(c: string)
  {
    |c| >= 2 && forall k :: 1 <= k < |c| ==> IsDigit(c[k])
  }

  function DigitValue(ch: char): (d: nat)
    requires IsDigit(ch)
    ensures d < 10
  {
    ch as int - '0' as int
  }

  /** The value of a string of decimal digits (`int(s)`). */
  function ParseDigits(s: string): (n: nat)
    requires forall k :: 0 <= k < |s| ==> IsDigit(s[k])
  {
    if s == [] then 0
    else 10 * ParseDigits(s[..|s| - 1]) + DigitValue(s[|s| - 1])
  }

  /** The decimal representation of `n`, without leading zeros. */
  function Decimal(n: nat): (s: string)
    ensures |s| >= 1 && forall k :: 0 <= k < |s| ==> IsDigit(s[k])
  {
    var d := ['0' + (n % 10) as char];
    if n < 10 then d else Decimal(n / 10) + d
  }

  /** Parsing undoes printing. */
  lemma {:induction false} ParseDecimal(n: nat)
    ensures ParseDigits(Decimal(n)) == n
  {
    var s := Decimal(n);
    if n >= 10 {
      ParseDecimal(n / 10);
      assert s[..|s| - 1] == Decimal(n / 10);
    }
  }

  /** `t.str[1:].astype(int) - 2`: column `V2` is time 0, `V3` time 1, and so on. */
  function TimeIdx(c: string): (t: int)
    requires HasDigitSuffix(c)
    ensures t >= -2
  {
    ParseDigits(c[1..]) - 2
  }

  /** The column `"V" + str(t + 2)` holds time index `t`, for every `t >= -2`. */
  lemma TimeIdxOfColumn(t: int)
    requires t >= -2
    ensures HasDigitSuffix("V" + Decimal(t + 2))
    ensures TimeIdx("V" + Decimal(t + 2)) == t
  {
    var c := "V" + Decimal(t + 2);
    assert c[1..] == Decimal(t + 2);
    ParseDecimal(t + 2);
  }

  lemma TimeIdxExamples()
    ensures TimeIdx("V2") == 0 && TimeIdx("V3") == 1 && TimeIdx("V12") == 10
  {
    assert "V2"[1..] == "2" && "V3"[1..] == "3" && "V12"[1..] == "12";
    assert "12"[..1] == "1";
  }

  // ---------------------------------------------------------------- melt

  /** Every value column can be parsed into a time index. */
  predicate ParsableColumns(cols: seq<string>)
  {
    forall j :: 0 <= j < |cols| && IsValueColumn(cols[j]) ==> HasDigitSuffix(cols[j])
  }

  /** Replace the column name `t` by its `time_idx` and drop `t`. */
  function ToLong(ms: seq<Melt.LongRow<string, Option<real>>>): (r: seq<LongRow>)
    requires forall k :: 0 <= k < |ms| ==> HasDigitSuffix(ms[k].variable)
    ensures |r| == |ms|
    ensures forall k :: 0 <= k < |ms| ==> r[k] == LongRow(ms[k].id, ms[k].value, TimeIdx(ms[k].variable))
  {
    if ms == [] then []
    else [LongRow(ms[0].id, ms[0].value, TimeIdx(ms[0].variable))] + ToLong(ms[1..])
  }

  /**
    `melt_daily_to_long`: (rows) x (columns starting with `V`) long rows, column-major
    (`MeltDailyToLongAt` gives each row). It fails, as the melt and the integer conversion
    raise, when there is no `M4id` column, or when there are rows and a `V` column's suffix
    is not a number. Without rows the melted frame is empty and the conversion has
    nothing to convert.
  */
  function MeltDailyToLong(daily: DailyFrame): (r: Option<seq<LongRow>>)
    requires Melt.WellFormed(daily.table)
    ensures r.None? <==>
      daily.idColumn != IdColumn || (|daily.table.rows| > 0 && !ParsableColumns(daily.table.columns))
    ensures r.Some? ==> |r.value| == Melt.Blocks(|Seqs.Filter(IsValueColumn, daily.table.columns)|, |daily.table.rows|)
  {
    if daily.idColumn != IdColumn || (|daily.table.rows| > 0 && !ParsableColumns(daily.table.columns)) then None
    else if daily.table.rows == [] then
      Melt.BlocksIsProduct(|Seqs.Filter(IsValueColumn, daily.table.columns)|, 0);
      Some([])
    else
      Melt.MeltVariables(daily.table, IsValueColumn);
      Some(ToLong(Melt.Melt(daily.table, IsValueColumn)))
  }

  /**
    Row `Block(j, i, n)`, that is `j * n + i`, of the long table is wide row `i`'s `M4id`
    with, unchanged, its cell in the `j`-th `V` column, and the time index parsed from
    that column's name.
  */
  lemma MeltDailyToLongAt(daily: DailyFrame, j: nat, i: nat)
    requires daily.idColumn == IdColumn
    requires Melt.WellFormed(daily.table)
    requires ParsableColumns(daily.table.columns)
    requires j < |Seqs.Filter(IsValueColumn, daily.table.columns)| && i < |daily.table.rows|
    ensures HasDigitSuffix(Seqs.Filter(IsValueColumn, daily.table.columns)[j])
    ensures MeltDailyToLong(daily).Some?
    ensures Melt.Block(j, i, |daily.table.rows|) < |MeltDailyToLong(daily).value|
    ensures MeltDailyToLong(daily).value[Melt.Block(j, i, |daily.table.rows|)] ==
      LongRow(daily.table.rows[i].id,
              daily.table.rows[i].cells[Melt.ValueColumns(daily.table.columns, IsValueColumn)[j]],
              TimeIdx(Seqs.Filter(IsValueColumn, daily.table.columns)[j]))
  {
    FilteredParsable(daily.table.columns, j);
    Melt.MeltVariables(daily.table, IsValueColumn);
    Melt.MeltAt(daily.table, IsValueColumn, j, i);
  }

  /** Each column the melt keeps has a parsable suffix. */
  lemma FilteredParsable(cols: seq<string>, j: nat)
    requires ParsableColumns(cols)
    requires j < |Seqs.Filter(IsValueColumn, cols)|
    ensures HasDigitSuffix(Seqs.Filter(IsValueColumn, cols)[j])
  {
    assert Seqs.Filter(IsValueColumn, cols)[j] in cols;
  }

  predicate IsPresent(v: Option<real>)
  {
    v.Some?
  }

  function CountPresent(rows: seq<LongRow>): nat
  {
    if rows == [] then 0 else (if rows[0].value.Some? then 1 else 0) + CountPresent(rows[1..])
  }

  lemma {:induction false} ToLongCount(ms: seq<Melt.LongRow<string, Option<real>>>)
    requires forall k :: 0 <= k < |ms| ==> HasDigitSuffix(ms[k].variable)
    ensures CountPresent(ToLong(ms)) == Melt.CountValues(IsPresent, ms)
  {
    if ms != [] {
      ToLongCount(ms[1..]);
      assert ToLong(ms)[1..] == ToLong(ms[1..]);
    }
  }

  /** The melt drops no value: as many long rows have a value as the `V` columns have non-missing cells. */
  lemma MeltKeepsPresentValues(daily: DailyFrame)
    requires daily.idColumn == IdColumn
    requires Melt.WellFormed(daily.table)
    requires ParsableColumns(daily.table.columns)
    ensures MeltDailyToLong(daily).Some?
    ensures CountPresent(MeltDailyToLong(daily).value) ==
      Melt.CellCount(IsPresent, daily.table, Melt.ValueColumns(daily.table.columns, IsValueColumn))
  {
    var ms := Melt.Melt(daily.table, IsValueColumn);
    Melt.MeltVariables(daily.table, IsValueColumn);
    ToLongCount(ms);
    Melt.MeltColumnsCount(IsPresent, daily.table, Melt.ValueColumns(daily.table.columns, IsValueColumn));
  }

  // ---------------------------------------------------------------- metadata merge

  predicate IsDaily(m: MetaRow)
  {
    m.sp == DailyPeriod
  }

  /** `info[info["SP"] == "Daily"]`: exactly the Daily metadata rows, in order. */
  function DailyInfo(info: seq<MetaRow>): (r: seq<MetaRow>)
    ensures forall k :: 0 <= k < |r| ==> r[k] in info && r[k].sp == DailyPeriod
    ensures forall k :: 0 <= k < |info| && info[k].sp == DailyPeriod ==> info[k] in r
  {
    Seqs.Filter(IsDaily, info)
  }

  /** Each Daily metadata row is kept exactly as often as it occurs, and no other row. */
  lemma DailyInfoMultiplicity(info: seq<MetaRow>, m: MetaRow)
    ensures multiset(DailyInfo(info))[m] == if m.sp == DailyPeriod then multiset(info)[m] else 0
  {
    Seqs.FilterMultiplicity(IsDaily, info, m);
  }

  function LongKey(l: LongRow): string
  {
    l.m4id
  }

  function MetaKey(m: MetaRow): string
  {
    m.m4id
  }

  /** One merged row; only `category` and `SP` of the metadata are kept. */
  function FromJoined(x: Merge.Joined<LongRow, MetaRow>): DailyRow
  {
    DailyRow(x.left.m4id, x.left.value, x.left.timeIdx,
             if x.right.Some? then Some(x.right.value.category) else None,
             if x.right.Some? then Some(x.right.value.sp) else None)
  }

  /**
    `long_df.merge(info_daily[["M4id", "category", "SP"]], on="M4id", how="left")`.
    Every output row is a long row; its `category` and `SP` come from a metadata row
    with its `M4id`, or are missing exactly when no such metadata row exists.
  */
  function MergeInfo(long: seq<LongRow>, infoDaily: seq<MetaRow>): (r: seq<DailyRow>)
    ensures |r| >= |long|
    ensures forall t :: 0 <= t < |r| ==>
      exists i :: 0 <= i < |long| && long[i] == LongRow(r[t].m4id, r[t].value, r[t].timeIdx)
    ensures forall t :: 0 <= t < |r| ==> (r[t].category.Some? <==> r[t].sp.Some?)
    ensures forall t :: 0 <= t < |r| && r[t].category.Some? ==>
      MetaRowWith(infoDaily, r[t].m4id, r[t].category.value, r[t].sp.value)
    ensures forall t, k :: 0 <= t < |r| && r[t].category.None? && 0 <= k < |infoDaily| ==>
      infoDaily[k].m4id != r[t].m4id
  {
    var joined := Merge.LeftMerge(long, infoDaily, LongKey, MetaKey);
    var r := seq(|joined|, t requires 0 <= t < |joined| => FromJoined(joined[t]));
    assert forall t :: 0 <= t < |r| ==> joined[t].left == LongRow(r[t].m4id, r[t].value, r[t].timeIdx);
    r
  }

  /** Some processed row is the long row `l` with metadata added. */
  predicate HasLongRow(r: seq<DailyRow>, l: LongRow)
  {
    exists t :: 0 <= t < |r| && LongRow(r[t].m4id, r[t].value, r[t].timeIdx) == l
  }

  /** No long row is lost by the metadata merge. */
  lemma MergeInfoKeepsLong(long: seq<LongRow>, infoDaily: seq<MetaRow>)
    ensures forall i :: 0 <= i < |long| ==> HasLongRow(MergeInfo(long, infoDaily), long[i])
  {
    var joined := Merge.LeftMerge(long, infoDaily, LongKey, MetaKey);
    Merge.LeftMergeKeepsLeft(long, infoDaily, LongKey, MetaKey);
    forall i | 0 <= i < |long|
      ensures HasLongRow(MergeInfo(long, infoDaily), long[i])
    {
      assert Merge.HasRowFor(joined, long[i]);
      var t :| 0 <= t < |joined| && joined[t].left == long[i];
      assert MergeInfo(long, infoDaily)[t] == FromJoined(joined[t]);
    }
  }

  /** Some metadata row has this id, category and sampling period. */
  predicate MetaRowWith(info: seq<MetaRow>, id: string, category: string, sp: string)
  {
    exists k :: 0 <= k < |info| && info[k].m4id == id && info[k].category == category && info[k].sp == sp
  }

  /** No two metadata rows share an `M4id`. */
  predicate UniqueIds(info: seq<MetaRow>)
  {
    Merge.UniqueKeys(info, MetaKey)
  }

  /** Renaming `V1` to `M4id` neither makes nor removes an unparsable `V` column. */
  lemma RenameKeepsParsable(cols: seq<string>)
    ensures ParsableColumns(RenameColumns(cols)) <==> ParsableColumns(cols)
  {
    if !ParsableColumns(cols) {
      var j :| 0 <= j < |cols| && IsValueColumn(cols[j]) && !HasDigitSuffix(cols[j]);
      assert RenameColumns(cols)[j] == cols[j];
    }
  }

  /** Some wide row belongs to a sampled series. */
  predicate AnySampled(raw: DailyFrame, sampledIds: seq<string>)
  {
    exists i :: 0 <= i < |raw.table.rows| && raw.table.rows[i].id in sampledIds
  }

  /**
    `build_processed_daily_table`, with the sampler's result passed in as `sampledIds`:
    `None` when the id filter or the melt fails, that is when the renamed table has no
    `M4id` column, or when some sampled series is present and a `V` column is unparsable.
  */
  function BuildProcessedDailyTable(info: seq<MetaRow>, raw: DailyFrame, sampledIds: seq<string>): (r: Option<seq<DailyRow>>)
    requires Melt.WellFormed(raw.table)
    ensures r.None? <==>
      RenameColumn(raw.idColumn) != IdColumn ||
      (AnySampled(raw, sampledIds) && !ParsableColumns(raw.table.columns))
  {
    RenameKeepsParsable(raw.table.columns);
    match LoadDailyWide(raw, Some(sampledIds))
    case None => None
    case Some(wide) =>
      SampledRowsPresent(raw, sampledIds);
      match MeltDailyToLong(wide)
      case None => None
      case Some(long) => Some(MergeInfo(long, DailyInfo(info)))
  }

  /** The id filter keeps some row exactly when some row belongs to a sampled series. */
  lemma SampledRowsPresent(raw: DailyFrame, sampledIds: seq<string>)
    requires RenameColumn(raw.idColumn) == IdColumn
    ensures |LoadDailyWide(raw, Some(sampledIds)).value.table.rows| > 0 <==> AnySampled(raw, sampledIds)
  {
    var rows := LoadDailyWide(raw, Some(sampledIds)).value.table.rows;
    if |rows| > 0 {
      var i :| 0 <= i < |raw.table.rows| && raw.table.rows[i] == rows[0];
    }
    if AnySampled(raw, sampledIds) {
      var i :| 0 <= i < |raw.table.rows| && raw.table.rows[i].id in sampledIds;
      assert raw.table.rows[i] in rows;
    }
  }

  /**
    Only Daily metadata takes part in the merge: a row's `SP` is `"Daily"` or missing, a
    category comes from a Daily metadata row of the same series, and it is missing only
    when the series has no Daily metadata row.
  */
  lemma BuildUsesDailyMetadataOnly(info: seq<MetaRow>, raw: DailyFrame, sampledIds: seq<string>)
    requires Melt.WellFormed(raw.table)
    ensures BuildProcessedDailyTable(info, raw, sampledIds).Some? ==>
      var r := BuildProcessedDailyTable(info, raw, sampledIds).value;
      && (forall t :: 0 <= t < |r| && r[t].sp.Some? ==> r[t].sp.value == DailyPeriod)
      && (forall t :: 0 <= t < |r| && r[t].category.Some? ==>
            MetaRowWith(info, r[t].m4id, r[t].category.value, DailyPeriod))
      && (forall t, k :: 0 <= t < |r| && r[t].category.None? && 0 <= k < |info| && info[k].sp == DailyPeriod ==>
            info[k].m4id != r[t].m4id)
  {
    var wide := LoadDailyWide(raw, Some(sampledIds));
    if wide.Some? {
      var long := MeltDailyToLong(wide.value);
      if long.Some? {
        MergeUsesDailyMetadataOnly(long.value, info);
      }
    }
  }

  lemma MergeUsesDailyMetadataOnly(long: seq<LongRow>, info: seq<MetaRow>)
    ensures var r := MergeInfo(long, DailyInfo(info));
      && (forall t :: 0 <= t < |r| && r[t].sp.Some? ==> r[t].sp.value == DailyPeriod)
      && (forall t :: 0 <= t < |r| && r[t].category.Some? ==>
            MetaRowWith(info, r[t].m4id, r[t].category.value, DailyPeriod))
      && (forall t, k :: 0 <= t < |r| && r[t].category.None? && 0 <= k < |info| && info[k].sp == DailyPeriod ==>
            info[k].m4id != r[t].m4id)
  {
    var infoDaily := DailyInfo(info);
    var r := MergeInfo(long, infoDaily);
    forall t | 0 <= t < |r| && r[t].category.Some?
      ensures r[t].sp == Some(DailyPeriod)
      ensures MetaRowWith(info, r[t].m4id, r[t].category.value, DailyPeriod)
    {
      var k :| 0 <= k < |infoDaily| && infoDaily[k].m4id == r[t].m4id &&
               infoDaily[k].category == r[t].category.value && infoDaily[k].sp == r[t].sp.value;
      var k' :| 0 <= k' < |info| && info[k'] == infoDaily[k];
    }
    forall t, k | 0 <= t < |r| && r[t].category.None? && 0 <= k < |info| && info[k].sp == DailyPeriod
      ensures info[k].m4id != r[t].m4id
    {
      var k' :| 0 <= k' < |infoDaily| && infoDaily[k'] == info[k];
    }
  }

  /**
    With `M4id` unique among the Daily metadata rows the merge keeps the row count and
    the order of the long table, and gives each row its series' category.
  */
  lemma MergeInfoUnique(long: seq<LongRow>, infoDaily: seq<MetaRow>)
    requires UniqueIds(infoDaily)
    ensures |MergeInfo(long, infoDaily)| == |long|
    ensures forall i :: 0 <= i < |long| ==>
      var m := Merge.Lookup(infoDaily, MetaKey, long[i].m4id);
      MergeInfo(long, infoDaily)[i] ==
        DailyRow(long[i].m4id, long[i].value, long[i].timeIdx,
                 if m.Some? then Some(m.value.category) else None,
                 if m.Some? then Some(m.value.sp) else None)
  {
    Merge.LeftMergeUnique(long, infoDaily, LongKey, MetaKey);
  }
}
