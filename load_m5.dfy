/**
  The M5 loader: melt the sales table over its `d_*` columns, then left-merge the
  calendar on `d` and the sell prices on (`store_id`, `item_id`, `wm_yr_wk`).
*/
module LoadM5 {
  import opened Wrappers
  import Seqs
  import Melt
  import Merge

  /** The six identifier columns of the sales table: `id`, `item_id`, `dept_id`, `cat_id`, `store_id`, `state_id`. */
  datatype SalesIds = SalesIds(id: string, itemId: string, deptId: string, catId: string,
                               storeId: string, stateId: string)

  /** A row of the long sales table: the six identifiers, the day code `d` and the unit `sales`. */
  datatype SalesLong = SalesLong(ids: SalesIds, d: string, sales: int)

  /**
    A calendar row: its day code, date and week key; the remaining calendar columns
    (weekday, month, events, SNAP flags, ...) are carried along as `attributes`.
  */
  datatype CalendarRow = CalendarRow(d: string, date: string, wmYrWk: int, attributes: seq<string>)

  /** A sell-price row. */
  datatype PriceRow = PriceRow(storeId: string, itemId: string, wmYrWk: int, sellPrice: real)

  /** A row of the final table: the sale with its calendar and price columns, each possibly missing. */
  datatype M5Row = M5Row(sale: SalesLong, calendar: Option<CalendarRow>, price: Option<PriceRow>)

  /** The value columns of the sales table are those starting with `d_`. */
  predicate IsDayColumn(c: string)
  {
    |c| >= 2 && c[0] == 'd' && c[1] == '_'
  }

  /** Name the melted columns: `var_name="d"`, `value_name="sales"`. */
  function ToSales(ms: seq<Melt.LongRow<SalesIds, int>>): (r: seq<SalesLong>)
    ensures |r| == |ms|
    ensures forall k :: 0 <= k < |ms| ==> r[k] == SalesLong(ms[k].id, ms[k].variable, ms[k].value)
  {
    if ms == [] then [] else [SalesLong(ms[0].id, ms[0].variable, ms[0].value)] + ToSales(ms[1..])
  }

  /**
    `melt_sales`: (sales rows) x (`d_` columns) long rows, column-major; `MeltSalesAt`
    gives each row.
  */
  function MeltSales(sales: Melt.Wide<SalesIds, int>): (r: seq<SalesLong>)
    requires Melt.WellFormed(sales)
    ensures |r| == Melt.Blocks(|Seqs.Filter(IsDayColumn, sales.columns)|, |sales.rows|)
  {
    ToSales(Melt.Melt(sales, IsDayColumn))
  }

  /**
    Row `Block(j, i, n)`, that is `j * n + i`, of the long sales table carries sales row
    `i`'s six identifiers unchanged, the name of the `j`-th `d_` column as `d` and that
    cell as `sales`.
  */
  lemma MeltSalesAt(sales: Melt.Wide<SalesIds, int>, j: nat, i: nat)
    requires Melt.WellFormed(sales)
    requires j < |Seqs.Filter(IsDayColumn, sales.columns)| && i < |sales.rows|
    ensures Melt.Block(j, i, |sales.rows|) < |MeltSales(sales)|
    ensures MeltSales(sales)[Melt.Block(j, i, |sales.rows|)] ==
      SalesLong(sales.rows[i].id, Seqs.Filter(IsDayColumn, sales.columns)[j],
                sales.rows[i].cells[Melt.ValueColumns(sales.columns, IsDayColumn)[j]])
  {
    Melt.MeltAt(sales, IsDayColumn, j, i);
  }

  function SaleDay(s: SalesLong): string
  {
    s.d
  }

  function CalendarDay(c: CalendarRow): string
  {
    c.d
  }

  /**
    `sales_long.merge(calendar, on="d", how="left")`: no sales row is lost; a joined
    calendar row has the sale's `d`, and the calendar columns are missing only when no
    calendar row has it.
  */
  function MergeCalendar(long: seq<SalesLong>, calendar: seq<CalendarRow>): (r: seq<Merge.Joined<SalesLong, CalendarRow>>)
    ensures |r| >= |long|
    ensures forall t :: 0 <= t < |r| ==> exists i :: 0 <= i < |long| && r[t].left == long[i]
    ensures forall t :: 0 <= t < |r| && r[t].right.Some? ==>
      r[t].right.value in calendar && r[t].right.value.d == r[t].left.d
    ensures forall t, k :: 0 <= t < |r| && r[t].right.None? && 0 <= k < |calendar| ==>
      calendar[k].d != r[t].left.d
  {
    Merge.LeftMerge(long, calendar, SaleDay, CalendarDay)
  }

  /** The price key of a sale joined to its calendar row; a missing week never equals a price row's week. */
  function PriceKeyOf(x: Merge.Joined<SalesLong, CalendarRow>): (string, string, Option<int>)
  {
    (x.left.ids.storeId, x.left.ids.itemId, if x.right.Some? then Some(x.right.value.wmYrWk) else None)
  }

  function PriceKey(p: PriceRow): (string, string, Option<int>)
  {
    (p.storeId, p.itemId, Some(p.wmYrWk))
  }

  function FromJoined(x: Merge.Joined<Merge.Joined<SalesLong, CalendarRow>, PriceRow>): M5Row
  {
    M5Row(x.left.left, x.left.right, x.right)
  }

  /**
    `.merge(prices, on=["store_id", "item_id", "wm_yr_wk"], how="left")`: no row is lost;
    a joined price row has the row's store, item and calendar week, so a row without a
    calendar entry never gets a price; the price is missing only when no price row matches.
  */
  function MergePrices(withCalendar: seq<Merge.Joined<SalesLong, CalendarRow>>, prices: seq<PriceRow>): (r: seq<M5Row>)
    ensures |r| >= |withCalendar|
    ensures forall t :: 0 <= t < |r| ==>
      exists i :: 0 <= i < |withCalendar| && Merge.Joined(r[t].sale, r[t].calendar) == withCalendar[i]
    ensures forall t :: 0 <= t < |r| && r[t].price.Some? ==>
      && r[t].calendar.Some?
      && r[t].price.value in prices
      && r[t].price.value.storeId == r[t].sale.ids.storeId
      && r[t].price.value.itemId == r[t].sale.ids.itemId
      && r[t].price.value.wmYrWk == r[t].calendar.value.wmYrWk
    ensures forall t, k :: 0 <= t < |r| && r[t].price.None? && r[t].calendar.Some? && 0 <= k < |prices| ==>
      PriceKey(prices[k]) != (r[t].sale.ids.storeId, r[t].sale.ids.itemId, Some(r[t].calendar.value.wmYrWk))
  {
    var joined := Merge.LeftMerge(withCalendar, prices, PriceKeyOf, PriceKey);
    var r := seq(|joined|, t requires 0 <= t < |joined| => FromJoined(joined[t]));
    assert forall t :: 0 <= t < |r| ==> joined[t].left == Merge.Joined(r[t].sale, r[t].calendar);
    r
  }

  /** The body of `main` between reading the files and writing the result. */
  function BuildM5Long(sales: Melt.Wide<SalesIds, int>, calendar: seq<CalendarRow>, prices: seq<PriceRow>): (r: seq<M5Row>)
    requires Melt.WellFormed(sales)
    ensures |r| >= Melt.Blocks(|Seqs.Filter(IsDayColumn, sales.columns)|, |sales.rows|)
  {
    MergePrices(MergeCalendar(MeltSales(sales), calendar), prices)
  }

  /** Some output row is the calendar-joined sale `x` with a price side added. */
  predicate HasJoined(r: seq<M5Row>, x: Merge.Joined<SalesLong, CalendarRow>)
  {
    exists t :: 0 <= t < |r| && Merge.Joined(r[t].sale, r[t].calendar) == x
  }

  /** The price merge loses no row. */
  lemma MergePricesKeeps(withCalendar: seq<Merge.Joined<SalesLong, CalendarRow>>, prices: seq<PriceRow>)
    ensures forall i :: 0 <= i < |withCalendar| ==> HasJoined(MergePrices(withCalendar, prices), withCalendar[i])
  {
    var joined := Merge.LeftMerge(withCalendar, prices, PriceKeyOf, PriceKey);
    Merge.LeftMergeKeepsLeft(withCalendar, prices, PriceKeyOf, PriceKey);
    forall i | 0 <= i < |withCalendar|
      ensures HasJoined(MergePrices(withCalendar, prices), withCalendar[i])
    {
      assert Merge.HasRowFor(joined, withCalendar[i]);
      var t :| 0 <= t < |joined| && joined[t].left == withCalendar[i];
      assert MergePrices(withCalendar, prices)[t] == FromJoined(joined[t]);
    }
  }

  /** Some output row carries the sale `x`. */
  predicate HasSale(r: seq<M5Row>, x: SalesLong)
  {
    exists t :: 0 <= t < |r| && r[t].sale == x
  }

  /** Neither merge loses a sale: every melted sales row appears in the result. */
  lemma BuildM5LongKeepsSales(sales: Melt.Wide<SalesIds, int>, calendar: seq<CalendarRow>, prices: seq<PriceRow>)
    requires Melt.WellFormed(sales)
    ensures forall i :: 0 <= i < |MeltSales(sales)| ==> HasSale(BuildM5Long(sales, calendar, prices), MeltSales(sales)[i])
  {
    var long := MeltSales(sales);
    var withCalendar := Merge.LeftMerge(long, calendar, SaleDay, CalendarDay);
    var r := MergePrices(withCalendar, prices);
    assert BuildM5Long(sales, calendar, prices) == r;
    Merge.LeftMergeKeepsLeft(long, calendar, SaleDay, CalendarDay);
    MergePricesKeeps(withCalendar, prices);
    forall i | 0 <= i < |long|
      ensures HasSale(r, long[i])
    {
      assert Merge.HasRowFor(withCalendar, long[i]);
      var t1 :| 0 <= t1 < |withCalendar| && withCalendar[t1].left == long[i];
      assert HasJoined(r, withCalendar[t1]);
      var t2 :| 0 <= t2 < |r| && Merge.Joined(r[t2].sale, r[t2].calendar) == withCalendar[t1];
      assert r[t2].sale == long[i];
    }
  }

  /**
    With unique calendar days and unique price keys both merges keep the row count and
    the order of the long sales table: row `i` is sale `i` with the calendar row of its
    day and the price row of its store, item and week, each when one exists.
  */
  lemma BuildM5LongUnique(sales: Melt.Wide<SalesIds, int>, calendar: seq<CalendarRow>, prices: seq<PriceRow>)
    requires Melt.WellFormed(sales)
    requires Merge.UniqueKeys(calendar, CalendarDay)
    requires Merge.UniqueKeys(prices, PriceKey)
    ensures |BuildM5Long(sales, calendar, prices)| == |MeltSales(sales)|
    ensures forall i :: 0 <= i < |MeltSales(sales)| ==>
      var s := MeltSales(sales)[i];
      var c := Merge.Lookup(calendar, CalendarDay, s.d);
      BuildM5Long(sales, calendar, prices)[i] ==
        M5Row(s, c, if c.Some? then Merge.Lookup(prices, PriceKey, (s.ids.storeId, s.ids.itemId, Some(c.value.wmYrWk))) else None)
  {
    var long := MeltSales(sales);
    var withCalendar := MergeCalendar(long, calendar);
    Merge.LeftMergeUnique(long, calendar, SaleDay, CalendarDay);
    Merge.LeftMergeUnique(withCalendar, prices, PriceKeyOf, PriceKey);
    forall i | 0 <= i < |long| && withCalendar[i].right.None?
      ensures Merge.Lookup(prices, PriceKey, PriceKeyOf(withCalendar[i])) == None
    {
      assert forall k :: 0 <= k < |prices| ==> PriceKey(prices[k]).2.Some?;
    }
  }
}
