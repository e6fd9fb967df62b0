/** The transform stage (transform_data, process_all_files): a year table is melted into
    one row per (row, hour column), each hour label becomes an offset added to the date,
    and the long table is pivoted back to one row per (station, county, region, time)
    with one column per measured quantity, keeping the first value of each cell. */
module Transform {
  import opened Wrappers
  import opened Frames
  import opened YearLayout

  // ---------------------------------------------------------------------------------
  // Line 21: data["日期"] = pd.to_datetime(data["日期"])

  /** A date cell that `to_datetime` accepts: missing (it stays NaT) or parseable.
      `parse` stands for pandas' date parsing and yields a day number. */
  predicate Parses<M>(v: Option<Cell<M>>, parse: Cell<M> -> Option<int>) {
    v.None? || parse(v.value).Some?
  }

  /** The day of a date cell; a missing cell is NaT. */
  function DayOf<M>(v: Option<Cell<M>>, parse: Cell<M> -> Option<int>): Option<int> {
    if v.None? then None else parse(v.value)
  }

  /** The first row at or after `from` whose date `to_datetime` rejects. */
  function FirstBadDate<M>(rows: seq<Row<M>>, parse: Cell<M> -> Option<int>, from: nat): (b: Option<nat>)
    requires from <= |rows|
    requires forall i :: 0 <= i < |rows| ==> Date in rows[i]
    ensures b.Some? ==> from <= b.value < |rows| && !Parses(rows[b.value][Date], parse) &&
                        forall i :: from <= i < b.value ==> Parses(rows[i][Date], parse)
    ensures b.None? ==> forall i :: from <= i < |rows| ==> Parses(rows[i][Date], parse)
    decreases |rows| - from
  {
    if from == |rows| then None
    else if !Parses(rows[from][Date], parse) then Some(from)
    else FirstBadDate(rows, parse, from + 1)
  }

  /** The date column as day numbers, one per row; a table without the date column, or
      with a date that does not parse, raises. The first rejected row is reported. */
  function Days<M>(f: Frame<M>, parse: Cell<M> -> Option<int>): (r: Result<seq<Option<int>>, Error>)
    requires WellFormed(f)
    ensures Date !in f.columns ==> r == Err(MissingColumn(Date))
    ensures Date in f.columns ==> (r.Ok? <==> forall i :: 0 <= i < |f.rows| ==> Parses(f.rows[i][Date], parse))
    ensures Date in f.columns && r.Err? ==>
      && r.error.BadDate? && r.error.row < |f.rows| && !Parses(f.rows[r.error.row][Date], parse)
      && forall i :: 0 <= i < r.error.row ==> Parses(f.rows[i][Date], parse)
    ensures r.Ok? ==> |r.value| == |f.rows|
    ensures r.Ok? ==> forall i :: 0 <= i < |f.rows| ==> r.value[i] == DayOf(f.rows[i][Date], parse)
  {
    if Date !in f.columns then Err(MissingColumn(Date))
    else
      var bad := FirstBadDate(f.rows, parse, 0);
      if bad.Some? then Err(BadDate(bad.value))
      else Ok(seq(|f.rows|, i requires 0 <= i < |f.rows| => DayOf(f.rows[i][Date], parse)))
  }

  // ---------------------------------------------------------------------------------
  // Lines 24-29: pd.melt(data, id_vars=[...], var_name="小時", value_name="測量值")

  /** A row of `data_long`: the five id values (the date as a day number), the hour
      label (小時) and the measured value (測量值). */
  datatype LongRow<M> = LongRow(
    station: Option<Cell<M>>, county: Option<Cell<M>>, region: Option<Cell<M>>,
    day: Option<int>, quantity: Option<Cell<M>>, hour: Column, value: Option<Cell<M>>)

  /** The columns melt turns into rows: every column that is not an id column, in order. */
  function ValueColumns(cols: seq<Column>): (vc: seq<Column>)
    ensures ColumnSet(vc) == ColumnSet(cols) - ColumnSet(KeyColumns)
    ensures Distinct(cols) ==> Distinct(vc)
  {
    Except(cols, ColumnSet(KeyColumns))
  }

  /** The long row of input row `i` and value column `c`. */
  function LongOf<M>(f: Frame<M>, days: seq<Option<int>>, i: nat, c: Column): (l: LongRow<M>)
    requires WellFormed(f) && |days| == |f.rows| && i < |f.rows|
    requires (forall k :: k in KeyColumns ==> k in f.columns) && c in f.columns
  {
    var row := f.rows[i];
    LongRow(row[Station], row[County], row[AirRegion], days[i], row[Quantity], c, row[c])
  }

  /** The length of `m` blocks of `n` rows, counted block by block: `m * n` (see
      BlocksProduct), written so that positions in the melted table stay linear. */
  function Blocks(m: nat, n: nat): nat {
    if m == 0 then 0 else Blocks(m - 1, n) + n
  }

  lemma {:induction false} BlocksProduct(m: nat, n: nat)
    ensures Blocks(m, n) == m * n
  {
    if m > 0 {
      BlocksProduct(m - 1, n);
      assert m * n == (m - 1) * n + n;
    }
  }

  /** Offset `i` of an earlier block `h` lies within the first `m` blocks. */
  lemma {:induction false} BlockBelow(h: nat, m: nat, n: nat, i: nat)
    requires h < m && i < n
    ensures Blocks(h, n) + i < Blocks(m, n)
  {
    if h < m - 1 {
      BlockBelow(h, m - 1, n, i);
    }
  }

  /** The value column (by position) and the input row a long row is melted from. */
  datatype Spot = Spot(block: nat, row: nat)

  /** The order melt emits its rows in: `m` value columns one after another, each over
      all `n` input rows in order (LayoutAt). */
  function Layout(m: nat, n: nat): (spots: seq<Spot>)
    ensures |spots| == Blocks(m, n)
    ensures forall k :: 0 <= k < |spots| ==> spots[k].block < m && spots[k].row < n
  {
    if m == 0 then []
    else Layout(m - 1, n) + seq(n, i requires 0 <= i < n => Spot(m - 1, i))
  }

  /** Block `h` of the layout is value column `h` over every row, row `i` at offset `i`. */
  lemma {:induction false} LayoutAt(m: nat, n: nat, h: nat, i: nat)
    requires h < m && i < n
    ensures Blocks(h, n) + i < |Layout(m, n)| && Layout(m, n)[Blocks(h, n) + i] == Spot(h, i)
  {
    var p := Layout(m - 1, n);
    assert Layout(m, n) == p + seq(n, i requires 0 <= i < n => Spot(m - 1, i));
    if h < m - 1 {
      LayoutAt(m - 1, n, h, i);
      BlockBelow(h, m - 1, n, i);
    } else {
      assert Blocks(h, n) == |p|;
    }
  }

  /** The long rows of the value columns `vc`, in the order of their layout. */
  function MeltRows<M>(f: Frame<M>, days: seq<Option<int>>, vc: seq<Column>): (long: seq<LongRow<M>>)
    requires WellFormed(f) && |days| == |f.rows|
    requires forall k :: k in KeyColumns ==> k in f.columns
    requires forall c :: c in vc ==> c in f.columns
    ensures |long| == Blocks(|vc|, |f.rows|)
  {
    var spots := Layout(|vc|, |f.rows|);
    seq(|spots|, k requires 0 <= k < |spots| => LongOf(f, days, spots[k].row, vc[spots[k].block]))
  }

  lemma MeltRowsAt<M>(f: Frame<M>, days: seq<Option<int>>, vc: seq<Column>, h: nat, i: nat)
    requires WellFormed(f) && |days| == |f.rows|
    requires forall k :: k in KeyColumns ==> k in f.columns
    requires forall c :: c in vc ==> c in f.columns
    requires h < |vc| && i < |f.rows|
    ensures Blocks(h, |f.rows|) + i < |MeltRows(f, days, vc)|
    ensures MeltRows(f, days, vc)[Blocks(h, |f.rows|) + i] == LongOf(f, days, i, vc[h])
  {
    var n := |f.rows|;
    var x := Blocks(h, n) + i;
    LayoutAt(|vc|, n, h, i);
    var spots := Layout(|vc|, n);
    assert spots[x] == Spot(h, i);
    var long := MeltRows(f, days, vc);
    assert long[x] == LongOf(f, days, spots[x].row, vc[spots[x].block]);
  }

  /** Melt: one long row per (value column, input row), the value columns outermost and
      the rows in order within each (MeltAt); a missing id column raises. */
  function Melt<M>(f: Frame<M>, days: seq<Option<int>>): (r: Result<seq<LongRow<M>>, Error>)
    requires WellFormed(f) && |days| == |f.rows|
    ensures r.Ok? <==> forall k :: k in KeyColumns ==> k in f.columns
    ensures r.Err? ==> r.error.MissingColumn? && r.error.name in KeyColumns && r.error.name !in f.columns
    ensures r.Ok? ==> |r.value| == Blocks(|ValueColumns(f.columns)|, |f.rows|)
  {
    var missing := FirstMissing(KeyColumns, f.columns);
    if missing.Some? then Err(MissingColumn(missing.value))
    else
      var vc := ValueColumns(f.columns);
      assert forall c :: c in vc ==> c in f.columns by {
        forall c | c in vc ensures c in f.columns { assert c in ColumnSet(vc); }
      }
      Ok(MeltRows(f, days, vc))
  }

  /** Block `h` of the long table is value column `h` melted over the rows in order: its
      row `i` carries input row `i`'s id values, its date as a day, the column's label and
      the row's cell under it. */
  lemma MeltAt<M>(f: Frame<M>, days: seq<Option<int>>, h: nat, i: nat)
    requires WellFormed(f) && |days| == |f.rows|
    requires Melt(f, days).Ok? && h < |ValueColumns(f.columns)| && i < |f.rows|
    ensures var c := ValueColumns(f.columns)[h];
      && c in f.columns && c !in KeyColumns
      && Blocks(h, |f.rows|) + i < |Melt(f, days).value|
      && Melt(f, days).value[Blocks(h, |f.rows|) + i] == LongOf(f, days, i, c)
  {
    var vc := ValueColumns(f.columns);
    assert vc[h] in ColumnSet(vc);
    assert forall c :: c in vc ==> c in f.columns by {
      forall c | c in vc ensures c in f.columns { assert c in ColumnSet(vc); }
    }
    assert Melt(f, days).value == MeltRows(f, days, vc);
    MeltRowsAt(f, days, vc, h, i);
  }

  /** The long table has |value columns| * |rows| rows. */
  lemma MeltSize<M>(f: Frame<M>, days: seq<Option<int>>)
    requires WellFormed(f) && |days| == |f.rows| && Melt(f, days).Ok?
    ensures |Melt(f, days).value| == |ValueColumns(f.columns)| * |f.rows|
  {
    BlocksProduct(|ValueColumns(f.columns)|, |f.rows|);
  }

  /** Conversely, every long row `k` is row `i` of some block `h`: it comes from input row
      `i` and value column `h`. */
  lemma MeltRowOrigin<M>(f: Frame<M>, days: seq<Option<int>>, k: nat) returns (h: nat, i: nat)
    requires WellFormed(f) && |days| == |f.rows|
    requires Melt(f, days).Ok? && k < |Melt(f, days).value|
    ensures h < |ValueColumns(f.columns)| && i < |f.rows| && k == Blocks(h, |f.rows|) + i
    ensures var c := ValueColumns(f.columns)[h];
      && c in f.columns && c !in KeyColumns
      && Melt(f, days).value[k] == LongOf(f, days, i, c)
  {
    h, i := BlockOf(k, |ValueColumns(f.columns)|, |f.rows|);
    MeltAt(f, days, h, i);
  }

  // ---------------------------------------------------------------------------------
  // Lines 32-33: the hour label as an offset, added to the date

  predicate IsDigits(s: string) {
    |s| > 0 && forall k :: 0 <= k < |s| ==> '0' <= s[k] <= '9'
  }

  /** The decimal value of a digit string. */
  function DecimalValue(s: string): (v: nat)
    requires forall k :: 0 <= k < |s| ==> '0' <= s[k] <= '9'
  {
    if s == [] then 0
    else DecimalValue(s[..|s| - 1]) * 10 + (s[|s| - 1] as int - '0' as int)
  }

  /** `pd.to_timedelta(name + ":00:00")` in hours: a column name of decimal digits is that
      many hours; any other name does not parse. */
  function HourOffset(name: Column): (r: Option<nat>)
    ensures r.Some? <==> IsDigits(name)
  {
    if IsDigits(name) then Some(DecimalValue(name)) else None
  }

  /** The hour columns the merge stage writes parse back to their hour: "HH" is HH hours. */
  lemma HourOffsetOfHourLabel(h: nat)
    requires h < 24
    ensures HourOffset(HourLabel(h)) == Some(h)
  {
    var c := HourLabel(h);
    assert IsDigits(c);
    assert c[..1][..0] == [];
    assert DecimalValue(c[..1]) == c[0] as int - '0' as int;
    assert c[..|c| - 1] == c[..1];
  }

  /** The date plus the offset, counted in hours from day 0; NaT plus an offset is NaT. */
  function Timestamp(day: Option<int>, hours: nat): (t: Option<int>)
    ensures t.Some? <==> day.Some?
    ensures t.Some? && hours < 24 ==> t.value / 24 == day.value && t.value % 24 == hours
  {
    if day.None? then None else Some(day.value * 24 + hours)
  }

  /** A time within the day identifies both the day and the hour: distinct hours of one
      day, and distinct days, give distinct times. */
  lemma TimestampInjective(d1: int, h1: nat, d2: int, h2: nat)
    requires h1 < 24 && h2 < 24
    ensures Timestamp(Some(d1), h1) == Timestamp(Some(d2), h2) <==> d1 == d2 && h1 == h2
  {
    var t1, t2 := Timestamp(Some(d1), h1), Timestamp(Some(d2), h2);
    if t1 == t2 {
      assert d1 == t1.value / 24 == t2.value / 24 == d2;
    }
  }

  /** A row of `data_long` after line 36: the hour column is gone, its offset is in the time. */
  datatype Measurement<M> = Measurement(
    station: Option<Cell<M>>, county: Option<Cell<M>>, region: Option<Cell<M>>,
    stamp: Option<int>, quantity: Option<Cell<M>>, value: Option<Cell<M>>)

  /** The first long row at or after `from` whose hour label does not parse. */
  function FirstBadHour<M>(long: seq<LongRow<M>>, from: nat): (b: Option<nat>)
    requires from <= |long|
    ensures b.Some? ==> from <= b.value < |long| && HourOffset(long[b.value].hour).None? &&
                        forall k :: from <= k < b.value ==> HourOffset(long[k].hour).Some?
    ensures b.None? ==> forall k :: from <= k < |long| ==> HourOffset(long[k].hour).Some?
    decreases |long| - from
  {
    if from == |long| then None
    else if HourOffset(long[from].hour).None? then Some(from)
    else FirstBadHour(long, from + 1)
  }

  /** Lines 32-36: every long row gets its time, date plus hour offset, in place of its
      date and hour; an hour label that does not parse raises. */
  function Stamp<M>(long: seq<LongRow<M>>): (r: Result<seq<Measurement<M>>, Error>)
    ensures r.Ok? <==> forall k :: 0 <= k < |long| ==> HourOffset(long[k].hour).Some?
    ensures r.Err? ==> r.error.BadHourLabel? && !IsDigits(r.error.hour)
    ensures r.Err? ==> exists k :: 0 <= k < |long| && long[k].hour == r.error.hour
    ensures r.Ok? ==> |r.value| == |long| && forall k :: 0 <= k < |long| ==>
      var l := long[k];
      r.value[k] == Measurement(l.station, l.county, l.region,
                                Timestamp(l.day, HourOffset(l.hour).value), l.quantity, l.value)
  {
    var bad := FirstBadHour(long, 0);
    if bad.Some? then Err(BadHourLabel(long[bad.value].hour))
    else Ok(seq(|long|, k requires 0 <= k < |long| =>
      var l := long[k];
      Measurement(l.station, l.county, l.region, Timestamp(l.day, HourOffset(l.hour).value), l.quantity, l.value)))
  }

  // ---------------------------------------------------------------------------------
  // Lines 37-45: pivot_table(index=[測站, 縣市, 空管區, 日期], columns="測項",
  //                          values="測量值", aggfunc="first"), then reset_index

  /** An index key of the pivot: station, county, region and time, all present. */
  datatype Key<M> = Key(station: Cell<M>, county: Cell<M>, region: Cell<M>, stamp: int)

  /** A pivot row: its key, and one cell per quantity column. */
  datatype WideRow<M(==)> = WideRow(key: Key<M>, values: map<Cell<M>, Option<Cell<M>>>)

  /** The pivoted table: after `reset_index`, its columns are the four key columns
      followed by one column per quantity in `quantities`. */
  datatype Wide<M(==)> = Wide(quantities: seq<Cell<M>>, rows: seq<WideRow<M>>)

  /** A long row takes part in the pivot when its index values and its quantity are all
      present: grouping drops rows with a missing key. */
  predicate Grouped<M>(m: Measurement<M>) {
    m.station.Some? && m.county.Some? && m.region.Some? && m.stamp.Some? && m.quantity.Some?
  }

  function KeyOf<M>(m: Measurement<M>): Key<M>
    requires Grouped(m)
  {
    Key(m.station.value, m.county.value, m.region.value, m.stamp.value)
  }

  /** A long row that survives `pivot_table`'s `dropna`: grouped, with a present value.
      The groups left after `agged.dropna(how="all")` are those with such a row, so a key
      or a quantity all of whose values are missing gets no row or column. */
  predicate Present<M>(m: Measurement<M>) {
    Grouped(m) && m.value.Some?
  }

  /** The distinct keys of the long rows with a present value, in order of first appearance. */
  function Keys<M(==)>(ms: seq<Measurement<M>>): (ks: seq<Key<M>>)
    ensures Distinct(ks) && |ks| <= |ms|
    ensures forall k :: 0 <= k < |ms| && Present(ms[k]) ==> KeyOf(ms[k]) in ks
  {
    if ms == [] then []
    else
      var n := |ms| - 1;
      var p := Keys(ms[..n]);
      assert forall k :: 0 <= k < n ==> ms[..n][k] == ms[k];
      if Present(ms[n]) && KeyOf(ms[n]) !in p then
        DistinctAppend(p, [KeyOf(ms[n])]);
        p + [KeyOf(ms[n])]
      else p
  }

  /** The distinct quantities of the long rows with a present value, in order of first
      appearance. */
  function Quantities<M(==)>(ms: seq<Measurement<M>>): (qs: seq<Cell<M>>)
    ensures Distinct(qs) && |qs| <= |ms|
    ensures forall k :: 0 <= k < |ms| && Present(ms[k]) ==> ms[k].quantity.value in qs
  {
    if ms == [] then []
    else
      var n := |ms| - 1;
      var p := Quantities(ms[..n]);
      assert forall k :: 0 <= k < n ==> ms[..n][k] == ms[k];
      if Present(ms[n]) && ms[n].quantity.value !in p then
        DistinctAppend(p, [ms[n].quantity.value]);
        p + [ms[n].quantity.value]
      else p
  }

  /** Every key listed is the key of some long row with a present value. */
  lemma {:induction false} KeysFromRows<M>(ms: seq<Measurement<M>>)
    ensures forall key :: key in Keys(ms) ==> exists k :: 0 <= k < |ms| && Present(ms[k]) && KeyOf(ms[k]) == key
  {
    if ms != [] {
      var n := |ms| - 1;
      KeysFromRows(ms[..n]);
      assert forall k :: 0 <= k < n ==> ms[..n][k] == ms[k];
    }
  }

  /** Every quantity listed is the quantity of some long row with a present value. */
  lemma {:induction false} QuantitiesFromRows<M>(ms: seq<Measurement<M>>)
    ensures forall q :: q in Quantities(ms) ==> exists k :: 0 <= k < |ms| && Present(ms[k]) && ms[k].quantity.value == q
  {
    if ms != [] {
      var n := |ms| - 1;
      QuantitiesFromRows(ms[..n]);
      assert forall k :: 0 <= k < n ==> ms[..n][k] == ms[k];
    }
  }

  /** Long row `m` belongs to the pivot cell of `key` and quantity `q`. */
  predicate InCell<M(==)>(m: Measurement<M>, key: Key<M>, q: Cell<M>) {
    Grouped(m) && KeyOf(m) == key && m.quantity.value == q
  }

  /** `aggfunc="first"`: the first present value, in long-table order, among the rows of
      the cell; missing when all of them are missing. */
  function FirstValue<M(==)>(ms: seq<Measurement<M>>, key: Key<M>, q: Cell<M>): (v: Option<Cell<M>>)
    ensures v.None? <==> forall k :: 0 <= k < |ms| && InCell(ms[k], key, q) ==> ms[k].value.None?
    ensures v.Some? ==> exists k :: 0 <= k < |ms| && InCell(ms[k], key, q) && ms[k].value == v &&
                          forall j :: 0 <= j < k && InCell(ms[j], key, q) ==> ms[j].value.None?
  {
    if ms == [] then None
    else if InCell(ms[0], key, q) && ms[0].value.Some? then ms[0].value
    else
      var v := FirstValue(ms[1..], key, q);
      assert forall k :: 1 <= k < |ms| ==> ms[1..][k - 1] == ms[k];
      assert v.Some? ==> exists k :: 0 <= k < |ms| && InCell(ms[k], key, q) && ms[k].value == v &&
                            forall j :: 0 <= j < k && InCell(ms[j], key, q) ==> ms[j].value.None? by {
      if v.Some? {
        var k :| 0 <= k < |ms[1..]| && InCell(ms[1..][k], key, q) && ms[1..][k].value == v &&
                 forall j :: 0 <= j < k && InCell(ms[1..][j], key, q) ==> ms[1..][j].value.None?;
        assert InCell(ms[k + 1], key, q) && ms[k + 1].value == v;
        assert forall j :: 0 <= j < k + 1 && InCell(ms[j], key, q) ==> ms[j].value.None? by {
          forall j | 0 <= j < k + 1 && InCell(ms[j], key, q) ensures ms[j].value.None? {
            if j > 0 { assert ms[1..][j - 1] == ms[j]; }
          }
        }
      }
      }
      v
  }

  /** The cells of the pivot row of `key`: one per quantity of `qs`, each the first value
      of that key and quantity. */
  function PivotCellsOf<M(==)>(ms: seq<Measurement<M>>, key: Key<M>, qs: seq<Cell<M>>): (cells: map<Cell<M>, Option<Cell<M>>>)
    ensures cells.Keys == set q | q in qs
    ensures forall q :: q in qs ==> cells[q] == FirstValue(ms, key, q)
  {
    map q | q in qs :: FirstValue(ms, key, q)
  }

  /** The pivot: one row per key that has a present value, in order of first appearance,
      and one column per quantity that has one; each cell is the first value of its key
      and quantity, missing when there is none. */
  function Pivot<M(==)>(ms: seq<Measurement<M>>): (w: Wide<M>)
    ensures w.quantities == Quantities(ms) && |w.rows| == |Keys(ms)|
    ensures forall j :: 0 <= j < |w.rows| ==> w.rows[j].key == Keys(ms)[j]
    ensures forall j :: 0 <= j < |w.rows| ==> w.rows[j].values == PivotCellsOf(ms, w.rows[j].key, w.quantities)
  {
    var ks, qs := Keys(ms), Quantities(ms);
    Wide(qs, seq(|ks|, j requires 0 <= j < |ks| => WideRow(ks[j], PivotCellsOf(ms, ks[j], qs))))
  }

  /** First wins: when long row `k` is the first of its cell with a present value, the
      cell holds that value, whatever the later rows of the cell hold. */
  lemma FirstValueIsFirst<M>(ms: seq<Measurement<M>>, key: Key<M>, q: Cell<M>, k: nat)
    requires k < |ms| && InCell(ms[k], key, q) && ms[k].value.Some?
    requires forall j :: 0 <= j < k && InCell(ms[j], key, q) ==> ms[j].value.None?
    ensures FirstValue(ms, key, q) == ms[k].value
  {
    var v := FirstValue(ms, key, q);
    var k' :| 0 <= k' < |ms| && InCell(ms[k'], key, q) && ms[k'].value == v &&
              forall j :: 0 <= j < k' && InCell(ms[j], key, q) ==> ms[j].value.None?;
    assert k' == k;
  }

  /** A long row with a present value has the pivot row of its key, with a present cell
      for its quantity holding the first value of that key and quantity. */
  lemma PivotRowOfCell<M>(ms: seq<Measurement<M>>, x: nat) returns (j: nat)
    requires x < |ms| && Present(ms[x])
    ensures var w, q := Pivot(ms), ms[x].quantity.value;
      && j < |w.rows| && w.rows[j].key == KeyOf(ms[x]) && q in w.rows[j].values
      && w.rows[j].values[q] == FirstValue(ms, KeyOf(ms[x]), q)
      && w.rows[j].values[q].Some?
  {
    var w, ks, q := Pivot(ms), Keys(ms), ms[x].quantity.value;
    j :| 0 <= j < |ks| && ks[j] == KeyOf(ms[x]);
    assert w.rows[j].key == ks[j];
    assert q in w.quantities;
    assert w.rows[j].values == PivotCellsOf(ms, KeyOf(ms[x]), w.quantities);
    assert InCell(ms[x], KeyOf(ms[x]), q);
  }

  /** At most one pivot row per key, and no more rows than long rows. */
  lemma PivotKeysUnique<M>(ms: seq<Measurement<M>>)
    ensures |Pivot(ms).rows| <= |ms|
    ensures forall j1, j2 :: 0 <= j1 < j2 < |Pivot(ms).rows| ==> Pivot(ms).rows[j1].key != Pivot(ms).rows[j2].key
  {
    var w, ks := Pivot(ms), Keys(ms);
    assert forall j :: 0 <= j < |w.rows| ==> w.rows[j].key == ks[j];
  }

  /** Every long row with a present value has the pivot row of its key. */
  lemma PivotHasKey<M>(ms: seq<Measurement<M>>, k: nat)
    requires k < |ms| && Present(ms[k])
    ensures exists j :: 0 <= j < |Pivot(ms).rows| && Pivot(ms).rows[j].key == KeyOf(ms[k])
  {
    var ks := Keys(ms);
    var j :| 0 <= j < |ks| && ks[j] == KeyOf(ms[k]);
    assert Pivot(ms).rows[j].key == ks[j];
  }

  /** Every pivot row's key is the key of some long row with a present value: a key
      whose values are all missing has no row. */
  lemma PivotKeyFromLong<M>(ms: seq<Measurement<M>>, j: nat)
    requires j < |Pivot(ms).rows|
    ensures exists k :: 0 <= k < |ms| && Present(ms[k]) && KeyOf(ms[k]) == Pivot(ms).rows[j].key
  {
    var ks := Keys(ms);
    KeysFromRows(ms);
    assert ks[j] in ks;
    var k :| 0 <= k < |ms| && Present(ms[k]) && KeyOf(ms[k]) == ks[j];
    assert Pivot(ms).rows[j].key == ks[j];
  }

  /** The quantity columns are distinct and are exactly the quantities of the long rows
      with a present value: a quantity whose values are all missing has no column. */
  lemma PivotQuantities<M>(ms: seq<Measurement<M>>)
    ensures var w := Pivot(ms);
      && Distinct(w.quantities)
      && (forall k :: 0 <= k < |ms| && Present(ms[k]) ==> ms[k].quantity.value in w.quantities)
      && (forall q :: q in w.quantities ==> exists k :: 0 <= k < |ms| && Present(ms[k]) && ms[k].quantity.value == q)
  {
    QuantitiesFromRows(ms);
  }

  /** Every cell is the first present value of its key and quantity in long-table order,
      nothing aggregated: it is missing exactly when all those values are, and otherwise
      it is the value of the first row that has one. */
  lemma PivotCells<M>(ms: seq<Measurement<M>>, j: nat, q: Cell<M>)
    requires j < |Pivot(ms).rows| && q in Pivot(ms).quantities
    ensures var row := Pivot(ms).rows[j];
      && q in row.values
      && (row.values[q].None? <==> forall k :: 0 <= k < |ms| && InCell(ms[k], row.key, q) ==> ms[k].value.None?)
      && (row.values[q].Some? ==> exists k :: 0 <= k < |ms| && InCell(ms[k], row.key, q) && ms[k].value == row.values[q] &&
                                   forall i :: 0 <= i < k && InCell(ms[i], row.key, q) ==> ms[i].value.None?)
  {
    var row := Pivot(ms).rows[j];
    assert row.values[q] == FirstValue(ms, row.key, q);
  }

  // ---------------------------------------------------------------------------------
  // transform_data, lines 18-47

  /** transform_data on a table already read: dates, melt, times, pivot. */
  function TransformTable<M(==)>(f: Frame<M>, parse: Cell<M> -> Option<int>): (r: Result<Wide<M>, Error>)
    requires WellFormed(f)
    ensures Date !in f.columns ==> r == Err(MissingColumn(Date))
    ensures r.Ok? ==> |r.value.rows| <= |ValueColumns(f.columns)| * |f.rows|
  {
    var days := Days(f, parse);
    if days.Err? then Err(days.error)
    else
      var long := Melt(f, days.value);
      if long.Err? then Err(long.error)
      else
        var ms := Stamp(long.value);
        if ms.Err? then Err(ms.error)
        else
          MeltSize(f, days.value);
          PivotKeysUnique(ms.value);
          Ok(Pivot(ms.value))
  }

  /** A table that transforms has its dates parsed, melts, gets its times, and its
      result is the pivot of the timed long rows. */
  lemma TransformTableStages<M>(f: Frame<M>, parse: Cell<M> -> Option<int>)
    requires WellFormed(f) && TransformTable(f, parse).Ok?
    ensures Days(f, parse).Ok? && |Days(f, parse).value| == |f.rows|
    ensures Melt(f, Days(f, parse).value).Ok?
    ensures Stamp(Melt(f, Days(f, parse).value).value).Ok?
    ensures TransformTable(f, parse).value == Pivot(Stamp(Melt(f, Days(f, parse).value).value).value)
  {
  }

  /** On any table that transforms, a present value in a value column `c` of a row with
      all its index values and a parseable date gives the result a row for (station,
      county, region, date plus `c` hours) with a present cell for the row's quantity;
      in particular the result is not empty. */
  lemma TransformTableKeepsReading<M>(f: Frame<M>, parse: Cell<M> -> Option<int>, i: nat, c: Column)
    requires WellFormed(f) && TransformTable(f, parse).Ok? && i < |f.rows|
    requires c in ValueColumns(f.columns) && c in f.rows[i] && f.rows[i][c].Some?
    requires Indexed(f.rows[i], parse)
    ensures HourOffset(c).Some?
    ensures var w, row := TransformTable(f, parse).value, f.rows[i];
      var key := Key(row[Station].value, row[County].value, row[AirRegion].value,
                     DayOf(row[Date], parse).value * 24 + HourOffset(c).value);
      && |w.rows| > 0
      && exists j :: 0 <= j < |w.rows| && w.rows[j].key == key && row[Quantity].value in w.rows[j].values &&
           w.rows[j].values[row[Quantity].value].Some?
  {
    TransformTableStages(f, parse);
    var days := Days(f, parse).value;
    var ms := Stamp(Melt(f, days).value).value;
    var vc := ValueColumns(f.columns);
    var h :| 0 <= h < |vc| && vc[h] == c;
    var x := StampedAt(f, days, h, i);
    assert days[i] == DayOf(f.rows[i][Date], parse);
    var j := PivotRowOfCell(ms, x);
  }

  /** The timed long row of value column `h` and input row `i`: the row's index values,
      its date plus the column's hours, and its cell in that column. */
  lemma StampedAt<M>(f: Frame<M>, days: seq<Option<int>>, h: nat, i: nat) returns (x: nat)
    requires WellFormed(f) && |days| == |f.rows| && Melt(f, days).Ok? && Stamp(Melt(f, days).value).Ok?
    requires h < |ValueColumns(f.columns)| && i < |f.rows|
    ensures var c, row, ms := ValueColumns(f.columns)[h], f.rows[i], Stamp(Melt(f, days).value).value;
      && HasIndexColumns(row) && c in row && HourOffset(c).Some? && x < |ms|
      && ms[x] == Measurement(row[Station], row[County], row[AirRegion],
                              Timestamp(days[i], HourOffset(c).value), row[Quantity], row[c])
  {
    var long := Melt(f, days).value;
    MeltAt(f, days, h, i);
    x := Blocks(h, |f.rows|) + i;
    StampOf(long, x);
    assert f.rows[i].Keys == ColumnSet(f.columns);
  }

  /** Timed long row `x` is long row `x` with its date and hour made one time. */
  lemma StampOf<M>(long: seq<LongRow<M>>, x: nat)
    requires Stamp(long).Ok? && x < |long|
    ensures HourOffset(long[x].hour).Some? && x < |Stamp(long).value|
    ensures var l := long[x];
      Stamp(long).value[x] == Measurement(l.station, l.county, l.region,
                                          Timestamp(l.day, HourOffset(l.hour).value), l.quantity, l.value)
  {
  }

  // ---------------------------------------------------------------------------------
  // transform_data on a year table written by the merge stage

  lemma {:induction false} ExceptSuffix(a: seq<Column>, b: seq<Column>, drop: set<Column>)
    requires forall x :: x in a ==> x in drop
    requires forall x :: x in b ==> x !in drop
    ensures Except(a + b, drop) == b
  {
    if b == [] {
      assert a + b == a;
      EmptyColumnSet(Except(a, drop));
    } else {
      var n := |b| - 1;
      assert (a + b)[..|a| + n] == a + b[..n];
      ExceptSuffix(a, b[..n], drop);
      assert b == b[..n] + [b[n]];
    }
  }

  /** The value columns of a merged year table are its 24 hour columns, in order. */
  lemma MergedValueColumns()
    ensures ValueColumns(OutputColumns()) == HourLabels()
  {
    var cs := OutputColumns();
    assert cs == KeyColumns + HourLabels();
    forall x | x in HourLabels() ensures x !in ColumnSet(KeyColumns) {
      var h :| 0 <= h < 24 && HourLabels()[h] == x;
      assert cs[5 + h] == x;
    }
    ExceptSuffix(KeyColumns, HourLabels(), ColumnSet(KeyColumns));
  }

  lemma MergedKeyColumns<M>(f: Frame<M>)
    requires f.columns == OutputColumns()
    ensures forall k :: k in KeyColumns ==> k in f.columns
  {
    forall k | k in KeyColumns ensures k in f.columns {
      var j :| 0 <= j < 5 && KeyColumns[j] == k;
      assert f.columns[j] == k;
    }
  }

  /** Melting a merged year table succeeds, and every hour label it produces parses. */
  lemma MergedMeltStamps<M>(f: Frame<M>, days: seq<Option<int>>)
    requires WellFormed(f) && f.columns == OutputColumns() && |days| == |f.rows|
    ensures Melt(f, days).Ok? && Stamp(Melt(f, days).value).Ok?
    ensures |Melt(f, days).value| == 24 * |f.rows|
  {
    MergedValueColumns();
    MergedKeyColumns(f);
    var long := Melt(f, days).value;
    MeltSize(f, days);
    forall k | 0 <= k < |long| ensures HourOffset(long[k].hour).Some? {
      MergedLongHour(f, days, k);
    }
  }

  /** The hour label of every long row is one of the value columns. */
  lemma MeltRowHour<M>(f: Frame<M>, days: seq<Option<int>>, k: nat)
    requires WellFormed(f) && |days| == |f.rows|
    requires Melt(f, days).Ok? && k < |Melt(f, days).value|
    ensures Melt(f, days).value[k].hour in ValueColumns(f.columns)
  {
    var h, i := MeltRowOrigin(f, days, k);
  }

  /** Every long row of a merged year table carries one of the 24 hour labels. */
  lemma MergedLongHour<M>(f: Frame<M>, days: seq<Option<int>>, k: nat)
    requires WellFormed(f) && f.columns == OutputColumns() && |days| == |f.rows|
    requires Melt(f, days).Ok? && k < |Melt(f, days).value|
    ensures HourOffset(Melt(f, days).value[k].hour).Some?
  {
    MergedValueColumns();
    MeltRowHour(f, days, k);
    var c := Melt(f, days).value[k].hour;
    var h :| 0 <= h < 24 && HourLabels()[h] == c;
    HourOffsetOfHourLabel(h);
  }

  /** On a merged year table the melted and timed rows are, for hour column `h` and
      row `i`, that row's station, county, region and quantity, the time `h` hours into
      its day, and its cell under `"hh"`. */
  lemma MergedStampAt<M>(f: Frame<M>, days: seq<Option<int>>, h: nat, i: nat)
    requires WellFormed(f) && f.columns == OutputColumns() && |days| == |f.rows|
    requires h < 24 && i < |f.rows|
    ensures Melt(f, days).Ok? && Stamp(Melt(f, days).value).Ok?
    ensures HasIndexColumns(f.rows[i]) && HourLabel(h) in f.rows[i]
    ensures var ms := Stamp(Melt(f, days).value).value;
      var row := f.rows[i];
      && |ms| == Blocks(24, |f.rows|)
      && Blocks(h, |f.rows|) + i < |ms|
      && ms[Blocks(h, |f.rows|) + i] ==
           Measurement(row[Station], row[County], row[AirRegion], Timestamp(days[i], h), row[Quantity], row[HourLabel(h)])
  {
    MergedRowColumns(f);
    MergedMeltStamps(f, days);
    MergedValueColumns();
    MeltAt(f, days, h, i);
    HourOffsetOfHourLabel(h);
  }

  /** A merged year table transforms without error exactly when every date parses, and
      gives at most 24 rows per input row. */
  lemma TransformMergedTable<M>(f: Frame<M>, parse: Cell<M> -> Option<int>)
    requires WellFormed(f) && f.columns == OutputColumns()
    ensures TransformTable(f, parse).Ok? <==> forall i :: 0 <= i < |f.rows| ==> Parses(f.rows[i][Date], parse)
    ensures TransformTable(f, parse).Ok? ==> |TransformTable(f, parse).value.rows| <= 24 * |f.rows|
  {
    MergedValueColumns();
    assert Date == OutputColumns()[3];
    var days := Days(f, parse);
    if days.Ok? {
      MergedMeltStamps(f, days.value);
    }
  }

  /** Position `k` among `m` blocks of `n` lies at offset `i` of block `h`. */
  lemma {:induction false} BlockOf(k: nat, m: nat, n: nat) returns (h: nat, i: nat)
    requires k < Blocks(m, n)
    ensures h < m && i < n && k == Blocks(h, n) + i
  {
    if k < Blocks(m - 1, n) {
      h, i := BlockOf(k, m - 1, n);
    } else {
      h, i := m - 1, k - Blocks(m - 1, n);
    }
  }

  /** Long row `k` of a merged year table comes from hour column `h` of row `i`, where
      `k` is position `i` of block `h`. */
  lemma MergedOrigin<M>(f: Frame<M>, days: seq<Option<int>>, k: nat) returns (h: nat, i: nat)
    requires WellFormed(f) && f.columns == OutputColumns() && |days| == |f.rows|
    requires k < Blocks(24, |f.rows|)
    ensures Melt(f, days).Ok? && Stamp(Melt(f, days).value).Ok?
    ensures h < 24 && i < |f.rows| && k == Blocks(h, |f.rows|) + i
    ensures HasIndexColumns(f.rows[i]) && HourLabel(h) in f.rows[i]
    ensures var ms := Stamp(Melt(f, days).value).value;
      var row := f.rows[i];
      && k < |ms|
      && ms[k] == Measurement(row[Station], row[County], row[AirRegion], Timestamp(days[i], h), row[Quantity], row[HourLabel(h)])
  {
    h, i := BlockOf(k, 24, |f.rows|);
    MergedStampAt(f, days, h, i);
    ghost var ms := Stamp(Melt(f, days).value).value;
    assert ms[k] == ms[Blocks(h, |f.rows|) + i];
  }

  /** Every row of a merged year table has the key columns and the 24 hour columns. */
  lemma MergedRowColumns<M>(f: Frame<M>)
    requires WellFormed(f) && f.columns == OutputColumns()
    ensures forall i :: 0 <= i < |f.rows| ==> HasIndexColumns(f.rows[i])
    ensures forall i, h :: 0 <= i < |f.rows| && 0 <= h < 24 ==> HourLabel(h) in f.rows[i]
  {
    var cs := OutputColumns();
    assert cs[0] == Station && cs[1] == County && cs[2] == AirRegion && cs[3] == Date && cs[4] == Quantity;
    assert forall h :: 0 <= h < 24 ==> cs[5 + h] == HourLabel(h);
  }

  /** The row has the four index columns and the quantity column. */
  predicate HasIndexColumns<M>(row: Row<M>) {
    Station in row && County in row && AirRegion in row && Date in row && Quantity in row
  }

  /** The row has a value for hour `h`. */
  predicate Reading<M>(row: Row<M>, h: nat)
    requires h < 24
  {
    HourLabel(h) in row && row[HourLabel(h)].Some?
  }

  /** The row has every index value of the pivot: station, county, region, quantity and
      a date that parses. */
  predicate Indexed<M>(row: Row<M>, parse: Cell<M> -> Option<int>) {
    && HasIndexColumns(row)
    && row[Station].Some? && row[County].Some? && row[AirRegion].Some? && row[Quantity].Some?
    && DayOf(row[Date], parse).Some?
  }

  /** Two rows describe the same station, county, region, day and quantity. */
  predicate SameSlot<M(==)>(a: Row<M>, b: Row<M>, parse: Cell<M> -> Option<int>) {
    && HasIndexColumns(a) && HasIndexColumns(b)
    && a[Station] == b[Station] && a[County] == b[County] && a[AirRegion] == b[AirRegion]
    && a[Quantity] == b[Quantity] && DayOf(a[Date], parse) == DayOf(b[Date], parse)
  }

  /** The pivot key that hour `h` of an indexed row goes to. */
  function SlotKey<M>(row: Row<M>, parse: Cell<M> -> Option<int>, h: nat): Key<M>
    requires Indexed(row, parse)
  {
    Key(row[Station].value, row[County].value, row[AirRegion].value, DayOf(row[Date], parse).value * 24 + h)
  }

  /** No row before `i` of the same slot has a value for hour column `c`. */
  predicate FirstOfSlot<M(==)>(f: Frame<M>, parse: Cell<M> -> Option<int>, c: Column, i: nat)
    requires i < |f.rows|
  {
    forall i' :: 0 <= i' < i && SameSlot(f.rows[i'], f.rows[i], parse) && c in f.rows[i'] ==>
      f.rows[i'][c].None?
  }

  /** Two times given as day and hour within the day are equal only for the same hour. */
  lemma SameStampSameHour(d1: Option<int>, h1: nat, d2: Option<int>, h2: nat)
    requires h1 < 24 && h2 < 24 && d2.Some?
    requires Timestamp(d1, h1) == Some(d2.value * 24 + h2)
    ensures d1 == d2 && h1 == h2
  {
    TimestampInjective(d1.value, h1, d2.value, h2);
  }

  /** A long row built from hour `h'` of row `i'` that falls in the cell of hour `h` of
      row `i` comes from the same hour of a row of the same slot. */
  lemma SameCellSameSlot<M>(f: Frame<M>, parse: Cell<M> -> Option<int>, m: Measurement<M>, h: nat, i: nat, h': nat, i': nat)
    requires h < 24 && h' < 24 && i < |f.rows| && i' < |f.rows|
    requires Indexed(f.rows[i], parse) && HasIndexColumns(f.rows[i']) && HourLabel(h') in f.rows[i']
    requires var row := f.rows[i'];
      m == Measurement(row[Station], row[County], row[AirRegion], Timestamp(DayOf(row[Date], parse), h'),
                       row[Quantity], row[HourLabel(h')])
    requires InCell(m, SlotKey(f.rows[i], parse, h), f.rows[i][Quantity].value)
    ensures h' == h && SameSlot(f.rows[i'], f.rows[i], parse)
  {
    var key := SlotKey(f.rows[i], parse, h);
    assert m.stamp == Some(key.stamp);
    SameStampSameHour(DayOf(f.rows[i'][Date], parse), h', DayOf(f.rows[i][Date], parse), h);
  }

  /** A long row before position `i` of block `h` in the cell of hour `h` of row `i`
      comes from an earlier row `e` of the same slot, at the same hour. */
  lemma EarlierInCell<M>(f: Frame<M>, parse: Cell<M> -> Option<int>, days: seq<Option<int>>, ms: seq<Measurement<M>>,
                         h: nat, i: nat, k: nat) returns (e: nat)
    requires WellFormed(f) && f.columns == OutputColumns()
    requires Days(f, parse) == Ok(days) && Melt(f, days).Ok? && Stamp(Melt(f, days).value) == Ok(ms)
    requires h < 24 && i < |f.rows| && Indexed(f.rows[i], parse)
    requires k < Blocks(h, |f.rows|) + i && k < |ms|
    requires InCell(ms[k], SlotKey(f.rows[i], parse, h), f.rows[i][Quantity].value)
    ensures e < i && SameSlot(f.rows[e], f.rows[i], parse)
    ensures HourLabel(h) in f.rows[e] && ms[k].value == f.rows[e][HourLabel(h)]
  {
    MergedRowColumns(f);
    BlockBelow(h, 24, |f.rows|, i);
    var h', i' := MergedOrigin(f, days, k);
    assert days[i'] == DayOf(f.rows[i'][Date], parse);
    SameCellSameSlot(f, parse, ms[k], h, i, h', i');
    e := i';
  }

  /** When no earlier row of its slot has a value at hour `h`, no long row before hour
      `h` of row `i` in the same cell has a value. */
  lemma NoEarlierValue<M>(f: Frame<M>, parse: Cell<M> -> Option<int>, days: seq<Option<int>>, ms: seq<Measurement<M>>,
                          h: nat, i: nat)
    requires WellFormed(f) && f.columns == OutputColumns()
    requires Days(f, parse) == Ok(days) && Melt(f, days).Ok? && Stamp(Melt(f, days).value) == Ok(ms)
    requires h < 24 && i < |f.rows| && Indexed(f.rows[i], parse) && FirstOfSlot(f, parse, HourLabel(h), i)
    ensures forall k ::
      && 0 <= k < Blocks(h, |f.rows|) + i && k < |ms|
      && InCell(ms[k], SlotKey(f.rows[i], parse, h), f.rows[i][Quantity].value)
      ==> ms[k].value.None?
  {
    var key, q := SlotKey(f.rows[i], parse, h), f.rows[i][Quantity].value;
    forall k | 0 <= k < Blocks(h, |f.rows|) + i && k < |ms| && InCell(ms[k], key, q) ensures ms[k].value.None? {
      var e := EarlierInCell(f, parse, days, ms, h, i, k);
      assert f.rows[e][HourLabel(h)].None?;
    }
  }

  /** Hour `h` of row `i` of merged year table `f` is long row `Blocks(h, n) + i` of `ms`,
      timed `h` hours into the row's day. */
  ghost predicate LongSlot<M>(f: Frame<M>, parse: Cell<M> -> Option<int>, ms: seq<Measurement<M>>, h: nat, i: nat)
    requires h < 24 && i < |f.rows|
  {
    var row := f.rows[i];
    && Blocks(h, |f.rows|) + i < |ms|
    && HasIndexColumns(row) && HourLabel(h) in row
    && ms[Blocks(h, |f.rows|) + i] == Measurement(row[Station], row[County], row[AirRegion],
         Timestamp(DayOf(row[Date], parse), h), row[Quantity], row[HourLabel(h)])
  }

  /** `ms` is the long form of merged year table `f`: every hour of every row is in its slot. */
  ghost predicate LongForm<M>(f: Frame<M>, parse: Cell<M> -> Option<int>, ms: seq<Measurement<M>>) {
    forall h: nat, i: nat :: h < 24 && i < |f.rows| ==> LongSlot(f, parse, ms, h, i)
  }

  /** Hour `h` of row `i` of a merged year table is long row `Blocks(h, n) + i`, timed
      `h` hours into the row's day. */
  lemma MergedSlotStamp<M>(f: Frame<M>, parse: Cell<M> -> Option<int>, days: seq<Option<int>>, h: nat, i: nat)
    requires WellFormed(f) && f.columns == OutputColumns() && Days(f, parse) == Ok(days)
    requires h < 24 && i < |f.rows|
    ensures Melt(f, days).Ok? && Stamp(Melt(f, days).value).Ok?
    ensures LongSlot(f, parse, Stamp(Melt(f, days).value).value, h, i)
  {
    MergedRowColumns(f);
    MergedStampAt(f, days, h, i);
    assert days[i] == DayOf(f.rows[i][Date], parse);
  }

  /** The melted and stamped rows of a merged year table are its long form. */
  lemma MergedLongForm<M>(f: Frame<M>, parse: Cell<M> -> Option<int>, days: seq<Option<int>>)
    requires WellFormed(f) && f.columns == OutputColumns() && Days(f, parse) == Ok(days)
    ensures Melt(f, days).Ok? && Stamp(Melt(f, days).value).Ok?
    ensures LongForm(f, parse, Stamp(Melt(f, days).value).value)
  {
    MergedMeltStamps(f, days);
    forall h, i | 0 <= h < 24 && 0 <= i < |f.rows| {
      MergedSlotStamp(f, parse, days, h, i);
    }
  }

  /** A long row taken from hour `h` of an indexed row lies in the cell of the row's slot
      key and quantity; when no long row before it in that cell has a value and it has
      one, that value is the first of the cell. */
  lemma SlotFirstValue<M>(row: Row<M>, parse: Cell<M> -> Option<int>, h: nat, ms: seq<Measurement<M>>, x: nat)
    requires h < 24 && Indexed(row, parse) && HourLabel(h) in row && x < |ms|
    requires ms[x] == Measurement(row[Station], row[County], row[AirRegion],
      Some(DayOf(row[Date], parse).value * 24 + h), row[Quantity], row[HourLabel(h)])
    ensures InCell(ms[x], SlotKey(row, parse, h), row[Quantity].value)
    ensures
      && row[HourLabel(h)].Some?
      && (forall k :: 0 <= k < x && InCell(ms[k], SlotKey(row, parse, h), row[Quantity].value) ==> ms[k].value.None?)
      ==> FirstValue(ms, SlotKey(row, parse, h), row[Quantity].value) == row[HourLabel(h)]
  {
    var key, q := SlotKey(row, parse, h), row[Quantity].value;
    assert ms[x].stamp == Some(key.stamp);
    if row[HourLabel(h)].Some? && forall k :: 0 <= k < x && InCell(ms[k], key, q) ==> ms[k].value.None? {
      FirstValueIsFirst(ms, key, q, x);
    }
  }

  /** In the long form, a reading for hour `h` of indexed row `i` gives the pivot row of
      its slot key a present cell for its quantity; when no long row before it in that
      cell has a value, the cell holds that reading. */
  lemma LongFormPivot<M>(f: Frame<M>, parse: Cell<M> -> Option<int>, ms: seq<Measurement<M>>, h: nat, i: nat) returns (j: nat)
    requires LongForm(f, parse, ms) && h < 24 && i < |f.rows| && Indexed(f.rows[i], parse) && Reading(f.rows[i], h)
    ensures Blocks(h, |f.rows|) + i < |ms|
    ensures var w, row, c := Pivot(ms), f.rows[i], HourLabel(h);
      var key, q, x := SlotKey(row, parse, h), row[Quantity].value, Blocks(h, |f.rows|) + i;
      && j < |w.rows| && w.rows[j].key == key && q in w.rows[j].values && w.rows[j].values[q].Some?
      && ((forall k :: 0 <= k < x && InCell(ms[k], key, q) ==> ms[k].value.None?) ==>
            w.rows[j].values[q] == row[c])
  {
    var x, row := Blocks(h, |f.rows|) + i, f.rows[i];
    assert LongSlot(f, parse, ms, h, i);
    assert ms[x] == Measurement(row[Station], row[County], row[AirRegion],
      Timestamp(DayOf(row[Date], parse), h), row[Quantity], row[HourLabel(h)]);
    SlotFirstValue(row, parse, h, ms, x);
    j := PivotRowOfCell(ms, x);
  }

  /** A reading for hour `h` of a merged year table's row `i`, with all its index values,
      puts the pivot row of (station, county, region, day * 24 + h) in the result, with a
      present cell for the row's quantity. When no earlier row of the same slot has a
      value for that hour, the reading is the cell: the first one wins. */
  lemma MergedPivotCell<M>(f: Frame<M>, parse: Cell<M> -> Option<int>, h: nat, i: nat)
    requires WellFormed(f) && f.columns == OutputColumns()
    requires TransformTable(f, parse).Ok?
    requires h < 24 && i < |f.rows| && Indexed(f.rows[i], parse) && Reading(f.rows[i], h)
    ensures var w, row, c := TransformTable(f, parse).value, f.rows[i], HourLabel(h);
      exists j :: 0 <= j < |w.rows| && w.rows[j].key == SlotKey(row, parse, h) && row[Quantity].value in w.rows[j].values &&
        w.rows[j].values[row[Quantity].value].Some? &&
        (FirstOfSlot(f, parse, c, i) ==> w.rows[j].values[row[Quantity].value] == row[c])
  {
    var days := Days(f, parse).value;
    MergedLongForm(f, parse, days);
    var ms := Stamp(Melt(f, days).value).value;
    if FirstOfSlot(f, parse, HourLabel(h), i) {
      NoEarlierValue(f, parse, days, ms, h, i);
    }
    var j := LongFormPivot(f, parse, ms, h, i);
    assert TransformTable(f, parse) == Ok(Pivot(ms));
  }

  // ---------------------------------------------------------------------------------
  // process_all_files, lines 58-70

  /** A CSV file of the target directory: its path and the table read from it. */
  datatype CsvFile<M> = CsvFile(path: string, table: Frame<M>)

  predicate FilesWellFormed<M>(files: seq<CsvFile<M>>) {
    forall k :: 0 <= k < |files| ==> WellFormed(files[k].table)
  }

  /** What transform_data gives for each file, in glob order. */
  function TransformAll<M(==)>(files: seq<CsvFile<M>>, parse: Cell<M> -> Option<int>): (rs: seq<Result<Wide<M>, Error>>)
    requires FilesWellFormed(files)
    ensures |rs| == |files|
    ensures forall k :: 0 <= k < |files| ==> rs[k] == TransformTable(files[k].table, parse)
  {
    seq(|files|, k requires 0 <= k < |files| => TransformTable(files[k].table, parse))
  }

  /** What overwriting the files in order with their results leaves behind: every file
      up to the first result that is an exception is written; that exception ends the
      run. */
  function Overwrite<T>(paths: seq<string>, results: seq<Result<T, Error>>): (o: Outcome<T>)
    requires |paths| == |results|
    ensures |o.written| <= |paths|
  {
    if paths == [] then Outcome([], None)
    else
      var n := |paths| - 1;
      var prev := Overwrite(paths[..n], results[..n]);
      if prev.failure.Some? then prev
      else match results[n]
        case Ok(t) => Outcome(prev.written + [Written(paths[n], t)], None)
        case Err(e) => Outcome(prev.written, Some(e))
  }

  /** The k-th written file is the k-th path with the k-th result. The run ends without
      error exactly when every result is a value, and otherwise with the exception of
      the first result that is not. */
  lemma {:induction false} OverwriteInOrder<T>(paths: seq<string>, results: seq<Result<T, Error>>)
    requires |paths| == |results|
    ensures var o := Overwrite(paths, results);
      forall k :: 0 <= k < |o.written| ==> results[k].Ok? && o.written[k] == Written(paths[k], results[k].value)
    ensures var o := Overwrite(paths, results);
      o.failure.None? <==> |o.written| == |paths|
    ensures var o := Overwrite(paths, results);
      o.failure.None? <==> forall k :: 0 <= k < |results| ==> results[k].Ok?
    ensures var o := Overwrite(paths, results);
      o.failure.Some? ==> results[|o.written|] == Err(o.failure.value) &&
                          forall k :: 0 <= k < |o.written| ==> results[k].Ok?
  {
    if paths != [] {
      var n := |paths| - 1;
      assert forall k :: 0 <= k < n ==> paths[..n][k] == paths[k] && results[..n][k] == results[k];
      OverwriteInOrder(paths[..n], results[..n]);
    }
  }

  /** Once a run has raised, the later files change nothing. */
  lemma {:induction false} OverwriteStaysFailed<T>(paths: seq<string>, results: seq<Result<T, Error>>, i: nat)
    requires |paths| == |results| && i <= |paths|
    requires Overwrite(paths[..i], results[..i]).failure.Some?
    ensures Overwrite(paths, results) == Overwrite(paths[..i], results[..i])
    decreases |paths| - i
  {
    if i < |paths| {
      assert paths[..i + 1][..i] == paths[..i] && results[..i + 1][..i] == results[..i];
      OverwriteStaysFailed(paths, results, i + 1);
    } else {
      assert paths[..i] == paths && results[..i] == results;
    }
  }

  function Paths<M>(files: seq<CsvFile<M>>): (ps: seq<string>)
    ensures |ps| == |files| && forall k :: 0 <= k < |files| ==> ps[k] == files[k].path
  {
    seq(|files|, k requires 0 <= k < |files| => files[k].path)
  }

  /** Lines 58-70: transform every file of the directory and overwrite it; an exception
      from any file propagates and leaves the later files untouched. */
  method ProcessAllFiles<M(==)>(files: seq<CsvFile<M>>, parse: Cell<M> -> Option<int>) returns (o: Outcome<Wide<M>>)
    requires FilesWellFormed(files)
    ensures o == Overwrite(Paths(files), TransformAll(files, parse))
  {
    ghost var paths, results := Paths(files), TransformAll(files, parse);
    var written: seq<Written<Wide<M>>> := [];
    var i := 0;
    while i < |files|
      invariant 0 <= i <= |files|
      invariant Overwrite(paths[..i], results[..i]) == Outcome(written, None)
    {
      assert paths[..i + 1][..i] == paths[..i] && results[..i + 1][..i] == results[..i];
      var transformed := TransformTable(files[i].table, parse);
      if transformed.Err? {
        o := Outcome(written, Some(transformed.error));
        assert Overwrite(paths[..i + 1], results[..i + 1]) == o;
        OverwriteStaysFailed(paths, results, i + 1);
        return;
      }
      written := written + [Written(files[i].path, transformed.value)];
      i := i + 1;
    }
    assert paths[..i] == paths && results[..i] == results;
    o := Outcome(written, None);
  }
}
