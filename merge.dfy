/** The merge stage (merge_data): every raw file of a year directory is cleaned, joined
    with the station mapping table, cut down to the fixed column order and appended to
    that year's table. */
module Merge {
  import opened Wrappers
  import opened Text
  import opened Frames
  import opened YearLayout

  /** The station-name column of the mapping table, the right-hand join key. */
  const MappedStation := "監測站名稱"

  // ---------------------------------------------------------------------------------
  // Reading: skiprows=[1]

  /** `read_csv(..., skiprows=[1])`: the line right under the header is dropped; every
      other data line is kept, in order. `raw.rows[0]` is that line. */
  function SkipSecondLine<M>(raw: Frame<M>): (f: Frame<M>)
    requires WellFormed(raw)
    ensures WellFormed(f) && f.columns == raw.columns
    ensures |f.rows| == if raw.rows == [] then 0 else |raw.rows| - 1
    ensures forall i :: 0 <= i < |f.rows| ==> f.rows[i] == raw.rows[i + 1]
  {
    Frame(raw.columns, if raw.rows == [] then [] else raw.rows[1..])
  }

  // ---------------------------------------------------------------------------------
  // Stripping: data.columns.str.strip() and applymap(strip) on string cells

  function StrippedNames(cols: seq<Column>): (names: seq<Column>)
    ensures |names| == |cols|
    ensures forall i :: 0 <= i < |cols| ==> names[i] == Strip(cols[i])
  {
    seq(|cols|, i requires 0 <= i < |cols| => Strip(cols[i]))
  }

  /** `data.columns = data.columns.str.strip()`. Every column keeps its cells under its
      stripped label. Labels that collide after stripping are rejected (see README). */
  function StripColumnNames<M>(f: Frame<M>): (r: Result<Frame<M>, Error>)
    requires WellFormed(f)
    ensures r.Ok? <==> Distinct(StrippedNames(f.columns))
    ensures r.Err? ==> r.error == DuplicateColumns
    ensures r.Ok? ==> WellFormed(r.value) && r.value.columns == StrippedNames(f.columns)
    ensures r.Ok? ==> forall c :: c in r.value.columns ==> NoOuterSpace(c)
    ensures r.Ok? ==> |r.value.rows| == |f.rows|
    ensures r.Ok? ==> forall i, k :: 0 <= i < |f.rows| && 0 <= k < |f.columns| ==>
                        r.value.rows[i][Strip(f.columns[k])] == f.rows[i][f.columns[k]]
  {
    var names := StrippedNames(f.columns);
    if !Distinct(names) then Err(DuplicateColumns)
    else
      var rows := seq(|f.rows|, i requires 0 <= i < |f.rows| => Zip(names, Values(f.rows[i], f.columns)));
      assert forall c :: c in names ==> NoOuterSpace(c);
      Ok(Frame(names, rows))
  }

  /** A cell is stripped when it is not a string or is a string without outer whitespace. */
  predicate CellStripped<M>(v: Option<Cell<M>>) {
    v.Some? && v.value.Text? ==> NoOuterSpace(v.value.s)
  }

  /** `x.strip() if isinstance(x, str) else x`. */
  function StripCell<M>(v: Option<Cell<M>>): (w: Option<Cell<M>>)
    ensures CellStripped(w)
    ensures v.Some? && v.value.Text? ==> w.Some? && w.value.Text? && Strip(v.value.s) == w.value.s
    ensures !(v.Some? && v.value.Text?) ==> w == v
  {
    if v.Some? && v.value.Text? then Some(Text(Strip(v.value.s))) else v
  }

  /** `data.applymap(lambda x: x.strip() if isinstance(x, str) else x)`. */
  function StripCells<M>(f: Frame<M>): (r: Frame<M>)
    requires WellFormed(f)
    ensures WellFormed(r) && r.columns == f.columns && |r.rows| == |f.rows|
    ensures forall i, c :: 0 <= i < |r.rows| && c in r.rows[i] ==> CellStripped(r.rows[i][c])
    ensures forall i, c :: 0 <= i < |f.rows| && c in f.rows[i] ==> r.rows[i][c] == StripCell(f.rows[i][c])
  {
    Frame(f.columns, seq(|f.rows|, i requires 0 <= i < |f.rows| =>
      map c | c in f.rows[i] :: StripCell(f.rows[i][c])))
  }

  lemma StripCellIdempotent<M>(v: Option<Cell<M>>)
    ensures StripCell(StripCell(v)) == StripCell(v)
  {
    if v.Some? && v.value.Text? {
      StripIdempotent(v.value.s);
    }
  }

  /** Stripping the cells a second time changes nothing. */
  lemma StripCellsIdempotent<M>(f: Frame<M>)
    requires WellFormed(f)
    ensures StripCells(StripCells(f)) == StripCells(f)
  {
    var g := StripCells(f);
    var h := StripCells(g);
    forall i | 0 <= i < |f.rows| ensures h.rows[i] == g.rows[i] {
      forall c | c in g.rows[i] ensures h.rows[i][c] == g.rows[i][c] {
        StripCellIdempotent(f.rows[i][c]);
      }
    }
  }

  // ---------------------------------------------------------------------------------
  // The left join: data.merge(monitoring_station, how="left", left_on="測站",
  //                           right_on="監測站名稱", validate="many_to_one")

  /** pandas' default `suffixes=("_x", "_y")`: a label on both sides gets the side's suffix. */
  function Suffixed(c: Column, other: seq<Column>, suffix: string): Column {
    if c in other then c + suffix else c
  }

  /** The labels one side contributes to the join. */
  function SideNames(cols: seq<Column>, other: seq<Column>, suffix: string): (ns: seq<Column>)
    ensures |ns| == |cols|
    ensures forall k :: 0 <= k < |cols| ==> ns[k] == Suffixed(cols[k], other, suffix)
  {
    seq(|cols|, k requires 0 <= k < |cols| => Suffixed(cols[k], other, suffix))
  }

  /** The columns of the joined table: the left ones, then the right ones. */
  function JoinColumns(l: seq<Column>, r: seq<Column>): (cs: seq<Column>)
    ensures |cs| == |l| + |r|
  {
    SideNames(l, r, "_x") + SideNames(r, l, "_y")
  }

  predicate HasJoinSuffix(c: Column) {
    |c| >= 2 && c[|c| - 2] == '_' && (c[|c| - 1] == 'x' || c[|c| - 1] == 'y')
  }

  /** A label without a join suffix is the suffixed form of itself only, and only when
      it is not on the other side. */
  lemma SuffixedIs(c: Column, other: seq<Column>, suffix: string, d: Column)
    requires !HasJoinSuffix(d) && (suffix == "_x" || suffix == "_y")
    ensures Suffixed(c, other, suffix) == d <==> (c == d && c !in other)
  {
    SuffixAdded(c, suffix);
  }

  lemma SuffixAdded(c: Column, suffix: string)
    requires suffix == "_x" || suffix == "_y"
    ensures HasJoinSuffix(c + suffix)
  {
    var d := c + suffix;
    assert d[|d| - 2] == suffix[0] && d[|d| - 1] == suffix[1];
  }

  /** A label that does not end in a join suffix survives the join under its own name
      exactly when it lies on one side only. */
  lemma InJoinColumns(c: Column, l: seq<Column>, r: seq<Column>)
    requires !HasJoinSuffix(c)
    ensures c in JoinColumns(l, r) <==> ((c in l) != (c in r))
  {
    if c in JoinColumns(l, r) {
      JoinColumnFrom(c, l, r);
    }
    if (c in l) != (c in r) {
      JoinColumnTo(c, l, r);
    }
  }

  /** An unsuffixed label of the join comes from one side only. */
  lemma JoinColumnFrom(c: Column, l: seq<Column>, r: seq<Column>)
    requires !HasJoinSuffix(c) && c in JoinColumns(l, r)
    ensures (c in l) != (c in r)
  {
    var ln, rn := SideNames(l, r, "_x"), SideNames(r, l, "_y");
    assert c in ln || c in rn by {
      assert JoinColumns(l, r) == ln + rn;
    }
    if c in ln {
      SideNameFrom(c, l, r, "_x");
    } else {
      SideNameFrom(c, r, l, "_y");
    }
  }

  /** An unsuffixed label among one side's contributed labels is a label of that side
      only. */
  lemma SideNameFrom(c: Column, cols: seq<Column>, other: seq<Column>, suffix: string)
    requires !HasJoinSuffix(c) && (suffix == "_x" || suffix == "_y")
    requires c in SideNames(cols, other, suffix)
    ensures c in cols && c !in other
  {
    var ns := SideNames(cols, other, suffix);
    var k :| 0 <= k < |ns| && ns[k] == c;
    SuffixedIs(cols[k], other, suffix, c);
  }

  /** An unsuffixed label of one side only keeps its name in the join. */
  lemma JoinColumnTo(c: Column, l: seq<Column>, r: seq<Column>)
    requires !HasJoinSuffix(c) && (c in l) != (c in r)
    ensures c in JoinColumns(l, r)
  {
    var cs := JoinColumns(l, r);
    var ln, rn := SideNames(l, r, "_x"), SideNames(r, l, "_y");
    if c in l {
      var k :| 0 <= k < |l| && l[k] == c;
      SuffixedIs(l[k], r, "_x", c);
      assert cs[k] == ln[k] == c;
    } else {
      var k :| 0 <= k < |r| && r[k] == c;
      SuffixedIs(r[k], l, "_y", c);
      assert cs[|l| + k] == rn[k] == c;
    }
  }

  /** `validate="many_to_one"`: no two mapping rows share a key. */
  predicate UniqueKey<M(==)>(rows: seq<Row<M>>, key: Column)
    requires forall i :: 0 <= i < |rows| ==> key in rows[i]
  {
    forall i, j :: 0 <= i < j < |rows| ==> rows[i][key] != rows[j][key]
  }

  /** No row of `rows` has cell `v` under `key`. A missing cell matches a missing cell,
      as in pandas' merge. */
  predicate NoMatch<M(==)>(rows: seq<Row<M>>, key: Column, v: Option<Cell<M>>)
    requires forall i :: 0 <= i < |rows| ==> key in rows[i]
  {
    forall j :: 0 <= j < |rows| ==> rows[j][key] != v
  }

  /** The first row at or after `from` whose `key` cell is `v`. */
  function FindRow<M(==)>(rows: seq<Row<M>>, key: Column, v: Option<Cell<M>>, from: nat): (j: Option<nat>)
    requires from <= |rows|
    requires forall i :: 0 <= i < |rows| ==> key in rows[i]
    ensures j.Some? ==> from <= j.value < |rows| && rows[j.value][key] == v
    ensures j.None? ==> forall i :: from <= i < |rows| ==> rows[i][key] != v
    decreases |rows| - from
  {
    if from == |rows| then None
    else if rows[from][key] == v then Some(from)
    else FindRow(rows, key, v, from + 1)
  }

  /** The mapping row that the left key `v` joins with, if any. */
  function Match<M(==)>(right: Frame<M>, rk: Column, v: Option<Cell<M>>): (m: Option<Row<M>>)
    requires WellFormed(right) && rk in right.columns
    ensures m.Some? ==> m.value.Keys == ColumnSet(right.columns)
    ensures NoMatch(right.rows, rk, v) ==> m.None?
    ensures UniqueKey(right.rows, rk) ==>
      forall j :: 0 <= j < |right.rows| && right.rows[j][rk] == v ==> m == Some(right.rows[j])
  {
    var j := FindRow(right.rows, rk, v, 0);
    if j.Some? then Some(right.rows[j.value]) else None
  }

  /** One output row of the join: the left row's cells, then the matched mapping row's
      cells (all missing when nothing matched), under the suffixed labels. */
  function JoinRow<M>(l: Row<M>, lcols: seq<Column>, m: Option<Row<M>>, rcols: seq<Column>): (r: Row<M>)
    requires forall c :: c in lcols ==> c in l
    requires m.Some? ==> forall c :: c in rcols ==> c in m.value
    ensures r.Keys == ColumnSet(JoinColumns(lcols, rcols))
  {
    var ln, rn := SideNames(lcols, rcols, "_x"), SideNames(rcols, lcols, "_y");
    ColumnSetConcat(ln, rn);
    Zip(ln, Values(l, lcols)) + Zip(rn, MatchedValues(m, rcols))
  }

  /** The mapping row's cells under `rcols`, all missing when there is no mapping row. */
  function MatchedValues<M>(m: Option<Row<M>>, rcols: seq<Column>): (vs: seq<Option<Cell<M>>>)
    requires m.Some? ==> forall c :: c in rcols ==> c in m.value
    ensures |vs| == |rcols|
    ensures forall k :: 0 <= k < |rcols| ==> vs[k] == if m.Some? then m.value[rcols[k]] else None
  {
    if m.Some? then Values(m.value, rcols) else seq(|rcols|, k => None)
  }

  /** In the union of two rows built from disjoint label lists, a label of the first
      list holds its own value ... */
  lemma UnionLeftCell<M>(ln: seq<Column>, lv: seq<Option<Cell<M>>>, rn: seq<Column>, rv: seq<Option<Cell<M>>>, k: nat)
    requires |ln| == |lv| && |rn| == |rv| && k < |ln|
    requires Distinct(ln) && forall x :: x in ln ==> x !in rn
    ensures (Zip(ln, lv) + Zip(rn, rv))[ln[k]] == lv[k]
  {
    assert ln[k] in ln;
    assert ln[k] !in ColumnSet(rn);
  }

  /** ... and so does a label of the second list. */
  lemma UnionRightCell<M>(ln: seq<Column>, lv: seq<Option<Cell<M>>>, rn: seq<Column>, rv: seq<Option<Cell<M>>>, k: nat)
    requires |ln| == |lv| && |rn| == |rv| && k < |rn|
    requires Distinct(rn)
    ensures (Zip(ln, lv) + Zip(rn, rv))[rn[k]] == rv[k]
  {
    var rm := Zip(rn, rv);
    assert rn[k] in rm;
    assert rm[rn[k]] == rv[k];
  }

  /** With no duplicate label, each left column sits under its suffixed label ... */
  lemma JoinRowLeftCells<M>(l: Row<M>, lcols: seq<Column>, m: Option<Row<M>>, rcols: seq<Column>)
    requires forall c :: c in lcols ==> c in l
    requires m.Some? ==> forall c :: c in rcols ==> c in m.value
    requires Distinct(JoinColumns(lcols, rcols))
    ensures forall k :: 0 <= k < |lcols| ==> JoinRow(l, lcols, m, rcols)[Suffixed(lcols[k], rcols, "_x")] == l[lcols[k]]
  {
    var ln, rn := SideNames(lcols, rcols, "_x"), SideNames(rcols, lcols, "_y");
    var lv, rv := Values(l, lcols), MatchedValues(m, rcols);
    DistinctConcat(ln, rn);
    forall k | 0 <= k < |lcols| ensures JoinRow(l, lcols, m, rcols)[ln[k]] == lv[k] {
      UnionLeftCell(ln, lv, rn, rv, k);
    }
  }

  /** ... and so does each right column. */
  lemma JoinRowRightCells<M>(l: Row<M>, lcols: seq<Column>, m: Option<Row<M>>, rcols: seq<Column>)
    requires forall c :: c in lcols ==> c in l
    requires m.Some? ==> forall c :: c in rcols ==> c in m.value
    requires Distinct(JoinColumns(lcols, rcols))
    ensures forall k :: 0 <= k < |rcols| ==>
      JoinRow(l, lcols, m, rcols)[Suffixed(rcols[k], lcols, "_y")] == if m.Some? then m.value[rcols[k]] else None
  {
    var ln, rn := SideNames(lcols, rcols, "_x"), SideNames(rcols, lcols, "_y");
    var lv, rv := Values(l, lcols), MatchedValues(m, rcols);
    DistinctConcat(ln, rn);
    forall k | 0 <= k < |rcols| ensures JoinRow(l, lcols, m, rcols)[rn[k]] == rv[k] {
      UnionRightCell(ln, lv, rn, rv, k);
    }
  }

  /** `merge(how="left", left_on=lk, right_on=rk, validate="many_to_one")`: a missing
      key column raises KeyError (pandas looks the right key up first), a repeated right key raises MergeError, and so does a
      label that the `_x`/`_y` suffixes make collide; otherwise one output row per left
      row, in order. */
  function LeftJoin<M(==)>(left: Frame<M>, right: Frame<M>, lk: Column, rk: Column): (r: Result<Frame<M>, Error>)
    requires WellFormed(left) && WellFormed(right)
    ensures r.Ok? <==>
      && lk in left.columns && rk in right.columns
      && UniqueKey(right.rows, rk)
      && Distinct(JoinColumns(left.columns, right.columns))
    ensures rk !in right.columns ==> r == Err(MissingColumn(rk))
    ensures rk in right.columns && lk !in left.columns ==> r == Err(MissingColumn(lk))
    ensures lk in left.columns && rk in right.columns && !UniqueKey(right.rows, rk) ==> r == Err(NotManyToOne)
    ensures (lk in left.columns && rk in right.columns && UniqueKey(right.rows, rk) &&
             !Distinct(JoinColumns(left.columns, right.columns))) ==> r == Err(DuplicateColumns)
    ensures r.Ok? ==> WellFormed(r.value) && r.value.columns == JoinColumns(left.columns, right.columns)
    ensures r.Ok? ==> |r.value.rows| == |left.rows|
  {
    if rk !in right.columns then Err(MissingColumn(rk))
    else if lk !in left.columns then Err(MissingColumn(lk))
    else if !UniqueKey(right.rows, rk) then Err(NotManyToOne)
    else
      var cs := JoinColumns(left.columns, right.columns);
      if !Distinct(cs) then Err(DuplicateColumns)
      else
        var rows := seq(|left.rows|, i requires 0 <= i < |left.rows| =>
          JoinRow(left.rows[i], left.columns, Match(right, rk, left.rows[i][lk]), right.columns));
        Ok(Frame(cs, rows))
  }

  /** Row `i` of a successful join is the join row of the left table's row `i` and
      the mapping row its key matches. */
  lemma LeftJoinRow<M>(left: Frame<M>, right: Frame<M>, lk: Column, rk: Column, i: nat)
    requires WellFormed(left) && WellFormed(right)
    requires LeftJoin(left, right, lk, rk).Ok? && i < |left.rows|
    ensures lk in left.columns && rk in right.columns && Distinct(JoinColumns(left.columns, right.columns))
    ensures LeftJoin(left, right, lk, rk).value.rows[i] ==
      JoinRow(left.rows[i], left.columns, Match(right, rk, left.rows[i][lk]), right.columns)
  {
  }

  /** Left-join semantics, left side: every left row is kept, in order, with its own
      cells under the left labels. */
  lemma LeftJoinLeftCells<M>(left: Frame<M>, right: Frame<M>, lk: Column, rk: Column, i: nat)
    requires WellFormed(left) && WellFormed(right)
    requires LeftJoin(left, right, lk, rk).Ok? && i < |left.rows|
    ensures forall k :: 0 <= k < |left.columns| ==>
      LeftJoin(left, right, lk, rk).value.rows[i][Suffixed(left.columns[k], right.columns, "_x")] == left.rows[i][left.columns[k]]
  {
    LeftJoinRow(left, right, lk, rk, i);
    JoinRowLeftCells(left.rows[i], left.columns, Match(right, rk, left.rows[i][lk]), right.columns);
  }

  /** Left-join semantics, right side: the mapping row with the same key supplies the
      right-hand cells, and without one they are missing. */
  lemma LeftJoinRightCells<M>(left: Frame<M>, right: Frame<M>, lk: Column, rk: Column, i: nat)
    requires WellFormed(left) && WellFormed(right)
    requires LeftJoin(left, right, lk, rk).Ok? && i < |left.rows|
    ensures forall j, k ::
      (0 <= j < |right.rows| && 0 <= k < |right.columns| && right.rows[j][rk] == left.rows[i][lk]) ==>
      LeftJoin(left, right, lk, rk).value.rows[i][Suffixed(right.columns[k], left.columns, "_y")] == right.rows[j][right.columns[k]]
    ensures NoMatch(right.rows, rk, left.rows[i][lk]) ==> forall k :: 0 <= k < |right.columns| ==>
      LeftJoin(left, right, lk, rk).value.rows[i][Suffixed(right.columns[k], left.columns, "_y")] == None
  {
    LeftJoinRow(left, right, lk, rk, i);
    JoinRowRightCells(left.rows[i], left.columns, Match(right, rk, left.rows[i][lk]), right.columns);
  }

  /** A left column that the right table lacks keeps its label and its cell. */
  lemma LeftJoinLeftCell<M>(left: Frame<M>, right: Frame<M>, lk: Column, rk: Column, i: nat, c: Column)
    requires WellFormed(left) && WellFormed(right)
    requires LeftJoin(left, right, lk, rk).Ok? && i < |left.rows|
    requires c in left.columns && c !in right.columns
    ensures LeftJoin(left, right, lk, rk).value.rows[i][c] == left.rows[i][c]
  {
    var k :| 0 <= k < |left.columns| && left.columns[k] == c;
    LeftJoinLeftCells(left, right, lk, rk, i);
    assert Suffixed(left.columns[k], right.columns, "_x") == c;
  }

  /** A right column that the left table lacks keeps its label; it holds the matching
      right row's cell, or is missing when no right row matches. */
  lemma LeftJoinRightCell<M>(left: Frame<M>, right: Frame<M>, lk: Column, rk: Column, i: nat, c: Column)
    requires WellFormed(left) && WellFormed(right)
    requires LeftJoin(left, right, lk, rk).Ok? && i < |left.rows|
    requires c in right.columns && c !in left.columns
    ensures forall j :: 0 <= j < |right.rows| && right.rows[j][rk] == left.rows[i][lk] ==>
      LeftJoin(left, right, lk, rk).value.rows[i][c] == right.rows[j][c]
    ensures NoMatch(right.rows, rk, left.rows[i][lk]) ==> LeftJoin(left, right, lk, rk).value.rows[i][c] == None
  {
    var k :| 0 <= k < |right.columns| && right.columns[k] == c;
    LeftJoinRightCells(left, right, lk, rk, i);
    assert Suffixed(right.columns[k], left.columns, "_y") == c;
  }

  // ---------------------------------------------------------------------------------
  // data.drop("監測站名稱", axis=1) and data[columns_order]

  /** `drop(c, axis=1)`: KeyError when `c` is not a column; otherwise `c` leaves the
      labels and every row. */
  function DropColumn<M>(f: Frame<M>, c: Column): (r: Result<Frame<M>, Error>)
    requires WellFormed(f)
    ensures r.Ok? <==> c in f.columns
    ensures r.Err? ==> r.error == MissingColumn(c)
    ensures r.Ok? ==> WellFormed(r.value) && r.value.columns == Except(f.columns, {c})
    ensures r.Ok? ==> |r.value.rows| == |f.rows| && forall i :: 0 <= i < |f.rows| ==> r.value.rows[i] == f.rows[i] - {c}
  {
    if c !in f.columns then Err(MissingColumn(c))
    else Ok(Frame(Except(f.columns, {c}), seq(|f.rows|, i requires 0 <= i < |f.rows| => f.rows[i] - {c})))
  }

  /** `data[cols]`: exactly the listed columns, in the listed order; a listed column that
      is not there raises. */
  function Project<M>(f: Frame<M>, cols: seq<Column>): (r: Result<Frame<M>, Error>)
    requires WellFormed(f) && Distinct(cols)
    ensures r.Ok? <==> forall c :: c in cols ==> c in f.columns
    ensures r.Err? ==> r.error.MissingColumn? && r.error.name in cols && r.error.name !in f.columns
    ensures r.Ok? ==> WellFormed(r.value) && r.value.columns == cols && |r.value.rows| == |f.rows|
    ensures r.Ok? ==> forall i, c :: 0 <= i < |f.rows| && c in cols ==> r.value.rows[i][c] == f.rows[i][c]
  {
    var missing := FirstMissing(cols, f.columns);
    if missing.Some? then Err(MissingColumn(missing.value))
    else Ok(Frame(cols, seq(|f.rows|, i requires 0 <= i < |f.rows| =>
      map c | c in ColumnSet(cols) :: f.rows[i][c])))
  }

  // ---------------------------------------------------------------------------------
  // One file, lines 33-57

  /** Lines 33-39: the file as read, with stripped column labels and stripped string
      cells; every data line of the file is one row, in order. */
  function Clean<M>(raw: Frame<M>): (r: Result<Frame<M>, Error>)
    requires WellFormed(raw)
    ensures r.Ok? <==> Distinct(StrippedNames(raw.columns))
    ensures r.Err? ==> r.error == DuplicateColumns
    ensures r.Ok? ==> WellFormed(r.value) && r.value.columns == StrippedNames(raw.columns)
    ensures r.Ok? ==> |r.value.rows| == if raw.rows == [] then 0 else |raw.rows| - 1
    ensures r.Ok? ==> forall i, k :: 0 <= i < |r.value.rows| && 0 <= k < |raw.columns| ==>
      r.value.rows[i][Strip(raw.columns[k])] == StripCell(raw.rows[i + 1][raw.columns[k]])
    ensures r.Ok? ==> forall i, c :: 0 <= i < |r.value.rows| && c in r.value.rows[i] ==>
      CellStripped(r.value.rows[i][c])
  {
    var skipped := SkipSecondLine(raw);
    var named :- StripColumnNames(skipped);
    CleanedCells(raw, named);
    Ok(StripCells(named))
  }

  /** Cell `k` of data line `i + 1` ends up stripped under the stripped label of column `k`. */
  lemma CleanedCells<M>(raw: Frame<M>, named: Frame<M>)
    requires WellFormed(raw) && StripColumnNames(SkipSecondLine(raw)) == Ok(named)
    ensures var cleaned := StripCells(named);
      forall i, k :: 0 <= i < |cleaned.rows| && 0 <= k < |raw.columns| ==>
        && Strip(raw.columns[k]) in cleaned.rows[i]
        && cleaned.rows[i][Strip(raw.columns[k])] == StripCell(raw.rows[i + 1][raw.columns[k]])
  {
    var cleaned := StripCells(named);
    forall i, k | 0 <= i < |cleaned.rows| && 0 <= k < |raw.columns|
      ensures Strip(raw.columns[k]) in cleaned.rows[i]
      ensures cleaned.rows[i][Strip(raw.columns[k])] == StripCell(raw.rows[i + 1][raw.columns[k]])
    {
      assert named.columns[k] == Strip(raw.columns[k]);
      assert Strip(raw.columns[k]) in named.rows[i];
    }
  }

  lemma MappedStationNotOutput()
    ensures !HasJoinSuffix(MappedStation)
    ensures forall c :: c in OutputColumns() ==> !HasJoinSuffix(c) && c != MappedStation
  {
    forall c | c in OutputColumns() ensures !HasJoinSuffix(c) && c != MappedStation {
      var k :| 0 <= k < 29 && OutputColumns()[k] == c;
      if k >= 5 { assert c == HourLabels()[k - 5] == HourLabel(k - 5); }
    }
  }

  /** Lines 33-57: the enriched table of one raw file, or the exception that processing
      it raises. */
  function Enrich<M(==)>(raw: Frame<M>, mapping: Frame<M>): (r: Result<Frame<M>, Error>)
    requires WellFormed(raw) && WellFormed(mapping)
    ensures r.Ok? ==> WellFormed(r.value) && r.value.columns == OutputColumns()
    ensures r.Ok? ==> forall i :: 0 <= i < |r.value.rows| ==> MappedStation !in r.value.rows[i]
  {
    MappedStationNotOutput();
    var cleaned :- Clean(raw);
    var joined :- LeftJoin(cleaned, mapping, Station, MappedStation);
    var dropped :- DropColumn(joined, MappedStation);
    Project(dropped, OutputColumns())
  }

  /** The joined table a successful file goes through: the output keeps its rows, in
      order, and its cells under the output columns. */
  lemma EnrichStages<M>(raw: Frame<M>, mapping: Frame<M>)
    requires WellFormed(raw) && WellFormed(mapping)
    requires Enrich(raw, mapping).Ok?
    ensures Clean(raw).Ok? && LeftJoin(Clean(raw).value, mapping, Station, MappedStation).Ok?
    ensures var joined := LeftJoin(Clean(raw).value, mapping, Station, MappedStation).value;
      && |Enrich(raw, mapping).value.rows| == |joined.rows|
      && forall i, c :: 0 <= i < |joined.rows| && c in OutputColumns() ==>
           c in joined.rows[i] && Enrich(raw, mapping).value.rows[i][c] == joined.rows[i][c]
  {
    assert Clean(raw).Ok?;
    var cleaned := Clean(raw).value;
    assert LeftJoin(cleaned, mapping, Station, MappedStation).Ok?;
    var joined := LeftJoin(cleaned, mapping, Station, MappedStation).value;
    assert DropColumn(joined, MappedStation).Ok?;
    var dropped := DropColumn(joined, MappedStation).value;
    assert Enrich(raw, mapping) == Project(dropped, OutputColumns());
    DropThenProject(joined);
  }

  /** Dropping the mapping key and then selecting the output columns keeps every row of
      the joined table, in order, with its cells under the output columns. */
  lemma DropThenProject<M>(joined: Frame<M>)
    requires WellFormed(joined) && MappedStation in joined.columns
    requires Project(DropColumn(joined, MappedStation).value, OutputColumns()).Ok?
    ensures var out := Project(DropColumn(joined, MappedStation).value, OutputColumns()).value;
      && |out.rows| == |joined.rows|
      && forall i, c :: 0 <= i < |joined.rows| && c in OutputColumns() ==>
           c in joined.rows[i] && out.rows[i][c] == joined.rows[i][c]
  {
    MappedStationNotOutput();
  }

  /** Exactly when processing one file succeeds. */
  predicate Accepted<M(==)>(raw: Frame<M>, mapping: Frame<M>)
    requires WellFormed(mapping)
  {
    var names := StrippedNames(raw.columns);
    && Distinct(names)
    && Station in names
    && MappedStation in mapping.columns
    && UniqueKey(mapping.rows, MappedStation)
    && Distinct(JoinColumns(names, mapping.columns))
    && MappedStation !in names
    && forall c :: c in OutputColumns() ==> ((c in names) != (c in mapping.columns))
  }

  /** Processing a file succeeds exactly when its stripped header is unambiguous, has the
      station column and not the mapping's key, the mapping has its key and it is unique,
      the join creates no duplicate label, and each output column comes from exactly one
      of the two tables. */
  lemma EnrichSucceedsIff<M>(raw: Frame<M>, mapping: Frame<M>)
    requires WellFormed(raw) && WellFormed(mapping)
    ensures Enrich(raw, mapping).Ok? <==> Accepted(raw, mapping)
  {
    if Enrich(raw, mapping).Ok? {
      EnrichAccepted(raw, mapping);
    }
    if Accepted(raw, mapping) {
      AcceptedEnriched(raw, mapping);
    }
  }

  /** A file that was processed meets every condition of `Accepted`. */
  lemma EnrichAccepted<M>(raw: Frame<M>, mapping: Frame<M>)
    requires WellFormed(raw) && WellFormed(mapping) && Enrich(raw, mapping).Ok?
    ensures Accepted(raw, mapping)
  {
    var names, mc := StrippedNames(raw.columns), mapping.columns;
    var cleaned := Clean(raw).value;
    var joined := LeftJoin(cleaned, mapping, Station, MappedStation).value;
    assert joined.columns == JoinColumns(names, mc);
    InJoinColumns(MappedStation, names, mc);
    MappedStationNotOutput();
    DroppedJoinColumns(names, mc);
  }

  /** A file that meets every condition of `Accepted` gets through every stage. */
  lemma AcceptedEnriched<M>(raw: Frame<M>, mapping: Frame<M>)
    requires WellFormed(raw) && WellFormed(mapping) && Accepted(raw, mapping)
    ensures Enrich(raw, mapping).Ok?
  {
    var names, mc := StrippedNames(raw.columns), mapping.columns;
    var cleaned := Clean(raw).value;
    var joined := LeftJoin(cleaned, mapping, Station, MappedStation).value;
    assert joined.columns == JoinColumns(names, mc);
    InJoinColumns(MappedStation, names, mc);
    var dropped := DropColumn(joined, MappedStation).value;
    MappedStationNotOutput();
    DroppedJoinColumns(names, mc);
    assert Enrich(raw, mapping) == Project(dropped, OutputColumns());
  }

  /** After the join and the drop of the mapping key, an output column is there exactly
      when one of the two tables has it. */
  lemma DroppedJoinColumns(names: seq<Column>, mc: seq<Column>)
    ensures forall c :: c in OutputColumns() ==>
      (c in Except(JoinColumns(names, mc), {MappedStation}) <==> ((c in names) != (c in mc)))
  {
    MappedStationNotOutput();
    var kept := Except(JoinColumns(names, mc), {MappedStation});
    forall c | c in OutputColumns() ensures c in kept <==> ((c in names) != (c in mc)) {
      InJoinColumns(c, names, mc);
      assert c in kept <==> c in ColumnSet(kept);
      assert c in JoinColumns(names, mc) <==> c in ColumnSet(JoinColumns(names, mc));
    }
  }

  /** A mapping table with a repeated station name makes the join raise, however the
      raw file looks, once the file has its station column. */
  lemma DuplicateMappingKeyFails<M>(raw: Frame<M>, mapping: Frame<M>)
    requires WellFormed(raw) && WellFormed(mapping)
    requires Distinct(StrippedNames(raw.columns)) && Station in StrippedNames(raw.columns)
    requires MappedStation in mapping.columns && !UniqueKey(mapping.rows, MappedStation)
    ensures Enrich(raw, mapping) == Err(NotManyToOne)
  {
  }

  /** A successful file keeps every data line, in order, as one output row; each output
      column that came from the raw file holds that line's stripped cell. */
  lemma EnrichKeepsRawCells<M>(raw: Frame<M>, mapping: Frame<M>)
    requires WellFormed(raw) && WellFormed(mapping)
    requires Enrich(raw, mapping).Ok?
    ensures |Enrich(raw, mapping).value.rows| == if raw.rows == [] then 0 else |raw.rows| - 1
    ensures forall i, k ::
      (0 <= i < |Enrich(raw, mapping).value.rows| && 0 <= k < |raw.columns| &&
       Strip(raw.columns[k]) in OutputColumns()) ==>
      Enrich(raw, mapping).value.rows[i][Strip(raw.columns[k])] == StripCell(raw.rows[i + 1][raw.columns[k]])
  {
    EnrichSucceedsIff(raw, mapping);
    EnrichStages(raw, mapping);
    var out := Enrich(raw, mapping).value;
    var cleaned := Clean(raw).value;
    var joined := LeftJoin(cleaned, mapping, Station, MappedStation).value;
    forall i, k | 0 <= i < |out.rows| && 0 <= k < |raw.columns| && Strip(raw.columns[k]) in OutputColumns()
      ensures out.rows[i][Strip(raw.columns[k])] == StripCell(raw.rows[i + 1][raw.columns[k]])
    {
      var c := Strip(raw.columns[k]);
      assert cleaned.columns[k] == c;
      assert c !in mapping.columns;
      LeftJoinLeftCells(cleaned, mapping, Station, MappedStation, i);
      assert Suffixed(cleaned.columns[k], mapping.columns, "_x") == c;
    }
  }

  /** Join semantics of a successful file, for row `i` and an output column `c` that the
      mapping table supplies: `c` holds the cell of the mapping row whose station name
      equals the row's station, and is missing when no mapping row has that name. */
  lemma EnrichCellJoinsMapping<M>(raw: Frame<M>, mapping: Frame<M>, i: nat, c: Column)
    requires WellFormed(raw) && WellFormed(mapping)
    requires Enrich(raw, mapping).Ok? && i < |Enrich(raw, mapping).value.rows|
    requires c in OutputColumns() && c in mapping.columns
    ensures MappedStation in mapping.columns && Station in OutputColumns()
    ensures Station in Enrich(raw, mapping).value.rows[i] && c in Enrich(raw, mapping).value.rows[i]
    ensures forall j :: 0 <= j < |mapping.rows| ==> MappedStation in mapping.rows[j] && c in mapping.rows[j]
    ensures forall j ::
      (0 <= j < |mapping.rows| && mapping.rows[j][MappedStation] == Enrich(raw, mapping).value.rows[i][Station]) ==>
      Enrich(raw, mapping).value.rows[i][c] == mapping.rows[j][c]
    ensures NoMatch(mapping.rows, MappedStation, Enrich(raw, mapping).value.rows[i][Station]) ==>
      Enrich(raw, mapping).value.rows[i][c] == None
  {
    EnrichSucceedsIff(raw, mapping);
    EnrichStages(raw, mapping);
    var cleaned := Clean(raw).value;
    assert Station == OutputColumns()[0];
    LeftJoinLeftCell(cleaned, mapping, Station, MappedStation, i, Station);
    LeftJoinRightCell(cleaned, mapping, Station, MappedStation, i, c);
  }

  // ---------------------------------------------------------------------------------
  // The per-year accumulation: pd.concat([combined_data, data], ignore_index=True)

  /** The row padded to `cols`, missing where it has no cell. */
  function Pad<M>(row: Row<M>, cols: seq<Column>): (r: Row<M>)
    ensures r.Keys == ColumnSet(cols)
    ensures forall c :: c in cols ==> r[c] == if c in row then row[c] else None
  {
    map c | c in ColumnSet(cols) :: if c in row then row[c] else None
  }

  /** Every row reindexed to the columns `cols`, in order. */
  function PadRows<M>(rows: seq<Row<M>>, cols: seq<Column>): (r: seq<Row<M>>)
    ensures |r| == |rows|
    ensures forall i :: 0 <= i < |rows| ==> r[i] == Pad(rows[i], cols)
  {
    if rows == [] then []
    else
      var n := |rows| - 1;
      PadRows(rows[..n], cols) + [Pad(rows[n], cols)]
  }

  /** `pd.concat([a, b], ignore_index=True)`: the union of the columns in first-seen order,
      the rows of `a` then those of `b`, missing where a row lacks a column. */
  function Concat<M>(a: Frame<M>, b: Frame<M>): (r: Frame<M>)
    requires WellFormed(a) && WellFormed(b)
    ensures WellFormed(r)
    ensures r.columns == a.columns + Except(b.columns, ColumnSet(a.columns))
    ensures |r.rows| == |a.rows| + |b.rows|
    ensures forall i :: 0 <= i < |a.rows| ==> r.rows[i] == Pad(a.rows[i], r.columns)
    ensures forall i :: 0 <= i < |b.rows| ==> r.rows[|a.rows| + i] == Pad(b.rows[i], r.columns)
  {
    var e := Except(b.columns, ColumnSet(a.columns));
    var cols := a.columns + e;
    assert forall x :: x in e ==> x !in a.columns by {
      forall x | x in e ensures x !in a.columns { assert x in ColumnSet(e); }
    }
    DistinctAppend(a.columns, e);
    Frame(cols, PadRows(a.rows, cols) + PadRows(b.rows, cols))
  }

  /** Reindexing rows that already have exactly the columns `cols` changes nothing. */
  lemma PadRowsSame<M>(rows: seq<Row<M>>, cols: seq<Column>)
    requires forall i :: 0 <= i < |rows| ==> rows[i].Keys == ColumnSet(cols)
    ensures PadRows(rows, cols) == rows
  {
    var r := PadRows(rows, cols);
    forall i | 0 <= i < |rows| ensures r[i] == rows[i] {
      var p := Pad(rows[i], cols);
      assert forall c :: c in p <==> c in cols;
      assert forall c :: c in rows[i] <==> c in cols;
    }
  }

  /** Appending a table with the same columns, or appending to the empty start frame,
      only appends its rows. */
  lemma ConcatSameColumns<M>(a: Frame<M>, b: Frame<M>)
    requires WellFormed(a) && WellFormed(b)
    requires a.columns == b.columns || a == Frame([], [])
    ensures Concat(a, b) == Frame(b.columns, a.rows + b.rows)
  {
    var cols := a.columns + Except(b.columns, ColumnSet(a.columns));
    assert cols == b.columns by {
      var e := Except(b.columns, ColumnSet(a.columns));
      if a.columns == b.columns {
        EmptyColumnSet(e);
        assert e == [];
      } else {
        assert ColumnSet(a.columns) == {};
        ExceptNothing(b.columns);
      }
    }
    PadRowsSame(a.rows, cols);
    PadRowsSame(b.rows, cols);
  }

  lemma {:induction false} ExceptNothing(cols: seq<Column>)
    ensures Except(cols, {}) == cols
  {
    if cols != [] {
      ExceptNothing(cols[..|cols| - 1]);
    }
  }

  /** The columns of every successful part are the output columns. */
  predicate PartsShaped<M>(parts: seq<Result<Frame<M>, Error>>) {
    forall k :: 0 <= k < |parts| && parts[k].Ok? ==>
      WellFormed(parts[k].value) && parts[k].value.columns == OutputColumns()
  }

  /** `combined_data` after the processed files `parts`: concatenated in order from the
      empty `pd.DataFrame()`; the first part that raised ends it. */
  function Accumulate<M>(parts: seq<Result<Frame<M>, Error>>): (r: Result<Frame<M>, Error>)
    requires PartsShaped(parts)
    ensures r.Ok? ==> WellFormed(r.value)
    ensures r.Ok? ==> r.value.columns == if parts == [] then [] else OutputColumns()
  {
    if parts == [] then Ok(Frame([], []))
    else
      var n := |parts| - 1;
      var acc :- Accumulate(parts[..n]);
      var data :- parts[n];
      ConcatSameColumns(acc, data);
      Ok(Concat(acc, data))
  }

  /** The rows of the parts, one part after another. */
  function AllRows<M>(parts: seq<Result<Frame<M>, Error>>): (rows: seq<Row<M>>)
    requires forall k :: 0 <= k < |parts| ==> parts[k].Ok?
    ensures parts != [] ==> rows == AllRows(parts[..|parts| - 1]) + parts[|parts| - 1].value.rows
  {
    if parts == [] then []
    else
      var n := |parts| - 1;
      AllRows(parts[..n]) + parts[n].value.rows
  }

  /** One step of the accumulation: it succeeds when the earlier parts and the last part
      do, and appends the last part's rows. */
  lemma AccumulateStep<M>(parts: seq<Result<Frame<M>, Error>>)
    requires PartsShaped(parts) && parts != []
    ensures PartsShaped(parts[..|parts| - 1])
    ensures var prev := Accumulate(parts[..|parts| - 1]);
      && (Accumulate(parts).Ok? <==> prev.Ok? && parts[|parts| - 1].Ok?)
      && (Accumulate(parts).Ok? ==>
            Accumulate(parts).value.rows == prev.value.rows + parts[|parts| - 1].value.rows)
      && (prev.Ok? && parts[|parts| - 1].Err? ==> Accumulate(parts) == Err(parts[|parts| - 1].error))
  {
    var n := |parts| - 1;
    var prev := Accumulate(parts[..n]);
    if prev.Ok? && parts[n].Ok? {
      ConcatSameColumns(prev.value, parts[n].value);
    }
  }

  /** One more part: the accumulation of the longer prefix appends that part to the
      shorter one's table, or raises that part's exception. */
  lemma AccumulateNext<M>(parts: seq<Result<Frame<M>, Error>>, i: nat, acc: Frame<M>)
    requires PartsShaped(parts) && i < |parts|
    requires Accumulate(parts[..i]) == Ok(acc)
    ensures WellFormed(acc)
    ensures parts[i].Ok? ==> Accumulate(parts[..i + 1]) == Ok(Concat(acc, parts[i].value))
    ensures parts[i].Err? ==> Accumulate(parts[..i + 1]) == Err(parts[i].error)
  {
    assert parts[..i + 1][..i] == parts[..i];
  }

  /** The accumulation succeeds exactly when every part does, and then holds all their
      rows in order. */
  lemma {:induction false} AccumulateIsConcatenation<M>(parts: seq<Result<Frame<M>, Error>>)
    requires PartsShaped(parts)
    ensures Accumulate(parts).Ok? <==> AllOk(parts)
    ensures Accumulate(parts).Ok? ==> Accumulate(parts).value.rows == AllRows(parts)
  {
    if parts != [] {
      var n := |parts| - 1;
      var init := parts[..n];
      AccumulateStep(parts);
      AccumulateIsConcatenation(init);
      AllOkSplit(parts);
    }
  }

  /** No part raised. */
  predicate AllOk<M>(parts: seq<Result<Frame<M>, Error>>) {
    forall k :: 0 <= k < |parts| ==> parts[k].Ok?
  }

  /** The parts all succeed when the earlier ones and the last one do. */
  lemma AllOkSplit<M>(parts: seq<Result<Frame<M>, Error>>)
    requires parts != []
    ensures AllOk(parts) <==> AllOk(parts[..|parts| - 1]) && parts[|parts| - 1].Ok?
  {
    var n := |parts| - 1;
    assert forall k :: 0 <= k < n ==> parts[..n][k] == parts[k];
  }

  /** Once the accumulation of a prefix has raised, the later parts change nothing. */
  lemma {:induction false} AccumulateStaysFailed<M>(parts: seq<Result<Frame<M>, Error>>, i: nat)
    requires PartsShaped(parts) && i <= |parts|
    requires Accumulate(parts[..i]).Err?
    ensures Accumulate(parts) == Accumulate(parts[..i])
    decreases |parts| - i
  {
    if i < |parts| {
      assert parts[..i + 1][..i] == parts[..i];
      AccumulateStaysFailed(parts, i + 1);
    } else {
      assert parts[..i] == parts;
    }
  }

  /** The exception of a failing accumulation is that of its first failing part. */
  lemma AccumulateFirstError<M>(parts: seq<Result<Frame<M>, Error>>, k: nat)
    requires PartsShaped(parts)
    requires k < |parts| && parts[k].Err?
    requires forall i :: 0 <= i < k ==> parts[i].Ok?
    ensures Accumulate(parts) == Err(parts[k].error)
  {
    var upto := parts[..k + 1];
    assert PartsShaped(upto) && upto[k] == parts[k];
    assert forall i :: 0 <= i < k ==> upto[i].Ok? by {
      forall i | 0 <= i < k ensures upto[i].Ok? { assert upto[i] == parts[i]; }
    }
    AccumulateFailsAt(upto, parts[k].error);
    AccumulateStaysFailed(parts, k + 1);
  }

  /** A run whose earlier parts succeed and whose last part raised fails with that exception. */
  lemma AccumulateFailsAt<M>(parts: seq<Result<Frame<M>, Error>>, e: Error)
    requires PartsShaped(parts) && parts != [] && parts[|parts| - 1] == Err(e)
    requires forall i :: 0 <= i < |parts| - 1 ==> parts[i].Ok?
    ensures Accumulate(parts) == Err(e)
  {
    var n := |parts| - 1;
    assert AllOk(parts[..n]) by {
      forall i | 0 <= i < n ensures parts[..n][i].Ok? { assert parts[..n][i] == parts[i]; }
    }
    AccumulateIsConcatenation(parts[..n]);
    AccumulateStep(parts);
  }

  /** What processing each file of a year directory gives, in glob order. */
  function EnrichAll<M(==)>(files: seq<Frame<M>>, mapping: Frame<M>): (parts: seq<Result<Frame<M>, Error>>)
    requires forall k :: 0 <= k < |files| ==> WellFormed(files[k])
    requires WellFormed(mapping)
    ensures |parts| == |files|
  {
    seq(|files|, k requires 0 <= k < |files| => Enrich(files[k], mapping))
  }

  /** The k-th part is the k-th file processed; every part that succeeds has the
      output columns. */
  lemma EnrichAllAt<M>(files: seq<Frame<M>>, mapping: Frame<M>)
    requires forall k :: 0 <= k < |files| ==> WellFormed(files[k])
    requires WellFormed(mapping)
    ensures forall k :: 0 <= k < |files| ==> EnrichAll(files, mapping)[k] == Enrich(files[k], mapping)
    ensures PartsShaped(EnrichAll(files, mapping))
  {
  }

  /** The table of one year directory, or the exception that ends it. */
  function YearTable<M(==)>(files: seq<Frame<M>>, mapping: Frame<M>): (r: Result<Frame<M>, Error>)
    requires forall k :: 0 <= k < |files| ==> WellFormed(files[k])
    requires WellFormed(mapping)
    ensures r.Ok? ==> WellFormed(r.value)
    ensures r.Ok? ==> r.value.columns == if files == [] then [] else OutputColumns()
  {
    EnrichAllAt(files, mapping);
    Accumulate(EnrichAll(files, mapping))
  }

  /** The number of data lines of the raw files: each loses its secondary header line. */
  function DataLines<M>(files: seq<Frame<M>>): nat {
    if files == [] then 0
    else
      var n := |files| - 1;
      DataLines(files[..n]) + (if files[n].rows == [] then 0 else |files[n].rows| - 1)
  }

  /** When every file is processed, the concatenated rows number the files' data lines. */
  lemma {:induction false} AllRowsCount<M>(files: seq<Frame<M>>, mapping: Frame<M>)
    requires WellFormed(mapping)
    requires forall k :: 0 <= k < |files| ==> WellFormed(files[k]) && Enrich(files[k], mapping).Ok?
    ensures |AllRows(EnrichAll(files, mapping))| == DataLines(files)
  {
    if files != [] {
      var n := |files| - 1;
      assert EnrichAll(files, mapping)[..n] == EnrichAll(files[..n], mapping);
      AllRowsCount(files[..n], mapping);
      EnrichKeepsRawCells(files[n], mapping);
    }
  }

  /** A year succeeds exactly when every one of its files does; the year table then holds
      the enriched rows of its files in glob order, one per data line. */
  lemma YearTableIsConcatenation<M>(files: seq<Frame<M>>, mapping: Frame<M>)
    requires forall k :: 0 <= k < |files| ==> WellFormed(files[k])
    requires WellFormed(mapping)
    ensures YearTable(files, mapping).Ok? <==> forall k :: 0 <= k < |files| ==> Enrich(files[k], mapping).Ok?
    ensures YearTable(files, mapping).Ok? ==>
      && YearTable(files, mapping).value.rows == AllRows(EnrichAll(files, mapping))
      && |YearTable(files, mapping).value.rows| == DataLines(files)
  {
    EnrichAllAt(files, mapping);
    AccumulateIsConcatenation(EnrichAll(files, mapping));
    if YearTable(files, mapping).Ok? {
      AllRowsCount(files, mapping);
    }
  }

  /** The exception of a failing year is that of its first failing file. */
  lemma YearTableFirstError<M>(files: seq<Frame<M>>, mapping: Frame<M>, k: nat)
    requires forall i :: 0 <= i < |files| ==> WellFormed(files[i])
    requires WellFormed(mapping)
    requires k < |files| && Enrich(files[k], mapping).Err?
    requires forall i :: 0 <= i < k ==> Enrich(files[i], mapping).Ok?
    ensures YearTable(files, mapping) == Err(Enrich(files[k], mapping).error)
  {
    EnrichAllAt(files, mapping);
    AccumulateFirstError(EnrichAll(files, mapping), k);
  }

  /** Lines 26-60 for one year directory: the loop that builds `combined_data`. An
      exception from any file propagates. */
  method MergeYear<M(==)>(files: seq<Frame<M>>, mapping: Frame<M>) returns (r: Result<Frame<M>, Error>)
    requires forall k :: 0 <= k < |files| ==> WellFormed(files[k])
    requires WellFormed(mapping)
    ensures r == YearTable(files, mapping)
  {
    ghost var parts := EnrichAll(files, mapping);
    EnrichAllAt(files, mapping);
    var combined := Frame([], []);
    var i := 0;
    while i < |files|
      invariant 0 <= i <= |files|
      invariant Accumulate(parts[..i]) == Ok(combined)
    {
      var data := Enrich(files[i], mapping);
      AccumulateNext(parts, i, combined);
      if data.Err? {
        AccumulateStaysFailed(parts, i + 1);
        return Err(data.error);
      }
      combined := Concat(combined, data.value);
      i := i + 1;
    }
    assert parts[..i] == parts;
    return Ok(combined);
  }

  // ---------------------------------------------------------------------------------
  // The outer loop over the data directory

  /** An entry of the data directory: a year directory with its raw files (in glob
      order), or anything else, which the loop skips. */
  datatype Entry<M> = YearDir(name: string, files: seq<Frame<M>>) | OtherEntry(name: string)

  predicate EntriesWellFormed<M>(entries: seq<Entry<M>>) {
    forall i, k :: 0 <= i < |entries| && entries[i].YearDir? && 0 <= k < |entries[i].files| ==>
      WellFormed(entries[i].files[k])
  }

  /** `f"{data_dir}/{year}.csv"`. */
  function YearPath(dataDir: string, year: string): string {
    dataDir + "/" + year + ".csv"
  }

  /** merge_data from entry `k` on, with the files `written` so far: every year
      directory, in iteration order, gets its year file, empty years included; the first
      exception ends the run with the earlier files written. */
  function MergeFrom<M(==)>(dataDir: string, entries: seq<Entry<M>>, mapping: Frame<M>, k: nat,
                            written: seq<Written<Frame<M>>>): (o: Outcome<Frame<M>>)
    requires EntriesWellFormed(entries) && WellFormed(mapping) && k <= |entries|
    decreases |entries| - k
  {
    if k == |entries| then Outcome(written, None)
    else match entries[k]
      case OtherEntry(_) => MergeFrom(dataDir, entries, mapping, k + 1, written)
      case YearDir(year, files) =>
        match YearTable(files, mapping)
        case Ok(t) => MergeFrom(dataDir, entries, mapping, k + 1, written + [Written(YearPath(dataDir, year), t)])
        case Err(e) => Outcome(written, Some(e))
  }

  /** The year directories from entry `k` on, in order. */
  function YearDirsFrom<M>(entries: seq<Entry<M>>, k: nat): (ys: seq<Entry<M>>)
    requires k <= |entries|
    ensures |ys| <= |entries| - k
    ensures forall y :: y in ys ==> y in entries && y.YearDir?
    decreases |entries| - k
  {
    if k == |entries| then []
    else (if entries[k].YearDir? then [entries[k]] else []) + YearDirsFrom(entries, k + 1)
  }

  /** The file a run writes for a year directory whose table succeeds. */
  function YearFile<M(==)>(dataDir: string, y: Entry<M>, mapping: Frame<M>): Written<Frame<M>>
    requires y.YearDir? && (forall k :: 0 <= k < |y.files| ==> WellFormed(y.files[k])) && WellFormed(mapping)
    requires YearTable(y.files, mapping).Ok?
  {
    Written(YearPath(dataDir, y.name), YearTable(y.files, mapping).value)
  }

  /** A year directory whose table succeeds adds its year file and the run goes on. */
  lemma MergeFromYear<M>(dataDir: string, entries: seq<Entry<M>>, mapping: Frame<M>,
                         k: nat, written: seq<Written<Frame<M>>>)
    requires EntriesWellFormed(entries) && WellFormed(mapping) && k < |entries|
    requires entries[k].YearDir? && YearTable(entries[k].files, mapping).Ok?
    ensures MergeFrom(dataDir, entries, mapping, k, written)
         == MergeFrom(dataDir, entries, mapping, k + 1, written + [YearFile(dataDir, entries[k], mapping)])
  {
  }

  /** A run from entry `k` keeps the files already written and appends what a fresh
      run from `k` writes. */
  lemma {:induction false} MergeFromAppends<M>(dataDir: string, entries: seq<Entry<M>>, mapping: Frame<M>,
                                               k: nat, written: seq<Written<Frame<M>>>)
    requires EntriesWellFormed(entries) && WellFormed(mapping) && k <= |entries|
    ensures var run := MergeFrom(dataDir, entries, mapping, k, []);
      MergeFrom(dataDir, entries, mapping, k, written) == Outcome(written + run.written, run.failure)
    decreases |entries| - k
  {
    if k < |entries| {
      var e := entries[k];
      if e.OtherEntry? {
        MergeFromAppends(dataDir, entries, mapping, k + 1, written);
      } else if YearTable(e.files, mapping).Ok? {
        var f := YearFile(dataDir, e, mapping);
        var rest := MergeFrom(dataDir, entries, mapping, k + 1, []);
        MergeFromYear(dataDir, entries, mapping, k, written);
        MergeFromYear(dataDir, entries, mapping, k, []);
        assert [] + [f] == [f];
        MergeFromAppends(dataDir, entries, mapping, k + 1, written + [f]);
        MergeFromAppends(dataDir, entries, mapping, k + 1, [f]);
        assert (written + [f]) + rest.written == written + ([f] + rest.written);
      }
    }
  }

  /** A fresh run from entry `k` writes, in order, the year file of each later year
      directory up to the first one whose table fails. */
  ghost predicate WritesYearFiles<M>(dataDir: string, entries: seq<Entry<M>>, mapping: Frame<M>, k: nat)
    requires EntriesWellFormed(entries) && WellFormed(mapping) && k <= |entries|
  {
    var o := MergeFrom(dataDir, entries, mapping, k, []);
    var ys := YearDirsFrom(entries, k);
    && |o.written| <= |ys|
    && forall j :: 0 <= j < |o.written| ==> IsYearFile(dataDir, entries, mapping, ys[j], o.written[j])
  }

  /** `w` is the year file of `y`, a year directory among the entries whose table succeeds. */
  ghost predicate IsYearFile<M>(dataDir: string, entries: seq<Entry<M>>, mapping: Frame<M>, y: Entry<M>, w: Written<Frame<M>>)
    requires WellFormed(mapping)
  {
    && y in entries && y.YearDir?
    && (forall k :: 0 <= k < |y.files| ==> WellFormed(y.files[k]))
    && YearTable(y.files, mapping).Ok?
    && w == YearFile(dataDir, y, mapping)
  }

  lemma {:induction false} MergeFromWritesYears<M>(dataDir: string, entries: seq<Entry<M>>, mapping: Frame<M>, k: nat)
    requires EntriesWellFormed(entries) && WellFormed(mapping) && k <= |entries|
    ensures WritesYearFiles(dataDir, entries, mapping, k)
    decreases |entries| - k
  {
    if k < |entries| {
      MergeFromWritesYears(dataDir, entries, mapping, k + 1);
      var e := entries[k];
      if e.OtherEntry? {
        assert MergeFrom(dataDir, entries, mapping, k, []) == MergeFrom(dataDir, entries, mapping, k + 1, []);
        assert YearDirsFrom(entries, k) == YearDirsFrom(entries, k + 1);
      } else if YearTable(e.files, mapping).Ok? {
        WritesAfterGoodYear(dataDir, entries, mapping, k);
      } else {
        assert MergeFrom(dataDir, entries, mapping, k, []).written == [];
      }
    }
  }

  /** A year directory whose table succeeds writes its year file first. */
  lemma WritesAfterGoodYear<M>(dataDir: string, entries: seq<Entry<M>>, mapping: Frame<M>, k: nat)
    requires EntriesWellFormed(entries) && WellFormed(mapping) && k < |entries|
    requires entries[k].YearDir? && YearTable(entries[k].files, mapping).Ok?
    requires WritesYearFiles(dataDir, entries, mapping, k + 1)
    ensures WritesYearFiles(dataDir, entries, mapping, k)
  {
    var e := entries[k];
    var f := YearFile(dataDir, e, mapping);
    var o, ys := MergeFrom(dataDir, entries, mapping, k, []), YearDirsFrom(entries, k);
    var o', ys' := MergeFrom(dataDir, entries, mapping, k + 1, []), YearDirsFrom(entries, k + 1);
    MergeFromYear(dataDir, entries, mapping, k, []);
    assert [] + [f] == [f];
    MergeFromAppends(dataDir, entries, mapping, k + 1, [f]);
    assert o.written == [f] + o'.written;
    assert ys == [e] + ys';
    assert IsYearFile(dataDir, entries, mapping, e, f);
    YearFilesCons(dataDir, entries, mapping, e, f, ys', o'.written);
  }

  /** Year files paired with year directories stay paired when one more pair goes in front. */
  lemma YearFilesCons<M>(dataDir: string, entries: seq<Entry<M>>, mapping: Frame<M>,
                         y: Entry<M>, w: Written<Frame<M>>, ys: seq<Entry<M>>, ws: seq<Written<Frame<M>>>)
    requires WellFormed(mapping) && IsYearFile(dataDir, entries, mapping, y, w)
    requires |ws| <= |ys| && forall j :: 0 <= j < |ws| ==> IsYearFile(dataDir, entries, mapping, ys[j], ws[j])
    ensures forall j :: 0 <= j < |ws| + 1 ==> IsYearFile(dataDir, entries, mapping, ([y] + ys)[j], ([w] + ws)[j])
  {
    forall j | 0 <= j < |ws| + 1
      ensures IsYearFile(dataDir, entries, mapping, ([y] + ys)[j], ([w] + ws)[j])
    {
      if j > 0 {
        assert ([w] + ws)[j] == ws[j - 1] && ([y] + ys)[j] == ys[j - 1];
      }
    }
  }

  /** A fresh run from entry `k` raises nothing exactly when it writes a file for every
      later year directory; when it raises, the error is that of the first year directory
      it did not write. */
  ghost predicate FailsAtFirstBadYear<M>(dataDir: string, entries: seq<Entry<M>>, mapping: Frame<M>, k: nat)
    requires EntriesWellFormed(entries) && WellFormed(mapping) && k <= |entries|
  {
    var o := MergeFrom(dataDir, entries, mapping, k, []);
    var ys := YearDirsFrom(entries, k);
    && |o.written| <= |ys|
    && (o.failure.None? <==> |o.written| == |ys|)
    && (o.failure.Some? ==>
          && ys[|o.written|] in entries
          && YearTable(ys[|o.written|].files, mapping) == Err(o.failure.value))
  }

  lemma {:induction false} MergeFromFailure<M>(dataDir: string, entries: seq<Entry<M>>, mapping: Frame<M>, k: nat)
    requires EntriesWellFormed(entries) && WellFormed(mapping) && k <= |entries|
    ensures FailsAtFirstBadYear(dataDir, entries, mapping, k)
    decreases |entries| - k
  {
    if k < |entries| {
      MergeFromFailure(dataDir, entries, mapping, k + 1);
      var e := entries[k];
      if e.OtherEntry? {
        FailureAfterOtherEntry(dataDir, entries, mapping, k);
      } else if YearTable(e.files, mapping).Ok? {
        FailureAfterGoodYear(dataDir, entries, mapping, k);
      } else {
        FailureAtBadYear(dataDir, entries, mapping, k);
      }
    }
  }

  /** An entry that is not a year directory changes nothing. */
  lemma FailureAfterOtherEntry<M>(dataDir: string, entries: seq<Entry<M>>, mapping: Frame<M>, k: nat)
    requires EntriesWellFormed(entries) && WellFormed(mapping) && k < |entries|
    requires entries[k].OtherEntry?
    requires FailsAtFirstBadYear(dataDir, entries, mapping, k + 1)
    ensures FailsAtFirstBadYear(dataDir, entries, mapping, k)
  {
    assert MergeFrom(dataDir, entries, mapping, k, []) == MergeFrom(dataDir, entries, mapping, k + 1, []);
    assert YearDirsFrom(entries, k) == YearDirsFrom(entries, k + 1);
  }

  /** A year directory whose table fails is the first bad year. */
  lemma FailureAtBadYear<M>(dataDir: string, entries: seq<Entry<M>>, mapping: Frame<M>, k: nat)
    requires EntriesWellFormed(entries) && WellFormed(mapping) && k < |entries|
    requires entries[k].YearDir? && YearTable(entries[k].files, mapping).Err?
    ensures FailsAtFirstBadYear(dataDir, entries, mapping, k)
  {
    var e := entries[k];
    assert MergeFrom(dataDir, entries, mapping, k, []) == Outcome([], Some(YearTable(e.files, mapping).error));
    assert YearDirsFrom(entries, k)[0] == e;
  }

  /** A year directory whose table succeeds moves the first bad year one file on. */
  lemma FailureAfterGoodYear<M>(dataDir: string, entries: seq<Entry<M>>, mapping: Frame<M>, k: nat)
    requires EntriesWellFormed(entries) && WellFormed(mapping) && k < |entries|
    requires entries[k].YearDir? && YearTable(entries[k].files, mapping).Ok?
    requires FailsAtFirstBadYear(dataDir, entries, mapping, k + 1)
    ensures FailsAtFirstBadYear(dataDir, entries, mapping, k)
  {
    var e := entries[k];
    var f := YearFile(dataDir, e, mapping);
    var o, ys := MergeFrom(dataDir, entries, mapping, k, []), YearDirsFrom(entries, k);
    var o', ys' := MergeFrom(dataDir, entries, mapping, k + 1, []), YearDirsFrom(entries, k + 1);
    MergeFromYear(dataDir, entries, mapping, k, []);
    assert [] + [f] == [f];
    MergeFromAppends(dataDir, entries, mapping, k + 1, [f]);
    assert o == Outcome([f] + o'.written, o'.failure);
    assert ys == [e] + ys';
    assert o.failure.Some? ==> ys[|o.written|] == ys'[|o'.written|];
  }

  /** merge_data over the whole data directory. */
  function MergeRun<M(==)>(dataDir: string, entries: seq<Entry<M>>, mapping: Frame<M>): (o: Outcome<Frame<M>>)
    requires EntriesWellFormed(entries) && WellFormed(mapping)
  {
    MergeFrom(dataDir, entries, mapping, 0, [])
  }

  /** The k-th written file is the year file of the k-th year directory. A run that
      raises nothing writes one file per year directory; one that raises stops at the
      first year directory whose table fails, with that error. */
  lemma MergeRunWritesYears<M>(dataDir: string, entries: seq<Entry<M>>, mapping: Frame<M>)
    requires EntriesWellFormed(entries) && WellFormed(mapping)
    ensures var o := MergeRun(dataDir, entries, mapping);
      var ys := YearDirsFrom(entries, 0);
      && |o.written| <= |ys|
      && (forall k :: 0 <= k < |o.written| ==>
            ys[k] in entries && YearTable(ys[k].files, mapping).Ok?
            && o.written[k] == YearFile(dataDir, ys[k], mapping))
      && (o.failure.None? <==> |o.written| == |ys|)
      && (o.failure.Some? ==>
            && ys[|o.written|] in entries
            && YearTable(ys[|o.written|].files, mapping) == Err(o.failure.value))
  {
    MergeFromWritesYears(dataDir, entries, mapping, 0);
    MergeFromFailure(dataDir, entries, mapping, 0);
    assert WritesYearFiles(dataDir, entries, mapping, 0);
    assert FailsAtFirstBadYear(dataDir, entries, mapping, 0);
  }

  /** Lines 23-64: the loop over the data directory, writing one year file per year
      directory. `data_dir` is where the year files go. */
  method MergeData<M(==)>(dataDir: string, entries: seq<Entry<M>>, mapping: Frame<M>) returns (o: Outcome<Frame<M>>)
    requires EntriesWellFormed(entries) && WellFormed(mapping)
    ensures o == MergeRun(dataDir, entries, mapping)
  {
    var written: seq<Written<Frame<M>>> := [];
    var i := 0;
    while i < |entries|
      invariant 0 <= i <= |entries|
      invariant MergeFrom(dataDir, entries, mapping, i, written) == MergeRun(dataDir, entries, mapping)
    {
      var entry := entries[i];
      if entry.YearDir? {
        var table := MergeYear(entry.files, mapping);
        if table.Err? {
          return Outcome(written, Some(table.error));
        }
        written := written + [Written(YearPath(dataDir, entry.name), table.value)];
      }
      i := i + 1;
    }
    o := Outcome(written, None);
  }
}
