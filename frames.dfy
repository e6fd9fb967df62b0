/** Abstract tables, standing for pandas DataFrames: an ordered list of column labels
    and a sequence of rows, each row a map from column label to a possibly missing cell. */
module Frames {
  import opened Wrappers

  type Column = string

  /** A cell that is present: a string, or some other value (a measurement) whose meaning
      the model does not look at. */
  datatype Cell<M> = Text(s: string) | Num(m: M)

  /** A row; a missing cell (NaN) is `None`. */
  type Row<M> = map<Column, Option<Cell<M>>>

  datatype Frame<M> = Frame(columns: seq<Column>, rows: seq<Row<M>>)

  /** The exceptions the pipeline can raise, as far as the model distinguishes them. */
  datatype Error =
    | MissingColumn(name: Column)   // KeyError for a column that is not there
    | DuplicateColumns              // two columns end up with the same label
    | NotManyToOne                  // merge(validate="many_to_one") finds a repeated right key
    | BadDate(row: nat)             // to_datetime cannot parse the date of this row
    | BadHourLabel(hour: Column)    // to_timedelta cannot parse "<hour>:00:00"

  predicate Distinct<T(==)>(s: seq<T>) {
    forall i, j :: 0 <= i < j < |s| ==> s[i] != s[j]
  }

  function ColumnSet(cols: seq<Column>): set<Column> {
    set c | c in cols
  }

  lemma ColumnSetConcat(a: seq<Column>, b: seq<Column>)
    ensures ColumnSet(a + b) == ColumnSet(a) + ColumnSet(b)
  {
    forall c | c in ColumnSet(a) + ColumnSet(b) ensures c in ColumnSet(a + b) {
      if c in a {
        var k :| 0 <= k < |a| && a[k] == c;
        assert (a + b)[k] == c;
      } else {
        var k :| 0 <= k < |b| && b[k] == c;
        assert (a + b)[|a| + k] == c;
      }
    }
  }

  /** Two sequences whose concatenation is duplicate-free are themselves duplicate-free
      and share no element. */
  lemma DistinctConcat<T>(a: seq<T>, b: seq<T>)
    ensures Distinct(a + b) ==> Distinct(a) && Distinct(b) && forall x :: x in a ==> x !in b
  {
    if Distinct(a + b) {
      forall i, j | 0 <= i < j < |a| ensures a[i] != a[j] {
        assert a[i] == (a + b)[i] && a[j] == (a + b)[j];
      }
      forall i, j | 0 <= i < j < |b| ensures b[i] != b[j] {
        assert b[i] == (a + b)[|a| + i] && b[j] == (a + b)[|a| + j];
      }
      forall i, j | 0 <= i < |a| && 0 <= j < |b| ensures a[i] != b[j] {
        assert a[i] == (a + b)[i] && b[j] == (a + b)[|a| + j];
      }
    }
  }

  /** Two duplicate-free sequences with no element in common concatenate to a
      duplicate-free one. */
  lemma DistinctAppend<T>(a: seq<T>, b: seq<T>)
    requires Distinct(a) && Distinct(b) && forall x :: x in b ==> x !in a
    ensures Distinct(a + b)
  {
    forall i, j | 0 <= i < j < |a + b| ensures (a + b)[i] != (a + b)[j] {
      if j < |a| {
        assert (a + b)[i] == a[i] && (a + b)[j] == a[j];
      } else if i >= |a| {
        assert (a + b)[i] == b[i - |a|] && (a + b)[j] == b[j - |a|];
      } else {
        assert (a + b)[i] == a[i] && (a + b)[j] == b[j - |a|];
        assert b[j - |a|] in b;
      }
    }
  }

  lemma EmptyColumnSet(cols: seq<Column>)
    ensures ColumnSet(cols) == {} ==> cols == []
  {
    if cols != [] {
      assert cols[0] in ColumnSet(cols);
    }
  }

  /** What every DataFrame read from a file satisfies: distinct column labels, and every
      row holds exactly one (possibly missing) cell for each column. */
  predicate WellFormed<M>(f: Frame<M>) {
    && Distinct(f.columns)
    && forall i :: 0 <= i < |f.rows| ==> f.rows[i].Keys == ColumnSet(f.columns)
  }

  /** The row that has `vals[i]` under label `names[i]`. */
  function Zip<M>(names: seq<Column>, vals: seq<Option<Cell<M>>>): (r: Row<M>)
    requires |names| == |vals|
    ensures r.Keys == ColumnSet(names)
    ensures Distinct(names) ==> forall i :: 0 <= i < |names| ==> r[names[i]] == vals[i]
  {
    if names == [] then map[]
    else
      var n := |names| - 1;
      var r := Zip(names[..n], vals[..n]);
      LastLabel(names);
      r[names[n] := vals[n]]
  }

  /** The labels are those before the last one plus the last one, which, when the
      labels are distinct, none of the others repeats. */
  lemma LastLabel(names: seq<Column>)
    requires names != []
    ensures ColumnSet(names) == ColumnSet(names[..|names| - 1]) + {names[|names| - 1]}
    ensures Distinct(names) ==> Distinct(names[..|names| - 1]) && names[|names| - 1] !in ColumnSet(names[..|names| - 1])
  {
    var n := |names| - 1;
    assert names == names[..n] + [names[n]];
    ColumnSetConcat(names[..n], [names[n]]);
    DistinctConcat(names[..n], [names[n]]);
  }

  /** The cells of `row` under `cols`, in that order. */
  function Values<M>(row: Row<M>, cols: seq<Column>): (vs: seq<Option<Cell<M>>>)
    requires forall c :: c in cols ==> c in row
    ensures |vs| == |cols|
    ensures forall i :: 0 <= i < |cols| ==> vs[i] == row[cols[i]]
  {
    seq(|cols|, i requires 0 <= i < |cols| => row[cols[i]])
  }

  // ---------------------------------------------------------------------------------
  // Column filtering, shared by drop and concat

  /** `cols` without the labels in `drop`, order kept. */
  function Except(cols: seq<Column>, drop: set<Column>): (r: seq<Column>)
    ensures ColumnSet(r) == ColumnSet(cols) - drop
    ensures Distinct(cols) ==> Distinct(r)
    ensures |r| <= |cols|
  {
    if cols == [] then []
    else
      var n := |cols| - 1;
      var p := Except(cols[..n], drop);
      assert cols == cols[..n] + [cols[n]];
      ColumnSetConcat(cols[..n], [cols[n]]);
      ColumnSetConcat(p, [cols[n]]);
      assert Distinct(cols) ==> cols[n] !in ColumnSet(cols[..n]);
      assert Distinct(cols) ==> forall i :: 0 <= i < |p| ==> p[i] != cols[n] by {
        if Distinct(cols) {
          forall i | 0 <= i < |p| ensures p[i] != cols[n] { assert p[i] in ColumnSet(p); }
        }
      }
      if cols[n] in drop then p else p + [cols[n]]
  }

  /** The first label of `want` that `have` lacks. */
  function FirstMissing(want: seq<Column>, have: seq<Column>): (m: Option<Column>)
    ensures m.None? <==> forall c :: c in want ==> c in have
    ensures m.Some? ==> m.value in want && m.value !in have
  {
    if want == [] then None
    else if want[0] !in have then Some(want[0])
    else FirstMissing(want[1..], have)
  }
}
