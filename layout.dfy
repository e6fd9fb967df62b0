/** The layout of a year table, shared by the merge stage, which writes it, and the
    transform stage, which reads it; and what a run over a directory leaves behind. */
module YearLayout {
  import opened Wrappers
  import opened Frames

  const Station := "測站"
  const County := "縣市"
  const AirRegion := "空管區"
  const Date := "日期"
  const Quantity := "測項"
  /** The five columns that identify a measurement row. */
  const KeyColumns: seq<Column> := [Station, County, AirRegion, Date, Quantity]

  /** `str(h).zfill(2)`. */
  function HourLabel(h: nat): (c: Column)
    requires h < 24
    ensures |c| == 2 && '0' <= c[0] <= '2' && '0' <= c[1] <= '9'
    ensures (c[0] as int - '0' as int) * 10 + (c[1] as int - '0' as int) == h
  {
    var digits := "0123456789";
    [digits[h / 10], digits[h % 10]]
  }

  /** The 24 hour columns "00" .. "23". */
  function HourLabels(): (hs: seq<Column>)
    ensures |hs| == 24
    ensures forall h :: 0 <= h < 24 ==> hs[h] == HourLabel(h)
  {
    seq(24, h requires 0 <= h < 24 => HourLabel(h))
  }

  /** `columns_order`: the five key columns, then the hour columns; 29 distinct labels. */
  function OutputColumns(): (cs: seq<Column>)
    ensures |cs| == 29 && cs[..5] == KeyColumns && cs[5..] == HourLabels()
    ensures Distinct(cs)
  {
    var cs := KeyColumns + HourLabels();
    assert Distinct(cs) by {
      HourLabelsDistinct();
      forall i, j | 0 <= i < j < |cs| ensures cs[i] != cs[j] {
        if j >= 5 {
          assert cs[j] == HourLabels()[j - 5];
          if i >= 5 { assert cs[i] == HourLabels()[i - 5]; }
          else { assert |cs[i]| == 2 ==> cs[i][0] !in "012"; }
        }
      }
    }
    cs
  }

  lemma HourLabelsDistinct()
    ensures Distinct(HourLabels())
  {
    forall i, j | 0 <= i < j < 24 ensures HourLabels()[i] != HourLabels()[j] {
      var a, b := HourLabel(i), HourLabel(j);
      assert (a[0] as int - '0' as int) * 10 + (a[1] as int - '0' as int) == i;
      assert (b[0] as int - '0' as int) * 10 + (b[1] as int - '0' as int) == j;
    }
  }

  // ---------------------------------------------------------------------------------
  // What a run leaves behind

  /** A file the run writes. */
  datatype Written<T> = Written(path: string, table: T)

  /** What a run leaves behind: the files written, in order, and the exception that
      ended it, if any. */
  datatype Outcome<T> = Outcome(written: seq<Written<T>>, failure: Option<Error>)
}
