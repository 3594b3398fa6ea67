/**
 The merged measurement table: an ordered sequence of rows, each tagged with
 the country it was measured in, and the column operations the statistics
 are built from (selecting one country's readings of one metric, and the
 distinct country labels in order of first appearance).
 */
module Frame {
  import opened Wrappers
  import opened Seqs

  /** The three irradiance columns the dashboard compares. */
  datatype Metric = GHI | DNI | DHI

  /** One measurement row; a `None` reading is a missing (NaN) cell. */
  datatype Row = Row(country: string, ghi: Option<real>, dni: Option<real>, dhi: Option<real>)
  {
    /** The cell of this row in column `m`. */
    function Value(m: Metric): Option<real>
    {
      match m
      case GHI => ghi
      case DNI => dni
      case DHI => dhi
    }
  }

  /** The `Country` column of the table. */
  function Labels(rows: seq<Row>): seq<string>
  {
    seq(|rows|, i requires 0 <= i < |rows| => rows[i].country)
  }

  /**
   The cells of column `m` in the rows labelled `c`, in row order, missing
   cells included (a boolean row selection followed by a column projection).
   There is one cell per row carrying the label, missing or not.
   */
  function Column(rows: seq<Row>, m: Metric, c: string): (col: seq<Option<real>>)
    ensures |col| == multiset(Labels(rows))[c]
  {
    if rows == [] then []
    else
      assert Labels(rows) == [rows[0].country] + Labels(rows[1..]);
      (if rows[0].country == c then [rows[0].Value(m)] else []) + Column(rows[1..], m, c)
  }

  /** The cells of column `m`, one per row, in row order. */
  function Cells(rows: seq<Row>, m: Metric): (col: seq<Option<real>>)
    ensures |col| == |rows|
  {
    if rows == [] then [] else [rows[0].Value(m)] + Cells(rows[1..], m)
  }

  /** The rows labelled `c` whose cell in column `m` is `v`, in row order. */
  function RowsWith(rows: seq<Row>, m: Metric, c: string, v: Option<real>): seq<Row>
  {
    Filter(rows, (r: Row) => r.country == c && r.Value(m) == v)
  }

  /** A country's column is the column projection of the rows its label selects. */
  lemma {:induction false} ColumnIsSelection(rows: seq<Row>, m: Metric, c: string)
    ensures Column(rows, m, c) == Cells(Filter(rows, (r: Row) => r.country == c), m)
  {
    if rows != [] {
      ColumnIsSelection(rows[1..], m, c);
      var rest := Filter(rows[1..], (r: Row) => r.country == c);
      if rows[0].country == c {
        ConcatCons([rows[0]], rest);
      } else {
        assert Filter(rows, (r: Row) => r.country == c) == rest;
      }
    }
  }

  /** A cell value occurs in a country's column once per row of that country carrying it. */
  lemma {:induction false} ColumnCount(rows: seq<Row>, m: Metric, c: string, v: Option<real>)
    ensures multiset(Column(rows, m, c))[v] == |RowsWith(rows, m, c, v)|
  {
    if rows != [] {
      ColumnCount(rows[1..], m, c, v);
    }
  }

  /** Every cell of a country's column comes from a row with that label. */
  lemma {:induction false} ColumnCells(rows: seq<Row>, m: Metric, c: string, v: Option<real>)
    ensures v in Column(rows, m, c) <==> exists i :: 0 <= i < |rows| && rows[i].country == c && rows[i].Value(m) == v
  {
    if rows != [] {
      ColumnCells(rows[1..], m, c, v);
      if v in Column(rows[1..], m, c) {
        var i :| 0 <= i < |rows[1..]| && rows[1..][i].country == c && rows[1..][i].Value(m) == v;
        assert rows[i + 1] == rows[1..][i];
      }
      if exists i :: 0 <= i < |rows| && rows[i].country == c && rows[i].Value(m) == v {
        var i :| 0 <= i < |rows| && rows[i].country == c && rows[i].Value(m) == v;
        if i > 0 {
          assert rows[1..][i - 1] == rows[i];
        }
      }
    }
  }

  /** The position of the first occurrence of `x` in `s`. */
  function FirstIndex<T(==)>(s: seq<T>, x: T): (k: nat)
    requires x in s
    ensures k < |s| && s[k] == x && x !in s[..k]
  {
    if s[0] == x then 0
    else
      var k := 1 + FirstIndex(s[1..], x);
      assert s[..k] == [s[0]] + s[1..][..k - 1];
      k
  }

  /** An index holding `x` with no earlier `x` is the first index of `x`. */
  lemma FirstIndexUnique<T>(s: seq<T>, x: T, k: nat)
    requires k < |s| && s[k] == x && x !in s[..k]
    ensures FirstIndex(s, x) == k
  {
  }

  /**
   The distinct labels of `s`, each once, in order of first appearance
   (the order in which `unique()` reports them).
   */
  function Distinct(s: seq<string>): (d: seq<string>)
    ensures NoDup(d)
    ensures forall x :: x in d <==> x in s
  {
    if s == [] then []
    else
      var p := Distinct(s[..|s| - 1]);
      assert s == s[..|s| - 1] + [s[|s| - 1]];
      if s[|s| - 1] in p then p else p + [s[|s| - 1]]
  }

  /** The distinct labels are listed in the order in which each first appears. */
  lemma {:induction false} DistinctFirstAppearance(s: seq<string>)
    ensures forall i, j :: 0 <= i < j < |Distinct(s)| ==>
              FirstIndex(s, Distinct(s)[i]) < FirstIndex(s, Distinct(s)[j])
  {
    if s != [] {
      var n := |s| - 1;
      var p := s[..n];
      DistinctFirstAppearance(p);
      var d, dp := Distinct(s), Distinct(p);
      assert s == p + [s[n]];
      forall y | y in p
        ensures FirstIndex(s, y) == FirstIndex(p, y)
      {
        var k := FirstIndex(p, y);
        assert s[..k] == p[..k];
        FirstIndexUnique(s, y, k);
      }
      if s[n] !in p {
        assert s[..n] == p;
        FirstIndexUnique(s, s[n], n);
        assert d == dp + [s[n]];
        forall i, j | 0 <= i < j < |d|
          ensures FirstIndex(s, d[i]) < FirstIndex(s, d[j])
        {
          assert d[i] == dp[i] && d[i] in p;
          if j < |dp| {
            assert d[j] == dp[j];
          }
        }
      } else {
        assert d == dp;
      }
    }
  }
}
