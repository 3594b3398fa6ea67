/**
 The per-country summary table: one row per distinct country, in order of
 first appearance, with the mean, median, minimum and maximum of the metric
 over the country's present readings and the count of all its rows.
 */
module Summary {
  import opened Wrappers
  import opened Frame
  import opened Seqs
  import opened Describe

  /** One row of the summary table (the standard deviation is not modelled). */
  datatype SummaryRow = SummaryRow(
    country: string,
    mean: Option<real>,
    median: Option<real>,
    min: Option<real>,
    max: Option<real>,
    count: nat)

  /** The summary row of a country with the given column: statistics over the present cells, count over all. */
  function StatsRow(c: string, col: seq<Option<real>>): SummaryRow
  {
    SummaryRow(c, Mean(col), Median(col), Min(col), Max(col), |col|)
  }

  /** The summary of country `c`'s column `m`. */
  function Summarize(rows: seq<Row>, m: Metric, c: string): SummaryRow
  {
    StatsRow(c, Column(rows, m, c))
  }

  /** The `Country` column of a summary table. */
  function Countries(table: seq<SummaryRow>): seq<string>
  {
    seq(|table|, i requires 0 <= i < |table| => table[i].country)
  }

  /** The summary rows of the given countries, in the given order. */
  function SummaryTable(rows: seq<Row>, m: Metric, countries: seq<string>): (table: seq<SummaryRow>)
    ensures |table| == |countries|
  {
    seq(|countries|, i requires 0 <= i < |countries| => Summarize(rows, m, countries[i]))
  }

  lemma SummaryTableStep(rows: seq<Row>, m: Metric, countries: seq<string>, i: nat)
    requires i < |countries|
    ensures SummaryTable(rows, m, countries[..i + 1]) ==
              SummaryTable(rows, m, countries[..i]) + [StatsRow(countries[i], Column(rows, m, countries[i]))]
  {
    var before, after := SummaryTable(rows, m, countries[..i]), SummaryTable(rows, m, countries[..i + 1]);
    var row := StatsRow(countries[i], Column(rows, m, countries[i]));
    forall k | 0 <= k < i + 1
      ensures after[k] == (before + [row])[k]
    {
      if k < i {
        assert countries[..i + 1][k] == countries[..i][k];
      }
    }
  }

  /**
   Builds the summary table by walking the distinct countries of the table
   and appending one summary row for each.
   */
  method CalculateStatistics(rows: seq<Row>, m: Metric) returns (table: seq<SummaryRow>)
    ensures table == SummaryTable(rows, m, Distinct(Labels(rows)))
    ensures NoDup(Countries(table))
    ensures forall c :: c in Countries(table) <==> c in Labels(rows)
    ensures forall i, j :: 0 <= i < j < |table| ==>
              FirstIndex(Labels(rows), Countries(table)[i]) < FirstIndex(Labels(rows), Countries(table)[j])
  {
    var countries := Distinct(Labels(rows));
    table := [];
    for i := 0 to |countries|
      invariant table == SummaryTable(rows, m, countries[..i])
    {
      var countryData := Column(rows, m, countries[i]);
      var row := StatsRow(countries[i], countryData);
      SummaryTableStep(rows, m, countries, i);
      table := table + [row];
    }
    assert countries[..|countries|] == countries;
    assert Countries(table) == countries;
    DistinctCountries(rows, table);
  }

  /** A table whose country column is the distinct labels lists each country once, in first-appearance order. */
  lemma DistinctCountries(rows: seq<Row>, table: seq<SummaryRow>)
    requires Countries(table) == Distinct(Labels(rows))
    ensures NoDup(Countries(table))
    ensures forall c :: c in Countries(table) <==> c in Labels(rows)
    ensures forall i, j :: 0 <= i < j < |table| ==>
              FirstIndex(Labels(rows), Countries(table)[i]) < FirstIndex(Labels(rows), Countries(table)[j])
  {
    DistinctFirstAppearance(Labels(rows));
  }

  /**
   A country's count is the number of rows carrying its label, missing
   readings included; it is never less than the number of present readings.
   */
  lemma CountIncludesMissing(rows: seq<Row>, m: Metric, c: string)
    ensures Summarize(rows, m, c).count == multiset(Labels(rows))[c]
    ensures Summarize(rows, m, c).count >= |Present(Column(rows, m, c))|
  {
  }

  /**
   The statistics are present exactly when the country has a present
   reading, and then the minimum bounds the mean and the median from below
   and the maximum bounds them from above.
   */
  lemma SummaryBounds(rows: seq<Row>, m: Metric, c: string)
    ensures var s := Summarize(rows, m, c);
      && (s.mean.Some? <==> exists i :: 0 <= i < |rows| && rows[i].country == c && rows[i].Value(m).Some?)
      && s.median.Some? == s.min.Some? == s.max.Some? == s.mean.Some?
      && (s.mean.Some? ==> s.min.value <= s.mean.value <= s.max.value)
      && (s.mean.Some? ==> s.min.value <= s.median.value <= s.max.value)
  {
    var xs := Present(Column(rows, m, c));
    HasReading(rows, m, c);
    if xs != [] {
      MeanOfBetween(xs);
      MedianOfBetween(xs);
    }
  }

  /**
   The readings a country's statistics are computed from are exactly its
   rows' present cells: each value occurs once per row of the country
   carrying it.
   */
  lemma Readings(rows: seq<Row>, m: Metric, c: string, x: real)
    ensures x in Present(Column(rows, m, c)) <==>
              exists i :: 0 <= i < |rows| && rows[i].country == c && rows[i].Value(m) == Some(x)
    ensures multiset(Present(Column(rows, m, c)))[x] == |RowsWith(rows, m, c, Some(x))|
  {
    PresentCount(Column(rows, m, c), x);
    ColumnCount(rows, m, c, Some(x));
    PresentMembers(Column(rows, m, c), x);
    ColumnCells(rows, m, c, Some(x));
  }

  /** A country has a present reading exactly when one of its rows has a present cell. */
  lemma HasReading(rows: seq<Row>, m: Metric, c: string)
    ensures Present(Column(rows, m, c)) != [] <==>
              exists i :: 0 <= i < |rows| && rows[i].country == c && rows[i].Value(m).Some?
  {
    var xs := Present(Column(rows, m, c));
    if xs != [] {
      Readings(rows, m, c, xs[0]);
    }
    if exists i :: 0 <= i < |rows| && rows[i].country == c && rows[i].Value(m).Some? {
      var i :| 0 <= i < |rows| && rows[i].country == c && rows[i].Value(m).Some?;
      Readings(rows, m, c, rows[i].Value(m).value);
    }
  }

  /**
   A row with a missing reading, inserted anywhere in the table, changes its
   country's count and nothing else.
   */
  lemma MissingRowOnlyCounts(rows: seq<Row>, m: Metric, r: Row, k: nat)
    requires k <= |rows| && r.Value(m) == None
    ensures var before, after := Summarize(rows, m, r.country), Summarize(rows[..k] + [r] + rows[k..], m, r.country);
      && after.count == before.count + 1
      && after.mean == before.mean && after.median == before.median
      && after.min == before.min && after.max == before.max
  {
    var c := r.country;
    var c1, c2 := Column(rows[..k], m, c), Column(rows[k..], m, c);
    assert rows == rows[..k] + rows[k..];
    ColumnAppend(rows[..k], rows[k..], m, c);
    ColumnAppend(rows[..k] + [r], rows[k..], m, c);
    ColumnAppend(rows[..k], [r], m, c);
    assert Column([r], m, c) == [None] by {
      assert [r][1..] == [];
    }
    var col := Column(rows, m, c);
    assert col[..|c1|] == c1 && col[|c1|..] == c2;
    MissingCellIgnored(col, |c1|);
  }

  lemma {:induction false} ColumnAppend(a: seq<Row>, b: seq<Row>, m: Metric, c: string)
    ensures Column(a + b, m, c) == Column(a, m, c) + Column(b, m, c)
  {
    if a == [] {
      assert a + b == b;
    } else {
      ColumnAppend(a[1..], b, m, c);
      ConcatCons(a, b);
      ConcatAssoc(if a[0].country == c then [a[0].Value(m)] else [], Column(a[1..], m, c), Column(b, m, c));
    }
  }
}
