/** Restricting the table to a selection of countries. */
module CountryFilter {
  import opened Seqs
  import opened Frame
  import opened Summary

  /** The rows whose country is one of `countries`, in table order. */
  function FilterByCountry(rows: seq<Row>, countries: seq<string>): (kept: seq<Row>)
    ensures |kept| <= |rows|
    ensures forall r :: r in kept <==> r in rows && r.country in countries
  {
    var keep := (r: Row) => r.country in countries;
    FilterShape(rows, keep);
    Filter(rows, keep)
  }

  /**
   The filter keeps exactly the rows of the selected countries, each as
   often as in the table, in their original relative order.
   */
  lemma FilterByCountryKeeps(rows: seq<Row>, countries: seq<string>)
    ensures SubsequenceOf(FilterByCountry(rows, countries), rows)
    ensures forall r :: r in FilterByCountry(rows, countries) <==> r in rows && r.country in countries
    ensures forall r :: multiset(FilterByCountry(rows, countries))[r] ==
                          if r.country in countries then multiset(rows)[r] else 0
  {
    var keep := (r: Row) => r.country in countries;
    FilterSubsequence(rows, keep);
    forall r
      ensures r in FilterByCountry(rows, countries) <==> r in rows && r.country in countries
      ensures multiset(FilterByCountry(rows, countries))[r] ==
                if r.country in countries then multiset(rows)[r] else 0
    {
      FilterMembers(rows, keep, r);
      FilterCount(rows, keep, r);
    }
  }

  /** Filtering an already filtered table again changes nothing. */
  lemma FilterByCountryIdempotent(rows: seq<Row>, countries: seq<string>)
    ensures FilterByCountry(FilterByCountry(rows, countries), countries) == FilterByCountry(rows, countries)
  {
    FilterIdempotent(rows, (r: Row) => r.country in countries);
  }

  /** A selected country keeps its whole column; an unselected one is left with none. */
  lemma {:induction false} FilteredColumn(rows: seq<Row>, countries: seq<string>, m: Metric, c: string)
    ensures Column(FilterByCountry(rows, countries), m, c) == if c in countries then Column(rows, m, c) else []
  {
    if rows != [] {
      FilteredColumn(rows[1..], countries, m, c);
      var rest := FilterByCountry(rows[1..], countries);
      if rows[0].country in countries {
        var t := [rows[0]] + rest;
        assert FilterByCountry(rows, countries) == t;
        assert t[0] == rows[0] && t[1..] == rest;
      } else {
        assert FilterByCountry(rows, countries) == [] + rest == rest;
      }
    }
  }

  /** The summary of a selected country is the same on the filtered table as on the whole table. */
  lemma FilteredSummary(rows: seq<Row>, countries: seq<string>, m: Metric, c: string)
    requires c in countries
    ensures Summarize(FilterByCountry(rows, countries), m, c) == Summarize(rows, m, c)
  {
    FilteredColumn(rows, countries, m, c);
  }
}
