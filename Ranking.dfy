/**
 The country ranking: each country's mean reading of a metric, listed from
 the highest mean to the lowest, with countries that have no present reading
 (a missing mean) at the end. The order among equal means is not specified.
 */
module Ranking {
  import opened Wrappers
  import opened Seqs
  import opened Frame
  import opened Describe

  /** One ranking line: a country and its mean, missing when it has no present reading. */
  datatype Entry = Entry(country: string, mean: Option<real>)

  /** `a` may be listed before `b`: a greater or equal mean first, a missing mean last. */
  predicate RanksBefore(a: Option<real>, b: Option<real>)
  {
    b.None? || (a.Some? && a.value >= b.value)
  }

  ghost predicate Descending(s: seq<Entry>)
  {
    forall i, j :: 0 <= i < j < |s| ==> RanksBefore(s[i].mean, s[j].mean)
  }

  /** The mean of every country, one entry per distinct country (the grouped mean). */
  function CountryMeans(rows: seq<Row>, m: Metric): (means: seq<Entry>)
    ensures RankedCountries(means) == Distinct(Labels(rows))
    ensures forall e :: e in means ==> e.mean == Mean(Column(rows, m, e.country))
  {
    var cs := Distinct(Labels(rows));
    seq(|cs|, i requires 0 <= i < |cs| => Entry(cs[i], Mean(Column(rows, m, cs[i]))))
  }

  /** Inserts an entry into a descending ranking, keeping it descending. */
  function InsertByMean(e: Entry, s: seq<Entry>): (r: seq<Entry>)
    requires Descending(s)
    ensures Descending(r)
    ensures multiset(r) == multiset(s) + multiset{e}
  {
    if s == [] then [e]
    else if RanksBefore(e.mean, s[0].mean) then
      assert forall j :: 0 <= j < |s| ==> RanksBefore(s[0].mean, s[j].mean);
      [e] + s
    else
      var t := InsertByMean(e, s[1..]);
      assert s == [s[0]] + s[1..];
      InsertByMeanHead(e, s, t);
      [s[0]] + t
  }

  lemma InsertByMeanHead(e: Entry, s: seq<Entry>, t: seq<Entry>)
    requires s != [] && Descending(s) && !RanksBefore(e.mean, s[0].mean)
    requires Descending(t) && multiset(t) == multiset(s[1..]) + multiset{e}
    ensures Descending([s[0]] + t)
  {
    forall j | 0 <= j < |t|
      ensures RanksBefore(s[0].mean, t[j].mean)
    {
      assert t[j] in multiset(t);
      if t[j] != e {
        assert t[j] in multiset(s[1..]);
        var k :| 0 <= k < |s[1..]| && s[1..][k] == t[j];
        assert s[k + 1] == t[j];
      }
    }
  }

  /** The entries ordered by mean, descending. */
  function SortByMean(s: seq<Entry>): (r: seq<Entry>)
    ensures Descending(r)
    ensures multiset(r) == multiset(s)
  {
    if s == [] then []
    else
      assert s == [s[0]] + s[1..];
      InsertByMean(s[0], SortByMean(s[1..]))
  }

  /** The ranking of the countries by their mean reading of `m`. */
  function GetCountryRanking(rows: seq<Row>, m: Metric): (r: seq<Entry>)
    ensures Descending(r)
    ensures multiset(r) == multiset(CountryMeans(rows, m))
  {
    SortByMean(CountryMeans(rows, m))
  }

  /** The `Country` column of a ranking. */
  function RankedCountries(r: seq<Entry>): seq<string>
  {
    seq(|r|, i requires 0 <= i < |r| => r[i].country)
  }

  /** The ranking holds exactly the per-country means, each once. */
  lemma RankingEntries(rows: seq<Row>, m: Metric)
    ensures forall e :: e in GetCountryRanking(rows, m) <==> e in CountryMeans(rows, m)
    ensures NoDup(GetCountryRanking(rows, m))
  {
    var r, means := GetCountryRanking(rows, m), CountryMeans(rows, m);
    var cs := Distinct(Labels(rows));
    forall e
      ensures e in r <==> e in means
    {
      assert e in r <==> e in multiset(r);
      assert e in means <==> e in multiset(means);
    }
    assert NoDup(means) by {
      forall i, j | 0 <= i < j < |means|
        ensures means[i] != means[j]
      {
        assert means[i].country == cs[i] && means[j].country == cs[j];
      }
    }
    NoDupPermutation(means, r);
  }

  /** Every ranked country carries the mean of its present readings. */
  lemma RankingMeans(rows: seq<Row>, m: Metric)
    ensures var r := GetCountryRanking(rows, m);
      forall i :: 0 <= i < |r| ==> r[i].mean == Mean(Column(rows, m, r[i].country))
  {
    var r := GetCountryRanking(rows, m);
    RankingEntries(rows, m);
    forall i | 0 <= i < |r|
      ensures r[i].mean == Mean(Column(rows, m, r[i].country))
    {
      assert r[i] in CountryMeans(rows, m);
    }
  }

  /** No country is ranked twice. */
  lemma RankingNoRepeats(rows: seq<Row>, m: Metric)
    ensures NoDup(RankedCountries(GetCountryRanking(rows, m)))
  {
    var r := GetCountryRanking(rows, m);
    RankingEntries(rows, m);
    RankingMeans(rows, m);
    forall i, j | 0 <= i < j < |r|
      ensures RankedCountries(r)[i] != RankedCountries(r)[j]
    {
      assert r[i] != r[j];
    }
  }

  /** Exactly the countries of the table are ranked. */
  lemma RankingCovers(rows: seq<Row>, m: Metric)
    ensures forall c :: c in RankedCountries(GetCountryRanking(rows, m)) <==> c in Labels(rows)
  {
    var r, means := GetCountryRanking(rows, m), CountryMeans(rows, m);
    RankingEntries(rows, m);
    forall c
      ensures c in RankedCountries(r) <==> c in Labels(rows)
    {
      RankedMembers(r, c);
      RankedMembers(means, c);
    }
  }

  /** A country is ranked exactly when one of the entries names it. */
  lemma RankedMembers(r: seq<Entry>, c: string)
    ensures c in RankedCountries(r) <==> exists e :: e in r && e.country == c
  {
    if c in RankedCountries(r) {
      var i :| 0 <= i < |r| && RankedCountries(r)[i] == c;
      assert r[i] in r;
    }
    if exists e :: e in r && e.country == c {
      var e :| e in r && e.country == c;
      var i :| 0 <= i < |r| && r[i] == e;
      assert RankedCountries(r)[i] == c;
    }
  }

  /**
   Down the ranking the means never increase, and once a mean is missing
   every later one is missing too.
   */
  lemma RankingOrder(rows: seq<Row>, m: Metric)
    ensures var r := GetCountryRanking(rows, m);
      && (forall i, j :: 0 <= i < j < |r| && r[i].mean.Some? && r[j].mean.Some? ==> r[i].mean.value >= r[j].mean.value)
      && (forall i, j :: 0 <= i < j < |r| && r[i].mean.None? ==> r[j].mean.None?)
  {
  }
}
