/**
 Choosing and running the between-country comparison for each irradiance
 metric. The normality test, the one-way ANOVA and the Kruskal-Wallis test
 are computations outside this model: they are given as oracles that map the
 groups' readings to a p-value, which may be NaN.
 */
module StatTests {
  import opened Wrappers
  import opened Seqs
  import opened Frame
  import opened Describe
  import opened Summary

  /** A p-value as a test reports it; every comparison with NaN is false. */
  datatype PValue = P(p: real) | NaN

  predicate Exceeds(v: PValue, t: real)
  {
    v.P? && v.p > t
  }

  predicate Below(v: PValue, t: real)
  {
    v.P? && v.p < t
  }

  /** The significance level used both for normality and for the comparison. */
  const Alpha: real := 0.05

  /** The metrics compared, in the order they are processed. */
  const Metrics: seq<Metric> := [GHI, DNI, DHI]

  datatype TestName = InsufficientData | Anova | KruskalWallis

  /** One metric's verdict; `pValue` is `None` when no test ran. */
  datatype TestResult = TestResult(test: TestName, pValue: Option<PValue>, significant: bool)

  /** The three external tests, each reduced to the p-value it reports. */
  datatype Oracles = Oracles(
    shapiro: seq<real> -> PValue,
    fOneway: seq<seq<real>> -> PValue,
    kruskal: seq<seq<real>> -> PValue)

  /** A country's present readings of metric `m`. */
  function GroupOf(rows: seq<Row>, m: Metric, c: string): seq<real>
  {
    Present(Column(rows, m, c))
  }

  /** The selected countries that have at least one present reading of `m`, in selection order. */
  function Qualifying(rows: seq<Row>, countries: seq<string>, m: Metric): (q: seq<string>)
    ensures |q| <= |countries|
    ensures forall c :: c in q <==> c in countries && GroupOf(rows, m, c) != []
  {
    var keep := c => |GroupOf(rows, m, c)| > 0;
    FilterShape(countries, keep);
    Filter(countries, keep)
  }

  /** The readings of each qualifying country, one group per country. */
  function Groups(rows: seq<Row>, qualifying: seq<string>, m: Metric): (gs: seq<seq<real>>)
    ensures |gs| == |qualifying|
  {
    seq(|qualifying|, i requires 0 <= i < |qualifying| => GroupOf(rows, m, qualifying[i]))
  }

  /**
   The decision table: fewer than two groups is insufficient data; otherwise
   ANOVA when every group's normality p-value exceeds the level, and
   Kruskal-Wallis when one does not; significant exactly when the chosen
   test's p-value is below the level.
   */
  function Decide(groups: seq<seq<real>>, o: Oracles): (r: TestResult)
    ensures r.test == InsufficientData <==> |groups| < 2
    ensures r.test == InsufficientData ==> r.pValue == None && !r.significant
    ensures r.test == Anova <==>
              |groups| >= 2 && forall i :: 0 <= i < |groups| ==> Exceeds(o.shapiro(groups[i]), Alpha)
    ensures r.test == Anova ==> r.pValue == Some(o.fOneway(groups))
    ensures r.test == KruskalWallis ==> r.pValue == Some(o.kruskal(groups))
    ensures r.pValue.Some? ==> r.significant == Below(r.pValue.value, Alpha)
  {
    if |groups| < 2 then TestResult(InsufficientData, None, false)
    else
      var normal := forall i | 0 <= i < |groups| :: Exceeds(o.shapiro(groups[i]), Alpha);
      var p := if normal then o.fOneway(groups) else o.kruskal(groups);
      TestResult(if normal then Anova else KruskalWallis, Some(p), Below(p, Alpha))
  }

  /** Extending the selection by one country extends the qualifying countries by at most that one. */
  lemma QualifyingStep(rows: seq<Row>, countries: seq<string>, i: nat, m: Metric)
    requires i < |countries|
    ensures Qualifying(rows, countries[..i + 1], m) ==
              Qualifying(rows, countries[..i], m) + (if |GroupOf(rows, m, countries[i])| > 0 then [countries[i]] else [])
  {
    var keep := c => |GroupOf(rows, m, c)| > 0;
    FilterAppend(countries[..i], [countries[i]], keep);
    assert countries[..i + 1] == countries[..i] + [countries[i]];
    assert Filter([countries[i]], keep) == if keep(countries[i]) then [countries[i]] else [];
  }

  /** One more qualifying country adds its group at the end. */
  lemma GroupsStep(rows: seq<Row>, q: seq<string>, c: string, m: Metric)
    ensures Groups(rows, q + [c], m) == Groups(rows, q, m) + [GroupOf(rows, m, c)]
  {
  }

  /** The verdict for metric `m` over the selected countries. */
  function Compare(rows: seq<Row>, countries: seq<string>, m: Metric, o: Oracles): (r: TestResult)
    ensures r.test == InsufficientData <==> |Qualifying(rows, countries, m)| < 2
    ensures r.test != InsufficientData ==> r.pValue.Some? && r.significant == Below(r.pValue.value, Alpha)
    ensures r.test == InsufficientData ==> r.pValue == None && !r.significant
  {
    Decide(Groups(rows, Qualifying(rows, countries, m), m), o)
  }

  /**
   Collects, in selection order, the present readings of every selected
   country that has at least one, together with the names of those countries.
   */
  method CollectGroups(rows: seq<Row>, countries: seq<string>, metric: Metric)
    returns (groups: seq<seq<real>>, validCountries: seq<string>)
    ensures validCountries == Qualifying(rows, countries, metric)
    ensures groups == Groups(rows, validCountries, metric)
  {
    groups, validCountries := [], [];
    for i := 0 to |countries|
      invariant validCountries == Qualifying(rows, countries[..i], metric)
      invariant groups == Groups(rows, validCountries, metric)
    {
      var countryData := Present(Column(rows, metric, countries[i]));
      QualifyingStep(rows, countries, i, metric);
      GroupsStep(rows, validCountries, countries[i], metric);
      if |countryData| > 0 {
        groups := groups + [countryData];
        validCountries := validCountries + [countries[i]];
      }
    }
    assert countries[..|countries|] == countries;
  }

  /** Picks the test from the groups' normality p-values and runs it. */
  method ChooseTest(groups: seq<seq<real>>, o: Oracles) returns (verdict: TestResult)
    ensures verdict == Decide(groups, o)
  {
    if |groups| < 2 {
      return TestResult(InsufficientData, None, false);
    }
    var normalityPvals := seq(|groups|, j requires 0 <= j < |groups| => o.shapiro(groups[j]));
    var normalDistribution := forall j | 0 <= j < |normalityPvals| :: Exceeds(normalityPvals[j], Alpha);
    var testUsed, pValue;
    if normalDistribution {
      pValue := o.fOneway(groups);
      testUsed := Anova;
    } else {
      pValue := o.kruskal(groups);
      testUsed := KruskalWallis;
    }
    assert forall j | 0 <= j < |groups| :: normalityPvals[j] == o.shapiro(groups[j]);
    verdict := TestResult(testUsed, Some(pValue), Below(pValue, Alpha));
  }

  /** Groups the readings of metric `m` by qualifying country and tests them. */
  method TestMetric(rows: seq<Row>, countries: seq<string>, m: Metric, o: Oracles) returns (verdict: TestResult)
    ensures verdict == Compare(rows, countries, m, o)
  {
    var groups, validCountries := CollectGroups(rows, countries, m);
    verdict := ChooseTest(groups, o);
  }

  /** Runs the comparison for each metric in turn. */
  method PerformStatisticalTests(rows: seq<Row>, countries: seq<string>, o: Oracles)
    returns (results: map<Metric, TestResult>)
    ensures results.Keys == {GHI, DNI, DHI}
    ensures forall m :: m in results ==> results[m] == Compare(rows, countries, m, o)
  {
    results := map[];
    for k := 0 to |Metrics|
      invariant forall m :: m in results <==> m in Metrics[..k]
      invariant forall m :: m in results ==> results[m] == Compare(rows, countries, m, o)
    {
      var metric := Metrics[k];
      var verdict := TestMetric(rows, countries, metric, o);
      assert Metrics[..k + 1] == Metrics[..k] + [metric];
      results := results[metric := verdict];
    }
    assert Metrics[..|Metrics|] == Metrics;
  }

  /**
   A selected country contributes a group exactly when one of its rows has a
   present reading of `m`, and the groups keep the selection order.
   */
  lemma QualifyingCountries(rows: seq<Row>, countries: seq<string>, m: Metric)
    ensures SubsequenceOf(Qualifying(rows, countries, m), countries)
    ensures forall c :: c in Qualifying(rows, countries, m) <==>
              c in countries && exists i :: 0 <= i < |rows| && rows[i].country == c && rows[i].Value(m).Some?
    ensures forall c :: multiset(Qualifying(rows, countries, m))[c] ==
              if exists i :: 0 <= i < |rows| && rows[i].country == c && rows[i].Value(m).Some?
              then multiset(countries)[c] else 0
  {
    var keep := c => |GroupOf(rows, m, c)| > 0;
    FilterSubsequence(countries, keep);
    forall c
      ensures c in Qualifying(rows, countries, m) <==>
                c in countries && exists i :: 0 <= i < |rows| && rows[i].country == c && rows[i].Value(m).Some?
      ensures multiset(Qualifying(rows, countries, m))[c] ==
                if exists i :: 0 <= i < |rows| && rows[i].country == c && rows[i].Value(m).Some?
                then multiset(countries)[c] else 0
    {
      FilterMembers(countries, keep, c);
      FilterCount(countries, keep, c);
      HasReading(rows, m, c);
    }
  }

  /**
   The group of the `i`-th qualifying country holds exactly that country's
   present readings, each as often as the country's rows carry it.
   */
  lemma GroupReadings(rows: seq<Row>, qualifying: seq<string>, m: Metric, i: nat, x: real)
    requires i < |qualifying|
    ensures x in Groups(rows, qualifying, m)[i] <==>
              exists j :: 0 <= j < |rows| && rows[j].country == qualifying[i] && rows[j].Value(m) == Some(x)
    ensures multiset(Groups(rows, qualifying, m)[i])[x] == |RowsWith(rows, m, qualifying[i], Some(x))|
  {
    Readings(rows, m, qualifying[i], x);
  }

  /** Adding a selected country without present readings changes no verdict. */
  lemma CountryWithoutDataIgnored(rows: seq<Row>, countries: seq<string>, c: string, m: Metric, o: Oracles)
    requires forall i :: 0 <= i < |rows| && rows[i].country == c ==> rows[i].Value(m).None?
    ensures Compare(rows, countries + [c], m, o) == Compare(rows, countries, m, o)
  {
    var keep := c => |GroupOf(rows, m, c)| > 0;
    HasReading(rows, m, c);
    FilterAppend(countries, [c], keep);
    assert !keep(c);
    assert Filter([c], keep) == [];
    assert Qualifying(rows, countries + [c], m) == Qualifying(rows, countries, m);
  }

  /**
   The verdict depends on no oracle when fewer than two groups qualify, and
   never on the test that was not chosen.
   */
  lemma OraclesConsulted(groups: seq<seq<real>>, o: Oracles, o': Oracles)
    ensures |groups| < 2 ==> Decide(groups, o) == Decide(groups, o')
    ensures Decide(groups, o).test == Anova ==>
              Decide(groups, o) == Decide(groups, o.(kruskal := o'.kruskal))
    ensures Decide(groups, o).test == KruskalWallis ==>
              Decide(groups, o) == Decide(groups, o.(fOneway := o'.fOneway))
  {
  }
}
