/** `calculate_kpis`: the summary figures shown on the dashboard's metric
    cards, computed over the (filtered) rows. */
module Kpis {
  import opened Wrappers
  import opened Records

  /** The dictionary keys of the result. */
  datatype KpiName =
    | TotalInstitutions | TotalCountries
    | AvgAdoptionRate | AvgLiteracyIndex | AvgIncidentRate | AvgOutcomeDelta
    | AvgSatisfaction | AvgTrainingHours
    | IntegratedPolicyPct | HighAdoptionPct
    | AvgPolicyMaturity | AvgInfrastructure

  /** One `{"value": ..., "delta": ...}` entry; `None` is the "no data"
      delta, distinct from a computed `Some(0.0)`. */
  datatype Kpi = Kpi(value: real, delta: Option<real>)

  /** The eight keys of the empty-input result. */
  const EmptyInputKeys: set<KpiName> :=
    {TotalInstitutions, AvgAdoptionRate, AvgLiteracyIndex, AvgIncidentRate,
     AvgOutcomeDelta, AvgSatisfaction, IntegratedPolicyPct, HighAdoptionPct}

  /** The twelve keys of the non-empty result. */
  const AllKeys: set<KpiName> :=
    EmptyInputKeys + {TotalCountries, AvgTrainingHours, AvgPolicyMaturity, AvgInfrastructure}

  /** The years compared by the year-over-year deltas. */
  const PreviousYear: int := 2023
  const CurrentYear: int := 2024

  /** `high_adoption_pct` counts rows with an adoption rate at or above this. */
  const HighAdoptionThreshold: real := 45.0

  /** The stance counted by `integrated_policy_pct`. */
  const IntegratedStance: string := "Integrated"

  /** The metric column a KPI averages, if it is an average. */
  function AveragedMetric(k: KpiName): Option<Metric> {
    match k
    case AvgAdoptionRate => Some(AdoptionRate)
    case AvgLiteracyIndex => Some(LiteracyIndex)
    case AvgIncidentRate => Some(IncidentRate)
    case AvgOutcomeDelta => Some(OutcomeDelta)
    case AvgSatisfaction => Some(Satisfaction)
    case AvgTrainingHours => Some(TrainingHours)
    case AvgPolicyMaturity => Some(PolicyMaturity)
    case AvgInfrastructure => Some(Infrastructure)
    case _ => None
  }

  // ----- distinct counts -----

  /** The set of values occurring in `xs` (`nunique` is its size). */
  function Distinct<T(!new)>(xs: seq<T>): (r: set<T>)
    ensures forall v :: v in r <==> v in xs
    ensures |r| <= |xs|
  {
    if |xs| == 0 then {}
    else
      var rest := Distinct(xs[1..]);
      assert forall v :: v in xs <==> v == xs[0] || v in xs[1..] by {
        assert xs == [xs[0]] + xs[1..];
      }
      {xs[0]} + rest
  }

  // ----- means -----

  /** The sum of column `m` over `rows`. */
  function Sum(rows: seq<Row>, m: Metric): real {
    if |rows| == 0 then 0.0 else Measure(rows[0], m) + Sum(rows[1..], m)
  }

  /** `df[col].mean()`: every row weighs the same. */
  function Mean(rows: seq<Row>, m: Metric): (r: real)
    requires |rows| > 0
    ensures r * (|rows| as real) == Sum(rows, m)
  {
    Sum(rows, m) / (|rows| as real)
  }

  // ----- predicate percentages -----

  /** The row tests behind the two percentage KPIs. */
  datatype RowTest = HasIntegratedPolicy | HasHighAdoption

  predicate Holds(t: RowTest, row: Row) {
    match t
    case HasIntegratedPolicy => row.policyStance == Some(IntegratedStance)
    case HasHighAdoption => row.adoptionRate >= HighAdoptionThreshold
  }

  /** The number of rows passing test `t`: it reaches the row count exactly
      when every row passes, and zero exactly when none does. */
  function CountWhere(rows: seq<Row>, t: RowTest): (r: nat)
    ensures r <= |rows|
    ensures r == |rows| <==> forall x :: x in rows ==> Holds(t, x)
    ensures r == 0 <==> forall x :: x in rows ==> !Holds(t, x)
  {
    if |rows| == 0 then 0
    else
      assert forall x :: x in rows <==> x == rows[0] || x in rows[1..] by {
        assert rows == [rows[0]] + rows[1..];
      }
      (if Holds(t, rows[0]) then 1 else 0) + CountWhere(rows[1..], t)
  }

  /** `(test).mean() * 100`: the share of rows passing `t`, in percent. */
  function Percent(rows: seq<Row>, t: RowTest): (r: real)
    requires |rows| > 0
    ensures 0.0 <= r <= 100.0
    ensures r == 100.0 <==> forall x :: x in rows ==> Holds(t, x)
    ensures r == 0.0 <==> forall x :: x in rows ==> !Holds(t, x)
  {
    var c := CountWhere(rows, t);
    var n := |rows| as real;
    PercentageBounds(c as real, n);
    (c as real / n) * 100.0
  }

  /** `c` out of `n`, in percent, lies in [0, 100] and hits either end only
      at `c == 0` or `c == n`. */
  lemma PercentageBounds(c: real, n: real)
    requires 0.0 <= c <= n && n > 0.0
    ensures 0.0 <= (c / n) * 100.0 <= 100.0
    ensures (c / n) * 100.0 == 100.0 <==> c == n
    ensures (c / n) * 100.0 == 0.0 <==> c == 0.0
  {
    QuotientWithin(c, n, 0.0, 1.0);
    var q := c / n;
    assert q * n == c;
  }

  /** Dividing by a positive `n` a value between `n * lo` and `n * hi` gives a
      value between `lo` and `hi`. */
  lemma QuotientWithin(s: real, n: real, lo: real, hi: real)
    requires n > 0.0
    requires n * lo <= s <= n * hi
    ensures lo <= s / n <= hi
  {
    var q := s / n;
    assert q * n == s;
    assert (q - lo) * n == s - n * lo;
    assert (hi - q) * n == n * hi - s;
  }

  // ----- year-over-year deltas -----

  /** `df[df["year"] == year]`, in row order. */
  function RowsOfYear(rows: seq<Row>, year: int): (r: seq<Row>)
    ensures |r| <= |rows|
  {
    if |rows| == 0 then []
    else (if rows[0].year == year then [rows[0]] else []) + RowsOfYear(rows[1..], year)
  }

  /** The rows of a year are exactly the input rows carrying that year. */
  lemma {:induction false} RowsOfYearMembers(rows: seq<Row>, year: int)
    ensures forall x :: x in RowsOfYear(rows, year) <==> x in rows && x.year == year
    decreases |rows|
  {
    if |rows| > 0 {
      RowsOfYearMembers(rows[1..], year);
      assert rows == [rows[0]] + rows[1..];
    }
  }

  /** `year in df["year"].values`. */
  predicate HasYear(rows: seq<Row>, year: int) {
    exists x :: x in rows && x.year == year
  }

  /** A year occurs in the `year` column exactly when it has rows. */
  lemma YearPresence(rows: seq<Row>, year: int)
    ensures HasYear(rows, year) <==> |RowsOfYear(rows, year)| > 0
  {
    RowsOfYearMembers(rows, year);
    if HasYear(rows, year) {
      var x :| x in rows && x.year == year;
      assert x in RowsOfYear(rows, year);
    }
    if |RowsOfYear(rows, year)| > 0 {
      assert RowsOfYear(rows, year)[0] in RowsOfYear(rows, year);
    }
  }

  /** The change in the mean of `m` from 2023 to 2024, or `None` when the
      rows lack either year. The inner emptiness test of the source never
      fails once both years are known to occur. */
  function YearOverYear(rows: seq<Row>, m: Metric): (r: Option<real>)
    ensures r.Some? <==> HasYear(rows, PreviousYear) && HasYear(rows, CurrentYear)
  {
    if HasYear(rows, PreviousYear) && HasYear(rows, CurrentYear) then
      var before := RowsOfYear(rows, PreviousYear);
      var after := RowsOfYear(rows, CurrentYear);
      YearPresence(rows, PreviousYear);
      YearPresence(rows, CurrentYear);
      if |before| > 0 && |after| > 0 then Some(Mean(after, m) - Mean(before, m))
      else None
    else None
  }

  // ----- the KPI dictionary -----

  /** `df["institution_id"].nunique()`: at least one for non-empty rows,
      never more than the row count. */
  function InstitutionCount(rows: seq<Row>): (r: nat)
    ensures r == |set x | x in rows :: x.institutionId|
    ensures r <= |rows|
    ensures |rows| > 0 ==> r >= 1
  {
    var ids := Distinct(Ids(rows));
    assert ids == set x | x in rows :: x.institutionId by {
      forall v ensures v in ids <==> exists x :: x in rows && x.institutionId == v {
        if v in ids {
          var i :| 0 <= i < |rows| && Ids(rows)[i] == v;
          assert rows[i] in rows;
        }
        if exists x :: x in rows && x.institutionId == v {
          var x :| x in rows && x.institutionId == v;
          var i :| 0 <= i < |rows| && rows[i] == x;
          assert Ids(rows)[i] == v;
        }
      }
    }
    if |rows| > 0 then assert rows[0].institutionId in ids; |ids| else |ids|
  }

  /** `df["country"].nunique()`: missing cells are not counted, so it is
      zero exactly when no row has a country. */
  function CountryCount(rows: seq<Row>): (r: nat)
    ensures r == |set x | x in rows && x.country.Some? :: x.country.value|
    ensures r <= |rows|
    ensures r >= 1 <==> exists x :: x in rows && x.country.Some?
  {
    var countries := Distinct(Observed(rows, Country));
    assert |countries| >= 1 <==> exists x :: x in rows && x.country.Some? by {
      if exists x :: x in rows && x.country.Some? {
        var x :| x in rows && x.country.Some?;
        assert HasValue(rows, Country, x.country.value);
        assert x.country.value in countries;
      }
      if |countries| >= 1 {
        var v :| v in countries;
        assert HasValue(rows, Country, v);
      }
    }
    assert countries == set x | x in rows && x.country.Some? :: x.country.value by {
      forall v ensures v in countries <==> HasValue(rows, Country, v) {
      }
    }
    |countries|
  }

  /** The KPIs that carry a year-over-year delta. */
  const DeltaKeys: set<KpiName> := {AvgAdoptionRate, AvgLiteracyIndex, AvgIncidentRate}

  /** The figures of the non-empty path, before they are put into the
      dictionary. */
  datatype Figures = Figures(
    institutions: nat,
    countries: nat,
    means: Metric -> real,
    integratedPct: real,
    highAdoptionPct: real,
    adoptionDelta: Option<real>,
    literacyDelta: Option<real>,
    incidentDelta: Option<real>
  )

  /** The figures of non-empty `rows`: distinct counts between one (zero for
      countries when none is present) and the row count, percentages in
      [0, 100] reaching their ends exactly on the all/none cases, and deltas
      present exactly when both 2023 and 2024 rows exist. */
  function Summarize(rows: seq<Row>): (f: Figures)
    requires |rows| > 0
    ensures 1 <= f.institutions <= |rows|
    ensures f.countries <= |rows|
    ensures f.countries >= 1 <==> exists x :: x in rows && x.country.Some?
    ensures 0.0 <= f.integratedPct <= 100.0
    ensures f.integratedPct == 0.0 <==> forall x :: x in rows ==> x.policyStance != Some(IntegratedStance)
    ensures f.integratedPct == 100.0 <==> forall x :: x in rows ==> x.policyStance == Some(IntegratedStance)
    ensures 0.0 <= f.highAdoptionPct <= 100.0
    ensures f.highAdoptionPct == 100.0 <==> forall x :: x in rows ==> x.adoptionRate >= HighAdoptionThreshold
    ensures f.highAdoptionPct == 0.0 <==> forall x :: x in rows ==> x.adoptionRate < HighAdoptionThreshold
    ensures f.adoptionDelta.Some? <==> HasYear(rows, PreviousYear) && HasYear(rows, CurrentYear)
    ensures f.literacyDelta.Some? <==> HasYear(rows, PreviousYear) && HasYear(rows, CurrentYear)
    ensures f.incidentDelta.Some? <==> HasYear(rows, PreviousYear) && HasYear(rows, CurrentYear)
  {
    Figures(
      InstitutionCount(rows),
      CountryCount(rows),
      m => Mean(rows, m),
      Percent(rows, HasIntegratedPolicy),
      Percent(rows, HasHighAdoption),
      YearOverYear(rows, AdoptionRate),
      YearOverYear(rows, LiteracyIndex),
      YearOverYear(rows, IncidentRate)
    )
  }

  /** The dictionary of the non-empty path. */
  function Dictionary(f: Figures): (r: map<KpiName, Kpi>)
    ensures r.Keys == AllKeys
  {
    map[
      TotalInstitutions := Kpi(f.institutions as real, None),
      TotalCountries := Kpi(f.countries as real, None),
      AvgAdoptionRate := Kpi(f.means(AdoptionRate), f.adoptionDelta),
      AvgLiteracyIndex := Kpi(f.means(LiteracyIndex), f.literacyDelta),
      AvgIncidentRate := Kpi(f.means(IncidentRate), f.incidentDelta),
      AvgOutcomeDelta := Kpi(f.means(OutcomeDelta), None),
      AvgSatisfaction := Kpi(f.means(Satisfaction), None),
      AvgTrainingHours := Kpi(f.means(TrainingHours), None),
      IntegratedPolicyPct := Kpi(f.integratedPct, None),
      HighAdoptionPct := Kpi(f.highAdoptionPct, None),
      AvgPolicyMaturity := Kpi(f.means(PolicyMaturity), None),
      AvgInfrastructure := Kpi(f.means(Infrastructure), None)
    ]
  }

  /** `calculate_kpis`: on empty input the eight-key dictionary of zeros
      without deltas, otherwise the twelve-key dictionary of `Summarize`. */
  function CalculateKpis(rows: seq<Row>): (r: map<KpiName, Kpi>)
    ensures |rows| == 0 ==> r.Keys == EmptyInputKeys
    ensures |rows| == 0 ==> forall k :: k in r ==> r[k] == Kpi(0.0, None)
    ensures |rows| > 0 ==> r.Keys == AllKeys
  {
    if |rows| == 0 then
      map k | k in EmptyInputKeys :: Kpi(0.0, None)
    else
      Dictionary(Summarize(rows))
  }
}

/** What the KPI dictionary promises its readers. */
module KpiLaws {
  import opened Wrappers
  import opened Records
  import opened Kpis

  /** Where each figure lands in the dictionary. */
  lemma DictionaryEntries(f: Figures)
    ensures Dictionary(f)[TotalInstitutions] == Kpi(f.institutions as real, None)
    ensures Dictionary(f)[TotalCountries] == Kpi(f.countries as real, None)
    ensures Dictionary(f)[IntegratedPolicyPct] == Kpi(f.integratedPct, None)
    ensures Dictionary(f)[HighAdoptionPct] == Kpi(f.highAdoptionPct, None)
    ensures Dictionary(f)[AvgAdoptionRate].delta == f.adoptionDelta
    ensures Dictionary(f)[AvgLiteracyIndex].delta == f.literacyDelta
    ensures Dictionary(f)[AvgIncidentRate].delta == f.incidentDelta
  {
  }

  /** Every entry outside the three year-over-year ones has no delta. */
  lemma DictionaryDeltas(f: Figures)
    ensures forall k :: k in Dictionary(f) && k !in DeltaKeys ==> Dictionary(f)[k].delta == None
  {
  }

  /** Every averaged entry holds the mean of its column. */
  lemma DictionaryMean(f: Figures, k: KpiName)
    requires AveragedMetric(k).Some?
    ensures k in Dictionary(f)
    ensures Dictionary(f)[k].value == f.means(AveragedMetric(k).value)
  {
    match k
    case AvgAdoptionRate =>
    case AvgLiteracyIndex =>
    case AvgIncidentRate =>
    case AvgOutcomeDelta =>
    case AvgSatisfaction =>
    case AvgTrainingHours =>
    case AvgPolicyMaturity =>
    case AvgInfrastructure =>
  }

  /** Every averaged entry is the plain mean of its column over all rows:
      the column's sum divided by the row count. */
  lemma AverageKpiValue(rows: seq<Row>, k: KpiName)
    requires |rows| > 0
    requires AveragedMetric(k).Some?
    ensures k in CalculateKpis(rows)
    ensures CalculateKpis(rows)[k].value == Sum(rows, AveragedMetric(k).value) / (|rows| as real)
  {
    DictionaryMean(Summarize(rows), k);
  }

  /** Column sums add up over a concatenation of tables. */
  lemma {:induction false} SumAppend(a: seq<Row>, b: seq<Row>, m: Metric)
    ensures Sum(a + b, m) == Sum(a, m) + Sum(b, m)
    decreases |a|
  {
    if |a| == 0 {
      assert a + b == b;
    } else {
      assert (a + b)[1..] == a[1..] + b;
      SumAppend(a[1..], b, m);
    }
  }

  /** Each row weighs the same in a mean: the mean of two tables put
      together is the row-count-weighted mean of their means. */
  lemma MeanOfConcatenation(a: seq<Row>, b: seq<Row>, m: Metric)
    requires |a| > 0 && |b| > 0
    ensures Mean(a + b, m) * ((|a| + |b|) as real) == Mean(a, m) * (|a| as real) + Mean(b, m) * (|b| as real)
  {
    SumAppend(a, b, m);
    assert |a + b| == |a| + |b|;
  }

  /** Row counts add up over a concatenation of tables. */
  lemma {:induction false} CountWhereAppend(a: seq<Row>, b: seq<Row>, t: RowTest)
    ensures CountWhere(a + b, t) == CountWhere(a, t) + CountWhere(b, t)
    decreases |a|
  {
    if |a| == 0 {
      assert a + b == b;
    } else {
      assert (a + b)[1..] == a[1..] + b;
      CountWhereAppend(a[1..], b, t);
    }
  }

  /** The two percentage entries are 100 times the share of rows passing
      their test: adoption of at least 45, and a stance of exactly
      "Integrated". */
  lemma PercentageKpis(rows: seq<Row>)
    requires |rows| > 0
    ensures CalculateKpis(rows)[HighAdoptionPct].value
              == (CountWhere(rows, HasHighAdoption) as real / |rows| as real) * 100.0
    ensures CalculateKpis(rows)[IntegratedPolicyPct].value
              == (CountWhere(rows, HasIntegratedPolicy) as real / |rows| as real) * 100.0
  {
    DictionaryEntries(Summarize(rows));
  }

  /** `total_institutions` counts distinct ids and `total_countries`
      distinct present countries; both are at most the row count, the first
      is at least one, and the second is at least one exactly when some row
      names a country. */
  lemma DistinctCountKpis(rows: seq<Row>)
    requires |rows| > 0
    ensures CalculateKpis(rows)[TotalInstitutions] == Kpi(|set x | x in rows :: x.institutionId| as real, None)
    ensures CalculateKpis(rows)[TotalCountries]
              == Kpi(|set x | x in rows && x.country.Some? :: x.country.value| as real, None)
    ensures 1.0 <= CalculateKpis(rows)[TotalInstitutions].value <= |rows| as real
    ensures 0.0 <= CalculateKpis(rows)[TotalCountries].value <= |rows| as real
    ensures (CalculateKpis(rows)[TotalCountries].value >= 1.0) <==> (exists x :: x in rows && x.country.Some?)
  {
    DictionaryEntries(Summarize(rows));
  }

  /** `high_adoption_pct` lies in [0, 100] and is 100 exactly when every
      row has an adoption rate of at least 45 (inclusive). */
  lemma HighAdoptionKpi(rows: seq<Row>)
    requires |rows| > 0
    ensures 0.0 <= CalculateKpis(rows)[HighAdoptionPct].value <= 100.0
    ensures (CalculateKpis(rows)[HighAdoptionPct].value == 100.0)
              <==> (forall x :: x in rows ==> x.adoptionRate >= 45.0)
  {
    DictionaryEntries(Summarize(rows));
  }

  /** `integrated_policy_pct` lies in [0, 100] and is 0 exactly when no row's
      stance is exactly "Integrated". */
  lemma IntegratedPolicyKpi(rows: seq<Row>)
    requires |rows| > 0
    ensures 0.0 <= CalculateKpis(rows)[IntegratedPolicyPct].value <= 100.0
    ensures (CalculateKpis(rows)[IntegratedPolicyPct].value == 0.0)
              <==> (forall x :: x in rows ==> x.policyStance != Some("Integrated"))
  {
    DictionaryEntries(Summarize(rows));
  }

  /** Only the adoption, literacy and incident entries carry a delta, and
      each carries one exactly when the rows hold both 2023 and 2024. */
  lemma DeltaKpis(rows: seq<Row>)
    requires |rows| > 0
    ensures forall k :: k in CalculateKpis(rows) && k !in DeltaKeys ==> CalculateKpis(rows)[k].delta == None
    ensures CalculateKpis(rows)[AvgAdoptionRate].delta.Some? <==> HasYear(rows, 2023) && HasYear(rows, 2024)
    ensures CalculateKpis(rows)[AvgLiteracyIndex].delta.Some? <==> HasYear(rows, 2023) && HasYear(rows, 2024)
    ensures CalculateKpis(rows)[AvgIncidentRate].delta.Some? <==> HasYear(rows, 2023) && HasYear(rows, 2024)
  {
    var f := Summarize(rows);
    DictionaryEntries(f);
    DictionaryDeltas(f);
  }

  /** The three deltas are the year-over-year changes of adoption, literacy
      and incidents (see `YearOverYearValue` for their value). */
  lemma DeltaValue(rows: seq<Row>)
    requires |rows| > 0
    ensures CalculateKpis(rows)[AvgAdoptionRate].delta == YearOverYear(rows, AdoptionRate)
    ensures CalculateKpis(rows)[AvgLiteracyIndex].delta == YearOverYear(rows, LiteracyIndex)
    ensures CalculateKpis(rows)[AvgIncidentRate].delta == YearOverYear(rows, IncidentRate)
  {
    DictionaryEntries(Summarize(rows));
  }

  // ----- means -----

  /** `n` copies of `v` added up. */
  function Repeat(n: nat, v: real): real {
    if n == 0 then 0.0 else v + Repeat(n - 1, v)
  }

  lemma {:induction false} RepeatIsProduct(n: nat, v: real)
    ensures Repeat(n, v) == (n as real) * v
  {
    if n > 0 {
      RepeatIsProduct(n - 1, v);
      assert (n as real) * v == ((n - 1) as real) * v + v;
    }
  }

  lemma {:induction false} SumWithinRange(rows: seq<Row>, m: Metric, lo: real, hi: real)
    requires forall x :: x in rows ==> lo <= Measure(x, m) <= hi
    ensures Repeat(|rows|, lo) <= Sum(rows, m) <= Repeat(|rows|, hi)
    decreases |rows|
  {
    if |rows| > 0 {
      assert rows[0] in rows;
      assert forall x :: x in rows[1..] ==> x in rows;
      SumWithinRange(rows[1..], m, lo, hi);
    }
  }

  /** A mean lies within any bounds that hold of every row of its column. */
  lemma MeanWithinRange(rows: seq<Row>, m: Metric, lo: real, hi: real)
    requires |rows| > 0
    requires forall x :: x in rows ==> lo <= Measure(x, m) <= hi
    ensures lo <= Mean(rows, m) <= hi
  {
    SumWithinRange(rows, m, lo, hi);
    RepeatIsProduct(|rows|, lo);
    RepeatIsProduct(|rows|, hi);
    QuotientWithin(Sum(rows, m), |rows| as real, lo, hi);
  }

  /** Every averaged KPI lies within any bounds its column obeys on every
      row: each row weighs the same, so the mean of a column that is
      constant is that constant. */
  lemma AverageKpiWithinRange(rows: seq<Row>, k: KpiName, lo: real, hi: real)
    requires |rows| > 0
    requires AveragedMetric(k).Some?
    requires forall x :: x in rows ==> lo <= Measure(x, AveragedMetric(k).value) <= hi
    ensures k in CalculateKpis(rows)
    ensures lo <= CalculateKpis(rows)[k].value <= hi
  {
    AverageKpiValue(rows, k);
    MeanWithinRange(rows, AveragedMetric(k).value, lo, hi);
  }

  // ----- year-over-year deltas -----

  /** With both years present the delta is the 2024 mean minus the 2023
      mean, each taken over exactly the rows of that year. */
  lemma YearOverYearValue(rows: seq<Row>, m: Metric)
    requires HasYear(rows, 2023) && HasYear(rows, 2024)
    ensures |RowsOfYear(rows, 2023)| > 0 && |RowsOfYear(rows, 2024)| > 0
    ensures YearOverYear(rows, m) == Some(Mean(RowsOfYear(rows, 2024), m) - Mean(RowsOfYear(rows, 2023), m))
  {
    YearPresence(rows, 2023);
    YearPresence(rows, 2024);
  }

  /** A delta is bounded by the spread of its column: with every value in
      [lo, hi] it lies in [lo - hi, hi - lo]. */
  lemma YearOverYearWithinSpread(rows: seq<Row>, m: Metric, lo: real, hi: real)
    requires forall x :: x in rows ==> lo <= Measure(x, m) <= hi
    requires YearOverYear(rows, m).Some?
    ensures lo - hi <= YearOverYear(rows, m).value <= hi - lo
  {
    YearOverYearValue(rows, m);
    RowsOfYearMembers(rows, 2023);
    RowsOfYearMembers(rows, 2024);
    MeanWithinRange(RowsOfYear(rows, 2023), m, lo, hi);
    MeanWithinRange(RowsOfYear(rows, 2024), m, lo, hi);
  }

  lemma {:induction false} RowsOfYearAppend(a: seq<Row>, b: seq<Row>, year: int)
    ensures RowsOfYear(a + b, year) == RowsOfYear(a, year) + RowsOfYear(b, year)
    decreases |a|
  {
    if |a| > 0 {
      assert (a + b)[1..] == a[1..] + b;
      RowsOfYearAppend(a[1..], b, year);
    } else {
      assert a + b == b;
    }
  }

  lemma {:induction false} NoRowsOfYear(rows: seq<Row>, year: int)
    requires forall x :: x in rows ==> x.year != year
    ensures RowsOfYear(rows, year) == []
    decreases |rows|
  {
    if |rows| > 0 {
      assert rows[0] in rows;
      assert forall x :: x in rows[1..] ==> x in rows;
      NoRowsOfYear(rows[1..], year);
    }
  }

  /** Rows of other years do not move the deltas: appending rows from
      neither 2023 nor 2024 leaves every delta as it was, sentinel
      included. */
  lemma YearOverYearIgnoresOtherYears(rows: seq<Row>, other: seq<Row>, m: Metric)
    requires forall x :: x in other ==> x.year != 2023 && x.year != 2024
    ensures YearOverYear(rows + other, m) == YearOverYear(rows, m)
  {
    RowsOfYearAppend(rows, other, 2023);
    RowsOfYearAppend(rows, other, 2024);
    NoRowsOfYear(other, 2023);
    NoRowsOfYear(other, 2024);
    assert RowsOfYear(rows + other, 2023) == RowsOfYear(rows, 2023);
    assert RowsOfYear(rows + other, 2024) == RowsOfYear(rows, 2024);
    assert HasYear(rows + other, 2023) <==> HasYear(rows, 2023) by {
      YearPresence(rows + other, 2023);
      YearPresence(rows, 2023);
    }
    assert HasYear(rows + other, 2024) <==> HasYear(rows, 2024) by {
      YearPresence(rows + other, 2024);
      YearPresence(rows, 2024);
    }
  }
}
