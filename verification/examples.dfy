// A worked scenario: three survey rows, a region filter, and the KPIs of
// what remains.

module Scenario {
  import opened Wrappers
  import opened Records
  import opened Filters
  import opened FilterLaws
  import opened Kpis
  import opened KpiLaws

  function Survey(id: string, region: string, country: string, year: int, adoption: real): Row {
    Row(id, Some(region), Some(country), Some("Research University"), Some("Small (<5K)"),
        Some("Public"), Some("Integrated"), Some("STEM"), Some("Q1"), year,
        adoption, 50.0, 2.0, 1.0, 4.0, 10.0, 3.0, 60.0)
  }

  const EuropeBefore: Row := Survey("I1", "Europe", "Germany", 2023, 40.0)
  const EuropeAfter: Row := Survey("I1", "Europe", "Germany", 2024, 60.0)
  const AsiaAfter: Row := Survey("I2", "Asia Pacific", "Japan", 2024, 50.0)

  const Table: seq<Row> := [EuropeBefore, EuropeAfter, AsiaAfter]

  const EuropeOnly: FilterSpec := NoFilters.(regions := Some(["Europe"]))

  /** The region check is the only active one, so a row passes exactly when
      its region is listed. */
  lemma EuropeOnlyRow(x: Row)
    ensures PassesAll(x, EuropeOnly, AllDimensions) <==> x.region == Some("Europe")
  {
    ApplyFiltersIsSelect([], EuropeOnly);
    assert Passes(x, Region, Sel(EuropeOnly, Region)) <==> x.region == Some("Europe");
  }

  /** Filtering on Europe keeps its two rows in table order. */
  lemma EuropeFilter()
    ensures ApplyFilters(Table, EuropeOnly) == [EuropeBefore, EuropeAfter]
  {
    ApplyFiltersIsSelect(Table, EuropeOnly);
    EuropeSelect();
  }

  /** The one-pass selection over the table, row by row. */
  lemma EuropeSelect()
    ensures Select(Table, EuropeOnly, AllDimensions) == [EuropeBefore, EuropeAfter]
  {
    EuropeOnlyRow(EuropeBefore);
    EuropeOnlyRow(EuropeAfter);
    EuropeOnlyRow(AsiaAfter);
    assert Table[1..] == [EuropeAfter, AsiaAfter];
    assert Table[1..][1..] == [AsiaAfter];
    assert Select([AsiaAfter], EuropeOnly, AllDimensions) == [];
    assert Select(Table[1..], EuropeOnly, AllDimensions) == [EuropeAfter];
  }

  const EuropeRows: seq<Row> := [EuropeBefore, EuropeAfter]

  /** Both Europe rows belong to institution I1. */
  lemma EuropeInstitutions()
    ensures |set x | x in EuropeRows :: x.institutionId| == 1
  {
    forall x | x in EuropeRows ensures x.institutionId == "I1" {
    }
    assert EuropeBefore in EuropeRows;
    assert (set x | x in EuropeRows :: x.institutionId) == {"I1"};
  }

  /** A single row's column sums and averages to its own value. */
  lemma AdoptionOfOne(x: Row)
    ensures Sum([x], AdoptionRate) == x.adoptionRate
    ensures Mean([x], AdoptionRate) == x.adoptionRate
  {
    assert [x][1..] == [];
  }

  /** The mean of 40 and 60 adoption. */
  lemma EuropeAdoptionMean()
    ensures Mean(EuropeRows, AdoptionRate) == 50.0
  {
    assert Measure(EuropeBefore, AdoptionRate) == 40.0;
    AdoptionOfOne(EuropeAfter);
    assert EuropeRows[1..] == [EuropeAfter];
    assert Sum(EuropeRows, AdoptionRate) == 100.0;
  }

  /** 2024 has the row at 60 and 2023 the row at 40. */
  lemma EuropeAdoptionDelta()
    ensures YearOverYear(EuropeRows, AdoptionRate) == Some(20.0)
  {
    assert EuropeRows[1..] == [EuropeAfter];
    assert RowsOfYear(EuropeRows, 2023) == [EuropeBefore];
    assert RowsOfYear(EuropeRows, 2024) == [EuropeAfter];
    assert EuropeBefore in EuropeRows && EuropeAfter in EuropeRows;
    YearOverYearValue(EuropeRows, AdoptionRate);
    AdoptionOfOne(EuropeBefore);
    AdoptionOfOne(EuropeAfter);
  }

  /** The Europe rows are counted once as an institution, average 50
      adoption, and the adoption delta is 60 - 40. */
  lemma EuropeKpis()
    ensures CalculateKpis(EuropeRows)[TotalInstitutions] == Kpi(1.0, None)
    ensures CalculateKpis(EuropeRows)[AvgAdoptionRate] == Kpi(50.0, Some(20.0))
  {
    EuropeInstitutions();
    EuropeAdoptionMean();
    EuropeAdoptionDelta();
    DistinctCountKpis(EuropeRows);
    AverageKpiValue(EuropeRows, AvgAdoptionRate);
    DeltaValue(EuropeRows);
  }

  /** A row at exactly 45 adoption counts as high adoption. */
  lemma ThresholdIsInclusive()
    ensures CalculateKpis([Survey("I3", "Africa", "Kenya", 2024, 45.0)])[HighAdoptionPct].value == 100.0
  {
    HighAdoptionKpi([Survey("I3", "Africa", "Kenya", 2024, 45.0)]);
  }

  /** The stance must read exactly "Integrated": other spellings and a
      missing stance count against the share. */
  lemma StanceMatchIsExact()
    ensures CalculateKpis([Survey("I4", "Europe", "France", 2024, 30.0).(policyStance := Some("integrated")),
                           Survey("I5", "Europe", "Spain", 2024, 30.0).(policyStance := None)])[IntegratedPolicyPct].value == 0.0
  {
    IntegratedPolicyKpi([Survey("I4", "Europe", "France", 2024, 30.0).(policyStance := Some("integrated")),
                         Survey("I5", "Europe", "Spain", 2024, 30.0).(policyStance := None)]);
  }

  /** With no rows at all the dictionary holds the eight zero entries. */
  lemma EmptyTableKpis()
    ensures |CalculateKpis([])| == 8
    ensures CalculateKpis([])[TotalInstitutions] == Kpi(0.0, None)
  {
  }
}
