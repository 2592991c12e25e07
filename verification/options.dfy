// The dropdown choices offered by the dashboard's sidebar: one list per
// filterable column, computed from the loaded rows.

module FilterOptions {
  import opened Wrappers
  import opened Records
  import opened Ordering

  /** The fixed choice lists. These three columns are offered from constants,
      whatever the data holds. */
  const SizeChoices: seq<string> := ["Small (<5K)", "Medium (5K-15K)", "Large (15K-30K)", "Very Large (>30K)"]
  const FundingChoices: seq<string> := ["Public", "Private", "Mixed"]
  const StanceChoices: seq<string> := ["Restrictive", "Cautious", "Permissive", "Integrated"]

  /** The result of `get_filter_options`, one field per dictionary key. */
  datatype Options = Options(
    region: seq<string>,
    country: seq<string>,
    institutionType: seq<string>,
    institutionSize: seq<string>,
    fundingType: seq<string>,
    policyStance: seq<string>,
    discipline: seq<string>,
    quarter: seq<string>,
    year: seq<int>
  )

  /** `opts` is what `sorted(col.dropna().unique())` must be: ascending,
      without repeats, and holding exactly the present values of column `d`. */
  ghost predicate OffersExactly(opts: seq<string>, rows: seq<Row>, d: Dimension) {
    StrictlySorted(opts, LexLess) && forall v :: v in opts <==> HasValue(rows, d, v)
  }

  /** `sorted(rows[d].dropna().unique().tolist())`. */
  function ObservedChoices(rows: seq<Row>, d: Dimension): (r: seq<string>)
    ensures OffersExactly(r, rows, d)
  {
    LexLessIsStrictTotalOrder();
    SortedUnique(Observed(rows, d), LexLess)
  }

  /** `sorted(rows["year"].dropna().unique().tolist())`. */
  function YearChoices(rows: seq<Row>): (r: seq<int>)
    ensures StrictlySorted(r, IntLess)
    ensures forall y :: y in r <==> exists x :: x in rows && x.year == y
  {
    IntLessIsStrictTotalOrder();
    var ys := Years(rows);
    assert forall y :: y in ys <==> exists x :: x in rows && x.year == y by {
      forall y ensures y in ys <==> exists x :: x in rows && x.year == y {
        if y in ys {
          var i :| 0 <= i < |ys| && ys[i] == y;
          assert rows[i] in rows && rows[i].year == y;
        }
        if exists x :: x in rows && x.year == y {
          var x :| x in rows && x.year == y;
          var i :| 0 <= i < |rows| && rows[i] == x;
          assert ys[i] == y;
        }
      }
    }
    SortedUnique(ys, IntLess)
  }

  /** `get_filter_options`: the data-derived columns list their present
      values in ascending order, without repeats; size, funding and stance
      come from the fixed lists. */
  function GetFilterOptions(rows: seq<Row>): (r: Options)
    ensures OffersExactly(r.region, rows, Region)
    ensures OffersExactly(r.country, rows, Country)
    ensures OffersExactly(r.institutionType, rows, InstitutionType)
    ensures OffersExactly(r.discipline, rows, Discipline)
    ensures OffersExactly(r.quarter, rows, Quarter)
    ensures StrictlySorted(r.year, IntLess)
    ensures forall y :: y in r.year <==> exists x :: x in rows && x.year == y
    ensures r.institutionSize == SizeChoices && |r.institutionSize| == 4
    ensures r.fundingType == FundingChoices && |r.fundingType| == 3
    ensures r.policyStance == StanceChoices && |r.policyStance| == 4
  {
    Options(
      ObservedChoices(rows, Region),
      ObservedChoices(rows, Country),
      ObservedChoices(rows, InstitutionType),
      SizeChoices,
      FundingChoices,
      StanceChoices,
      ObservedChoices(rows, Discipline),
      ObservedChoices(rows, Quarter),
      YearChoices(rows)
    )
  }
}

module FilterOptionLaws {
  import opened Wrappers
  import opened Records
  import opened Ordering
  import opened Filters
  import opened FilterLaws
  import opened FilterOptions
  import Kpis

  /** The option list is determined by the set of present values alone:
      any ascending, repeat-free list of exactly those values is it. */
  lemma ChoicesAreDetermined(rows: seq<Row>, d: Dimension, opts: seq<string>)
    requires OffersExactly(opts, rows, d)
    ensures opts == ObservedChoices(rows, d)
  {
    LexLessIsStrictTotalOrder();
    StrictlySortedUnique(opts, ObservedChoices(rows, d), LexLess);
  }

  /** Reordering or duplicating rows does not change the options offered. */
  lemma ChoicesIgnoreRowOrder(rows: seq<Row>, other: seq<Row>, d: Dimension)
    requires forall x :: x in rows <==> x in other
    ensures ObservedChoices(rows, d) == ObservedChoices(other, d)
  {
    var opts := ObservedChoices(rows, d);
    forall v ensures HasValue(rows, d, v) <==> HasValue(other, d, v) {
      if HasValue(rows, d, v) {
        var x :| x in rows && Attr(x, d) == Some(v);
        assert x in other;
      }
      if HasValue(other, d, v) {
        var x :| x in other && Attr(x, d) == Some(v);
        assert x in rows;
      }
    }
    ChoicesAreDetermined(other, d, opts);
  }

  /** A repeat-free list has as many elements as the set of its elements. */
  lemma {:induction false} SortedListSize<T(!new)>(s: seq<T>, members: set<T>, less: (T, T) -> bool)
    requires StrictTotalOrder(less)
    requires StrictlySorted(s, less)
    requires forall v :: v in members <==> v in s
    ensures |members| == |s|
    decreases |s|
  {
    if |s| == 0 {
      assert members == {};
    } else {
      HeadIsLeast(s, less);
      var rest := members - {s[0]};
      forall v ensures v in rest <==> v in s[1..] {
        if v in s[1..] {
          var i :| 0 <= i < |s[1..]| && s[1..][i] == v;
          assert less(s[0], v);
        }
        assert s == [s[0]] + s[1..];
      }
      SortedListSize(s[1..], rest, less);
      assert members == rest + {s[0]};
    }
  }

  /** The country dropdown offers as many entries as the `total_countries`
      KPI counts: both are the distinct present countries. */
  lemma CountryChoicesMatchCountryCount(rows: seq<Row>)
    ensures |GetFilterOptions(rows).country| == Kpis.CountryCount(rows)
  {
    LexLessIsStrictTotalOrder();
    var opts := GetFilterOptions(rows).country;
    var countries := Kpis.Distinct(Observed(rows, Country));
    SortedListSize(opts, countries, LexLess);
  }

  /** The years offered are the years the deltas look for: 2023 and 2024
      are both offered exactly when the year-over-year deltas are defined. */
  lemma YearChoicesMatchDeltas(rows: seq<Row>, m: Metric)
    ensures (Kpis.YearOverYear(rows, m).Some?)
      <==> (Kpis.PreviousYear in GetFilterOptions(rows).year && Kpis.CurrentYear in GetFilterOptions(rows).year)
  {
  }

  /** One row under the selection of every present value of column `d`. */
  lemma AllChoicesRow(rows: seq<Row>, d: Dimension, x: Row)
    requires x in rows
    requires Active(Some(ObservedChoices(rows, d)))
    ensures Matches(x, With(NoFilters, d, Some(ObservedChoices(rows, d)))) <==> Attr(x, d).Some?
  {
    var spec := With(NoFilters, d, Some(ObservedChoices(rows, d)));
    if Attr(x, d).Some? {
      assert HasValue(rows, d, Attr(x, d).value);
    }
    assert forall e :: e != d ==> Passes(x, e, Sel(spec, e));
  }

  /** Selecting every value present in a column keeps exactly the rows
      whose cell in that column is present: only the missing cells are
      filtered away. When the column has no present value at all, the
      selection is empty and, being empty, filters nothing. */
  lemma AllChoicesKeepPresentCells(rows: seq<Row>, d: Dimension)
    ensures (exists x :: x in rows && Attr(x, d).Some?) ==>
      forall x ::
        (x in ApplyFilters(rows, With(NoFilters, d, Some(ObservedChoices(rows, d)))))
          <==> (x in rows && Attr(x, d).Some?)
    ensures (forall x :: x in rows ==> Attr(x, d).None?) ==>
      ApplyFilters(rows, With(NoFilters, d, Some(ObservedChoices(rows, d)))) == rows
  {
    if exists x :: x in rows && Attr(x, d).Some? {
      SomePresentCells(rows, d);
    } else {
      NoPresentCells(rows, d);
    }
  }

  lemma SomePresentCells(rows: seq<Row>, d: Dimension)
    requires exists x :: x in rows && Attr(x, d).Some?
    ensures forall x ::
      (x in ApplyFilters(rows, With(NoFilters, d, Some(ObservedChoices(rows, d)))))
        <==> (x in rows && Attr(x, d).Some?)
  {
    var opts := ObservedChoices(rows, d);
    var spec := With(NoFilters, d, Some(opts));
    var y :| y in rows && Attr(y, d).Some?;
    assert HasValue(rows, d, Attr(y, d).value);
    forall x | x in rows
      ensures Matches(x, spec) <==> Attr(x, d).Some?
    {
      AllChoicesRow(rows, d, x);
    }
  }

  lemma NoPresentCells(rows: seq<Row>, d: Dimension)
    requires forall x :: x in rows ==> Attr(x, d).None?
    ensures ApplyFilters(rows, With(NoFilters, d, Some(ObservedChoices(rows, d)))) == rows
  {
    var opts := ObservedChoices(rows, d);
    var spec := With(NoFilters, d, Some(opts));
    assert forall v :: !HasValue(rows, d, v);
    SameMembersSameEmptiness(opts, []);
    forall e: Dimension ensures !Active(Sel(spec, e)) {
    }
    NoSelectionKeepsAll(rows, spec);
  }
}
