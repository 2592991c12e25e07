/** `apply_filters`: conjunctive, order-preserving narrowing of the table by
    up to eight categorical selections. */
module Filters {
  import opened Wrappers
  import opened Records

  /** One filter argument: Python's `None` or a list of accepted values. */
  type Selection = Option<seq<string>>

  datatype FilterSpec = FilterSpec(
    regions: Selection,
    countries: Selection,
    institutionTypes: Selection,
    fundingTypes: Selection,
    policyStances: Selection,
    quarters: Selection,
    disciplines: Selection,
    sizes: Selection
  )

  /** The spec that restricts nothing: every argument left at `None`. */
  const NoFilters: FilterSpec := FilterSpec(None, None, None, None, None, None, None, None)

  /** The order in which the source applies the eight checks. */
  const SourceOrder: seq<Dimension> :=
    [Region, Country, InstitutionType, FundingType, PolicyStance, Quarter, Discipline, Size]

  /** The selection `spec` holds for dimension `d`. */
  function Sel(spec: FilterSpec, d: Dimension): Selection {
    match d
    case Region => spec.regions
    case Country => spec.countries
    case InstitutionType => spec.institutionTypes
    case FundingType => spec.fundingTypes
    case PolicyStance => spec.policyStances
    case Quarter => spec.quarters
    case Discipline => spec.disciplines
    case Size => spec.sizes
  }

  /** `spec` with the selection for dimension `d` replaced by `sel`. */
  function With(spec: FilterSpec, d: Dimension, sel: Selection): (r: FilterSpec)
    ensures Sel(r, d) == sel
    ensures forall e :: e != d ==> Sel(r, e) == Sel(spec, e)
  {
    match d
    case Region => spec.(regions := sel)
    case Country => spec.(countries := sel)
    case InstitutionType => spec.(institutionTypes := sel)
    case FundingType => spec.(fundingTypes := sel)
    case PolicyStance => spec.(policyStances := sel)
    case Quarter => spec.(quarters := sel)
    case Discipline => spec.(disciplines := sel)
    case Size => spec.(sizes := sel)
  }

  /** A selection restricts only when it is a non-empty list
      (`if sel and len(sel) > 0`). */
  predicate Active(sel: Selection) {
    sel.Some? && |sel.value| > 0
  }

  /** pandas `isin`: a present cell listed among `values`; a missing cell
      never matches. */
  predicate IsIn(cell: Option<string>, values: seq<string>) {
    cell.Some? && cell.value in values
  }

  /** Whether `row` survives the check of dimension `d` under `sel`. */
  predicate Passes(row: Row, d: Dimension, sel: Selection) {
    !Active(sel) || IsIn(Attr(row, d), sel.value)
  }

  /** Whether `row` survives every check in `ds`. */
  predicate PassesAll(row: Row, spec: FilterSpec, ds: set<Dimension>) {
    forall d :: d in ds ==> Passes(row, d, Sel(spec, d))
  }

  /** Whether `row` survives all eight checks of `spec`. */
  predicate Matches(row: Row, spec: FilterSpec) {
    forall d: Dimension :: Passes(row, d, Sel(spec, d))
  }

  /** `rows[rows[col].isin(values)]`: the rows whose cell is listed, in order. */
  function KeepIsIn(rows: seq<Row>, d: Dimension, values: seq<string>): (r: seq<Row>)
    ensures |r| <= |rows|
    ensures forall x :: x in r <==> x in rows && IsIn(Attr(x, d), values)
  {
    if |rows| == 0 then []
    else
      var rest := KeepIsIn(rows[1..], d, values);
      assert forall x :: x in rows <==> x == rows[0] || x in rows[1..] by {
        assert rows == [rows[0]] + rows[1..];
      }
      (if IsIn(Attr(rows[0], d), values) then [rows[0]] else []) + rest
  }

  /** One step of `apply_filters`: skipped for a `None` or empty selection,
      an `isin` mask otherwise. */
  function Narrow(rows: seq<Row>, d: Dimension, sel: Selection): (r: seq<Row>)
    ensures |r| <= |rows|
    ensures forall x :: x in r <==> x in rows && Passes(x, d, sel)
  {
    if Active(sel) then KeepIsIn(rows, d, sel.value) else rows
  }

  /** The checks of `order` applied one after another. */
  function ApplyInOrder(rows: seq<Row>, spec: FilterSpec, order: seq<Dimension>): seq<Row>
    decreases |order|
  {
    if |order| == 0 then rows
    else ApplyInOrder(Narrow(rows, order[0], Sel(spec, order[0])), spec, order[1..])
  }

  /** Reference definition: one pass keeping the rows that survive every
      check in `ds`. */
  function Select(rows: seq<Row>, spec: FilterSpec, ds: set<Dimension>): seq<Row> {
    if |rows| == 0 then []
    else (if PassesAll(rows[0], spec, ds) then [rows[0]] else [])
         + Select(rows[1..], spec, ds)
  }

  /** `a` can be obtained from `b` by deleting elements. */
  ghost predicate IsSubsequence<T>(a: seq<T>, b: seq<T>)
    decreases |b|
  {
    |a| == 0
    || (|b| > 0 && ((a[0] == b[0] && IsSubsequence(a[1..], b[1..])) || IsSubsequence(a, b[1..])))
  }

  /** `apply_filters`. The result is an order-preserving subsequence of the
      input holding exactly the input rows that every active selection
      admits. */
  function ApplyFilters(rows: seq<Row>, spec: FilterSpec): (r: seq<Row>)
    ensures IsSubsequence(r, rows)
    ensures |r| <= |rows|
    ensures forall x :: x in r <==> x in rows && Matches(x, spec)
  {
    ApplyInOrderIsSelect(rows, spec, SourceOrder);
    EveryDimension();
    SelectIsSubsequence(rows, spec, AllDimensions);
    SubsequenceNoLonger(Select(rows, spec, AllDimensions), rows);
    SelectMembers(rows, spec, AllDimensions);
    ApplyInOrder(rows, spec, SourceOrder)
  }

  const AllDimensions: set<Dimension> :=
    {Region, Country, InstitutionType, FundingType, PolicyStance, Quarter, Discipline, Size}

  // ----- lemmas about the reference definition -----

  /** The source checks every dimension, once each. */
  lemma EveryDimension()
    ensures forall d: Dimension :: d in AllDimensions
    ensures (set d | d in SourceOrder) == AllDimensions
  {
    forall d: Dimension ensures d in AllDimensions {
      match d
      case Region =>
      case Country =>
      case InstitutionType =>
      case FundingType =>
      case PolicyStance =>
      case Quarter =>
      case Discipline =>
      case Size =>
    }
  }

  lemma {:induction false} SubsequenceNoLonger<T>(a: seq<T>, b: seq<T>)
    requires IsSubsequence(a, b)
    ensures |a| <= |b|
    decreases |b|
  {
    if |a| > 0 {
      if a[0] == b[0] && IsSubsequence(a[1..], b[1..]) {
        SubsequenceNoLonger(a[1..], b[1..]);
      } else {
        SubsequenceNoLonger(a, b[1..]);
      }
    }
  }

  lemma {:induction false} SelectIsSubsequence(rows: seq<Row>, spec: FilterSpec, ds: set<Dimension>)
    ensures IsSubsequence(Select(rows, spec, ds), rows)
    decreases |rows|
  {
    if |rows| > 0 {
      SelectIsSubsequence(rows[1..], spec, ds);
      var rest := Select(rows[1..], spec, ds);
      if PassesAll(rows[0], spec, ds) {
        assert ([rows[0]] + rest)[1..] == rest;
      } else {
        assert Select(rows, spec, ds) == rest;
      }
    }
  }

  lemma {:induction false} SelectMembers(rows: seq<Row>, spec: FilterSpec, ds: set<Dimension>)
    ensures forall x :: x in Select(rows, spec, ds) <==> x in rows && PassesAll(x, spec, ds)
    decreases |rows|
  {
    if |rows| > 0 {
      SelectMembers(rows[1..], spec, ds);
      assert rows == [rows[0]] + rows[1..];
    }
  }

  /** Selecting on no dimension keeps everything. */
  lemma {:induction false} SelectNothing(rows: seq<Row>, spec: FilterSpec)
    ensures Select(rows, spec, {}) == rows
    decreases |rows|
  {
    if |rows| > 0 {
      SelectNothing(rows[1..], spec);
      assert rows == [rows[0]] + rows[1..];
    }
  }

  /** One `isin` step followed by a one-pass select on `ds` is a one-pass
      select on `ds` plus that dimension. */
  lemma {:induction false} NarrowThenSelect(rows: seq<Row>, spec: FilterSpec, d: Dimension, ds: set<Dimension>)
    ensures Select(Narrow(rows, d, Sel(spec, d)), spec, ds) == Select(rows, spec, ds + {d})
    decreases |rows|
  {
    if |rows| > 0 && Active(Sel(spec, d)) {
      NarrowThenSelect(rows[1..], spec, d, ds);
      var tail := KeepIsIn(rows[1..], d, Sel(spec, d).value);
      if IsIn(Attr(rows[0], d), Sel(spec, d).value) {
        assert ([rows[0]] + tail)[1..] == tail;
      } else {
        assert Narrow(rows, d, Sel(spec, d)) == tail;
      }
    } else if |rows| > 0 {
      NarrowThenSelect(rows[1..], spec, d, ds);
      assert PassesAll(rows[0], spec, ds) == PassesAll(rows[0], spec, ds + {d});
    }
  }

  /** Applying checks one by one equals the one-pass select on the set of
      checked dimensions. */
  lemma {:induction false} ApplyInOrderIsSelect(rows: seq<Row>, spec: FilterSpec, order: seq<Dimension>)
    ensures ApplyInOrder(rows, spec, order) == Select(rows, spec, set d | d in order)
    decreases |order|
  {
    if |order| == 0 {
      SelectNothing(rows, spec);
      assert (set d | d in order) == {};
    } else {
      ApplyInOrderIsSelect(Narrow(rows, order[0], Sel(spec, order[0])), spec, order[1..]);
      NarrowThenSelect(rows, spec, order[0], set d | d in order[1..]);
      assert (set d | d in order) == (set d | d in order[1..]) + {order[0]};
    }
  }
}

module FilterLaws {
  import opened Wrappers
  import opened Records
  import opened Filters
  import opened Ordering

  lemma ApplyFiltersIsSelect(rows: seq<Row>, spec: FilterSpec)
    ensures ApplyFilters(rows, spec) == Select(rows, spec, AllDimensions)
    ensures forall x :: Matches(x, spec) <==> PassesAll(x, spec, AllDimensions)
  {
    ApplyInOrderIsSelect(rows, spec, SourceOrder);
    EveryDimension();
  }

  /** Two one-pass selects that agree on every row give the same rows. */
  lemma {:induction false} SelectCongruent(rows: seq<Row>, s1: FilterSpec, a: set<Dimension>, s2: FilterSpec, b: set<Dimension>)
    requires forall x :: x in rows ==> (PassesAll(x, s1, a) <==> PassesAll(x, s2, b))
    ensures Select(rows, s1, a) == Select(rows, s2, b)
    decreases |rows|
  {
    if |rows| > 0 {
      SelectCongruent(rows[1..], s1, a, s2, b);
    }
  }

  /** A select applied to the result of a select keeps the rows both admit. */
  lemma {:induction false} SelectSelect(rows: seq<Row>, s1: FilterSpec, a: set<Dimension>, s2: FilterSpec, b: set<Dimension>,
                                        s3: FilterSpec, c: set<Dimension>)
    requires forall x :: x in rows ==> (PassesAll(x, s1, a) && PassesAll(x, s2, b) <==> PassesAll(x, s3, c))
    ensures Select(Select(rows, s1, a), s2, b) == Select(rows, s3, c)
    decreases |rows|
  {
    if |rows| > 0 {
      SelectSelect(rows[1..], s1, a, s2, b, s3, c);
      var tail := Select(rows[1..], s1, a);
      if PassesAll(rows[0], s1, a) {
        assert ([rows[0]] + tail)[1..] == tail;
      } else {
        assert Select(rows, s1, a) == tail;
      }
    }
  }

  /** With every selection `None` or empty, all rows come back in their
      original order. */
  lemma NoSelectionKeepsAll(rows: seq<Row>, spec: FilterSpec)
    requires forall d: Dimension :: !Active(Sel(spec, d))
    ensures ApplyFilters(rows, spec) == rows
  {
    ApplyFiltersIsSelect(rows, spec);
    SelectCongruent(rows, spec, AllDimensions, spec, {});
    SelectNothing(rows, spec);
  }

  /** An empty list and `None` are the same selection. */
  lemma EmptySelectionIsNoSelection(rows: seq<Row>, spec: FilterSpec, d: Dimension)
    ensures ApplyFilters(rows, With(spec, d, Some([]))) == ApplyFilters(rows, With(spec, d, None))
  {
    var s1 := With(spec, d, Some([]));
    var s2 := With(spec, d, None);
    ApplyFiltersIsSelect(rows, s1);
    ApplyFiltersIsSelect(rows, s2);
    forall x | x in rows
      ensures PassesAll(x, s1, AllDimensions) <==> PassesAll(x, s2, AllDimensions)
    {
      forall e ensures Passes(x, e, Sel(s1, e)) == Passes(x, e, Sel(s2, e)) {
        if e == d {
          assert !Active(Sel(s1, e)) && !Active(Sel(s2, e));
        } else {
          assert Sel(s1, e) == Sel(s2, e);
        }
      }
    }
    SelectCongruent(rows, s1, AllDimensions, s2, AllDimensions);
  }

  /** Only the members of a selection matter: its order and repetitions do
      not. */
  lemma SelectionIsASet(rows: seq<Row>, spec: FilterSpec, d: Dimension, a: seq<string>, b: seq<string>)
    requires forall v :: v in a <==> v in b
    ensures ApplyFilters(rows, With(spec, d, Some(a))) == ApplyFilters(rows, With(spec, d, Some(b)))
  {
    var s1 := With(spec, d, Some(a));
    var s2 := With(spec, d, Some(b));
    ApplyFiltersIsSelect(rows, s1);
    ApplyFiltersIsSelect(rows, s2);
    SameMembersSameEmptiness(a, b);
    forall x | x in rows
      ensures PassesAll(x, s1, AllDimensions) <==> PassesAll(x, s2, AllDimensions)
    {
      assert forall e :: Passes(x, e, Sel(s1, e)) == Passes(x, e, Sel(s2, e));
    }
    SelectCongruent(rows, s1, AllDimensions, s2, AllDimensions);
  }

  /** Filtering twice with the same spec is filtering once. */
  lemma ApplyFiltersIdempotent(rows: seq<Row>, spec: FilterSpec)
    ensures ApplyFilters(ApplyFilters(rows, spec), spec) == ApplyFilters(rows, spec)
  {
    ApplyFiltersIsSelect(rows, spec);
    ApplyFiltersIsSelect(Select(rows, spec, AllDimensions), spec);
    SelectSelect(rows, spec, AllDimensions, spec, AllDimensions, spec, AllDimensions);
  }

  /** The eight checks may run in any order: every order that checks each
      dimension gives the source's result. */
  lemma CheckOrderIrrelevant(rows: seq<Row>, spec: FilterSpec, order: seq<Dimension>)
    requires forall d: Dimension :: d in order
    ensures ApplyInOrder(rows, spec, order) == ApplyFilters(rows, spec)
  {
    ApplyInOrderIsSelect(rows, spec, order);
    ApplyFiltersIsSelect(rows, spec);
    CoveringOrder(order);
  }

  lemma CoveringOrder(order: seq<Dimension>)
    requires forall d: Dimension :: d in order
    ensures (set d | d in order) == AllDimensions
  {
    var covered := set d | d in order;
    forall d ensures d in covered <==> d in AllDimensions {
      EveryDimension();
    }
  }

  /** A row passes the combined spec exactly when it passes the region-only
      and the country-only specs. */
  lemma IntersectRow(x: Row, regions: seq<string>, countries: seq<string>)
    ensures var both := NoFilters.(regions := Some(regions), countries := Some(countries));
            var byRegion := NoFilters.(regions := Some(regions));
            var byCountry := NoFilters.(countries := Some(countries));
            (PassesAll(x, byRegion, AllDimensions) && PassesAll(x, byCountry, AllDimensions))
              <==> PassesAll(x, both, AllDimensions)
  {
    var both := NoFilters.(regions := Some(regions), countries := Some(countries));
    var byRegion := NoFilters.(regions := Some(regions));
    var byCountry := NoFilters.(countries := Some(countries));
    assert PassesAll(x, both, AllDimensions) <==> Passes(x, Region, Some(regions)) && Passes(x, Country, Some(countries));
    assert PassesAll(x, byRegion, AllDimensions) <==> Passes(x, Region, Some(regions));
    assert PassesAll(x, byCountry, AllDimensions) <==> Passes(x, Country, Some(countries));
  }

  /** Region and country selections combine as an intersection: filtering by
      both at once equals filtering by region and then by country, and by
      country and then by region. */
  lemma RegionAndCountryIntersect(rows: seq<Row>, regions: seq<string>, countries: seq<string>)
    ensures var both := NoFilters.(regions := Some(regions), countries := Some(countries));
            var byRegion := NoFilters.(regions := Some(regions));
            var byCountry := NoFilters.(countries := Some(countries));
            && ApplyFilters(ApplyFilters(rows, byRegion), byCountry) == ApplyFilters(rows, both)
            && ApplyFilters(ApplyFilters(rows, byCountry), byRegion) == ApplyFilters(rows, both)
  {
    var both := NoFilters.(regions := Some(regions), countries := Some(countries));
    var byRegion := NoFilters.(regions := Some(regions));
    var byCountry := NoFilters.(countries := Some(countries));
    ApplyFiltersIsSelect(rows, both);
    ApplyFiltersIsSelect(rows, byRegion);
    ApplyFiltersIsSelect(rows, byCountry);
    ApplyFiltersIsSelect(Select(rows, byRegion, AllDimensions), byCountry);
    ApplyFiltersIsSelect(Select(rows, byCountry, AllDimensions), byRegion);
    forall x | x in rows
      ensures PassesAll(x, byRegion, AllDimensions) && PassesAll(x, byCountry, AllDimensions)
              <==> PassesAll(x, both, AllDimensions)
    {
      IntersectRow(x, regions, countries);
    }
    SelectSelect(rows, byRegion, AllDimensions, byCountry, AllDimensions, both, AllDimensions);
    SelectSelect(rows, byCountry, AllDimensions, byRegion, AllDimensions, both, AllDimensions);
  }

  /** Adding a country selection that already covers every row the other
      selections admit changes nothing: selecting a region together with all
      of its countries is selecting the region. */
  lemma CoveringCountriesAreRedundant(rows: seq<Row>, spec: FilterSpec, countries: seq<string>)
    requires forall x :: x in rows && Matches(x, spec.(countries := None)) ==> IsIn(x.country, countries)
    ensures ApplyFilters(rows, spec.(countries := Some(countries))) == ApplyFilters(rows, spec.(countries := None))
  {
    var s1 := spec.(countries := Some(countries));
    var s2 := spec.(countries := None);
    ApplyFiltersIsSelect(rows, s1);
    ApplyFiltersIsSelect(rows, s2);
    forall x | x in rows
      ensures PassesAll(x, s1, AllDimensions) <==> PassesAll(x, s2, AllDimensions)
    {
      assert forall e :: e != Country ==> Sel(s1, e) == Sel(s2, e);
      if Matches(x, s2) {
        assert Passes(x, Country, Sel(s1, Country));
        assert forall e :: Passes(x, e, Sel(s1, e));
      }
      if Matches(x, s1) {
        assert forall e :: Passes(x, e, Sel(s2, e));
      }
    }
    SelectCongruent(rows, s1, AllDimensions, s2, AllDimensions);
  }
}
