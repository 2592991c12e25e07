/** One row of the institution survey table: an institution in one survey
    quarter. Categorical cells that may be missing in the CSV are
    `Option<string>` (`None` is pandas' NaN); the year is an integer column and
    the metrics are exact reals. */
module Records {
  import opened Wrappers

  datatype Row = Row(
    institutionId: string,
    region: Option<string>,
    country: Option<string>,
    institutionType: Option<string>,
    institutionSize: Option<string>,
    fundingType: Option<string>,
    policyStance: Option<string>,
    discipline: Option<string>,
    quarter: Option<string>,
    year: int,
    adoptionRate: real,
    literacyIndex: real,
    incidentRate: real,
    outcomeDelta: real,
    satisfaction: real,
    trainingHours: real,
    policyMaturity: real,
    infrastructure: real
  )

  /** The eight categorical columns a filter can restrict. */
  datatype Dimension =
    | Region | Country | InstitutionType | FundingType
    | PolicyStance | Quarter | Discipline | Size

  /** The cell of `row` in column `d`. */
  function Attr(row: Row, d: Dimension): Option<string> {
    match d
    case Region => row.region
    case Country => row.country
    case InstitutionType => row.institutionType
    case FundingType => row.fundingType
    case PolicyStance => row.policyStance
    case Quarter => row.quarter
    case Discipline => row.discipline
    case Size => row.institutionSize
  }

  /** The numeric columns the KPIs average. */
  datatype Metric =
    | AdoptionRate | LiteracyIndex | IncidentRate | OutcomeDelta
    | Satisfaction | TrainingHours | PolicyMaturity | Infrastructure

  /** The cell of `row` in metric column `m`. */
  function Measure(row: Row, m: Metric): real {
    match m
    case AdoptionRate => row.adoptionRate
    case LiteracyIndex => row.literacyIndex
    case IncidentRate => row.incidentRate
    case OutcomeDelta => row.outcomeDelta
    case Satisfaction => row.satisfaction
    case TrainingHours => row.trainingHours
    case PolicyMaturity => row.policyMaturity
    case Infrastructure => row.infrastructure
  }

  /** Some row of `rows` holds `v` in column `d`. */
  predicate HasValue(rows: seq<Row>, d: Dimension, v: string) {
    exists x :: x in rows && Attr(x, d) == Some(v)
  }

  /** `rows[col].dropna()`: the present cells of column `d`, in row order. */
  function Observed(rows: seq<Row>, d: Dimension): (r: seq<string>)
    ensures |r| <= |rows|
    ensures forall v :: v in r <==> HasValue(rows, d, v)
  {
    if |rows| == 0 then []
    else
      var rest := Observed(rows[1..], d);
      assert forall v :: HasValue(rows, d, v) <==> Attr(rows[0], d) == Some(v) || HasValue(rows[1..], d, v) by {
        assert rows == [rows[0]] + rows[1..];
      }
      match Attr(rows[0], d)
      case Some(v) => [v] + rest
      case None => rest
  }

  /** The `institution_id` column, in row order. */
  function Ids(rows: seq<Row>): (r: seq<string>)
    ensures |r| == |rows|
    ensures forall i :: 0 <= i < |rows| ==> r[i] == rows[i].institutionId
  {
    seq(|rows|, i requires 0 <= i < |rows| => rows[i].institutionId)
  }

  /** The `year` column, in row order. */
  function Years(rows: seq<Row>): (r: seq<int>)
    ensures |r| == |rows|
    ensures forall i :: 0 <= i < |rows| ==> r[i] == rows[i].year
  {
    seq(|rows|, i requires 0 <= i < |rows| => rows[i].year)
  }
}
