/**
 * One run of the dashboard script over a filtered view, stage after stage.
 * Two stages can raise, and a raised exception ends the run: the tabs after
 * it are never drawn. This module ties the stand-alone stages together and
 * states which views and KPI choices reach the KPI and trend tabs.
 */
module Dashboard {
  import opened Survey
  import opened CountryCounts
  import opened FamilyHistory
  import opened Kpis
  import opened MonthlyTrend

  /** The columns the KPI selectbox offers. Only `age` is numeric. */
  datatype KpiFeature = Age | Treatment | FamilyHistoryAnswer

  /** Where a run stops early. */
  datatype Stop =
    | FamilyTableRaised  // `sort_values(by='Yes')` on a frame without a `Yes` column
    | KpiMeanRaised      // the mean of a column holding a string

  /** What a run that reaches the end has computed for the four tabs. */
  datatype Tabs = Tabs(
    entries: seq<CountryEntries>,
    familyTable: seq<FamilyRow>,
    kpis: Summary,
    buckets: seq<MonthBucket>)

  /**
   * Whether the KPI mean raises. The mean of the numeric `age` column never
   * does. The mean of a string column raises as soon as the column holds a
   * string; a column whose answers are all blank skips them all and gives NaN.
   */
  predicate MeanRaises(view: seq<Record>, kpi: KpiFeature) {
    match kpi
    case Age => false
    case Treatment => exists x :: x in view && x.treatment.Some?
    case FamilyHistoryAnswer => exists x :: x in view && x.familyHistory.Some?
  }

  /**
   * The script's run over a view: the country table, then the family-history
   * table (which may raise), then the KPI mean (which may raise on a string
   * column), then the KPIs and the monthly series.
   */
  function Run(view: seq<Record>, kpi: KpiFeature): (r: Result<Tabs, Stop>)
    ensures r == Err(FamilyTableRaised) <==> "Yes" !in Categories(view)
    ensures r == Err(KpiMeanRaised) <==>
      && "Yes" in Categories(view)
      && (kpi == FamilyHistoryAnswer || (kpi == Treatment && exists x :: x in view && x.treatment.Some?))
    ensures r.Ok? <==>
      && "Yes" in Categories(view)
      && (kpi == Age || (kpi == Treatment && forall x :: x in view ==> x.treatment.None?))
    ensures r.Ok? ==>
      && r.value.entries == CountryTable(view)
      && TopFamilyHistory(view) == Ok(r.value.familyTable)
      && r.value.kpis == ComputeKpis(view)
      && r.value.buckets == MonthlyBuckets(view)
  {
    if "Yes" !in Categories(view) then Err(FamilyTableRaised)
    else
      YesIsRecorded(view);
      if MeanRaises(view, kpi) then Err(KpiMeanRaised)
      else Ok(Tabs(CountryTable(view), TopFamilyHistory(view).value, ComputeKpis(view), MonthlyBuckets(view)))
  }

  /** A `Yes` column exists only when some row recorded a family-history answer. */
  lemma YesIsRecorded(view: seq<Record>)
    requires "Yes" in Categories(view)
    ensures exists x :: x in view && x.familyHistory.Some?
  {
    var x :| x in view && x.familyHistory.Some? && x.familyHistory.value == "Yes";
  }

  /** An empty view never gets past the family-history table. */
  lemma EmptyViewStops(kpi: KpiFeature)
    ensures Run([], kpi) == Err(FamilyTableRaised)
  {
    assert Categories([]) == {};
  }

  /**
   * A run that reaches the KPI tab has a non-empty view, so the rate it shows
   * is always a number, and the monthly series has at least one bucket.
   */
  lemma CompletedRunShowsRate(view: seq<Record>, kpi: KpiFeature)
    requires Run(view, kpi).Ok?
    ensures view != []
    ensures Run(view, kpi).value.kpis.treatmentRate.Some?
    ensures |Run(view, kpi).value.buckets| >= 1
  {
  }

  /**
   * The treatment KPI does not stop a run whose treatment answers are all
   * blank: the mean is NaN, the run completes, and the rate it shows is 0.
   */
  lemma BlankTreatmentCompletes(view: seq<Record>)
    requires "Yes" in Categories(view)
    requires forall x :: x in view ==> x.treatment.None?
    ensures Run(view, Treatment).Ok?
    ensures Run(view, Treatment).value.kpis.treatmentRate == Some(0.0)
  {
    RateExtremes(view);
  }
}
