/**
 * The KPI tab's integer figures: how many entries the view holds, and the
 * share of them currently receiving treatment.
 */
module Kpis {
  import opened Survey

  /** Number of rows whose treatment answer is exactly `Yes`; a missing answer is not `Yes`. */
  function CountTreatmentYes(view: seq<Record>): (n: nat)
    ensures n <= |view|
    ensures n > 0 <==> exists r :: r in view && r.treatment == Some("Yes")
    ensures n == |view| <==> forall r :: r in view ==> r.treatment == Some("Yes")
  {
    if view == [] then 0
    else
      var prefix, last := view[..|view| - 1], view[|view| - 1];
      assert view == prefix + [last];
      CountTreatmentYes(prefix) + (if last.treatment == Some("Yes") then 1 else 0)
  }

  /**
   * The figures behind the "Total Entries" and "Currently Receiving Treatment"
   * metrics. The rate is the mean of `treatment == "Yes"` over every row of
   * the view, times 100; it is undefined (pandas NaN) for an empty view.
   */
  datatype Summary = Summary(totalEntries: nat, treatedYes: nat, treatmentRate: Option<real>)

  function ComputeKpis(view: seq<Record>): (k: Summary)
    ensures k.totalEntries == |view|
    ensures k.treatedYes == CountTreatmentYes(view) && k.treatedYes <= k.totalEntries
    ensures k.treatmentRate.None? <==> k.totalEntries == 0
    ensures k.treatmentRate.Some? ==>
      && 0.0 <= k.treatmentRate.value <= 100.0
      && k.treatmentRate.value == Percentage(k.treatedYes, k.totalEntries)
  {
    var total, yes := |view|, CountTreatmentYes(view);
    if total == 0 then Summary(total, yes, None)
    else
      var rate := Percentage(yes, total);
      Summary(total, yes, Some(rate))
  }

  /** `part / whole * 100` for a part of a positive whole: between 0 and 100. */
  function Percentage(part: nat, whole: nat): (p: real)
    requires 0 < whole && part <= whole
    ensures 0.0 <= p <= 100.0
    ensures p * (whole as real) == 100.0 * (part as real)
  {
    var q := (part as real) / (whole as real);
    assert q * (whole as real) == part as real;
    assert q <= 1.0 by {
      if q > 1.0 {
        assert q * (whole as real) > 1.0 * (whole as real);
      }
    }
    q * 100.0
  }

  /** A percentage is 100 exactly for the whole, and 0 exactly for nothing of it. */
  lemma PercentageExtremes(part: nat, whole: nat)
    requires 0 < whole && part <= whole
    ensures Percentage(part, whole) == 100.0 <==> part == whole
    ensures Percentage(part, whole) == 0.0 <==> part == 0
  {
    var p, w, n := Percentage(part, whole), whole as real, part as real;
    assert p * w == 100.0 * n;
    if p == 100.0 {
      assert 100.0 * w == 100.0 * n;
    }
    if part == whole {
      assert p * w == 100.0 * w;
    }
  }

  /** The rate is 100 exactly when every row of the view is in treatment, and 0 exactly when none is. */
  lemma RateExtremes(view: seq<Record>)
    requires view != []
    ensures ComputeKpis(view).treatmentRate == Some(100.0) <==> forall r :: r in view ==> r.treatment == Some("Yes")
    ensures ComputeKpis(view).treatmentRate == Some(0.0) <==> forall r :: r in view ==> r.treatment != Some("Yes")
  {
    PercentageExtremes(CountTreatmentYes(view), |view|);
  }
}
