/**
 * The trend tab's monthly series: the view indexed by timestamp, resampled
 * to calendar months, the recorded treatment answers counted per month, and
 * each month numbered in order. Resampling covers every month from the
 * earliest to the latest timestamp, so a month without rows appears with a
 * count of 0.
 */
module MonthlyTrend {
  import opened Survey
  import opened Sequences

  /** One row of the resampled frame: the month, its count, and its `month_index`. */
  datatype MonthBucket = MonthBucket(month: YearMonth, treatmentCount: nat, monthIndex: nat)

  function TreatmentCount(b: MonthBucket): int {
    b.treatmentCount
  }

  /** The number of the earliest month among the view's timestamps. */
  function FirstMonth(view: seq<Record>): (m: int)
    requires view != []
    ensures forall r :: r in view ==> m <= MonthNumber(r.timestamp)
  {
    var prefix, last := view[..|view| - 1], view[|view| - 1];
    assert view == prefix + [last];
    if prefix == [] then MonthNumber(last.timestamp)
    else
      var m := FirstMonth(prefix);
      if MonthNumber(last.timestamp) < m then MonthNumber(last.timestamp) else m
  }

  /** The number of the latest month among the view's timestamps. */
  function LastMonth(view: seq<Record>): (m: int)
    requires view != []
    ensures forall r :: r in view ==> MonthNumber(r.timestamp) <= m
  {
    var prefix, last := view[..|view| - 1], view[|view| - 1];
    assert view == prefix + [last];
    if prefix == [] then MonthNumber(last.timestamp)
    else
      var m := LastMonth(prefix);
      if MonthNumber(last.timestamp) > m then MonthNumber(last.timestamp) else m
  }

  /** The earliest and the latest month are each the month of some row. */
  lemma {:induction false} MonthBoundsAttained(view: seq<Record>)
    requires view != []
    ensures exists r :: r in view && MonthNumber(r.timestamp) == FirstMonth(view)
    ensures exists r :: r in view && MonthNumber(r.timestamp) == LastMonth(view)
  {
    var prefix, last := view[..|view| - 1], view[|view| - 1];
    assert view == prefix + [last];
    if prefix != [] {
      MonthBoundsAttained(prefix);
      var first :| first in prefix && MonthNumber(first.timestamp) == FirstMonth(prefix);
      var latest :| latest in prefix && MonthNumber(latest.timestamp) == LastMonth(prefix);
      assert first in view && latest in view;
    }
  }

  /** Rows with a recorded treatment answer (what `count` counts). */
  function CountTreated(view: seq<Record>): (n: nat)
    ensures n <= |view|
  {
    if view == [] then 0
    else
      var prefix, last := view[..|view| - 1], view[|view| - 1];
      CountTreated(prefix) + (if last.treatment.Some? then 1 else 0)
  }

  /** Rows with a recorded treatment answer whose month number lies in `[from, to)`. */
  function CountTreatedBetween(view: seq<Record>, from: int, to: int): nat {
    if view == [] then 0
    else
      var prefix, last := view[..|view| - 1], view[|view| - 1];
      assert view == prefix + [last];
      CountTreatedBetween(prefix, from, to)
        + (if last.treatment.Some? && from <= MonthNumber(last.timestamp) < to then 1 else 0)
  }

  /** Rows with a recorded treatment answer in month number `m`. */
  function CountTreatedIn(view: seq<Record>, m: int): nat {
    CountTreatedBetween(view, m, m + 1)
  }

  /** The buckets of the `count` months numbered from `m` on, indexed from `k`. */
  function Series(view: seq<Record>, m: int, k: nat, count: nat): (b: seq<MonthBucket>)
    ensures |b| == count
    decreases count
  {
    if count == 0 then []
    else [MonthBucket(MonthOfNumber(m), CountTreatedIn(view, m), k)] + Series(view, m + 1, k + 1, count - 1)
  }

  /** Bucket i of a series is month `m + i`, indexed `k + i`, with that month's count. */
  lemma {:induction false} SeriesBuckets(view: seq<Record>, m: int, k: nat, count: nat)
    ensures forall i :: 0 <= i < count ==>
      Series(view, m, k, count)[i] == MonthBucket(MonthOfNumber(m + i), CountTreatedIn(view, m + i), k + i)
    decreases count
  {
    if count > 0 {
      var b, rest := Series(view, m, k, count), Series(view, m + 1, k + 1, count - 1);
      SeriesBuckets(view, m + 1, k + 1, count - 1);
      forall i | 0 < i < count
        ensures b[i] == MonthBucket(MonthOfNumber(m + i), CountTreatedIn(view, m + i), k + i)
      {
        assert b[i] == rest[i - 1];
        assert m + 1 + (i - 1) == m + i;
      }
    }
  }

  /**
   * `resample('M')['treatment'].count()` with `month_index` added: bucket i
   * is the i-th month after the earliest one, up to the latest, and counts
   * the recorded treatment answers of that month. Since month numbers follow
   * calendar order (`MonthNumberOrder`), the buckets are in chronological
   * order, as the resampled index is.
   */
  function MonthlyBuckets(view: seq<Record>): (b: seq<MonthBucket>)
    ensures view == [] ==> b == []
    ensures view != [] ==> |b| == LastMonth(view) - FirstMonth(view) + 1
    ensures forall i :: 0 <= i < |b| ==>
      && b[i].monthIndex == i
      && ValidMonth(b[i].month)
      && MonthNumber(b[i].month) == FirstMonth(view) + i
      && b[i].treatmentCount == CountTreatedIn(view, MonthNumber(b[i].month))
  {
    if view == [] then []
    else
      var lo := FirstMonth(view);
      assert view[0] in view;
      var count := LastMonth(view) - lo + 1;
      SeriesBuckets(view, lo, 0, count);
      Series(view, lo, 0, count)
  }

  /**
   * The series spans the view exactly: the first bucket is the earliest
   * month of a row, the last bucket the latest, and every row's month has
   * its bucket.
   */
  lemma BucketsSpanView(view: seq<Record>)
    requires view != [] && WellFormed(view)
    ensures var b := MonthlyBuckets(view);
      && (exists r :: r in view && r.timestamp == b[0].month)
      && (exists r :: r in view && r.timestamp == b[|b| - 1].month)
      && forall r :: r in view ==> exists i :: 0 <= i < |b| && b[i].month == r.timestamp
  {
    var b := MonthlyBuckets(view);
    var lo, hi := FirstMonth(view), LastMonth(view);
    MonthBoundsAttained(view);
    var first :| first in view && MonthNumber(first.timestamp) == lo;
    MonthNumberInjective(first.timestamp, b[0].month);
    var last :| last in view && MonthNumber(last.timestamp) == hi;
    MonthNumberInjective(last.timestamp, b[|b| - 1].month);
    forall r | r in view ensures exists i :: 0 <= i < |b| && b[i].month == r.timestamp {
      var i := MonthNumber(r.timestamp) - lo;
      MonthNumberInjective(r.timestamp, b[i].month);
    }
  }

  /** A month none of whose rows has a recorded treatment answer counts 0, gap months included. */
  lemma EmptyMonthCountsZero(view: seq<Record>, i: nat)
    requires i < |MonthlyBuckets(view)|
    requires forall r :: r in view && r.treatment.Some? ==> r.timestamp != MonthlyBuckets(view)[i].month
    requires WellFormed(view)
    ensures MonthlyBuckets(view)[i].treatmentCount == 0
  {
    var b := MonthlyBuckets(view);
    var m := MonthNumber(b[i].month);
    assert b[i].treatmentCount == CountTreatedBetween(view, m, m + 1);
    forall r | r in view && r.treatment.Some? ensures !(m <= MonthNumber(r.timestamp) < m + 1) {
      if MonthNumber(r.timestamp) == m {
        MonthNumberInjective(r.timestamp, b[i].month);
      }
    }
    NoneInRange(view, m, m + 1);
  }

  /** A range that holds no row with a recorded answer counts 0. */
  lemma {:induction false} NoneInRange(view: seq<Record>, from: int, to: int)
    requires forall r :: r in view && r.treatment.Some? ==> !(from <= MonthNumber(r.timestamp) < to)
    ensures CountTreatedBetween(view, from, to) == 0
  {
    if view != [] {
      var prefix := view[..|view| - 1];
      assert view == prefix + [view[|view| - 1]];
      NoneInRange(prefix, from, to);
    }
  }

  /** The counts of the series add up to the view's recorded treatment answers. */
  lemma BucketsSumToTreated(view: seq<Record>)
    ensures SumBy(MonthlyBuckets(view), TreatmentCount) == CountTreated(view)
  {
    if view != [] {
      var lo, hi := FirstMonth(view), LastMonth(view);
      assert MonthlyBuckets(view) == Series(view, lo, 0, hi - lo + 1);
      SpanSum(view, lo, hi - lo + 1);
    }
  }

  /** Counting a run of months that holds every row counts every recorded answer. */
  lemma SpanSum(view: seq<Record>, lo: int, n: nat)
    requires forall r :: r in view ==> lo <= MonthNumber(r.timestamp) < lo + n
    ensures SumBy(Series(view, lo, 0, n), TreatmentCount) == CountTreated(view)
  {
    SeriesSum(view, lo, 0, n);
    WholeRange(view, lo, lo + n);
  }

  /** The buckets of a run of months count the recorded answers of that run. */
  lemma {:induction false} SeriesSum(view: seq<Record>, m: int, k: nat, count: nat)
    ensures SumBy(Series(view, m, k, count), TreatmentCount) == CountTreatedBetween(view, m, m + count)
    decreases count
  {
    if count == 0 {
      EmptyRange(view, m, m);
    } else {
      var b := Series(view, m, k, count);
      assert b[1..] == Series(view, m + 1, k + 1, count - 1);
      SeriesSum(view, m + 1, k + 1, count - 1);
      assert m + 1 + (count - 1) == m + count;
      SplitFirstMonth(view, m, m + count);
    }
  }

  lemma {:induction false} EmptyRange(view: seq<Record>, from: int, to: int)
    requires to <= from
    ensures CountTreatedBetween(view, from, to) == 0
  {
    if view != [] {
      EmptyRange(view[..|view| - 1], from, to);
    }
  }

  /** Counting a range splits into its first month and the rest. */
  lemma {:induction false} SplitFirstMonth(view: seq<Record>, from: int, to: int)
    requires from < to
    ensures CountTreatedBetween(view, from, to)
      == CountTreatedBetween(view, from, from + 1) + CountTreatedBetween(view, from + 1, to)
  {
    if view != [] {
      SplitFirstMonth(view[..|view| - 1], from, to);
    }
  }

  /** When every row falls in the range, counting the range counts every recorded answer. */
  lemma {:induction false} WholeRange(view: seq<Record>, from: int, to: int)
    requires forall r :: r in view ==> from <= MonthNumber(r.timestamp) < to
    ensures CountTreatedBetween(view, from, to) == CountTreated(view)
  {
    if view != [] {
      var prefix := view[..|view| - 1];
      assert view == prefix + [view[|view| - 1]];
      WholeRange(prefix, from, to);
    }
  }
}
