/**
 * The survey dataset the dashboard explores: one record per response to the
 * mental-health-in-tech survey, with the columns the dashboard reads.
 */
module Survey {

  datatype Option<+T> = None | Some(value: T)

  datatype Result<+T, +E> = Ok(value: T) | Err(error: E)

  /** A calendar month; the resolution at which the trend chart buckets timestamps. */
  datatype YearMonth = YearMonth(year: int, month: int)

  predicate ValidMonth(ym: YearMonth) {
    1 <= ym.month <= 12
  }

  /** Months counted from January of year 0, so that calendar neighbours get neighbouring numbers. */
  function MonthNumber(ym: YearMonth): int {
    ym.year * 12 + (ym.month - 1)
  }

  /** The calendar month with a given number. */
  function MonthOfNumber(n: int): (ym: YearMonth)
    ensures ValidMonth(ym)
    ensures MonthNumber(ym) == n
  {
    YearMonth(n / 12, n % 12 + 1)
  }

  /** Numbering a valid month and reading the number back gives the month itself. */
  lemma MonthNumberRoundTrip(ym: YearMonth)
    requires ValidMonth(ym)
    ensures MonthOfNumber(MonthNumber(ym)) == ym
  {
    var n := MonthNumber(ym);
    var m := MonthOfNumber(n);
    MonthNumberInjective(m, ym);
  }

  /** Different calendar months get different numbers. */
  lemma MonthNumberInjective(a: YearMonth, b: YearMonth)
    requires ValidMonth(a) && ValidMonth(b)
    requires MonthNumber(a) == MonthNumber(b)
    ensures a == b
  {
    var n := MonthNumber(a);
    assert a.year * 12 <= n < a.year * 12 + 12;
    assert b.year * 12 <= n < b.year * 12 + 12;
  }

  /** Month numbers follow calendar order: first by year, then by month within the year. */
  lemma MonthNumberOrder(a: YearMonth, b: YearMonth)
    requires ValidMonth(a) && ValidMonth(b)
    ensures MonthNumber(a) < MonthNumber(b) <==> a.year < b.year || (a.year == b.year && a.month < b.month)
  {
    if a.year < b.year {
      assert MonthNumber(a) <= a.year * 12 + 11 < b.year * 12 <= MonthNumber(b);
    } else if b.year < a.year {
      assert MonthNumber(b) <= b.year * 12 + 11 < a.year * 12 <= MonthNumber(a);
    }
  }

  /**
   * One survey response. `treatment` and `familyHistory` may be missing
   * (pandas NaN); the timestamp is kept at month resolution.
   */
  datatype Record = Record(
    country: string,
    gender: string,
    age: int,
    treatment: Option<string>,
    familyHistory: Option<string>,
    timestamp: YearMonth)

  /** Every timestamp names a real calendar month (what the date parser guarantees). */
  predicate WellFormed(data: seq<Record>) {
    forall r :: r in data ==> ValidMonth(r.timestamp)
  }

  function Countries(view: seq<Record>): set<string> {
    set r | r in view :: r.country
  }

  /** Number of rows of `view` from country `c`. */
  function CountCountry(view: seq<Record>, c: string): (n: nat)
    ensures n <= |view|
    ensures n > 0 <==> c in Countries(view)
  {
    if view == [] then 0
    else
      var prefix, last := view[..|view| - 1], view[|view| - 1];
      assert view == prefix + [last];
      assert Countries(view) == Countries(prefix) + {last.country};
      CountCountry(prefix, c) + (if last.country == c then 1 else 0)
  }
}
