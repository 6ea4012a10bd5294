/**
 * The family-history-by-country bar chart's table: the view grouped by
 * country, each group's family-history answers counted, unstacked into one
 * column per answer with absent combinations filled with 0, sorted by the
 * `Yes` column from largest down, and cut to the first ten rows.
 */
module FamilyHistory {
  import opened Survey
  import opened Sequences

  /** How many rows `head` keeps. */
  const TopN: nat := 10

  /** One row of the unstacked table: a country and its count for each answer column. */
  datatype FamilyRow = FamilyRow(country: string, counts: map<string, nat>)

  /** Sorting by a `Yes` column the table does not have (pandas raises KeyError). */
  datatype TableError = MissingYesColumn

  /** The recorded family-history answers in the view: the columns `unstack` creates. */
  function Categories(view: seq<Record>): set<string> {
    set r | r in view && r.familyHistory.Some? :: r.familyHistory.value
  }

  /** The countries with at least one recorded answer: the groups `value_counts` reports. */
  function AnsweringCountries(view: seq<Record>): set<string> {
    set r | r in view && r.familyHistory.Some? :: r.country
  }

  /** Number of rows of `view` from country `c` whose family-history answer is `k`. */
  function CountFamily(view: seq<Record>, c: string, k: string): (n: nat)
    ensures n <= CountCountry(view, c)
    ensures n > 0 <==> exists r :: r in view && r.country == c && r.familyHistory == Some(k)
  {
    if view == [] then 0
    else
      var prefix, last := view[..|view| - 1], view[|view| - 1];
      assert view == prefix + [last];
      CountFamily(prefix, c, k) + (if last.country == c && last.familyHistory == Some(k) then 1 else 0)
  }

  /** Country `c`'s row: a count under every answer column, 0 where `c` never gave that answer. */
  function RowFor(view: seq<Record>, c: string): FamilyRow {
    FamilyRow(c, map k | k in Categories(view) :: CountFamily(view, c, k))
  }

  function RowCountry(row: FamilyRow): string {
    row.country
  }

  function YesCount(row: FamilyRow): int {
    if "Yes" in row.counts then row.counts["Yes"] else 0
  }

  function NoCount(row: FamilyRow): int {
    if "No" in row.counts then row.counts["No"] else 0
  }

  /** The group keys: the country of every row with a recorded answer, in view order. */
  function AnsweringColumn(view: seq<Record>): (col: seq<string>)
    ensures forall c :: c in col <==> c in AnsweringCountries(view)
  {
    if view == [] then []
    else
      var prefix, last := view[..|view| - 1], view[|view| - 1];
      assert view == prefix + [last];
      AnsweringColumn(prefix) + (if last.familyHistory.Some? then [last.country] else [])
  }

  /** The rows of the countries `cs`, in the order of `cs`. */
  function Unstacked(view: seq<Record>, cs: seq<string>): (t: seq<FamilyRow>)
    ensures |t| == |cs|
    ensures forall i :: 0 <= i < |cs| ==> t[i] == RowFor(view, cs[i])
  {
    if cs == [] then [] else [RowFor(view, cs[0])] + Unstacked(view, cs[1..])
  }

  /** The whole unstacked table sorted by its `Yes` column, before `head` cuts it. */
  function Ranked(view: seq<Record>): (t: seq<FamilyRow>)
    ensures SortedDesc(t, YesCount)
    ensures forall i, j :: 0 <= i < j < |t| ==> t[i].country != t[j].country
    ensures forall i :: 0 <= i < |t| ==> t[i].country in AnsweringCountries(view) && t[i] == RowFor(view, t[i].country)
    ensures forall c :: c in AnsweringCountries(view) ==> exists i :: 0 <= i < |t| && t[i].country == c
  {
    var col := AnsweringColumn(view);
    var cs := Distinct(col);
    assert forall c :: c in cs <==> c in AnsweringCountries(view) by {
      forall c ensures c in cs <==> c in AnsweringCountries(view) {
        if c in cs {
          var i :| 0 <= i < |cs| && cs[i] == c;
        }
        if c in col {
          var i :| 0 <= i < |col| && col[i] == c;
        }
      }
    }
    var t := SortDesc(Unstacked(view, cs), YesCount);
    ReorderedRows(view, cs, t);
    t
  }

  lemma ReorderedRows(view: seq<Record>, cs: seq<string>, t: seq<FamilyRow>)
    requires NoDuplicates(cs)
    requires forall c :: c in cs <==> c in AnsweringCountries(view)
    requires multiset(t) == multiset(Unstacked(view, cs))
    ensures forall i, j :: 0 <= i < j < |t| ==> t[i].country != t[j].country
    ensures forall i :: 0 <= i < |t| ==> t[i].country in AnsweringCountries(view) && t[i] == RowFor(view, t[i].country)
    ensures forall c :: c in AnsweringCountries(view) ==> exists i :: 0 <= i < |t| && t[i].country == c
  {
    var rows := Unstacked(view, cs);
    forall i, j | 0 <= i < j < |rows| ensures rows[i] != rows[j] {
      assert rows[i].country == cs[i] && rows[j].country == cs[j];
    }
    PermutationNoDuplicates(rows, t);
    PermutationMembers(rows, t);
    forall i | 0 <= i < |t|
      ensures t[i].country in AnsweringCountries(view) && t[i] == RowFor(view, t[i].country)
    {
      assert t[i] in t;
      var k :| 0 <= k < |rows| && rows[k] == t[i];
      assert cs[k] in cs;
    }
    forall i, j | 0 <= i < j < |t| ensures t[i].country != t[j].country {
      assert t[i] != t[j];
    }
    PermutationKeepsKeys(cs, rows, t, RowCountry);
  }

  /**
   * The dashboard's family-history table: at most ten rows, `Yes` counts non-increasing,
   * each row a distinct answering country with a count under every answer
   * column; an error when no row of the view answered `Yes`.
   */
  function TopFamilyHistory(view: seq<Record>): (res: Result<seq<FamilyRow>, TableError>)
    ensures res.Err? <==> "Yes" !in Categories(view)
    ensures res.Ok? ==> |res.value| <= TopN && SortedDesc(res.value, YesCount)
    ensures res.Ok? ==> forall i, j :: 0 <= i < j < |res.value| ==> res.value[i].country != res.value[j].country
    ensures res.Ok? ==> forall i :: 0 <= i < |res.value| ==>
      && res.value[i].country in AnsweringCountries(view)
      && res.value[i].counts.Keys == Categories(view)
      && forall k :: k in Categories(view) ==> res.value[i].counts[k] == CountFamily(view, res.value[i].country, k)
  {
    if "Yes" !in Categories(view) then Err(MissingYesColumn)
    else Ok(Head(Ranked(view), TopN))
  }

  /**
   * The cut keeps the leaders: a country of the view missing from the table
   * answered `Yes` no more often than any country in it, and when the table
   * is shorter than ten rows no answering country is missing.
   */
  lemma TopTenSelection(view: seq<Record>, c: string)
    requires "Yes" in Categories(view)
    requires c in Countries(view)
    requires forall i :: 0 <= i < |TopFamilyHistory(view).value| ==> TopFamilyHistory(view).value[i].country != c
    ensures forall i :: 0 <= i < |TopFamilyHistory(view).value| ==>
      YesCount(TopFamilyHistory(view).value[i]) >= CountFamily(view, c, "Yes")
    ensures |TopFamilyHistory(view).value| < TopN ==> c !in AnsweringCountries(view)
  {
    var t := TopFamilyHistory(view).value;
    assert t == Head(Ranked(view), TopN);
    HeadOfRankedKeepsLeaders(view, Ranked(view), c);
  }

  lemma HeadOfRankedKeepsLeaders(view: seq<Record>, ranked: seq<FamilyRow>, c: string)
    requires SortedDesc(ranked, YesCount)
    requires forall i :: 0 <= i < |ranked| ==> ranked[i] == RowFor(view, ranked[i].country)
    requires forall c :: c in AnsweringCountries(view) ==> exists i :: 0 <= i < |ranked| && ranked[i].country == c
    requires forall i :: 0 <= i < |Head(ranked, TopN)| ==> Head(ranked, TopN)[i].country != c
    ensures forall i :: 0 <= i < |Head(ranked, TopN)| ==> YesCount(Head(ranked, TopN)[i]) >= CountFamily(view, c, "Yes")
    ensures |Head(ranked, TopN)| < TopN ==> c !in AnsweringCountries(view)
  {
    if c in AnsweringCountries(view) {
      var j :| 0 <= j < |ranked| && ranked[j].country == c;
      YesOfRow(view, ranked[j]);
      HeadKeepsLeaders(ranked, TopN, YesCount, j);
    }
  }

  lemma YesOfRow(view: seq<Record>, row: FamilyRow)
    requires row == RowFor(view, row.country)
    ensures YesCount(row) == CountFamily(view, row.country, "Yes")
  {
  }

  /**
   * An element of a descending sequence that `head` drops lies beyond the
   * cut, the cut is full, and every element kept is at least as large.
   */
  lemma HeadKeepsLeaders<T>(s: seq<T>, n: nat, key: T -> int, j: nat)
    requires SortedDesc(s, key)
    requires j < |s|
    requires forall i :: 0 <= i < |Head(s, n)| ==> Head(s, n)[i] != s[j]
    ensures |Head(s, n)| == n
    ensures forall i :: 0 <= i < |Head(s, n)| ==> key(Head(s, n)[i]) >= key(s[j])
  {
    var h := Head(s, n);
    var dropped := s[j];
    assert dropped !in h;
    assert j < |h| ==> dropped in h;
    forall i | 0 <= i < |h| ensures key(h[i]) >= key(s[j]) {
      assert h[i] == s[i];
    }
  }

  /**
   * When every answer is `Yes` or `No`, a table row's two columns add up to
   * the number of the country's rows in the view.
   */
  lemma YesNoAddUp(view: seq<Record>, i: nat)
    requires forall r :: r in view ==> r.familyHistory == Some("Yes") || r.familyHistory == Some("No")
    requires TopFamilyHistory(view).Ok?
    requires i < |TopFamilyHistory(view).value|
    ensures var row := TopFamilyHistory(view).value[i];
      YesCount(row) + NoCount(row) == CountCountry(view, row.country)
  {
    var row := TopFamilyHistory(view).value[i];
    YesNoPartition(view, row.country);
    ColumnOrZero(view, row, "Yes");
    ColumnOrZero(view, row, "No");
  }

  /**
   * Whatever the answers, a table row's `Yes` and `No` columns together never
   * exceed the number of the country's rows in the view: blank and other
   * answers only make the sum smaller.
   */
  lemma YesNoWithinEntries(view: seq<Record>, i: nat)
    requires TopFamilyHistory(view).Ok?
    requires i < |TopFamilyHistory(view).value|
    ensures var row := TopFamilyHistory(view).value[i];
      YesCount(row) + NoCount(row) <= CountCountry(view, row.country)
  {
    var row := TopFamilyHistory(view).value[i];
    YesNoAtMost(view, row.country);
    ColumnOrZero(view, row, "Yes");
    ColumnOrZero(view, row, "No");
  }

  /** Reading a column of a table row gives the country's count for that answer, 0 when the column is absent. */
  lemma ColumnOrZero(view: seq<Record>, row: FamilyRow, k: string)
    requires row.counts.Keys == Categories(view)
    requires forall a :: a in Categories(view) ==> row.counts[a] == CountFamily(view, row.country, a)
    ensures (if k in row.counts then row.counts[k] else 0) == CountFamily(view, row.country, k)
  {
    if k !in Categories(view) {
      forall r | r in view && r.country == row.country ensures r.familyHistory != Some(k) {
        if r.familyHistory.Some? {
          assert r.familyHistory.value in Categories(view);
        }
      }
    }
  }

  lemma {:induction false} YesNoPartition(view: seq<Record>, c: string)
    requires forall r :: r in view ==> r.familyHistory == Some("Yes") || r.familyHistory == Some("No")
    ensures CountFamily(view, c, "Yes") + CountFamily(view, c, "No") == CountCountry(view, c)
  {
    if view != [] {
      var prefix := view[..|view| - 1];
      assert view == prefix + [view[|view| - 1]];
      YesNoPartition(prefix, c);
    }
  }

  /** A country's `Yes` and `No` counts together are at most its number of rows. */
  lemma {:induction false} YesNoAtMost(view: seq<Record>, c: string)
    ensures CountFamily(view, c, "Yes") + CountFamily(view, c, "No") <= CountCountry(view, c)
  {
    if view != [] {
      var prefix := view[..|view| - 1];
      assert view == prefix + [view[|view| - 1]];
      YesNoAtMost(prefix, c);
    }
  }
}
