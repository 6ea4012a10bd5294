/**
 * The entries-per-country table behind the world map: `value_counts` of the
 * view's country column, one row per country, largest count first.
 */
module CountryCounts {
  import opened Survey
  import opened Sequences

  /** One row of the table, with the columns renamed to `country` and `entries`. */
  datatype CountryEntries = CountryEntries(country: string, entries: nat)

  function Entries(e: CountryEntries): int {
    e.entries
  }

  function Country(e: CountryEntries): string {
    e.country
  }

  /** The view's country column, row by row. */
  function CountryColumn(view: seq<Record>): seq<string> {
    seq(|view|, i requires 0 <= i < |view| => view[i].country)
  }

  /** The count of each of the countries `cs`, in the order of `cs`. */
  function Tally(view: seq<Record>, cs: seq<string>): (t: seq<CountryEntries>)
    ensures |t| == |cs|
    ensures forall i :: 0 <= i < |cs| ==> t[i] == CountryEntries(cs[i], CountCountry(view, cs[i]))
  {
    if cs == [] then [] else [CountryEntries(cs[0], CountCountry(view, cs[0]))] + Tally(view, cs[1..])
  }

  /**
   * `value_counts` of the country column: every country of the view once,
   * with its number of rows, in descending order of that number.
   */
  function CountryTable(view: seq<Record>): (t: seq<CountryEntries>)
    ensures forall i, j :: 0 <= i < j < |t| ==> t[i].country != t[j].country
    ensures forall i :: 0 <= i < |t| ==> t[i].country in Countries(view)
    ensures forall c :: c in Countries(view) ==> exists i :: 0 <= i < |t| && t[i].country == c
    ensures forall i :: 0 <= i < |t| ==> t[i].entries == CountCountry(view, t[i].country) >= 1
    ensures SortedDesc(t, Entries)
    ensures SumBy(t, Entries) == |view|
  {
    var cs := Distinct(CountryColumn(view));
    ColumnCountries(view);
    var t := SortDesc(Tally(view, cs), Entries);
    ReorderedTally(view, cs, t);
    TallySum(view, cs);
    t
  }

  /** The distinct values of the country column are exactly the view's countries. */
  lemma ColumnCountries(view: seq<Record>)
    ensures var cs := Distinct(CountryColumn(view));
      NoDuplicates(cs) && forall c :: c in cs <==> c in Countries(view)
  {
    var col := CountryColumn(view);
    var cs := Distinct(col);
    forall c ensures c in cs <==> c in Countries(view) {
      if c in Countries(view) {
        var r :| r in view && r.country == c;
        var i :| 0 <= i < |view| && view[i] == r;
        assert col[i] == c;
      }
      if c in cs {
        var i :| 0 <= i < |cs| && cs[i] == c;
        var k :| 0 <= k < |col| && col[k] == c;
        assert view[k] in view;
      }
    }
  }

  /** Any reordering of the tally of the view's distinct countries describes each country once and correctly. */
  lemma ReorderedTally(view: seq<Record>, cs: seq<string>, t: seq<CountryEntries>)
    requires NoDuplicates(cs)
    requires forall c :: c in cs <==> c in Countries(view)
    requires multiset(t) == multiset(Tally(view, cs))
    ensures forall i, j :: 0 <= i < j < |t| ==> t[i].country != t[j].country
    ensures forall i :: 0 <= i < |t| ==> t[i].country in Countries(view)
    ensures forall c :: c in Countries(view) ==> exists i :: 0 <= i < |t| && t[i].country == c
    ensures forall i :: 0 <= i < |t| ==> t[i].entries == CountCountry(view, t[i].country) >= 1
  {
    var tally := Tally(view, cs);
    TallyProperties(view, cs);
    PermutationNoDuplicates(tally, t);
    PermutationMembers(tally, t);
    EntriesDescribeCountries(view, t);
    PermutationKeepsKeys(cs, tally, t, Country);
  }

  /** Distinct rows, each with its country's count, name distinct countries. */
  lemma EntriesDescribeCountries(view: seq<Record>, t: seq<CountryEntries>)
    requires NoDuplicates(t)
    requires forall e :: e in t ==> e.country in Countries(view) && e.entries == CountCountry(view, e.country) >= 1
    ensures forall i, j :: 0 <= i < j < |t| ==> t[i].country != t[j].country
    ensures forall i :: 0 <= i < |t| ==> t[i].country in Countries(view)
    ensures forall i :: 0 <= i < |t| ==> t[i].entries == CountCountry(view, t[i].country) >= 1
  {
    forall i | 0 <= i < |t|
      ensures t[i].country in Countries(view) && t[i].entries == CountCountry(view, t[i].country) >= 1
    {
      assert t[i] in t;
    }
  }

  lemma TallyProperties(view: seq<Record>, cs: seq<string>)
    requires NoDuplicates(cs)
    requires forall c :: c in cs ==> c in Countries(view)
    ensures NoDuplicates(Tally(view, cs))
    ensures forall e :: e in Tally(view, cs) ==> e.country in Countries(view) && e.entries == CountCountry(view, e.country) >= 1
  {
    var t := Tally(view, cs);
    forall i, j | 0 <= i < j < |t| ensures t[i] != t[j] {
      assert t[i].country == cs[i] && t[j].country == cs[j];
    }
  }

  lemma {:induction false} TallyOfNothing(cs: seq<string>)
    ensures SumBy(Tally([], cs), Entries) == 0
  {
    if cs != [] {
      TallyOfNothing(cs[1..]);
    }
  }

  /** One more row adds one to the tally of its country, if that country is listed. */
  lemma {:induction false} TallyAppend(view: seq<Record>, r: Record, cs: seq<string>)
    ensures SumBy(Tally(view + [r], cs), Entries) == SumBy(Tally(view, cs), Entries) + multiset(cs)[r.country]
  {
    if cs != [] {
      var after, before := Tally(view + [r], cs), Tally(view, cs);
      assert after[1..] == Tally(view + [r], cs[1..]);
      assert before[1..] == Tally(view, cs[1..]);
      TallyAppend(view, r, cs[1..]);
      CountAppend(view, r, cs[0]);
      assert cs == [cs[0]] + cs[1..];
      assert multiset(cs)[r.country] == multiset(cs[1..])[r.country] + if cs[0] == r.country then 1 else 0;
    }
  }

  lemma CountAppend(view: seq<Record>, r: Record, c: string)
    ensures CountCountry(view + [r], c) == CountCountry(view, c) + (if r.country == c then 1 else 0)
  {
    assert (view + [r])[..|view|] == view;
  }

  /** Tallying every country of the view once accounts for every row once. */
  lemma {:induction false} TallySum(view: seq<Record>, cs: seq<string>)
    requires NoDuplicates(cs)
    requires forall r :: r in view ==> r.country in cs
    ensures SumBy(Tally(view, cs), Entries) == |view|
  {
    if view == [] {
      TallyOfNothing(cs);
    } else {
      var prefix, last := view[..|view| - 1], view[|view| - 1];
      assert view == prefix + [last];
      TallySum(prefix, cs);
      TallyAppend(prefix, last, cs);
      NoDuplicatesMultiplicity(cs, last.country);
      assert last.country in multiset(cs);
    }
  }
}
