/**
 * The sidebar filter: the country and gender multiselects and the age
 * slider, and the boolean mask that turns them into the filtered view
 * every tab of the dashboard is drawn from.
 */
module RowFilter {
  import opened Survey

  /** What the sidebar widgets hold: the two multiselects and the slider's two ends. */
  datatype Selection = Selection(countries: set<string>, genders: set<string>, ageLo: int, ageHi: int)

  /**
   * The mask's operands once the multiselects are resolved: the sets `isin`
   * tests against (an empty multiselect already replaced by the dataset's
   * column) and the bounds `between` tests against.
   */
  datatype Criteria = Criteria(countries: set<string>, genders: set<string>, ageLo: int, ageHi: int)

  /** The genders of the dataset: what an empty gender multiselect falls back to. */
  function Genders(data: seq<Record>): set<string> {
    set r | r in data :: r.gender
  }

  /**
   * An empty multiselect is replaced by the dataset's whole column, so that
   * on the dataset's own rows it restricts nothing; a non-empty one is used
   * as it is.
   */
  function Resolve(data: seq<Record>, sel: Selection): (c: Criteria)
    ensures sel.countries != {} ==> c.countries == sel.countries
    ensures sel.genders != {} ==> c.genders == sel.genders
    ensures forall r :: r in data ==> (r.country in c.countries <==> sel.countries == {} || r.country in sel.countries)
    ensures forall r :: r in data ==> (r.gender in c.genders <==> sel.genders == {} || r.gender in sel.genders)
    ensures c.ageLo == sel.ageLo && c.ageHi == sel.ageHi
  {
    Criteria(
      if sel.countries == {} then Countries(data) else sel.countries,
      if sel.genders == {} then Genders(data) else sel.genders,
      sel.ageLo, sel.ageHi)
  }

  /** The mask: all three conditions together, both age bounds inclusive. */
  predicate Passes(c: Criteria, r: Record) {
    r.country in c.countries && r.gender in c.genders && c.ageLo <= r.age <= c.ageHi
  }

  /** The rows whose mask entry is true, in the order of `rows`. */
  function Select(rows: seq<Record>, c: Criteria): (view: seq<Record>)
    ensures |view| <= |rows|
    ensures forall r :: r in view <==> r in rows && Passes(c, r)
  {
    if rows == [] then []
    else
      var prefix, last := rows[..|rows| - 1], rows[|rows| - 1];
      assert rows == prefix + [last];
      Select(prefix, c) + (if Passes(c, last) then [last] else [])
  }

  /** The positions at which the mask is true. */
  function MaskPositions(rows: seq<Record>, c: Criteria): (idx: seq<nat>)
    ensures forall k :: 0 <= k < |idx| ==> idx[k] < |rows| && Passes(c, rows[idx[k]])
    ensures forall k, l :: 0 <= k < l < |idx| ==> idx[k] < idx[l]
    ensures forall i :: 0 <= i < |rows| && Passes(c, rows[i]) ==> i in idx
  {
    if rows == [] then []
    else
      var prefix := rows[..|rows| - 1];
      MaskPositions(prefix, c) + (if Passes(c, rows[|rows| - 1]) then [|rows| - 1] else [])
  }

  /** Selecting by the mask picks exactly the rows at the mask's true positions, in order. */
  lemma {:induction false} SelectAtMaskPositions(rows: seq<Record>, c: Criteria)
    ensures |Select(rows, c)| == |MaskPositions(rows, c)|
    ensures forall k :: 0 <= k < |Select(rows, c)| ==> Select(rows, c)[k] == rows[MaskPositions(rows, c)[k]]
  {
    if rows != [] {
      var prefix := rows[..|rows| - 1];
      SelectAtMaskPositions(prefix, c);
      var view, idx := Select(rows, c), MaskPositions(rows, c);
      forall k | 0 <= k < |Select(prefix, c)|
        ensures view[k] == rows[idx[k]]
      {
        assert view[k] == Select(prefix, c)[k];
        assert idx[k] == MaskPositions(prefix, c)[k];
      }
    }
  }

  /** The filtered view that every tab of the dashboard is drawn from. */
  function Filter(data: seq<Record>, sel: Selection): (view: seq<Record>)
    ensures |view| <= |data|
    ensures forall r :: r in view <==>
      && r in data
      && (sel.countries == {} || r.country in sel.countries)
      && (sel.genders == {} || r.gender in sel.genders)
      && sel.ageLo <= r.age <= sel.ageHi
  {
    Select(data, Resolve(data, sel))
  }

  /**
   * The view is an order-preserving subsequence of the dataset: its k-th row
   * is the dataset's row at a position that grows strictly with k.
   */
  lemma FilterKeepsOrder(data: seq<Record>, sel: Selection)
    ensures var view, idx := Filter(data, sel), MaskPositions(data, Resolve(data, sel));
      && |idx| == |view|
      && (forall k :: 0 <= k < |idx| ==> idx[k] < |data| && view[k] == data[idx[k]])
      && (forall k, l :: 0 <= k < l < |idx| ==> idx[k] < idx[l])
  {
    SelectAtMaskPositions(data, Resolve(data, sel));
  }

  /** With both multiselects empty and the slider spanning every age, the view is the whole dataset. */
  lemma {:induction false} FilterIdentity(data: seq<Record>, sel: Selection)
    requires sel.countries == {} && sel.genders == {}
    requires forall r :: r in data ==> sel.ageLo <= r.age <= sel.ageHi
    ensures Filter(data, sel) == data
  {
    var c := Resolve(data, sel);
    SelectAll(data, c);
  }

  lemma {:induction false} SelectAll(rows: seq<Record>, c: Criteria)
    requires forall r :: r in rows ==> Passes(c, r)
    ensures Select(rows, c) == rows
  {
    if rows != [] {
      var prefix := rows[..|rows| - 1];
      assert rows == prefix + [rows[|rows| - 1]];
      SelectAll(prefix, c);
    }
  }
}
