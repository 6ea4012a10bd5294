/**
 * Sequence tools shared by the aggregate tables: the distinct keys of a
 * column in first-seen order, a descending sort by a numeric column, and
 * the sum of a column.
 */
module Sequences {

  predicate NoDuplicates<T(==)>(s: seq<T>) {
    forall i, j :: 0 <= i < j < |s| ==> s[i] != s[j]
  }

  /** The distinct values of `s`, each once, in the order they first appear. */
  function Distinct<T(==)>(s: seq<T>): (d: seq<T>)
    ensures NoDuplicates(d)
    ensures forall i :: 0 <= i < |d| ==> d[i] in s
    ensures forall i :: 0 <= i < |s| ==> s[i] in d
    ensures |d| <= |s|
  {
    if s == [] then []
    else
      var prefix, last := s[..|s| - 1], s[|s| - 1];
      assert s == prefix + [last];
      var d := Distinct(prefix);
      if last in d then d else d + [last]
  }

  /** Non-increasing down the sequence when measured by `key`. */
  predicate SortedDesc<T>(s: seq<T>, key: T -> int) {
    forall i, j :: 0 <= i < j < |s| ==> key(s[i]) >= key(s[j])
  }

  function SumBy<T>(s: seq<T>, key: T -> int): int {
    if s == [] then 0 else key(s[0]) + SumBy(s[1..], key)
  }

  /** Places `x` into a descending sequence, ahead of the first element it is not below. */
  function Insert<T>(x: T, s: seq<T>, key: T -> int): (r: seq<T>)
    requires SortedDesc(s, key)
    ensures SortedDesc(r, key)
    ensures |r| == |s| + 1
    ensures r[0] == x || (s != [] && r[0] == s[0])
  {
    if s == [] || key(x) >= key(s[0]) then [x] + s
    else
      var rest := Insert(x, s[1..], key);
      assert key(s[0]) >= key(rest[0]);
      [s[0]] + rest
  }

  /** Inserting adds one more occurrence of `x` and nothing else. */
  lemma {:induction false} InsertAddsElement<T>(x: T, s: seq<T>, key: T -> int)
    requires SortedDesc(s, key)
    ensures multiset(Insert(x, s, key)) == multiset(s) + multiset{x}
  {
    if s != [] && key(x) < key(s[0]) {
      InsertAddsElement(x, s[1..], key);
      assert s == [s[0]] + s[1..];
    }
  }

  /** Inserting adds the key of `x` to the sum. */
  lemma {:induction false} InsertAddsKey<T>(x: T, s: seq<T>, key: T -> int)
    requires SortedDesc(s, key)
    ensures SumBy(Insert(x, s, key), key) == key(x) + SumBy(s, key)
  {
    var r := Insert(x, s, key);
    if s == [] || key(x) >= key(s[0]) {
      assert r[1..] == s;
    } else {
      InsertAddsKey(x, s[1..], key);
      assert r[1..] == Insert(x, s[1..], key);
    }
  }

  /**
   * A descending sort by `key`. The order it gives to elements of equal key
   * is an artefact of this definition; no property below depends on it.
   */
  function SortDesc<T>(s: seq<T>, key: T -> int): (r: seq<T>)
    ensures SortedDesc(r, key)
    ensures multiset(r) == multiset(s)
    ensures SumBy(r, key) == SumBy(s, key)
  {
    if s == [] then []
    else
      var sorted := SortDesc(s[1..], key);
      InsertAddsElement(s[0], sorted, key);
      InsertAddsKey(s[0], sorted, key);
      assert s == [s[0]] + s[1..];
      Insert(s[0], sorted, key)
  }

  /** The first `n` elements, or all of them when there are fewer (pandas `head`). */
  function Head<T>(s: seq<T>, n: nat): (r: seq<T>)
    ensures |r| == if |s| < n then |s| else n
    ensures r == s[..|r|]
  {
    if |s| <= n then s else s[..n]
  }

  lemma {:induction false} NoDuplicatesMultiplicity<T>(s: seq<T>, x: T)
    requires NoDuplicates(s)
    ensures multiset(s)[x] <= 1
  {
    if s != [] {
      assert s == [s[0]] + s[1..];
      NoDuplicatesMultiplicity(s[1..], x);
      if s[0] == x {
        assert x !in s[1..];
      }
    }
  }

  /** Reordering a sequence without duplicates leaves it without duplicates. */
  lemma PermutationNoDuplicates<T>(a: seq<T>, b: seq<T>)
    requires multiset(a) == multiset(b)
    requires NoDuplicates(a)
    ensures NoDuplicates(b)
  {
    forall i, j | 0 <= i < j < |b| ensures b[i] != b[j] {
      if b[i] == b[j] {
        var x := b[i];
        assert b == b[..j] + [b[j]] + b[j + 1..];
        assert x in b[..j];
        assert multiset(b)[x] >= 2;
        NoDuplicatesMultiplicity(a, x);
        assert false;
      }
    }
  }

  /** Every element of a sequence is still present after a reordering. */
  lemma PermutationMembers<T>(a: seq<T>, b: seq<T>)
    requires multiset(a) == multiset(b)
    ensures forall x :: x in a <==> x in b
  {
    forall x ensures x in a <==> x in b {
      assert x in a <==> x in multiset(a);
      assert x in b <==> x in multiset(b);
    }
  }

  /** A reordering of rows keyed by `keys` still holds a row for every key. */
  lemma PermutationKeepsKeys<T, K>(keys: seq<K>, rows: seq<T>, t: seq<T>, keyOf: T -> K)
    requires |rows| == |keys| && forall k :: 0 <= k < |keys| ==> keyOf(rows[k]) == keys[k]
    requires forall x :: x in rows <==> x in t
    ensures forall c :: c in keys ==> exists i :: 0 <= i < |t| && keyOf(t[i]) == c
  {
    forall c | c in keys ensures exists i :: 0 <= i < |t| && keyOf(t[i]) == c {
      var k :| 0 <= k < |keys| && keys[k] == c;
      assert rows[k] in rows;
      var i :| 0 <= i < |t| && t[i] == rows[k];
    }
  }
}
