/**
 * The pandas index operations the validator relies on, stated on sequences of
 * participant IDs: `DataFrame.duplicated` (keep="first"), a boolean mask's
 * `any`/`sum`/selection, and `Index.difference` (sorted, without repeats).
 */
module IdSeqs {
  import opened Tables

  predicate StrictlySorted(s: seq<int>)
  {
    forall i, j :: 0 <= i < j < |s| ==> s[i] < s[j]
  }

  lemma StrictlySortedIsDistinct(s: seq<int>)
    requires StrictlySorted(s)
    ensures Distinct(s)
  {
  }

  /** The head of a non-empty strictly sorted sequence is its least element and the tail holds the rest. */
  lemma SortedHead(a: seq<int>)
    requires StrictlySorted(a) && a != []
    ensures forall x :: x in a ==> a[0] <= x
    ensures forall x :: x in a[1..] <==> x in a && x != a[0]
  {
    assert a == [a[0]] + a[1..];
    forall x | x in a
      ensures a[0] <= x
    {
      var k :| 0 <= k < |a| && a[k] == x;
    }
  }

  /** Two strictly sorted sequences with the same elements are equal. */
  lemma {:induction false} StrictlySortedUnique(a: seq<int>, b: seq<int>)
    requires StrictlySorted(a) && StrictlySorted(b)
    requires forall x :: x in a <==> x in b
    ensures a == b
  {
    if a != [] {
      assert a[0] in a;
    }
    if b != [] {
      assert b[0] in b;
    }
    if a != [] && b != [] {
      SortedHead(a);
      SortedHead(b);
      assert a[0] == b[0];
      StrictlySortedUnique(a[1..], b[1..]);
      assert a == [a[0]] + a[1..];
      assert b == [b[0]] + b[1..];
    }
  }

  lemma ConsSorted(h: int, t: seq<int>)
    requires StrictlySorted(t)
    requires forall y :: y in t ==> h < y
    ensures StrictlySorted([h] + t)
  {
    var r := [h] + t;
    forall i, j | 0 <= i < j < |r|
      ensures r[i] < r[j]
    {
      assert r[j] == t[j - 1] && t[j - 1] in t;
      if i > 0 {
        assert r[i] == t[i - 1];
      }
    }
  }

  /** Inserts `x` at its place in a strictly sorted sequence, unless already there. */
  function Insert(x: int, s: seq<int>): (r: seq<int>)
    requires StrictlySorted(s)
    ensures StrictlySorted(r)
    ensures forall y :: y in r <==> y == x || y in s
  {
    if s == [] then [x]
    else if x < s[0] then [x] + s
    else if x == s[0] then s
    else
      SortedHead(s);
      var t := Insert(x, s[1..]);
      ConsSorted(s[0], t);
      [s[0]] + t
  }

  /** The distinct values of `s`, sorted ascending. */
  function SortedSet(s: seq<int>): (r: seq<int>)
    ensures StrictlySorted(r)
    ensures forall y :: y in r <==> y in s
  {
    if s == [] then []
    else
      var n := |s| - 1;
      assert s == s[..n] + [s[n]];
      Insert(s[n], SortedSet(s[..n]))
  }

  /** The elements of `a` (in order, with repeats) that do not occur in `b`. */
  function Without(a: seq<int>, b: seq<int>): (r: seq<int>)
    ensures forall y :: y in r <==> y in a && y !in b
  {
    if a == [] then []
    else
      var n := |a| - 1;
      assert a == a[..n] + [a[n]];
      Without(a[..n], b) + (if a[n] in b then [] else [a[n]])
  }

  /** `Index.difference`: the values of `a` absent from `b`, sorted, each once. */
  function SortedDifference(a: seq<int>, b: seq<int>): (r: seq<int>)
    ensures StrictlySorted(r)
    ensures forall y :: y in r <==> y in a && y !in b
  {
    SortedSet(Without(a, b))
  }

  /** The difference has as many entries as the set difference has elements. */
  lemma SortedDifferenceSize(a: seq<int>, b: seq<int>)
    ensures |SortedDifference(a, b)| == |Elems(a) - Elems(b)|
  {
    var r := SortedDifference(a, b);
    StrictlySortedIsDistinct(r);
    DistinctCard(r);
    assert Elems(r) == Elems(a) - Elems(b);
  }

  /** `duplicated(keep="first")`: position i is marked iff its ID occurs at an earlier position. */
  function DuplicateMask(ids: seq<int>): (m: seq<bool>)
    ensures |m| == |ids|
    ensures forall i :: 0 <= i < |ids| ==> (m[i] <==> ids[i] in ids[..i])
  {
    if ids == [] then []
    else
      var n := |ids| - 1;
      var prefix := ids[..n];
      assert forall i :: 0 <= i < n ==> prefix[..i] == ids[..i];
      DuplicateMask(prefix) + [ids[n] in prefix]
  }

  /** `mask.sum()`: the number of marked positions. */
  function CountTrue(m: seq<bool>): nat
  {
    if m == [] then 0
    else CountTrue(m[..|m| - 1]) + (if m[|m| - 1] then 1 else 0)
  }

  /** The sum of a mask is the number of times `true` occurs in it. */
  lemma {:induction false} CountTrueMultiplicity(m: seq<bool>)
    ensures CountTrue(m) == multiset(m)[true]
  {
    if m != [] {
      var n := |m| - 1;
      CountTrueMultiplicity(m[..n]);
      assert m == m[..n] + [m[n]];
    }
  }

  /** `xs[mask]`: the entries at marked positions, in order. */
  function Select(xs: seq<int>, m: seq<bool>): seq<int>
    requires |xs| == |m|
  {
    if m == [] then []
    else
      var n := |m| - 1;
      Select(xs[..n], m[..n]) + (if m[n] then [xs[n]] else [])
  }

  lemma {:induction false} SelectLength(xs: seq<int>, m: seq<bool>)
    requires |xs| == |m|
    ensures |Select(xs, m)| == CountTrue(m)
  {
    if m != [] {
      var n := |m| - 1;
      SelectLength(xs[..n], m[..n]);
    }
  }

  /** `mask.any()` agrees with a non-zero `mask.sum()`. */
  lemma {:induction false} CountTruePositiveIff(m: seq<bool>)
    ensures CountTrue(m) > 0 <==> true in m
  {
    if m != [] {
      var n := |m| - 1;
      CountTruePositiveIff(m[..n]);
      assert m == m[..n] + [m[n]];
    }
  }

  /** No position is marked exactly when the IDs are pairwise distinct. */
  lemma NoDuplicateIff(ids: seq<int>)
    ensures true !in DuplicateMask(ids) <==> Distinct(ids)
  {
    var m := DuplicateMask(ids);
    if true in m {
      var j :| 0 <= j < |m| && m[j];
      var i :| 0 <= i < j && ids[i] == ids[j];
    }
    if !Distinct(ids) {
      var i, j :| 0 <= i < j < |ids| && ids[i] == ids[j];
      assert ids[i] in ids[..j];
      assert m[j];
    }
  }

  lemma ElemsSnoc(p: seq<int>, y: int)
    ensures Elems(p + [y]) == Elems(p) + {y}
    ensures y in p ==> |Elems(p + [y])| == |Elems(p)|
    ensures y !in p ==> |Elems(p + [y])| == |Elems(p)| + 1
  {
    assert Elems(p + [y]) == Elems(p) + {y};
    if y in p {
      assert Elems(p + [y]) == Elems(p);
    }
  }

  /** The number of marked positions is the number of rows minus the number of distinct IDs. */
  lemma {:induction false} DuplicateCount(ids: seq<int>)
    ensures CountTrue(DuplicateMask(ids)) == |ids| - |Elems(ids)|
  {
    if ids != [] {
      var n := |ids| - 1;
      var prefix := ids[..n];
      DuplicateCount(prefix);
      var m := DuplicateMask(ids);
      assert m[..n] == DuplicateMask(prefix);
      assert m[n] == (ids[n] in prefix);
      assert ids == prefix + [ids[n]];
      ElemsSnoc(prefix, ids[n]);
    }
  }

  /** Each ID is listed among the later occurrences once fewer than it occurs in the rows. */
  lemma {:induction false} LaterOccurrences(ids: seq<int>, x: int)
    ensures multiset(Select(ids, DuplicateMask(ids)))[x]
            == if x in ids then multiset(ids)[x] - 1 else 0
  {
    if ids != [] {
      var n := |ids| - 1;
      LaterOccurrences(ids[..n], x);
      DuplicatesSnoc(ids);
      OccurrenceStep(ids, x, Select(ids[..n], DuplicateMask(ids[..n])));
    }
  }

  /**
   * One step of the count: appending the last ID to the rows appends it to
   * the later occurrences exactly when it was already present.
   */
  lemma OccurrenceStep(ids: seq<int>, x: int, earlier: seq<int>)
    requires ids != []
    requires var prefix := ids[..|ids| - 1];
      multiset(earlier)[x] == if x in prefix then multiset(prefix)[x] - 1 else 0
    ensures var n := |ids| - 1;
      var later := earlier + (if ids[n] in ids[..n] then [ids[n]] else []);
      multiset(later)[x] == if x in ids then multiset(ids)[x] - 1 else 0
  {
    var n := |ids| - 1;
    var prefix := ids[..n];
    var y := ids[n];
    var tail := if y in prefix then [y] else [];
    assert ids == prefix + [y];
    assert multiset(earlier + tail)[x] == multiset(earlier)[x] + multiset(tail)[x];
    assert multiset(ids)[x] == multiset(prefix)[x] + (if x == y then 1 else 0);
    assert x in ids <==> x in prefix || x == y;
    assert x in prefix <==> multiset(prefix)[x] > 0;
  }

  /** The later occurrences of a sequence extended by one ID: those of the prefix, then the ID if it is repeated. */
  lemma DuplicatesSnoc(ids: seq<int>)
    requires ids != []
    ensures var n := |ids| - 1;
      Select(ids, DuplicateMask(ids))
        == Select(ids[..n], DuplicateMask(ids[..n])) + (if ids[n] in ids[..n] then [ids[n]] else [])
  {
    var n := |ids| - 1;
    var m := DuplicateMask(ids);
    assert m[..n] == DuplicateMask(ids[..n]);
    assert m[n] == (ids[n] in ids[..n]);
  }
}
