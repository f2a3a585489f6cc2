/**
 * Python's `list.sort()` on a list of strings, as a value: an insertion sort under
 * the code-point order `Text.Le`. For strings, equal elements are identical, so the
 * sort's stability plays no part and the sorted permutation is unique.
 */
module Sorting {
  import opened Text

  predicate Sorted(s: seq<string>) {
    forall i, j :: 0 <= i < j < |s| ==> Le(s[i], s[j])
  }

  function Insert(x: string, s: seq<string>): (r: seq<string>)
    ensures multiset(r) == multiset(s) + multiset{x}
    ensures |r| == |s| + 1
  {
    if s == [] then [x]
    else if Le(x, s[0]) then [x] + s
    else
      assert s == [s[0]] + s[1..];
      [s[0]] + Insert(x, s[1..])
  }

  /** The sorted permutation of `s`, as `s.sort()` leaves it. */
  function SortStrings(s: seq<string>): (r: seq<string>)
    ensures multiset(r) == multiset(s)
    ensures |r| == |s|
  {
    if s == [] then []
    else
      assert s == [s[0]] + s[1..];
      Insert(s[0], SortStrings(s[1..]))
  }

  lemma {:induction false} InsertSorted(x: string, s: seq<string>)
    requires Sorted(s)
    ensures Sorted(Insert(x, s))
  {
    if s != [] && !Le(x, s[0]) {
      LeTotal(x, s[0]);
      InsertSorted(x, s[1..]);
      var r := Insert(x, s[1..]);
      forall j | 0 <= j < |r|
        ensures Le(s[0], r[j])
      {
        assert r[j] in multiset(s[1..]) + multiset{x};
        if r[j] != x {
          assert r[j] in s[1..];
        }
      }
    } else if s != [] {
      forall j | 0 <= j < |s|
        ensures Le(x, s[j])
      {
        if j > 0 { LeTransitive(x, s[0], s[j]); }
      }
    }
  }

  /** The result of SortStrings is in ascending order (and, by its contract, a permutation). */
  lemma {:induction false} SortStringsSorted(s: seq<string>)
    ensures Sorted(SortStrings(s))
  {
    if s != [] {
      SortStringsSorted(s[1..]);
      InsertSorted(s[0], SortStrings(s[1..]));
    }
  }

  /** A string that Le-precedes every element sorts to the front. */
  lemma {:induction false} SortStringsMinFirst(x: string, s: seq<string>)
    requires forall i :: 0 <= i < |s| ==> Le(x, s[i])
    ensures SortStrings([x] + s) == [x] + SortStrings(s)
  {
    assert ([x] + s)[1..] == s;
    var t := SortStrings(s);
    if t != [] {
      assert t[0] in multiset(s);
      assert t[0] in s;
    }
  }

  lemma HeadIsMin(a: seq<string>, x: string)
    requires Sorted(a) && x in a
    ensures Le(a[0], x)
  {
    var m :| 0 <= m < |a| && a[m] == x;
    if m == 0 { LeReflexive(x); }
  }

  lemma MultisetTail(a: seq<string>)
    requires a != []
    ensures multiset(a[1..]) == multiset(a) - multiset{a[0]}
  {
    assert a == [a[0]] + a[1..];
  }

  /** Two ascending lists with the same elements are equal: the sorted permutation is unique. */
  lemma {:induction false} SortedUnique(a: seq<string>, b: seq<string>)
    requires Sorted(a) && Sorted(b) && multiset(a) == multiset(b)
    ensures a == b
  {
    if a == [] {
      assert |b| == |multiset(b)| == 0;
    } else {
      assert |b| == |multiset(b)| == |a| > 0;
      assert a[0] in multiset(b) && b[0] in multiset(a);
      HeadIsMin(a, b[0]);
      HeadIsMin(b, a[0]);
      LeAntisymmetric(a[0], b[0]);
      MultisetTail(a);
      MultisetTail(b);
      SortedUnique(a[1..], b[1..]);
      assert a == [a[0]] + a[1..] && b == [b[0]] + b[1..];
    }
  }

  /** Sorting does not depend on the order of its input. */
  lemma SortStringsPermutation(s: seq<string>, t: seq<string>)
    requires multiset(s) == multiset(t)
    ensures SortStrings(s) == SortStrings(t)
  {
    SortStringsSorted(s);
    SortStringsSorted(t);
    SortedUnique(SortStrings(s), SortStrings(t));
  }

  /** The empty string sorts first, wherever it stands. */
  lemma SortEmptyFirst(s: seq<string>)
    ensures SortStrings(s + [""]) == [""] + SortStrings(s)
  {
    assert multiset(s + [""]) == multiset([""] + s);
    SortStringsPermutation(s + [""], [""] + s);
    SortStringsMinFirst("", s);
  }
}
