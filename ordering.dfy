/** sortBookmarks: the canonical order of the bookmark list. */
module Ordering {
  import opened Bookmarks

  /** Every element sorts no later than every element after it. */
  predicate Sorted(s: seq<Bookmark>)
  {
    forall i, j :: 0 <= i < j < |s| ==> Le(s[i], s[j])
  }

  lemma SortedBelowHead(x: Bookmark, s: seq<Bookmark>)
    requires Sorted(s) && |s| > 0 && Le(x, s[0])
    ensures forall y :: y in s ==> Le(x, y)
  {
    forall y | y in s ensures Le(x, y) {
      var j :| 0 <= j < |s| && s[j] == y;
      if j > 0 {
        CompareTransitive(x, s[0], y);
      }
    }
  }

  lemma ConsSorted(x: Bookmark, s: seq<Bookmark>)
    requires Sorted(s)
    requires forall y :: y in s ==> Le(x, y)
    ensures Sorted([x] + s)
  {
    forall i, j | 0 <= i < j < |[x] + s| ensures Le(([x] + s)[i], ([x] + s)[j]) {
      if i > 0 {
        assert ([x] + s)[i] == s[i - 1] && ([x] + s)[j] == s[j - 1];
      } else {
        assert ([x] + s)[j] in s;
      }
    }
  }

  /** One step of an insertion sort: x placed before the first element it does
      not sort after. */
  function Insert(x: Bookmark, s: seq<Bookmark>): (r: seq<Bookmark>)
    requires Sorted(s)
    ensures Sorted(r)
    ensures multiset(r) == multiset(s) + multiset{x}
  {
    if s == [] then [x]
    else if Le(x, s[0]) then
      SortedBelowHead(x, s);
      ConsSorted(x, s);
      [x] + s
    else
      var t := Insert(x, s[1..]);
      assert s == [s[0]] + s[1..];
      CompareAntisymmetric(x, s[0]);
      assert forall y :: y in t ==> Le(s[0], y) by {
        forall y | y in t ensures Le(s[0], y) {
          assert y in multiset(t);
          if y != x {
            assert y in s[1..];
            var j :| 0 <= j < |s[1..]| && s[1..][j] == y;
            assert s[j + 1] == y;
          }
        }
      }
      ConsSorted(s[0], t);
      [s[0]] + t
  }

  /** sortBookmarks (a sort on a copy of the list): the result is ordered by
      file, line and column and holds exactly the input's bookmarks. */
  function SortBookmarks(bs: seq<Bookmark>): (r: seq<Bookmark>)
    ensures Sorted(r)
    ensures multiset(r) == multiset(bs)
  {
    if bs == [] then []
    else
      assert bs == [bs[0]] + bs[1..];
      Insert(bs[0], SortBookmarks(bs[1..]))
  }

  lemma HeadIsLeast(s: seq<Bookmark>, y: Bookmark)
    requires Sorted(s) && y in s
    ensures Le(s[0], y)
  {
    var j :| 0 <= j < |s| && s[j] == y;
    if j == 0 {
      CompareZero(y, y);
    }
  }

  /** Two sorted rearrangements of one list start with the same bookmark. */
  lemma SortedHeadsEqual(a: seq<Bookmark>, b: seq<Bookmark>)
    requires Sorted(a) && Sorted(b) && |a| > 0 && |b| > 0
    requires multiset(a) == multiset(b)
    ensures a[0] == b[0]
  {
    assert a[0] in multiset(b) && b[0] in multiset(a);
    HeadIsLeast(a, b[0]);
    HeadIsLeast(b, a[0]);
    CompareAntisymmetric(a[0], b[0]);
    CompareZero(a[0], b[0]);
  }

  lemma TailsPermuted(a: seq<Bookmark>, b: seq<Bookmark>)
    requires |a| > 0 && |b| > 0 && a[0] == b[0]
    requires multiset(a) == multiset(b)
    ensures multiset(a[1..]) == multiset(b[1..])
  {
    assert a == [a[0]] + a[1..] && b == [b[0]] + b[1..];
    assert multiset(a[1..]) == multiset(a) - multiset{a[0]};
    assert multiset(b[1..]) == multiset(b) - multiset{b[0]};
  }

  /** Since the comparator ties only identical bookmarks, a list has one sorted
      rearrangement: whatever algorithm the JavaScript engine uses, its result is
      SortBookmarks. */
  lemma {:induction false} SortedUnique(a: seq<Bookmark>, b: seq<Bookmark>)
    requires Sorted(a) && Sorted(b)
    requires multiset(a) == multiset(b)
    ensures a == b
  {
    assert |a| == |multiset(a)| == |multiset(b)| == |b|;
    if a != [] {
      SortedHeadsEqual(a, b);
      TailsPermuted(a, b);
      assert Sorted(a[1..]) && Sorted(b[1..]);
      SortedUnique(a[1..], b[1..]);
      assert a == [a[0]] + a[1..] && b == [b[0]] + b[1..];
    }
  }

  /** Sorting a duplicate-free list gives a duplicate-free list. */
  lemma SortKeepsDistinct(bs: seq<Bookmark>)
    requires NoDup(bs)
    ensures NoDup(SortBookmarks(bs))
  {
    PermutationPreservesNoDup(bs, SortBookmarks(bs));
  }
}
