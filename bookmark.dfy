/** A bookmark, the JavaScript string order on its file path, the comparator
    that sortBookmarks hands to Array.prototype.sort, and the "strictly after"
    and "strictly before" tests of the next and previous commands. */
module Bookmarks {
  import opened Search

  /** A saved position: a file path, a zero-based line and a zero-based column.
      Two bookmarks are the same exactly when all three fields are equal, which
      is datatype equality. */
  datatype Bookmark = Bookmark(file: string, line: nat, character: nat)

  /** JavaScript's `a < b` on strings: lexicographic on characters, with a
      proper prefix sorting first. */
  predicate StringLess(a: string, b: string)
    decreases |a|
  {
    if |a| == 0 then |b| > 0
    else if |b| == 0 then false
    else if a[0] != b[0] then a[0] < b[0]
    else StringLess(a[1..], b[1..])
  }

  lemma {:induction false} StringLessIrreflexive(a: string)
    ensures !StringLess(a, a)
    decreases |a|
  {
    if |a| > 0 {
      StringLessIrreflexive(a[1..]);
    }
  }

  lemma {:induction false} StringLessAsymmetric(a: string, b: string)
    ensures StringLess(a, b) ==> !StringLess(b, a)
    decreases |a|
  {
    if |a| > 0 && |b| > 0 && a[0] == b[0] {
      StringLessAsymmetric(a[1..], b[1..]);
    }
  }

  lemma {:induction false} StringLessTransitive(a: string, b: string, c: string)
    requires StringLess(a, b) && StringLess(b, c)
    ensures StringLess(a, c)
    decreases |a|
  {
    if |a| > 0 {
      assert |b| > 0 && |c| > 0;
      if a[0] == b[0] && b[0] == c[0] {
        StringLessTransitive(a[1..], b[1..], c[1..]);
      }
    }
  }

  /** Two different strings are always ordered one way or the other. */
  lemma {:induction false} StringLessTotal(a: string, b: string)
    ensures a == b || StringLess(a, b) || StringLess(b, a)
    decreases |a|
  {
    if |a| > 0 && |b| > 0 && a[0] == b[0] {
      StringLessTotal(a[1..], b[1..]);
      if a[1..] == b[1..] {
        assert a == [a[0]] + a[1..] && b == [b[0]] + b[1..];
      }
    }
  }

  /** The comparator of sortBookmarks: by file, then by line, then by column.
      Only the sign of the result matters to the sort. */
  function Compare(a: Bookmark, b: Bookmark): (c: int)
  {
    if StringLess(a.file, b.file) then -1
    else if StringLess(b.file, a.file) then 1
    else if a.line < b.line then -1
    else if a.line > b.line then 1
    else a.character - b.character
  }

  /** a sorts strictly before b. */
  predicate Lt(a: Bookmark, b: Bookmark) { Compare(a, b) < 0 }

  /** a sorts no later than b. */
  predicate Le(a: Bookmark, b: Bookmark) { Compare(a, b) <= 0 }

  /** The comparator ties exactly the identical triples. */
  lemma CompareZero(a: Bookmark, b: Bookmark)
    ensures Compare(a, b) == 0 <==> a == b
  {
    StringLessIrreflexive(a.file);
    StringLessTotal(a.file, b.file);
  }

  /** Swapping the arguments flips the sign of the comparator. */
  lemma CompareAntisymmetric(a: Bookmark, b: Bookmark)
    ensures Compare(a, b) < 0 <==> Compare(b, a) > 0
  {
    StringLessAsymmetric(a.file, b.file);
    StringLessAsymmetric(b.file, a.file);
  }

  /** Any two bookmarks are comparable. */
  lemma CompareTotal(a: Bookmark, b: Bookmark)
    ensures Le(a, b) || Le(b, a)
  {
    CompareAntisymmetric(a, b);
  }

  lemma CompareTransitive(a: Bookmark, b: Bookmark, c: Bookmark)
    requires Le(a, b) && Le(b, c)
    ensures Le(a, c)
  {
    StringLessTotal(a.file, b.file);
    StringLessTotal(b.file, c.file);
    StringLessAsymmetric(a.file, b.file);
    StringLessAsymmetric(b.file, c.file);
    StringLessAsymmetric(a.file, c.file);
    StringLessIrreflexive(a.file);
    if StringLess(a.file, b.file) && StringLess(b.file, c.file) {
      StringLessTransitive(a.file, b.file, c.file);
    }
  }

  lemma LtLeTransitive(a: Bookmark, b: Bookmark, c: Bookmark)
    requires Lt(a, b) && Le(b, c)
    ensures Lt(a, c)
  {
    CompareTransitive(a, b, c);
    CompareZero(a, c);
    CompareAntisymmetric(a, b);
  }

  /** The next command's test (b.file > currentFile, then line, then column). */
  predicate IsAfter(b: Bookmark, cur: Bookmark)
  {
    || StringLess(cur.file, b.file)
    || (b.file == cur.file && b.line > cur.line)
    || (b.file == cur.file && b.line == cur.line && b.character > cur.character)
  }

  /** The previous command's test (b.file < currentFile, then line, then column). */
  predicate IsBefore(b: Bookmark, cur: Bookmark)
  {
    || StringLess(b.file, cur.file)
    || (b.file == cur.file && b.line < cur.line)
    || (b.file == cur.file && b.line == cur.line && b.character < cur.character)
  }

  /** "Strictly after" holds exactly when the comparator puts the cursor first. */
  lemma AfterAgreesWithCompare(b: Bookmark, cur: Bookmark)
    ensures IsAfter(b, cur) <==> Lt(cur, b)
  {
    StringLessTotal(cur.file, b.file);
    StringLessAsymmetric(cur.file, b.file);
    StringLessIrreflexive(b.file);
  }

  /** "Strictly before" holds exactly when the comparator puts the bookmark first. */
  lemma BeforeAgreesWithCompare(b: Bookmark, cur: Bookmark)
    ensures IsBefore(b, cur) <==> Lt(b, cur)
  {
    StringLessTotal(b.file, cur.file);
    StringLessAsymmetric(b.file, cur.file);
    StringLessIrreflexive(b.file);
  }

  /** The exact-match search of the add, toggle, next and previous commands:
      the first index holding the triple b, or -1. */
  function IndexOf(s: seq<Bookmark>, b: Bookmark): (r: int)
    ensures -1 <= r
    ensures r == -1 <==> b !in s
    ensures 0 <= r ==> r < |s| && s[r] == b && forall j :: 0 <= j < r ==> s[j] != b
  {
    FindIndex(s, x => x == b)
  }

  /** i is the first position holding b. */
  predicate FirstOccurrence(s: seq<Bookmark>, i: int, b: Bookmark)
  {
    0 <= i < |s| && s[i] == b && b !in s[..i]
  }

  /** No triple occurs twice: the invariant the add command maintains. */
  predicate NoDup(s: seq<Bookmark>)
  {
    forall i, j :: 0 <= i < j < |s| ==> s[i] != s[j]
  }

  lemma {:induction false} NoDupCounts(s: seq<Bookmark>)
    requires NoDup(s)
    ensures forall x :: multiset(s)[x] <= 1
  {
    if |s| > 0 {
      assert NoDup(s[1..]) by {
        forall i, j | 0 <= i < j < |s[1..]| ensures s[1..][i] != s[1..][j] {
          assert s[1..][i] == s[i + 1] && s[1..][j] == s[j + 1];
        }
      }
      NoDupCounts(s[1..]);
      assert s == [s[0]] + s[1..];
      assert s[0] !in s[1..];
    }
  }

  /** A triple found at two positions is counted at least twice. */
  lemma RepeatCounted(s: seq<Bookmark>, i: nat, j: nat)
    requires i < j < |s|
    ensures s[i] == s[j] ==> multiset(s)[s[i]] >= 2
  {
    assert s == s[..j] + s[j..];
    assert multiset(s) == multiset(s[..j]) + multiset(s[j..]);
    assert s[i] in s[..j] && s[j] in s[j..];
    assert multiset(s[..j])[s[i]] >= 1 && multiset(s[j..])[s[j]] >= 1;
  }

  /** A triple counted at most once occurs at no position but its own. */
  lemma OccursOnlyAt(s: seq<Bookmark>, i: nat)
    requires i < |s| && multiset(s)[s[i]] <= 1
    ensures forall j :: 0 <= j < |s| && j != i ==> s[j] != s[i]
    ensures FirstOccurrence(s, i, s[i])
  {
    forall j | 0 <= j < |s| && j != i ensures s[j] != s[i] {
      if j < i {
        RepeatCounted(s, j, i);
      } else {
        RepeatCounted(s, i, j);
      }
    }
    assert forall j :: 0 <= j < i ==> s[..i][j] == s[j];
  }

  /** Reordering a duplicate-free list keeps it duplicate-free. */
  lemma PermutationPreservesNoDup(a: seq<Bookmark>, b: seq<Bookmark>)
    requires multiset(a) == multiset(b)
    requires NoDup(a)
    ensures NoDup(b)
  {
    NoDupCounts(a);
    forall i, j | 0 <= i < j < |b| ensures b[i] != b[j] {
      RepeatCounted(b, i, j);
    }
  }
}
