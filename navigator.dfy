/** The ring navigation of the next and previous commands: on the sorted list,
    step around the ring from a bookmark the cursor sits on, or else go to the
    nearest bookmark in the chosen direction, wrapping at the ends. */
module Navigator {
  import opened Search
  import opened Bookmarks
  import opened Ordering

  /** The index the next command jumps to in the sorted list. */
  function NextIndex(sorted: seq<Bookmark>, cur: Bookmark): (r: nat)
    requires |sorted| > 0
    ensures r < |sorted|
    // on a bookmark: one step forward from its first occurrence, modulo the length
    ensures forall i :: FirstOccurrence(sorted, i, cur) ==>
              r == (i + 1) % |sorted|
    // elsewhere: the first bookmark strictly after the cursor, or the first of all
    ensures cur !in sorted ==> forall j :: 0 <= j < r ==> !IsAfter(sorted[j], cur)
    ensures cur !in sorted ==>
              IsAfter(sorted[r], cur) || (r == 0 && forall j :: 0 <= j < |sorted| ==> !IsAfter(sorted[j], cur))
  {
    var idx := IndexOf(sorted, cur);
    if idx != -1 then (idx + 1) % |sorted|
    else
      var after := FindIndex(sorted, b => IsAfter(b, cur));
      if after == -1 then 0 else after
  }

  /** The index the previous command jumps to in the sorted list. */
  function PrevIndex(sorted: seq<Bookmark>, cur: Bookmark): (r: nat)
    requires |sorted| > 0
    ensures r < |sorted|
    // on a bookmark: one step back from its first occurrence, modulo the length
    ensures forall i :: FirstOccurrence(sorted, i, cur) ==>
              r == (i - 1 + |sorted|) % |sorted|
    // elsewhere: the last bookmark strictly before the cursor, or the last of all
    ensures cur !in sorted ==> forall j :: r < j < |sorted| ==> !IsBefore(sorted[j], cur)
    ensures cur !in sorted ==>
              IsBefore(sorted[r], cur) || (r == |sorted| - 1 && forall j :: 0 <= j < |sorted| ==> !IsBefore(sorted[j], cur))
  {
    var idx := IndexOf(sorted, cur);
    if idx != -1 then (idx - 1 + |sorted|) % |sorted|
    else
      var before := FindLastIndex(sorted, b => IsBefore(b, cur));
      if before == -1 then |sorted| - 1 else before
  }

  /** When the bookmark at i occurs only once, next from it goes to i + 1, and
      from the last bookmark to the first. */
  lemma NextFromBookmark(s: seq<Bookmark>, i: nat)
    requires i < |s| && multiset(s)[s[i]] <= 1
    ensures NextIndex(s, s[i]) == if i + 1 < |s| then i + 1 else 0
  {
    OccursOnlyAt(s, i);
    assert NextIndex(s, s[i]) == (i + 1) % |s|;
    ModBelowTwice(i + 1, |s|);
  }

  /** When the bookmark at i occurs only once, previous from it goes to i - 1,
      and from the first bookmark to the last. */
  lemma PrevFromBookmark(s: seq<Bookmark>, i: nat)
    requires i < |s| && multiset(s)[s[i]] <= 1
    ensures PrevIndex(s, s[i]) == if i > 0 then i - 1 else |s| - 1
  {
    OccursOnlyAt(s, i);
    assert PrevIndex(s, s[i]) == (i - 1 + |s|) % |s|;
    ModBelowTwice(i - 1 + |s|, |s|);
  }

  /** x % n for 0 <= x < 2n, without division. */
  lemma ModBelowTwice(x: int, n: int)
    requires 0 < n && 0 <= x < 2 * n
    ensures x % n == if x < n then x else x - n
  {
  }

  /** Next and previous undo each other on a duplicate-free list. */
  lemma NextPrevInverse(s: seq<Bookmark>, i: nat)
    requires NoDup(s) && i < |s|
    ensures PrevIndex(s, s[NextIndex(s, s[i])]) == i
    ensures NextIndex(s, s[PrevIndex(s, s[i])]) == i
  {
    NoDupCounts(s);
    NextFromBookmark(s, i);
    PrevFromBookmark(s, i);
    PrevFromBookmark(s, NextIndex(s, s[i]));
    NextFromBookmark(s, PrevIndex(s, s[i]));
  }

  /** Where k successive next commands lead, starting on the bookmark at i. */
  function NextSteps(s: seq<Bookmark>, i: nat, k: nat): (r: nat)
    requires i < |s|
    ensures r < |s|
    decreases k
  {
    if k == 0 then i else NextIndex(s, s[NextSteps(s, i, k - 1)])
  }

  /** Where k successive previous commands lead, starting on the bookmark at i. */
  function PrevSteps(s: seq<Bookmark>, i: nat, k: nat): (r: nat)
    requires i < |s|
    ensures r < |s|
    decreases k
  {
    if k == 0 then i else PrevIndex(s, s[PrevSteps(s, i, k - 1)])
  }

  /** Place reached after k single steps forward around a ring of n places. */
  function Forward(n: nat, i: nat, k: nat): (r: nat)
    requires i < n
    ensures r < n
    decreases k
  {
    if k == 0 then i
    else
      var j := Forward(n, i, k - 1);
      if j + 1 < n then j + 1 else 0
  }

  /** Place reached after k single steps backward around a ring of n places. */
  function Backward(n: nat, i: nat, k: nat): (r: nat)
    requires i < n
    ensures r < n
    decreases k
  {
    if k == 0 then i
    else
      var j := Backward(n, i, k - 1);
      if j > 0 then j - 1 else n - 1
  }

  /** On a duplicate-free list, k next commands walk the ring forward k places. */
  lemma {:induction false} NextStepsForward(s: seq<Bookmark>, i: nat, k: nat)
    requires NoDup(s) && i < |s|
    ensures NextSteps(s, i, k) == Forward(|s|, i, k)
  {
    if k > 0 {
      NextStepsForward(s, i, k - 1);
      NoDupCounts(s);
      NextFromBookmark(s, NextSteps(s, i, k - 1));
    }
  }

  /** On a duplicate-free list, k previous commands walk the ring backward k places. */
  lemma {:induction false} PrevStepsBackward(s: seq<Bookmark>, i: nat, k: nat)
    requires NoDup(s) && i < |s|
    ensures PrevSteps(s, i, k) == Backward(|s|, i, k)
  {
    if k > 0 {
      PrevStepsBackward(s, i, k - 1);
      NoDupCounts(s);
      PrevFromBookmark(s, PrevSteps(s, i, k - 1));
    }
  }

  lemma {:induction false} ForwardWithinTurn(n: nat, i: nat, k: nat)
    requires i < n && k <= n
    ensures Forward(n, i, k) == if i + k < n then i + k else i + k - n
  {
    if k > 0 {
      ForwardWithinTurn(n, i, k - 1);
    }
  }

  lemma {:induction false} BackwardWithinTurn(n: nat, i: nat, k: nat)
    requires i < n && k <= n
    ensures Backward(n, i, k) == if k <= i then i - k else i + n - k
  {
    if k > 0 {
      BackwardWithinTurn(n, i, k - 1);
    }
  }

  lemma {:induction false} ForwardCompose(n: nat, i: nat, a: nat, b: nat)
    requires i < n
    ensures Forward(n, i, a + b) == Forward(n, Forward(n, i, a), b)
    decreases b
  {
    if b > 0 {
      ForwardCompose(n, i, a, b - 1);
    }
  }

  lemma {:induction false} BackwardCompose(n: nat, i: nat, a: nat, b: nat)
    requires i < n
    ensures Backward(n, i, a + b) == Backward(n, Backward(n, i, a), b)
    decreases b
  {
    if b > 0 {
      BackwardCompose(n, i, a, b - 1);
    }
  }

  lemma {:induction false} ForwardPeriodic(n: nat, i: nat, k: nat)
    requires i < n
    ensures Forward(n, i, n + k) == Forward(n, i, k)
  {
    ForwardWithinTurn(n, i, n);
    ForwardCompose(n, i, n, k);
  }

  lemma {:induction false} BackwardPeriodic(n: nat, i: nat, k: nat)
    requires i < n
    ensures Backward(n, i, n + k) == Backward(n, i, k)
  {
    BackwardWithinTurn(n, i, n);
    BackwardCompose(n, i, n, k);
  }

  /** Ring closure for next: from a bookmark, |s| next commands come back to it,
      and the |s| bookmarks visited on the way are all different. */
  lemma {:induction false} NextRingClosure(s: seq<Bookmark>, i: nat)
    requires NoDup(s) && i < |s|
    ensures NextSteps(s, i, |s|) == i
    ensures forall k1, k2 :: 0 <= k1 < k2 < |s| ==> NextSteps(s, i, k1) != NextSteps(s, i, k2)
  {
    NextStepsForward(s, i, |s|);
    ForwardWithinTurn(|s|, i, |s|);
    forall k1, k2 | 0 <= k1 < k2 < |s| ensures NextSteps(s, i, k1) != NextSteps(s, i, k2) {
      NextStepsForward(s, i, k1);
      NextStepsForward(s, i, k2);
      ForwardWithinTurn(|s|, i, k1);
      ForwardWithinTurn(|s|, i, k2);
    }
  }

  /** Ring closure for previous, as for next. */
  lemma {:induction false} PrevRingClosure(s: seq<Bookmark>, i: nat)
    requires NoDup(s) && i < |s|
    ensures PrevSteps(s, i, |s|) == i
    ensures forall k1, k2 :: 0 <= k1 < k2 < |s| ==> PrevSteps(s, i, k1) != PrevSteps(s, i, k2)
  {
    PrevStepsBackward(s, i, |s|);
    BackwardWithinTurn(|s|, i, |s|);
    forall k1, k2 | 0 <= k1 < k2 < |s| ensures PrevSteps(s, i, k1) != PrevSteps(s, i, k2) {
      PrevStepsBackward(s, i, k1);
      PrevStepsBackward(s, i, k2);
      BackwardWithinTurn(|s|, i, k1);
      BackwardWithinTurn(|s|, i, k2);
    }
  }

  /** With more than one bookmark and the cursor's triple stored at most once,
      next never lands on the cursor's own position, whether it steps from a
      bookmark or falls back. */
  lemma NextLeavesCursor(s: seq<Bookmark>, cur: Bookmark)
    requires |s| > 1 && multiset(s)[cur] <= 1
    ensures s[NextIndex(s, cur)] != cur
  {
    if cur in s {
      var i :| 0 <= i < |s| && s[i] == cur;
      NextFromBookmark(s, i);
      OccursOnlyAt(s, i);
    }
  }

  lemma PrevLeavesCursor(s: seq<Bookmark>, cur: Bookmark)
    requires |s| > 1 && multiset(s)[cur] <= 1
    ensures s[PrevIndex(s, cur)] != cur
  {
    if cur in s {
      var i :| 0 <= i < |s| && s[i] == cur;
      PrevFromBookmark(s, i);
      OccursOnlyAt(s, i);
    }
  }

  /** On a sorted list with the cursor off every bookmark, next goes to the
      cursor's insertion point: the bookmarks from there on are exactly those the
      comparator puts after the cursor. If every bookmark sorts before the
      cursor, next wraps to the first. */
  lemma NextFallbackIsSuccessor(s: seq<Bookmark>, cur: Bookmark)
    requires Sorted(s) && |s| > 0 && cur !in s
    ensures (exists j :: 0 <= j < |s| && Lt(cur, s[j])) ==>
              forall j :: 0 <= j < |s| ==> (Lt(cur, s[j]) <==> NextIndex(s, cur) <= j)
    ensures (forall j :: 0 <= j < |s| ==> Lt(s[j], cur)) ==> NextIndex(s, cur) == 0
  {
    var r := NextIndex(s, cur);
    forall j | 0 <= j < |s| ensures IsAfter(s[j], cur) <==> Lt(cur, s[j]) {
      AfterAgreesWithCompare(s[j], cur);
    }
    if exists j :: 0 <= j < |s| && Lt(cur, s[j]) {
      assert Lt(cur, s[r]);
      forall j | r < j < |s| ensures Lt(cur, s[j]) {
        LtLeTransitive(cur, s[r], s[j]);
      }
    }
    forall j | 0 <= j < |s| && Lt(s[j], cur) ensures !Lt(cur, s[j]) {
      CompareAntisymmetric(s[j], cur);
    }
  }

  /** On a sorted list with the cursor off every bookmark, previous goes to the
      bookmark just before the cursor's insertion point: the bookmarks up to
      there are exactly those the comparator puts before the cursor. If every
      bookmark sorts after the cursor, previous wraps to the last. */
  lemma PrevFallbackIsPredecessor(s: seq<Bookmark>, cur: Bookmark)
    requires Sorted(s) && |s| > 0 && cur !in s
    ensures (exists j :: 0 <= j < |s| && Lt(s[j], cur)) ==>
              forall j :: 0 <= j < |s| ==> (Lt(s[j], cur) <==> j <= PrevIndex(s, cur))
    ensures (forall j :: 0 <= j < |s| ==> Lt(cur, s[j])) ==> PrevIndex(s, cur) == |s| - 1
  {
    var r := PrevIndex(s, cur);
    forall j | 0 <= j < |s| ensures IsBefore(s[j], cur) <==> Lt(s[j], cur) {
      BeforeAgreesWithCompare(s[j], cur);
    }
    if exists j :: 0 <= j < |s| && Lt(s[j], cur) {
      assert Lt(s[r], cur);
      forall j | 0 <= j < r ensures Lt(s[j], cur) {
        CompareTransitive(s[j], s[r], cur);
        CompareZero(s[j], cur);
      }
    }
    forall j | 0 <= j < |s| && Lt(cur, s[j]) ensures !Lt(s[j], cur) {
      CompareAntisymmetric(cur, s[j]);
    }
  }

  /** After a full turn the tour of next commands repeats. */
  lemma {:induction false} NextRingRepeats(s: seq<Bookmark>, i: nat, k: nat)
    requires NoDup(s) && i < |s|
    ensures NextSteps(s, i, |s| + k) == NextSteps(s, i, k)
  {
    calc {
      NextSteps(s, i, |s| + k);
      == { NextStepsForward(s, i, |s| + k); }
      Forward(|s|, i, |s| + k);
      == { ForwardPeriodic(|s|, i, k); }
      Forward(|s|, i, k);
      == { NextStepsForward(s, i, k); }
      NextSteps(s, i, k);
    }
  }

  /** After a full turn the tour of previous commands repeats. */
  lemma {:induction false} PrevRingRepeats(s: seq<Bookmark>, i: nat, k: nat)
    requires NoDup(s) && i < |s|
    ensures PrevSteps(s, i, |s| + k) == PrevSteps(s, i, k)
  {
    calc {
      PrevSteps(s, i, |s| + k);
      == { PrevStepsBackward(s, i, |s| + k); }
      Backward(|s|, i, |s| + k);
      == { BackwardPeriodic(|s|, i, k); }
      Backward(|s|, i, k);
      == { PrevStepsBackward(s, i, k); }
      PrevSteps(s, i, k);
    }
  }

  /** The next command: sort a copy of the list and jump to the bookmark at
      NextIndex. The caller has already reported an empty list. */
  function Next(bookmarks: seq<Bookmark>, cur: Bookmark): (target: Bookmark)
    requires |bookmarks| > 0
    ensures target in bookmarks
  {
    var sorted := SortBookmarks(bookmarks);
    assert |sorted| == |multiset(bookmarks)| == |bookmarks|;
    assert sorted[NextIndex(sorted, cur)] in multiset(sorted);
    sorted[NextIndex(sorted, cur)]
  }

  /** The previous command: sort a copy of the list and jump to the bookmark at
      PrevIndex. The caller has already reported an empty list. */
  function Previous(bookmarks: seq<Bookmark>, cur: Bookmark): (target: Bookmark)
    requires |bookmarks| > 0
    ensures target in bookmarks
  {
    var sorted := SortBookmarks(bookmarks);
    assert |sorted| == |multiset(bookmarks)| == |bookmarks|;
    assert sorted[PrevIndex(sorted, cur)] in multiset(sorted);
    sorted[PrevIndex(sorted, cur)]
  }

  /** With more than one bookmark and the cursor's triple stored at most once,
      the next and previous commands always move the cursor to a different
      bookmark. */
  lemma TargetLeavesCursor(bookmarks: seq<Bookmark>, cur: Bookmark)
    requires |bookmarks| > 1 && multiset(bookmarks)[cur] <= 1
    ensures Next(bookmarks, cur) != cur
    ensures Previous(bookmarks, cur) != cur
  {
    var sorted := SortBookmarks(bookmarks);
    assert |sorted| == |multiset(bookmarks)| == |bookmarks|;
    NextLeavesCursor(sorted, cur);
    PrevLeavesCursor(sorted, cur);
  }

  lemma SortedLe(s: seq<Bookmark>, i: nat, j: nat)
    requires Sorted(s) && i <= j < |s|
    ensures Le(s[i], s[j])
  {
    if i == j {
      CompareZero(s[i], s[i]);
    }
  }

  /** On a sorted list, next goes to the cyclic successor of the cursor: the
      least bookmark strictly after it, or the least bookmark of all when none
      is after it. This holds whenever the cursor's triple occurs at most once:
      off every bookmark, or on a bookmark that has no copy. */
  lemma NextIsCyclicSuccessor(s: seq<Bookmark>, cur: Bookmark)
    requires Sorted(s) && |s| > 0
    requires multiset(s)[cur] <= 1
    ensures (exists b :: b in s && Lt(cur, b)) ==>
              Lt(cur, s[NextIndex(s, cur)]) && forall b :: b in s && Lt(cur, b) ==> Le(s[NextIndex(s, cur)], b)
    ensures (forall b :: b in s ==> !Lt(cur, b)) ==> forall b :: b in s ==> Le(s[NextIndex(s, cur)], b)
  {
    var r := NextIndex(s, cur);
    if cur in s {
      var i :| 0 <= i < |s| && s[i] == cur;
      NextFromBookmark(s, i);
      OccursOnlyAt(s, i);
      forall j | 0 <= j <= i ensures !Lt(cur, s[j]) {
        SortedLe(s, j, i);
        CompareAntisymmetric(s[i], s[j]);
      }
      if i + 1 < |s| {
        SortedLe(s, i, i + 1);
        CompareZero(s[i], s[i + 1]);
        assert s[i + 1] in s && Lt(cur, s[i + 1]);
        forall j | 0 <= j < |s| && Lt(cur, s[j]) ensures Le(s[r], s[j]) {
          SortedLe(s, i + 1, j);
        }
      } else {
        forall j | 0 <= j < |s| ensures Le(s[r], s[j]) && !Lt(cur, s[j]) {
          SortedLe(s, 0, j);
          SortedLe(s, j, i);
          CompareAntisymmetric(s[i], s[j]);
        }
      }
    } else {
      NextFallbackIsSuccessor(s, cur);
      if exists j :: 0 <= j < |s| && Lt(cur, s[j]) {
        forall j | 0 <= j < |s| && Lt(cur, s[j]) ensures Le(s[r], s[j]) {
          SortedLe(s, r, j);
        }
      } else {
        forall j | 0 <= j < |s| ensures Lt(s[j], cur) && Le(s[0], s[j]) {
          CompareAntisymmetric(cur, s[j]);
          CompareZero(cur, s[j]);
          SortedLe(s, 0, j);
        }
      }
    }
  }

  /** On a sorted list, previous goes to the cyclic predecessor of the cursor:
      the greatest bookmark strictly before it, or the greatest bookmark of all
      when none is before it. */
  lemma PrevIsCyclicPredecessor(s: seq<Bookmark>, cur: Bookmark)
    requires Sorted(s) && |s| > 0
    requires multiset(s)[cur] <= 1
    ensures (exists b :: b in s && Lt(b, cur)) ==>
              Lt(s[PrevIndex(s, cur)], cur) && forall b :: b in s && Lt(b, cur) ==> Le(b, s[PrevIndex(s, cur)])
    ensures (forall b :: b in s ==> !Lt(b, cur)) ==> forall b :: b in s ==> Le(b, s[PrevIndex(s, cur)])
  {
    var r := PrevIndex(s, cur);
    if cur in s {
      var i :| 0 <= i < |s| && s[i] == cur;
      PrevFromBookmark(s, i);
      OccursOnlyAt(s, i);
      forall j | i <= j < |s| ensures !Lt(s[j], cur) {
        SortedLe(s, i, j);
        CompareAntisymmetric(s[j], s[i]);
      }
      if i > 0 {
        SortedLe(s, i - 1, i);
        CompareZero(s[i - 1], s[i]);
        assert s[i - 1] in s && Lt(s[i - 1], cur);
        forall j | 0 <= j < |s| && Lt(s[j], cur) ensures Le(s[j], s[r]) {
          SortedLe(s, j, i - 1);
        }
      } else {
        forall j | 0 <= j < |s| ensures Le(s[j], s[r]) && !Lt(s[j], cur) {
          SortedLe(s, j, |s| - 1);
          SortedLe(s, i, j);
          CompareAntisymmetric(s[j], s[i]);
        }
      }
    } else {
      PrevFallbackIsPredecessor(s, cur);
      if exists j :: 0 <= j < |s| && Lt(s[j], cur) {
        forall j | 0 <= j < |s| && Lt(s[j], cur) ensures Le(s[j], s[r]) {
          SortedLe(s, j, r);
        }
      } else {
        forall j | 0 <= j < |s| ensures Lt(cur, s[j]) && Le(s[j], s[|s| - 1]) {
          CompareAntisymmetric(s[j], cur);
          CompareZero(s[j], cur);
          SortedLe(s, j, |s| - 1);
        }
      }
    }
  }

  /** The next command, stated on the list as loaded: when the cursor's triple
      is stored at most once it jumps to the least bookmark strictly
      after the cursor in (file, line, character) order, and wraps to the least
      bookmark of all when none is after it. */
  lemma NextTargetIsSuccessor(bookmarks: seq<Bookmark>, cur: Bookmark)
    requires |bookmarks| > 0
    requires multiset(bookmarks)[cur] <= 1
    ensures (exists b :: b in bookmarks && Lt(cur, b)) ==>
              Lt(cur, Next(bookmarks, cur)) && forall b :: b in bookmarks && Lt(cur, b) ==> Le(Next(bookmarks, cur), b)
    ensures (forall b :: b in bookmarks ==> !Lt(cur, b)) ==> forall b :: b in bookmarks ==> Le(Next(bookmarks, cur), b)
  {
    var sorted := SortBookmarks(bookmarks);
    assert |sorted| == |multiset(bookmarks)| == |bookmarks|;
    assert forall b :: b in sorted <==> b in bookmarks by {
      forall b ensures b in sorted <==> b in bookmarks {
        assert b in sorted <==> b in multiset(sorted);
      }
    }
    NextIsCyclicSuccessor(sorted, cur);
  }

  /** The previous command, stated on the list as loaded: it jumps to the
      greatest bookmark strictly before the cursor, and wraps to the greatest
      bookmark of all when none is before it. */
  lemma PreviousTargetIsPredecessor(bookmarks: seq<Bookmark>, cur: Bookmark)
    requires |bookmarks| > 0
    requires multiset(bookmarks)[cur] <= 1
    ensures (exists b :: b in bookmarks && Lt(b, cur)) ==>
              Lt(Previous(bookmarks, cur), cur) && forall b :: b in bookmarks && Lt(b, cur) ==> Le(b, Previous(bookmarks, cur))
    ensures (forall b :: b in bookmarks ==> !Lt(b, cur)) ==> forall b :: b in bookmarks ==> Le(b, Previous(bookmarks, cur))
  {
    var sorted := SortBookmarks(bookmarks);
    assert |sorted| == |multiset(bookmarks)| == |bookmarks|;
    assert forall b :: b in sorted <==> b in bookmarks by {
      forall b ensures b in sorted <==> b in bookmarks {
        assert b in sorted <==> b in multiset(sorted);
      }
    }
    PrevIsCyclicPredecessor(sorted, cur);
  }

  /** Bookmarks at (A,1,0), (A,5,0) and (B,0,0), stored out of order. */
  function SampleBookmarks(): (r: seq<Bookmark>)
  {
    [Bookmark("B", 0, 0), Bookmark("A", 5, 0), Bookmark("A", 1, 0)]
  }

  lemma SampleSorted()
    ensures SortBookmarks(SampleBookmarks()) == [Bookmark("A", 1, 0), Bookmark("A", 5, 0), Bookmark("B", 0, 0)]
  {
    var expected := [Bookmark("A", 1, 0), Bookmark("A", 5, 0), Bookmark("B", 0, 0)];
    assert StringLess("A", "B");
    StringLessIrreflexive("A");
    StringLessAsymmetric("A", "B");
    assert Sorted(expected);
    assert multiset(SampleBookmarks()) == multiset(expected);
    SortedUnique(SortBookmarks(SampleBookmarks()), expected);
  }

  /** From (A,3,0), next goes to (A,5,0). */
  lemma SampleNextBetween()
    ensures Next(SampleBookmarks(), Bookmark("A", 3, 0)) == Bookmark("A", 5, 0)
  {
    SampleSorted();
    var sorted := [Bookmark("A", 1, 0), Bookmark("A", 5, 0), Bookmark("B", 0, 0)];
    var cur := Bookmark("A", 3, 0);
    assert cur !in sorted;
    assert !IsAfter(sorted[0], cur) by { StringLessIrreflexive("A"); }
    assert IsAfter(sorted[1], cur);
    var r := NextIndex(sorted, cur);
    assert r == 1;
  }

  /** From (A,3,0), previous goes to (A,1,0). */
  lemma SamplePreviousBetween()
    ensures Previous(SampleBookmarks(), Bookmark("A", 3, 0)) == Bookmark("A", 1, 0)
  {
    SampleSorted();
    var sorted := [Bookmark("A", 1, 0), Bookmark("A", 5, 0), Bookmark("B", 0, 0)];
    var cur := Bookmark("A", 3, 0);
    assert !StringLess("B", "A") by { StringLessAsymmetric("A", "B"); }
    assert !StringLess("A", "A") by { StringLessIrreflexive("A"); }
    PrevIndexOnlyFirstBefore(sorted, cur);
  }

  lemma PrevIndexOnlyFirstBefore(sorted: seq<Bookmark>, cur: Bookmark)
    requires |sorted| == 3 && cur !in sorted
    requires IsBefore(sorted[0], cur) && !IsBefore(sorted[1], cur) && !IsBefore(sorted[2], cur)
    ensures PrevIndex(sorted, cur) == 0
  {
  }

  /** From the last bookmark (B,0,0), next wraps to (A,1,0). */
  lemma SampleNextWraps()
    ensures Next(SampleBookmarks(), Bookmark("B", 0, 0)) == Bookmark("A", 1, 0)
  {
    SampleSorted();
    var sorted := [Bookmark("A", 1, 0), Bookmark("A", 5, 0), Bookmark("B", 0, 0)];
    NextIndexFromLastOfThree(sorted, Bookmark("B", 0, 0));
  }

  lemma NextIndexFromLastOfThree(sorted: seq<Bookmark>, cur: Bookmark)
    requires |sorted| == 3 && sorted[2] == cur && sorted[0] != cur && sorted[1] != cur
    ensures NextIndex(sorted, cur) == 0
  {
    assert FirstOccurrence(sorted, 2, cur);
  }

  /** The ring step assumes no duplicates: when the first exact match is
      directly followed by a copy of itself, next lands on the same position
      again, and repeating it never leaves that position. */
  lemma DuplicateStallsNext(s: seq<Bookmark>, i: nat)
    requires i + 1 < |s| && FirstOccurrence(s, i, s[i]) && s[i + 1] == s[i]
    ensures s[NextIndex(s, s[i])] == s[i]
  {
    assert NextIndex(s, s[i]) == (i + 1) % |s|;
    ModBelowTwice(i + 1, |s|);
  }
}
