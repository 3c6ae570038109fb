/** The list mutations of the add, delete and toggle commands: the list loaded
    from storage, changed in place by push and splice before it is saved. */
module Store {
  import opened Bookmarks

  /** What add leaves: the list itself when the triple is already there,
      otherwise the list with the triple pushed at the end. */
  function WithBookmark(s: seq<Bookmark>, b: Bookmark): (r: seq<Bookmark>)
  {
    if b in s then s else s + [b]
  }

  /** What splice(index, 1) leaves: the list without the element at index. */
  function Removed(s: seq<Bookmark>, index: nat): (r: seq<Bookmark>)
    requires index < |s|
  {
    s[..index] + s[index + 1..]
  }

  /** What toggle leaves: the first exact match spliced out, or, when there is
      none, the triple pushed at the end. */
  function Toggled(s: seq<Bookmark>, b: Bookmark): (r: seq<Bookmark>)
  {
    var i := IndexOf(s, b);
    if i == -1 then s + [b] else Removed(s, i)
  }

  /** The findIndex scan of the add and toggle commands, as a loop. */
  method FindExact(s: seq<Bookmark>, b: Bookmark) returns (idx: int)
    ensures idx == IndexOf(s, b)
  {
    idx := 0;
    while idx < |s|
      invariant 0 <= idx <= |s|
      invariant forall j :: 0 <= j < idx ==> s[j] != b
    {
      if s[idx] == b {
        return;
      }
      idx := idx + 1;
    }
    idx := -1;
  }

  /** The bookmark list a command has loaded, which it changes in place. */
  class BookmarkList {
    var items: seq<Bookmark>

    constructor (loaded: seq<Bookmark>)
      ensures items == loaded
    {
      items := loaded;
    }

    /** The add command: nothing happens when the triple is already bookmarked;
        otherwise it is pushed at the end. The result says whether the list
        changed (and the command goes on to save it). */
    method Add(b: Bookmark) returns (added: bool)
      modifies this
      ensures added <==> b !in old(items)
      ensures items == WithBookmark(old(items), b)
      ensures added ==> items == old(items) + [b]
      ensures !added ==> items == old(items)
    {
      var idx := FindExact(items, b);
      if idx != -1 {
        return false;
      }
      items := items + [b];
      added := true;
    }

    /** The delete command, with the index the user picked from a listing of
        this same list. */
    method Delete(index: nat)
      requires index < |items|
      modifies this
      ensures items == Removed(old(items), index)
    {
      items := items[..index] + items[index + 1..];
    }

    /** The toggle command: splice out the first exact match, or push the triple
        when there is none. The result says whether the bookmark was added
        (true) or removed (false). */
    method Toggle(b: Bookmark) returns (added: bool)
      modifies this
      ensures added <==> b !in old(items)
      ensures items == Toggled(old(items), b)
    {
      var idx := FindExact(items, b);
      if idx != -1 {
        items := items[..idx] + items[idx + 1..];
        added := false;
      } else {
        items := items + [b];
        added := true;
      }
    }
  }

  /** Add keeps the old entries in place and makes the triple present; it
      grows the list exactly when the triple was missing, and adds no other
      triple. */
  lemma AddSpec(s: seq<Bookmark>, b: Bookmark)
    ensures b in WithBookmark(s, b)
    ensures WithBookmark(s, b)[..|s|] == s
    ensures |WithBookmark(s, b)| == if b in s then |s| else |s| + 1
    ensures forall x :: x in WithBookmark(s, b) <==> x in s || x == b
  {
  }

  /** Adding twice is adding once. */
  lemma AddIdempotent(s: seq<Bookmark>, b: Bookmark)
    ensures WithBookmark(WithBookmark(s, b), b) == WithBookmark(s, b)
  {
  }

  /** Add keeps a duplicate-free list duplicate-free. */
  lemma AddKeepsDistinct(s: seq<Bookmark>, b: Bookmark)
    requires NoDup(s)
    ensures NoDup(WithBookmark(s, b))
  {
  }

  /** Delete removes exactly the element at index and keeps the others in their
      order. */
  lemma RemovedSpec(s: seq<Bookmark>, index: nat)
    requires index < |s|
    ensures |Removed(s, index)| == |s| - 1
    ensures forall j :: 0 <= j < index ==> Removed(s, index)[j] == s[j]
    ensures forall j :: index <= j < |s| - 1 ==> Removed(s, index)[j] == s[j + 1]
    ensures multiset(Removed(s, index)) + multiset{s[index]} == multiset(s)
  {
    var r := Removed(s, index);
    assert s == s[..index] + [s[index]] + s[index + 1..];
    assert multiset(s) == multiset(s[..index]) + multiset{s[index]} + multiset(s[index + 1..]);
  }

  /** Delete keeps a duplicate-free list duplicate-free, and the deleted
      triple is then gone. */
  lemma RemovedKeepsDistinct(s: seq<Bookmark>, index: nat)
    requires NoDup(s) && index < |s|
    ensures NoDup(Removed(s, index))
    ensures s[index] !in Removed(s, index)
  {
    RemovedSpec(s, index);
    var r := Removed(s, index);
    forall i, j | 0 <= i < j < |r| ensures r[i] != r[j] {
      var i' := if i < index then i else i + 1;
      var j' := if j < index then j else j + 1;
      assert r[i] == s[i'] && r[j] == s[j'];
    }
    forall j | 0 <= j < |r| ensures r[j] != s[index] {
      var j' := if j < index then j else j + 1;
      assert r[j] == s[j'];
    }
  }

  /** Toggle splices out the first exact match, or pushes the triple when it
      is missing. */
  lemma ToggledSpec(s: seq<Bookmark>, b: Bookmark)
    ensures b !in s ==> Toggled(s, b) == s + [b]
    ensures forall i :: FirstOccurrence(s, i, b) ==> Toggled(s, b) == Removed(s, i)
  {
    forall i | FirstOccurrence(s, i, b) ensures Toggled(s, b) == Removed(s, i) {
      assert IndexOf(s, b) == i;
    }
  }

  /** Toggle keeps a duplicate-free list duplicate-free and flips whether the
      triple is bookmarked. */
  lemma ToggleKeepsDistinct(s: seq<Bookmark>, b: Bookmark)
    requires NoDup(s)
    ensures NoDup(Toggled(s, b))
    ensures b in Toggled(s, b) <==> b !in s
  {
    var i := IndexOf(s, b);
    if i != -1 {
      RemovedKeepsDistinct(s, i);
    }
  }

  /** Toggling the same triple twice, when it is stored at most once: the two
      outcomes are one add and one remove, the list holds the same bookmarks as before, and when the first
      toggle added, the list is exactly the original again. */
  lemma {:induction false} ToggleTwice(s: seq<Bookmark>, b: Bookmark)
    requires multiset(s)[b] <= 1
    ensures (b !in s) != (b !in Toggled(s, b))
    ensures multiset(Toggled(Toggled(s, b), b)) == multiset(s)
    ensures b !in s ==> Toggled(Toggled(s, b), b) == s
  {
    var t := Toggled(s, b);
    if b !in s {
      assert t == s + [b];
      assert IndexOf(t, b) == |s|;
      assert t[..|s|] == s;
    } else {
      var i := IndexOf(s, b);
      RemovedSpec(s, i);
      assert multiset(t)[b] == 0;
      assert Toggled(t, b) == t + [b];
    }
  }
}
