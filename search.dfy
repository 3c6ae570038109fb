/** The two array searches the command handlers rely on, as JavaScript's
    Array.prototype.findIndex and Array.prototype.findLastIndex define them:
    the index of the first (last) element satisfying a predicate, or -1. */
module Search {

  /** findIndex: scans from the front and stops at the first element satisfying p. */
  function FindIndex<T>(s: seq<T>, p: T -> bool): (r: int)
    ensures -1 <= r < |s|
    ensures r == -1 ==> forall j :: 0 <= j < |s| ==> !p(s[j])
    ensures 0 <= r ==> p(s[r]) && forall j :: 0 <= j < r ==> !p(s[j])
  {
    if |s| == 0 then -1
    else if p(s[0]) then 0
    else
      var k := FindIndex(s[1..], p);
      if k == -1 then -1 else k + 1
  }

  /** findLastIndex: scans from the back and stops at the last element satisfying p. */
  function FindLastIndex<T>(s: seq<T>, p: T -> bool): (r: int)
    ensures -1 <= r < |s|
    ensures r == -1 ==> forall j :: 0 <= j < |s| ==> !p(s[j])
    ensures 0 <= r ==> p(s[r]) && forall j :: r < j < |s| ==> !p(s[j])
  {
    if |s| == 0 then -1
    else if p(s[|s| - 1]) then |s| - 1
    else FindLastIndex(s[..|s| - 1], p)
  }
}
