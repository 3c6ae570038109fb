# Secure Bookmarks: ordering, ring navigation and list mutations

A model, in Dafny, of the decision logic of the VS Code extension
`vscode-secure-bookmarks` (`extension.js`). A bookmark is a triple
`(file, line, character)`. Seven editor commands act on the bookmark list.
This model covers the logic behind five of them, separated from the editor:

- **Canonical ordering** (`sortBookmarks`). A sorted copy of the list: by file
  path under JavaScript's string `<`, then by line, then by column.
- **Ring navigation** (the `next` and `previous` commands). On the sorted list,
  find the bookmark exactly at the cursor and step one place forward or back,
  modulo the length. If there is none, take the first bookmark strictly after
  the cursor (next) or the last one strictly before it (previous). If that
  search also fails, wrap to the other end.
- **List mutations** (the `add`, `delete` and `toggle` commands). Add skips a
  triple that is already present. Delete splices out a picked index. Toggle
  splices out the first exact match, or pushes the triple if there is none.

Modules, one per concern of `extension.js`:

- `search.dfy` (`Search`): `Array.prototype.findIndex` and `findLastIndex`,
  as pure functions with a predicate argument.
- `bookmark.dfy` (`Bookmarks`): the `Bookmark` datatype, string `<`
  (`StringLess`) and its order laws, the sort comparator (`Compare`), the
  "strictly after" and "strictly before" tests of the two navigation commands,
  the exact-match search `IndexOf`, and the no-duplicates invariant `NoDup`.
- `ordering.dfy` (`Ordering`): `sortBookmarks` as an insertion sort. It is
  proved sorted and a permutation, and any sorted permutation is proved equal
  to it.
- `navigator.dfy` (`Navigator`): `NextIndex` and `PrevIndex` on the sorted
  list, the commands `Next` and `Previous`, and the ring and fallback lemmas.
  Without duplicates, the exact-match step and the fallback agree: `next`
  always goes to the cyclic successor of the cursor in comparator order, and
  `previous` to its cyclic predecessor (`NextTargetIsSuccessor`,
  `PreviousTargetIsPredecessor`).
- `store.dfy` (`Store`): the loaded list as a class `BookmarkList`. Its field
  `items` is changed in place by `Add`, `Delete` and `Toggle`. `Add` and
  `Toggle` use the loop `FindExact` for the exact-match scan; `Delete` only
  splices at the picked index. Beside the class are the value
  functions `WithBookmark`, `Removed` and `Toggled` that specify the methods,
  with lemmas about them.

The sort and the navigation are pure in the source (`slice().sort`,
`findIndex`, index arithmetic), so they are modelled as functions. The three
mutating commands change the loaded array with `push` and `splice`, so they are
methods that reassign the `items` field.

Notes on the source:

- The exact-match step of both navigation commands uses `findIndex`, which
  returns the *first* match. The single-step, successor and predecessor lemmas
  therefore assume the cursor's triple is stored at most once; copies of other
  bookmarks do not matter. The lemmas about whole tours of the ring assume the
  list has no duplicate triples at all (`NoDup`), the invariant that `add` and
  `toggle` keep.
  `DuplicateStallsNext` shows what happens without it. If a copy of the
  bookmark follows it in the sorted list, `next` jumps to the same position,
  and repeating the command never moves on. A hand-edited storage file can
  contain such a copy.
- The comment at `extension.js:157` says previous finds "the next one after
  current position". The code (`findLastIndex` with the strictly-before test)
  finds the last one before it. The model follows the code.
- JavaScript's sort is stable and its algorithm belongs to the engine. The
  comparator ties only identical triples (`CompareZero`), so `SortedUnique`
  shows that every correct sort returns the same sequence. Modelling the sort
  as an insertion sort therefore loses nothing.

## Model

| member | source | states |
|---|---|---|
| Search.FindIndex | extension.js:118-120 | findIndex returns -1 when no element satisfies the predicate; otherwise the returned index satisfies it and no earlier index does |
| Search.FindLastIndex | extension.js:158-160 | findLastIndex returns -1 when no element satisfies the predicate; otherwise the returned index satisfies it and no later index does |
| Bookmarks.StringLess | extension.js:222-223 | JavaScript's string `<`, also used at extension.js:119 and 159: a definition with no contract of its own. Its order laws are the four lemmas below |
| Bookmarks.StringLessIrreflexive | extension.js:222-223 | no file path sorts before itself under string `<` |
| Bookmarks.StringLessAsymmetric | extension.js:222-223 | if a < b then not b < a for file paths |
| Bookmarks.StringLessTransitive | extension.js:222-223 | string `<` on file paths is transitive |
| Bookmarks.StringLessTotal | extension.js:222-223 | two different file paths are always ordered one way or the other |
| Bookmarks.Compare | extension.js:221-227 | the sort comparator: a definition with no contract of its own. Its properties are carried by CompareZero, CompareAntisymmetric, CompareTotal, CompareTransitive and LtLeTransitive, and by SortBookmarks |
| Bookmarks.CompareZero | extension.js:221-227 | the sort comparator returns 0 exactly for identical (file, line, character) triples |
| Bookmarks.CompareAntisymmetric | extension.js:221-227 | swapping the comparator's arguments flips the sign of its result |
| Bookmarks.CompareTotal | extension.js:221-227 | any two bookmarks are comparable |
| Bookmarks.CompareTransitive | extension.js:221-227 | "sorts no later than" is transitive |
| Bookmarks.LtLeTransitive | extension.js:221-227 | strictly before followed by no later than gives strictly before |
| Bookmarks.IsAfter | extension.js:119 | the next command's strictly-after test: a definition with no contract of its own. AfterAgreesWithCompare ties it to the comparator |
| Bookmarks.IsBefore | extension.js:159 | the previous command's strictly-before test: a definition with no contract of its own. BeforeAgreesWithCompare ties it to the comparator |
| Bookmarks.AfterAgreesWithCompare | extension.js:119 | the next command's strictly-after test holds exactly when the comparator puts the cursor strictly before the bookmark |
| Bookmarks.BeforeAgreesWithCompare | extension.js:159 | the previous command's strictly-before test holds exactly when the comparator puts the bookmark strictly before the cursor |
| Bookmarks.IndexOf | extension.js:16-18 | the exact-match search returns -1 exactly when the triple is absent; otherwise a position in bounds that holds the triple, with no earlier position holding it |
| Ordering.Insert | extension.js:221-227 | inserting into a sorted list gives a sorted list holding the old elements plus one copy of the new one |
| Ordering.SortBookmarks | extension.js:220-228 | sortBookmarks returns a list ordered by (file, line, character) with exactly the input's bookmarks, as a multiset |
| Ordering.SortedUnique | extension.js:221-227 | two sorted permutations of one list are equal, so any correct sort gives the same result |
| Ordering.SortKeepsDistinct | extension.js:220-221 | sorting a duplicate-free list gives a duplicate-free list |
| Navigator.NextIndex | extension.js:106-123 | the target is in bounds. On a bookmark it is (first match + 1) mod n. Otherwise no earlier entry is strictly after the cursor, and the target is strictly after it or, when none is, index 0 |
| Navigator.PrevIndex | extension.js:146-163 | the target is in bounds. On a bookmark it is (first match - 1 + n) mod n. Otherwise no later entry is strictly before the cursor, and the target is strictly before it or, when none is, index n - 1 |
| Navigator.NextFromBookmark | extension.js:113-115 | when the bookmark at position i occurs only once, next from it goes to i + 1, and from the last position to the first |
| Navigator.PrevFromBookmark | extension.js:153-155 | when the bookmark at position i occurs only once, previous from it goes to i - 1, and from the first position to the last |
| Navigator.NextPrevInverse | extension.js:113-115 | without duplicates, previous undoes next and next undoes previous |
| Navigator.NextSteps | extension.js:109-125 | k next commands in a row, each starting from the target of the one before: a definition whose own contract only keeps the index in bounds. NextStepsForward, NextRingClosure and NextRingRepeats carry its properties |
| Navigator.PrevSteps | extension.js:149-165 | k previous commands in a row: a definition whose own contract only keeps the index in bounds. PrevStepsBackward, PrevRingClosure and PrevRingRepeats carry its properties |
| Navigator.NextStepsForward | extension.js:113-115 | k successive next commands from a bookmark walk the ring forward k places |
| Navigator.PrevStepsBackward | extension.js:153-155 | k successive previous commands from a bookmark walk the ring backward k places |
| Navigator.NextRingClosure | extension.js:113-115 | n next commands from bookmark i return to i, and the n bookmarks visited on the way are all different |
| Navigator.PrevRingClosure | extension.js:153-155 | n previous commands from bookmark i return to i, and the n bookmarks visited on the way are all different |
| Navigator.NextRingRepeats | extension.js:113-115 | after a full turn the tour of next commands repeats |
| Navigator.PrevRingRepeats | extension.js:153-155 | after a full turn the tour of previous commands repeats |
| Navigator.NextLeavesCursor | extension.js:109-123 | with more than one bookmark and the cursor's triple stored at most once, the next target is never the cursor's own position |
| Navigator.PrevLeavesCursor | extension.js:149-163 | with more than one bookmark and the cursor's triple stored at most once, the previous target is never the cursor's own position |
| Navigator.NextFallbackIsSuccessor | extension.js:117-122 | on a sorted list with the cursor on no bookmark, the entries from the target on are exactly those the comparator puts after the cursor; if all entries sort before it, the target is 0 |
| Navigator.PrevFallbackIsPredecessor | extension.js:157-162 | on a sorted list with the cursor on no bookmark, the entries up to the target are exactly those the comparator puts before the cursor; if all entries sort after it, the target is n - 1 |
| Navigator.NextIsCyclicSuccessor | extension.js:109-122 | on a sorted list where the cursor's triple occurs at most once, next goes to the least bookmark strictly after the cursor, or to the least of all when none is after it |
| Navigator.PrevIsCyclicPredecessor | extension.js:149-162 | on a sorted list where the cursor's triple occurs at most once, previous goes to the greatest bookmark strictly before the cursor, or to the greatest of all when none is before it |
| Navigator.NextTargetIsSuccessor | extension.js:106-125 | on the list as loaded, with the cursor's triple stored at most once, the next command jumps to the cyclic successor of the cursor in (file, line, character) order |
| Navigator.PreviousTargetIsPredecessor | extension.js:146-165 | on the list as loaded, with the cursor's triple stored at most once, the previous command jumps to the cyclic predecessor of the cursor in (file, line, character) order |
| Navigator.Next | extension.js:106-125 | the next command jumps to one of the loaded bookmarks |
| Navigator.Previous | extension.js:146-165 | the previous command jumps to one of the loaded bookmarks |
| Navigator.TargetLeavesCursor | extension.js:106-125 | with more than one bookmark and the cursor's triple stored at most once, neither command jumps to the cursor's own position |
| Navigator.SampleSorted | extension.js:220-228 | (B,0,0), (A,5,0), (A,1,0) sort to (A,1,0), (A,5,0), (B,0,0) |
| Navigator.SampleNextBetween | extension.js:117-122 | from (A,3,0) among those bookmarks, next goes to (A,5,0) |
| Navigator.SamplePreviousBetween | extension.js:157-162 | from (A,3,0) among those bookmarks, previous goes to (A,1,0) |
| Navigator.SampleNextWraps | extension.js:113-115 | from the last bookmark (B,0,0), next wraps to (A,1,0) |
| Navigator.DuplicateStallsNext | extension.js:109-115 | when the first exact match is followed by a copy of itself, next lands on the same position |
| Store.FindExact | extension.js:181-183 | the linear scan returns exactly what the exact-match findIndex returns |
| Store.BookmarkList.Add | extension.js:16-24 | the flag says the triple was absent. The list is then the old list with the triple pushed at the end; otherwise it is unchanged |
| Store.BookmarkList.Delete | extension.js:74 | the list becomes the old list without the element at the picked index |
| Store.BookmarkList.Toggle | extension.js:181-195 | the flag says the triple was absent. The list is the old list with its first match spliced out, or with the triple pushed when there is no match |
| Store.WithBookmark | extension.js:16-24 | the list add leaves: a definition with no contract of its own. AddSpec, AddIdempotent and AddKeepsDistinct carry its properties, and BookmarkList.Add is proved against it |
| Store.Removed | extension.js:74 | the list splice(index, 1) leaves: a definition with no contract of its own. RemovedSpec and RemovedKeepsDistinct carry its properties, and BookmarkList.Delete is proved against it |
| Store.Toggled | extension.js:181-195 | the list toggle leaves: a definition with no contract of its own. ToggledSpec, ToggleKeepsDistinct and ToggleTwice carry its properties, and BookmarkList.Toggle is proved against it |
| Store.AddSpec | extension.js:16-24 | add keeps the old entries in place. It grows the list by one exactly when the triple was missing, and adds no triple but that one |
| Store.AddIdempotent | extension.js:16-22 | adding the same triple twice equals adding it once |
| Store.AddKeepsDistinct | extension.js:16-24 | add keeps a duplicate-free list duplicate-free |
| Store.RemovedSpec | extension.js:74 | splice(index, 1) shortens the list by one and keeps the others in order. It removes exactly the element at index |
| Store.RemovedKeepsDistinct | extension.js:74 | deleting from a duplicate-free list keeps it duplicate-free, and the deleted triple is gone |
| Store.ToggledSpec | extension.js:181-195 | toggle pushes a missing triple at the end, and otherwise splices out its first occurrence |
| Store.ToggleKeepsDistinct | extension.js:181-195 | toggle keeps a duplicate-free list duplicate-free and flips whether the triple is present |
| Store.ToggleTwice | extension.js:181-195 | two toggles of a triple stored at most once are one add and one remove. They restore the original multiset, and the exact list when the first one added |

## Left out

- `loadBookmarks` and `saveBookmarks` (`extension.js:230-259`): file I/O
  through the editor's file system API, JSON parsing and printing, directory
  creation, and the "missing or unreadable means empty" policy. These are calls
  into the host. The model starts from the loaded list (the `BookmarkList`
  constructor). `Add`'s result says whether the add command goes on to save.
  `Toggle`'s result says whether it added or removed the bookmark; the toggle
  command saves in both cases. `Delete` has no result, and the delete command
  always saves. The save/load round trip is not modelled.
- `getBookmarksFileUri` (`extension.js:261-269`): workspace lookup and its
  error message are host calls.
- `jumpToBookmark` (`extension.js:211-218`): moving the editor cursor. `Next`
  and `Previous` return the bookmark it would be given.
- NextSteps and PrevSteps (and the ring lemmas built on them) assume that after
  a jump the cursor sits exactly on the target's (file, line, character)
  triple. The editor clamps a position past the end of a line or of the
  document. After such a clamp, on a file edited since the bookmark was saved,
  the next command's fallback can pick the same bookmark again, so the ring
  does not move on. Stale positions are not modelled.
- The quick-pick lists of the goto and delete commands (`extension.js:41-49`,
  `64-72`), including the `line + 1` display text and the cancel path: this is
  presentation. For delete only the picked index matters, and the picker only
  offers indices of the list it was shown, hence `Delete`'s precondition.
- The goto command (`extension.js:32-53`): it only indexes the list with the
  picked index.
- `deleteAll` (`extension.js:81-87`): it only saves an empty list.
- `activate`, `deactivate`, command registration and information messages:
  host plumbing. The empty-list checks at `extension.js:93` and `133` become
  the `|bookmarks| > 0` preconditions of the navigation functions.
- async/await sequencing: each command runs to completion, with no concurrency
  logic to model.
- `StringLess` compares Dafny characters (Unicode scalar values), while
  JavaScript compares UTF-16 code units. The two orders differ only between
  characters above U+FFFF and characters in U+E000..U+FFFF.
- Bookmark fields are mathematical naturals. JavaScript numbers are
  floating-point, and the comparator's `a.character - b.character` is exact
  for the positions an editor produces. Malformed entries of the storage file
  (missing or non-integer fields) are not modelled.
