# Total Scrobbles sort engine in Dafny

The Total Scrobbles user script makes the columns of a Last.fm track chart
sortable. Its engine has five parts:

- one extractor per column that reads a row's sort key from the cell text;
- the column table `MODEL`, which gives each column its extractor and the
  direction of its first sort;
- the comparator `makeCompare`;
- the closure `sortOrder`, which remembers the direction of every column;
- the click handler `makeSortBy`, which detaches the rows, sorts them,
  re-stripes them with the `odd`, `first` and `last` classes and appends
  them again.

This project models that engine and proves what it promises.

The modules:

- `TextKeys` reads keys from text.
  - A count cell (track position, listeners, plays) keeps its digits and
    reads them as a decimal. Text with no digits reads as 0.
  - A duration cell is read as the leftmost match of `(\d+):(\d+)`, which
    gives minutes * 60 + seconds.
  - The regular expression is modelled by its matching rules: the greedy
    runs and the leftmost start. It is proved equal to a reference reading
    that splits the text at the first colon with a digit on each side.
- `Rows` holds the rows (objects that carry their cell texts and a mutable
  class set) and the container (TBODY) whose `rows` field is reassigned when
  the rows are detached and appended.
- `Columns` holds the column table, the extractors and the comparator. It
  also proves that the comparator is the difference of the rank
  `key * direction`.
- `StableSort` is the library sort the handler calls. Since ECMAScript 2019,
  `Array.prototype.sort` must be stable, so the sort is a function on
  sequences. It is proved sorted, a permutation and stable. It is also
  proved to be the only arrangement with those properties, so any stable
  sort produces exactly this order.
- `SortOrder` is the direction memory. Its laws are stated on a state value
  (`MemoState`). The closure itself is the class `SortOrderMemory`, whose
  method `Next` updates `memo` and `lastColumn` in place.
- `SortHandler` holds the striping pass, a loop over the sorted rows, and
  the handler class `SortHandler`. Its method `Invoke` is one click on a
  column header.
- `SortExamples` works through examples on concrete keys: the keys are
  sorted directly, by key times the direction a click hands out.

A duration cell without `m:ss` does not sort as 0: `extract_duration`
dereferences the `null` result of `match` and throws
(totalscrobbles.user.js:62-63). The model follows the code:

- `ExtractDuration` returns `None` for such a cell.
- `Invoke` reports `ok == false` when at least two rows are sorted and one
  of them has no key. The comparator throws during the sort, which is after
  the direction memory has moved on and after the rows have been detached.
  The container is therefore left empty, and no row's classes change.
- With fewer than two rows, the sort calls no comparator and nothing throws.

## Model

| member | source | states |
|---|---|---|
| TextKeys.StripNonDigits | totalscrobbles.user.js:58 | `.replace(/\D+/g, '')` keeps only digits; text that is all digits is unchanged and text with none becomes empty |
| TextKeys.StripConcat | totalscrobbles.user.js:58 | stripping distributes over concatenation, so the digits are kept in order from every part of the cell |
| TextKeys.DecimalValue | totalscrobbles.user.js:58 | a string of k digits reads as a number below 10^k |
| TextKeys.DecimalRoundTrip | totalscrobbles.user.js:58 | `* 1` on a rendered decimal gives back the number (decimal round trip) |
| TextKeys.DecimalConcat | totalscrobbles.user.js:58 | the value of the digits a then b is value(a) * 10^|b| + value(b); leading zeros do not change a count |
| TextKeys.CountValue | totalscrobbles.user.js:57-72 | a count cell with no digits sorts as 0 (`'' * 1`); an all-digit cell sorts as its decimal value |
| TextKeys.SeparatorsIgnored | totalscrobbles.user.js:67 | inserting separators or words without digits anywhere in a count cell does not change its key |
| TextKeys.CountOfRendered | totalscrobbles.user.js:66-72 | a count written as plain digits sorts as that count |
| TextKeys.GroupedCount | totalscrobbles.user.js:67 | digits, a separator, digits and trailing words strip to the two digit groups joined |
| TextKeys.ListenersExample | totalscrobbles.user.js:66-68 | the listener cell "1,234 listeners" sorts as 1234 |
| TextKeys.RunEnd | totalscrobbles.user.js:62 | a greedy `\d+` from a position ends at the first non-digit or at the end of the text |
| TextKeys.RunStart | totalscrobbles.user.js:62 | the maximal run of digits ending at a position starts after a non-digit or at the start of the text |
| TextKeys.SplitIsRunEnd | totalscrobbles.user.js:62 | a colon that ends digits read from i is exactly where the greedy run from i stops, so backtracking `\d+` has no other split to try |
| TextKeys.MatchesAtIsPattern | totalscrobbles.user.js:62 | `(\d+):(\d+)` matches from i (some digits, a colon, some digits, by any split) exactly when `MatchesAt(s, i)` holds |
| TextKeys.LeftmostMatch | totalscrobbles.user.js:62 | `match` reports the leftmost start where `(\d+):(\d+)` matches, and no earlier position matches |
| TextKeys.MatchTime | totalscrobbles.user.js:62 | both capture groups of a successful match are non-empty digit strings |
| TextKeys.MatchTimeIsFirstTimeColon | totalscrobbles.user.js:62 | the regular expression finds the first colon with a digit on each side; the minutes are the whole digit run before it and the seconds the whole run after it |
| TextKeys.FirstTimeColon | totalscrobbles.user.js:62 | reference search: the first colon with a digit on each side, and none before it |
| TextKeys.DurationValue | totalscrobbles.user.js:61-64 | a duration key exists exactly when the cell has a colon with digits on both sides; otherwise the match is `null` and the extractor throws |
| TextKeys.TimeAroundColonOf | totalscrobbles.user.js:62 | the text `mm:ss` splits back into the groups mm and ss |
| TextKeys.DurationFromGroups | totalscrobbles.user.js:63 | the key is minutes * 60 + seconds, read from the two groups |
| TextKeys.DurationOfGroups | totalscrobbles.user.js:62-63 | the text `mm:ss` for non-empty digit groups reads as mm * 60 + ss |
| TextKeys.DurationOfRendered | totalscrobbles.user.js:61-64 | a duration rendered as `m:ss` reads back as m * 60 + ss seconds (round trip) |
| TextKeys.PadTwoValue | totalscrobbles.user.js:63 | two-digit seconds with a leading zero read as their value |
| TextKeys.DurationExample | totalscrobbles.user.js:61-64 | the duration "3:05" sorts as 185 |
| TextKeys.DurationExampleTwoMinutes | totalscrobbles.user.js:61-64 | the duration "2:00" sorts as 120 |
| TextKeys.DurationExampleFourTen | totalscrobbles.user.js:61-64 | the duration "4:10" sorts as 250 |
| Columns.InitialOrder | totalscrobbles.user.js:48-53 | track and duration start ascending, listeners and plays descending, and every initial order is +1 or -1 |
| Columns.ExtractTrack | totalscrobbles.user.js:57-59 | the track key reads the position cell's digits; no digits give 0 |
| Columns.ExtractDuration | totalscrobbles.user.js:61-64 | the duration extractor fails (throws) exactly when the cell has no `m:ss` |
| Columns.ExtractListeners | totalscrobbles.user.js:66-68 | the listeners key reads the reach cell's digits; no digits give 0 |
| Columns.ExtractPlays | totalscrobbles.user.js:70-72 | the plays key reads the play-count cell's digits; no digits give 0 |
| Columns.Extract | totalscrobbles.user.js:48-53 | dispatch through `MODEL`; only the duration column's extractor can throw |
| Columns.Key | totalscrobbles.user.js:48-53 | where the extractor succeeds, the comparator's key is its value |
| Columns.Compare | totalscrobbles.user.js:76-80 | `makeCompare(ex, order)(a, b)`: ascending it is negative exactly when a's key is smaller, descending exactly when it is larger, and for either direction it is 0 exactly on ties; CompareZeroOnTies, CompareAntisymmetric, DescendingReversesAscending and CompareIsRankDifference state its laws |
| Columns.CompareZeroOnTies | totalscrobbles.user.js:76-80 | for a direction of +1 or -1, the comparator returns 0 exactly when the two keys tie |
| Columns.CompareAntisymmetric | totalscrobbles.user.js:76-80 | compare(a, b) == -compare(b, a) |
| Columns.DescendingReversesAscending | totalscrobbles.user.js:76-80 | the descending comparator is the ascending one with its arguments swapped |
| Columns.CompareIsRankDifference | totalscrobbles.user.js:76-80 | the comparator equals rank(a) - rank(b), where rank is key times direction |
| Columns.SortedMeansCompareNonPositive | totalscrobbles.user.js:76-80 | a sequence is sorted by rank exactly when every earlier row compares <= 0 against every later one |
| StableSort.Insert | totalscrobbles.user.js:121 | inserting adds exactly the one element to the multiset |
| StableSort.Sort | totalscrobbles.user.js:121 | the sort is a permutation: same multiset of rows |
| StableSort.SortIsSorted | totalscrobbles.user.js:121 | the sorted rows are in non-decreasing rank |
| StableSort.SortIsStable | totalscrobbles.user.js:121 | every band of equal ranks keeps its relative order from the input |
| StableSort.StableSortIsUnique | totalscrobbles.user.js:121 | any arrangement that is sorted and keeps every band in input order equals Sort's |
| StableSort.SortOfSorted | totalscrobbles.user.js:121 | re-sorting rows that are already sorted leaves them in place |
| StableSort.SortIdempotent | totalscrobbles.user.js:121 | sorting twice by the same comparator gives the result of sorting once |
| StableSort.TiesMembers | totalscrobbles.user.js:121 | a band of ties holds exactly the rows of that rank |
| StableSort.SameTiesSame | totalscrobbles.user.js:121 | two sorted sequences with the same bands are equal |
| Rows.DistinctHasSingleCopies | totalscrobbles.user.js:118-121 | rows are distinct exactly when each occurs at most once in the multiset |
| Rows.DistinctPermutation | totalscrobbles.user.js:118-121 | a reordering of distinct rows is distinct: sorting neither duplicates nor loses a row |
| SortOrder.Initial | totalscrobbles.user.js:99-100 | the memory starts with only track recorded, as the last column, at ascending |
| SortOrder.NextOrder | totalscrobbles.user.js:102-111 | `sortOrder` always returns +1 or -1 |
| SortOrder.NextState | totalscrobbles.user.js:102-111 | after a call the argument is the last column, its entry is the returned direction, and every other entry is unchanged |
| SortOrder.Replay | totalscrobbles.user.js:102-111 | after a run of calls the last column is the last one called, and every recorded direction stays +1 or -1 |
| SortOrder.FirstSortUsesInitialOrder | totalscrobbles.user.js:103-104 | the first call for an unrecorded column returns and records its `MODEL` initial order |
| SortOrder.FirstSortDirections | totalscrobbles.user.js:48-53 | the first call for plays or listeners returns -1 and for duration returns +1 |
| SortOrder.FirstTrackSortDescends | totalscrobbles.user.js:99-106 | track is seeded as already sorted, so its first call returns -1 |
| SortOrder.ToggleLaw | totalscrobbles.user.js:105-110 | two calls in a row for the same column return opposite directions |
| SortOrder.RestoreLaw | totalscrobbles.user.js:102-110 | c1, then another column, then c1 again: the third call returns what the first returned |
| SortOrder.OtherClicksKeep | totalscrobbles.user.js:102-110 | calls for other columns keep a column recorded and leave its direction unchanged |
| SortOrder.RestoreAfterOtherClicks | totalscrobbles.user.js:102-110 | a column returns to its last direction after any number of calls for other columns |
| SortOrder.SortOrderMemory.constructor | totalscrobbles.user.js:99-100 | the closure's variables start as `Initial` |
| SortOrder.SortOrderMemory.Next | totalscrobbles.user.js:102-111 | the closure call with JavaScript's falsy `!memo[column]` test returns `NextOrder` and moves the state to `NextState`, keeping every entry +1 or -1 |
| SortHandler.Stripe | totalscrobbles.user.js:82-88 | after `stripe(i, row)`, the row is `odd` exactly when i is even, has neither `first` nor `last`, and keeps all its other classes |
| SortHandler.Banded | totalscrobbles.user.js:123-126 | row i of n ends with `odd` iff i is even, `first` iff i == 0, `last` iff i == n - 1, and all other classes as before |
| SortHandler.BandedCounts | totalscrobbles.user.js:123-126 | after banding n rows, ceil(n/2) are `odd`, and one row is `first` and one `last` when n > 0 (the same row when n == 1) |
| SortHandler.OddBandCount | totalscrobbles.user.js:82-88 | marking the even indices marks ceil(n/2) rows |
| SortHandler.Restripe | totalscrobbles.user.js:124-126 | the striping loop and the first/last marks leave each row banded for its index |
| SortHandler.SortAndStripe | totalscrobbles.user.js:121-126 | the rows come out in the stable sorted order, distinct, as a permutation, and each banded for its new index |
| SortHandler.Reattach | totalscrobbles.user.js:121-129 | after the direction is known: the rows are detached; if the comparator throws they stay detached with their classes unchanged, otherwise they are re-appended in stable sorted order and banded for their new indices |
| SortHandler.SortHandler.constructor | totalscrobbles.user.js:114-116 | the handler holds the row container, its column and the page's one direction memory |
| SortHandler.SortHandler.Invoke | totalscrobbles.user.js:117-130 | one click: the memory advances as `sortOrder` does; the container then holds the same rows in stable order of key * direction, each banded for its new index, or, when the comparator throws, is left empty with no class changed |
| SortExamples.RowRankIsKeyRank | totalscrobbles.user.js:76-80 | a row's rank for the comparator is its key times the direction, so rows sort as their keys do |
| SortExamples.DurationColumnExample | totalscrobbles.user.js:117-130 | the keys 185, 120, 250 sort to 120, 185, 250 in the direction of a first click on duration |
| SortExamples.DurationCellsExample | totalscrobbles.user.js:61-64 | the duration cells "3:05", "2:00" and "4:10" read as the keys 185, 120 and 250, and those keys sort to 120, 185, 250 in the direction of a first click on duration |
| SortExamples.PlaysColumnExample | totalscrobbles.user.js:117-130 | the play-count keys 10, 50, 30 sort to 50, 30, 10 in the direction of the first click on plays and to 10, 30, 50 in that of the second |

## Left out

- The script's metadata block and header comment (lines 1-32) are not logic.
- The page bootstrap (lines 135-177) is DOM and network plumbing. It finds the chart table, inserts the hidden position spans, prepends a header row, loads play counts over the network and binds click handlers and cursor styles. Rows here carry their cell texts as fixed values.
- Line 147 refers to an undeclared `table`. That is part of the bootstrap and is not modelled.
- The CSS class names in the first slot of each `MODEL` entry only choose which header a handler is bound to. They are not modelled.
- jQuery's `find`, `text`, `detach`, `appendTo`, `addClass` and `removeClass` are modelled abstractly: reading a cell's text, reassigning the container's row sequence, and updating a row's class set.
- Keys are unbounded integers. JavaScript numbers lose precision on very long digit strings, and the model does not capture that.
- Array.prototype.sort's own algorithm and comparison order are not modelled. The sort is modelled by its result, which stability makes unique.
- SortHandler.SortHandler.Invoke: the model lets the comparator throw for every input with at least two rows and a row without a key. A correct sort must compare each of at least two elements once. Which pair the library compares first is not modelled, and neither is the partial order it may leave in its own buffer, because that buffer is never re-attached.
- SortHandler.SortHandler.Invoke: the rows' classes are modelled as a set. The order of class names in the `class` attribute is not modelled.
