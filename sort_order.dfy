/** `sortOrder`: the per-column memory of sort directions. The first sort
    by a column uses the column's initial direction, sorting again by the
    same column flips it, and coming back to a column after sorting by
    another restores the direction it had. */
module SortOrder {
  import opened Columns

  /** The closure's two variables: `memo` and `lastColumn`. */
  datatype MemoState = MemoState(memo: map<Column, int>, lastColumn: Column)

  /** Every recorded direction is +1 or -1, and the last column acted on has one. */
  predicate ValidMemo(s: MemoState) {
    && s.lastColumn in s.memo
    && forall c :: c in s.memo ==> IsDirection(s.memo[c])
  }

  /** The state the page starts in: `track` recorded as if already clicked. */
  function Initial(): (s: MemoState)
    ensures ValidMemo(s)
    ensures s.memo.Keys == {INITIAL_SORTED_COLUMN} && s.lastColumn == INITIAL_SORTED_COLUMN
  {
    MemoState(map[INITIAL_SORTED_COLUMN := InitialOrder(INITIAL_SORTED_COLUMN)], INITIAL_SORTED_COLUMN)
  }

  /** The direction `sortOrder(column)` returns. */
  function NextOrder(s: MemoState, column: Column): (order: int)
    requires ValidMemo(s)
    ensures IsDirection(order)
  {
    if column !in s.memo then InitialOrder(column)
    else if column == s.lastColumn then -s.memo[column]
    else s.memo[column]
  }

  /** The state after `sortOrder(column)`: the direction is recorded and the column becomes the last one. */
  function NextState(s: MemoState, column: Column): (t: MemoState)
    requires ValidMemo(s)
    ensures ValidMemo(t)
    ensures t.lastColumn == column && t.memo[column] == NextOrder(s, column)
    ensures t.memo.Keys == s.memo.Keys + {column}
    ensures forall c :: c in s.memo && c != column ==> t.memo[c] == s.memo[c]
  {
    MemoState(s.memo[column := NextOrder(s, column)], column)
  }

  /** The state after a sequence of clicks. */
  function Replay(s: MemoState, clicks: seq<Column>): (t: MemoState)
    requires ValidMemo(s)
    ensures ValidMemo(t)
    ensures clicks != [] ==> t.lastColumn == clicks[|clicks| - 1]
    ensures clicks == [] ==> t == s
    decreases |clicks|
  {
    if clicks == [] then s
    else Replay(NextState(s, clicks[0]), clicks[1..])
  }

  // ---------------------------------------------------------------------
  // The laws of the direction memory

  /** The first sort by a column not yet recorded uses its initial direction. */
  lemma FirstSortUsesInitialOrder(s: MemoState, column: Column)
    requires ValidMemo(s) && column !in s.memo
    ensures NextOrder(s, column) == InitialOrder(column)
    ensures NextState(s, column).memo[column] == InitialOrder(column)
  {
  }

  /** Plays and listeners start descending, duration ascending. */
  lemma FirstSortDirections()
    ensures NextOrder(Initial(), Plays) == DESCENDING
    ensures NextOrder(Initial(), Listeners) == DESCENDING
    ensures NextOrder(Initial(), Duration) == ASCENDING
  {
  }

  /** Track is seeded as already sorted ascending, so its first click descends. */
  lemma FirstTrackSortDescends()
    ensures NextOrder(Initial(), Track) == DESCENDING
  {
  }

  /** Toggle law: two sorts in a row by the same column go opposite ways. */
  lemma ToggleLaw(s: MemoState, column: Column)
    requires ValidMemo(s)
    ensures NextOrder(NextState(s, column), column) == -NextOrder(s, column)
  {
  }

  /** Restore law: a column sorted, then another, then the first again, gets the same direction as the first time. */
  lemma RestoreLaw(s: MemoState, c1: Column, c2: Column)
    requires ValidMemo(s) && c1 != c2
    ensures NextOrder(NextState(NextState(s, c1), c2), c1) == NextOrder(s, c1)
  {
  }

  /** Clicks on other columns leave a column's recorded direction alone. */
  lemma {:induction false} OtherClicksKeep(s: MemoState, clicks: seq<Column>, column: Column)
    requires ValidMemo(s) && column in s.memo && column !in clicks
    ensures column in Replay(s, clicks).memo
    ensures Replay(s, clicks).memo[column] == s.memo[column]
    decreases |clicks|
  {
    if clicks != [] {
      assert column != clicks[0];
      assert column !in clicks[1..];
      OtherClicksKeep(NextState(s, clicks[0]), clicks[1..], column);
    }
  }

  /** The restore law across any number of sorts by other columns: coming
      back to a column returns the direction it was last sorted in. */
  lemma RestoreAfterOtherClicks(s: MemoState, column: Column, others: seq<Column>)
    requires ValidMemo(s) && others != [] && column !in others
    ensures NextOrder(Replay(NextState(s, column), others), column) == NextOrder(s, column)
  {
    OtherClicksKeep(NextState(s, column), others, column);
  }

  // ---------------------------------------------------------------------
  // The closure itself

  class SortOrderMemory {
    var memo: map<Column, int>
    var lastColumn: Column

    ghost function State(): MemoState
      reads this
    {
      MemoState(memo, lastColumn)
    }

    ghost predicate Valid()
      reads this
    {
      ValidMemo(State())
    }

    /** The memory as the page starts it: the initially sorted column
        recorded at its initial direction and counted as the last one clicked. */
    constructor ()
      ensures Valid() && State() == Initial()
    {
      lastColumn := INITIAL_SORTED_COLUMN;
      memo := map[INITIAL_SORTED_COLUMN := InitialOrder(INITIAL_SORTED_COLUMN)];
    }

    /** `sortOrder(column)`. The test `!memo[column]` is JavaScript's: true
        for a missing entry and for 0; since every entry is +1 or -1, it
        detects exactly the missing ones. */
    method Next(column: Column) returns (order: int)
      requires Valid()
      modifies this
      ensures Valid()
      ensures order == NextOrder(old(State()), column)
      ensures State() == NextState(old(State()), column)
    {
      if column !in memo || memo[column] == 0 {   // initialise
        memo := memo[column := InitialOrder(column)];
      } else if column == lastColumn {            // toggle
        memo := memo[column := memo[column] * -1];
      }                                           // else restore
      lastColumn := column;
      order := memo[column];
    }
  }
}
