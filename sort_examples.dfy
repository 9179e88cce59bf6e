/** Worked examples of the engine: the sort keys of a few rows, sorted in
    the direction the memory hands out on successive clicks. */
module SortExamples {
  import opened Columns
  import opened SortOrder
  import opened StableSort
  import opened TextKeys
  import Rows

  /** Sorting keys directly: the rank of a key is the key times the direction. */
  function KeyRank(order: int): int -> int {
    k => k * order
  }

  /** A row's rank is the rank of its key, so the rows of a column sort as
      their keys do. */
  lemma RowRankIsKeyRank(column: Column, order: int, row: Rows.Row)
    ensures Rank(column, order)(row) == KeyRank(order)(Key(column, row))
  {
  }

  /** The keys 185, 120 and 250, sorted by a first click on the duration
      column, come out smallest first. */
  lemma DurationColumnExample(keys: seq<int>)
    requires keys == [185, 120, 250]
    ensures Sort(keys, KeyRank(NextOrder(Initial(), Duration))) == [120, 185, 250]
  {
    FirstSortDirections();
    var up := KeyRank(ASCENDING);
    SortCons(250, [], up);
    InsertBefore(250, [], up);
    SortCons(120, [250], up);
    InsertBefore(120, [250], up);
    SortCons(185, [120, 250], up);
    InsertAfter(185, 120, [250], up);
    InsertBefore(185, [250], up);
    assert keys == [185] + [120, 250];
  }

  /** Rows whose duration cells read "3:05", "2:00" and "4:10" have the keys
      185, 120 and 250, and a first click on the duration column puts them
      in the order 2:00, 3:05, 4:10. */
  lemma DurationCellsExample(first: string, second: string, third: string)
    requires first == "3:05" && second == "2:00" && third == "4:10"
    ensures DurationValue(first) == Some(185)
    ensures DurationValue(second) == Some(120)
    ensures DurationValue(third) == Some(250)
    ensures Sort([DurationValue(first).value, DurationValue(second).value, DurationValue(third).value],
                 KeyRank(NextOrder(Initial(), Duration))) == [120, 185, 250]
  {
    DurationExample();
    DurationExampleTwoMinutes();
    DurationExampleFourTen();
    DurationColumnExample([185, 120, 250]);
  }

  lemma PlaysDescending(keys: seq<int>)
    requires keys == [10, 50, 30]
    ensures Sort(keys, KeyRank(DESCENDING)) == [50, 30, 10]
  {
    var down := KeyRank(DESCENDING);
    SortCons(30, [], down);
    InsertBefore(30, [], down);
    SortCons(50, [30], down);
    InsertBefore(50, [30], down);
    SortCons(10, [50, 30], down);
    InsertAfter(10, 50, [30], down);
    InsertAfter(10, 30, [], down);
    InsertBefore(10, [], down);
    assert keys == [10] + [50, 30];
  }

  lemma PlaysAscending(keys: seq<int>)
    requires keys == [10, 50, 30]
    ensures Sort(keys, KeyRank(ASCENDING)) == [10, 30, 50]
  {
    var up := KeyRank(ASCENDING);
    SortCons(30, [], up);
    InsertBefore(30, [], up);
    SortCons(50, [30], up);
    InsertAfter(50, 30, [], up);
    InsertBefore(50, [], up);
    SortCons(10, [30, 50], up);
    InsertBefore(10, [30, 50], up);
    assert keys == [10] + [50, 30];
  }

  /** Play counts 10, 50, 30: the first click on plays sorts them most
      played first, and a second click reverses that. */
  lemma PlaysColumnExample(keys: seq<int>)
    requires keys == [10, 50, 30]
    ensures var first := NextOrder(Initial(), Plays);
            var second := NextOrder(NextState(Initial(), Plays), Plays);
            Sort(keys, KeyRank(first)) == [50, 30, 10] &&
            Sort(keys, KeyRank(second)) == [10, 30, 50]
  {
    FirstSortDirections();
    ToggleLaw(Initial(), Plays);
    PlaysDescending(keys);
    PlaysAscending(keys);
  }
}
