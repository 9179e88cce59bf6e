/** The column table (`MODEL`): for each sortable column, the extractor
    that reads a row's sort key and the direction of its first sort; and the
    comparator built from an extractor and a direction (`makeCompare`). */
module Columns {
  import opened TextKeys
  import opened Rows
  import StableSort

  datatype Column = Track | Duration | Listeners | Plays

  const ASCENDING: int := 1
  const DESCENDING: int := -1

  /** The column Last.fm has already sorted the table by. */
  const INITIAL_SORTED_COLUMN: Column := Track

  predicate IsDirection(order: int) {
    order == ASCENDING || order == DESCENDING
  }

  /** `MODEL[column][2]`: track and duration start ascending, the two counts descending. */
  function InitialOrder(column: Column): (order: int)
    ensures IsDirection(order)
    ensures order == ASCENDING <==> column == Track || column == Duration
  {
    match column
    case Track => ASCENDING
    case Duration => ASCENDING
    case Listeners => DESCENDING
    case Plays => DESCENDING
  }

  // --------------------------- extractors ------------------------------

  /** `extract_track`: the digits of the hidden position span. */
  function ExtractTrack(row: Row): (key: nat)
    ensures NoDigits(row.positionCell) ==> key == 0
  {
    CountValue(row.positionCell)
  }

  /** `extract_duration`: minutes * 60 + seconds of the first `m:ss`;
      None where the match is `null` and the extractor throws. */
  function ExtractDuration(row: Row): (key: Option<nat>)
    ensures key.None? <==> FirstTimeColon(row.durationCell, 0).None?
  {
    DurationValue(row.durationCell)
  }

  /** `extract_listeners`: the digits of the reach cell. */
  function ExtractListeners(row: Row): (key: nat)
    ensures NoDigits(row.reachCell) ==> key == 0
  {
    CountValue(row.reachCell)
  }

  /** `extract_plays`: the digits of the play-count cell. */
  function ExtractPlays(row: Row): (key: nat)
    ensures NoDigits(row.playCount) ==> key == 0
  {
    CountValue(row.playCount)
  }

  /** `MODEL[column][1](row)`; None where the extractor throws, which only
      the duration extractor can do. */
  function Extract(column: Column, row: Row): (key: Option<nat>)
    ensures key.None? ==> column == Duration
  {
    match column
    case Track => Some(ExtractTrack(row))
    case Duration => ExtractDuration(row)
    case Listeners => Some(ExtractListeners(row))
    case Plays => Some(ExtractPlays(row))
  }

  /** Every row has a key for the column, so comparing any two of them succeeds. */
  predicate Extractable(column: Column, rows: seq<Row>) {
    forall row :: row in rows ==> Extract(column, row).Some?
  }

  /** The key as a total function, for the comparator. The 0 is never
      compared: the sort compares rows only when there are at least two, and
      the handler sorts at least two rows only when all of them are Extractable. */
  function Key(column: Column, row: Row): (key: int)
    ensures Extract(column, row).Some? ==> key == Extract(column, row).value
  {
    match Extract(column, row)
    case Some(k) => k
    case None => 0
  }

  // ------------------------------ makeCompare -------------------------------

  /** `makeCompare(extractor, order)(a, b)`: ascending puts the smaller key
      first, descending the larger, and only ties compare equal. */
  function Compare<T>(extractor: T -> int, order: int, a: T, b: T): (c: int)
    ensures order == ASCENDING ==> (c < 0 <==> extractor(a) < extractor(b))
    ensures order == DESCENDING ==> (c < 0 <==> extractor(a) > extractor(b))
    ensures IsDirection(order) ==> (c == 0 <==> extractor(a) == extractor(b))
  {
    (extractor(a) - extractor(b)) * order
  }

  /** The comparator says "equal" exactly on ties of the key. */
  lemma CompareZeroOnTies<T>(extractor: T -> int, order: int, a: T, b: T)
    requires IsDirection(order)
    ensures Compare(extractor, order, a, b) == 0 <==> extractor(a) == extractor(b)
  {
  }

  lemma CompareAntisymmetric<T>(extractor: T -> int, order: int, a: T, b: T)
    ensures Compare(extractor, order, a, b) == -Compare(extractor, order, b, a)
  {
  }

  /** Descending order is the ascending comparator with its arguments swapped. */
  lemma DescendingReversesAscending<T>(extractor: T -> int, a: T, b: T)
    ensures Compare(extractor, DESCENDING, a, b) == Compare(extractor, ASCENDING, b, a)
  {
  }

  /** The rank the sort orders rows by for a column and direction: key times direction. */
  function Rank(column: Column, order: int): Row -> int {
    (row: Row) => Key(column, row) * order
  }

  lemma MultiplicationDistributes(x: int, y: int, order: int)
    ensures (x - y) * order == x * order - y * order
  {
  }

  /** The comparator is the difference of ranks, so it puts `a` first or
      level exactly when `a`'s rank is not above `b`'s. */
  lemma CompareIsRankDifference(column: Column, order: int, a: Row, b: Row)
    ensures Compare((row: Row) => Key(column, row), order, a, b) == Rank(column, order)(a) - Rank(column, order)(b)
  {
    MultiplicationDistributes(Key(column, a), Key(column, b), order);
  }

  /** Sorted by rank means every earlier row compares `<= 0` against every later one. */
  lemma SortedMeansCompareNonPositive(column: Column, order: int, rows: seq<Row>)
    ensures StableSort.SortedBy(rows, Rank(column, order)) <==>
            forall i, j :: 0 <= i < j < |rows| ==> Compare((row: Row) => Key(column, row), order, rows[i], rows[j]) <= 0
  {
    forall i, j | 0 <= i < j < |rows| {
      CompareIsRankDifference(column, order, rows[i], rows[j]);
    }
  }
}
