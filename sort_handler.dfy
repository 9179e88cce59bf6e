/** The click handler `makeSortBy` builds for a column, and the striping
    pass it runs over the sorted rows. */
module SortHandler {
  import opened Rows
  import opened Columns
  import opened SortOrder
  import StableSort

  // ------------------------------ striping ------------------------------

  const FIRST: string := "first"
  const LAST: string := "last"
  const ODD: string := "odd"

  /** The banding classes the handler owns; every other class is left alone. */
  const BANDING: set<string> := {FIRST, LAST, ODD}

  /** `stripe(i, row)`: drop the three banding classes, then mark the row
      `odd` when its 1-based position is odd, that is when `i` is even. */
  function Stripe(i: nat, classes: set<string>): (r: set<string>)
    ensures ODD in r <==> i % 2 == 0
    ensures FIRST !in r && LAST !in r
    ensures forall c :: c !in BANDING ==> (c in r <==> c in classes)
  {
    var cleared := classes - BANDING;
    if (i + 1) % 2 != 0 then cleared + {ODD} else cleared
  }

  /** The classes of the row at index `i` of `n` once the handler has striped
      the rows and marked the first and the last. */
  function Banded(i: nat, n: nat, classes: set<string>): (r: set<string>)
    requires i < n
    ensures ODD in r <==> i % 2 == 0
    ensures FIRST in r <==> i == 0
    ensures LAST in r <==> i == n - 1
    ensures forall c :: c !in BANDING ==> (c in r <==> c in classes)
  {
    var striped := Stripe(i, classes);
    var marked := if i == 0 then striped + {FIRST} else striped;
    if i == n - 1 then marked + {LAST} else marked
  }

  /** How many rows carry class `c`. */
  function CountWith(bands: seq<set<string>>, c: string): (k: nat)
    ensures k <= |bands|
  {
    if bands == [] then 0
    else CountWith(bands[..|bands| - 1], c) + (if c in bands[|bands| - 1] then 1 else 0)
  }

  /** Banding rows by even index marks ceil(n/2) of them `odd`. */
  lemma {:induction false} OddBandCount(bands: seq<set<string>>)
    requires forall i :: 0 <= i < |bands| ==> (ODD in bands[i] <==> i % 2 == 0)
    ensures CountWith(bands, ODD) == (|bands| + 1) / 2
  {
    if bands != [] {
      var front := bands[..|bands| - 1];
      assert forall i :: 0 <= i < |front| ==> front[i] == bands[i];
      OddBandCount(front);
    }
  }

  /** After the handler, ceil(n/2) rows are `odd`, and exactly one row each is `first` and `last`. */
  lemma BandedCounts(classes: seq<set<string>>)
    ensures var n := |classes|;
            var bands := seq(n, i requires 0 <= i < n => Banded(i, n, classes[i]));
            CountWith(bands, ODD) == (n + 1) / 2 &&
            CountWith(bands, FIRST) == (if n == 0 then 0 else 1) &&
            CountWith(bands, LAST) == (if n == 0 then 0 else 1)
  {
    var n := |classes|;
    var bands := seq(n, i requires 0 <= i < n => Banded(i, n, classes[i]));
    OddBandCount(bands);
    if n > 0 {
      OnlyAtCount(bands, FIRST, 0);
      OnlyAtCount(bands, LAST, n - 1);
    }
  }

  /** A class carried by exactly one row is counted once. */
  lemma {:induction false} OnlyAtCount(bands: seq<set<string>>, c: string, j: nat)
    requires j < |bands|
    requires forall i :: 0 <= i < |bands| ==> (c in bands[i] <==> i == j)
    ensures CountWith(bands, c) == 1
  {
    var front := bands[..|bands| - 1];
    assert forall i :: 0 <= i < |front| ==> front[i] == bands[i];
    if j < |bands| - 1 {
      OnlyAtCount(front, c, j);
    } else {
      NoneCount(front, c);
    }
  }

  lemma {:induction false} NoneCount(bands: seq<set<string>>, c: string)
    requires forall i :: 0 <= i < |bands| ==> c !in bands[i]
    ensures CountWith(bands, c) == 0
  {
    if bands != [] {
      var front := bands[..|bands| - 1];
      assert forall i :: 0 <= i < |front| ==> front[i] == bands[i];
      NoneCount(front, c);
    }
  }

  /** The striping pass over the rows in their new order: `stripe` on each
      row by index, then `first` on the first row and `last` on the last. */
  method Restripe(rows: seq<Row>)
    requires Distinct(rows)
    modifies rows
    ensures forall k :: 0 <= k < |rows| ==> rows[k].classes == Banded(k, |rows|, old(rows[k].classes))
  {
    var n := |rows|;
    for i := 0 to n
      invariant forall k :: 0 <= k < i ==> rows[k].classes == Stripe(k, old(rows[k].classes))
      invariant forall k :: i <= k < n ==> rows[k].classes == old(rows[k].classes)
    {
      rows[i].classes := Stripe(i, rows[i].classes);
    }
    if n > 0 {
      rows[0].classes := rows[0].classes + {FIRST};
      rows[n - 1].classes := rows[n - 1].classes + {LAST};
    }
  }

  /** Every row of `sorted` comes from `rows`, and its classes are those it
      had before, banded for its index in `sorted`. */
  twostate predicate Rebanded(rows: seq<Row>, sorted: seq<Row>)
    reads rows
  {
    forall k :: 0 <= k < |sorted| ==>
      var r := sorted[k];
      r in rows && r.classes == Banded(k, |sorted|, old(r.classes))
  }

  /** `.sort(compare)` followed by the striping pass: the rows in stable
      sorted order, each banded by its new index. */
  method SortAndStripe(rows: seq<Row>, rank: Row -> int) returns (sorted: seq<Row>)
    requires Distinct(rows)
    modifies rows
    ensures sorted == StableSort.Sort(rows, rank)
    ensures Distinct(sorted) && multiset(sorted) == multiset(rows)
    ensures StableSort.SortedBy(sorted, rank)
    ensures forall v :: StableSort.Ties(sorted, rank, v) == StableSort.Ties(rows, rank, v)
    ensures Rebanded(rows, sorted)
  {
    sorted := StableSort.Sort(rows, rank);
    DistinctPermutation(rows, sorted);
    StableSort.SortIsSorted(rows, rank);
    forall v ensures StableSort.Ties(sorted, rank, v) == StableSort.Ties(rows, rank, v) {
      StableSort.SortIsStable(rows, rank, v);
    }
    assert forall k :: 0 <= k < |sorted| ==> sorted[k] in multiset(rows);
    Restripe(sorted);
  }

  /** What the handler does once it has its direction: detach the rows,
      sort them with the comparator, stripe them and append them again. The
      comparator throws when it meets a row without a key, which leaves the
      rows detached. */
  method Reattach(container: Container, column: Column, order: int) returns (ok: bool)
    requires container.Valid()
    modifies container, container.rows
    ensures container.Valid()
    ensures ok <==> |old(container.rows)| < 2 || Extractable(column, old(container.rows))
    ensures !ok ==> container.rows == []
    ensures !ok ==> forall r :: r in old(container.rows) ==> r.classes == old(r.classes)
    ensures ok ==> container.rows == StableSort.Sort(old(container.rows), Rank(column, order))
    ensures ok ==> Rebanded(old(container.rows), container.rows)
  {
    var rows := container.rows;
    container.rows := [];
    if |rows| >= 2 && !Extractable(column, rows) {
      return false;
    }
    var sorted := SortAndStripe(rows, Rank(column, order));
    container.rows := sorted;
    return true;
  }

  // ------------------------------ makeSortBy ------------------------------

  /** The handler `makeSortBy` returns: it holds the row container and the
      column, and shares the page's one direction memory. */
  class SortHandler {
    const container: Container
    const column: Column
    const memory: SortOrderMemory

    constructor (container: Container, column: Column, memory: SortOrderMemory)
      ensures this.container == container && this.column == column && this.memory == memory
    {
      this.container := container;
      this.column := column;
      this.memory := memory;
    }

    /** One click on the column's header. The direction memory moves on
        first; the rows are then detached and sorted. When two or more rows
        are sorted and one of them has no key (a duration cell without
        `m:ss`) the comparator throws: the rows stay detached and nothing
        is striped. Otherwise the rows are re-appended in stable sorted order
        and banded afresh. */
    method Invoke() returns (ok: bool)
      requires container.Valid() && memory.Valid()
      modifies container, memory, container.rows
      ensures container.Valid() && memory.Valid()
      ensures memory.State() == NextState(old(memory.State()), column)
      ensures ok <==> |old(container.rows)| < 2 || Extractable(column, old(container.rows))
      ensures !ok ==> container.rows == []
      ensures !ok ==> forall r :: r in old(container.rows) ==> r.classes == old(r.classes)
      ensures ok ==> container.rows == StableSort.Sort(old(container.rows), Rank(column, NextOrder(old(memory.State()), column)))
      ensures ok ==> Rebanded(old(container.rows), container.rows)
    {
      var order := memory.Next(column);
      ok := Reattach(container, column, order);
    }
  }
}
