/** The table's rows (TR elements) and the body that holds them (TBODY). */
module Rows {

  /** A row element. Its identity is the object's: sorting moves rows, it
      never copies them. The cells are read through the text of the
      sub-element each extractor looks for; a row without that cell reads
      as the empty string, as jQuery's `.text()` does on an empty match. */
  class Row {
    /** Text of the hidden `.positionCell` span holding the row's original rank. */
    const positionCell: string
    /** Text of `.durationCell`, such as "3:05". */
    const durationCell: string
    /** Text of `.reachCell`, such as "1,234 listeners". */
    const reachCell: string
    /** Text of `.playCount`. */
    const playCount: string
    /** The row's CSS classes; the sort rewrites `odd`, `first` and `last`. */
    var classes: set<string>

    constructor (positionCell: string, durationCell: string, reachCell: string,
                 playCount: string, classes: set<string>)
      ensures this.positionCell == positionCell && this.durationCell == durationCell
      ensures this.reachCell == reachCell && this.playCount == playCount
      ensures this.classes == classes
    {
      this.positionCell := positionCell;
      this.durationCell := durationCell;
      this.reachCell := reachCell;
      this.playCount := playCount;
      this.classes := classes;
    }
  }

  /** No row occurs twice: an element has one place in the document. */
  predicate Distinct<T(==)>(s: seq<T>) {
    forall i, j :: 0 <= i < j < |s| ==> s[i] != s[j]
  }

  lemma {:induction false} DistinctHasSingleCopies<T>(s: seq<T>)
    ensures Distinct(s) <==> forall x :: multiset(s)[x] <= 1
  {
    if s != [] {
      DistinctHasSingleCopies(s[1..]);
      DistinctCons(s);
      SingleCopiesCons(s);
    }
  }

  lemma DistinctCons<T>(s: seq<T>)
    requires s != []
    ensures Distinct(s) <==> s[0] !in s[1..] && Distinct(s[1..])
  {
    var t := s[1..];
    if Distinct(s) {
      assert forall i, j :: 0 <= i < j < |t| ==> t[i] == s[i + 1] && t[j] == s[j + 1];
    }
    if s[0] !in t && Distinct(t) {
      forall i, j | 0 <= i < j < |s| ensures s[i] != s[j] {
        assert s[j] == t[j - 1];
        if i > 0 { assert s[i] == t[i - 1]; }
      }
    }
  }

  lemma SingleCopiesCons<T>(s: seq<T>)
    requires s != []
    ensures (forall x :: multiset(s)[x] <= 1) <==>
            s[0] !in s[1..] && forall x :: multiset(s[1..])[x] <= 1
  {
    var t := s[1..];
    assert s == [s[0]] + t;
    assert multiset(s) == multiset{s[0]} + multiset(t);
    assert s[0] in t <==> multiset(t)[s[0]] > 0;
    forall x ensures multiset(s)[x] == (if x == s[0] then 1 else 0) + multiset(t)[x] {
    }
  }

  /** Reordering keeps rows distinct. */
  lemma DistinctPermutation<T>(a: seq<T>, b: seq<T>)
    requires Distinct(a) && multiset(a) == multiset(b)
    ensures Distinct(b)
  {
    DistinctHasSingleCopies(a);
    DistinctHasSingleCopies(b);
  }

  /** The TBODY: its row children, in document order. */
  class Container {
    var rows: seq<Row>

    ghost predicate Valid()
      reads this
    {
      Distinct(rows)
    }

    constructor (rows: seq<Row>)
      requires Distinct(rows)
      ensures Valid() && this.rows == rows
    {
      this.rows := rows;
    }
  }
}
