/** The library sort the handler calls (`Array.prototype.sort` behind
    jQuery's `.sort`), which ECMAScript 2019 requires to be stable. With the
    handler's comparator, `compare(a, b) <= 0` exactly when the rank of `a`
    (its key times the direction) is at most that of `b`, so the sort is
    stated over that rank. */
module StableSort {

  predicate SortedBy<T>(s: seq<T>, rank: T -> int) {
    forall i, j :: 0 <= i < j < |s| ==> rank(s[i]) <= rank(s[j])
  }

  /** The elements of rank `v`, in their order in `s`: one band of ties. */
  function Ties<T>(s: seq<T>, rank: T -> int, v: int): (r: seq<T>)
    ensures |r| <= |s|
  {
    if s == [] then []
    else (if rank(s[0]) == v then [s[0]] else []) + Ties(s[1..], rank, v)
  }

  /** Insert `x` before the first element whose rank is not below its own. */
  function Insert<T>(x: T, s: seq<T>, rank: T -> int): (r: seq<T>)
    ensures multiset(r) == multiset(s) + multiset{x}
  {
    if s == [] || rank(x) <= rank(s[0]) then [x] + s
    else
      assert s == [s[0]] + s[1..];
      [s[0]] + Insert(x, s[1..], rank)
  }

  /** The sorted arrangement; equal ranks keep their order in `s`. */
  function Sort<T>(s: seq<T>, rank: T -> int): (r: seq<T>)
    ensures multiset(r) == multiset(s)
  {
    if s == [] then []
    else
      assert s == [s[0]] + s[1..];
      Insert(s[0], Sort(s[1..], rank), rank)
  }

  /** One step of Sort: the head is inserted into the sorted tail. */
  lemma SortCons<T>(x: T, s: seq<T>, rank: T -> int)
    ensures Sort([x] + s, rank) == Insert(x, Sort(s, rank), rank)
  {
    assert ([x] + s)[1..] == s;
  }

  lemma InsertBefore<T>(x: T, s: seq<T>, rank: T -> int)
    requires s == [] || rank(x) <= rank(s[0])
    ensures Insert(x, s, rank) == [x] + s
  {
  }

  lemma InsertAfter<T>(x: T, y: T, s: seq<T>, rank: T -> int)
    requires rank(y) < rank(x)
    ensures Insert(x, [y] + s, rank) == [y] + Insert(x, s, rank)
  {
    assert ([y] + s)[1..] == s;
  }

  /** In a sorted sequence the head's rank bounds every later rank from below. */
  lemma HeadBound<T>(s: seq<T>, rank: T -> int)
    requires SortedBy(s, rank) && s != []
    ensures forall y :: y in s[1..] ==> rank(s[0]) <= rank(y)
  {
    forall y | y in s[1..] ensures rank(s[0]) <= rank(y) {
      var j :| 0 <= j < |s[1..]| && s[1..][j] == y;
      assert s[j + 1] == y;
    }
  }

  lemma {:induction false} InsertSorted<T>(x: T, s: seq<T>, rank: T -> int)
    requires SortedBy(s, rank)
    ensures SortedBy(Insert(x, s, rank), rank)
  {
    if s != [] && rank(x) > rank(s[0]) {
      var t := s[1..];
      InsertSorted(x, t, rank);
      var r := Insert(x, t, rank);
      HeadBound(s, rank);
      forall k | 0 <= k < |r| ensures rank(s[0]) <= rank(r[k]) {
        assert r[k] in multiset(r);
        assert r[k] == x || r[k] in t;
      }
      assert Insert(x, s, rank) == [s[0]] + r;
    }
  }

  /** The result is ordered by rank: every comparison of an earlier row with a later one is <= 0. */
  lemma {:induction false} SortIsSorted<T>(s: seq<T>, rank: T -> int)
    ensures SortedBy(Sort(s, rank), rank)
  {
    if s != [] {
      SortIsSorted(s[1..], rank);
      InsertSorted(s[0], Sort(s[1..], rank), rank);
    }
  }

  lemma {:induction false} InsertTies<T>(x: T, s: seq<T>, rank: T -> int, v: int)
    ensures Ties(Insert(x, s, rank), rank, v)
            == (if rank(x) == v then [x] else []) + Ties(s, rank, v)
  {
    var hx := if rank(x) == v then [x] else [];
    if s == [] || rank(x) <= rank(s[0]) {
      assert ([x] + s)[1..] == s;
    } else {
      var rest := Insert(x, s[1..], rank);
      var h0 := if rank(s[0]) == v then [s[0]] else [];
      assert ([s[0]] + rest)[1..] == rest;
      InsertTies(x, s[1..], rank, v);
      assert Ties(Insert(x, s, rank), rank, v) == h0 + (hx + Ties(s[1..], rank, v));
      assert Ties(s, rank, v) == h0 + Ties(s[1..], rank, v);
      assert h0 == [] || hx == [];
    }
  }

  /** Stability: each band of equal ranks keeps its order. */
  lemma {:induction false} SortIsStable<T>(s: seq<T>, rank: T -> int, v: int)
    ensures Ties(Sort(s, rank), rank, v) == Ties(s, rank, v)
  {
    if s != [] {
      SortIsStable(s[1..], rank, v);
      InsertTies(s[0], Sort(s[1..], rank), rank, v);
    }
  }

  /** Sorting what is already sorted changes nothing: a re-sort by the same
      column and direction leaves the rows where they are. */
  lemma {:induction false} SortOfSorted<T>(s: seq<T>, rank: T -> int)
    requires SortedBy(s, rank)
    ensures Sort(s, rank) == s
  {
    if s != [] {
      assert SortedBy(s[1..], rank);
      SortOfSorted(s[1..], rank);
      assert s == [s[0]] + s[1..];
    }
  }

  lemma SortIdempotent<T>(s: seq<T>, rank: T -> int)
    ensures Sort(Sort(s, rank), rank) == Sort(s, rank)
  {
    SortIsSorted(s, rank);
    SortOfSorted(Sort(s, rank), rank);
  }

  lemma {:induction false} TiesMembers<T>(s: seq<T>, rank: T -> int, v: int)
    ensures forall x :: x in Ties(s, rank, v) <==> x in s && rank(x) == v
  {
    if s != [] {
      TiesMembers(s[1..], rank, v);
      assert s == [s[0]] + s[1..];
    }
  }

  lemma HeadTies<T>(s: seq<T>, rank: T -> int)
    ensures s != [] ==> Ties(s, rank, rank(s[0])) != []
  {
  }

  /** Two rank-sorted sequences with the same bands of ties are equal. */
  lemma {:induction false} SameTiesSame<T>(t: seq<T>, u: seq<T>, rank: T -> int)
    requires SortedBy(t, rank) && SortedBy(u, rank)
    requires forall v :: Ties(t, rank, v) == Ties(u, rank, v)
    ensures t == u
    decreases |t|
  {
    if t == [] || u == [] {
      HeadTies(t, rank);
      HeadTies(u, rank);
    } else {
      var a, b := rank(t[0]), rank(u[0]);
      TiesMembers(t, rank, b);
      TiesMembers(u, rank, a);
      assert t[0] in Ties(t, rank, a);
      assert u[0] in Ties(u, rank, b);
      assert a == b;
      assert t[0] == Ties(t, rank, a)[0] == Ties(u, rank, a)[0] == u[0];
      forall v ensures Ties(t[1..], rank, v) == Ties(u[1..], rank, v) {
        var h := if a == v then [t[0]] else [];
        assert Ties(t, rank, v) == h + Ties(t[1..], rank, v);
        assert Ties(u, rank, v) == h + Ties(u[1..], rank, v);
        assert Ties(t[1..], rank, v) == (h + Ties(t[1..], rank, v))[|h|..];
        assert Ties(u[1..], rank, v) == (h + Ties(u[1..], rank, v))[|h|..];
      }
      SameTiesSame(t[1..], u[1..], rank);
      assert t == [t[0]] + t[1..] && u == [u[0]] + u[1..];
    }
  }

  /** Any stable sort gives the same rows in the same order: an arrangement
      that is sorted by rank and keeps every band of ties in input order is Sort's. */
  lemma StableSortIsUnique<T>(s: seq<T>, t: seq<T>, rank: T -> int)
    requires SortedBy(t, rank)
    requires forall v :: Ties(t, rank, v) == Ties(s, rank, v)
    ensures t == Sort(s, rank)
  {
    SortIsSorted(s, rank);
    forall v ensures Ties(t, rank, v) == Ties(Sort(s, rank), rank, v) {
      SortIsStable(s, rank, v);
    }
    SameTiesSame(t, Sort(s, rank), rank);
  }
}
