/**
 * The database client's query forms over a table held as a sequence of rows in insertion order:
 * `findFirst`/`findUnique` (the first row that matches), `findMany` (every row that matches, in
 * table order) and `count`.
 */
module Query {
  import opened Wrappers

  /** Index of the first row satisfying `p`. */
  function FindFirst<T>(rows: seq<T>, p: T -> bool): (r: Option<nat>)
    ensures r.Some? ==> r.value < |rows| && p(rows[r.value])
    ensures r.Some? ==> forall j :: 0 <= j < r.value ==> !p(rows[j])
    ensures r.None? <==> forall j :: 0 <= j < |rows| ==> !p(rows[j])
  {
    if |rows| == 0 then None
    else if p(rows[0]) then Some(0)
    else match FindFirst(rows[1..], p)
      case None => None
      case Some(k) => Some(k + 1)
  }

  /** Every row satisfying `p`, in table order. */
  function Filter<T>(rows: seq<T>, p: T -> bool): (r: seq<T>)
    ensures |r| <= |rows|
    ensures forall k :: 0 <= k < |r| ==> r[k] in rows && p(r[k])
    ensures forall j :: 0 <= j < |rows| && p(rows[j]) ==> rows[j] in r
  {
    if |rows| == 0 then []
    else (if p(rows[0]) then [rows[0]] else []) + Filter(rows[1..], p)
  }

  /** The number of rows satisfying `p`. */
  function Count<T>(rows: seq<T>, p: T -> bool): nat {
    |Filter(rows, p)|
  }

  lemma {:induction false} CountZero<T>(rows: seq<T>, p: T -> bool)
    ensures Count(rows, p) == 0 <==> forall j :: 0 <= j < |rows| ==> !p(rows[j])
  {
    if Count(rows, p) == 0 {
      forall j | 0 <= j < |rows| ensures !p(rows[j]) {
        assert rows[j] in rows;
      }
    } else {
      var x := Filter(rows, p)[0];
      assert x in Filter(rows, p);
      var j :| 0 <= j < |rows| && rows[j] == x;
    }
  }

  /** Rows whose key strictly increases along the table (an autoincrement id). */
  ghost predicate Increasing<T>(rows: seq<T>, key: T -> int) {
    forall i, j :: 0 <= i < j < |rows| ==> key(rows[i]) < key(rows[j])
  }

  lemma {:induction false} FilterKeepsIncreasing<T>(rows: seq<T>, p: T -> bool, key: T -> int)
    requires Increasing(rows, key)
    ensures Increasing(Filter(rows, p), key)
  {
    if |rows| > 0 {
      FilterKeepsIncreasing(rows[1..], p, key);
      var tail := Filter(rows[1..], p);
      forall k | 0 <= k < |tail| ensures key(rows[0]) < key(tail[k]) {
        assert tail[k] in rows[1..];
      }
    }
  }

  /** An increasing key is a unique key: no other row shares row `i`'s key. */
  lemma KeyUnique<T>(rows: seq<T>, key: T -> int, i: int)
    requires Increasing(rows, key) && 0 <= i < |rows|
    ensures forall j :: 0 <= j < |rows| && j != i ==> key(rows[j]) != key(rows[i])
  {
    forall j | 0 <= j < |rows| && j != i ensures key(rows[j]) != key(rows[i]) {
      if j < i { assert key(rows[j]) < key(rows[i]); } else { assert key(rows[i]) < key(rows[j]); }
    }
  }

  lemma {:induction false} FilterAppend<T>(a: seq<T>, b: seq<T>, p: T -> bool)
    ensures Filter(a + b, p) == Filter(a, p) + Filter(b, p)
  {
    if |a| > 0 {
      assert (a + b)[1..] == a[1..] + b;
      FilterAppend(a[1..], b, p);
    } else {
      assert a + b == b;
    }
  }

  /** A filter every row passes keeps the table as it is. */
  lemma {:induction false} FilterAll<T>(rows: seq<T>, p: T -> bool)
    requires forall j :: 0 <= j < |rows| ==> p(rows[j])
    ensures Filter(rows, p) == rows
  {
    if |rows| > 0 {
      FilterAll(rows[1..], p);
    }
  }
}
