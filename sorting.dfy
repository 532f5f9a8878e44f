/** The `orderBy` of a query: rows sorted by an integer key, as a stable insertion sort. */
module Sorting {
  import opened Query

  ghost predicate SortedBy<T>(s: seq<T>, key: T -> int) {
    forall i, j :: 0 <= i < j < |s| ==> key(s[i]) <= key(s[j])
  }

  /** The tail of a sorted sequence is sorted and bounded below by the head. */
  lemma SortedTail<T>(s: seq<T>, key: T -> int)
    requires |s| > 0 && SortedBy(s, key)
    ensures SortedBy(s[1..], key)
    ensures forall k :: 0 <= k < |s| - 1 ==> key(s[0]) <= key(s[1..][k])
  {
  }

  /** A lower bound of `x` and of every element of `tail` bounds every element of `rest`. */
  lemma BoundedByMembers<T>(lo: int, rest: seq<T>, x: T, tail: seq<T>, key: T -> int)
    requires multiset(rest) == multiset(tail) + multiset{x}
    requires lo <= key(x)
    requires forall k :: 0 <= k < |tail| ==> lo <= key(tail[k])
    ensures forall k :: 0 <= k < |rest| ==> lo <= key(rest[k])
  {
    forall k | 0 <= k < |rest| ensures lo <= key(rest[k]) {
      assert rest[k] in multiset(rest);
      if rest[k] != x {
        assert rest[k] in multiset(tail);
        var j :| 0 <= j < |tail| && tail[j] == rest[k];
      }
    }
  }

  /** A head no larger than any element of a sorted sequence keeps it sorted. */
  lemma ConsSorted<T>(h: T, rest: seq<T>, key: T -> int)
    requires SortedBy(rest, key)
    requires forall k :: 0 <= k < |rest| ==> key(h) <= key(rest[k])
    ensures SortedBy([h] + rest, key)
  {
    var r := [h] + rest;
    forall i, j | 0 <= i < j < |r| ensures key(r[i]) <= key(r[j]) {
      assert r[j] == rest[j - 1];
      if i > 0 { assert r[i] == rest[i - 1]; }
    }
  }

  function Insert<T>(x: T, s: seq<T>, key: T -> int): (r: seq<T>)
    requires SortedBy(s, key)
    ensures |r| == |s| + 1
    ensures SortedBy(r, key)
    ensures multiset(r) == multiset(s) + multiset{x}
  {
    if |s| == 0 then [x]
    else if key(x) <= key(s[0]) then
      ConsSorted(x, s, key);
      [x] + s
    else
      SortedTail(s, key);
      var rest := Insert(x, s[1..], key);
      BoundedByMembers(key(s[0]), rest, x, s[1..], key);
      ConsSorted(s[0], rest, key);
      assert s == [s[0]] + s[1..];
      [s[0]] + rest
  }

  /** `s` ordered by ascending `key`: a sorted permutation of `s`. */
  function SortBy<T>(s: seq<T>, key: T -> int): (r: seq<T>)
    ensures |r| == |s|
    ensures SortedBy(r, key)
    ensures multiset(r) == multiset(s)
  {
    if |s| == 0 then []
    else
      assert s == [s[0]] + s[1..];
      Insert(s[0], SortBy(s[1..], key), key)
  }

  /** Two sequences with the same multiset have the same members. */
  lemma SameMembers<T>(a: seq<T>, b: seq<T>)
    requires multiset(a) == multiset(b)
    ensures forall k :: 0 <= k < |a| ==> a[k] in b
    ensures forall k :: 0 <= k < |b| ==> b[k] in a
  {
    forall k | 0 <= k < |a| ensures a[k] in b { assert a[k] in multiset(a); }
    forall k | 0 <= k < |b| ensures b[k] in a { assert b[k] in multiset(b); }
  }

  /** `findMany` with `where` and `orderBy`: exactly the matching rows, ordered by ascending `key`. */
  function FindMany<T>(rows: seq<T>, p: T -> bool, key: T -> int): (r: seq<T>)
    ensures SortedBy(r, key)
    ensures forall k :: 0 <= k < |r| ==> r[k] in rows && p(r[k])
    ensures forall j :: 0 <= j < |rows| && p(rows[j]) ==> rows[j] in r
    ensures multiset(r) == multiset(Filter(rows, p))
    ensures |r| == Count(rows, p)
  {
    var matching := Filter(rows, p);
    var r := SortBy(matching, key);
    SameMembers(r, matching);
    r
  }

  /**
   * Prisma `skip`/`take`: drop the first `skip` rows, then keep at most `take`.  The page is
   * short only when the rows run out.
   */
  function Page<T>(rows: seq<T>, skip: nat, take: nat): (r: seq<T>)
    ensures |r| <= take
    ensures forall k :: 0 <= k < |r| ==> skip + k < |rows| && r[k] == rows[skip + k]
    ensures |r| == take || skip + |r| >= |rows|
  {
    var lo := if skip < |rows| then skip else |rows|;
    var hi := if lo + take < |rows| then lo + take else |rows|;
    rows[lo..hi]
  }
}
