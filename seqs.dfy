/**
 * Filters, orderings and keyed rows: what the repositories' queries are built from.
 * A table is a sequence of rows in storage order; `key` projects a row onto its id.
 */
module Seqs {
  import opened Common

  /** A stream `filter`: the rows satisfying `p`, in their original order. */
  function Select<T(!new)>(s: seq<T>, p: T -> bool): (r: seq<T>)
    ensures |r| <= |s|
    ensures forall x :: multiset(r)[x] == if p(x) then multiset(s)[x] else 0
    ensures forall x :: x in r <==> x in s && p(x)
  {
    if s == [] then []
    else
      var rest := Select(s[1..], p);
      assert s == [s[0]] + s[1..];
      if p(s[0]) then [s[0]] + rest else rest
  }

  /** `s` is ordered by `key`, largest first (an SQL `order by key desc`). */
  ghost predicate SortedDesc<T>(s: seq<T>, key: T -> int) {
    forall i, j :: 0 <= i < j < |s| ==> key(s[i]) >= key(s[j])
  }

  /** `s` is ordered by `key`, smallest first. */
  ghost predicate SortedAsc<T>(s: seq<T>, key: T -> int) {
    forall i, j :: 0 <= i < j < |s| ==> key(s[i]) <= key(s[j])
  }

  /** Places `x` into the descending sequence `s`, after every element whose key is not smaller. */
  function InsertDesc<T>(x: T, s: seq<T>, key: T -> int): (r: seq<T>)
    ensures multiset(r) == multiset(s) + multiset{x}
  {
    if s == [] then [x]
    else if key(s[0]) < key(x) then
      assert s == [s[0]] + s[1..];
      [x] + s
    else
      assert s == [s[0]] + s[1..];
      [s[0]] + InsertDesc(x, s[1..], key)
  }

  /** Every element of `InsertDesc(x, s, key)` is `x` or an element of `s`. */
  lemma InsertDescElements<T>(x: T, s: seq<T>, key: T -> int, y: T)
    requires y in InsertDesc(x, s, key)
    ensures y == x || y in s
  {
    assert multiset(InsertDesc(x, s, key))[y] > 0;
  }

  /** Insertion keeps a descending sequence descending. */
  lemma {:induction false} InsertDescSorted<T>(x: T, s: seq<T>, key: T -> int)
    requires SortedDesc(s, key)
    ensures SortedDesc(InsertDesc(x, s, key), key)
  {
    if s != [] && key(s[0]) >= key(x) {
      var rest := InsertDesc(x, s[1..], key);
      InsertDescSorted(x, s[1..], key);
      forall j | 0 <= j < |rest| ensures key(s[0]) >= key(rest[j]) {
        InsertDescElements(x, s[1..], key, rest[j]);
      }
    }
  }

  /** An insertion sort by `key`, descending: a permutation of `s`, sorted. */
  function SortDesc<T>(s: seq<T>, key: T -> int): (r: seq<T>)
    ensures multiset(r) == multiset(s)
    ensures SortedDesc(r, key)
  {
    if s == [] then []
    else
      assert s == [s[0]] + s[1..];
      var rest := SortDesc(s[1..], key);
      InsertDescSorted(s[0], rest, key);
      InsertDesc(s[0], rest, key)
  }

  /** A query `where p order by key desc`: the rows satisfying `p`, as a permutation, sorted. */
  function Listing<T(!new)>(s: seq<T>, p: T -> bool, key: T -> int): (r: seq<T>)
    ensures SortedDesc(r, key)
    ensures forall x :: multiset(r)[x] == if p(x) then multiset(s)[x] else 0
    ensures forall x :: x in r <==> x in s && p(x)
  {
    var f := Select(s, p);
    var r := SortDesc(f, key);
    assert forall x :: x in r <==> x in multiset(f);
    r
  }

  /** Page `num` of `size` rows (Spring's PageRequest.of(num, size)): the rows from offset num * size, at most `size` of them. */
  function Page<T>(rows: seq<T>, num: nat, size: nat): (r: seq<T>)
    ensures |r| <= size
    ensures forall k :: 0 <= k < |r| ==> num * size + k < |rows| && r[k] == rows[num * size + k]
    ensures num * size + size <= |rows| ==> |r| == size
  {
    var lo := if num * size < |rows| then num * size else |rows|;
    var hi := if lo + size < |rows| then lo + size else |rows|;
    rows[lo..hi]
  }

  /** No two rows share a key: the primary-key constraint of a table. */
  ghost predicate UniqueKeys<T>(rows: seq<T>, key: T -> int) {
    forall i, j :: 0 <= i < j < |rows| ==> key(rows[i]) != key(rows[j])
  }

  /** The keys of a table, as a set. */
  function Keys<T>(rows: seq<T>, key: T -> int): (ks: set<int>)
    ensures forall k :: k in ks <==> exists i :: 0 <= i < |rows| && key(rows[i]) == k
  {
    set i | 0 <= i < |rows| :: key(rows[i])
  }

  /** `findById`: the position of the row whose key is `id`, if any. */
  function IndexOf<T>(rows: seq<T>, key: T -> int, id: int): (r: Option<nat>)
    ensures r.Some? ==> r.value < |rows| && key(rows[r.value]) == id
    ensures r.None? <==> forall i :: 0 <= i < |rows| ==> key(rows[i]) != id
    ensures r.Some? && UniqueKeys(rows, key) ==>
              forall i :: 0 <= i < |rows| && key(rows[i]) == id ==> i == r.value
  {
    if rows == [] then None
    else if key(rows[0]) == id then Some(0)
    else
      match IndexOf(rows[1..], key, id)
      case None => None
      case Some(j) => Some(j + 1)
  }

  /** `findById`: the row whose key is `id`, if any. */
  function Find<T>(rows: seq<T>, key: T -> int, id: int): (r: Option<T>)
    ensures r.Some? ==> r.value in rows && key(r.value) == id
    ensures r.None? <==> forall x :: x in rows ==> key(x) != id
    ensures UniqueKeys(rows, key) ==> forall i :: 0 <= i < |rows| && key(rows[i]) == id ==> r == Some(rows[i])
  {
    match IndexOf(rows, key, id)
    case None => None
    case Some(i) => Some(rows[i])
  }

  /** The id an identity column hands out next: one more than the largest id, 1 when the table is empty. */
  function NextKey<T>(rows: seq<T>, key: T -> int): (k: int)
    ensures forall i :: 0 <= i < |rows| ==> key(rows[i]) < k
    ensures rows == [] ==> k == 1
    ensures rows != [] ==> exists i :: 0 <= i < |rows| && key(rows[i]) == k - 1
  {
    if rows == [] then 1
    else
      var k := NextKey(rows[1..], key);
      if |rows| == 1 || key(rows[0]) + 1 > k then key(rows[0]) + 1
      else
        var i :| 0 <= i < |rows[1..]| && key(rows[1..][i]) == k - 1;
        assert key(rows[i + 1]) == k - 1;
        k
  }

  /** A `save` of an existing row: the row with the key of `x` is replaced by `x`, every other row is kept. */
  function Put<T>(rows: seq<T>, key: T -> int, x: T): (r: seq<T>)
    ensures |r| == |rows|
    ensures forall i :: 0 <= i < |rows| ==> r[i] == if key(rows[i]) == key(x) then x else rows[i]
  {
    seq(|rows|, i requires 0 <= i < |rows| => if key(rows[i]) == key(x) then x else rows[i])
  }

  /** Replacing a row keeps the keys, hence their uniqueness. */
  lemma PutKeepsKeys<T>(rows: seq<T>, key: T -> int, x: T)
    requires exists i :: 0 <= i < |rows| && key(rows[i]) == key(x)
    ensures Keys(Put(rows, key, x), key) == Keys(rows, key)
    ensures UniqueKeys(rows, key) ==> UniqueKeys(Put(rows, key, x), key)
  {
  }

  /** Appending a row with a fresh key keeps the keys unique. */
  lemma AppendKeepsUnique<T>(rows: seq<T>, key: T -> int, x: T)
    requires UniqueKeys(rows, key)
    requires forall i :: 0 <= i < |rows| ==> key(rows[i]) != key(x)
    ensures UniqueKeys(rows + [x], key)
  {
  }

  /** The rows after the first keep their keys unique. */
  lemma TailKeepsUnique<T>(rows: seq<T>, key: T -> int)
    requires rows != [] && UniqueKeys(rows, key)
    ensures UniqueKeys(rows[1..], key)
    ensures forall x :: x in rows[1..] ==> key(x) != key(rows[0])
  {
    var tail := rows[1..];
    forall i, j | 0 <= i < j < |tail| ensures key(tail[i]) != key(tail[j]) {
      assert tail[i] == rows[i + 1] && tail[j] == rows[j + 1];
    }
    forall x | x in tail ensures key(x) != key(rows[0]) {
      var m :| 0 <= m < |tail| && tail[m] == x;
      assert rows[m + 1] == x;
    }
  }

  /** A row whose key no later row has, put in front of rows with unique keys, keeps them unique. */
  lemma ConsKeepsUnique<T>(x: T, rest: seq<T>, key: T -> int)
    requires UniqueKeys(rest, key)
    requires forall y :: y in rest ==> key(y) != key(x)
    ensures UniqueKeys([x] + rest, key)
  {
    var s := [x] + rest;
    forall i, j | 0 <= i < j < |s| ensures key(s[i]) != key(s[j]) {
      assert s[j] == rest[j - 1];
      if i > 0 {
        assert s[i] == rest[i - 1];
      }
    }
  }

  /** Removing rows keeps the keys unique. */
  lemma {:induction false} SelectKeepsUnique<T(!new)>(rows: seq<T>, key: T -> int, p: T -> bool)
    requires UniqueKeys(rows, key)
    ensures UniqueKeys(Select(rows, p), key)
  {
    if rows != [] {
      TailKeepsUnique(rows, key);
      SelectKeepsUnique(rows[1..], key, p);
      if p(rows[0]) {
        ConsKeepsUnique(rows[0], Select(rows[1..], p), key);
      }
    }
  }
}
