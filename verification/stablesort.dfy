/** Python's `sorted(items, key=k, reverse=True)`: a stable sort by a key in
    non-increasing order. Items with equal keys keep their input order (Python
    keeps stability under `reverse=True`). Both Home Assistant rankings use it. */
module StableSort {

  /** The items whose key is `k`, in order. */
  function WithKey<T>(xs: seq<T>, key: T -> int, k: int): (r: seq<T>)
    ensures |r| <= |xs|
  {
    if |xs| == 0 then []
    else (if key(xs[0]) == k then [xs[0]] else []) + WithKey(xs[1..], key, k)
  }

  predicate SortedDesc<T>(xs: seq<T>, key: T -> int) {
    forall i, j :: 0 <= i < j < |xs| ==> key(xs[i]) >= key(xs[j])
  }

  /** Places `x` before the first item whose key is at most its own. */
  function Insert<T>(x: T, xs: seq<T>, key: T -> int): (r: seq<T>)
    ensures |r| == |xs| + 1
    ensures multiset(r) == multiset(xs) + multiset{x}
    ensures forall y :: y in r ==> y == x || y in xs
  {
    if |xs| == 0 || key(xs[0]) <= key(x) then [x] + xs
    else
      assert xs == [xs[0]] + xs[1..];
      [xs[0]] + Insert(x, xs[1..], key)
  }

  /** The stable non-increasing sort: each item goes in front of the later
      items with an equal key. */
  function SortDesc<T>(xs: seq<T>, key: T -> int): (r: seq<T>)
    ensures |r| == |xs|
    ensures multiset(r) == multiset(xs)
  {
    if |xs| == 0 then []
    else
      assert xs == [xs[0]] + xs[1..];
      Insert(xs[0], SortDesc(xs[1..], key), key)
  }

  lemma {:induction false} InsertSorted<T>(x: T, xs: seq<T>, key: T -> int)
    requires SortedDesc(xs, key)
    ensures SortedDesc(Insert(x, xs, key), key)
  {
    if |xs| > 0 && key(xs[0]) > key(x) {
      InsertSorted(x, xs[1..], key);
      var rest := Insert(x, xs[1..], key);
      var r := [xs[0]] + rest;
      forall i | 0 <= i < |rest| ensures key(xs[0]) >= key(rest[i]) {
        assert rest[i] in rest;
        if rest[i] != x {
          var j :| 0 <= j < |xs[1..]| && xs[1..][j] == rest[i];
          assert xs[j + 1] == rest[i];
        }
      }
      assert forall i, j :: 0 <= i < j < |r| ==> key(r[i]) >= key(r[j]) by {
        forall i, j | 0 <= i < j < |r| ensures key(r[i]) >= key(r[j]) {
          if i > 0 {
            assert r[i] == rest[i - 1] && r[j] == rest[j - 1];
          } else {
            assert r[j] == rest[j - 1];
          }
        }
      }
    }
  }

  /** The sort's output is non-increasing in the key. */
  lemma {:induction false} SortDescSorted<T>(xs: seq<T>, key: T -> int)
    ensures SortedDesc(SortDesc(xs, key), key)
  {
    if |xs| > 0 {
      SortDescSorted(xs[1..], key);
      InsertSorted(xs[0], SortDesc(xs[1..], key), key);
    }
  }

  lemma {:induction false} InsertWithKey<T>(x: T, xs: seq<T>, key: T -> int, k: int)
    ensures WithKey(Insert(x, xs, key), key, k)
         == (if key(x) == k then [x] else []) + WithKey(xs, key, k)
  {
    if |xs| > 0 && key(xs[0]) > key(x) {
      InsertWithKey(x, xs[1..], key, k);
      var r := Insert(x, xs, key);
      assert r[0] == xs[0] && r[1..] == Insert(x, xs[1..], key);
    } else {
      var r := [x] + xs;
      assert r[1..] == xs;
    }
  }

  /** Stability: for every key value, the items with that key come out in
      the order they went in. */
  lemma {:induction false} SortDescStable<T>(xs: seq<T>, key: T -> int, k: int)
    ensures WithKey(SortDesc(xs, key), key, k) == WithKey(xs, key, k)
  {
    if |xs| > 0 {
      SortDescStable(xs[1..], key, k);
      InsertWithKey(xs[0], SortDesc(xs[1..], key), key, k);
    }
  }
}
