/**
 * Stable sorting by a real-valued key, the behaviour of Python's `list.sort(key=...)`.
 * A descending sort with `reverse=True` is also stable in Python, so it is modelled as an
 * ascending sort on the negated key.
 */
module StableSort {

  /** Keys never decrease along `s`. */
  predicate SortedBy<T>(s: seq<T>, key: T -> real) {
    forall i, j :: 0 <= i < j < |s| ==> key(s[i]) <= key(s[j])
  }

  /** The elements of `s` whose key equals `k`, in order. A stable sort leaves every such class unchanged. */
  function KeyClass<T>(s: seq<T>, key: T -> real, k: real): seq<T> {
    if |s| == 0 then [] else (if key(s[0]) == k then [s[0]] else []) + KeyClass(s[1..], key, k)
  }

  /** Inserts `x` before the first element whose key is not smaller, so `x` precedes its equals. */
  function Insert<T>(x: T, s: seq<T>, key: T -> real): (r: seq<T>)
    ensures |r| == |s| + 1
    ensures r[0] == x || (|s| > 0 && r[0] == s[0])
    ensures multiset(r) == multiset(s) + multiset{x}
  {
    if |s| == 0 then [x]
    else if key(s[0]) < key(x) then
      assert s == [s[0]] + s[1..];
      [s[0]] + Insert(x, s[1..], key)
    else [x] + s
  }

  /** Inserting into an ordered sequence keeps it ordered. */
  lemma {:induction false} InsertSorted<T>(x: T, s: seq<T>, key: T -> real)
    requires SortedBy(s, key)
    ensures SortedBy(Insert(x, s, key), key)
  {
    if |s| > 0 && key(s[0]) < key(x) {
      var tail := Insert(x, s[1..], key);
      InsertSorted(x, s[1..], key);
      assert key(s[0]) <= key(tail[0]);
      var r := [s[0]] + tail;
      forall i, j | 0 <= i < j < |r|
        ensures key(r[i]) <= key(r[j])
      {
        if i > 0 {
          assert r[i] == tail[i - 1] && r[j] == tail[j - 1];
        } else {
          assert r[j] == tail[j - 1];
          assert key(tail[0]) <= key(tail[j - 1]);
        }
      }
    }
  }

  /** Inserting `x` adds it at the front of its own key class and leaves every other class alone. */
  lemma {:induction false} InsertKeyClass<T>(x: T, s: seq<T>, key: T -> real, k: real)
    ensures KeyClass(Insert(x, s, key), key, k) == (if key(x) == k then [x] else []) + KeyClass(s, key, k)
  {
    if |s| == 0 {
      assert [x][1..] == [];
    } else if key(s[0]) < key(x) {
      var tail := Insert(x, s[1..], key);
      InsertKeyClass(x, s[1..], key, k);
      var r := [s[0]] + tail;
      assert r[1..] == tail;
      var rest := KeyClass(s[1..], key, k);
      assert KeyClass(s, key, k) == (if key(s[0]) == k then [s[0]] else []) + rest;
      assert KeyClass(r, key, k) == (if key(s[0]) == k then [s[0]] else []) + KeyClass(tail, key, k);
      if key(x) == k {
        assert key(s[0]) != k;
        assert KeyClass(r, key, k) == [x] + rest;
      } else {
        assert KeyClass(tail, key, k) == rest;
      }
    } else {
      assert ([x] + s)[1..] == s;
    }
  }

  /** Insertion sort: the result is ordered by key, a permutation of the input, and stable. */
  function SortBy<T>(s: seq<T>, key: T -> real): (r: seq<T>)
    ensures |r| == |s|
    ensures SortedBy(r, key)
    ensures multiset(r) == multiset(s)
    ensures forall k :: KeyClass(r, key, k) == KeyClass(s, key, k)
  {
    if |s| == 0 then []
    else
      var rest := SortBy(s[1..], key);
      assert s == [s[0]] + s[1..];
      InsertSorted(s[0], rest, key);
      forall k
        ensures KeyClass(Insert(s[0], rest, key), key, k) == KeyClass(s, key, k)
      {
        InsertKeyClass(s[0], rest, key, k);
      }
      Insert(s[0], rest, key)
  }

  /** The key class of a prefix is a prefix of the key class. */
  lemma {:induction false} KeyClassOfPrefix<T>(a: seq<T>, b: seq<T>, key: T -> real, k: real)
    requires a <= b
    ensures KeyClass(a, key, k) <= KeyClass(b, key, k)
  {
    if |a| > 0 {
      assert a[1..] <= b[1..];
      KeyClassOfPrefix(a[1..], b[1..], key, k);
    }
  }
}
