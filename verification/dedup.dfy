/** Keep-first de-duplication by a string key (the URL), as the scraper's `seen`-set loops do it. */
module Dedup {
  import opened Seqs

  /** The keys occurring in `s`. */
  function KeySet<T>(s: seq<T>, key: T -> string): set<string> {
    set i | 0 <= i < |s| :: key(s[i])
  }

  /** No two positions of `s` share a key. */
  predicate KeysDistinct<T>(s: seq<T>, key: T -> string) {
    forall i, j :: 0 <= i < j < |s| ==> key(s[i]) != key(s[j])
  }

  /** Position `i` holds the first element of `s` with its key. */
  predicate FirstOfKey<T>(s: seq<T>, key: T -> string, i: int) {
    0 <= i < |s| && forall j :: 0 <= j < i ==> key(s[j]) != key(s[i])
  }

  lemma KeySetSnoc<T>(s: seq<T>, x: T, key: T -> string)
    ensures KeySet(s + [x], key) == KeySet(s, key) + {key(x)}
  {
    var t := s + [x];
    assert forall i :: 0 <= i < |s| ==> t[i] == s[i];
    assert t[|s|] == x;
  }

  /**
   * Keeps the first element seen for each key, in document order. Defined from the back: the
   * last element survives exactly when its key does not occur earlier.
   */
  function DedupBy<T(==)>(s: seq<T>, key: T -> string): (r: seq<T>)
    ensures KeysDistinct(r, key)
    ensures KeySet(r, key) == KeySet(s, key)
    ensures SubsequenceOf(r, s)
    ensures forall i :: 0 <= i < |r| ==> exists j :: FirstOfKey(s, key, j) && r[i] == s[j]
  {
    if |s| == 0 then []
    else
      var pre, last := s[..|s| - 1], s[|s| - 1];
      var kept := DedupBy(pre, key);
      assert s == pre + [last];
      KeySetSnoc(pre, last, key);
      SubsequenceExtend(kept, pre, last);
      assert forall j :: FirstOfKey(pre, key, j) ==> FirstOfKey(s, key, j);
      if key(last) in KeySet(pre, key) then
        kept
      else
        KeySetSnoc(kept, last, key);
        assert FirstOfKey(s, key, |s| - 1);
        kept + [last]
  }

  /** A sequence whose keys are already distinct is left unchanged. */
  lemma {:induction false} DedupDistinct<T>(s: seq<T>, key: T -> string)
    requires KeysDistinct(s, key)
    ensures DedupBy(s, key) == s
  {
    if |s| > 0 {
      var pre, last := s[..|s| - 1], s[|s| - 1];
      assert s == pre + [last];
      assert KeysDistinct(pre, key) by {
        forall i, j | 0 <= i < j < |pre|
          ensures key(pre[i]) != key(pre[j])
        {
          assert pre[i] == s[i] && pre[j] == s[j];
        }
      }
      DedupDistinct(pre, key);
      assert key(last) !in KeySet(pre, key) by {
        forall j | 0 <= j < |pre|
          ensures key(pre[j]) != key(last)
        {
          assert pre[j] == s[j];
        }
      }
      DedupSnoc(pre, last, key);
    }
  }

  /** De-duplicating twice is the same as once. */
  lemma DedupIdempotent<T>(s: seq<T>, key: T -> string)
    ensures DedupBy(DedupBy(s, key), key) == DedupBy(s, key)
  {
    DedupDistinct(DedupBy(s, key), key);
  }

  /** Appending one element keeps it exactly when its key is new. */
  lemma DedupSnoc<T>(s: seq<T>, x: T, key: T -> string)
    ensures DedupBy(s + [x], key) == if key(x) in KeySet(s, key) then DedupBy(s, key) else DedupBy(s, key) + [x]
  {
    assert (s + [x])[..|s + [x]| - 1] == s;
  }

  /** The loop of the source: a `seen` set of keys and a list of first occurrences. */
  method Deduplicate<T(==)>(s: seq<T>, key: T -> string) returns (unique: seq<T>)
    ensures unique == DedupBy(s, key)
  {
    var seen: set<string> := {};
    unique := [];
    for i := 0 to |s|
      invariant seen == KeySet(s[..i], key)
      invariant unique == DedupBy(s[..i], key)
    {
      assert s[..i + 1] == s[..i] + [s[i]];
      KeySetSnoc(s[..i], s[i], key);
      DedupSnoc(s[..i], s[i], key);
      if key(s[i]) !in seen {
        seen := seen + {key(s[i])};
        unique := unique + [s[i]];
      }
    }
    assert s[..|s|] == s;
  }

  /** Distinct keys: as many keys as elements. */
  lemma {:induction false} DistinctIffKeyCount<T>(s: seq<T>, key: T -> string)
    ensures KeysDistinct(s, key) <==> |KeySet(s, key)| == |s|
  {
    KeySetBound(s, key);
    if |s| > 0 {
      var pre, last := s[..|s| - 1], s[|s| - 1];
      assert s == pre + [last];
      KeySetSnoc(pre, last, key);
      DistinctIffKeyCount(pre, key);
      KeySetBound(pre, key);
      if key(last) in KeySet(pre, key) {
        assert !KeysDistinct(s, key) by {
          var j :| 0 <= j < |pre| && key(pre[j]) == key(last);
          assert key(s[j]) == key(s[|s| - 1]);
        }
      } else {
        if KeysDistinct(pre, key) {
          forall i, j | 0 <= i < j < |s|
            ensures key(s[i]) != key(s[j])
          {
            if j == |s| - 1 {
              assert key(s[i]) in KeySet(pre, key) by { assert s[i] == pre[i]; }
            } else {
              assert s[i] == pre[i] && s[j] == pre[j];
            }
          }
        } else {
          var i, j :| 0 <= i < j < |pre| && key(pre[i]) == key(pre[j]);
          assert s[i] == pre[i] && s[j] == pre[j];
        }
      }
    }
  }

  /** There are never more keys than elements. */
  lemma {:induction false} KeySetBound<T>(s: seq<T>, key: T -> string)
    ensures |KeySet(s, key)| <= |s|
  {
    if |s| > 0 {
      var pre, last := s[..|s| - 1], s[|s| - 1];
      assert s == pre + [last];
      KeySetSnoc(pre, last, key);
      KeySetBound(pre, key);
    }
  }

  /** Reordering a sequence without losing or adding elements keeps its keys distinct. */
  lemma PermutationKeepsDistinct<T>(s: seq<T>, r: seq<T>, key: T -> string)
    requires multiset(r) == multiset(s)
    requires KeysDistinct(s, key)
    ensures KeysDistinct(r, key)
  {
    assert |r| == |multiset(r)| == |s|;
    forall k | k in KeySet(r, key)
      ensures k in KeySet(s, key)
    {
      var i :| 0 <= i < |r| && key(r[i]) == k;
      assert r[i] in multiset(s);
    }
    forall k | k in KeySet(s, key)
      ensures k in KeySet(r, key)
    {
      var i :| 0 <= i < |s| && key(s[i]) == k;
      assert s[i] in multiset(r);
    }
    assert KeySet(r, key) == KeySet(s, key);
    DistinctIffKeyCount(s, key);
    DistinctIffKeyCount(r, key);
  }
}
