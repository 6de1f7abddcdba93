/** The stable bucket sort behind `radixSortM12` and `radixSortM0`
    (suffix-array.ts:104-175).  A pass pushes every element into the bucket
    named by its key and then reads the buckets back in ascending key order,
    skipping the holes of the JavaScript array; this is written here as the
    concatenation of one filter per key value.  Several passes applied
    least-significant key first give a lexicographic order. */
module RadixSort {

  /** The elements of xs whose key lies in [lo, hi], in their original order. */
  function KeyRange<T>(xs: seq<T>, key: T -> nat, lo: nat, hi: int): (r: seq<T>)
    ensures |r| <= |xs|
    ensures forall i :: 0 <= i < |r| ==> lo <= key(r[i]) <= hi && r[i] in xs
    decreases |xs|
  {
    if |xs| == 0 then []
    else (if lo <= key(xs[0]) <= hi then [xs[0]] else []) + KeyRange(xs[1..], key, lo, hi)
  }

  /** The largest key in xs (0 for an empty sequence): the last bucket index. */
  function MaxKey<T>(xs: seq<T>, key: T -> nat): (m: nat)
    ensures forall i :: 0 <= i < |xs| ==> key(xs[i]) <= m
    decreases |xs|
  {
    if |xs| == 0 then 0
    else
      var rest := MaxKey(xs[1..], key);
      if key(xs[0]) > rest then key(xs[0]) else rest
  }

  /** Buckets 0, 1, ..., n-1 read back one after the other. */
  function Buckets<T>(xs: seq<T>, key: T -> nat, n: nat): (r: seq<T>)
    ensures forall i :: 0 <= i < |r| ==> key(r[i]) < n
  {
    if n == 0 then [] else Buckets(xs, key, n - 1) + KeyRange(xs, key, n - 1, n - 1)
  }

  /** One stable bucket-sort pass by key. */
  function BucketSort<T>(xs: seq<T>, key: T -> nat): seq<T>
  {
    Buckets(xs, key, MaxKey(xs, key) + 1)
  }

  /** LSD radix sort: keys[0] is the most significant key, so the last key is
      bucketed first and keys[0] last. */
  function Radix<T>(xs: seq<T>, keys: seq<T -> nat>): seq<T>
    decreases |keys|
  {
    if |keys| == 0 then xs else BucketSort(Radix(xs, keys[1..]), keys[0])
  }

  /** a precedes-or-ties b in the lexicographic order of the key tuple. */
  predicate LexLe<T>(keys: seq<T -> nat>, a: T, b: T)
    decreases |keys|
  {
    || |keys| == 0
    || keys[0](a) < keys[0](b)
    || (keys[0](a) == keys[0](b) && LexLe(keys[1..], a, b))
  }

  predicate SortedLex<T>(xs: seq<T>, keys: seq<T -> nat>)
  {
    forall i, j :: 0 <= i < j < |xs| ==> LexLe(keys, xs[i], xs[j])
  }

  // ---------------------------------------------------------------------
  // Filters

  lemma {:induction false} KeyRangeAppend<T>(a: seq<T>, b: seq<T>, key: T -> nat, lo: nat, hi: int)
    ensures KeyRange(a + b, key, lo, hi) == KeyRange(a, key, lo, hi) + KeyRange(b, key, lo, hi)
    decreases |a|
  {
    if |a| > 0 {
      assert (a + b)[1..] == a[1..] + b;
      KeyRangeAppend(a[1..], b, key, lo, hi);
    } else {
      assert a + b == b;
    }
  }

  /** A filter that every element passes keeps everything. */
  lemma {:induction false} KeyRangeAll<T>(xs: seq<T>, key: T -> nat, lo: nat, hi: int)
    requires forall i :: 0 <= i < |xs| ==> lo <= key(xs[i]) <= hi
    ensures KeyRange(xs, key, lo, hi) == xs
    decreases |xs|
  {
    if |xs| > 0 {
      KeyRangeAll(xs[1..], key, lo, hi);
    }
  }

  /** A filter that no element passes keeps nothing. */
  lemma {:induction false} KeyRangeNone<T>(xs: seq<T>, key: T -> nat, lo: nat, hi: int)
    requires forall i :: 0 <= i < |xs| ==> !(lo <= key(xs[i]) <= hi)
    ensures KeyRange(xs, key, lo, hi) == []
    decreases |xs|
  {
    if |xs| > 0 {
      KeyRangeNone(xs[1..], key, lo, hi);
    }
  }

  /** Filtering twice by the same key keeps the intersection of the ranges. */
  lemma {:induction false} KeyRangeNested<T>(xs: seq<T>, key: T -> nat, lo: nat, hi: int, lo': nat, hi': int)
    requires lo <= lo' && hi' <= hi
    ensures KeyRange(KeyRange(xs, key, lo, hi), key, lo', hi') == KeyRange(xs, key, lo', hi')
    decreases |xs|
  {
    if |xs| > 0 {
      var head := if lo <= key(xs[0]) <= hi then [xs[0]] else [];
      KeyRangeAppend(head, KeyRange(xs[1..], key, lo, hi), key, lo', hi');
      KeyRangeNested(xs[1..], key, lo, hi, lo', hi');
    }
  }

  /** Filtering by two different keys commutes. */
  lemma {:induction false} KeyRangeCommute<T>(xs: seq<T>, k1: T -> nat, lo1: nat, hi1: int, k2: T -> nat, lo2: nat, hi2: int)
    ensures KeyRange(KeyRange(xs, k1, lo1, hi1), k2, lo2, hi2)
         == KeyRange(KeyRange(xs, k2, lo2, hi2), k1, lo1, hi1)
    decreases |xs|
  {
    if |xs| > 0 {
      var h1 := if lo1 <= k1(xs[0]) <= hi1 then [xs[0]] else [];
      var h2 := if lo2 <= k2(xs[0]) <= hi2 then [xs[0]] else [];
      KeyRangeAppend(h1, KeyRange(xs[1..], k1, lo1, hi1), k2, lo2, hi2);
      KeyRangeAppend(h2, KeyRange(xs[1..], k2, lo2, hi2), k1, lo1, hi1);
      KeyRangeCommute(xs[1..], k1, lo1, hi1, k2, lo2, hi2);
    }
  }

  /** The range below v and bucket v make up the range up to v. */
  lemma {:induction false} KeyRangeSplit<T>(xs: seq<T>, key: T -> nat, lo: nat, v: nat)
    requires lo <= v
    ensures multiset(KeyRange(xs, key, lo, v - 1)) + multiset(KeyRange(xs, key, v, v))
         == multiset(KeyRange(xs, key, lo, v))
    decreases |xs|
  {
    if |xs| > 0 {
      KeyRangeSplit(xs[1..], key, lo, v);
    }
  }

  // ---------------------------------------------------------------------
  // Permutation

  lemma {:induction false} BucketsPermutation<T>(xs: seq<T>, key: T -> nat, n: nat)
    ensures multiset(Buckets(xs, key, n)) == multiset(KeyRange(xs, key, 0, n - 1))
  {
    if n == 0 {
      KeyRangeNone(xs, key, 0, -1);
    } else {
      var m := n - 1;
      var l := Buckets(xs, key, m);
      var b := KeyRange(xs, key, m, m);
      assert Buckets(xs, key, n) == l + b;
      BucketsPermutation(xs, key, m);
      KeyRangeSplit(xs, key, 0, m);
      calc {
        multiset(Buckets(xs, key, n));
        multiset(l) + multiset(b);
        multiset(KeyRange(xs, key, 0, m - 1)) + multiset(b);
        multiset(KeyRange(xs, key, 0, m));
      }
    }
  }

  /** A bucket-sort pass rearranges its input and neither drops nor adds. */
  lemma BucketSortPermutation<T>(xs: seq<T>, key: T -> nat)
    ensures multiset(BucketSort(xs, key)) == multiset(xs)
  {
    BucketsPermutation(xs, key, MaxKey(xs, key) + 1);
    KeyRangeAll(xs, key, 0, MaxKey(xs, key));
  }

  lemma {:induction false} RadixPermutation<T>(xs: seq<T>, keys: seq<T -> nat>)
    ensures multiset(Radix(xs, keys)) == multiset(xs)
    decreases |keys|
  {
    if |keys| > 0 {
      RadixPermutation(xs, keys[1..]);
      BucketSortPermutation(Radix(xs, keys[1..]), keys[0]);
    }
  }

  // ---------------------------------------------------------------------
  // Stability

  lemma {:induction false} BucketsStable<T>(xs: seq<T>, key: T -> nat, n: nat, w: nat)
    ensures KeyRange(Buckets(xs, key, n), key, w, w) == if w < n then KeyRange(xs, key, w, w) else []
  {
    if n == 0 {
      KeyRangeNone(Buckets(xs, key, n), key, w, w);
    } else {
      var m := n - 1;
      var l := Buckets(xs, key, m);
      var b := KeyRange(xs, key, m, m);
      assert Buckets(xs, key, n) == l + b;
      KeyRangeAppend(l, b, key, w, w);
      BucketsStable(xs, key, m, w);
      if w == m {
        KeyRangeNested(xs, key, w, w, w, w);
      } else {
        KeyRangeNone(b, key, w, w);
      }
    }
  }

  /** Stability: the elements of one bucket come out in their input order. */
  lemma BucketSortStable<T>(xs: seq<T>, key: T -> nat, w: nat)
    ensures KeyRange(BucketSort(xs, key), key, w, w) == KeyRange(xs, key, w, w)
  {
    var m := MaxKey(xs, key);
    BucketsStable(xs, key, m + 1, w);
    if w > m {
      KeyRangeNone(xs, key, w, w);
    }
  }

  // ---------------------------------------------------------------------
  // Ordering

  lemma SortedLexAppend<T>(a: seq<T>, b: seq<T>, keys: seq<T -> nat>)
    requires SortedLex(a, keys) && SortedLex(b, keys)
    requires forall i, j :: 0 <= i < |a| && 0 <= j < |b| ==> LexLe(keys, a[i], b[j])
    ensures SortedLex(a + b, keys)
  {
    var c := a + b;
    forall i, j | 0 <= i < j < |c|
      ensures LexLe(keys, c[i], c[j])
    {
      if j < |a| {
        assert LexLe(keys, a[i], a[j]);
      } else if i >= |a| {
        assert LexLe(keys, b[i - |a|], b[j - |a|]);
      } else {
        assert LexLe(keys, a[i], b[j - |a|]);
      }
    }
  }

  /** Filtering keeps a sorted sequence sorted. */
  lemma {:induction false} KeyRangeSorted<T>(xs: seq<T>, key: T -> nat, lo: nat, hi: int, keys: seq<T -> nat>)
    requires SortedLex(xs, keys)
    ensures SortedLex(KeyRange(xs, key, lo, hi), keys)
    decreases |xs|
  {
    if |xs| > 0 {
      var head := if lo <= key(xs[0]) <= hi then [xs[0]] else [];
      var tail := KeyRange(xs[1..], key, lo, hi);
      assert SortedLex(xs[1..], keys) by {
        forall i, j | 0 <= i < j < |xs| - 1
          ensures LexLe(keys, xs[1..][i], xs[1..][j])
        {
          assert LexLe(keys, xs[i + 1], xs[j + 1]);
        }
      }
      KeyRangeSorted(xs[1..], key, lo, hi, keys);
      forall i, j | 0 <= i < |head| && 0 <= j < |tail|
        ensures LexLe(keys, head[i], tail[j])
      {
        var k :| 0 <= k < |xs[1..]| && xs[1..][k] == tail[j];
        assert LexLe(keys, xs[0], xs[k + 1]);
      }
      SortedLexAppend(head, tail, keys);
    }
  }

  /** One bucket of a sequence sorted by the remaining keys is sorted by the
      whole tuple, since its elements share the leading key. */
  lemma BucketSortedLex<T>(xs: seq<T>, key: T -> nat, v: nat, rest: seq<T -> nat>)
    requires SortedLex(xs, rest)
    ensures SortedLex(KeyRange(xs, key, v, v), [key] + rest)
  {
    var keys := [key] + rest;
    var b := KeyRange(xs, key, v, v);
    KeyRangeSorted(xs, key, v, v, rest);
    forall i, j | 0 <= i < j < |b|
      ensures LexLe(keys, b[i], b[j])
    {
      assert keys[0] == key && keys[1..] == rest;
      assert LexLe(rest, b[i], b[j]);
      assert key(b[i]) == key(b[j]);
    }
  }

  /** Every element of a comes first by the leading key alone. */
  lemma {:induction false} BucketsSorted<T>(xs: seq<T>, key: T -> nat, n: nat, rest: seq<T -> nat>)
    requires SortedLex(xs, rest)
    ensures SortedLex(Buckets(xs, key, n), [key] + rest)
  {
    var keys := [key] + rest;
    if n > 0 {
      var l := Buckets(xs, key, n - 1);
      var b := KeyRange(xs, key, n - 1, n - 1);
      BucketsSorted(xs, key, n - 1, rest);
      BucketSortedLex(xs, key, n - 1, rest);
      forall i, j | 0 <= i < |l| && 0 <= j < |b|
        ensures LexLe(keys, l[i], b[j])
      {
        assert keys[0] == key;
        assert key(l[i]) < key(b[j]);
      }
      SortedLexAppend(l, b, keys);
    }
  }

  /** A stable pass by a new most-significant key turns an order by the
      remaining keys into the lexicographic order of the whole tuple. */
  lemma BucketSortSorted<T>(xs: seq<T>, key: T -> nat, rest: seq<T -> nat>)
    requires SortedLex(xs, rest)
    ensures SortedLex(BucketSort(xs, key), [key] + rest)
  {
    BucketsSorted(xs, key, MaxKey(xs, key) + 1, rest);
  }

  /** LSD radix sort orders its input lexicographically by the key tuple. */
  lemma {:induction false} RadixSorted<T>(xs: seq<T>, keys: seq<T -> nat>)
    ensures SortedLex(Radix(xs, keys), keys)
    decreases |keys|
  {
    if |keys| > 0 {
      RadixSorted(xs, keys[1..]);
      assert keys == [keys[0]] + keys[1..];
      BucketSortSorted(Radix(xs, keys[1..]), keys[0], keys[1..]);
    }
  }

  // ---------------------------------------------------------------------
  // Stability of the whole sort

  /** The elements whose keys equal vals, key by key, in their order in xs. */
  function Select<T>(xs: seq<T>, keys: seq<T -> nat>, vals: seq<nat>): (r: seq<T>)
    requires |vals| == |keys|
    ensures forall i :: 0 <= i < |r| ==> r[i] in xs
    decreases |keys|
  {
    if |keys| == 0 then xs else Select(KeyRange(xs, keys[0], vals[0], vals[0]), keys[1..], vals[1..])
  }

  lemma {:induction false} SelectKeyRangeCommute<T>(xs: seq<T>, keys: seq<T -> nat>, vals: seq<nat>, key: T -> nat, v: nat)
    requires |vals| == |keys|
    ensures Select(KeyRange(xs, key, v, v), keys, vals) == KeyRange(Select(xs, keys, vals), key, v, v)
    decreases |keys|
  {
    if |keys| > 0 {
      KeyRangeCommute(xs, key, v, v, keys[0], vals[0], vals[0]);
      SelectKeyRangeCommute(KeyRange(xs, keys[0], vals[0], vals[0]), keys[1..], vals[1..], key, v);
    }
  }

  /** Stability of LSD radix sort: the elements sharing one key tuple come
      out in their input order. */
  lemma {:induction false} RadixStable<T>(xs: seq<T>, keys: seq<T -> nat>, vals: seq<nat>)
    requires |vals| == |keys|
    ensures Select(Radix(xs, keys), keys, vals) == Select(xs, keys, vals)
    decreases |keys|
  {
    if |keys| > 0 {
      var rest, rvals := keys[1..], vals[1..];
      var inner := Radix(xs, rest);
      BucketSortStable(inner, keys[0], vals[0]);
      SelectKeyRangeCommute(inner, rest, rvals, keys[0], vals[0]);
      RadixStable(xs, rest, rvals);
      SelectKeyRangeCommute(xs, rest, rvals, keys[0], vals[0]);
    }
  }
}
