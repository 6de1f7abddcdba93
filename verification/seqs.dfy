/** Sequence helpers shared by the suffix-array model: index ranges,
    element-wise mapping, distinctness and the multiset facts the
    permutation proofs rest on. */
module Seqs {

  /** A value that may be missing: JavaScript's `undefined`. */
  datatype Option<T> = None | Some(value: T)

  /** Moving one element across a concatenation. */
  lemma SnocAppend<T>(s: seq<T>, x: T, r: seq<T>)
    ensures (s + [x]) + r == s + ([x] + r)
  {
  }

  /** Appending nothing. */
  lemma AppendNil<T>(x: seq<T>)
    ensures x + [] == x
  {
  }

  /** Regrouping a three-part concatenation. */
  lemma AppendRegroup<T>(x: seq<T>, a: seq<T>, b: seq<T>)
    ensures (x + a) + b == x + (a + b)
  {
  }

  /** Regrouping a four-part concatenation. */
  lemma AppendAssoc<T>(h: seq<T>, a: seq<T>, x: seq<T>, b: seq<T>)
    ensures h + (a + x + b) == (h + a) + x + b
  {
  }

  /** The positions 0, 1, ..., n-1 in ascending order. */
  function Iota(n: nat): (r: seq<nat>)
    ensures |r| == n
  {
    if n == 0 then [] else Iota(n - 1) + [n - 1]
  }

  lemma {:induction false} IotaIndex(n: nat)
    ensures forall i :: 0 <= i < n ==> Iota(n)[i] == i
  {
    if n > 0 {
      IotaIndex(n - 1);
    }
  }

  /** No value occurs twice. */
  predicate Distinct<T(==)>(xs: seq<T>)
  {
    forall i, j :: 0 <= i < j < |xs| ==> xs[i] != xs[j]
  }

  /** `xs.map(f)`. */
  function MapSeq<A, B>(xs: seq<A>, f: A -> B): (r: seq<B>)
    ensures |r| == |xs|
    ensures forall i :: 0 <= i < |xs| ==> r[i] == f(xs[i])
  {
    seq(|xs|, i requires 0 <= i < |xs| => f(xs[i]))
  }

  lemma MapSeqAppend<A, B>(a: seq<A>, b: seq<A>, f: A -> B)
    ensures MapSeq(a + b, f) == MapSeq(a, f) + MapSeq(b, f)
  {
  }

  /** Mapping two permutations of each other element-wise gives two
      permutations of each other. */
  lemma {:induction false} MapPermutation<A, B>(a: seq<A>, b: seq<A>, f: A -> B)
    requires multiset(a) == multiset(b)
    ensures multiset(MapSeq(a, f)) == multiset(MapSeq(b, f))
    decreases |a|
  {
    if |a| == 0 {
      assert |b| == |multiset(b)| == 0;
      assert MapSeq(a, f) == [] == MapSeq(b, f);
    } else {
      var x := a[0];
      assert x in multiset(b);
      var j :| 0 <= j < |b| && b[j] == x;
      var b' := b[..j] + b[j + 1..];
      assert b == b[..j] + [x] + b[j + 1..];
      assert a == [x] + a[1..];
      calc {
        multiset(a[1..]);
        multiset(a) - multiset{x};
        multiset(b) - multiset{x};
        multiset(b[..j]) + multiset(b[j + 1..]);
        multiset(b');
      }
      MapPermutation(a[1..], b', f);
      MapSeqAppend([x], a[1..], f);
      MapSeqAppend(b[..j] + [x], b[j + 1..], f);
      MapSeqAppend(b[..j], [x], f);
      MapSeqAppend(b[..j], b[j + 1..], f);
    }
  }

  /** Every value of a distinct sequence occurs exactly once in its multiset. */
  lemma {:induction false} DistinctCount<T>(xs: seq<T>, e: T)
    requires Distinct(xs)
    ensures multiset(xs)[e] <= 1
    decreases |xs|
  {
    if |xs| > 0 {
      var last := xs[|xs| - 1];
      var init := xs[..|xs| - 1];
      assert xs == init + [last];
      DistinctCount(init, e);
      if e == last {
        assert e !in init;
      }
    }
  }

  /** A permutation of a distinct sequence is distinct. */
  lemma PermutationOfDistinct<T>(a: seq<T>, b: seq<T>)
    requires multiset(a) == multiset(b)
    requires Distinct(b)
    ensures Distinct(a)
  {
    forall i, j | 0 <= i < j < |a|
      ensures a[i] != a[j]
    {
      if a[i] == a[j] {
        var e := a[i];
        assert a == a[..j] + [a[j]] + a[j + 1..];
        assert e in a[..j];
        assert multiset(a[..j])[e] >= 1;
        assert multiset(a)[e] >= 2;
        DistinctCount(b, e);
        assert false;
      }
    }
  }

  /** r is an interleaving of a and b: it consumes both front to back, each
      step taking the next element of one of them. */
  predicate Interleaving<T(==)>(r: seq<T>, a: seq<T>, b: seq<T>)
    decreases |r|
  {
    if |r| == 0 then a == [] && b == []
    else
      || (|a| > 0 && r[0] == a[0] && Interleaving(r[1..], a[1..], b))
      || (|b| > 0 && r[0] == b[0] && Interleaving(r[1..], a, b[1..]))
  }

  /** A sequence interleaved with nothing is itself. */
  lemma {:induction false} InterleavingLeft<T>(a: seq<T>)
    ensures Interleaving(a, a, []) && Interleaving(a, [], a)
    decreases |a|
  {
    if |a| > 0 {
      InterleavingLeft(a[1..]);
    }
  }

  /** An interleaving holds exactly the elements of its two sources. */
  lemma {:induction false} InterleavingMultiset<T>(r: seq<T>, a: seq<T>, b: seq<T>)
    requires Interleaving(r, a, b)
    ensures multiset(r) == multiset(a) + multiset(b)
    decreases |r|
  {
    if |r| > 0 {
      assert r == [r[0]] + r[1..];
      if |a| > 0 && r[0] == a[0] && Interleaving(r[1..], a[1..], b) {
        InterleavingMultiset(r[1..], a[1..], b);
        assert a == [a[0]] + a[1..];
      } else {
        InterleavingMultiset(r[1..], a, b[1..]);
        assert b == [b[0]] + b[1..];
      }
    }
  }

  /** Every element of a permutation of xs is an element of xs. */
  lemma PermutationMembers<T>(a: seq<T>, b: seq<T>)
    requires multiset(a) == multiset(b)
    ensures forall i :: 0 <= i < |a| ==> a[i] in b
  {
    forall i | 0 <= i < |a|
      ensures a[i] in b
    {
      assert a[i] in multiset(a);
    }
  }

  /** Iota(n) holds exactly the naturals below n. */
  lemma IotaMembers(n: nat)
    ensures forall x: nat :: x in Iota(n) <==> x < n
  {
    IotaIndex(n);
    forall x: nat | x < n
      ensures x in Iota(n)
    {
      assert Iota(n)[x] == x;
    }
  }

  /** t sits in c at offset o, followed by a 0 separator. */
  predicate SeparatedAt(c: seq<nat>, o: nat, t: seq<nat>)
  {
    o + |t| < |c| && c[o..o + |t|] == t && c[o + |t|] == 0
  }

  /** In c = a + t + [0] + b, t starts at o = |a| and the 0 follows it. */
  lemma SeparatedSlice(a: seq<nat>, t: seq<nat>, b: seq<nat>, c: seq<nat>, o: nat)
    requires c == a + (t + [0]) + b && o == |a|
    ensures |c| == o + |t| + 1 + |b|
    ensures SeparatedAt(c, o, t)
  {
    assert c[o..o + |t|] == t;
  }

  /** A sequence holding just x once is [x]. */
  lemma OnlyElement(xs: seq<nat>, x: nat)
    requires multiset(xs) == multiset([x])
    ensures xs == [x]
  {
    assert |xs| == |multiset(xs)| == 1;
    assert xs[0] in multiset(xs);
  }

  /** A sequence holding a and b once each is [a, b] or [b, a]. */
  lemma TwoElements(xs: seq<nat>, a: nat, b: nat)
    requires multiset(xs) == multiset([a, b])
    ensures xs == [a, b] || xs == [b, a]
  {
    assert |xs| == |multiset(xs)| == 2;
    assert xs[0] in multiset(xs) && xs[1] in multiset(xs);
    assert multiset([xs[0], xs[1]]) == multiset(xs) by {
      assert xs == [xs[0], xs[1]];
    }
  }
}
