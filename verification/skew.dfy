/** The skew (DC3) construction of `getSuffixArray` and its helpers
    `radixSortM12`, `radixSortM0`, `merge` and `compare`
    (suffix-array.ts:65-219), over sequences of character codes. */
module Skew {
  import opened Seqs
  import opened RadixSort

  /** `input[i] || 0`: a read past the end of the codes yields 0. */
  function At(s: seq<nat>, i: nat): nat
  {
    if i < |s| then s[i] else 0
  }

  /** `m12Ranks[i] || 0`: a position without a rank reads as rank 0. */
  function RankOf(ranks: map<nat, nat>, i: nat): nat
  {
    if i in ranks then ranks[i] else 0
  }

  predicate Ascending(xs: seq<nat>)
  {
    forall i, j :: 0 <= i < j < |xs| ==> xs[i] < xs[j]
  }

  predicate AllResidue(xs: seq<nat>, n: nat, k: nat)
  {
    forall i :: 0 <= i < |xs| ==> xs[i] < n && xs[i] % 3 == k
  }

  // ---------------------------------------------------------------------
  // Residue classes (suffix-array.ts:66-81)

  /** The positions of [0, n) with residue k mod 3, ascending: the list the
      loop at suffix-array.ts:70-80 pushes them onto (m0, m1 or m2).  The
      extra push at suffix-array.ts:74 needs i == n inside a loop that only
      runs while i < n, so it never happens and has no counterpart here. */
  function Residues(n: nat, k: nat): seq<nat>
  {
    if n == 0 then []
    else
      var i: nat := n - 1;
      if i % 3 == k then Residues(i, k) + [i] else Residues(i, k)
  }

  /** Each class list is ascending, below n and of one residue. */
  lemma {:induction false} ResiduesShape(n: nat, k: nat)
    ensures AllResidue(Residues(n, k), n, k) && Ascending(Residues(n, k))
  {
    if n > 0 {
      ResiduesShape(n - 1, k);
    }
  }

  /** Extending the range by position n-1 adds it to its own class ... */
  lemma ResiduesGrow(n: nat, k: nat)
    requires n > 0 && (n - 1) % 3 == k
    ensures multiset(Residues(n, k)) == multiset(Residues(n - 1, k)) + multiset{(n - 1) as nat}
  {
  }

  /** ... and leaves the other classes alone. */
  lemma ResiduesKeep(n: nat, k: nat)
    requires n > 0 && (n - 1) % 3 != k
    ensures Residues(n, k) == Residues(n - 1, k)
  {
  }

  /** The three residue classes of [0, n) taken together. */
  function Classes(n: nat): multiset<nat>
  {
    multiset(Residues(n, 0)) + multiset(Residues(n, 1)) + multiset(Residues(n, 2))
  }

  /** Adding x to any one of three multisets adds it to their sum. */
  lemma UnionGain(a: multiset<nat>, b: multiset<nat>, c: multiset<nat>, x: multiset<nat>)
    ensures (a + x) + b + c == a + b + c + x
    ensures a + (b + x) + c == a + b + c + x
    ensures a + b + (c + x) == a + b + c + x
  {
  }

  /** Position n - 1 joins exactly one class, so the three classes together
      gain exactly it. */
  lemma ResiduesSumStep(n: nat)
    requires n > 0
    ensures Classes(n) == Classes(n - 1) + multiset{(n - 1) as nat}
  {
    var i: nat := n - 1;
    UnionGain(multiset(Residues(i, 0)), multiset(Residues(i, 1)), multiset(Residues(i, 2)), multiset{i});
    if i % 3 == 0 {
      ResiduesGrow(n, 0);
      ResiduesKeep(n, 1);
      ResiduesKeep(n, 2);
    } else if i % 3 == 1 {
      ResiduesKeep(n, 0);
      ResiduesGrow(n, 1);
      ResiduesKeep(n, 2);
    } else {
      ResiduesKeep(n, 0);
      ResiduesKeep(n, 1);
      ResiduesGrow(n, 2);
    }
  }

  /** m0, m1 and m2 together hold every position of [0, n) exactly once. */
  lemma {:induction false} PartitionCovers(n: nat)
    ensures Classes(n) == multiset(Iota(n))
  {
    if n > 0 {
      var i: nat := n - 1;
      PartitionCovers(i);
      ResiduesSumStep(n);
      assert Iota(n) == Iota(i) + [i];
    }
  }

  /** m12 = m1.concat(m2) has no repeated position. */
  lemma SampleDistinct(m1: seq<nat>, m2: seq<nat>, n: nat)
    requires AllResidue(m1, n, 1) && AllResidue(m2, n, 2)
    requires Ascending(m1) && Ascending(m2)
    ensures Distinct(m1 + m2)
  {
    var m12 := m1 + m2;
    forall i, j | 0 <= i < j < |m12|
      ensures m12[i] != m12[j]
    {
      if j < |m1| {
        assert m1[i] < m1[j];
      } else if i >= |m1| {
        assert m2[i - |m1|] < m2[j - |m1|];
      } else {
        assert m12[i] % 3 == 1 && m12[j] % 3 == 2;
      }
    }
  }

  // ---------------------------------------------------------------------
  // Ranking the sample by triples (radixSortM12, suffix-array.ts:127-175)

  /** The `{ pos, index }` records of radixSortM12: a sample position and
      where it stands in m12. */
  datatype Item = Item(pos: nat, index: nat)

  /** The records pushed at suffix-array.ts:134-138, one per entry of m12. */
  function Items(m12: seq<nat>): (r: seq<Item>)
    ensures |r| == |m12|
    ensures forall p :: 0 <= p < |m12| ==> r[p] == Item(p, m12[p])
  {
    seq(|m12|, p requires 0 <= p < |m12| => Item(p, m12[p]))
  }

  function IndexOf(it: Item): nat { it.index }

  /** The bucket key of one pass: the code at offset off from the record's
      position. */
  function CodeKey(s: seq<nat>, off: nat): Item -> nat
  {
    (it: Item) => At(s, it.index + off)
  }

  /** Most significant first; the passes run +2, then +1, then +0. */
  function TripleKeys(s: seq<nat>): seq<Item -> nat>
  {
    [CodeKey(s, 0), CodeKey(s, 1), CodeKey(s, 2)]
  }

  /** The zero-padded triple (s[i], s[i+1], s[i+2]). */
  function Triple(s: seq<nat>, i: nat): (nat, nat, nat)
  {
    (At(s, i), At(s, i + 1), At(s, i + 2))
  }

  /** Lexicographic order of triples. */
  predicate TripleLe(x: (nat, nat, nat), y: (nat, nat, nat))
  {
    || x.0 < y.0
    || (x.0 == y.0 && x.1 < y.1)
    || (x.0 == y.0 && x.1 == y.1 && x.2 <= y.2)
  }

  lemma TripleKeysOrder(s: seq<nat>, a: Item, b: Item)
    ensures LexLe(TripleKeys(s), a, b) <==> TripleLe(Triple(s, a.index), Triple(s, b.index))
  {
    var k0 := TripleKeys(s);
    var k1 := k0[1..];
    var k2 := k1[1..];
    var k3 := k2[1..];
    assert k1 == [CodeKey(s, 1), CodeKey(s, 2)];
    assert k2 == [CodeKey(s, 2)];
    assert k3 == [];
    assert LexLe(k3, a, b);
    assert LexLe(k2, a, b) <==> At(s, a.index + 2) <= At(s, b.index + 2);
    assert LexLe(k1, a, b) <==> (At(s, a.index + 1) < At(s, b.index + 1)
      || (At(s, a.index + 1) == At(s, b.index + 1) && At(s, a.index + 2) <= At(s, b.index + 2)));
  }

  /** The three stable passes of suffix-array.ts:133-147: a permutation of
      the records in the lexicographic order of their triples. */
  function SortTriples(s: seq<nat>, m12: seq<nat>): (sorted: seq<Item>)
    ensures multiset(sorted) == multiset(Items(m12))
    ensures forall i, j :: 0 <= i < j < |sorted| ==>
              TripleLe(Triple(s, sorted[i].index), Triple(s, sorted[j].index))
  {
    var sorted := Radix(Items(m12), TripleKeys(s));
    RadixPermutation(Items(m12), TripleKeys(s));
    RadixSorted(Items(m12), TripleKeys(s));
    assert forall i, j :: 0 <= i < j < |sorted| ==>
              TripleLe(Triple(s, sorted[i].index), Triple(s, sorted[j].index)) by {
      forall i, j | 0 <= i < j < |sorted|
        ensures TripleLe(Triple(s, sorted[i].index), Triple(s, sorted[j].index))
      {
        TripleKeysOrder(s, sorted[i], sorted[j]);
      }
    }
    sorted
  }

  /** The `hasDuplicate` test of suffix-array.ts:156-166.  The source only
      compares a record with its predecessor inside the same final bucket;
      final buckets are keyed by the first code of the triple, so a
      predecessor in another bucket never has an equal triple and the test
      is the same as comparing with the predecessor in the flattened order. */
  predicate SameTriple(s: seq<nat>, a: Item, b: Item)
  {
    Triple(s, a.index) == Triple(s, b.index)
  }

  /** `currentRank` along the sorted records (suffix-array.ts:152-167):
      1 for the first, then unchanged on a duplicate and one more otherwise. */
  function RunRanks(s: seq<nat>, sorted: seq<Item>): (r: seq<nat>)
    ensures |r| == |sorted|
    ensures |r| > 0 ==> r[0] == 1
    ensures forall i, j :: 0 <= i && j == i + 1 && j < |r| ==>
              r[j] == if SameTriple(s, sorted[i], sorted[j]) then r[i] else r[i] + 1
    decreases |sorted|
  {
    if |sorted| == 0 then []
    else
      var k := |sorted| - 1;
      var r := RunRanks(s, sorted[..k]);
      r + [if k == 0 then 1 else if SameTriple(s, sorted[k - 1], sorted[k]) then r[k - 1] else r[k - 1] + 1]
  }

  /** `duplicatesFound`: some record repeats its predecessor's triple. */
  ghost predicate DuplicateFound(s: seq<nat>, sorted: seq<Item>)
  {
    exists i, j :: 0 <= i && j == i + 1 && j < |sorted| && SameTriple(s, sorted[i], sorted[j])
  }

  /** The flag raised by the scan of suffix-array.ts:156-166. */
  function AnyDuplicate(s: seq<nat>, sorted: seq<Item>): (b: bool)
    ensures b <==> DuplicateFound(s, sorted)
    decreases |sorted|
  {
    if |sorted| < 2 then false
    else
      var k := |sorted| - 1;
      var init := sorted[..k];
      var b := AnyDuplicate(s, init) || SameTriple(s, sorted[k - 1], sorted[k]);
      assert DuplicateFound(s, init) ==> DuplicateFound(s, sorted) by {
        if DuplicateFound(s, init) {
          var i, j :| 0 <= i && j == i + 1 && j < |init| && SameTriple(s, init[i], init[j]);
          assert init[i] == sorted[i] && init[j] == sorted[j];
        }
      }
      assert DuplicateFound(s, sorted) && !SameTriple(s, sorted[k - 1], sorted[k]) ==> DuplicateFound(s, init) by {
        if DuplicateFound(s, sorted) && !SameTriple(s, sorted[k - 1], sorted[k]) {
          var i, j :| 0 <= i && j == i + 1 && j < |sorted| && SameTriple(s, sorted[i], sorted[j]);
          assert j < k;
          assert init[i] == sorted[i] && init[j] == sorted[j];
        }
      }
      b
  }

  /** No two records carry the same m12 slot. */
  predicate DistinctPositions(sorted: seq<Item>)
  {
    forall i, j :: 0 <= i < j < |sorted| ==> sorted[i].pos != sorted[j].pos
  }

  /** `rankedM12[pos] = currentRank` (suffix-array.ts:169): the ranks laid
      out by m12 position.  Positions are always below n; a record beyond
      would grow the JavaScript array and is skipped here. */
  function Scatter(sorted: seq<Item>, ranks: seq<nat>, n: nat): (r: seq<nat>)
    requires |ranks| == |sorted|
    ensures |r| == n
    ensures DistinctPositions(sorted) ==>
              forall k :: 0 <= k < |sorted| && sorted[k].pos < n ==> r[sorted[k].pos] == ranks[k]
    decreases |sorted|
  {
    if |sorted| == 0 then seq(n, _ => 0)
    else
      var k := |sorted| - 1;
      var r := Scatter(sorted[..k], ranks[..k], n);
      if sorted[k].pos < n then r[sorted[k].pos := ranks[k]] else r
  }

  /** A record of `keys[i] -> vals[i]` written in order, later writes winning:
      `m12Ranks[index] = currentRank` (suffix-array.ts:170) and
      `m12Ranks[index] = i` (suffix-array.ts:95). */
  function Record(keys: seq<nat>, vals: seq<nat>): (m: map<nat, nat>)
    requires |keys| == |vals|
    ensures forall x :: x in m <==> x in keys
    ensures Distinct(keys) ==> forall k :: 0 <= k < |keys| ==> m[keys[k]] == vals[k]
    decreases |keys|
  {
    if |keys| == 0 then map[]
    else
      var k := |keys| - 1;
      var m := Record(keys[..k], vals[..k]);
      assert keys == keys[..k] + [keys[k]];
      m[keys[k] := vals[k]]
  }

  predicate TripleSorted(s: seq<nat>, sorted: seq<Item>)
  {
    forall i, j :: 0 <= i < j < |sorted| ==>
      TripleLe(Triple(s, sorted[i].index), Triple(s, sorted[j].index))
  }

  /** Ranks never fall along the sorted records. */
  lemma {:induction false} RanksMonotone(s: seq<nat>, sorted: seq<Item>, i: nat, j: nat)
    requires i <= j < |sorted|
    ensures 1 <= RunRanks(s, sorted)[i] <= RunRanks(s, sorted)[j]
    decreases j, i
  {
    if i < j {
      RanksMonotone(s, sorted, i, j - 1);
    } else if i > 0 {
      RanksMonotone(s, sorted, 0, i);
    }
  }

  /** Two sorted records share a rank exactly when they share a triple. */
  lemma {:induction false} RanksEqualIffSameTriple(s: seq<nat>, sorted: seq<Item>, i: nat, j: nat)
    requires TripleSorted(s, sorted)
    requires i < j < |sorted|
    ensures RunRanks(s, sorted)[i] == RunRanks(s, sorted)[j] <==> SameTriple(s, sorted[i], sorted[j])
    decreases j - i
  {
    if j > i + 1 {
      RanksEqualIffSameTriple(s, sorted, i, j - 1);
      RanksMonotone(s, sorted, i, j - 1);
      RanksMonotone(s, sorted, j - 1, j);
      var ti, tm, tj := Triple(s, sorted[i].index), Triple(s, sorted[j - 1].index), Triple(s, sorted[j].index);
      assert TripleLe(ti, tm) && TripleLe(tm, tj);
    }
  }

  /** Ranks order the sorted records exactly as their triples do. */
  lemma RanksOrder(s: seq<nat>, sorted: seq<Item>, i: nat, j: nat)
    requires TripleSorted(s, sorted)
    requires i < |sorted| && j < |sorted|
    ensures RunRanks(s, sorted)[i] <= RunRanks(s, sorted)[j]
        <==> TripleLe(Triple(s, sorted[i].index), Triple(s, sorted[j].index))
  {
    if i < j {
      RanksMonotone(s, sorted, i, j);
    } else if i > j {
      RanksMonotone(s, sorted, j, i);
      RanksEqualIffSameTriple(s, sorted, j, i);
      assert TripleLe(Triple(s, sorted[j].index), Triple(s, sorted[i].index));
    }
  }

  /** Every sorted record is the record of the m12 entry it names, and no
      record repeats. */
  lemma SortedItemsShape(m12: seq<nat>, sorted: seq<Item>)
    requires multiset(sorted) == multiset(Items(m12))
    ensures Distinct(sorted)
    ensures forall k :: 0 <= k < |sorted| ==> sorted[k].pos < |m12| && sorted[k].index == m12[sorted[k].pos]
    ensures DistinctPositions(sorted)
  {
    var items := Items(m12);
    assert Distinct(items);
    PermutationOfDistinct(sorted, items);
    forall k | 0 <= k < |sorted|
      ensures sorted[k].pos < |m12| && sorted[k].index == m12[sorted[k].pos]
    {
      assert sorted[k] in multiset(items);
    }
  }

  /** The record of m12 entry p sits somewhere in the sorted records. */
  lemma ItemLocated(m12: seq<nat>, sorted: seq<Item>, p: nat) returns (k: nat)
    requires multiset(sorted) == multiset(Items(m12))
    requires p < |m12|
    ensures k < |sorted| && sorted[k] == Item(p, m12[p])
  {
    assert Items(m12)[p] in multiset(sorted);
    k :| 0 <= k < |sorted| && sorted[k] == Item(p, m12[p]);
  }

  /** A tie between neighbours in the sorted records is a tie between two
      sample positions. */
  lemma DuplicateFoundSound(s: seq<nat>, m12: seq<nat>, sorted: seq<Item>)
    requires multiset(sorted) == multiset(Items(m12))
    requires DuplicateFound(s, sorted)
    ensures exists p, q :: 0 <= p < q < |m12| && Triple(s, m12[p]) == Triple(s, m12[q])
  {
    SortedItemsShape(m12, sorted);
    var i, j :| 0 <= i && j == i + 1 && j < |sorted| && SameTriple(s, sorted[i], sorted[j]);
    var a, b := sorted[i].pos, sorted[j].pos;
    if a < b {
      assert Triple(s, m12[a]) == Triple(s, m12[b]);
    } else {
      assert Triple(s, m12[b]) == Triple(s, m12[a]);
    }
  }

  /** Two sample positions sharing a triple end up with a tie between
      neighbours once the records are sorted by triple. */
  lemma DuplicateFoundComplete(s: seq<nat>, m12: seq<nat>, sorted: seq<Item>, p: nat, q: nat)
    requires multiset(sorted) == multiset(Items(m12))
    requires TripleSorted(s, sorted)
    requires p < q < |m12| && Triple(s, m12[p]) == Triple(s, m12[q])
    ensures DuplicateFound(s, sorted)
  {
    SortedItemsShape(m12, sorted);
    var kp := ItemLocated(m12, sorted, p);
    var kq := ItemLocated(m12, sorted, q);
    var lo, hi := if kp < kq then kp else kq, if kp < kq then kq else kp;
    assert lo < hi;
    var tl, tm, th := Triple(s, sorted[lo].index), Triple(s, sorted[hi - 1].index), Triple(s, sorted[hi].index);
    assert tl == th;
    if lo < hi - 1 {
      assert TripleLe(tl, tm);
    }
    assert TripleLe(tm, th);
    assert SameTriple(s, sorted[hi - 1], sorted[hi]);
  }

  /** `duplicatesFound` holds exactly when two sample positions share a triple. */
  lemma DuplicateFoundIff(s: seq<nat>, m12: seq<nat>, sorted: seq<Item>)
    requires multiset(sorted) == multiset(Items(m12))
    requires TripleSorted(s, sorted)
    ensures DuplicateFound(s, sorted)
        <==> exists p, q :: 0 <= p < q < |m12| && Triple(s, m12[p]) == Triple(s, m12[q])
  {
    if DuplicateFound(s, sorted) {
      DuplicateFoundSound(s, m12, sorted);
    }
    if exists p, q :: 0 <= p < q < |m12| && Triple(s, m12[p]) == Triple(s, m12[q]) {
      var p, q :| 0 <= p < q < |m12| && Triple(s, m12[p]) == Triple(s, m12[q]);
      DuplicateFoundComplete(s, m12, sorted, p, q);
    }
  }

  /** What radixSortM12 returns (suffix-array.ts:127-175). */
  datatype M12 = M12(duplicatesFound: bool, rankedM12: seq<nat>, sortedM12: seq<nat>, m12Ranks: map<nat, nat>)

  /** radixSortM12: the sample positions in triple order, their ranks in m12
      order and by position, and whether two triples tie. */
  function RadixSortM12(m12: seq<nat>, input: seq<nat>): (res: M12)
    ensures multiset(res.sortedM12) == multiset(m12)
    ensures forall i, j :: 0 <= i < j < |res.sortedM12| ==>
              TripleLe(Triple(input, res.sortedM12[i]), Triple(input, res.sortedM12[j]))
    ensures res.duplicatesFound
        <==> exists p, q :: 0 <= p < q < |m12| && Triple(input, m12[p]) == Triple(input, m12[q])
    ensures |res.rankedM12| == |m12|
    ensures forall x :: x in res.m12Ranks <==> x in m12
  {
    var sorted := SortTriples(input, m12);
    var ranks := RunRanks(input, sorted);
    var sortedM12 := MapSeq(sorted, IndexOf);
    var rankedM12 := Scatter(sorted, ranks, |m12|);
    var m12Ranks := Record(sortedM12, ranks);
    SortedM12Permutation(m12, sorted);
    SortedM12Order(input, sorted, sortedM12);
    DuplicateFoundIff(input, m12, sorted);
    assert forall x :: x in m12Ranks <==> x in m12 by {
      forall x
        ensures x in m12Ranks <==> x in m12
      {
        assert x in sortedM12 <==> x in multiset(m12);
      }
    }
    M12(AnyDuplicate(input, sorted), rankedM12, sortedM12, m12Ranks)
  }

  /** The ranks of radixSortM12: positive, ordered exactly as the triples of
      their sample positions, and the same whether read by m12 position
      (rankedM12) or by text position (m12Ranks). */
  lemma RadixSortM12Ranks(m12: seq<nat>, input: seq<nat>)
    ensures var res := RadixSortM12(m12, input);
            && (forall p :: 0 <= p < |m12| ==> res.rankedM12[p] >= 1)
            && (forall p, q :: 0 <= p < |m12| && 0 <= q < |m12| ==>
                  (res.rankedM12[p] <= res.rankedM12[q] <==> TripleLe(Triple(input, m12[p]), Triple(input, m12[q]))))
            && (Distinct(m12) ==>
                  forall p :: 0 <= p < |m12| ==> res.rankedM12[p] == RankOf(res.m12Ranks, m12[p]))
  {
    var sorted := SortTriples(input, m12);
    var rankedM12 := Scatter(sorted, RunRanks(input, sorted), |m12|);
    ScatterOrder(m12, input, sorted, rankedM12);
    RankAgreesUnfold(m12, input, rankedM12);
    RecordAgrees(m12, input, sorted);
  }

  lemma SortedM12Order(input: seq<nat>, sorted: seq<Item>, sortedM12: seq<nat>)
    requires TripleSorted(input, sorted)
    requires sortedM12 == MapSeq(sorted, IndexOf)
    ensures forall i, j :: 0 <= i < j < |sortedM12| ==>
              TripleLe(Triple(input, sortedM12[i]), Triple(input, sortedM12[j]))
  {
    forall i, j | 0 <= i < j < |sortedM12|
      ensures TripleLe(Triple(input, sortedM12[i]), Triple(input, sortedM12[j]))
    {
      assert sortedM12[i] == sorted[i].index && sortedM12[j] == sorted[j].index;
    }
  }

  lemma SortedM12Permutation(m12: seq<nat>, sorted: seq<Item>)
    requires multiset(sorted) == multiset(Items(m12))
    ensures multiset(MapSeq(sorted, IndexOf)) == multiset(m12)
  {
    MapPermutation(sorted, Items(m12), IndexOf);
    assert MapSeq(Items(m12), IndexOf) == m12;
  }

  lemma ScatterOrder(m12: seq<nat>, input: seq<nat>, sorted: seq<Item>, r: seq<nat>)
    requires multiset(sorted) == multiset(Items(m12))
    requires TripleSorted(input, sorted)
    requires r == Scatter(sorted, RunRanks(input, sorted), |m12|)
    ensures forall p, q :: 0 <= p < |m12| && 0 <= q < |m12| ==> RankAgrees(r, input, m12, p, q)
  {
    forall p, q | 0 <= p < |m12| && 0 <= q < |m12|
      ensures RankAgrees(r, input, m12, p, q)
    {
      ScatterOrderAt(m12, input, sorted, p, q);
    }
  }

  lemma RankAgreesUnfold(m12: seq<nat>, input: seq<nat>, r: seq<nat>)
    requires |r| == |m12|
    requires forall p, q :: 0 <= p < |m12| && 0 <= q < |m12| ==> RankAgrees(r, input, m12, p, q)
    ensures forall p :: 0 <= p < |m12| ==> r[p] >= 1
    ensures forall p, q :: 0 <= p < |m12| && 0 <= q < |m12| ==>
              (r[p] <= r[q] <==> TripleLe(Triple(input, m12[p]), Triple(input, m12[q])))
  {
    forall p | 0 <= p < |m12|
      ensures r[p] >= 1
    {
      assert RankAgrees(r, input, m12, p, p);
    }
    forall p, q | 0 <= p < |m12| && 0 <= q < |m12|
      ensures r[p] <= r[q] <==> TripleLe(Triple(input, m12[p]), Triple(input, m12[q]))
    {
      assert RankAgrees(r, input, m12, p, q);
    }
  }

  /** Rank r[p] is positive and ranks p and q compare as their triples do. */
  predicate RankAgrees(r: seq<nat>, input: seq<nat>, m12: seq<nat>, p: nat, q: nat)
    requires p < |r| && q < |r| && p < |m12| && q < |m12|
  {
    r[p] >= 1 && (r[p] <= r[q] <==> TripleLe(Triple(input, m12[p]), Triple(input, m12[q])))
  }

  lemma ScatterOrderAt(m12: seq<nat>, input: seq<nat>, sorted: seq<Item>, p: nat, q: nat)
    requires multiset(sorted) == multiset(Items(m12))
    requires TripleSorted(input, sorted)
    requires p < |m12| && q < |m12|
    ensures var r := Scatter(sorted, RunRanks(input, sorted), |m12|);
            r[p] >= 1 && (r[p] <= r[q] <==> TripleLe(Triple(input, m12[p]), Triple(input, m12[q])))
  {
    var ranks := RunRanks(input, sorted);
    var r := Scatter(sorted, ranks, |m12|);
    SortedItemsShape(m12, sorted);
    var kp := ItemLocated(m12, sorted, p);
    var kq := ItemLocated(m12, sorted, q);
    assert r[p] == ranks[kp] && r[q] == ranks[kq];
    RanksMonotone(input, sorted, kp, kp);
    RanksOrder(input, sorted, kp, kq);
  }

  lemma RecordAgrees(m12: seq<nat>, input: seq<nat>, sorted: seq<Item>)
    requires multiset(sorted) == multiset(Items(m12))
    ensures Distinct(m12) ==> forall p :: 0 <= p < |m12| ==>
              Scatter(sorted, RunRanks(input, sorted), |m12|)[p]
              == RankOf(Record(MapSeq(sorted, IndexOf), RunRanks(input, sorted)), m12[p])
  {
    var ranks := RunRanks(input, sorted);
    var r := Scatter(sorted, ranks, |m12|);
    var keys := MapSeq(sorted, IndexOf);
    var m := Record(keys, ranks);
    if Distinct(m12) {
      SortedM12Permutation(m12, sorted);
      PermutationOfDistinct(keys, m12);
      forall p | 0 <= p < |m12|
        ensures r[p] == RankOf(m, m12[p])
      {
        RecordAgreesAt(m12, input, sorted, p);
      }
    }
  }

  lemma RecordAgreesAt(m12: seq<nat>, input: seq<nat>, sorted: seq<Item>, p: nat)
    requires multiset(sorted) == multiset(Items(m12))
    requires Distinct(MapSeq(sorted, IndexOf))
    requires p < |m12|
    ensures Scatter(sorted, RunRanks(input, sorted), |m12|)[p]
            == RankOf(Record(MapSeq(sorted, IndexOf), RunRanks(input, sorted)), m12[p])
  {
    var ranks := RunRanks(input, sorted);
    var keys := MapSeq(sorted, IndexOf);
    var m := Record(keys, ranks);
    var r := Scatter(sorted, ranks, |m12|);
    SortedItemsShape(m12, sorted);
    var kp := ItemLocated(m12, sorted, p);
    assert sorted[kp].pos == p;
    assert r[p] == ranks[kp];
    assert keys[kp] == m12[p];
    assert m[keys[kp]] == ranks[kp];
    assert RankOf(m, m12[p]) == ranks[kp];
  }

  /** With no tied triple the ranks are 1, 2, 3, ... along the sorted records. */
  lemma {:induction false} RunRanksNoDuplicate(s: seq<nat>, sorted: seq<Item>)
    requires !DuplicateFound(s, sorted)
    ensures forall k :: 0 <= k < |sorted| ==> RunRanks(s, sorted)[k] == k + 1
    decreases |sorted|
  {
    if |sorted| > 0 {
      var k := |sorted| - 1;
      var init := sorted[..k];
      assert !DuplicateFound(s, init);
      RunRanksNoDuplicate(s, init);
      if k > 0 {
        assert !SameTriple(s, sorted[k - 1], sorted[k]);
      }
    }
  }

  /** Recording distinct keys against the values base, base + 1, ... gives
      the k-th key the value base + k. */
  lemma RecordCounts(keys: seq<nat>, vals: seq<nat>, base: nat)
    requires |keys| == |vals| && Distinct(keys)
    requires forall k :: 0 <= k < |vals| ==> vals[k] == k + base
    ensures forall k :: 0 <= k < |keys| ==> RankOf(Record(keys, vals), keys[k]) == k + base
  {
    var m := Record(keys, vals);
    forall k | 0 <= k < |keys|
      ensures RankOf(m, keys[k]) == k + base
    {
      assert keys[k] in m && m[keys[k]] == vals[k];
    }
  }

  /** Without a tie no two sample positions coincide, and m12Ranks gives the
      k-th sorted position the rank k + 1. */
  lemma NoDuplicateRanks(m12: seq<nat>, input: seq<nat>, res: M12)
    requires res == RadixSortM12(m12, input)
    requires !res.duplicatesFound
    ensures Distinct(m12)
    ensures forall k :: 0 <= k < |res.sortedM12| ==> RankOf(res.m12Ranks, res.sortedM12[k]) == k + 1
  {
    var sorted := SortTriples(input, m12);
    assert res.sortedM12 == MapSeq(sorted, IndexOf);
    assert res.m12Ranks == Record(MapSeq(sorted, IndexOf), RunRanks(input, sorted));
    assert !DuplicateFound(input, sorted);
    NoTieRanks(m12, input, sorted);
  }

  /** The same, stated on the sorted records. */
  lemma NoTieRanks(m12: seq<nat>, input: seq<nat>, sorted: seq<Item>)
    requires sorted == SortTriples(input, m12)
    requires !DuplicateFound(input, sorted)
    ensures Distinct(m12)
    ensures var keys := MapSeq(sorted, IndexOf);
            forall k :: 0 <= k < |keys| ==> RankOf(Record(keys, RunRanks(input, sorted)), keys[k]) == k + 1
  {
    var keys, ranks := MapSeq(sorted, IndexOf), RunRanks(input, sorted);
    DuplicateFoundIff(input, m12, sorted);
    assert forall i, j :: 0 <= i < j < |m12| ==> Triple(input, m12[i]) != Triple(input, m12[j]);
    RunRanksNoDuplicate(input, sorted);
    SortedM12Permutation(m12, sorted);
    PermutationOfDistinct(keys, m12);
    RecordCounts(keys, ranks, 1);
  }

  /** The three passes are stable: the records sharing a triple (c0, c1, c2)
      come out in m12 order. */
  lemma SortTriplesStable(s: seq<nat>, m12: seq<nat>, c0: nat, c1: nat, c2: nat)
    ensures Select(SortTriples(s, m12), TripleKeys(s), [c0, c1, c2])
         == Select(Items(m12), TripleKeys(s), [c0, c1, c2])
  {
    RadixStable(Items(m12), TripleKeys(s), [c0, c1, c2]);
  }

  // ---------------------------------------------------------------------
  // Sorting the positions of residue 0 (radixSortM0, suffix-array.ts:104-125)

  /** The code at a position. */
  function CharKey(s: seq<nat>): nat -> nat
  {
    i => At(s, i)
  }

  /** `m12Ranks[index + 1] || 0`: the rank of the following sample position. */
  function RankKey(ranks: map<nat, nat>): nat -> nat
  {
    i => RankOf(ranks, i + 1)
  }

  /** Most significant first: the pass by rank runs first, the pass by code last. */
  function M0Keys(s: seq<nat>, ranks: map<nat, nat>): seq<nat -> nat>
  {
    [CharKey(s), RankKey(ranks)]
  }

  /** (s[a], rank(a + 1)) <= (s[b], rank(b + 1)) lexicographically. */
  predicate PairLe(s: seq<nat>, ranks: map<nat, nat>, a: nat, b: nat)
  {
    || At(s, a) < At(s, b)
    || (At(s, a) == At(s, b) && RankOf(ranks, a + 1) <= RankOf(ranks, b + 1))
  }

  lemma M0KeysOrder(s: seq<nat>, ranks: map<nat, nat>, a: nat, b: nat)
    ensures LexLe(M0Keys(s, ranks), a, b) <==> PairLe(s, ranks, a, b)
  {
    var k0 := M0Keys(s, ranks);
    var k1 := k0[1..];
    var k2 := k1[1..];
    assert k1 == [RankKey(ranks)];
    assert k2 == [];
    assert LexLe(k2, a, b);
    assert LexLe(k1, a, b) <==> RankOf(ranks, a + 1) <= RankOf(ranks, b + 1);
  }

  /** radixSortM0: the positions of m0 ordered by their code, ties broken by
      the rank of the next position. */
  function RadixSortM0(m0: seq<nat>, ranks: map<nat, nat>, input: seq<nat>): (sortedM0: seq<nat>)
    ensures multiset(sortedM0) == multiset(m0)
    ensures forall i, j :: 0 <= i < j < |sortedM0| ==> PairLe(input, ranks, sortedM0[i], sortedM0[j])
  {
    var keys := M0Keys(input, ranks);
    var sortedM0 := Radix(m0, keys);
    RadixPermutation(m0, keys);
    RadixSorted(m0, keys);
    assert forall i, j :: 0 <= i < j < |sortedM0| ==> PairLe(input, ranks, sortedM0[i], sortedM0[j]) by {
      forall i, j | 0 <= i < j < |sortedM0|
        ensures PairLe(input, ranks, sortedM0[i], sortedM0[j])
      {
        M0KeysOrder(input, ranks, sortedM0[i], sortedM0[j]);
      }
    }
    sortedM0
  }

  /** Both passes are stable: the positions sharing a code c and a next rank k
      come out in m0 order. */
  lemma RadixSortM0Stable(m0: seq<nat>, ranks: map<nat, nat>, input: seq<nat>, c: nat, k: nat)
    ensures Select(RadixSortM0(m0, ranks, input), M0Keys(input, ranks), [c, k])
         == Select(m0, M0Keys(input, ranks), [c, k])
  {
    RadixStable(m0, M0Keys(input, ranks), [c, k]);
  }

  // ---------------------------------------------------------------------
  // Comparing and merging (suffix-array.ts:177-219)

  /** How many times `compare` recurses before both positions lie off
      residue 0 and the ranks decide. */
  function Steps(a: nat, b: nat): (k: nat)
    ensures k <= 2
    ensures (a + k) % 3 != 0 && (b + k) % 3 != 0
    ensures k >= 1 ==> a % 3 == 0 || b % 3 == 0
    ensures k == 2 ==> (a + 1) % 3 == 0 || (b + 1) % 3 == 0
    ensures a % 3 == 0 && b % 3 == 1 ==> k == 1
    ensures a % 3 == 0 && b % 3 == 2 ==> k == 2
  {
    if a % 3 != 0 && b % 3 != 0 then 0
    else if (a + 1) % 3 != 0 && (b + 1) % 3 != 0 then 1
    else 2
  }

  /** compare (suffix-array.ts:206-219): whether the suffix at a goes before
      the suffix at b.  The codes it reads are input[a .. a + Steps(a, b)) and
      input[b .. b + Steps(a, b)), so with a three-code padding it never reads
      past the end for positions of the text. */
  function Compare(a: nat, b: nat, ranks: map<nat, nat>, input: seq<nat>): (pushFirst: bool)
    requires a + Steps(a, b) <= |input| && b + Steps(a, b) <= |input|
    ensures Steps(a, b) == 0 ==> (pushFirst <==> RankOf(ranks, a) < RankOf(ranks, b))
    ensures Steps(a, b) == 1 ==>
              (pushFirst <==> input[a] < input[b]
                              || (input[a] == input[b] && RankOf(ranks, a + 1) < RankOf(ranks, b + 1)))
    ensures Steps(a, b) == 2 ==>
              (pushFirst <==> input[a] < input[b]
                              || (input[a] == input[b]
                                  && (input[a + 1] < input[b + 1]
                                      || (input[a + 1] == input[b + 1] && RankOf(ranks, a + 2) < RankOf(ranks, b + 2)))))
    decreases Steps(a, b)
  {
    if a % 3 != 0 && b % 3 != 0 then RankOf(ranks, a) < RankOf(ranks, b)
    else if input[a] == input[b] then Compare(a + 1, b + 1, ranks, input)
    else input[a] < input[b]
  }

  /** Positions whose comparison stays inside input. */
  predicate Comparable(xs: seq<nat>, input: seq<nat>)
  {
    forall i :: 0 <= i < |xs| ==> xs[i] + 2 <= |input|
  }

  /** merge (suffix-array.ts:177-204): repeatedly take the head that compare
      puts first, then append what is left of both lists. */
  function Merge(input: seq<nat>, sortedM0: seq<nat>, sortedM12: seq<nat>, ranks: map<nat, nat>): (sorted: seq<nat>)
    requires Comparable(sortedM0, input) && Comparable(sortedM12, input)
    ensures Interleaving(sorted, sortedM0, sortedM12)
    ensures multiset(sorted) == multiset(sortedM0) + multiset(sortedM12)
    decreases |sortedM0| + |sortedM12|
  {
    if |sortedM0| == 0 || |sortedM12| == 0 then
      InterleavingLeft(sortedM0);
      InterleavingLeft(sortedM12);
      assert |sortedM0| == 0 ==> sortedM0 + sortedM12 == sortedM12;
      assert |sortedM12| == 0 ==> sortedM0 + sortedM12 == sortedM0;
      InterleavingMultiset(sortedM0 + sortedM12, sortedM0, sortedM12);
      sortedM0 + sortedM12
    else
      var sorted :=
        if Compare(sortedM0[0], sortedM12[0], ranks, input) then
          [sortedM0[0]] + Merge(input, sortedM0[1..], sortedM12, ranks)
        else
          [sortedM12[0]] + Merge(input, sortedM0, sortedM12[1..], ranks);
      InterleavingMultiset(sorted, sortedM0, sortedM12);
      sorted
  }

  /** The while loop of merge, step by step, computes Merge. */
  method MergeLoop(input: seq<nat>, sortedM0: seq<nat>, sortedM12: seq<nat>, ranks: map<nat, nat>)
    returns (sorted: seq<nat>)
    requires Comparable(sortedM0, input) && Comparable(sortedM12, input)
    ensures sorted == Merge(input, sortedM0, sortedM12, ranks)
  {
    sorted := [];
    var m0Index, m12Index := 0, 0;
    while m0Index < |sortedM0| && m12Index < |sortedM12|
      invariant m0Index <= |sortedM0| && m12Index <= |sortedM12|
      invariant sorted + Merge(input, sortedM0[m0Index..], sortedM12[m12Index..], ranks)
             == Merge(input, sortedM0, sortedM12, ranks)
      decreases |sortedM0| - m0Index + |sortedM12| - m12Index
    {
      var a, b := sortedM0[m0Index..], sortedM12[m12Index..];
      assert Comparable(a, input) && Comparable(b, input);
      if Compare(a[0], b[0], ranks, input) {
        assert a[1..] == sortedM0[m0Index + 1..];
        ghost var rest := Merge(input, a[1..], b, ranks);
        assert Merge(input, a, b, ranks) == [a[0]] + rest;
        SnocAppend(sorted, a[0], rest);
        sorted := sorted + [a[0]];
        m0Index := m0Index + 1;
      } else {
        assert b[1..] == sortedM12[m12Index + 1..];
        ghost var rest := Merge(input, a, b[1..], ranks);
        assert Merge(input, a, b, ranks) == [b[0]] + rest;
        SnocAppend(sorted, b[0], rest);
        sorted := sorted + [b[0]];
        m12Index := m12Index + 1;
      }
    }
    sorted := sorted + (sortedM0[m0Index..] + sortedM12[m12Index..]);
  }

  // ---------------------------------------------------------------------
  // The construction (getSuffixArray, suffix-array.ts:65-102)

  /** m12 = m1.concat(m2): the sample positions of a text of length n. */
  function SampleM12(n: nat): (m12: seq<nat>)
    ensures forall i :: 0 <= i < |m12| ==> m12[i] < n && m12[i] % 3 != 0
  {
    ResiduesShape(n, 1);
    ResiduesShape(n, 2);
    Residues(n, 1) + Residues(n, 2)
  }

  /** The text with three zeros appended, so that every triple read from a
      sample position stays inside it (suffix-array.ts:82). */
  function Padded(s: seq<nat>): seq<nat>
  {
    s + [0, 0, 0]
  }

  /** Two sample positions whose zero-padded triples coincide: the case in
      which radixSortM12 reports duplicates and the sample is sorted by
      recursion. */
  ghost predicate TiedSample(s: seq<nat>)
  {
    var m12 := SampleM12(|s|);
    exists p, q :: 0 <= p < q < |m12| && Triple(s, m12[p]) == Triple(s, m12[q])
  }

  /** The order of the sample positions and the rank table that
      radixSortM0 and merge read (suffix-array.ts:84-96). */
  datatype Sample = Sample(sortedM12: seq<nat>, m12Ranks: map<nat, nat>)

  /** radixSortM12 on the padded text; on a tie, the suffix array of the
      ranks read back as sample positions and re-ranked from 0 by their
      place in that order (suffix-array.ts:91-96). */
  function RankSample(s: seq<nat>): (smp: Sample)
    ensures multiset(smp.sortedM12) == multiset(SampleM12(|s|))
    ensures forall x :: x in smp.m12Ranks <==> x in SampleM12(|s|)
    ensures TiedSample(s) ==>
              forall k :: 0 <= k < |smp.sortedM12| ==> RankOf(smp.m12Ranks, smp.sortedM12[k]) == k
    ensures !TiedSample(s) ==>
              forall k :: 0 <= k < |smp.sortedM12| ==> RankOf(smp.m12Ranks, smp.sortedM12[k]) == k + 1
    ensures !TiedSample(s) ==>
              forall i, j :: 0 <= i < j < |smp.sortedM12| ==>
                TripleLe(Triple(s, smp.sortedM12[i]), Triple(s, smp.sortedM12[j]))
    decreases |s|, 0
  {
    var n := |s|;
    var m12 := SampleM12(n);
    var padded := Padded(s);
    var res := RadixSortM12(m12, padded);
    TiedSampleIff(s, res);
    if res.duplicatesFound then
      SampleSmaller(n);
      SampleIsDistinct(n);
      ResortSample(m12, res.rankedM12)
    else
      UntiedSample(s, res);
      Sample(res.sortedM12, res.m12Ranks)
  }

  /** The recursive branch (suffix-array.ts:92-95): the suffix array of the
      ranks, read back as sample positions, each ranked by its place in that
      order, counting from 0. */
  function ResortSample(m12: seq<nat>, rankedM12: seq<nat>): (smp: Sample)
    requires |rankedM12| == |m12|
    ensures multiset(smp.sortedM12) == multiset(m12)
    ensures forall x :: x in smp.m12Ranks <==> x in m12
    ensures Distinct(m12) ==>
              forall k :: 0 <= k < |smp.sortedM12| ==> RankOf(smp.m12Ranks, smp.sortedM12[k]) == k
    decreases |rankedM12|, 2
  {
    var rec := SuffixArray(rankedM12);
    var sortedM12 := MapSeq(rec, Pick(m12));
    PickPermutation(m12, rec);
    var smp := Sample(sortedM12, Record(sortedM12, Iota(|sortedM12|)));
    ZeroBasedRanks(m12, sortedM12, smp.m12Ranks);
    smp
  }

  /** radixSortM12 on the padded text reports duplicates exactly on a tie. */
  lemma TiedSampleIff(s: seq<nat>, res: M12)
    requires res == RadixSortM12(SampleM12(|s|), Padded(s))
    ensures res.duplicatesFound <==> TiedSample(s)
    ensures |res.rankedM12| == |SampleM12(|s|)|
  {
    PaddedTriples(s, SampleM12(|s|), []);
  }

  /** Without a tie, radixSortM12's own order and 1-based ranks are kept. */
  lemma UntiedSample(s: seq<nat>, res: M12)
    requires res == RadixSortM12(SampleM12(|s|), Padded(s))
    requires !res.duplicatesFound
    ensures multiset(res.sortedM12) == multiset(SampleM12(|s|))
    ensures forall x :: x in res.m12Ranks <==> x in SampleM12(|s|)
    ensures forall k :: 0 <= k < |res.sortedM12| ==> RankOf(res.m12Ranks, res.sortedM12[k]) == k + 1
    ensures forall i, j :: 0 <= i < j < |res.sortedM12| ==>
              TripleLe(Triple(s, res.sortedM12[i]), Triple(s, res.sortedM12[j]))
  {
    var m12 := SampleM12(|s|);
    var padded := Padded(s);
    NoDuplicateRanks(m12, padded, res);
    PaddedTriples(s, m12, res.sortedM12);
  }

  /** getSuffixArray: the sorted positions of residue 0 merged with the
      sorted sample.  The result is a permutation of the text's positions;
      an empty text gives an empty array. */
  function SuffixArray(s: seq<nat>): (sa: seq<nat>)
    ensures |sa| == |s|
    ensures multiset(sa) == multiset(Iota(|s|))
    decreases |s|, 1
  {
    var n := |s|;
    var padded := Padded(s);
    var smp := RankSample(s);
    var m0 := Residues(n, 0);
    var sortedM0 := RadixSortM0(m0, smp.m12Ranks, padded);
    MergeInputs(n, padded, sortedM0, smp.sortedM12);
    var sa := Merge(padded, sortedM0, smp.sortedM12, smp.m12Ranks);
    assert multiset(sa) == multiset(Iota(n));
    assert |sa| == |multiset(sa)| == |multiset(Iota(n))| == n;
    sa
  }

  /** Reading the padded text is reading the text with zeros past its end. */
  lemma PaddedTriples(s: seq<nat>, m12: seq<nat>, sorted: seq<nat>)
    ensures forall i :: 0 <= i < |m12| ==> Triple(Padded(s), m12[i]) == Triple(s, m12[i])
    ensures forall i :: 0 <= i < |sorted| ==> Triple(Padded(s), sorted[i]) == Triple(s, sorted[i])
  {
  }

  /** The sample is smaller than a non-empty text, so the recursion ends. */
  lemma {:induction false} SampleSmaller(n: nat)
    ensures n > 0 ==> |SampleM12(n)| < n
  {
    ResiduesCount(n);
  }

  lemma {:induction false} ResiduesCount(n: nat)
    ensures |Residues(n, 0)| + |Residues(n, 1)| + |Residues(n, 2)| == n
    ensures n > 0 ==> |Residues(n, 0)| >= 1
  {
    if n > 0 {
      ResiduesCount(n - 1);
    }
  }

  /** `(index) => m12[index]`. */
  function Pick(m12: seq<nat>): nat -> nat
  {
    (i: nat) => At(m12, i)
  }

  /** Picking every index of m12 in order gives m12 back. */
  lemma PickIota(m12: seq<nat>)
    ensures MapSeq(Iota(|m12|), Pick(m12)) == m12
  {
    var picked := MapSeq(Iota(|m12|), Pick(m12));
    IotaIndex(|m12|);
    forall k | 0 <= k < |m12|
      ensures picked[k] == m12[k]
    {
      assert picked[k] == Pick(m12)(Iota(|m12|)[k]);
    }
  }

  /** `rankedM12.map((index) => m12[index])` over a permutation of the
      indices of m12 is a permutation of m12. */
  lemma PickPermutation(m12: seq<nat>, rec: seq<nat>)
    requires multiset(rec) == multiset(Iota(|m12|))
    ensures multiset(MapSeq(rec, Pick(m12))) == multiset(m12)
  {
    MapPermutation(rec, Iota(|m12|), Pick(m12));
    PickIota(m12);
  }

  /** After the recursion, `m12Ranks[index] = i`: ranks count from 0. */
  lemma ZeroBasedRanks(m12: seq<nat>, sortedM12: seq<nat>, ranks: map<nat, nat>)
    requires multiset(sortedM12) == multiset(m12)
    requires ranks == Record(sortedM12, Iota(|sortedM12|))
    ensures forall x :: x in ranks <==> x in m12
    ensures Distinct(m12) ==> forall k :: 0 <= k < |sortedM12| ==> RankOf(ranks, sortedM12[k]) == k
  {
    if Distinct(m12) {
      PermutationOfDistinct(sortedM12, m12);
      var idx := Iota(|sortedM12|);
      IotaIndex(|sortedM12|);
      forall k | 0 <= k < |sortedM12|
        ensures RankOf(ranks, sortedM12[k]) == k
      {
        assert ranks[sortedM12[k]] == idx[k];
      }
    }
    forall x
      ensures x in ranks <==> x in m12
    {
      assert x in sortedM12 <==> x in multiset(m12);
    }
  }

  lemma SampleIsDistinct(n: nat)
    ensures Distinct(SampleM12(n))
  {
    ResiduesShape(n, 1);
    ResiduesShape(n, 2);
    SampleDistinct(Residues(n, 1), Residues(n, 2), n);
  }

  /** Both merge inputs hold text positions only, and together they are the
      positions 0 .. n-1. */
  lemma MergeInputs(n: nat, padded: seq<nat>, sortedM0: seq<nat>, sortedM12: seq<nat>)
    requires |padded| == n + 3
    requires multiset(sortedM0) == multiset(Residues(n, 0))
    requires multiset(sortedM12) == multiset(SampleM12(n))
    ensures Comparable(sortedM0, padded) && Comparable(sortedM12, padded)
    ensures multiset(sortedM0) + multiset(sortedM12) == multiset(Iota(n))
  {
    ResiduesShape(n, 0);
    PermutationMembers(sortedM0, Residues(n, 0));
    PermutationMembers(sortedM12, SampleM12(n));
    PartitionCovers(n);
  }

  /** After the recursion the smallest sample position has rank 0, which is
      also what `m12Ranks[i] || 0` gives a position without a rank, such as
      the text length n that radixSortM0 and compare read one past the last
      position. */
  lemma RankZeroCollision(s: seq<nat>)
    requires TiedSample(s)
    ensures var smp := RankSample(s);
            && |smp.sortedM12| > 0
            && RankOf(smp.m12Ranks, smp.sortedM12[0]) == 0
            && RankOf(smp.m12Ranks, |s|) == 0
  {
    var smp := RankSample(s);
    var m12 := SampleM12(|s|);
    assert |m12| >= 2;
    assert |smp.sortedM12| == |multiset(smp.sortedM12)| == |multiset(m12)| == |m12|;
    assert |s| !in m12;
  }

  // ---------------------------------------------------------------------
  // Four empty entries: the text [0, 0, 0, 0]

  /** One step of getSuffixArray: the sorted positions of residue 0 merged
      with the ranked sample. */
  lemma SuffixArrayStep(s: seq<nat>)
    ensures var padded := Padded(s);
            var smp := RankSample(s);
            var sortedM0 := RadixSortM0(Residues(|s|, 0), smp.m12Ranks, padded);
            && Comparable(sortedM0, padded) && Comparable(smp.sortedM12, padded)
            && SuffixArray(s) == Merge(padded, sortedM0, smp.sortedM12, smp.m12Ranks)
  {
    var padded := Padded(s);
    var smp := RankSample(s);
    var sortedM0 := RadixSortM0(Residues(|s|, 0), smp.m12Ranks, padded);
    MergeInputs(|s|, padded, sortedM0, smp.sortedM12);
  }

  /** merge takes the head of the sample when compare does not put the
      residue-0 head first. */
  lemma MergeTakesSample(input: seq<nat>, xs: seq<nat>, ys: seq<nat>, ranks: map<nat, nat>)
    requires Comparable(xs, input) && Comparable(ys, input)
    requires |xs| > 0 && |ys| > 0 && !Compare(xs[0], ys[0], ranks, input)
    ensures Comparable(ys[1..], input)
    ensures Merge(input, xs, ys, ranks) == [ys[0]] + Merge(input, xs, ys[1..], ranks)
  {
  }

  /** Once the sample is used up, merge appends what is left. */
  lemma MergeRest(input: seq<nat>, xs: seq<nat>, ranks: map<nat, nat>)
    requires Comparable(xs, input)
    ensures Merge(input, xs, [], ranks) == xs
  {
    assert xs + [] == xs;
  }

  lemma SampleOfTwo()
    ensures SampleM12(2) == [1] && Residues(2, 0) == [0]
  {
    assert Residues(2, 1) == [1];
    assert Residues(2, 2) == [];
  }

  lemma SampleOfFour()
    ensures SampleM12(4) == [1, 2] && Residues(4, 0) == [0, 3]
  {
    assert Residues(4, 1) == [1];
    assert Residues(4, 2) == [2];
  }

  /** A text of two codes has the one sample position 1. */
  lemma PairSample(s: seq<nat>)
    requires |s| == 2
    ensures RankSample(s).sortedM12 == [1]
  {
    SampleOfTwo();
    OnlyElement(RankSample(s).sortedM12, 1);
  }

  /** Position 2 of a text of two codes is outside the sample and has no
      rank. */
  lemma PairUnranked(s: seq<nat>)
    requires |s| == 2
    ensures RankOf(RankSample(s).m12Ranks, 2) == 0
  {
    SampleOfTwo();
  }

  lemma PairM0(s: seq<nat>)
    requires |s| == 2
    ensures RadixSortM0(Residues(|s|, 0), RankSample(s).m12Ranks, Padded(s)) == [0]
  {
    SampleOfTwo();
    OnlyElement(RadixSortM0(Residues(|s|, 0), RankSample(s).m12Ranks, Padded(s)), 0);
  }

  /** What the last step of getSuffixArray reads on two equal codes: the
      residue-0 position 0, the sample position 1, and no rank at 2. */
  predicate PairShape(s: seq<nat>, m0: seq<nat>, smp: Sample)
  {
    && |s| == 2 && s[0] == s[1]
    && m0 == [0] && smp.sortedM12 == [1] && RankOf(smp.m12Ranks, 2) == 0
  }

  lemma PairFacts(s: seq<nat>) returns (m0: seq<nat>)
    requires |s| == 2 && s[0] == s[1]
    ensures m0 == RadixSortM0(Residues(|s|, 0), RankSample(s).m12Ranks, Padded(s))
    ensures PairShape(s, m0, RankSample(s))
  {
    m0 := RadixSortM0(Residues(|s|, 0), RankSample(s).m12Ranks, Padded(s));
    PairSample(s);
    PairUnranked(s);
    PairM0(s);
  }

  /** merge of [0] with [1] on two equal codes: compare does not put 0
      first, since the codes tie and the rank after 1 reads 0, which no
      rank is below. */
  lemma PairMerge(s: seq<nat>, m0: seq<nat>, smp: Sample)
    requires PairShape(s, m0, smp)
    ensures Comparable(m0, Padded(s)) && Comparable(smp.sortedM12, Padded(s))
    ensures Merge(Padded(s), m0, smp.sortedM12, smp.m12Ranks) == [1, 0]
  {
    var input := Padded(s);
    assert Steps(0, 1) == 1;
    assert !Compare(0, 1, smp.m12Ranks, input);
    MergeTakesSample(input, m0, smp.sortedM12, smp.m12Ranks);
    MergeRest(input, m0, smp.m12Ranks);
  }

  /** The last step of getSuffixArray on two equal codes (its inputs are
      comparable by SuffixArrayStep). */
  lemma PairStep(s: seq<nat>)
    requires |s| == 2 && s[0] == s[1]
    ensures var smp := RankSample(s);
            var sortedM0 := RadixSortM0(Residues(|s|, 0), smp.m12Ranks, Padded(s));
            Comparable(sortedM0, Padded(s)) && Comparable(smp.sortedM12, Padded(s)) ==>
              Merge(Padded(s), sortedM0, smp.sortedM12, smp.m12Ranks) == [1, 0]
  {
    var m0 := PairFacts(s);
    PairMerge(s, m0, RankSample(s));
  }

  /** Two equal codes: the shorter suffix first. */
  lemma PairSuffixArray(s: seq<nat>)
    requires |s| == 2 && s[0] == s[1]
    ensures SuffixArray(s) == [1, 0]
  {
    SuffixArrayStep(s);
    PairStep(s);
  }

  /** Two sample positions with one triple get one rank. */
  lemma TiedRanks(m12: seq<nat>, input: seq<nat>)
    requires |m12| == 2 && Triple(input, m12[0]) == Triple(input, m12[1])
    ensures |RadixSortM12(m12, input).rankedM12| == 2
    ensures RadixSortM12(m12, input).rankedM12[0] == RadixSortM12(m12, input).rankedM12[1]
  {
    RadixSortM12Ranks(m12, input);
  }

  lemma ZerosDuplicates(s: seq<nat>)
    requires |s| == 4 && s[0] == s[1] == s[2] == s[3] == 0
    ensures RadixSortM12(SampleM12(|s|), Padded(s)).duplicatesFound
  {
    SampleOfFour();
    assert Triple(s, SampleM12(|s|)[0]) == Triple(s, SampleM12(|s|)[1]);
    TiedSampleIff(s, RadixSortM12(SampleM12(|s|), Padded(s)));
  }

  /** On four zero codes the two sample positions tie, so their ranks are
      sorted by recursion. */
  lemma ZerosTie(s: seq<nat>)
    requires |s| == 4 && s[0] == s[1] == s[2] == s[3] == 0
    ensures var m12 := SampleM12(|s|);
            var ranked := RadixSortM12(m12, Padded(s)).rankedM12;
            && m12 == [1, 2] && |ranked| == 2 && ranked[0] == ranked[1]
            && RankSample(s) == ResortSample(m12, ranked)
  {
    SampleOfFour();
    ZerosDuplicates(s);
    TiedRanks([1, 2], Padded(s));
  }

  lemma ResortUnfold(m12: seq<nat>, ranked: seq<nat>)
    requires |ranked| == |m12|
    ensures ResortSample(m12, ranked).sortedM12 == MapSeq(SuffixArray(ranked), Pick(m12))
  {
  }

  lemma PickZeros(m12: seq<nat>, rec: seq<nat>)
    requires m12 == [1, 2] && rec == [1, 0]
    ensures MapSeq(rec, Pick(m12)) == [2, 1]
  {
    assert Pick(m12)(1) == 2 && Pick(m12)(0) == 1;
  }

  /** ... and the recursion ranks position 2 before position 1, from 0, so
      rank 0 is both position 2's and that of the missing positions 4 and 5. */
  lemma ZerosSample(s: seq<nat>)
    requires |s| == 4 && s[0] == s[1] == s[2] == s[3] == 0
    ensures var smp := RankSample(s);
            && smp.sortedM12 == [2, 1]
            && RankOf(smp.m12Ranks, 1) == 1 && RankOf(smp.m12Ranks, 2) == 0
            && RankOf(smp.m12Ranks, 4) == 0 && RankOf(smp.m12Ranks, 5) == 0
  {
    ZerosTie(s);
    var m12 := SampleM12(|s|);
    var ranked := RadixSortM12(m12, Padded(s)).rankedM12;
    var smp := ResortSample(m12, ranked);
    assert smp.sortedM12 == [2, 1] by {
      ResortUnfold(m12, ranked);
      PairSuffixArray(ranked);
      PickZeros(m12, SuffixArray(ranked));
    }
    SampleIsDistinct(4);
    SampleRanks(smp);
  }

  lemma SampleRanks(smp: Sample)
    requires smp.sortedM12 == [2, 1]
    requires forall x :: x in smp.m12Ranks <==> x in [1, 2]
    requires forall k :: 0 <= k < |smp.sortedM12| ==> RankOf(smp.m12Ranks, smp.sortedM12[k]) == k
    ensures RankOf(smp.m12Ranks, 1) == 1 && RankOf(smp.m12Ranks, 2) == 0
    ensures RankOf(smp.m12Ranks, 4) == 0 && RankOf(smp.m12Ranks, 5) == 0
  {
    assert smp.sortedM12[0] == 2 && smp.sortedM12[1] == 1;
  }

  lemma PaddedZeros(s: seq<nat>)
    requires |s| == 4 && s[0] == s[1] == s[2] == s[3] == 0
    ensures |Padded(s)| == 7 && forall i :: 0 <= i < 7 ==> Padded(s)[i] == 0
  {
  }

  /** radixSortM0 puts 3 before 0: the rank after 3 reads 0, below the rank
      after 0. */
  lemma ZerosM0(input: seq<nat>, ranks: map<nat, nat>, m0: seq<nat>)
    requires |input| == 7 && forall i :: 0 <= i < 7 ==> input[i] == 0
    requires RankOf(ranks, 1) == 1 && RankOf(ranks, 4) == 0
    requires m0 == [0, 3]
    ensures RadixSortM0(m0, ranks, input) == [3, 0]
  {
    TwoElements(RadixSortM0(m0, ranks, input), 0, 3);
  }

  /** compare never puts 3 first: after 3 it reaches the ranks of 4 and
      5, both 0 like that of 2. */
  lemma ZerosCompare(input: seq<nat>, ranks: map<nat, nat>)
    requires |input| == 7 && forall i :: 0 <= i < 7 ==> input[i] == 0
    requires RankOf(ranks, 2) == 0 && RankOf(ranks, 4) == 0 && RankOf(ranks, 5) == 0
    ensures !Compare(3, 2, ranks, input) && !Compare(3, 1, ranks, input)
  {
    assert Steps(3, 2) == 2 && Steps(3, 1) == 1;
  }

  /** merge of [3, 0] with [2, 1]: the sample goes first. */
  lemma ZerosMerge(input: seq<nat>, ranks: map<nat, nat>)
    requires |input| == 7 && forall i :: 0 <= i < 7 ==> input[i] == 0
    requires RankOf(ranks, 2) == 0 && RankOf(ranks, 4) == 0 && RankOf(ranks, 5) == 0
    ensures Comparable([3, 0], input) && Comparable([2, 1], input)
    ensures Merge(input, [3, 0], [2, 1], ranks) == [2, 1, 3, 0]
  {
    var m0: seq<nat> := [3, 0];
    var m12: seq<nat> := [2, 1];
    ZerosCompare(input, ranks);
    MergeTakesSample(input, m0, m12, ranks);
    assert m12[1..] == [1];
    MergeTakesSample(input, m0, [1], ranks);
    assert [1][1..] == [];
    MergeRest(input, m0, ranks);
  }

  /** The text of four empty entries, [0, 0, 0, 0]: getSuffixArray returns
      [2, 1, 3, 0], listing the suffix 0 0 0 at 1 before the suffix 0 at 3. */
  lemma ZerosSuffixArray(s: seq<nat>)
    requires |s| == 4 && s[0] == s[1] == s[2] == s[3] == 0
    ensures SuffixArray(s) == [2, 1, 3, 0]
  {
    var padded := Padded(s);
    var smp := RankSample(s);
    SuffixArrayStep(s);
    ZerosSample(s);
    assert Residues(|s|, 0) == [0, 3] by {
      SampleOfFour();
    }
    PaddedZeros(s);
    ZerosM0(padded, smp.m12Ranks, Residues(|s|, 0));
    ZerosMerge(padded, smp.m12Ranks);
  }
}
