/** The query side of the index (suffix-array.ts:296-353): the common
    prefix of a query with one suffix, the binary search for the first and
    the last matching slot, and the entries of the slots in between. */
module MatchEngine {
  import opened Seqs
  import opened CharacterStream

  /** `charArray[i]`: undefined past the end of the text. */
  function CharAt(chars: seq<nat>, i: nat): Option<nat>
  {
    if i < |chars| then Some(chars[i]) else None
  }

  /** query occurs in the text at position pos (the empty query anywhere). */
  predicate PrefixAt(query: seq<nat>, chars: seq<nat>, pos: nat)
  {
    forall k :: 0 <= k < |query| ==> pos + k < |chars| && chars[pos + k] == query[k]
  }

  /** What getLCP returns. */
  datatype Lcp = Lcp(lcp: seq<nat>, isMatched: bool, nextChar: Option<nat>)

  /** The loop of getLCP from query index i on, the first i characters
      having matched already. */
  function LcpFrom(query: seq<nat>, chars: seq<nat>, pos: nat, getNext: bool, i: nat): Lcp
    requires i <= |query| && PrefixAt(query[..i], chars, pos)
    decreases |query| - i
  {
    if i == |query| then
      assert query[..i] == query;
      Lcp(query, true, None)
    else if CharAt(chars, pos + i) != Some(query[i]) then
      Lcp(query[..i], false, if getNext then CharAt(chars, pos + i) else None)
    else
      LcpFrom(query, chars, pos, getNext, i + 1)
  }

  /** What the loop of getLCP computes from index i on. */
  lemma {:induction false} LcpFromSpec(query: seq<nat>, chars: seq<nat>, pos: nat, getNext: bool, i: nat)
    requires i <= |query| && PrefixAt(query[..i], chars, pos)
    ensures var r := LcpFrom(query, chars, pos, getNext, i);
            && i <= |r.lcp| <= |query| && r.lcp == query[..|r.lcp|]
            && PrefixAt(r.lcp, chars, pos)
            && (r.isMatched <==> |r.lcp| == |query|)
            && (!r.isMatched ==> CharAt(chars, pos + |r.lcp|) != Some(query[|r.lcp|]))
            && r.nextChar == if getNext && !r.isMatched then CharAt(chars, pos + |r.lcp|) else None
    decreases |query| - i
  {
    if i < |query| && CharAt(chars, pos + i) == Some(query[i]) {
      LcpFromSpec(query, chars, pos, getNext, i + 1);
    }
  }

  /** getLCP: the longest common prefix of the query and the suffix at pos,
      whether it is the whole query, and, when asked for, the suffix
      character at the first mismatch. */
  function GetLcp(query: seq<nat>, chars: seq<nat>, pos: nat, getNext: bool): (r: Lcp)
    ensures r.isMatched <==> PrefixAt(query, chars, pos)
  {
    LcpSpec(query, chars, pos, getNext);
    LcpFrom(query, chars, pos, getNext, 0)
  }

  /** The lcp getLCP reports is the longest common prefix: a prefix of the
      query found at pos, the whole query exactly when it matched, and
      otherwise followed in the text by something other than the query's
      next character, which is what nextChar reports when asked for. */
  lemma LcpSpec(query: seq<nat>, chars: seq<nat>, pos: nat, getNext: bool)
    ensures var r := LcpFrom(query, chars, pos, getNext, 0);
            && |r.lcp| <= |query| && r.lcp == query[..|r.lcp|]
            && PrefixAt(r.lcp, chars, pos)
            && (r.isMatched <==> PrefixAt(query, chars, pos))
            && (r.isMatched <==> |r.lcp| == |query|)
            && (!r.isMatched ==> CharAt(chars, pos + |r.lcp|) != Some(query[|r.lcp|]))
            && r.nextChar == if getNext && !r.isMatched then CharAt(chars, pos + |r.lcp|) else None
  {
    assert query[..0] == [];
    LcpFromSpec(query, chars, pos, getNext, 0);
    var r := LcpFrom(query, chars, pos, getNext, 0);
    assert r.isMatched ==> query == r.lcp;
  }

  /** The same facts stated of getLCP itself. */
  lemma GetLcpSpec(query: seq<nat>, chars: seq<nat>, pos: nat, getNext: bool)
    ensures var r := GetLcp(query, chars, pos, getNext);
            && |r.lcp| <= |query| && r.lcp == query[..|r.lcp|]
            && PrefixAt(r.lcp, chars, pos)
            && (r.isMatched <==> |r.lcp| == |query|)
            && (!r.isMatched ==> CharAt(chars, pos + |r.lcp|) != Some(query[|r.lcp|]))
            && r.nextChar == if getNext && !r.isMatched then CharAt(chars, pos + |r.lcp|) else None
  {
    LcpSpec(query, chars, pos, getNext);
  }

  /** The string `"undefined"`: what `lcp + nextChar` appends when the
      suffix ended before the mismatch. */
  const Undefined: seq<nat> := [117, 110, 100, 101, 102, 105, 110, 101, 100]

  /** `nextChar` as the text it contributes to `lcp + nextChar`. */
  function NextText(c: Option<nat>): seq<nat>
  {
    match c
    case Some(x) => [x]
    case None => Undefined
  }

  /** `a < b` on JavaScript strings: lexicographic, a proper prefix first. */
  predicate LexLess(a: seq<nat>, b: seq<nat>)
    decreases |a|
  {
    if |b| == 0 then false
    else if |a| == 0 then true
    else if a[0] != b[0] then a[0] < b[0]
    else LexLess(a[1..], b[1..])
  }

  lemma {:induction false} LexLessCommonPrefix(p: seq<nat>, a: seq<nat>, b: seq<nat>)
    ensures LexLess(p + a, p + b) == LexLess(a, b)
    decreases |p|
  {
    if |p| > 0 {
      assert (p + a)[1..] == p[1..] + a;
      assert (p + b)[1..] == p[1..] + b;
      LexLessCommonPrefix(p[1..], a, b);
    } else {
      assert p + a == a && p + b == b;
    }
  }

  /** The step taken on a mismatch (suffix-array.ts:324): the search goes
      left exactly when the rest of the query from the mismatch sorts before
      `nextChar`; when the suffix has a character there, that is when the
      query's character is the smaller one. */
  lemma GoLeftIff(query: seq<nat>, chars: seq<nat>, pos: nat)
    requires !GetLcp(query, chars, pos, true).isMatched
    ensures var r := GetLcp(query, chars, pos, true);
            && |r.lcp| < |query|
            && (LexLess(query, r.lcp + NextText(r.nextChar)) <==> LexLess(query[|r.lcp|..], NextText(r.nextChar)))
            && (r.nextChar.Some? ==>
                  (LexLess(query, r.lcp + NextText(r.nextChar)) <==> query[|r.lcp|] < r.nextChar.value))
  {
    var r := GetLcp(query, chars, pos, true);
    var d := |r.lcp|;
    GetLcpSpec(query, chars, pos, true);
    assert query == r.lcp + query[d..];
    LexLessCommonPrefix(r.lcp, query[d..], NextText(r.nextChar));
  }

  /** `Math.floor(n / 2)` for a non-negative n. */
  function Half(n: nat): (h: nat)
    ensures h + h == n || h + h + 1 == n
  {
    if n < 2 then 0 else Half(n - 2) + 1
  }

  /** The suffix at pos begins with the query. */
  predicate Matches(query: seq<nat>, chars: seq<nat>, pos: nat)
  {
    PrefixAt(query, chars, pos)
  }

  /** binarySearch over the window [start, end] of the suffix array: the
      first (or, with lastMatch, the last) slot whose suffix begins with the
      query, judged by its neighbour in the whole array; -1 once the window
      is empty. */
  function BinarySearch(query: seq<nat>, chars: seq<nat>, sa: seq<nat>, start: int, end: int, lastMatch: bool): (r: int)
    requires 0 <= start && end < |sa|
    ensures start > end ==> r == -1
    ensures r == -1 || (start <= r <= end && Matches(query, chars, sa[r]))
    decreases end - start + 1
  {
    if start > end then -1
    else
      var midpoint := start + Half(end - start);
      var res := GetLcp(query, chars, sa[midpoint], true);
      if res.isMatched then
        var neighborIndex := if lastMatch then midpoint + 1 else midpoint - 1;
        if neighborIndex > |sa| - 1 || neighborIndex < 0 then midpoint
        else if !GetLcp(query, chars, sa[neighborIndex], false).isMatched then midpoint
        else if lastMatch then BinarySearch(query, chars, sa, midpoint + 1, end, lastMatch)
        else BinarySearch(query, chars, sa, start, midpoint - 1, lastMatch)
      else if LexLess(query, res.lcp + NextText(res.nextChar)) then
        BinarySearch(query, chars, sa, start, midpoint - 1, lastMatch)
      else
        BinarySearch(query, chars, sa, midpoint + 1, end, lastMatch)
  }

  /** The turn binarySearch takes after a mismatch at pos: left exactly
      when the query sorts before `lcp + nextChar`. */
  predicate GoesLeft(query: seq<nat>, chars: seq<nat>, pos: nat)
  {
    var res := GetLcp(query, chars, pos, true);
    LexLess(query, res.lcp + NextText(res.nextChar))
  }

  /** A step of binarySearch whose midpoint matches: it stops there unless
      the neighbour on the searched side matches too, and then it moves
      past the midpoint towards that neighbour. */
  lemma StepOnMatch(query: seq<nat>, chars: seq<nat>, sa: seq<nat>, start: int, end: int, lastMatch: bool, mid: int, nb: int)
    requires 0 <= start <= end < |sa|
    requires mid == start + Half(end - start) && nb == if lastMatch then mid + 1 else mid - 1
    requires Matches(query, chars, sa[mid])
    ensures BinarySearch(query, chars, sa, start, end, lastMatch) ==
              if nb < 0 || nb >= |sa| || !Matches(query, chars, sa[nb]) then mid
              else if lastMatch then BinarySearch(query, chars, sa, mid + 1, end, lastMatch)
              else BinarySearch(query, chars, sa, start, mid - 1, lastMatch)
  {
  }

  /** A step of binarySearch whose midpoint does not match: it continues
      on the side GoesLeft picks. */
  lemma StepOnMismatch(query: seq<nat>, chars: seq<nat>, sa: seq<nat>, start: int, end: int, lastMatch: bool, mid: int)
    requires 0 <= start <= end < |sa|
    requires mid == start + Half(end - start)
    requires !Matches(query, chars, sa[mid])
    ensures BinarySearch(query, chars, sa, start, end, lastMatch) ==
              if GoesLeft(query, chars, sa[mid]) then BinarySearch(query, chars, sa, start, mid - 1, lastMatch)
              else BinarySearch(query, chars, sa, mid + 1, end, lastMatch)
  {
  }

  /** One step of binarySearch in terms of whole-query matches, with mid
      the midpoint of the window and nb its neighbour on the searched side. */
  lemma SearchStep(query: seq<nat>, chars: seq<nat>, sa: seq<nat>, start: int, end: int, lastMatch: bool, mid: int, nb: int)
    requires 0 <= start <= end < |sa|
    requires mid == start + Half(end - start) && nb == if lastMatch then mid + 1 else mid - 1
    ensures Matches(query, chars, sa[mid]) && (nb < 0 || nb >= |sa| || !Matches(query, chars, sa[nb])) ==>
              BinarySearch(query, chars, sa, start, end, lastMatch) == mid
    ensures Matches(query, chars, sa[mid]) && 0 <= nb < |sa| && Matches(query, chars, sa[nb]) ==>
              BinarySearch(query, chars, sa, start, end, lastMatch) ==
                if lastMatch then BinarySearch(query, chars, sa, mid + 1, end, lastMatch)
                else BinarySearch(query, chars, sa, start, mid - 1, lastMatch)
    ensures !Matches(query, chars, sa[mid]) && GoesLeft(query, chars, sa[mid]) ==>
              BinarySearch(query, chars, sa, start, end, lastMatch) == BinarySearch(query, chars, sa, start, mid - 1, lastMatch)
    ensures !Matches(query, chars, sa[mid]) && !GoesLeft(query, chars, sa[mid]) ==>
              BinarySearch(query, chars, sa, start, end, lastMatch) == BinarySearch(query, chars, sa, mid + 1, end, lastMatch)
  {
    if Matches(query, chars, sa[mid]) {
      StepOnMatch(query, chars, sa, start, end, lastMatch, mid, nb);
    } else {
      StepOnMismatch(query, chars, sa, start, end, lastMatch, mid);
    }
  }

  /** r is a boundary of the run of matching slots: with lastMatch, the
      slot after it does not match; otherwise the slot before it. */
  predicate AtRunEnd(query: seq<nat>, chars: seq<nat>, sa: seq<nat>, r: int, lastMatch: bool)
    requires r < |sa|
  {
    r >= 0 ==>
      if lastMatch then r == |sa| - 1 || !Matches(query, chars, sa[r + 1])
      else r == 0 || !Matches(query, chars, sa[r - 1])
  }

  /** One step of binarySearch: either it stops at a run boundary, or it
      continues in a smaller window inside the current one. */
  lemma BoundaryStep(query: seq<nat>, chars: seq<nat>, sa: seq<nat>, start: int, end: int, lastMatch: bool)
      returns (done: bool, start': int, end': int)
    requires 0 <= start <= end < |sa|
    ensures done ==> AtRunEnd(query, chars, sa, BinarySearch(query, chars, sa, start, end, lastMatch), lastMatch)
    ensures !done ==> start <= start' && end' <= end && end' - start' < end - start
    ensures !done ==> BinarySearch(query, chars, sa, start, end, lastMatch) == BinarySearch(query, chars, sa, start', end', lastMatch)
  {
    var mid := start + Half(end - start);
    var nb := if lastMatch then mid + 1 else mid - 1;
    SearchStep(query, chars, sa, start, end, lastMatch, mid, nb);
    done := Matches(query, chars, sa[mid]) && (nb < 0 || nb >= |sa| || !Matches(query, chars, sa[nb]));
    var left := if Matches(query, chars, sa[mid]) then !lastMatch else GoesLeft(query, chars, sa[mid]);
    start', end' := if left then start else mid + 1, if left then mid - 1 else end;
  }

  /** The slot binarySearch returns ends the run of matching slots on the
      searched side: the first-match search never has a matching slot just
      before its result, the last-match search none just after. */
  lemma {:induction false} SearchBoundary(query: seq<nat>, chars: seq<nat>, sa: seq<nat>, start: int, end: int, lastMatch: bool)
    requires 0 <= start && end < |sa|
    ensures AtRunEnd(query, chars, sa, BinarySearch(query, chars, sa, start, end, lastMatch), lastMatch)
    decreases end - start + 1
  {
    if start <= end {
      var done, start', end' := BoundaryStep(query, chars, sa, start, end, lastMatch);
      if !done {
        SearchBoundary(query, chars, sa, start', end', lastMatch);
      }
    }
  }

  /** The empty query matches every suffix, so the first-match search from
      slot 0 ends at slot 0. */
  lemma {:induction false} EmptyQueryFirst(chars: seq<nat>, sa: seq<nat>, end: int)
    requires 0 <= end < |sa|
    ensures BinarySearch([], chars, sa, 0, end, false) == 0
    decreases end
  {
    var midpoint := Half(end);
    assert GetLcp([], chars, sa[midpoint], true).isMatched;
    if midpoint > 0 {
      assert GetLcp([], chars, sa[midpoint - 1], false).isMatched;
      EmptyQueryFirst(chars, sa, midpoint - 1);
    }
  }

  /** ... and the last-match search up to the last slot ends there. */
  lemma {:induction false} EmptyQueryLast(chars: seq<nat>, sa: seq<nat>, start: int)
    requires 0 <= start < |sa|
    ensures BinarySearch([], chars, sa, start, |sa| - 1, true) == |sa| - 1
    decreases |sa| - start
  {
    var end := |sa| - 1;
    var midpoint := start + Half(end - start);
    assert GetLcp([], chars, sa[midpoint], true).isMatched;
    if midpoint < end {
      assert GetLcp([], chars, sa[midpoint + 1], false).isMatched;
      EmptyQueryLast(chars, sa, midpoint + 1);
    }
  }

  // ---------------------------------------------------------------------
  // getEntries (suffix-array.ts:344-353)

  /** A slice bound of `Array.prototype.slice`: negative counts from the
      end, and the result is clamped to [0, n]. */
  function Clamp(i: int, n: nat): (c: nat)
    ensures c <= n
    ensures 0 <= i <= n ==> c == i
  {
    if i < 0 then (if n + i < 0 then 0 else n + i)
    else if i > n then n
    else i
  }

  /** `xs.slice(start, end)`. */
  function Slice(xs: seq<nat>, start: int, end: int): (r: seq<nat>)
    ensures var from, to := Clamp(start, |xs|), Clamp(end, |xs|);
            && |r| == (if from < to then to - from else 0)
            && forall k :: 0 <= k < |r| ==> r[k] == xs[from + k]
  {
    var from, to := Clamp(start, |xs|), Clamp(end, |xs|);
    if from < to then xs[from..to] else []
  }

  /** `xs.slice(0, xs.length)` is xs. */
  lemma SliceWhole(xs: seq<nat>)
    ensures Slice(xs, 0, |xs|) == xs
  {
  }

  /** The index of the first occurrence of x. */
  function FirstIndex(xs: seq<nat>, x: nat): (i: nat)
    requires x in xs
    ensures i < |xs| && xs[i] == x && x !in xs[..i]
  {
    if xs[0] == x then 0
    else
      var i := FirstIndex(xs[1..], x);
      assert xs[..i + 1] == [xs[0]] + xs[1..][..i];
      i + 1
  }

  /** The loop of getEntries over the ids: each id once, the first time it
      is seen. */
  function Dedup(xs: seq<nat>): (r: seq<nat>)
    ensures Distinct(r)
    ensures forall x :: x in r <==> x in xs
    decreases |xs|
  {
    if |xs| == 0 then []
    else
      var init, x := Dedup(xs[..|xs| - 1]), xs[|xs| - 1];
      assert xs == xs[..|xs| - 1] + [x];
      if x in init then init else init + [x]
  }

  lemma {:induction false} FirstIndexPrefix(xs: seq<nat>, x: nat, n: nat)
    requires n <= |xs| && x in xs[..n]
    ensures FirstIndex(xs, x) == FirstIndex(xs[..n], x)
  {
    var i, j := FirstIndex(xs, x), FirstIndex(xs[..n], x);
    assert xs[..n][..j] == xs[..j];
  }

  /** The ids come out in the order of their first occurrence. */
  lemma {:induction false} DedupOrder(xs: seq<nat>)
    ensures forall i, j :: 0 <= i < j < |Dedup(xs)| ==> FirstIndex(xs, Dedup(xs)[i]) < FirstIndex(xs, Dedup(xs)[j])
    decreases |xs|
  {
    if |xs| > 0 {
      var init, x := xs[..|xs| - 1], xs[|xs| - 1];
      assert xs == init + [x];
      var d := Dedup(init);
      DedupOrder(init);
      forall y | y in d
        ensures y in xs && FirstIndex(xs, y) == FirstIndex(init, y) < |init|
      {
        FirstIndexPrefix(xs, y, |init|);
      }
      if x !in d {
        var r := d + [x];
        assert Dedup(xs) == r;
        assert FirstIndex(xs, x) == |init|;
        forall i, j | 0 <= i < j < |r|
          ensures FirstIndex(xs, r[i]) < FirstIndex(xs, r[j])
        {
          assert r[i] == d[i] && d[i] in d;
          assert FirstIndex(xs, d[i]) == FirstIndex(init, d[i]) < |init|;
          if j < |d| {
            assert r[j] == d[j] && d[j] in d;
            assert FirstIndex(init, d[i]) < FirstIndex(init, d[j]);
          } else {
            assert r[j] == x;
          }
        }
      } else {
        assert Dedup(xs) == d;
        forall i, j | 0 <= i < j < |d|
          ensures FirstIndex(xs, d[i]) < FirstIndex(xs, d[j])
        {
          assert d[i] in d && d[j] in d;
        }
      }
    }
  }

  /** The entry ids of the slots start..end, each once. */
  function MatchedIds(saEntries: seq<nat>, start: int, end: int): (ids: seq<nat>)
    ensures Distinct(ids)
    ensures forall x :: x in ids <==> x in Slice(saEntries, start, end + 1)
  {
    Dedup(Slice(saEntries, start, end + 1))
  }

  /** Every slot's entry id is the start of an entry. */
  lemma OwnersAreKeys<E>(ix: Index<E>, x: nat)
    requires Valid(ix)
    requires x in ix.suffixArrayEntries
    ensures IsKey(ix.entryIndex, x)
  {
    var k :| 0 <= k < |ix.suffixArrayEntries| && ix.suffixArrayEntries[k] == x;
    assert OwnerOf(ix.entryIndex, ix.suffixArray[k], Some(x));
  }

  /** getEntries: the entries owning the slots start..end, each once, in
      the order their first slot comes. */
  function GetEntries<E>(ix: Index<E>, start: int, end: int): (r: seq<E>)
    requires Valid(ix)
    ensures var ids := MatchedIds(ix.suffixArrayEntries, start, end);
            && |r| == |ids|
            && forall k :: 0 <= k < |r| ==>
                 exists t :: 0 <= t < |ix.entryIndex| && ix.entryIndex[t] == (ids[k], r[k])
  {
    var ids := MatchedIds(ix.suffixArrayEntries, start, end);
    forall x | x in ids
      ensures IsKey(ix.entryIndex, x)
    {
      var sl := Slice(ix.suffixArrayEntries, start, end + 1);
      var k :| 0 <= k < |sl| && sl[k] == x;
      OwnersAreKeys(ix, x);
    }
    seq(|ids|, k requires 0 <= k < |ids| => Lookup(ix.entryIndex, ids[k]).value)
  }

  // ---------------------------------------------------------------------
  // match (suffix-array.ts:296-302)

  /** The slots match reports: the first and the last match of the
      normalised query. */
  function MatchRange<E>(ix: Index<E>, q: seq<nat>): (range: (int, int))
    ensures range.0 == -1 || (0 <= range.0 < |ix.suffixArray| && Matches(q, ix.charArray, ix.suffixArray[range.0]))
    ensures range.1 == -1 || (0 <= range.1 < |ix.suffixArray| && Matches(q, ix.charArray, ix.suffixArray[range.1]))
  {
    var n := |ix.suffixArray|;
    (BinarySearch(q, ix.charArray, ix.suffixArray, 0, n - 1, false),
     BinarySearch(q, ix.charArray, ix.suffixArray, 0, n - 1, true))
  }

  /** match: the entries owning the slots from the first to the last match
      of the normalised query. */
  function Match<E>(ix: Index<E>, norm: seq<nat> -> seq<nat>, query: seq<nat>): (r: seq<E>)
    requires Valid(ix)
    ensures var range := MatchRange(ix, norm(query));
            var ids := MatchedIds(ix.suffixArrayEntries, range.0, range.1);
            && |r| == |ids|
            && forall k :: 0 <= k < |r| ==>
                 exists t :: 0 <= t < |ix.entryIndex| && ix.entryIndex[t] == (ids[k], r[k])
  {
    var range := MatchRange(ix, norm(query));
    GetEntries(ix, range.0, range.1)
  }

  /** For the empty query match spans the whole suffix array. */
  lemma EmptyQueryRange<E>(ix: Index<E>)
    requires |ix.suffixArray| > 0
    ensures MatchRange(ix, []) == (0, |ix.suffixArray| - 1)
  {
    EmptyQueryFirst(ix.charArray, ix.suffixArray, |ix.suffixArray| - 1);
    EmptyQueryLast(ix.charArray, ix.suffixArray, 0);
  }
}
