/** What the search returns when the suffix array is cut-sorted (suffixes
    compared only up to their first 0, see CutSorted): binarySearch
    finds the first and the last slot a linear scan finds, the matching slots
    between them are contiguous, and match reports exactly the entries that
    own a suffix beginning with the query. */
module SortedSearch {
  import opened Seqs
  import opened CharacterStream
  import opened MatchEngine
  import Skew

  // ---------------------------------------------------------------------
  // The order of JavaScript string comparison

  lemma {:induction false} LexLessIrreflexive(a: seq<nat>)
    ensures !LexLess(a, a)
    decreases |a|
  {
    if |a| > 0 {
      LexLessIrreflexive(a[1..]);
    }
  }

  lemma {:induction false} LexLessTransitive(a: seq<nat>, b: seq<nat>, c: seq<nat>)
    requires LexLess(a, b) && LexLess(b, c)
    ensures LexLess(a, c)
    decreases |a|
  {
    if |a| > 0 && a[0] == b[0] && b[0] == c[0] {
      LexLessTransitive(a[1..], b[1..], c[1..]);
    }
  }

  lemma LexLessAsymmetric(a: seq<nat>, b: seq<nat>)
    requires LexLess(a, b)
    ensures !LexLess(b, a)
  {
    if LexLess(b, a) {
      LexLessTransitive(a, b, a);
      LexLessIrreflexive(a);
    }
  }

  /** Two sequences that agree below m and differ at m compare as their
      elements at m do. */
  lemma LexLessAt(a: seq<nat>, b: seq<nat>, m: nat)
    requires m < |a| && m < |b| && a[..m] == b[..m] && a[m] < b[m]
    ensures LexLess(a, b)
  {
    assert a == a[..m] + a[m..] && b == b[..m] + b[m..];
    LexLessCommonPrefix(a[..m], a[m..], b[m..]);
  }

  /** A proper prefix sorts first. */
  lemma PrefixLess(a: seq<nat>, b: seq<nat>)
    requires |a| < |b| && a == b[..|a|]
    ensures LexLess(a, b)
  {
    assert a + [] == a && b == a + b[|a|..];
    LexLessCommonPrefix(a, [], b[|a|..]);
  }

  /** A sequence that begins with q does not sort before q. */
  lemma ExtensionNotLess(q: seq<nat>, s: seq<nat>)
    requires |q| <= |s| && s[..|q|] == q
    ensures !LexLess(s, q)
  {
    assert s == q + s[|q|..] && q == q + [];
    LexLessCommonPrefix(q, s[|q|..], []);
  }

  // ---------------------------------------------------------------------
  // Where a suffix lies relative to the query

  /** The suffix starting at p. */
  function Suffix(chars: seq<nat>, p: nat): (s: seq<nat>)
    requires p <= |chars|
    ensures |s| == |chars| - p
  {
    chars[p..]
  }

  /** The suffix at a sorts before the suffix at b. */
  predicate SuffixLess(chars: seq<nat>, a: nat, b: nat)
    requires a <= |chars| && b <= |chars|
  {
    LexLess(Suffix(chars, a), Suffix(chars, b))
  }

  /** The suffix array lists the suffixes in strictly increasing order. */
  ghost predicate Sorted(chars: seq<nat>, sa: seq<nat>)
  {
    && (forall k :: 0 <= k < |sa| ==> sa[k] < |chars|)
    && forall i, j {:trigger SuffixLess(chars, sa[i], sa[j])} :: 0 <= i < j < |sa| ==> SuffixLess(chars, sa[i], sa[j])
  }

  /** The suffix at p up to and including its first 0, or to the end of the
      text when no 0 follows p. */
  function Cut(chars: seq<nat>, p: nat): (c: seq<nat>)
    requires p <= |chars|
    ensures |c| <= |chars| - p && c == chars[p..p + |c|]
    ensures p < |chars| && chars[|chars| - 1] == 0 ==> |c| > 0 && c[|c| - 1] == 0
    ensures forall k :: 0 <= k < |c| - 1 ==> c[k] != 0
    decreases |chars| - p
  {
    if p == |chars| then []
    else if chars[p] == 0 then [0]
    else [chars[p]] + Cut(chars, p + 1)
  }

  /** The suffix at a, cut at its first 0, sorts before the one at b. */
  predicate CutLess(chars: seq<nat>, a: nat, b: nat)
    requires a <= |chars| && b <= |chars|
  {
    LexLess(Cut(chars, a), Cut(chars, b))
  }

  /** The order the search needs on a text that is a run of 0-terminated
      entries: each suffix cut at its first 0, the cuts never decrease
      along the array, and suffixes that agree up to their first 0 may come
      in any order.  It is weaker than Sorted (SortedIsCutSorted) and, unlike
      Sorted, holds of what getSuffixArray returns on four empty entries
      (ZerosUnsorted). */
  ghost predicate CutSorted(chars: seq<nat>, sa: seq<nat>)
  {
    && (forall k :: 0 <= k < |sa| ==> sa[k] < |chars|)
    && forall i, j {:trigger CutLess(chars, sa[j], sa[i])} :: 0 <= i < j < |sa| ==> !CutLess(chars, sa[j], sa[i])
  }

  /** The text is empty or ends with a separator the query does not contain,
      so every comparison ends at a character of the text. */
  predicate Terminated(q: seq<nat>, chars: seq<nat>)
  {
    && (|chars| == 0 || chars[|chars| - 1] == 0)
    && forall k :: 0 <= k < |q| ==> q[k] != 0
  }

  /** The suffix at p sorts before the query. */
  predicate Below(q: seq<nat>, chars: seq<nat>, p: nat)
    requires p <= |chars|
  {
    LexLess(Suffix(chars, p), q)
  }

  lemma MatchesIffPrefix(q: seq<nat>, chars: seq<nat>, p: nat)
    requires p <= |chars|
    ensures Matches(q, chars, p) <==> |q| <= |chars| - p && Suffix(chars, p)[..|q|] == q
  {
    var s := Suffix(chars, p);
    if Matches(q, chars, p) {
      if |q| > 0 {
        var k := |q| - 1;
        assert q[k] in q;
        assert p + k < |chars|;
      }
      assert forall k :: 0 <= k < |q| ==> s[..|q|][k] == chars[p + k] == q[k];
    }
    if |q| <= |s| && s[..|q|] == q {
      assert forall k :: 0 <= k < |q| ==> chars[p + k] == s[..|q|][k] == q[k];
    }
  }

  /** A matching suffix is not below the query. */
  lemma MatchNotBelow(q: seq<nat>, chars: seq<nat>, p: nat)
    requires p <= |chars| && Matches(q, chars, p)
    ensures !Below(q, chars, p)
  {
    MatchesIffPrefix(q, chars, p);
    ExtensionNotLess(q, Suffix(chars, p));
  }

  lemma PrefixAtFits(query: seq<nat>, chars: seq<nat>, pos: nat)
    requires PrefixAt(query, chars, pos)
    ensures |query| == 0 || (pos + |query| <= |chars| && chars[pos + |query| - 1] == query[|query| - 1])
  {
    if |query| > 0 {
      assert query[|query| - 1] in query;
    }
  }

  /** On a mismatch under Terminated, the suffix has a character at the
      mismatch: getLCP's nextChar is never undefined. */
  lemma MismatchInText(q: seq<nat>, chars: seq<nat>, p: nat)
    requires Terminated(q, chars) && p < |chars|
    requires !Matches(q, chars, p)
    ensures var d := |GetLcp(q, chars, p, true).lcp|;
            && d < |q| && p + d < |chars|
            && chars[p + d] != q[d]
            && GetLcp(q, chars, p, true).nextChar == Some(chars[p + d])
  {
    var r := GetLcp(q, chars, p, true);
    var d := |r.lcp|;
    GetLcpSpec(q, chars, p, true);
    PrefixAtFits(r.lcp, chars, p);
  }

  /** On a mismatch, the query sorts before the suffix exactly when its
      character at the mismatch is the smaller one; otherwise the suffix is
      below the query. */
  lemma MismatchOrder(q: seq<nat>, chars: seq<nat>, p: nat)
    requires Terminated(q, chars) && p < |chars|
    requires !Matches(q, chars, p)
    ensures var d := |GetLcp(q, chars, p, true).lcp|;
            && d < |q| && p + d < |chars|
            && (q[d] < chars[p + d] <==> !Below(q, chars, p))
  {
    var r := GetLcp(q, chars, p, true);
    var d := |r.lcp|;
    GetLcpSpec(q, chars, p, true);
    MismatchInText(q, chars, p);
    var s := Suffix(chars, p);
    assert s[..d] == q[..d] by {
      assert forall k :: 0 <= k < d ==> s[k] == chars[p + k] == q[k];
    }
    if q[d] < chars[p + d] {
      LexLessAt(q, s, d);
      LexLessAsymmetric(q, s);
    } else {
      LexLessAt(s, q, d);
    }
  }

  /** After a mismatch, binarySearch turns left exactly when the suffix is
      not below the query. */
  lemma GoesLeftIffNotBelow(q: seq<nat>, chars: seq<nat>, p: nat)
    requires Terminated(q, chars) && p < |chars|
    requires !Matches(q, chars, p)
    ensures GoesLeft(q, chars, p) <==> !Below(q, chars, p)
  {
    MismatchOrder(q, chars, p);
    GoLeftIff(q, chars, p);
    MismatchInText(q, chars, p);
  }

  /** Any two sequences are equal or one sorts before the other. */
  lemma {:induction false} LexLessTotal(a: seq<nat>, b: seq<nat>)
    ensures a == b || LexLess(a, b) || LexLess(b, a)
    decreases |a|
  {
    if |a| > 0 && |b| > 0 && a[0] == b[0] {
      LexLessTotal(a[1..], b[1..]);
      assert a == [a[0]] + a[1..] && b == [b[0]] + b[1..];
    }
  }

  /** Behind a 0 that the query lacks, the rest of a sequence neither
      changes how it compares with the query nor whether it begins with
      the query. */
  lemma {:induction false} CutDecides(c: seq<nat>, rest: seq<nat>, q: seq<nat>)
    requires |c| > 0 && c[|c| - 1] == 0
    requires forall k :: 0 <= k < |q| ==> q[k] != 0
    ensures LexLess(c + rest, q) == LexLess(c, q)
    ensures (|q| <= |c + rest| && (c + rest)[..|q|] == q) == (|q| <= |c| && c[..|q|] == q)
    decreases |c|
  {
    var s := c + rest;
    if |q| > 0 {
      if c[0] == q[0] {
        assert |c| > 1 by {
          assert q[0] != 0;
        }
        assert s[1..] == c[1..] + rest;
        assert forall k :: 0 <= k < |q[1..]| ==> q[1..][k] != 0 by {
          forall k | 0 <= k < |q[1..]|
            ensures q[1..][k] != 0
          {
            assert q[1..][k] == q[k + 1];
          }
        }
        CutDecides(c[1..], rest, q[1..]);
        if |q| <= |s| {
          assert s[..|q|] == q <==> s[1..][..|q| - 1] == q[1..] by {
            assert s[..|q|] == [s[0]] + s[1..][..|q| - 1];
            assert q == [q[0]] + q[1..];
          }
        }
        if |q| <= |c| {
          assert c[..|q|] == q <==> c[1..][..|q| - 1] == q[1..] by {
            assert c[..|q|] == [c[0]] + c[1..][..|q| - 1];
            assert q == [q[0]] + q[1..];
          }
        }
      } else {
        assert s[0] == c[0];
        if |q| <= |s| {
          assert s[..|q|][0] != q[0];
        }
        if |q| <= |c| {
          assert c[..|q|][0] != q[0];
        }
      }
    }
  }

  /** For a query without 0 codes, a suffix begins with the query exactly
      when its cut does. */
  lemma CutMatches(q: seq<nat>, chars: seq<nat>, p: nat)
    requires Terminated(q, chars) && p < |chars|
    ensures Matches(q, chars, p) <==> |q| <= |Cut(chars, p)| && Cut(chars, p)[..|q|] == q
  {
    var c := Cut(chars, p);
    assert Suffix(chars, p) == c + chars[p + |c|..];
    MatchesIffPrefix(q, chars, p);
    CutDecides(c, chars[p + |c|..], q);
  }

  /** ... and it is below the query exactly when its cut is. */
  lemma CutBelow(q: seq<nat>, chars: seq<nat>, p: nat)
    requires Terminated(q, chars) && p < |chars|
    ensures Below(q, chars, p) <==> LexLess(Cut(chars, p), q)
  {
    var c := Cut(chars, p);
    assert Suffix(chars, p) == c + chars[p + |c|..];
    CutDecides(c, chars[p + |c|..], q);
  }

  /** A sequence b that begins with q sorts before any a that q sorts
      before without being its prefix. */
  lemma {:induction false} PrefixPassed(q: seq<nat>, a: seq<nat>, b: seq<nat>)
    requires LexLess(q, a)
    requires |q| <= |b| && b[..|q|] == q
    requires !(|q| <= |a| && a[..|q|] == q)
    ensures LexLess(b, a)
    decreases |q|
  {
    assert b[0] == b[..|q|][0] == q[0];
    if q[0] == a[0] {
      assert b[1..][..|q| - 1] == q[1..];
      PrefixPassed(q[1..], a[1..], b[1..]);
    }
  }

  /** With the cut suffixes in order the slots fall into three runs: below
      the query, matching it, above it.  Stated pairwise: a slot before a
      matching one is below or matching, and a slot after a matching one
      is not below. */
  lemma ClassOrder(q: seq<nat>, chars: seq<nat>, sa: seq<nat>, i: nat, j: nat)
    requires Terminated(q, chars) && CutSorted(chars, sa)
    requires i < j < |sa|
    ensures Below(q, chars, sa[j]) ==> Below(q, chars, sa[i])
    ensures Matches(q, chars, sa[j]) && !Matches(q, chars, sa[i]) ==> Below(q, chars, sa[i])
    ensures Matches(q, chars, sa[i]) ==> !Below(q, chars, sa[j])
  {
    var ci, cj := Cut(chars, sa[i]), Cut(chars, sa[j]);
    assert !CutLess(chars, sa[j], sa[i]);
    LexLessTotal(ci, cj);
    CutMatches(q, chars, sa[i]);
    CutMatches(q, chars, sa[j]);
    CutBelow(q, chars, sa[i]);
    CutBelow(q, chars, sa[j]);
    if Below(q, chars, sa[j]) && ci != cj {
      LexLessTransitive(ci, cj, q);
    }
    if Matches(q, chars, sa[j]) && !Matches(q, chars, sa[i]) && !Below(q, chars, sa[i]) {
      LexLessTotal(ci, q);
      PrefixPassed(q, ci, cj);
    }
    if Matches(q, chars, sa[i]) && Below(q, chars, sa[j]) {
      ExtensionNotLess(q, ci);
      if ci != cj {
        LexLessTransitive(ci, cj, q);
      }
    }
  }

  /** The order of whole suffixes implies the cut order: a suffix before
      another never has the larger cut. */
  lemma {:induction false} CutKeepsOrder(chars: seq<nat>, a: nat, b: nat)
    requires |chars| > 0 && chars[|chars| - 1] == 0 && a < |chars| && b < |chars|
    requires SuffixLess(chars, a, b)
    ensures !CutLess(chars, b, a)
    decreases |chars| - a
  {
    var ca, cb := Cut(chars, a), Cut(chars, b);
    if chars[a] != chars[b] {
      assert Suffix(chars, a)[0] == chars[a] && Suffix(chars, b)[0] == chars[b];
      LexLessAt(ca, cb, 0);
      LexLessAsymmetric(ca, cb);
    } else if chars[a] == 0 {
      LexLessIrreflexive(ca);
    } else {
      assert Suffix(chars, a)[1..] == Suffix(chars, a + 1) && Suffix(chars, b)[1..] == Suffix(chars, b + 1);
      CutKeepsOrder(chars, a + 1, b + 1);
    }
  }

  /** A suffix array sorted in full is also sorted when cut. */
  lemma SortedIsCutSorted(chars: seq<nat>, sa: seq<nat>)
    requires |chars| > 0 ==> chars[|chars| - 1] == 0
    requires Sorted(chars, sa)
    ensures CutSorted(chars, sa)
  {
    forall i, j | 0 <= i < j < |sa|
      ensures !CutLess(chars, sa[j], sa[i])
    {
      assert SuffixLess(chars, sa[i], sa[j]);
      CutKeepsOrder(chars, sa[i], sa[j]);
    }
  }

  /** The text of four empty entries: getSuffixArray lists the suffix
      0 0 0 before the suffix 0, so its array is not sorted in full; cut at
      their first 0 all four suffixes read 0, and the cut order holds. */
  lemma ZerosUnsorted(chars: seq<nat>)
    requires |chars| == 4 && chars[0] == chars[1] == chars[2] == chars[3] == 0
    ensures !Sorted(chars, Skew.SuffixArray(chars))
    ensures CutSorted(chars, Skew.SuffixArray(chars))
  {
    Skew.ZerosSuffixArray(chars);
    ZerosNotSorted(chars, Skew.SuffixArray(chars));
    ZerosCutSorted(chars, Skew.SuffixArray(chars));
  }

  lemma ZerosNotSorted(chars: seq<nat>, sa: seq<nat>)
    requires |chars| == 4 && chars[0] == chars[1] == chars[2] == chars[3] == 0
    requires sa == [2, 1, 3, 0]
    ensures !Sorted(chars, sa)
  {
    assert Suffix(chars, 3) == Suffix(chars, 1)[..1];
    PrefixLess(Suffix(chars, 3), Suffix(chars, 1));
    LexLessAsymmetric(Suffix(chars, 3), Suffix(chars, 1));
    assert !SuffixLess(chars, sa[1], sa[2]);
  }

  lemma ZerosCutSorted(chars: seq<nat>, sa: seq<nat>)
    requires |chars| == 4 && chars[0] == chars[1] == chars[2] == chars[3] == 0
    requires sa == [2, 1, 3, 0]
    ensures CutSorted(chars, sa)
  {
    LexLessIrreflexive([0]);
    forall i, j | 0 <= i < j < |sa|
      ensures !CutLess(chars, sa[j], sa[i])
    {
      assert Cut(chars, sa[i]) == [0] && Cut(chars, sa[j]) == [0];
    }
  }

  // ---------------------------------------------------------------------
  // binarySearch against a linear scan

  /** The first slot from k on whose suffix begins with the query; -1 when
      there is none. */
  function ScanFirst(q: seq<nat>, chars: seq<nat>, sa: seq<nat>, k: nat): (r: int)
    requires k <= |sa|
    ensures r == -1 ==> forall i :: k <= i < |sa| ==> !Matches(q, chars, sa[i])
    ensures r != -1 ==> k <= r < |sa| && Matches(q, chars, sa[r])
    ensures r != -1 ==> forall i :: k <= i < r ==> !Matches(q, chars, sa[i])
    decreases |sa| - k
  {
    if k == |sa| then -1
    else if Matches(q, chars, sa[k]) then k
    else ScanFirst(q, chars, sa, k + 1)
  }

  /** The last slot below k whose suffix begins with the query; -1 when
      there is none. */
  function ScanLast(q: seq<nat>, chars: seq<nat>, sa: seq<nat>, k: nat): (r: int)
    requires k <= |sa|
    ensures r == -1 ==> forall i :: 0 <= i < k ==> !Matches(q, chars, sa[i])
    ensures r != -1 ==> 0 <= r < k && Matches(q, chars, sa[r])
    ensures r != -1 ==> forall i :: r < i < k ==> !Matches(q, chars, sa[i])
    decreases k
  {
    if k == 0 then -1
    else if Matches(q, chars, sa[k - 1]) then k - 1
    else ScanLast(q, chars, sa, k - 1)
  }

  /** A mismatch at the midpoint sends the search towards any matching
      slot t: right when the midpoint's suffix is below the query, left
      otherwise. */
  lemma MismatchStep(q: seq<nat>, chars: seq<nat>, sa: seq<nat>, start: nat, end: nat, lastMatch: bool, mid: nat, t: nat)
      returns (right: bool)
    requires Terminated(q, chars) && CutSorted(chars, sa)
    requires start <= end < |sa| && mid == start + Half(end - start) && t < |sa|
    requires Matches(q, chars, sa[t]) && !Matches(q, chars, sa[mid])
    ensures right <==> Below(q, chars, sa[mid])
    ensures right ==>
              mid < t && BinarySearch(q, chars, sa, start, end, lastMatch) == BinarySearch(q, chars, sa, mid + 1, end, lastMatch)
    ensures !right ==>
              t < mid && BinarySearch(q, chars, sa, start, end, lastMatch) == BinarySearch(q, chars, sa, start, mid - 1, lastMatch)
  {
    right := Below(q, chars, sa[mid]);
    SearchStep(q, chars, sa, start, end, lastMatch, mid, if lastMatch then mid + 1 else mid - 1);
    GoesLeftIffNotBelow(q, chars, sa[mid]);
    if t < mid {
      ClassOrder(q, chars, sa, t, mid);
    } else if mid < t {
      ClassOrder(q, chars, sa, mid, t);
    }
  }

  /** Where matching slots lie relative to the first match f: never
      before it, and a matching slot after it is preceded by one. */
  lemma FirstMatchOrder(q: seq<nat>, chars: seq<nat>, sa: seq<nat>, m: nat, f: nat)
    requires Terminated(q, chars) && CutSorted(chars, sa)
    requires m < |sa| && f < |sa|
    requires Matches(q, chars, sa[f]) && (f == 0 || !Matches(q, chars, sa[f - 1]))
    requires Matches(q, chars, sa[m])
    ensures f <= m
    ensures f < m ==> Matches(q, chars, sa[m - 1])
  {
    if m + 1 < f {
      ClassOrder(q, chars, sa, f - 1, f);
      ClassOrder(q, chars, sa, m, f - 1);
    } else if f + 1 < m {
      ClassOrder(q, chars, sa, m - 1, m);
      ClassOrder(q, chars, sa, f, m - 1);
    }
  }

  /** Where matching slots lie relative to the last match l. */
  lemma LastMatchOrder(q: seq<nat>, chars: seq<nat>, sa: seq<nat>, m: nat, l: nat)
    requires Terminated(q, chars) && CutSorted(chars, sa)
    requires m < |sa| && l < |sa|
    requires Matches(q, chars, sa[l]) && (l == |sa| - 1 || !Matches(q, chars, sa[l + 1]))
    requires Matches(q, chars, sa[m])
    ensures m <= l
    ensures m < l ==> Matches(q, chars, sa[m + 1])
  {
    if l + 1 < m {
      ClassOrder(q, chars, sa, l, l + 1);
      ClassOrder(q, chars, sa, l + 1, m);
    } else if m + 1 < l {
      ClassOrder(q, chars, sa, m + 1, l);
      ClassOrder(q, chars, sa, m, m + 1);
    }
  }

  /** One step of the first-match search with the first match f in the
      window: either it returns f, or it continues in a smaller window that
      still holds f. */
  lemma FirstStep(q: seq<nat>, chars: seq<nat>, sa: seq<nat>, start: nat, end: nat, f: nat)
      returns (found: bool, start': nat, end': int)
    requires Terminated(q, chars) && CutSorted(chars, sa)
    requires start <= f <= end < |sa|
    requires Matches(q, chars, sa[f]) && (f == 0 || !Matches(q, chars, sa[f - 1]))
    ensures found ==> BinarySearch(q, chars, sa, start, end, false) == f
    ensures !found ==> start <= start' <= f <= end' <= end && end' - start' < end - start
    ensures !found ==> BinarySearch(q, chars, sa, start, end, false) == BinarySearch(q, chars, sa, start', end', false)
  {
    var mid := start + Half(end - start);
    SearchStep(q, chars, sa, start, end, false, mid, mid - 1);
    if Matches(q, chars, sa[mid]) {
      FirstMatchOrder(q, chars, sa, mid, f);
      found, start', end' := mid == f, start, mid - 1;
    } else {
      var right := MismatchStep(q, chars, sa, start, end, false, mid, f);
      found := false;
      start', end' := if right then mid + 1 else start, if right then end else mid - 1;
    }
  }

  /** One step of the last-match search with the last match l in the
      window. */
  lemma LastStep(q: seq<nat>, chars: seq<nat>, sa: seq<nat>, start: nat, end: nat, l: nat)
      returns (found: bool, start': nat, end': int)
    requires Terminated(q, chars) && CutSorted(chars, sa)
    requires start <= l <= end < |sa|
    requires Matches(q, chars, sa[l]) && (l == |sa| - 1 || !Matches(q, chars, sa[l + 1]))
    ensures found ==> BinarySearch(q, chars, sa, start, end, true) == l
    ensures !found ==> start <= start' <= l <= end' <= end && end' - start' < end - start
    ensures !found ==> BinarySearch(q, chars, sa, start, end, true) == BinarySearch(q, chars, sa, start', end', true)
  {
    var mid := start + Half(end - start);
    SearchStep(q, chars, sa, start, end, true, mid, mid + 1);
    if Matches(q, chars, sa[mid]) {
      LastMatchOrder(q, chars, sa, mid, l);
      found, start', end' := mid == l, mid + 1, end;
    } else {
      var right := MismatchStep(q, chars, sa, start, end, true, mid, l);
      found := false;
      start', end' := if right then mid + 1 else start, if right then end else mid - 1;
    }
  }

  /** With the first match f inside the window, the first-match search
      returns f. */
  lemma {:induction false} SearchFirst(q: seq<nat>, chars: seq<nat>, sa: seq<nat>, start: nat, end: nat, f: nat)
    requires Terminated(q, chars) && CutSorted(chars, sa)
    requires start <= f <= end < |sa|
    requires Matches(q, chars, sa[f]) && (f == 0 || !Matches(q, chars, sa[f - 1]))
    ensures BinarySearch(q, chars, sa, start, end, false) == f
    decreases end - start
  {
    var found, start', end' := FirstStep(q, chars, sa, start, end, f);
    if !found {
      SearchFirst(q, chars, sa, start', end', f);
    }
  }

  /** With the last match l inside the window, the last-match search
      returns l. */
  lemma {:induction false} SearchLast(q: seq<nat>, chars: seq<nat>, sa: seq<nat>, start: nat, end: nat, l: nat)
    requires Terminated(q, chars) && CutSorted(chars, sa)
    requires start <= l <= end < |sa|
    requires Matches(q, chars, sa[l]) && (l == |sa| - 1 || !Matches(q, chars, sa[l + 1]))
    ensures BinarySearch(q, chars, sa, start, end, true) == l
    decreases end - start
  {
    var found, start', end' := LastStep(q, chars, sa, start, end, l);
    if !found {
      SearchLast(q, chars, sa, start', end', l);
    }
  }

  /** On a cut-sorted suffix array, the first-match binarySearch finds the
      slot a linear scan from the front finds (-1 for none). */
  lemma FirstIsScan(q: seq<nat>, chars: seq<nat>, sa: seq<nat>)
    requires Terminated(q, chars) && CutSorted(chars, sa)
    ensures BinarySearch(q, chars, sa, 0, |sa| - 1, false) == ScanFirst(q, chars, sa, 0)
  {
    var f := ScanFirst(q, chars, sa, 0);
    if f != -1 {
      assert AtRunEnd(q, chars, sa, f, false);
      FoundFirst(q, chars, sa, f);
    } else {
      NothingFound(q, chars, sa, false);
    }
  }

  /** The first-match search from the whole array stops at the first slot
      of the run of matches. */
  lemma FoundFirst(q: seq<nat>, chars: seq<nat>, sa: seq<nat>, f: int)
    requires Terminated(q, chars) && CutSorted(chars, sa)
    requires 0 <= f < |sa| && Matches(q, chars, sa[f]) && AtRunEnd(q, chars, sa, f, false)
    ensures BinarySearch(q, chars, sa, 0, |sa| - 1, false) == f
  {
    SearchFirst(q, chars, sa, 0, |sa| - 1, f);
  }

  /** ... and the last-match one the slot a scan from the back finds. */
  lemma LastIsScan(q: seq<nat>, chars: seq<nat>, sa: seq<nat>)
    requires Terminated(q, chars) && CutSorted(chars, sa)
    ensures BinarySearch(q, chars, sa, 0, |sa| - 1, true) == ScanLast(q, chars, sa, |sa|)
  {
    var l := ScanLast(q, chars, sa, |sa|);
    if l != -1 {
      assert AtRunEnd(q, chars, sa, l, true);
      FoundLast(q, chars, sa, l);
    } else {
      NothingFound(q, chars, sa, true);
    }
  }

  /** The last-match search stops at the last slot of the run. */
  lemma FoundLast(q: seq<nat>, chars: seq<nat>, sa: seq<nat>, l: int)
    requires Terminated(q, chars) && CutSorted(chars, sa)
    requires 0 <= l < |sa| && Matches(q, chars, sa[l]) && AtRunEnd(q, chars, sa, l, true)
    ensures BinarySearch(q, chars, sa, 0, |sa| - 1, true) == l
  {
    SearchLast(q, chars, sa, 0, |sa| - 1, l);
  }

  /** Without a matching slot, binarySearch reports -1. */
  lemma NothingFound(q: seq<nat>, chars: seq<nat>, sa: seq<nat>, lastMatch: bool)
    requires forall i :: 0 <= i < |sa| ==> !Matches(q, chars, sa[i])
    ensures BinarySearch(q, chars, sa, 0, |sa| - 1, lastMatch) == -1
  {
  }

  /** On a cut-sorted suffix array the matching slots form one run. */
  lemma MatchesContiguous(q: seq<nat>, chars: seq<nat>, sa: seq<nat>, i: nat, k: nat, j: nat)
    requires Terminated(q, chars) && CutSorted(chars, sa)
    requires i <= k <= j < |sa|
    requires Matches(q, chars, sa[i]) && Matches(q, chars, sa[j])
    ensures Matches(q, chars, sa[k])
  {
    if i < k < j && !Matches(q, chars, sa[k]) {
      ClassOrder(q, chars, sa, k, j);
      ClassOrder(q, chars, sa, i, k);
    }
  }

  // ---------------------------------------------------------------------
  // What match reports

  /** Entry start x owns a slot whose suffix begins with q. */
  ghost predicate OwnsMatch<E>(ix: Index<E>, q: seq<nat>, x: nat)
  {
    exists k :: 0 <= k < |ix.suffixArray| && k < |ix.suffixArrayEntries|
      && Matches(q, ix.charArray, ix.suffixArray[k]) && ix.suffixArrayEntries[k] == x
  }

  /** The slots whose suffixes begin with q are exactly the slots f..l. */
  predicate RunIs(q: seq<nat>, chars: seq<nat>, sa: seq<nat>, f: int, l: int)
  {
    && ((f == -1 && l == -1) || 0 <= f <= l < |sa|)
    && forall k :: 0 <= k < |sa| ==> (Matches(q, chars, sa[k]) <==> f <= k <= l)
  }

  /** On a cut-sorted suffix array the matching slots are exactly the slots
      from the first to the last one the scans find; both scans report -1
      together. */
  lemma ScanRun(q: seq<nat>, chars: seq<nat>, sa: seq<nat>)
    requires Terminated(q, chars) && CutSorted(chars, sa)
    ensures RunIs(q, chars, sa, ScanFirst(q, chars, sa, 0), ScanLast(q, chars, sa, |sa|))
  {
    var f, l := ScanFirst(q, chars, sa, 0), ScanLast(q, chars, sa, |sa|);
    if f == -1 {
      assert l == -1;
    } else {
      assert l != -1 && f <= l;
      forall k | 0 <= k < |sa| && f <= k <= l
        ensures Matches(q, chars, sa[k])
      {
        MatchesContiguous(q, chars, sa, f, k, l);
      }
    }
  }

  /** x is the value of one of the slots f..l. */
  predicate InRun(owners: seq<nat>, f: int, l: int, x: nat)
  {
    exists k :: f <= k <= l && 0 <= k < |owners| && owners[k] == x
  }

  /** The slots f..l of `slice(f, l + 1)`, or none when f and l are -1. */
  lemma SliceRun(owners: seq<nat>, f: int, l: int)
    requires (f == -1 && l == -1) || 0 <= f <= l < |owners|
    ensures forall x :: x in Slice(owners, f, l + 1) <==> InRun(owners, f, l, x)
  {
    var slice := Slice(owners, f, l + 1);
    if f == -1 {
      assert slice == [];
    } else {
      forall x | x in slice
        ensures InRun(owners, f, l, x)
      {
        var i :| 0 <= i < |slice| && slice[i] == x;
        assert owners[f + i] == x;
      }
      forall k | f <= k <= l && 0 <= k < |owners|
        ensures owners[k] in slice
      {
        assert slice[k - f] == owners[k];
      }
    }
  }

  /** When the matching slots are f..l, the owners of slots f..l are the
      owners of the matching slots. */
  lemma RunOwners<E>(ix: Index<E>, q: seq<nat>, f: int, l: int, x: nat)
    requires RunIs(q, ix.charArray, ix.suffixArray, f, l)
    requires |ix.suffixArrayEntries| == |ix.suffixArray|
    ensures InRun(ix.suffixArrayEntries, f, l, x) <==> OwnsMatch(ix, q, x)
  {
    var chars, sa, owners := ix.charArray, ix.suffixArray, ix.suffixArrayEntries;
    if InRun(owners, f, l, x) {
      var k :| f <= k <= l && 0 <= k < |owners| && owners[k] == x;
      assert Matches(q, chars, sa[k]);
    }
    if OwnsMatch(ix, q, x) {
      var k :| 0 <= k < |sa| && k < |owners| && Matches(q, chars, sa[k]) && owners[k] == x;
      assert f <= k <= l;
    }
  }

  /** On a cut-sorted suffix array, the entry starts match collects are exactly
      the owners of the suffixes that begin with the query. */
  lemma MatchExact<E>(ix: Index<E>, q: seq<nat>)
    requires Valid(ix) && Terminated(q, ix.charArray) && CutSorted(ix.charArray, ix.suffixArray)
    ensures var range := MatchRange(ix, q);
            forall x :: x in MatchedIds(ix.suffixArrayEntries, range.0, range.1) <==> OwnsMatch(ix, q, x)
  {
    var chars, sa, owners := ix.charArray, ix.suffixArray, ix.suffixArrayEntries;
    FirstIsScan(q, chars, sa);
    LastIsScan(q, chars, sa);
    var f, l := ScanFirst(q, chars, sa, 0), ScanLast(q, chars, sa, |sa|);
    ScanRun(q, chars, sa);
    assert MatchRange(ix, q) == (f, l);
    SliceRun(owners, f, l);
    var ids := MatchedIds(owners, f, l);
    forall x
      ensures x in ids <==> OwnsMatch(ix, q, x)
    {
      assert x in ids <==> InRun(owners, f, l, x);
      RunOwners(ix, q, f, l, x);
    }
  }
}
