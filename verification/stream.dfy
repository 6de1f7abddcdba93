/** The text the index is built over (suffix-array.ts:37-63, 221-229): every
    entry's normalised text followed by a 0 code, the start offset of every
    entry, and for every position the entry it belongs to.

    An entry's text is `customStringFunction(entry)` spread into code points,
    given here as the function `text`; `norm` stands for `toLocaleLowerCase`
    followed by the same spread.  Both are parameters of the model. */
module CharacterStream {
  import opened Seqs
  import opened Skew

  /** getCharacterArray: each entry's normalised text and a 0 separator,
      entry after entry. */
  function CharacterArray<E>(entries: seq<E>, text: E -> seq<nat>, norm: seq<nat> -> seq<nat>): (chars: seq<nat>)
    ensures |chars| >= |entries|
    ensures |entries| > 0 ==> |chars| > 0 && chars[|chars| - 1] == 0
    ensures |entries| == 0 ==> chars == []
    decreases |entries|
  {
    if |entries| == 0 then []
    else norm(text(entries[0])) + [0] + CharacterArray(entries[1..], text, norm)
  }

  /** The room the entries take in the text when the normaliser keeps
      lengths: each entry's length plus one for its separator.  It is also
      how far getInputIndex advances its offset over them. */
  function Span<E>(entries: seq<E>, text: E -> seq<nat>): nat
    decreases |entries|
  {
    if |entries| == 0 then 0 else |text(entries[0])| + 1 + Span(entries[1..], text)
  }

  /** An entry's text as the text array holds it: normalised. */
  function Normalised<E>(text: E -> seq<nat>, norm: seq<nat> -> seq<nat>): E -> seq<nat>
  {
    e => norm(text(e))
  }

  lemma {:induction false} SpanAppend<E>(a: seq<E>, b: seq<E>, text: E -> seq<nat>)
    ensures Span(a + b, text) == Span(a, text) + Span(b, text)
    decreases |a|
  {
    if |a| > 0 {
      assert (a + b)[1..] == a[1..] + b;
      SpanAppend(a[1..], b, text);
    } else {
      assert a + b == b;
    }
  }

  /** getInputIndex from a running offset: each entry keyed by where its text
      starts, the offset advancing by the un-normalised length plus one for
      the separator.  The list is in key order, which is also the order of
      `Object.values` on the JavaScript record. */
  function InputIndexFrom<E>(entries: seq<E>, text: E -> seq<nat>, start: nat): (idx: seq<(nat, E)>)
    ensures |idx| == |entries|
    ensures forall k :: 0 <= k < |idx| ==> idx[k] == (start + Span(entries[..k], text), entries[k])
    decreases |entries|
  {
    if |entries| == 0 then []
    else
      var start' := start + |text(entries[0])| + 1;
      var rest := InputIndexFrom(entries[1..], text, start');
      var idx := [(start, entries[0])] + rest;
      assert forall k :: 0 <= k < |idx| ==> idx[k] == (start + Span(entries[..k], text), entries[k]) by {
        forall k | 0 <= k < |idx|
          ensures idx[k] == (start + Span(entries[..k], text), entries[k])
        {
          if k > 0 {
            assert entries[..k][1..] == entries[1..][..k - 1];
            assert idx[k] == rest[k - 1];
          }
        }
      }
      idx
  }

  /** getInputIndex: entry k is keyed by the room the entries before it take. */
  function InputIndex<E>(entries: seq<E>, text: E -> seq<nat>): (idx: seq<(nat, E)>)
    ensures |idx| == |entries|
    ensures forall k :: 0 <= k < |idx| ==> idx[k] == (Span(entries[..k], text), entries[k])
  {
    InputIndexFrom(entries, text, 0)
  }

  /** Keys strictly increase along the index. */
  predicate KeysIncrease<E>(idx: seq<(nat, E)>)
  {
    forall i, j :: 0 <= i < j < |idx| ==> idx[i].0 < idx[j].0
  }

  /** An entry's text and separator end before the next entry's start. */
  lemma InputIndexIncreases<E>(entries: seq<E>, text: E -> seq<nat>, i: nat, j: nat)
    requires i < j < |entries|
    ensures InputIndex(entries, text)[i].0 + |text(entries[i])| < InputIndex(entries, text)[j].0
  {
    assert entries[..j] == entries[..i] + entries[i..j];
    SpanAppend(entries[..i], entries[i..j], text);
    assert entries[i..j][0] == entries[i];
  }

  /** The next entry starts right after an entry's text and separator. */
  lemma NextKey<E>(entries: seq<E>, text: E -> seq<nat>, t: nat)
    requires t + 1 < |entries|
    ensures InputIndex(entries, text)[t + 1].0 == InputIndex(entries, text)[t].0 + |text(entries[t])| + 1
  {
    assert entries[..t + 1] == entries[..t] + [entries[t]];
    SpanAppend(entries[..t], [entries[t]], text);
    assert [entries[t]][1..] == [];
  }

  /** i is the start offset of some entry. */
  predicate IsKey<E>(idx: seq<(nat, E)>, i: nat)
  {
    exists k :: 0 <= k < |idx| && idx[k].0 == i
  }

  /** `entryIndex[i]`: the entry whose text starts at i, if any. */
  function Lookup<E>(idx: seq<(nat, E)>, i: nat): (r: Option<E>)
    ensures r.Some? <==> IsKey(idx, i)
    ensures r.Some? ==> exists k :: 0 <= k < |idx| && idx[k] == (i, r.value)
    decreases |idx|
  {
    if |idx| == 0 then None
    else if idx[0].0 == i then Some(idx[0].1)
    else
      var r := Lookup(idx[1..], i);
      assert IsKey(idx, i) ==> IsKey(idx[1..], i) by {
        if IsKey(idx, i) {
          var k :| 0 <= k < |idx| && idx[k].0 == i;
          assert idx[1..][k - 1] == idx[k];
        }
      }
      assert r.Some? ==> exists k :: 0 <= k < |idx| && idx[k] == (i, r.value) by {
        if r.Some? {
          var k :| 0 <= k < |idx[1..]| && idx[1..][k] == (i, r.value);
          assert idx[k + 1] == (i, r.value);
        }
      }
      r
  }

  /** `Object.values(entryIndex)`: the entries in key order. */
  function Values<E>(idx: seq<(nat, E)>): (es: seq<E>)
    ensures |es| == |idx|
    ensures forall k :: 0 <= k < |idx| ==> es[k] == idx[k].1
  {
    seq(|idx|, k requires 0 <= k < |idx| => idx[k].1)
  }

  /** o is the owner of position p: the greatest entry start at or before p,
      or None when no entry starts there or earlier. */
  ghost predicate OwnerOf<E>(idx: seq<(nat, E)>, p: nat, o: Option<nat>)
  {
    match o
    case None => forall t :: 0 <= t < |idx| ==> idx[t].0 > p
    case Some(k) =>
      && IsKey(idx, k) && k <= p
      && forall t :: 0 <= t < |idx| && idx[t].0 <= p ==> idx[t].0 <= k
  }

  /** A position has one owner. */
  lemma OwnerUnique<E>(idx: seq<(nat, E)>, p: nat, a: Option<nat>, b: Option<nat>)
    requires OwnerOf(idx, p, a) && OwnerOf(idx, p, b)
    ensures a == b
  {
  }

  /** `{ c: char, e: currentEntryIndex }` of mapCharacterArray. */
  datatype Mapped = Mapped(c: nat, e: Option<nat>)

  /** The scan of mapCharacterArray from position i on, with the entry start
      last seen before i. */
  function MapFrom<E>(chars: seq<nat>, idx: seq<(nat, E)>, i: nat, current: Option<nat>): (r: seq<Mapped>)
    requires i <= |chars|
    requires if i == 0 then current == None else OwnerOf(idx, i - 1, current)
    ensures |r| == |chars| - i
    ensures forall j :: 0 <= j < |r| ==> r[j].c == chars[i + j] && OwnerOf(idx, i + j, r[j].e)
    decreases |chars| - i
  {
    if i == |chars| then []
    else
      var cur := if Lookup(idx, i).Some? then Some(i) else current;
      [Mapped(chars[i], cur)] + MapFrom(chars, idx, i + 1, cur)
  }

  /** mapCharacterArray: every position with the entry start that owns it. */
  function MapCharacterArray<E>(chars: seq<nat>, idx: seq<(nat, E)>): (r: seq<Mapped>)
    ensures |r| == |chars|
    ensures forall p :: 0 <= p < |r| ==> r[p].c == chars[p] && OwnerOf(idx, p, r[p].e)
  {
    MapFrom(chars, idx, 0, None)
  }

  // ---------------------------------------------------------------------
  // build (suffix-array.ts:37-44)

  /** The fields build fills in. */
  datatype Index<E> = Index(
    charArray: seq<nat>,
    suffixArray: seq<nat>,
    entryIndex: seq<(nat, E)>,
    suffixArrayEntries: seq<nat>)

  /** What build establishes and every query relies on: the suffix array is
      a permutation of the text's positions, the entry starts increase, and
      slot k of suffixArrayEntries names the entry start owning the suffix in
      slot k. */
  ghost predicate Valid<E>(ix: Index<E>)
  {
    && multiset(ix.suffixArray) == multiset(Iota(|ix.charArray|))
    && |ix.suffixArrayEntries| == |ix.suffixArray|
    && KeysIncrease(ix.entryIndex)
    && forall k :: 0 <= k < |ix.suffixArray| ==>
         ix.suffixArray[k] < |ix.charArray| && OwnerOf(ix.entryIndex, ix.suffixArray[k], Some(ix.suffixArrayEntries[k]))
  }

  /** build: the text, its suffix array, the entry starts, and the owner of
      every suffix. */
  function Build<E>(entries: seq<E>, text: E -> seq<nat>, norm: seq<nat> -> seq<nat>): (ix: Index<E>)
    ensures Valid(ix)
    ensures Values(ix.entryIndex) == entries
    ensures |ix.suffixArray| == |ix.charArray| >= |entries|
    ensures ix.charArray == CharacterArray(entries, text, norm)
    ensures ix.entryIndex == InputIndex(entries, text)
  {
    var chars := CharacterArray(entries, text, norm);
    var idx := InputIndex(entries, text);
    InputIndexKeysIncrease(entries, text);
    ValuesOfIndex(entries, text);
    Assemble(chars, SuffixArray(chars), idx)
  }

  /** The last steps of build, given the text, its suffix array and the
      entry index: map the positions to their owners and read them off in
      suffix-array order. */
  function Assemble<E>(chars: seq<nat>, sa: seq<nat>, idx: seq<(nat, E)>): (ix: Index<E>)
    requires multiset(sa) == multiset(Iota(|chars|))
    requires |chars| > 0 ==> |idx| > 0 && idx[0].0 == 0
    requires KeysIncrease(idx)
    ensures Valid(ix)
    ensures ix.charArray == chars && ix.suffixArray == sa && ix.entryIndex == idx
  {
    var mapped := MapCharacterArray(chars, idx);
    PositionsOwned(chars, sa, idx, mapped);
    Index(chars, sa, idx, SuffixEntries(sa, mapped))
  }

  /** `suffixArray.map((pos) => mappedChars[pos].e)`. */
  function SuffixEntries(sa: seq<nat>, mapped: seq<Mapped>): (owners: seq<nat>)
    requires forall k :: 0 <= k < |sa| ==> sa[k] < |mapped| && mapped[sa[k]].e.Some?
    ensures |owners| == |sa|
    ensures forall k :: 0 <= k < |sa| ==> Some(owners[k]) == mapped[sa[k]].e
  {
    seq(|sa|, k requires 0 <= k < |sa| => mapped[sa[k]].e.value)
  }

  /** Object.values of the index gives back the entries, in order. */
  lemma ValuesOfIndex<E>(entries: seq<E>, text: E -> seq<nat>)
    ensures Values(InputIndex(entries, text)) == entries
  {
  }

  lemma InputIndexKeysIncrease<E>(entries: seq<E>, text: E -> seq<nat>)
    ensures KeysIncrease(InputIndex(entries, text))
  {
    var idx := InputIndex(entries, text);
    forall i, j | 0 <= i < j < |idx|
      ensures idx[i].0 < idx[j].0
    {
      InputIndexIncreases(entries, text, i, j);
    }
  }

  /** Once some entry starts at 0, every position has an owner. */
  lemma PositionsOwned<E>(chars: seq<nat>, sa: seq<nat>, idx: seq<(nat, E)>, mapped: seq<Mapped>)
    requires multiset(sa) == multiset(Iota(|chars|))
    requires |chars| > 0 ==> |idx| > 0 && idx[0].0 == 0
    requires mapped == MapCharacterArray(chars, idx)
    ensures forall k :: 0 <= k < |sa| ==>
              sa[k] < |mapped| && mapped[sa[k]].e.Some? && OwnerOf(idx, sa[k], mapped[sa[k]].e)
  {
    PermutationMembers(sa, Iota(|chars|));
    IotaMembers(|chars|);
    forall k | 0 <= k < |sa|
      ensures sa[k] < |mapped| && mapped[sa[k]].e.Some?
    {
      assert sa[k] in Iota(|chars|);
      assert OwnerOf(idx, sa[k], mapped[sa[k]].e);
    }
  }

  // ---------------------------------------------------------------------
  // Layout of the text

  lemma {:induction false} CharacterArrayAppend<E>(a: seq<E>, b: seq<E>, text: E -> seq<nat>, norm: seq<nat> -> seq<nat>)
    ensures CharacterArray(a + b, text, norm) == CharacterArray(a, text, norm) + CharacterArray(b, text, norm)
    decreases |a|
  {
    if |a| > 0 {
      assert (a + b)[1..] == a[1..] + b;
      CharacterArrayAppend(a[1..], b, text, norm);
    } else {
      assert a + b == b;
    }
  }

  /** The text is exactly as long as the room the normalised entries take. */
  lemma {:induction false} CharacterArrayLength<E>(entries: seq<E>, text: E -> seq<nat>, norm: seq<nat> -> seq<nat>)
    ensures |CharacterArray(entries, text, norm)| == Span(entries, Normalised(text, norm))
    decreases |entries|
  {
    if |entries| > 0 {
      CharacterArrayLength(entries[1..], text, norm);
    }
  }

  /** The text cut around entry k. */
  lemma {:induction false} CharacterArraySplit<E>(entries: seq<E>, text: E -> seq<nat>, norm: seq<nat> -> seq<nat>, k: nat)
    requires k < |entries|
    ensures CharacterArray(entries, text, norm)
         == CharacterArray(entries[..k], text, norm) + (norm(text(entries[k])) + [0])
            + CharacterArray(entries[k + 1..], text, norm)
    decreases k
  {
    if k > 0 {
      var tail := entries[1..];
      var head := norm(text(entries[0])) + [0];
      CharacterArraySplit(tail, text, norm, k - 1);
      assert tail[..k - 1] == entries[..k][1..];
      assert tail[k..] == entries[k + 1..];
      AppendAssoc(head, CharacterArray(tail[..k - 1], text, norm), norm(text(entries[k])) + [0],
                  CharacterArray(tail[k..], text, norm));
    }
  }

  // ---------------------------------------------------------------------
  // Keys and normalised lengths

  /** The normaliser keeps the length of every entry's text. */
  predicate KeepsLengths<E>(entries: seq<E>, text: E -> seq<nat>, norm: seq<nat> -> seq<nat>)
  {
    forall k :: 0 <= k < |entries| ==> |norm(text(entries[k]))| == |text(entries[k])|
  }

  /** When the normaliser keeps lengths, raw and normalised texts span the
      same number of positions. */
  lemma {:induction false} SpanKeptLengths<E>(entries: seq<E>, text: E -> seq<nat>, norm: seq<nat> -> seq<nat>)
    requires KeepsLengths(entries, text, norm)
    ensures Span(entries, text) == Span(entries, Normalised(text, norm))
    decreases |entries|
  {
    if |entries| > 0 {
      assert KeepsLengths(entries[1..], text, norm) by {
        forall k | 0 <= k < |entries| - 1
          ensures |norm(text(entries[1..][k]))| == |text(entries[1..][k])|
        {
          assert entries[1..][k] == entries[k + 1];
        }
      }
      SpanKeptLengths(entries[1..], text, norm);
    }
  }

  /** When the normaliser keeps lengths, the keys getInputIndex counts from
      the un-normalised texts are where the normalised texts start. */
  lemma AlignedIndex<E>(entries: seq<E>, text: E -> seq<nat>, norm: seq<nat> -> seq<nat>)
    requires KeepsLengths(entries, text, norm)
    ensures InputIndex(entries, text) == InputIndex(entries, Normalised(text, norm))
  {
    var raw, aligned := InputIndex(entries, text), InputIndex(entries, Normalised(text, norm));
    forall k | 0 <= k < |entries|
      ensures raw[k] == aligned[k]
    {
      assert KeepsLengths(entries[..k], text, norm) by {
        forall j | 0 <= j < k
          ensures |norm(text(entries[..k][j]))| == |text(entries[..k][j])|
        {
          assert entries[..k][j] == entries[j];
        }
      }
      SpanKeptLengths(entries[..k], text, norm);
    }
  }

  /** Entry k's normalised text and then a 0 sit at entry k's key in the
      aligned index; the last separator ends the text. */
  lemma Layout<E>(entries: seq<E>, text: E -> seq<nat>, norm: seq<nat> -> seq<nat>, k: nat)
    requires k < |entries|
    ensures var o := InputIndex(entries, Normalised(text, norm))[k].0;
            SeparatedAt(CharacterArray(entries, text, norm), o, norm(text(entries[k])))
    ensures k == |entries| - 1 ==>
              InputIndex(entries, Normalised(text, norm))[k].0 + |norm(text(entries[k]))| + 1
              == |CharacterArray(entries, text, norm)|
  {
    var chars := CharacterArray(entries, text, norm);
    var o := InputIndex(entries, Normalised(text, norm))[k].0;
    var pre := CharacterArray(entries[..k], text, norm);
    var t := norm(text(entries[k]));
    var post := CharacterArray(entries[k + 1..], text, norm);
    CharacterArraySplit(entries, text, norm, k);
    CharacterArrayLength(entries[..k], text, norm);
    SeparatedSlice(pre, t, post, chars, o);
    assert k == |entries| - 1 ==> |post| == 0;
  }

  /** Every position of entry k's text and its separator is owned by entry k. */
  lemma EntryOwnsItsText<E>(entries: seq<E>, text: E -> seq<nat>, k: nat, p: nat)
    requires k < |entries|
    requires var o := InputIndex(entries, text)[k].0; o <= p <= o + |text(entries[k])|
    ensures OwnerOf(InputIndex(entries, text), p, Some(InputIndex(entries, text)[k].0))
  {
    var idx := InputIndex(entries, text);
    forall t | 0 <= t < |idx| && idx[t].0 <= p
      ensures idx[t].0 <= idx[k].0
    {
      if t > k {
        InputIndexIncreases(entries, text, k, t);
      } else if t < k {
        InputIndexIncreases(entries, text, t, k);
      }
    }
  }

  /** The entry build records for a suffix is the entry whose normalised
      text (or separator) the suffix starts in. */
  lemma OwnedSuffix<E>(entries: seq<E>, text: E -> seq<nat>, norm: seq<nat> -> seq<nat>, ix: Index<E>, slot: nat)
    requires Valid(ix)
    requires ix.charArray == CharacterArray(entries, text, norm)
    requires ix.entryIndex == InputIndex(entries, text) && KeepsLengths(entries, text, norm)
    requires slot < |ix.suffixArray|
    ensures exists t :: 0 <= t < |entries|
              && ix.entryIndex[t] == (ix.suffixArrayEntries[slot], entries[t])
              && ix.suffixArrayEntries[slot] <= ix.suffixArray[slot]
                   <= ix.suffixArrayEntries[slot] + |norm(text(entries[t]))|
  {
    AlignedIndex(entries, text, norm);
    var idx := ix.entryIndex;
    var p := ix.suffixArray[slot];
    var o := ix.suffixArrayEntries[slot];
    assert OwnerOf(idx, p, Some(o));
    var t :| 0 <= t < |idx| && idx[t].0 == o;
    if t + 1 < |idx| {
      NextKey(entries, Normalised(text, norm), t);
    } else {
      Layout(entries, text, norm, t);
    }
  }

  // ---------------------------------------------------------------------
  // getInputIndex as written: offsets by the un-normalised length

  /** An entry that is its own text. */
  function Raw(e: seq<nat>): seq<nat>
  {
    e
  }

  /** A lower-casing that, like toLocaleLowerCase on U+0130 (capital I
      with dot above), turns one code point into two: U+0069 U+0307. */
  function DottedLower(s: seq<nat>): (r: seq<nat>)
    ensures |r| >= |s|
  {
    if |s| == 0 then []
    else (if s[0] == 0x130 then [0x69, 0x307] else [s[0]]) + DottedLower(s[1..])
  }

  /** Entries "İİİa" and "b". */
  const DriftEntries: seq<seq<nat>> := [[0x130, 0x130, 0x130, 0x61], [0x62]]

  /** Their text: "i̇i̇i̇a", 0, "b", 0. */
  lemma DriftText()
    ensures CharacterArray(DriftEntries, Raw, DottedLower)
         == [0x69, 0x307, 0x69, 0x307, 0x69, 0x307, 0x61, 0, 0x62, 0]
    ensures CharacterArray(DriftEntries, Raw, DottedLower)[6] == 0x61
    ensures DottedLower(DriftEntries[1]) == [0x62]
  {
    var e0: seq<nat> := [0x130, 0x130, 0x130, 0x61];
    var e1: seq<nat> := [0x62];
    assert DriftEntries == [e0, e1];
    assert [0x130, 0x61][1..] == [0x61];
    assert [0x130, 0x130, 0x61][1..] == [0x130, 0x61];
    assert e0[1..] == [0x130, 0x130, 0x61];
    assert DottedLower([0x61]) == [0x61];
    assert DottedLower([0x130, 0x61]) == [0x69, 0x307, 0x61];
    assert DottedLower([0x130, 0x130, 0x61]) == [0x69, 0x307, 0x69, 0x307, 0x61];
    assert DottedLower(e0) == [0x69, 0x307, 0x69, 0x307, 0x69, 0x307, 0x61];
    assert DriftEntries[1..] == [e1] && [e1][1..] == [];
    assert CharacterArray([e1], Raw, DottedLower) == [0x62] + [0];
  }

  /** Their keys: as written 0 and 5, by normalised lengths 0 and 8. */
  lemma DriftKeys()
    ensures InputIndex(DriftEntries, Raw) == [(0, DriftEntries[0]), (5, DriftEntries[1])]
    ensures InputIndex(DriftEntries, Normalised(Raw, DottedLower)) == [(0, DriftEntries[0]), (8, DriftEntries[1])]
  {
    var e0: seq<nat> := [0x130, 0x130, 0x130, 0x61];
    assert DriftEntries[..0] == [] && DriftEntries[..1] == [e0] && [e0][1..] == [];
    assert |DottedLower(e0)| == 7 by {
      DriftText();
    }
  }

  /** The first entry's normalised text is seven code points long, but
      getInputIndex, stepping by the un-normalised length, keys "b" at 5.
      Position 6 holds the "a" of the first entry, yet mapCharacterArray
      credits it to "b". */
  lemma IndexDrift()
    ensures CharacterArray(DriftEntries, Raw, DottedLower)[6] == 0x61
    ensures 0x61 !in DottedLower(DriftEntries[1])
    ensures InputIndex(DriftEntries, Raw)[1] == (5, DriftEntries[1])
    ensures MapCharacterArray(CharacterArray(DriftEntries, Raw, DottedLower), InputIndex(DriftEntries, Raw))[6].e == Some(5)
  {
    DriftText();
    DriftKeys();
    var chars := CharacterArray(DriftEntries, Raw, DottedLower);
    var asWritten := InputIndex(DriftEntries, Raw);
    assert OwnerOf(asWritten, 6, Some(5)) by {
      assert asWritten[1].0 == 5;
    }
    OwnerUnique(asWritten, 6, MapCharacterArray(chars, asWritten)[6].e, Some(5));
  }

  /** Keyed by normalised lengths, position 6 belongs to the first entry. */
  lemma DriftAligned()
    ensures MapCharacterArray(CharacterArray(DriftEntries, Raw, DottedLower), InputIndex(DriftEntries, Normalised(Raw, DottedLower)))[6].e == Some(0)
  {
    DriftText();
    DriftKeys();
    var chars := CharacterArray(DriftEntries, Raw, DottedLower);
    var aligned := InputIndex(DriftEntries, Normalised(Raw, DottedLower));
    assert OwnerOf(aligned, 6, Some(0)) by {
      assert aligned[0].0 == 0;
    }
    OwnerUnique(aligned, 6, MapCharacterArray(chars, aligned)[6].e, Some(0));
  }
}
