/** The AutoComplete class (suffix-array.ts:15-44, 244-302): a model is the
    index build produced from its entries, together with the function that
    gives an entry's text and the normaliser.  insert and remove never change
    a model: they collect entries and build a new one. */
module Completion {
  import opened Seqs
  import opened CharacterStream
  import opened MatchEngine
  import opened SortedSearch

  datatype AutoComplete<!E> = AutoComplete(ix: Index<E>, text: E -> seq<nat>, norm: seq<nat> -> seq<nat>)

  /** `Object.values(this.entryIndex)`: the entries a model holds, in the
      order they were given. */
  function Entries<E>(m: AutoComplete<E>): seq<E>
  {
    Values(m.ix.entryIndex)
  }

  /** The constructor (suffix-array.ts:32-35): build over the entries. */
  function New<E>(entries: seq<E>, text: E -> seq<nat>, norm: seq<nat> -> seq<nat>): (m: AutoComplete<E>)
    ensures Valid(m.ix)
    ensures Entries(m) == entries
    ensures m.text == text && m.norm == norm
    ensures m.ix.charArray == CharacterArray(entries, text, norm)
    ensures m.ix.entryIndex == InputIndex(entries, text)
  {
    AutoComplete(Build(entries, text, norm), text, norm)
  }

  // ---------------------------------------------------------------------
  // insert (suffix-array.ts:285-289)

  /** insert's argument: a single entry, or an array of them. */
  datatype Batch<E> = One(entry: E) | Many(entries: seq<E>)

  /** A single entry is wrapped in an array. */
  function Items<E>(b: Batch<E>): seq<E>
  {
    match b
    case One(e) => [e]
    case Many(es) => es
  }

  /** insert: a new model over the old entries followed by the new ones. */
  function Insert<E>(m: AutoComplete<E>, b: Batch<E>): (r: AutoComplete<E>)
    ensures Valid(r.ix)
    ensures Entries(r) == Entries(m) + Items(b)
    ensures r.text == m.text && r.norm == m.norm
  {
    New(Entries(m) + Items(b), m.text, m.norm)
  }

  /** Inserting one entry is inserting the array holding it. */
  lemma InsertOne<E>(m: AutoComplete<E>, e: E)
    ensures Insert(m, One(e)) == Insert(m, Many([e]))
  {
    assert Items(One(e)) == Items(Many([e]));
  }

  /** Inserting nothing into a model rebuilds the same model. */
  lemma InsertNothing<E>(entries: seq<E>, text: E -> seq<nat>, norm: seq<nat> -> seq<nat>)
    ensures Insert(New(entries, text, norm), Many([])) == New(entries, text, norm)
  {
    var m := New(entries, text, norm);
    assert Entries(m) == entries;
    AppendNil(entries);
  }

  /** Two inserts in a row are one insert of both batches. */
  lemma InsertTwice<E>(m: AutoComplete<E>, a: seq<E>, b: seq<E>)
    ensures Insert(Insert(m, Many(a)), Many(b)) == Insert(m, Many(a + b))
  {
    var m1 := Insert(m, Many(a));
    assert Entries(m1) == Entries(m) + a;
    AppendRegroup(Entries(m), a, b);
  }

  // ---------------------------------------------------------------------
  // remove (suffix-array.ts:256-269), the strings and filters options

  /** remove's options; a missing option is None. */
  datatype Removal<!E> = Removal(strings: Option<seq<seq<nat>>>, filters: Option<seq<E -> bool>>)

  /** needle occurs in hay at offset i. */
  predicate OccursAt(hay: seq<nat>, needle: seq<nat>, i: nat)
  {
    i + |needle| <= |hay| && hay[i..i + |needle|] == needle
  }

  /** `hay.includes(needle)`: the empty needle is in every string. */
  function Includes(hay: seq<nat>, needle: seq<nat>): (b: bool)
    ensures b <==> exists i :: 0 <= i && OccursAt(hay, needle, i)
    decreases |hay|
  {
    if |needle| > |hay| then false
    else if hay[..|needle|] == needle then
      assert OccursAt(hay, needle, 0);
      true
    else
      var b := Includes(hay[1..], needle);
      assert b ==> exists i :: 0 <= i && OccursAt(hay, needle, i) by {
        if b {
          var i :| 0 <= i && OccursAt(hay[1..], needle, i);
          assert hay[i + 1..i + 1 + |needle|] == hay[1..][i..i + |needle|];
          assert OccursAt(hay, needle, i + 1);
        }
      }
      assert (exists i :: 0 <= i && OccursAt(hay, needle, i)) ==> b by {
        if exists i :: 0 <= i && OccursAt(hay, needle, i) {
          var i :| 0 <= i && OccursAt(hay, needle, i);
          assert i != 0;
          assert hay[1..][i - 1..i - 1 + |needle|] == hay[i..i + |needle|];
          assert OccursAt(hay[1..], needle, i - 1);
        }
      }
      b
  }

  /** `filters.every((filter) => filter(entry))`. */
  function Every<E>(filters: seq<E -> bool>, e: E): (b: bool)
    ensures b <==> forall k :: 0 <= k < |filters| ==> filters[k](e)
    decreases |filters|
  {
    if |filters| == 0 then true
    else
      var b := filters[0](e) && Every(filters[1..], e);
      assert b <==> forall k :: 0 <= k < |filters| ==> filters[k](e) by {
        assert forall k :: 1 <= k < |filters| ==> filters[1..][k - 1] == filters[k];
      }
      b
  }

  /** `strings.some((string) => t.includes(string))`. */
  function AnyIncluded(strings: seq<seq<nat>>, t: seq<nat>): (b: bool)
    ensures b <==> exists k :: 0 <= k < |strings| && Includes(t, strings[k])
    decreases |strings|
  {
    if |strings| == 0 then false
    else
      var b := Includes(t, strings[0]) || AnyIncluded(strings[1..], t);
      assert b ==> exists k :: 0 <= k < |strings| && Includes(t, strings[k]) by {
        if b && !Includes(t, strings[0]) {
          var k :| 0 <= k < |strings[1..]| && Includes(t, strings[1..][k]);
          assert strings[k + 1] == strings[1..][k];
        }
      }
      assert (exists k :: 0 <= k < |strings| && Includes(t, strings[k])) ==> b by {
        if exists k :: 0 <= k < |strings| && Includes(t, strings[k]) {
          var k :| 0 <= k < |strings| && Includes(t, strings[k]);
          if k > 0 {
            assert strings[1..][k - 1] == strings[k];
          }
        }
      }
      b
  }

  /** remove's filter callback: true keeps the entry.  Every filter must
      accept it, and its text, not normalised, must contain none of the
      strings. */
  predicate Keeps<E>(how: Removal<E>, text: E -> seq<nat>, e: E)
  {
    && (how.filters.None? || Every(how.filters.value, e))
    && (how.strings.None? || !AnyIncluded(how.strings.value, text(e)))
  }

  /** `newEntries.filter(...)`: the entries the callback keeps. */
  function Survivors<E>(es: seq<E>, how: Removal<E>, text: E -> seq<nat>): (r: seq<E>)
    ensures |r| <= |es|
    ensures forall k :: 0 <= k < |r| ==> Keeps(how, text, r[k])
    decreases |es|
  {
    if |es| == 0 then []
    else (if Keeps(how, text, es[0]) then [es[0]] else []) + Survivors(es[1..], how, text)
  }

  /** An entry the callback keeps survives as often as it occurs; one it
      rejects does not survive at all. */
  lemma {:induction false} SurvivorsCount<E>(es: seq<E>, how: Removal<E>, text: E -> seq<nat>)
    ensures forall e :: multiset(Survivors(es, how, text))[e]
                        == if Keeps(how, text, e) then multiset(es)[e] else 0
    decreases |es|
  {
    if |es| > 0 {
      SurvivorsCount(es[1..], how, text);
      assert es == [es[0]] + es[1..];
    }
  }

  /** The filter keeps the order: the survivors of a + b are those of a
      followed by those of b. */
  lemma {:induction false} SurvivorsAppend<E>(a: seq<E>, b: seq<E>, how: Removal<E>, text: E -> seq<nat>)
    ensures Survivors(a + b, how, text) == Survivors(a, how, text) + Survivors(b, how, text)
    decreases |a|
  {
    if |a| == 0 {
      assert a + b == b;
    } else {
      assert (a + b)[1..] == a[1..] + b;
      SurvivorsAppend(a[1..], b, how, text);
    }
  }

  /** Filtering twice is filtering once. */
  lemma {:induction false} SurvivorsIdempotent<E>(es: seq<E>, how: Removal<E>, text: E -> seq<nat>)
    ensures Survivors(Survivors(es, how, text), how, text) == Survivors(es, how, text)
    decreases |es|
  {
    if |es| > 0 {
      var head := if Keeps(how, text, es[0]) then [es[0]] else [];
      SurvivorsAppend(head, Survivors(es[1..], how, text), how, text);
      SurvivorsIdempotent(es[1..], how, text);
      if Keeps(how, text, es[0]) {
        assert Survivors(head, how, text) == head by {
          assert head[1..] == [];
        }
      }
    }
  }

  /** When the callback keeps every entry, all survive. */
  lemma {:induction false} SurvivorsAll<E>(es: seq<E>, how: Removal<E>, text: E -> seq<nat>)
    requires forall k :: 0 <= k < |es| ==> Keeps(how, text, es[k])
    ensures Survivors(es, how, text) == es
    decreases |es|
  {
    if |es| > 0 {
      SurvivorsAll(es[1..], how, text);
    }
  }

  /** When the callback rejects every entry, none survives. */
  lemma {:induction false} SurvivorsNone<E>(es: seq<E>, how: Removal<E>, text: E -> seq<nat>)
    requires forall k :: 0 <= k < |es| ==> !Keeps(how, text, es[k])
    ensures Survivors(es, how, text) == []
    decreases |es|
  {
    if |es| > 0 {
      SurvivorsNone(es[1..], how, text);
    }
  }

  /** remove: a new model over the entries the callback keeps. */
  function Remove<E(!new)>(m: AutoComplete<E>, how: Removal<E>): (r: AutoComplete<E>)
    ensures Valid(r.ix)
    ensures r.text == m.text && r.norm == m.norm
    ensures forall k :: 0 <= k < |Entries(r)| ==> Keeps(how, m.text, Entries(r)[k])
    ensures forall e :: multiset(Entries(r))[e] == if Keeps(how, m.text, e) then multiset(Entries(m))[e] else 0
  {
    SurvivorsCount(Entries(m), how, m.text);
    New(Survivors(Entries(m), how, m.text), m.text, m.norm)
  }

  /** remove() with no options rebuilds the same model. */
  lemma RemoveNothing<E(!new)>(entries: seq<E>, text: E -> seq<nat>, norm: seq<nat> -> seq<nat>)
    ensures Remove(New(entries, text, norm), Removal(None, None)) == New(entries, text, norm)
  {
    var m := New(entries, text, norm);
    assert Entries(m) == entries && m.text == text && m.norm == norm;
    SurvivorsAll(entries, Removal(None, None), text);
  }

  /** Removing twice with the same options is removing once. */
  lemma RemoveIdempotent<E(!new)>(m: AutoComplete<E>, how: Removal<E>)
    ensures Remove(Remove(m, how), how) == Remove(m, how)
  {
    SurvivorsIdempotent(Entries(m), how, m.text);
  }

  /** The empty string is included in every text, so listing it removes
      every entry. */
  lemma EmptyStringRemovesAll<E(!new)>(m: AutoComplete<E>, strings: seq<seq<nat>>, filters: Option<seq<E -> bool>>)
    requires [] in strings
    ensures Entries(Remove(m, Removal(Some(strings), filters))) == []
  {
    var how := Removal(Some(strings), filters);
    var k :| 0 <= k < |strings| && strings[k] == [];
    forall e
      ensures !Keeps(how, m.text, e)
    {
      assert OccursAt(m.text(e), [], 0);
      assert Includes(m.text(e), strings[k]);
    }
    SurvivorsNone(Entries(m), how, m.text);
  }

  /** remove keeps the order of the entries: removing from a model over
      a + b leaves the survivors of a before the survivors of b. */
  lemma RemoveKeepsOrder<E(!new)>(a: seq<E>, b: seq<E>, text: E -> seq<nat>, norm: seq<nat> -> seq<nat>, how: Removal<E>)
    ensures Entries(Remove(New(a + b, text, norm), how))
         == Entries(Remove(New(a, text, norm), how)) + Entries(Remove(New(b, text, norm), how))
  {
    SurvivorsAppend(a, b, how, text);
  }

  // ---------------------------------------------------------------------
  // match (suffix-array.ts:296-302): what the slots found stand for

  /** A query without 0 codes that begins at p ends before the first 0 at
      or after p: none of its first j codes can sit on that 0. */
  lemma {:induction false} MatchBeforeZero(q: seq<nat>, chars: seq<nat>, p: nat, s: nat, j: nat)
    requires Matches(q, chars, p) && p <= s < |chars| && chars[s] == 0
    requires forall k :: 0 <= k < |q| ==> q[k] != 0
    requires j <= |q|
    ensures p + j <= s
  {
    if j > 0 {
      MatchBeforeZero(q, chars, p, s, j - 1);
      assert chars[p + (j - 1)] == q[j - 1];
    }
  }

  /** A match starting inside a separated text, or on its separator, stays
      inside the text when the query has no 0 code. */
  lemma MatchInsideText(chars: seq<nat>, o: nat, body: seq<nat>, q: seq<nat>, p: nat)
    requires SeparatedAt(chars, o, body) && o <= p <= o + |body|
    requires Terminated(q, chars) && Matches(q, chars, p)
    ensures OccursAt(body, q, p - o)
  {
    if |q| > 0 {
      MatchBeforeZero(q, chars, p, o + |body|, |q|);
      forall j | 0 <= j < |q|
        ensures body[p - o + j] == q[j]
      {
        assert chars[o..o + |body|][p - o + j] == chars[p + j];
      }
      assert body[p - o..p - o + |q|] == q;
    }
  }

  /** Where a separated text contains the query, the suffix there begins
      with it. */
  lemma TextMatches(chars: seq<nat>, o: nat, body: seq<nat>, q: seq<nat>, i: nat)
    requires SeparatedAt(chars, o, body) && OccursAt(body, q, i)
    ensures o + i < |chars| && Matches(q, chars, o + i)
  {
    forall j | 0 <= j < |q|
      ensures o + i + j < |chars| && chars[o + i + j] == q[j]
    {
      assert chars[o..o + |body|][i + j] == chars[o + i + j];
      assert body[i..i + |q|][j] == body[i + j];
    }
  }

  /** Every position of the text has a slot in its suffix array. */
  lemma SlotOf(sa: seq<nat>, n: nat, p: nat) returns (k: nat)
    requires multiset(sa) == multiset(Iota(n)) && p < n
    ensures k < |sa| && sa[k] == p
  {
    IotaMembers(n);
    assert p in Iota(n);
    assert p in multiset(sa);
    k :| 0 <= k < |sa| && sa[k] == p;
  }

  /** A suffix that begins with a query without 0 codes lies, query and
      all, inside the normalised text of the entry build credits it to. */
  lemma MatchInsideEntry<E>(entries: seq<E>, text: E -> seq<nat>, norm: seq<nat> -> seq<nat>, ix: Index<E>, q: seq<nat>, k: nat)
      returns (t: nat)
    requires Valid(ix)
    requires ix.charArray == CharacterArray(entries, text, norm)
    requires ix.entryIndex == InputIndex(entries, text) && KeepsLengths(entries, text, norm)
    requires Terminated(q, ix.charArray)
    requires k < |ix.suffixArray| && Matches(q, ix.charArray, ix.suffixArray[k])
    ensures t < |entries| && ix.entryIndex[t].0 == ix.suffixArrayEntries[k]
    ensures Includes(norm(text(entries[t])), q)
  {
    var p, o := ix.suffixArray[k], ix.suffixArrayEntries[k];
    AlignedIndex(entries, text, norm);
    OwnedSuffix(entries, text, norm, ix, k);
    t :| 0 <= t < |entries| && ix.entryIndex[t] == (o, entries[t]) && o <= p <= o + |norm(text(entries[t]))|;
    Layout(entries, text, norm, t);
    MatchInsideText(ix.charArray, o, norm(text(entries[t])), q, p);
  }

  /** Where an entry's normalised text contains the query, the suffix
      there begins with the query and is credited to that entry. */
  lemma EntryMatchOwned<E>(entries: seq<E>, text: E -> seq<nat>, norm: seq<nat> -> seq<nat>, ix: Index<E>, q: seq<nat>, t: nat, i: nat)
    requires Valid(ix)
    requires ix.charArray == CharacterArray(entries, text, norm)
    requires ix.entryIndex == InputIndex(entries, text) && KeepsLengths(entries, text, norm)
    requires t < |entries| && OccursAt(norm(text(entries[t])), q, i)
    ensures OwnsMatch(ix, q, ix.entryIndex[t].0)
  {
    var o := ix.entryIndex[t].0;
    AlignedIndex(entries, text, norm);
    Layout(entries, text, norm, t);
    TextMatches(ix.charArray, o, norm(text(entries[t])), q, i);
    EntryOwnsItsText(entries, text, t, o + i);
    var k := SlotOwnedBy(ix, o + i, o);
    assert Matches(q, ix.charArray, ix.suffixArray[k]);
  }

  /** The slot of position p in the suffix array records p's owner. */
  lemma SlotOwnedBy<E>(ix: Index<E>, p: nat, o: nat) returns (k: nat)
    requires Valid(ix) && p < |ix.charArray|
    requires OwnerOf(ix.entryIndex, p, Some(o))
    ensures k < |ix.suffixArray| && ix.suffixArray[k] == p
    ensures ix.suffixArrayEntries[k] == o
  {
    k := SlotOf(ix.suffixArray, |ix.charArray|, p);
    OwnerUnique(ix.entryIndex, p, Some(ix.suffixArrayEntries[k]), Some(o));
  }

  /** On a cut-sorted suffix array, for a normalised query without 0 codes,
      match collects the start of entry t exactly when entry t's normalised
      text contains the query. */
  lemma MatchFindsContaining<E>(entries: seq<E>, text: E -> seq<nat>, norm: seq<nat> -> seq<nat>, ix: Index<E>, q: seq<nat>)
    requires Valid(ix)
    requires ix.charArray == CharacterArray(entries, text, norm)
    requires ix.entryIndex == InputIndex(entries, text) && KeepsLengths(entries, text, norm)
    requires Terminated(q, ix.charArray) && CutSorted(ix.charArray, ix.suffixArray)
    ensures var range := MatchRange(ix, q);
            forall t :: 0 <= t < |entries| ==>
              (ix.entryIndex[t].0 in MatchedIds(ix.suffixArrayEntries, range.0, range.1)
               <==> Includes(norm(text(entries[t])), q))
  {
    MatchExact(ix, q);
    forall t | 0 <= t < |entries|
      ensures OwnsMatch(ix, q, ix.entryIndex[t].0) <==> Includes(norm(text(entries[t])), q)
    {
      ContainingIff(entries, text, norm, ix, q, t);
    }
  }

  /** e is one of the entries whose normalised text contains q. */
  ghost predicate ContainingEntry<E>(entries: seq<E>, text: E -> seq<nat>, norm: seq<nat> -> seq<nat>, q: seq<nat>, e: E)
  {
    exists t :: 0 <= t < |entries| && e == entries[t] && Includes(norm(text(entries[t])), q)
  }

  /** On a cut-sorted suffix array, for a query whose normalised form has no 0
      code, match returns the entries whose normalised text contains the
      normalised query, and only those. */
  lemma MatchReturnsContaining<E>(entries: seq<E>, text: E -> seq<nat>, norm: seq<nat> -> seq<nat>, ix: Index<E>, query: seq<nat>)
    requires Valid(ix)
    requires ix.charArray == CharacterArray(entries, text, norm)
    requires ix.entryIndex == InputIndex(entries, text) && KeepsLengths(entries, text, norm)
    requires Terminated(norm(query), ix.charArray) && CutSorted(ix.charArray, ix.suffixArray)
    ensures var r := Match(ix, norm, query);
            && (forall k :: 0 <= k < |r| ==> ContainingEntry(entries, text, norm, norm(query), r[k]))
            && (forall t :: 0 <= t < |entries| && Includes(norm(text(entries[t])), norm(query)) ==> entries[t] in r)
  {
    MatchSoundAll(entries, text, norm, ix, query);
    MatchCompleteAll(entries, text, norm, ix, query);
  }

  lemma MatchSoundAll<E>(entries: seq<E>, text: E -> seq<nat>, norm: seq<nat> -> seq<nat>, ix: Index<E>, query: seq<nat>)
    requires Valid(ix)
    requires ix.charArray == CharacterArray(entries, text, norm)
    requires ix.entryIndex == InputIndex(entries, text) && KeepsLengths(entries, text, norm)
    requires Terminated(norm(query), ix.charArray) && CutSorted(ix.charArray, ix.suffixArray)
    ensures var r := Match(ix, norm, query);
            forall k :: 0 <= k < |r| ==> ContainingEntry(entries, text, norm, norm(query), r[k])
  {
    MatchFindsContaining(entries, text, norm, ix, norm(query));
    forall k | 0 <= k < |Match(ix, norm, query)|
      ensures ContainingEntry(entries, text, norm, norm(query), Match(ix, norm, query)[k])
    {
      var t := MatchedSound(entries, text, norm, ix, query, k);
    }
  }

  lemma MatchCompleteAll<E>(entries: seq<E>, text: E -> seq<nat>, norm: seq<nat> -> seq<nat>, ix: Index<E>, query: seq<nat>)
    requires Valid(ix)
    requires ix.charArray == CharacterArray(entries, text, norm)
    requires ix.entryIndex == InputIndex(entries, text) && KeepsLengths(entries, text, norm)
    requires Terminated(norm(query), ix.charArray) && CutSorted(ix.charArray, ix.suffixArray)
    ensures forall t :: 0 <= t < |entries| && Includes(norm(text(entries[t])), norm(query)) ==>
              entries[t] in Match(ix, norm, query)
  {
    MatchFindsContaining(entries, text, norm, ix, norm(query));
    forall t | 0 <= t < |entries| && Includes(norm(text(entries[t])), norm(query))
      ensures entries[t] in Match(ix, norm, query)
    {
      MatchedComplete(entries, text, norm, ix, query, t);
    }
  }

  /** Each entry match returns is one whose start it collected. */
  lemma MatchedSound<E>(entries: seq<E>, text: E -> seq<nat>, norm: seq<nat> -> seq<nat>, ix: Index<E>, query: seq<nat>, k: nat)
      returns (t: nat)
    requires Valid(ix)
    requires ix.entryIndex == InputIndex(entries, text)
    requires k < |Match(ix, norm, query)|
    requires var range := MatchRange(ix, norm(query));
             forall t :: 0 <= t < |entries| ==>
               (ix.entryIndex[t].0 in MatchedIds(ix.suffixArrayEntries, range.0, range.1)
                <==> Includes(norm(text(entries[t])), norm(query)))
    ensures t < |entries| && Match(ix, norm, query)[k] == entries[t]
    ensures Includes(norm(text(entries[t])), norm(query))
  {
    var range := MatchRange(ix, norm(query));
    var ids := MatchedIds(ix.suffixArrayEntries, range.0, range.1);
    var r := Match(ix, norm, query);
    t :| 0 <= t < |ix.entryIndex| && ix.entryIndex[t] == (ids[k], r[k]);
    assert ix.entryIndex[t].0 in ids;
  }

  /** An entry whose start match collects is among the entries it returns. */
  lemma MatchedComplete<E>(entries: seq<E>, text: E -> seq<nat>, norm: seq<nat> -> seq<nat>, ix: Index<E>, query: seq<nat>, t: nat)
    requires Valid(ix)
    requires ix.entryIndex == InputIndex(entries, text)
    requires t < |entries|
    requires var range := MatchRange(ix, norm(query));
             ix.entryIndex[t].0 in MatchedIds(ix.suffixArrayEntries, range.0, range.1)
    ensures entries[t] in Match(ix, norm, query)
  {
    var range := MatchRange(ix, norm(query));
    var ids := MatchedIds(ix.suffixArrayEntries, range.0, range.1);
    var r := Match(ix, norm, query);
    var k :| 0 <= k < |ids| && ids[k] == ix.entryIndex[t].0;
    var t' :| 0 <= t' < |ix.entryIndex| && ix.entryIndex[t'] == (ids[k], r[k]);
    assert KeysIncrease(ix.entryIndex);
    assert t' == t;
  }

  /** The two directions for one entry. */
  lemma ContainingIff<E>(entries: seq<E>, text: E -> seq<nat>, norm: seq<nat> -> seq<nat>, ix: Index<E>, q: seq<nat>, t: nat)
    requires Valid(ix)
    requires ix.charArray == CharacterArray(entries, text, norm)
    requires ix.entryIndex == InputIndex(entries, text) && KeepsLengths(entries, text, norm)
    requires Terminated(q, ix.charArray)
    requires t < |entries|
    ensures OwnsMatch(ix, q, ix.entryIndex[t].0) <==> Includes(norm(text(entries[t])), q)
  {
    var idx := ix.entryIndex;
    if OwnsMatch(ix, q, idx[t].0) {
      var k :| 0 <= k < |ix.suffixArray| && k < |ix.suffixArrayEntries|
        && Matches(q, ix.charArray, ix.suffixArray[k]) && ix.suffixArrayEntries[k] == idx[t].0;
      var t' := MatchInsideEntry(entries, text, norm, ix, q, k);
      assert idx[t'].0 == idx[t].0;
      assert KeysIncrease(idx);
      assert t' == t;
    }
    if Includes(norm(text(entries[t])), q) {
      var i :| 0 <= i && OccursAt(norm(text(entries[t])), q, i);
      EntryMatchOwned(entries, text, norm, ix, q, t, i);
    }
  }

  /** The empty query matches every suffix, so the search spans the whole
      suffix array and every entry is collected, sorted or not. */
  lemma EmptyQueryFindsAll<E>(entries: seq<E>, text: E -> seq<nat>, norm: seq<nat> -> seq<nat>, ix: Index<E>)
    requires Valid(ix)
    requires ix.charArray == CharacterArray(entries, text, norm)
    requires ix.entryIndex == InputIndex(entries, text) && KeepsLengths(entries, text, norm)
    ensures var range := MatchRange(ix, []);
            forall t :: 0 <= t < |entries| ==>
              ix.entryIndex[t].0 in MatchedIds(ix.suffixArrayEntries, range.0, range.1)
  {
    if |entries| > 0 {
      EveryEntryOwns(entries, text, norm, ix);
      assert ix.entryIndex[0].0 in ix.suffixArrayEntries;
      EmptyQueryRange(ix);
      SliceWhole(ix.suffixArrayEntries);
    }
  }

  /** Every entry owns some slot of the suffix array: the one of its own
      start. */
  lemma EveryEntryOwns<E>(entries: seq<E>, text: E -> seq<nat>, norm: seq<nat> -> seq<nat>, ix: Index<E>)
    requires Valid(ix)
    requires ix.charArray == CharacterArray(entries, text, norm)
    requires ix.entryIndex == InputIndex(entries, text) && KeepsLengths(entries, text, norm)
    ensures forall t :: 0 <= t < |entries| ==> ix.entryIndex[t].0 in ix.suffixArrayEntries
  {
    forall t | 0 <= t < |entries|
      ensures ix.entryIndex[t].0 in ix.suffixArrayEntries
    {
      EntryOwnsSlot(entries, text, norm, ix, t);
    }
  }

  lemma EntryOwnsSlot<E>(entries: seq<E>, text: E -> seq<nat>, norm: seq<nat> -> seq<nat>, ix: Index<E>, t: nat)
    requires Valid(ix)
    requires ix.charArray == CharacterArray(entries, text, norm)
    requires ix.entryIndex == InputIndex(entries, text) && KeepsLengths(entries, text, norm)
    requires t < |entries|
    ensures ix.entryIndex[t].0 in ix.suffixArrayEntries
  {
    var o := ix.entryIndex[t].0;
    AlignedIndex(entries, text, norm);
    Layout(entries, text, norm, t);
    EntryOwnsItsText(entries, text, t, o);
    var k := SlotOwnedBy(ix, o, o);
  }

  /** A query holding a 0 is outside the theorems above, and there they fail:
      with entries "a" and "b" the suffix at position 0, which starts the
      entry "a", begins with "a", 0, "b", though neither text contains it. */
  lemma SeparatorCrossing(a: nat, b: nat)
    requires a != 0 && b != 0
    ensures var text, norm := (e: nat) => [e], (s: seq<nat>) => s;
            var chars := CharacterArray([a, b], text, norm);
            && Matches([a, 0, b], chars, 0) && !Terminated([a, 0, b], chars)
            && InputIndex([a, b], text)[0] == (0, a)
    ensures !Includes([a], [a, 0, b]) && !Includes([b], [a, 0, b])
  {
    var text, norm := (e: nat) => [e], (s: seq<nat>) => s;
    assert CharacterArray([a, b], text, norm) == [a, 0, b, 0];
    assert [a, 0, b][1] == 0;
  }
}
