# AutoComplete suffix-array model

A Dafny model of the `AutoComplete` class in `suffix-array.ts`. The class
lays out the normalised texts of a list of entries end to end. Each text is
followed by a 0 separator. It builds a suffix array over that text with the
skew (DC3) construction: `getSuffixArray`, `radixSortM12`, `radixSortM0`,
`compare` and `merge`. Then it records, for every suffix, the entry whose
text the suffix starts in: `getInputIndex` and `mapCharacterArray`.

`match` finds the first and the last suffix that begin with the normalised
query. It uses two binary searches over `getLCP`. It then returns the owners
of the suffixes between them, each once (`getEntries`). `insert` and
`remove` build a new model over a changed entry list.

Modelling choices:

- Characters are natural-number code points. A text is a `seq<nat>`.
- The entry type is a type parameter `E`.
- `customStringFunction` is a parameter `text: E -> seq<nat>`. The spread
  `[...s]` is already applied, so `text` returns code points.
- `toLocaleLowerCase` is a parameter `norm: seq<nat> -> seq<nat>` and is
  otherwise uninterpreted.
- `entryIndex` is an association list of (start offset, entry) pairs in
  insertion order. Object keys are integers, so `Object.values` lists them in
  ascending key order, which is this list's order.
- A model is the immutable value `Completion.AutoComplete`. `insert` and
  `remove` are functions returning a new one, as the class does.

Modules, one per part of the program:

- `Seqs`: shared sequence facts.
- `RadixSort`: the stable bucket pass and LSD passes used by both radix sorts.
- `Skew`: `getSuffixArray` and its helpers.
- `CharacterStream`: `getCharacterArray`, `getInputIndex`,
  `mapCharacterArray` and `build`.
- `MatchEngine`: `getLCP`, `binarySearch`, `getEntries` and `match`.
- `SortedSearch`: what the search finds when the suffix array is
  cut-sorted: each suffix compared only up to its first 0.
- `Completion`: the constructor, `insert`, `remove`, and what `match`
  returns in terms of the entries.

## Model

| member | source | states |
|---|---|---|
| `CharacterStream.CharacterArray` | suffix-array.ts:57-63 | the text has a 0 after every entry: it is empty exactly for no entries, otherwise it ends with 0 and is at least one code per entry long |
| `CharacterStream.CharacterArrayAppend` | suffix-array.ts:57-63 | the text of a + b is the text of a followed by the text of b |
| `CharacterStream.CharacterArrayLength` | suffix-array.ts:57-63 | the text is exactly as long as the normalised entries plus one separator each |
| `CharacterStream.CharacterArraySplit` | suffix-array.ts:57-63 | the text is the text of the entries before k, entry k's normalised text, a 0, then the text of the entries after k |
| `CharacterStream.Layout` | suffix-array.ts:57-63 | entry k's normalised text, followed by a 0, sits at entry k's key when keys count normalised lengths; the last separator ends the text |
| `CharacterStream.InputIndexFrom` | suffix-array.ts:221-229 | from a running offset, entry k is keyed by the offset plus the lengths, each plus one, of the texts before it |
| `CharacterStream.InputIndex` | suffix-array.ts:221-229 | every entry is kept, in order, keyed by the total length plus one per entry of the texts before it |
| `CharacterStream.InputIndexIncreases` | suffix-array.ts:221-229 | an entry's text and separator end before any later entry's key |
| `CharacterStream.NextKey` | suffix-array.ts:224-227 | the next key is this key plus this text's length plus one |
| `CharacterStream.InputIndexKeysIncrease` | suffix-array.ts:221-229 | keys strictly increase along the index |
| `CharacterStream.ValuesOfIndex` | suffix-array.ts:221-229 | `Object.values` of the index gives back exactly the entries, in order |
| `CharacterStream.Lookup` | suffix-array.ts:350 | `entryIndex[i]` is defined exactly when some entry starts at i, and then it is that entry |
| `CharacterStream.Values` | suffix-array.ts:287 | `Object.values` lists the entries in key order, one per key |
| `CharacterStream.OwnerUnique` | suffix-array.ts:46-55 | a position has at most one owner |
| `CharacterStream.MapFrom` | suffix-array.ts:50-54 | the scan from position i on keeps each character and tags it with its owner: the greatest entry start at or before it, or undefined |
| `CharacterStream.MapCharacterArray` | suffix-array.ts:46-55 | every position keeps its character and is tagged with its owner |
| `CharacterStream.EntryOwnsItsText` | suffix-array.ts:46-55 | every position of entry k's text and its separator is owned by entry k |
| `CharacterStream.PositionsOwned` | suffix-array.ts:42-43 | once some entry starts at 0, every suffix has an owner, so `mappedChars[pos].e` is never undefined |
| `CharacterStream.SuffixEntries` | suffix-array.ts:43 | slot k of `suffixArrayEntries` is the owner of the suffix in slot k |
| `CharacterStream.Assemble` | suffix-array.ts:42-43 | given a permutation suffix array and increasing keys starting at 0, the index is valid: every slot records the owner of its suffix |
| `CharacterStream.Build` | suffix-array.ts:37-44 | build leaves a valid index: the suffix array is a permutation of the positions, every slot records its suffix's owner, keys increase, `Object.values` is the entry list, the text is the normalised layout, and the keys count un-normalised lengths as getInputIndex does |
| `CharacterStream.SpanKeptLengths` | suffix-array.ts:221-229 | when the normaliser keeps every entry's length, raw and normalised texts take the same room |
| `CharacterStream.AlignedIndex` | suffix-array.ts:221-229 | when the normaliser keeps every entry's length, getInputIndex's raw keys are the starts of the normalised texts |
| `CharacterStream.OwnedSuffix` | suffix-array.ts:37-55 | with the raw keys build records and a normaliser that keeps lengths, the entry recorded for a suffix is the entry whose normalised text or separator the suffix starts in |
| `CharacterStream.IndexDrift` | suffix-array.ts:221-229 | with keys advanced by un-normalised lengths, a character of the first entry is credited to the second entry, whose text does not contain it |
| `CharacterStream.DriftAligned` | suffix-array.ts:57-63 | with keys advanced by normalised lengths, the same position is credited to the first entry |
| `Skew.Residues` | suffix-array.ts:70-80 | the positions below n with residue k, in ascending order, as the loop pushes them into m0, m1 or m2; its properties are the rows that follow |
| `Skew.ResiduesShape` | suffix-array.ts:70-80 | each of m0, m1 and m2 is ascending, below n, and holds one residue class |
| `Skew.ResiduesSumStep` | suffix-array.ts:70-80 | one more loop step adds exactly the new position to the three classes together |
| `Skew.PartitionCovers` | suffix-array.ts:70-80 | m0, m1 and m2 together hold every position below n exactly once |
| `Skew.ResiduesCount` | suffix-array.ts:70-80 | the three class lengths add up to n, and a non-empty text has a position of residue 0 |
| `Skew.SampleDistinct` | suffix-array.ts:81 | m1 concatenated with m2 has no repeated position |
| `Skew.SampleM12` | suffix-array.ts:70-81 | every sample position is a text position with residue 1 or 2 |
| `Skew.SampleSmaller` | suffix-array.ts:81-92 | the sample is smaller than a non-empty text, so the recursion ends |
| `Skew.SampleIsDistinct` | suffix-array.ts:81 | the sample has no repeated position |
| `Skew.Items` | suffix-array.ts:134-138 | one `{ pos, index }` record per sample position, in sample order |
| `Skew.TripleKeysOrder` | suffix-array.ts:133-147 | the order of the three pass keys is the lexicographic order of the zero-padded triples |
| `Skew.SortTriples` | suffix-array.ts:133-147 | the three passes permute the records and leave them in triple order |
| `Skew.SortTriplesStable` | suffix-array.ts:139-147 | records sharing a triple keep their sample order |
| `Skew.RunRanks` | suffix-array.ts:152-171 | ranks start at 1 and rise by one exactly where a record's triple differs from its predecessor's |
| `Skew.RanksMonotone` | suffix-array.ts:152-171 | ranks never fall along the sorted records |
| `Skew.RanksEqualIffSameTriple` | suffix-array.ts:152-171 | two sorted records share a rank exactly when they share a triple |
| `Skew.RanksOrder` | suffix-array.ts:152-171 | ranks order the sorted records as their triples do |
| `Skew.AnyDuplicate` | suffix-array.ts:153-166 | the flag is raised exactly when some sorted record repeats its predecessor's triple |
| `Skew.DuplicateFoundSound` | suffix-array.ts:153-166 | a raised flag means two sample positions share a triple |
| `Skew.DuplicateFoundComplete` | suffix-array.ts:153-166 | two sample positions sharing a triple raise the flag |
| `Skew.DuplicateFoundIff` | suffix-array.ts:153-166 | the flag is raised exactly when two sample positions share a triple |
| `Skew.Scatter` | suffix-array.ts:169 | `rankedM12[pos] = rank` puts each record's rank at its sample slot |
| `Skew.Record` | suffix-array.ts:170 | the rank table has exactly the recorded keys, and with distinct keys each maps to its own value |
| `Skew.SortedItemsShape` | suffix-array.ts:133-147 | each sorted record names its own sample slot, and no slot appears twice |
| `Skew.ItemLocated` | suffix-array.ts:133-147 | the record of every sample slot is among the sorted records |
| `Skew.RadixSortM12` | suffix-array.ts:127-175 | the sample in triple order, its ranks, and a duplicate flag raised exactly when two triples tie |
| `Skew.RadixSortM12Ranks` | suffix-array.ts:148-171 | ranks are positive, compare as the triples do, and read the same by sample slot and by position |
| `Skew.SortedM12Order` | suffix-array.ts:168 | `sortedM12` lists positions in triple order |
| `Skew.SortedM12Permutation` | suffix-array.ts:168 | `sortedM12` is a permutation of the sample |
| `Skew.ScatterOrder` | suffix-array.ts:169 | the ranks in `rankedM12` are positive and compare as the triples of their sample positions |
| `Skew.RecordAgrees` | suffix-array.ts:169-170 | with a distinct sample, `rankedM12` and `m12Ranks` give each sample position the same rank |
| `Skew.RunRanksNoDuplicate` | suffix-array.ts:152-171 | with no tie the ranks along the sorted records are 1, 2, 3, ... |
| `Skew.RecordCounts` | suffix-array.ts:95 | recording distinct keys against consecutive values gives each key its place plus the base |
| `Skew.NoDuplicateRanks` | suffix-array.ts:148-175 | with no tie the sample is distinct and `m12Ranks` gives the k-th sorted position rank k + 1 |
| `Skew.NoTieRanks` | suffix-array.ts:148-175 | with no tie, the rank table built from the sorted records counts from 1 |
| `Skew.M0KeysOrder` | suffix-array.ts:109-121 | the order of the two pass keys is the order of (code, rank of next position) |
| `Skew.RadixSortM0` | suffix-array.ts:104-125 | m0 is permuted and ordered by code, with ties broken by the rank of the next position, where a missing rank reads 0 |
| `Skew.RadixSortM0Stable` | suffix-array.ts:104-125 | positions sharing a code and a next rank keep their m0 order |
| `Skew.Steps` | suffix-array.ts:212-217 | compare recurses at most twice before both positions are off residue 0 |
| `Skew.RankOf` | suffix-array.ts:213 | a lookup in the rank table with the missing-rank default written out: the recorded rank, or 0 for a position that has none; the collision of that 0 with a real rank is `Skew.RankZeroCollision` |
| `Skew.Compare` | suffix-array.ts:206-219 | compare orders by rank when both positions are off residue 0, otherwise by code and then by the next comparison, reading only inside the padded input |
| `Skew.Merge` | suffix-array.ts:177-204 | the merged list is an interleaving of the two sorted lists and holds exactly their elements |
| `Skew.MergeLoop` | suffix-array.ts:183-203 | the while loop and the final concatenation compute the same list as the recursive merge |
| `Skew.MergeInputs` | suffix-array.ts:98-100 | both merge inputs are text positions, so compare stays inside the padded input, and together they cover every position |
| `Skew.TiedSampleIff` | suffix-array.ts:84-91 | on the padded text, the duplicate flag is raised exactly when two sample positions share a triple |
| `Skew.UntiedSample` | suffix-array.ts:84-98 | without a tie, radixSortM12's triple order and ranks counting from 1 are kept |
| `Skew.Pick` | suffix-array.ts:93 | `(index) => m12[index]`, mapping a slot of the sample to its text position; `Skew.PickIota` and `Skew.PickPermutation` state what it does to a permutation of slots |
| `Skew.PickIota` | suffix-array.ts:93 | mapping the slots 0..n-1 through `m12[index]` gives m12 back |
| `Skew.PickPermutation` | suffix-array.ts:93 | mapping a permutation of the slots through `m12[index]` gives a permutation of m12 |
| `Skew.ZeroBasedRanks` | suffix-array.ts:94-95 | after the recursion, the rank table covers the sample and ranks the k-th position k, counting from 0 |
| `Skew.ResortSample` | suffix-array.ts:91-96 | the recursive branch yields a permutation of the sample, ranked from 0 by its place |
| `Skew.RankSample` | suffix-array.ts:84-96 | the sample order and rank table that radixSortM0 and merge read: ranks count from 0 after a tie and from 1 without one |
| `Skew.Padded` | suffix-array.ts:82 | the text with three zeros appended; `Skew.PaddedTriples` states that every triple read through it is the text's, zero past the end |
| `Skew.PaddedTriples` | suffix-array.ts:82 | reading the zero-padded input reads the text with zeros past its end |
| `Skew.SuffixArray` | suffix-array.ts:65-102 | the suffix array is a permutation of the text's positions |
| `Skew.SuffixArrayStep` | suffix-array.ts:98-101 | the suffix array is the merge of the sorted residue-0 positions with the ranked sample |
| `Skew.MergeTakesSample` | suffix-array.ts:188-198 | when compare does not put the residue-0 head first, merge emits the sample head and goes on |
| `Skew.MergeRest` | suffix-array.ts:200-203 | once the sample is used up, merge appends the residue-0 positions left |
| `Skew.PairSuffixArray` | suffix-array.ts:65-102 | two equal codes give the suffix array [1, 0] |
| `Skew.ZerosTie` | suffix-array.ts:84-92 | on four zero codes the two sample positions 1 and 2 share a triple and a rank, so the recursion runs |
| `Skew.ZerosSample` | suffix-array.ts:91-96 | on four zero codes the recursion orders the sample 2, 1 and ranks 2 with 0, the value a missing rank at 4 or 5 reads |
| `Skew.ZerosM0` | suffix-array.ts:104-125 | radixSortM0 puts position 3 before 0, since the rank after 3 reads 0 |
| `Skew.ZerosMerge` | suffix-array.ts:177-219 | merging [3, 0] with [2, 1] on four zero codes gives [2, 1, 3, 0] |
| `Skew.ZerosSuffixArray` | suffix-array.ts:65-102 | four zero codes give the suffix array [2, 1, 3, 0], with the suffix 0 0 0 at 1 before the suffix 0 at 3 |
| `Skew.RankZeroCollision` | suffix-array.ts:94-111 | after a tie the smallest sample position gets rank 0, the same value a missing rank reads as at the end of the text |
| `RadixSort.BucketSort` | suffix-array.ts:136-146 | one bucket pass: the elements read bucket by bucket in key order, each bucket in input order; its permutation, stability and order are the `BucketSort*` rows |
| `RadixSort.KeyRange` | suffix-array.ts:136-144 | a bucket range keeps only elements of the input whose keys lie in the range |
| `RadixSort.Buckets` | suffix-array.ts:141-146 | reading buckets 0..n-1 yields only keys below n |
| `RadixSort.BucketsPermutation` | suffix-array.ts:141-146 | reading buckets 0..n-1 back gives the elements with keys below n |
| `RadixSort.BucketSortPermutation` | suffix-array.ts:141-146 | a bucket pass neither drops nor adds elements |
| `RadixSort.BucketSortStable` | suffix-array.ts:141-146 | a bucket pass keeps input order inside each bucket |
| `RadixSort.BucketSortSorted` | suffix-array.ts:139-147 | a stable pass by a new leading key turns an order by the other keys into an order by all of them |
| `RadixSort.Radix` | suffix-array.ts:133-147 | LSD radix sort: a bucket pass per key, last key first; its permutation, order and stability are the `Radix*` rows |
| `RadixSort.RadixPermutation` | suffix-array.ts:133-147 | LSD passes permute their input |
| `RadixSort.RadixSorted` | suffix-array.ts:133-147 | LSD passes order their input lexicographically by the key tuple |
| `RadixSort.RadixStable` | suffix-array.ts:133-147 | elements sharing one key tuple keep their input order |
| `MatchEngine.CharAt` | suffix-array.ts:333 | `this.charArray[suffixPos + i]`: the character at a position, or undefined past the end of the text |
| `MatchEngine.LcpFrom` | suffix-array.ts:332-342 | the loop of getLCP from index i on, given that the suffix agrees with the query before i; `MatchEngine.LcpFromSpec` states what it returns |
| `MatchEngine.LcpFromSpec` | suffix-array.ts:332-340 | the loop from index i on keeps a prefix of the query that the suffix agrees with, and stops at the first disagreement |
| `MatchEngine.GetLcp` | suffix-array.ts:328-342 | `isMatched` holds exactly when the suffix begins with the query |
| `MatchEngine.LcpSpec` | suffix-array.ts:328-342 | lcp is the longest common prefix, `isMatched` means the whole query matched, and nextChar is the suffix's character at the mismatch, undefined past the end, only when asked for |
| `MatchEngine.GetLcpSpec` | suffix-array.ts:328-342 | the same facts, stated of getLCP |
| `MatchEngine.NextText` | suffix-array.ts:324 | `nextChar` as it takes part in `lcp + nextChar`: the character, or the string "undefined" when there is none |
| `MatchEngine.LexLess` | suffix-array.ts:324 | JavaScript's string `<` on code points: the first difference decides, and a proper prefix sorts first; the order facts are the `SortedSearch.LexLess*` rows |
| `MatchEngine.LexLessCommonPrefix` | suffix-array.ts:324 | string `<` ignores a common prefix |
| `MatchEngine.GoLeftIff` | suffix-array.ts:324 | after a mismatch the search goes left exactly when the query's first unmatched character is smaller than the suffix's |
| `MatchEngine.Half` | suffix-array.ts:309 | the half of n rounded down: twice it is n or n - 1 |
| `MatchEngine.BinarySearch` | suffix-array.ts:304-326 | -1 for an empty window, otherwise -1 or a slot in the window whose suffix begins with the query |
| `MatchEngine.StepOnMatch` | suffix-array.ts:312-322 | a matching midpoint is returned when its neighbour is off the array or does not match; otherwise the search continues past it towards the neighbour |
| `MatchEngine.StepOnMismatch` | suffix-array.ts:324-325 | a non-matching midpoint sends the search to the side the string comparison picks |
| `MatchEngine.SearchStep` | suffix-array.ts:308-325 | one step in terms of whole-query matches at the midpoint and its neighbour |
| `MatchEngine.BoundaryStep` | suffix-array.ts:304-326 | a step either stops at a run boundary or continues in a strictly smaller window inside the current one |
| `MatchEngine.SearchBoundary` | suffix-array.ts:304-326 | a found slot has no match just before it (first match) or just after it (last match) |
| `MatchEngine.EmptyQueryFirst` | suffix-array.ts:304-326 | the empty query's first-match search from slot 0 returns slot 0 |
| `MatchEngine.EmptyQueryLast` | suffix-array.ts:304-326 | the empty query's last-match search up to the last slot returns the last slot |
| `MatchEngine.Clamp` | suffix-array.ts:347 | a slice bound lands in [0, n], and an in-range bound is kept |
| `MatchEngine.Slice` | suffix-array.ts:347 | `slice` yields the elements between the clamped bounds, in order |
| `MatchEngine.SliceWhole` | suffix-array.ts:347 | slicing from 0 to the length gives the whole sequence |
| `MatchEngine.FirstIndex` | suffix-array.ts:347-351 | an index holding x with no x before it |
| `MatchEngine.Dedup` | suffix-array.ts:345-351 | the `matchedIDs` loop keeps each id exactly once and loses none |
| `MatchEngine.FirstIndexPrefix` | suffix-array.ts:345-351 | the first occurrence of x in a prefix that contains it is its first occurrence overall |
| `MatchEngine.DedupOrder` | suffix-array.ts:345-351 | ids come out in the order of their first occurrence |
| `MatchEngine.MatchedIds` | suffix-array.ts:344-351 | the owners of slots start..end, each once, exactly those of `slice(start, end + 1)` |
| `MatchEngine.OwnersAreKeys` | suffix-array.ts:350 | every slot's owner is an entry start, so the lookup in getEntries is defined |
| `MatchEngine.GetEntries` | suffix-array.ts:344-353 | one entry per collected owner, namely the entry starting there |
| `MatchEngine.MatchRange` | suffix-array.ts:299-300 | each of the two slots is -1 or a slot whose suffix begins with the query |
| `MatchEngine.Match` | suffix-array.ts:296-302 | one entry per owner collected between the two slots found for the normalised query, namely the entry starting there |
| `MatchEngine.EmptyQueryRange` | suffix-array.ts:299-300 | the empty query spans the whole suffix array |
| `SortedSearch.LexLessIrreflexive` | suffix-array.ts:324 | no string sorts before itself |
| `SortedSearch.LexLessTransitive` | suffix-array.ts:324 | string order is transitive |
| `SortedSearch.LexLessAsymmetric` | suffix-array.ts:324 | string order is asymmetric |
| `SortedSearch.PrefixLess` | suffix-array.ts:324 | a proper prefix sorts first |
| `SortedSearch.ExtensionNotLess` | suffix-array.ts:324 | a string that begins with q does not sort before q |
| `SortedSearch.MatchesIffPrefix` | suffix-array.ts:328-342 | a suffix matches exactly when the query is its prefix |
| `SortedSearch.MismatchInText` | suffix-array.ts:333-336 | with a 0-terminated text and a query without 0, a mismatch falls on a character of the text, so nextChar is defined |
| `SortedSearch.MismatchOrder` | suffix-array.ts:324 | after a mismatch the query sorts before `lcp + nextChar` exactly when the suffix is not below the query |
| `SortedSearch.GoesLeftIffNotBelow` | suffix-array.ts:324 | the search turns left exactly when the suffix is not below the query |
| `SortedSearch.Cut` | suffix-array.ts:57-63 | a suffix up to and including its first 0: a prefix of the suffix whose only 0 is its last code, and which ends in 0 when the text does |
| `SortedSearch.LexLessTotal` | suffix-array.ts:324 | any two strings are equal or one sorts before the other |
| `SortedSearch.CutDecides` | suffix-array.ts:324 | behind a 0 the query lacks, the rest of a string changes neither its order against the query nor whether it begins with it |
| `SortedSearch.CutMatches` | suffix-array.ts:328-342 | for a query without 0, a suffix begins with the query exactly when its cut does |
| `SortedSearch.CutBelow` | suffix-array.ts:324 | for a query without 0, a suffix sorts before the query exactly when its cut does |
| `SortedSearch.PrefixPassed` | suffix-array.ts:324 | a string beginning with q sorts before any string that q sorts before without being its prefix |
| `SortedSearch.ClassOrder` | suffix-array.ts:304-326 | on a cut-sorted array, slots below the query come first, then matches, then the rest |
| `SortedSearch.CutKeepsOrder` | suffix-array.ts:57-63 | on a 0-terminated text, a suffix before another never has the larger cut |
| `SortedSearch.SortedIsCutSorted` | suffix-array.ts:65-102 | an array sorted by whole suffixes is cut-sorted |
| `SortedSearch.ZerosNotSorted` | suffix-array.ts:65-102 | on four zero codes, the array [2, 1, 3, 0] is not sorted by whole suffixes |
| `SortedSearch.ZerosCutSorted` | suffix-array.ts:65-102 | on four zero codes every cut is [0], so any array of the positions is cut-sorted |
| `SortedSearch.ZerosUnsorted` | suffix-array.ts:65-102 | what getSuffixArray returns for four empty entries is not sorted by whole suffixes, but is cut-sorted |
| `SortedSearch.ScanFirst` | suffix-array.ts:299 | the first matching slot from k on, or -1 when none matches |
| `SortedSearch.ScanLast` | suffix-array.ts:300 | the last matching slot below k, or -1 when none matches |
| `SortedSearch.MismatchStep` | suffix-array.ts:324 | a mismatch at the midpoint sends the search towards every matching slot |
| `SortedSearch.FirstMatchOrder` | suffix-array.ts:304-326 | no match lies before the first match, and matches after it are contiguous |
| `SortedSearch.LastMatchOrder` | suffix-array.ts:304-326 | no match lies after the last match, and matches before it are contiguous |
| `SortedSearch.FirstStep` | suffix-array.ts:304-326 | one first-match step either returns the first match or keeps it in a smaller window |
| `SortedSearch.LastStep` | suffix-array.ts:304-326 | one last-match step either returns the last match or keeps it in a smaller window |
| `SortedSearch.SearchFirst` | suffix-array.ts:304-326 | with the first match in the window, the first-match search returns it |
| `SortedSearch.SearchLast` | suffix-array.ts:304-326 | with the last match in the window, the last-match search returns it |
| `SortedSearch.FirstIsScan` | suffix-array.ts:299 | for a query without a 0 code, on a cut-sorted array the first-match binary search agrees with a linear scan from the front |
| `SortedSearch.LastIsScan` | suffix-array.ts:300 | for a query without a 0 code, on a cut-sorted array the last-match binary search agrees with a linear scan from the back |
| `SortedSearch.FoundFirst` | suffix-array.ts:299 | the first-match search stops at the first slot of the run of matches |
| `SortedSearch.FoundLast` | suffix-array.ts:300 | the last-match search stops at the last slot of the run of matches |
| `SortedSearch.NothingFound` | suffix-array.ts:308 | with no matching slot, both searches report -1 |
| `SortedSearch.MatchesContiguous` | suffix-array.ts:304-326 | on a cut-sorted array the matching slots form one run |
| `SortedSearch.ScanRun` | suffix-array.ts:299-300 | the matching slots are exactly those between the two scans |
| `SortedSearch.SliceRun` | suffix-array.ts:347 | `slice(f, l + 1)` holds exactly the values of slots f..l |
| `SortedSearch.RunOwners` | suffix-array.ts:347-350 | the owners of slots f..l are exactly the owners of the matching slots |
| `SortedSearch.MatchExact` | suffix-array.ts:296-302 | for a query without a 0 code, on a cut-sorted array, match collects exactly the owners of the suffixes that begin with the query |
| `Completion.Entries` | suffix-array.ts:287 | `Object.values(this.entryIndex)`: the entries of a model in key order; `CharacterStream.ValuesOfIndex` shows they are the entries it was built from |
| `Completion.New` | suffix-array.ts:32-35 | the constructor keeps the entries, the text function and the normaliser, and leaves a valid index over the normalised layout, keyed by un-normalised lengths |
| `Completion.Items` | suffix-array.ts:286 | an inserted argument that is not an array is wrapped in one |
| `Completion.Insert` | suffix-array.ts:285-289 | the new model holds the old entries followed by the inserted ones |
| `Completion.InsertOne` | suffix-array.ts:286 | inserting a single entry is inserting the array holding it |
| `Completion.InsertNothing` | suffix-array.ts:285-289 | inserting an empty array rebuilds the same model |
| `Completion.InsertTwice` | suffix-array.ts:285-289 | two inserts in a row equal one insert of both batches |
| `Completion.Includes` | suffix-array.ts:261-262 | `includes` holds exactly when the needle occurs at some offset |
| `Completion.Every` | suffix-array.ts:258 | `every` holds exactly when every filter accepts the entry |
| `Completion.AnyIncluded` | suffix-array.ts:261-262 | `some` holds exactly when some listed string occurs in the text |
| `Completion.Keeps` | suffix-array.ts:257-269 | remove's callback: an entry stays when every filter accepts it and its text includes none of the strings |
| `Completion.Survivors` | suffix-array.ts:256-269 | the filter yields no more entries than it was given, and every survivor is kept by the callback |
| `Completion.SurvivorsCount` | suffix-array.ts:256-269 | a kept entry survives as often as it occurs, and a rejected one not at all |
| `Completion.SurvivorsAppend` | suffix-array.ts:256-269 | filtering keeps order: the survivors of a + b are a's followed by b's |
| `Completion.SurvivorsIdempotent` | suffix-array.ts:256-269 | filtering twice is filtering once |
| `Completion.SurvivorsAll` | suffix-array.ts:256-269 | if the callback keeps every entry, all survive |
| `Completion.SurvivorsNone` | suffix-array.ts:256-269 | if the callback rejects every entry, none survives |
| `Completion.Remove` | suffix-array.ts:247-271 | the new model holds every entry that all filters accept and whose text contains none of the strings, with its multiplicity, and no other entry |
| `Completion.RemoveNothing` | suffix-array.ts:247-271 | remove with no options rebuilds the same model |
| `Completion.RemoveIdempotent` | suffix-array.ts:247-271 | removing twice with the same options is removing once |
| `Completion.EmptyStringRemovesAll` | suffix-array.ts:261-262 | listing the empty string removes every entry |
| `Completion.RemoveKeepsOrder` | suffix-array.ts:255-270 | the entries left by remove keep their relative order |
| `Completion.MatchBeforeZero` | suffix-array.ts:332-338 | a query without 0 that matches at p ends before the first 0 at or after p |
| `Completion.MatchInsideText` | suffix-array.ts:57-63 | a match starting inside a separated text stays inside it |
| `Completion.TextMatches` | suffix-array.ts:57-63 | where an entry's text contains the query, the suffix there begins with it |
| `Completion.SlotOf` | suffix-array.ts:40 | every text position has a slot in the suffix array |
| `Completion.SlotOwnedBy` | suffix-array.ts:43 | the slot of a position records that position's owner |
| `Completion.MatchInsideEntry` | suffix-array.ts:37-63 | for a query without a 0 code and a normaliser that keeps lengths, the entry recorded for a matching suffix has a normalised text that contains the query |
| `Completion.EntryMatchOwned` | suffix-array.ts:37-63 | with a normaliser that keeps lengths, where an entry's normalised text contains the query, some matching suffix is recorded for that entry |
| `Completion.ContainingIff` | suffix-array.ts:37-63 | for a query without a 0 code and a normaliser that keeps lengths, an entry owns a matching suffix exactly when its normalised text contains the query |
| `Completion.EntryOwnsSlot` | suffix-array.ts:37-44 | with a normaliser that keeps lengths, entry t's start is recorded for the slot of the suffix at that start |
| `Completion.EveryEntryOwns` | suffix-array.ts:37-44 | with a normaliser that keeps lengths, every entry's start is recorded for some slot |
| `Completion.MatchFindsContaining` | suffix-array.ts:296-302 | for a query without a 0 code, on a cut-sorted array, with a normaliser that keeps lengths, match collects an entry's start exactly when its normalised text contains the query |
| `Completion.MatchedSound` | suffix-array.ts:344-353 | each entry returned is one whose collected start makes its text contain the query |
| `Completion.MatchedComplete` | suffix-array.ts:344-353 | an entry whose start is collected is among the entries returned |
| `Completion.MatchSoundAll` | suffix-array.ts:296-302 | for a normalised query without a 0 code, on a cut-sorted array, with a normaliser that keeps lengths, every entry match returns has a normalised text containing the normalised query |
| `Completion.MatchCompleteAll` | suffix-array.ts:296-302 | for a normalised query without a 0 code, on a cut-sorted array, with a normaliser that keeps lengths, every entry whose normalised text contains the normalised query is returned |
| `Completion.MatchReturnsContaining` | suffix-array.ts:296-302 | for a normalised query without a 0 code, on a cut-sorted array, with a normaliser that keeps lengths, match returns exactly the entries whose normalised text contains the normalised query |
| `Completion.EmptyQueryFindsAll` | suffix-array.ts:296-302 | with a normaliser that keeps lengths, the empty query collects every entry, whatever the order of the suffix array |
| `Completion.SeparatorCrossing` | suffix-array.ts:296-302 | a query holding a 0 falls outside the theorems above: with entries "a" and "b", the suffix that starts entry "a" begins with "a", 0, "b", though neither text contains that |

Most lemmas about the built index take `Valid(ix)` and two field
equalities as requires, not `Build(...)` itself. `CharacterStream.Build`
promises exactly these, so they hold for every model the constructor makes.

## Left out

- The `entries` option of `remove`, together with `sortProps` and the JSON
  comparison it relies on. This is JavaScript object identity and
  serialisation.
- The deep copy `JSON.parse(JSON.stringify(entryIndex))` in `remove`
  (suffix-array.ts:255) is treated as the identity. That is right only for
  entries a JSON round trip gives back unchanged. The copy drops
  function-valued and `undefined` properties, turns a `Date` into a string
  and strips class prototypes, and after `remove` the filters,
  `customStringFunction` and `match` all see the copies. Entries here are
  opaque values of type `E`, so none of that is modelled.
- `toLocaleLowerCase` and the code-point spread are the parameter `norm`
  and the parameter `text`. Locale rules and UTF-16 surrogate pairs are not
  modelled.
- `Skew.SuffixArray`: states only that the result is a permutation of the
  positions. getSuffixArray does not sort the suffixes in full (see
  Findings: `Skew.ZerosSuffixArray`). The weaker order the search needs,
  `SortedSearch.CutSorted`, is not proved of its result.
- `SortedSearch.FirstIsScan`: assumes `CutSorted`, which is not proved of
  the array build makes (see `Skew.SuffixArray` above), and a query without
  a 0 code (`SortedSearch.Terminated`; see the line on such queries below).
- `SortedSearch.LastIsScan`: assumes `CutSorted` and a query without a 0
  code, likewise.
- `SortedSearch.MatchExact`: assumes `CutSorted` and a query without a 0
  code, likewise.
- `Completion.MatchFindsContaining`: assumes `CutSorted` and a query
  without a 0 code, likewise, and a normaliser that keeps every entry's
  length (`KeepsLengths`). Without it the raw keys of getInputIndex can
  credit a position to the wrong entry (`CharacterStream.IndexDrift`).
- `Completion.MatchReturnsContaining`: assumes `CutSorted`, a normalised
  query without a 0 code and `KeepsLengths`, as above.
- `Completion.MatchSoundAll`: assumes `CutSorted`, a normalised query
  without a 0 code and `KeepsLengths`, as above.
- `Completion.MatchCompleteAll`: assumes `CutSorted`, a normalised query
  without a 0 code and `KeepsLengths`, as above.
- `CharacterStream.OwnedSuffix`: assumes `KeepsLengths`. Build keys entries
  by raw length, and only then are the keys the starts of the normalised
  texts (`CharacterStream.AlignedIndex`).
- `Completion.MatchInsideEntry`: assumes `KeepsLengths` and a query without a 0
  code, as above.
- `Completion.EntryMatchOwned`: assumes `KeepsLengths`, as above.
- `Completion.ContainingIff`: assumes `KeepsLengths` and a query without a 0
  code, as above.
- `Completion.EntryOwnsSlot`: assumes `KeepsLengths`. With a normaliser
  that shortens a text, a later key can lie past the end of the text.
- `Completion.EveryEntryOwns`: assumes `KeepsLengths`, as above.
- `Completion.EmptyQueryFindsAll`: assumes `KeepsLengths`, as above.
- `MatchEngine.Match` and `MatchEngine.GetEntries` require `Valid(ix)`. This
  is the invariant the constructor establishes, not a demand the source
  makes of callers of a built model.
- A query that holds a 0 code is outside every theorem about what match
  returns. The source accepts it, and the 0 in the query then matches the 0
  written after each text, so a match can run from one entry's text into
  the next. With entries "a" and "b", the suffix that starts "a" begins
  with "a", 0, "b" (`Completion.SeparatorCrossing`), so the query "a", 0,
  "b" can return "a", whose text does not contain it.
- The branch where `nextChar` is undefined in the `lcp + nextChar`
  comparison is modelled literally: the string "undefined" is appended. It
  can only be reached with a query containing a 0 code, which
  `SortedSearch.MismatchInText` rules out for the theorems about cut-sorted
  arrays.
- `mapCharacterArray` tests `entryIndex[i]` for truthiness. The model tests
  for key presence, which differs only for falsy entries. Those are not
  objects with a string field.
- The `c` field of `mapCharacterArray`'s records is kept but never read, as
  in the source.
- `if (i === inputLength) m1.push(i + 1)` at suffix-array.ts:74 cannot fire
  inside a loop bounded by `i < inputLength`. The model leaves it out.
- Sparse-array holes in the bucket arrays are flattened away by `flat` and
  `forEach`. Reading the buckets 0..max in order models the same result.
- The doc comment at suffix-array.ts:244 says a filter removes the entries
  for which it returns true. The code at suffix-array.ts:258 keeps an entry
  only when every filter returns true. The model follows the code.
- `Completion.Remove` states its result up to multiplicity. The order
  statement is a separate lemma, `Completion.RemoveKeepsOrder`, stated for
  models built from a concatenation.
- The demo code after the class (the `Guest` type and the sample calls) is
  not part of the model.

## Findings

| source | as written | input that shows it | evidently intended | confidence | as-written member | corrected member |
|---|---|---|---|---|---|---|
| suffix-array.ts:221-229 | `getInputIndex` advances each entry's offset by the length of its un-normalised text, while `getCharacterArray` lays out the normalised text | entries "İİİa" and "b" with a lower-casing that turns U+0130 into U+0069 U+0307: the text is "i̇i̇i̇a", 0, "b", 0, the second entry is keyed at 5, so the "a" at position 6 is credited to "b" | advance by the normalised length, so keys fall where the texts start | not executed | `CharacterStream.IndexDrift` | `CharacterStream.DriftAligned` |
| suffix-array.ts:65-102 | getSuffixArray ranks the sample from 0 after the recursion (suffix-array.ts:95), and 0 is also what a missing rank reads past the end of the text (suffix-array.ts:111, 213); the extra sample position that suffix-array.ts:74 would add is never pushed | four empty entries, codes [0, 0, 0, 0]: the result is [2, 1, 3, 0], which puts the suffix 0 0 0 before its own prefix 0; a hand trace of entries "aab" and "ab", codes [1, 1, 2, 0, 1, 2, 0], gives [6, 3, 0, 1, 4, 5, 2], with "ab", 0, "ab", 0 before its prefix "ab", 0 | the suffixes in lexicographic order | not executed | `SortedSearch.ZerosUnsorted` | `SortedSearch.MatchExact` |

Both rows are handled the same way: the model builds as the code is
written, and the theorems about `match` carry the hypothesis under which
the written code does what was intended.

- Keys. `CharacterStream.Build` keys entries by raw length, as
  `getInputIndex` does. The theorems about what `match` returns assume
  `KeepsLengths`, a normaliser that keeps every entry's length. Under it
  `CharacterStream.AlignedIndex` proves the raw keys equal the normalised
  ones, and `CharacterStream.OwnedSuffix` proves that every suffix is
  credited to the entry it starts in.
- Order. `SortedSearch.Sorted`, the order of whole suffixes, is not what
  getSuffixArray delivers. The search only ever compares a suffix with a
  query that has no 0, and behind the first 0 nothing changes the outcome
  (`SortedSearch.CutMatches`, `SortedSearch.CutBelow`). So the theorems
  assume `SortedSearch.CutSorted`, the order of suffixes cut at their first
  0. `SortedSearch.SortedIsCutSorted` shows it is weaker than `Sorted`, and
  `SortedSearch.ZerosUnsorted` shows it holds where `Sorted` fails. That
  getSuffixArray always delivers it is not proved.
