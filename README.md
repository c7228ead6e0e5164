# Anagram derivations: a Dafny model

This project models the core of `anagram_derivation`: a trie-backed word dictionary and a letter histogram, used together to find *anagram derivations*. An anagram derivation of a word is a dictionary word with exactly the same letters plus one extra letter, in any order. The model also covers the longest chains of such derivations.

- **Histogram** (`histogram.dfy`, module `Histograms`).
  - The class `Histogram` keeps the 26 counts for `'a'..'z'` in an `array<int>`, like `m_hits`.
  - It keeps the dirty mask in an `array<bool>`, like `m_dirtyMask`.
  - `Valid()` is the invariant "mask bit i is set exactly when count i is positive". `IsClear` reads only the mask, and this invariant is what makes that correct.
  - Every method is proved against value-level functions over `Counts` (a sequence of 26 integers): `Tally`, `Added`, `Removed`, `Difference` and `DiffByOne`. Their properties are proved as lemmas.
- **Trie** (`trie.dfy`, module `Tries`).
  - The nodes live in an arena `seq<Node>` with index 0 as the root. A node holds:
    - a parent index;
    - the indices of its children;
    - its letter, its `isWordEnd` flag and its depth.
  - `WellFormed` states that the arena is a tree:
    - every non-root node has exactly one owner, and its parent link points back to that owner;
    - depths grow by one per level;
    - siblings carry distinct letters.
  - `Reach`, `NodeContains` and `PathWord` are the walks of `Node::contains` and `intoString`.
  - `InsertAsWritten` is `Node::insert` as the C++ writes it. `Insert` is the corrected insertion.
- **Searches** (`search.dfy`, module `Search`). This module holds the recursive node searches as functions:
  - `Node::anagrams`, as written and corrected;
  - `Node::anagramDerivations`, as written and corrected;
  - the specification of `findLongest`: `ChainFrom`, a chain of derivations, and `Height`, the length of the longest chain.
- **Dictionary** (`dictionary.dfy`, module `Dictionaries`).
  - The class `Dictionary` holds the arena (`m_root` and everything below it) and `m_size`.
  - Its methods are the public operations, each proved against the search functions:
    - `Insert`, `Contains`, `Size`, `Anagrams`;
    - both overloads of `anagramDerivations`;
    - `FindLongest` and `LongestAnagramDerivations`.
  - The node-level searches that carry a `Histogram` by value are the module-level methods `SearchAnagrams` and `SearchDerivations`. They copy the histogram before removing a letter, so changes made in one branch never reach the caller.

## Model

| member | source | states |
|---|---|---|
| Histograms.Index | histogram.h:26-30 | `index(c)` lies in -1..25. It is non-negative exactly for `'a'..'z'`, and then it is the position of `c` in the alphabet. |
| Histograms.Letter | histogram.h:11 | Each of the SIZE = 26 positions stands for a letter of `'a'..'z'`. |
| Histograms.Added | histogram.cpp:13-19 | `+= c` raises exactly the count at `index(c)` by one. Every other count stays the same, and a character outside `'a'..'z'` changes nothing. |
| Histograms.Removed | histogram.h:21 | `remove(c)` succeeds exactly when `c` is a letter with a positive count. On success, adding `c` back gives the old counts. On failure, the counts are unchanged. |
| Histograms.Difference | histogram.cpp:21-26 | Subtraction is elementwise, and counts may become negative. |
| Histograms.TallyCounts | histogram.cpp:4-11 | Each count of the histogram of a word is the number of times its letter occurs in the word. |
| Histograms.TallyPermutation | histogram.cpp:8-10 | Two words that are permutations of each other have the same histogram. |
| Histograms.TallyNonNegative | histogram.cpp:4-11 | A histogram built from a word has no negative count. |
| Histograms.TallyTotal | histogram.cpp:4-11 | The counts of a word's histogram sum to at most its length, and to exactly its length for a word over `'a'..'z'`. |
| Histograms.AddedTotal | histogram.cpp:13-19 | Adding a letter raises the total by one. Adding any other character leaves it unchanged. |
| Histograms.AddedDiffByOne | histogram.cpp:35-48 | A histogram with one letter added differs by one from the original. |
| Histograms.DiffByOneIffAdded | histogram.cpp:35-48 | `a.diffByOne(b)` holds exactly when `a` is `b` with one letter of `'a'..'z'` added. |
| Histograms.DiffByOneIrreflexive | histogram.cpp:35-48 | No histogram differs by one from itself. |
| Histograms.DiffByOneAsymmetric | histogram.cpp:35-48 | If `a` differs by one from `b`, then `b` does not differ by one from `a`. |
| Histograms.DiffByOneTotal | histogram.cpp:35-48 | If `a` differs by one from `b`, then `a` holds exactly one more letter than `b`. |
| Histograms.WordPlusLetter | histogram.cpp:35-48 | Every permutation of `w` plus a letter differs by one from `w`. |
| Histograms.Histogram.constructor | histogram.cpp:4-11 | The new histogram satisfies the mask invariant, and its counts are those of the word. |
| Histograms.Histogram.Copy | histogram.h:33-34 | A copy has fresh arrays with the same counts and mask, and it keeps the mask invariant. |
| Histograms.Histogram.Add | histogram.h:19 | `add(c)` keeps the mask invariant and makes the counts `Added(old counts, c)`. |
| Histograms.Histogram.Remove | histogram.h:21 | `remove(c)` returns true exactly when `c` is a letter with a positive count, and then takes one of it away. It keeps the mask invariant, and on false the counts are unchanged. |
| Histograms.Histogram.IsClear | histogram.h:23 | Under the mask invariant, `isClear()` holds exactly when all 26 counts are zero. |
| Histograms.Histogram.Occurrences | histogram.h:17 | `occurrences(c)` is the count at `index(c)` for a letter and 0 for any other character. Under the invariant it is never negative, and it is positive exactly when `remove` would succeed. |
| Histograms.Histogram.Contains | histogram.h:15 | `contains(c)` holds exactly when `c` is a letter with a positive count. |
| Histograms.Histogram.SubtractAssign | histogram.cpp:21-26 | `-=` replaces the counts by the elementwise difference. |
| Histograms.Histogram.Minus | histogram.cpp:28-33 | `-` returns a fresh histogram holding the difference, and the receiver is unchanged. |
| Histograms.Histogram.DiffByOneWith | histogram.cpp:35-48 | The loop with its flag returns exactly `DiffByOne` of the two count vectors. |
| Tries.IsRootIffFirst | dictionary.h:47 | In a well-formed trie, a node has no parent exactly when it is the root. |
| Tries.Parent | dictionary.h:41 | A node's parent comes earlier in the arena, owns the node as a child, and sits one level higher. |
| Tries.SingleOwner | dictionary.h:43 | A node is a child of only its parent, and only once. |
| Tries.FindChild | dictionary.cpp:127-129 | `find_if` returns a child carrying the letter, or reports that none of the children carries it. |
| Tries.FindChildUnique | dictionary.cpp:127-129 | Because siblings carry distinct letters, the child found is the only one with that letter. |
| Tries.ContainsViaReach | dictionary.cpp:155-170 | `contains` holds exactly when following the word's letters reaches a flagged node. |
| Tries.ContainsIffSpelled | dictionary.cpp:155-170 | The trie contains `w` exactly when some flagged node's root path spells `w`. |
| Tries.PathWord | dictionary.cpp:9-17 | The word of a node has as many characters as the node's depth. |
| Tries.ReachPathWord | dictionary.cpp:9-17 | Following a node's word from the root leads back to that node. |
| Tries.ReachSpells | dictionary.cpp:155-170 | The node reached from `m` by `w` spells `m`'s word followed by `w`. |
| Tries.AncestorBelow | dictionary.h:41-45 | An ancestor's word is a prefix of its descendant's word. |
| Tries.InsertWellFormed | dictionary.cpp:124-153 | Insertion as written keeps the trie a tree with distinct sibling letters. |
| Tries.InsertGrows | dictionary.cpp:124-153 | Insertion as written only appends nodes and children and only sets flags. It keeps the alphabet of a letters-only trie. |
| Tries.InsertFlagsOne | dictionary.cpp:124-153 | Insertion as written returns true exactly when one more node is flagged, so `m_size` keeps counting the flagged nodes. |
| Tries.InsertEmpty | dictionary.cpp:150-152 | Inserting the empty range returns false and changes nothing. |
| Tries.InsertKeepsWords | dictionary.cpp:124-153 | Every word contained before an insertion is still contained after it. |
| Tries.InsertAlongPath | dictionary.cpp:131-140 | When the whole word is already a path, the code tests and sets the flag of the node one letter short, not of the word's own node. |
| Tries.InsertOffPath | dictionary.cpp:141-148 | When the path breaks off, insertion returns true and the trie then contains the word. |
| Tries.ExtendChain | dictionary.cpp:141-148 | The loop appends one node per remaining letter, each with the previous node as parent, the parent's depth plus one, and no flag. |
| Tries.ExtendWellFormed | dictionary.cpp:141-148 | The appended chain keeps the trie well formed when no child already has the first letter. |
| Tries.ExtendReach | dictionary.cpp:141-148 | After the loop, the letters lead from the start node to the last appended node. |
| Tries.ChainFlagsOne | dictionary.cpp:147-148 | Flagging the end of a new chain raises the flagged count by exactly one. |
| Tries.ReinsertFlagsPrefix | dictionary.cpp:131-140 | Inserting "cat" into a trie that already holds it returns true and flags the node for "ca" (Finding 3). |
| Tries.InsertCases | dictionary.cpp:124-153 | The corrected insertion matches the code off the path. On the path, it flags the word's own node when that node is unflagged, and otherwise changes nothing. |
| Tries.InsertShape | dictionary.cpp:124-153 | The corrected insertion keeps the trie well formed and only grows it. It returns true exactly when one more node is flagged. |
| Tries.InsertWords | dictionary.cpp:45-50 | After the corrected insertion, the trie contains exactly the old words plus `w` when `w` is non-empty. It returns true exactly when `w` was new. |
| Tries.ReinsertUnchanged | dictionary.cpp:131-140 | With the correction, inserting "cat" a second time returns false and changes nothing. |
| Search.DerivationsAsWrittenSound | dictionary.cpp:185-201 | Every derivation the code reports ends at a word end, and its extra-letter node lies on that word's path. The word's letters are the query's plus that node's letter, and for a non-empty query the extra node is never the word end itself. |
| Search.CatsAsWritten | dictionary.cpp:194-200 | For the words "cat" and "cats" and the query "cat", the code reports no derivation (Finding 2). |
| Search.DerivationsSound | dictionary.cpp:185-201 | Every derivation of the corrected search is sound in the same sense. |
| Search.DerivationsCorrect | dictionary.cpp:185-201 | Over `'a'..'z'`, the corrected search reports exactly the word ends whose letters differ by one from the query. |
| Search.DerivationAt | dictionary.cpp:185-201 | Every word end that differs by one from the query is reported by the corrected search. |
| Search.SoundDiffByOne | dictionary.cpp:198-200 | A sound derivation's word differs by one from the query and is one letter longer than it. |
| Search.CatsAsMeant | dictionary.cpp:194-200 | The corrected search finds "cats" from "cat", with the final "s" as the extra letter. |
| Search.CatsFromCat | dictionary.cpp:194-200 | The code misses "cats" for the query "cat", and the corrected search finds it. |
| Search.CatsOnlyDerivation | dictionary.cpp:198-200 | In the trie of "cat" and "cats", the only sound derivation of "cat" is "cats" with its "s". |
| Search.AnagramsAsWritten | dictionary.cpp:172-183 | `Node::anagrams` as written reports exactly those children of the root that are flagged, whose letter the query has, and that leave letters over (Finding 1). |
| Search.ClearFindsNothing | dictionary.cpp:174-178 | Once the histogram is clear, the code finds nothing further down. |
| Search.CatAnagramOfAct | dictionary.cpp:172-183 | For the dictionary {"cat"}, the code reports no anagram of "act", while the corrected search reports "cat". |
| Search.CatAnagramsAsWritten | dictionary.cpp:172-183 | For the dictionary {"cat"}, the code reports nothing for any query. |
| Search.ExactAnagramsCorrect | dictionary.cpp:172-183 | The corrected search reports exactly the word ends whose letters equal the query's. |
| Search.ChainDiffByOne | dictionary.cpp:117-120 | In a chain, each word differs by one from the previous histogram, and the `i`-th word has the query's total plus `i+1` letters. |
| Search.StepsAsWrittenChain | dictionary.cpp:98-122 | A sequence in which each derivation comes from the search as written, from the histogram with the previous letters added, is a chain. Each word in it differs by one from the previous histogram. |
| Search.HeightBound | dictionary.cpp:98-122 | Corrected (Finding 2), as `Height` follows the corrected derivation search: no chain of derivations from `h` is longer than `Height(h)`. |
| Search.TallestChain | dictionary.cpp:98-122 | Corrected (Finding 2): some chain from `h` is exactly `Height(h)` long. |
| Search.HeightIsLongest | dictionary.cpp:98-122 | Corrected (Finding 2): `Height(h)` is the length of the longest chain of derivations from `h`. |
| Dictionaries.AnagramWords | dictionary.cpp:57-65 | Corrected (Finding 1): the rendered results of the corrected anagram search are exactly the non-empty dictionary words with the query's letters. |
| Dictionaries.DerivationWords | dictionary.cpp:67-70 | Corrected (Finding 2): the rendered derivations are exactly the dictionary words that differ by one from the query. |
| Dictionaries.SortByLetter | dictionary.cpp:103 | The sort leaves the derivations ordered by extra letter, as a permutation of its input. |
| Dictionaries.InsertByLetter | dictionary.cpp:103 | Inserting a derivation into a sorted list keeps it sorted, and the result holds exactly one more element. |
| Dictionaries.UniqueByLetter | dictionary.cpp:104-105 | The dedup keeps only input elements and keeps every letter of the input. On sorted input, the letters kept strictly increase. |
| Dictionaries.UniqStrict | dictionary.cpp:104-105 | Deduplicating a sorted list leaves strictly increasing letters. |
| Dictionaries.UniqCovers | dictionary.cpp:104-105 | Every letter of the input survives the dedup. |
| Dictionaries.UniqWithin | dictionary.cpp:104-105 | Every survivor of the dedup came from the input. |
| Dictionaries.Keep | dictionary.cpp:111-115 | The three cases of the update: a longer new path replaces the list, a path as long as those kept is appended after them, and a shorter one is dropped. So the list keeps one length, the greater of the old and the new path's; only the new path is ever added; and when the length stays, the old paths still lead the list. |
| Dictionaries.RetainedMember | dictionary.cpp:111-115 | While the longest length stays, a kept path as long as the list is still in it after later updates. |
| Dictionaries.RetainedTrans | dictionary.cpp:111-115 | Across two updates, the old paths still lead the list whenever the length ends where it started. |
| Dictionaries.RecordedCovered | dictionary.cpp:107-121 | After one turn, every chain starting with a letter done so far that reaches the longest length has its letters in a kept path. |
| Dictionaries.CoveredEarlier | dictionary.cpp:107-121 | A chain through an earlier letter reaches the final length only if the length did not grow in this turn, so the path that had its letters is still kept. |
| Dictionaries.CoveredHere | dictionary.cpp:111-118 | A chain through the current letter has its letters in `path` plus this derivation, or in a path the recursion kept after it. |
| Dictionaries.PlusLetter | dictionary.cpp:117-118 | The recursive histogram is a valid copy of the parent's, plus the derivation letter. |
| Dictionaries.RecordedStep | dictionary.cpp:107-121 | One turn of the loop keeps the whole accumulator invariant over the derivations done so far: the longest length, the paths added being chains, the old paths still leading the list while the length stays, and every chain through the letters done so far that reaches the longest length having its letters in the list. |
| Dictionaries.UniqueKeys | dictionary.cpp:102-105 | Corrected (Finding 2): over the corrected derivation search, the deduplicated derivations are sound, and together their letters lead to the longest chain. |
| Dictionaries.LongestChains | dictionary.cpp:81-84 | Corrected (Finding 2): after `findLongest` from the query with an empty path, every path kept is a chain of maximal length, no chain is longer, and every path lies in the trie. |
| Dictionaries.LongestPaths | dictionary.cpp:81-84 | From the query with an empty path, every recorded path is a chain of maximal length, and there is one when any chain exists. |
| Dictionaries.LongestTies | dictionary.cpp:81-84 | From the query with an empty path, nothing is recorded exactly when there is no chain, and every longest chain has its letters in some recorded path. |
| Dictionaries.SoundKeysKept | dictionary.cpp:102-105 | Sorting and deduplicating by letter loses no letter: every letter a sound derivation adds is the letter of a kept one. |
| Dictionaries.RecordedEnd | dictionary.cpp:107-122 | When the loop is done, `best` is the longest chain from `h`, and the accumulator invariant becomes the promise of `findLongest`. |
| Dictionaries.Dictionary.constructor | dictionary.cpp:39-43 | A new dictionary holds the root alone and `m_size` 0, and contains no word. |
| Dictionaries.Dictionary.Size | dictionary.h:29 | `size()` equals the number of flagged nodes and is never negative. |
| Dictionaries.Dictionary.Contains | dictionary.cpp:52-55 | `contains(w)` holds exactly when some flagged node spells `w`. |
| Dictionaries.Dictionary.FindChildOf | dictionary.cpp:127-129 | The linear search finds the same child as `find_if`. |
| Dictionaries.Dictionary.InsertAt | dictionary.cpp:124-153 | Corrected (Finding 3): the node method leaves the arena and its result equal to the corrected insertion, and `m_size` unchanged. |
| Dictionaries.Dictionary.Insert | dictionary.cpp:45-50 | Corrected (Finding 3): after `insert(w)`, the dictionary contains exactly the old words plus `w` if it is non-empty. `m_size` grows by one exactly when `w` was new, and the invariant is kept. |
| Dictionaries.Dictionary.IntoString | dictionary.cpp:9-17 | The loop over parent links returns the word spelled by the node's root path. |
| Dictionaries.Dictionary.IntoStrings | dictionary.cpp:19-26 | One word per node, in order. |
| Dictionaries.Dictionary.DerivationStrings | dictionary.cpp:28-35 | One word per derivation, that of its word end, in order. |
| Dictionaries.Dictionary.Anagrams | dictionary.cpp:57-65 | Corrected (Finding 1): over `'a'..'z'`, the result is exactly the non-empty dictionary words with the query's letters. |
| Dictionaries.Dictionary.AnagramDerivationsOf | dictionary.cpp:72-79 | Corrected (Finding 2): the result is the corrected derivation search from the root's children, in order. |
| Dictionaries.Dictionary.AnagramDerivations | dictionary.cpp:67-70 | Corrected (Finding 2): over `'a'..'z'`, the result is exactly the dictionary words that differ by one from the query. |
| Dictionaries.Dictionary.FindLongest | dictionary.cpp:98-122 | Corrected (Finding 2), as it runs over the corrected derivation search. The recursion returns the length of the longest chain from `h`. `longest` then keeps one length, the greater of the old one and `path` plus that chain; every path added is `path` followed by a chain; when the length has not grown, the old paths still lead the list; and every chain from `h` that reaches the final length after `path` has its letters in some returned path that starts with `path`. |
| Dictionaries.Dictionary.Turn | dictionary.cpp:107-121 | One loop turn extends `path`, updates `longest` and recurses with the letter added. It keeps the whole accumulator invariant, tie retention and the covering of chains included. |
| Dictionaries.Dictionary.LettersToTry | dictionary.cpp:102-105 | Corrected (Finding 2): the sorted, deduplicated derivations are sound and have strictly increasing letters. Every letter a sound derivation can add is among theirs, and their letters reach the longest chain from `h`. |
| Dictionaries.Dictionary.LongestAnagramDerivations | dictionary.cpp:81-96 | Corrected (Finding 2): every line renders a chain from the query of maximal length, and no chain is longer. There is no line exactly when there is no chain, and every sequence of added letters a longest chain can take is rendered by some line. |
| Dictionaries.Dictionary.RenderAll | dictionary.cpp:86-95 | One rendered line per path, in order. |
| Dictionaries.Dictionary.Render | dictionary.cpp:88-93 | The line is the query followed by `+letter=word` for each derivation of the path. |
| Dictionaries.SearchAnagrams | dictionary.cpp:172-183 | The node search appends exactly the corrected anagram results below the node. |
| Dictionaries.SearchChildrenAnagrams | dictionary.cpp:176-178 | The loop over the children appends each child's results, in order. |
| Dictionaries.SearchDerivations | dictionary.cpp:185-201 | The node search appends exactly the corrected derivation results below the node. The caller's histogram is left alone. |
| Dictionaries.SearchChildrenDerivations | dictionary.cpp:195-197 | The loop over the children appends each child's derivations, in order. |

## Left out

- `main.cpp` is not part of this model. This covers Qt command-line parsing, reading the word file and printing.
- The loader's filter is also left out. It keeps Unicode letter words of three or more characters, lowercased. Where the search needs it, it becomes the precondition that every stored letter is in `'a'..'z'` (`OverAlphabet`).
- Ownership through `unique_ptr`, destruction and pointer identity are not modelled. Nodes are arena indices, and a `Derivation` holds two indices.
- `std::bitset` is an `array<bool>`, and the O(1) cost of `isClear` is not modelled.
- `std::stringstream` is sequence concatenation. `'\0'` placeholders in `intoString` are written, then overwritten, just as in the C++.
- Strings are sequences of Unicode characters, while the C++ `std::string` holds the UTF-8 bytes that `toStdString` produces. A letter outside ASCII is one trie node here and two in the C++ trie. Under `OverAlphabet` every character is one byte, so nothing differs there.
- `char` signedness and the C++ `std::size_t`/`int` widths are not modelled. Counts and depths are unbounded integers, and nothing in the core comes near an overflow.
- The bodies of `add`, `remove`, `contains` and `occurrences` are declared in `histogram.h` but not defined in either file. They are modelled as follows:
  - `add` as `+=` that also sets the letter's mask bit;
  - `remove` as a decrement that fails on a zero count or a non-letter;
  - `contains` and `occurrences` as reads of the count.
- The constructor never sets `m_dirtyMask`. The model takes the default-constructed, all-zero bitset and sets a bit whenever `+=` raises a count, so `Valid()` holds afterwards.
- Histograms.Histogram.SubtractAssign: the mask is left as it was, as in the C++, so the result keeps only `Shaped()`, not the mask invariant.
- Histograms.Histogram.Minus: the same applies; the difference keeps the receiver's mask.
- Dictionaries.Dictionary.FindLongest: requires every stored letter to be in `'a'..'z'`. With another character as the extra letter, `add` ignores it, and the recursion would not terminate.
- Dictionaries.Dictionary.FindLongest: `hc` and `height` are ghost parameters that name the histogram's counts and the chain length. The C++ has neither.
- Dictionaries.Dictionary.LongestAnagramDerivations: also requires words over `'a'..'z'`, since it calls `findLongest`. `chains` is a ghost result naming the derivation paths behind the rendered lines.
- Dictionaries.Dictionary.FindLongest: runs over the corrected derivation search (Finding 2). Over `Search.DerivationsAsWritten`, only soundness is modelled: every sequence of as-written derivations is a chain (`Search.StepsAsWrittenChain`). The result `findLongest` returns over the search as written is not modelled.
- Dictionaries.Dictionary.LongestAnagramDerivations: the same applies; its lines are those of the corrected search, and the as-written lines are covered only by the soundness of their chains.
- Dictionaries.LongestTies: promises one recorded path for every sequence of added letters a longest chain can take, not one per chain. The dedup by letter keeps one derivation per letter, so two chains with the same letters but different words give one line. Nothing is stated about duplicate lines.
- Dictionaries.Dictionary.Anagrams: the "exactly the anagrams" promise is stated only when every stored letter is in `'a'..'z'`. Otherwise the result is still defined, but unconstrained.
- Dictionaries.Dictionary.AnagramDerivations: the same applies; its "exactly the words that differ by one" promise holds only over `'a'..'z'`.
- Which of several derivations with the same extra letter survives the sort and dedup is not pinned down, because `std::sort` is not stable.
  - The model sorts with an insertion sort and deduplicates keeping the first of each run.
  - Its contracts state only that the output is sorted, is a permutation of the input, has strictly increasing letters and keeps only input elements.
- The Dictionary class uses the corrected `Insert`, `ExactAnagrams` and `Derivations` of the findings below. The code as written is modelled by `Tries.InsertAsWritten`, `Search.Anagrams` and `Search.DerivationsAsWritten`, and the lemmas above describe it.

## Findings

| source | as written | input that shows it | evidently intended | confidence | as-written member | corrected member |
|---|---|---|---|---|---|---|
| dictionary.cpp:172-183 | `Node::anagrams` descends only when the histogram became clear and records a node only when it did not, so it reports one-letter prefixes and never a full anagram | dictionary {"cat"}, query "act": nothing is reported | descend while letters remain; record a flagged node once the histogram is clear | not executed | Search.CatAnagramOfAct | Search.ExactAnagramsCorrect |
| dictionary.cpp:194-200 | `Node::anagramDerivations` stops as soon as the histogram is clear, even when no extra letter has been chosen yet, so a word whose extra letter comes last is never found | dictionary {"cat", "cats"}, query "cat": "cats" is not reported | keep descending until an extra letter has been chosen | not executed | Search.CatsAsWritten | Search.DerivationsCorrect |
| dictionary.cpp:135-137 | `Node::insert` sets `isWordEnd` on the current node instead of the matched child `*it` when the last letter is found | inserting "cat" twice: the second call flags "ca" and returns true, so `size()` grows | flag the matched child, so that re-inserting a word returns false | not executed | Tries.ReinsertFlagsPrefix | Tries.InsertWords |
