# Word-Checker: a hash set and spelling suggestions, in Dafny

This project models the core of Word-Checker, a spell checker. The size
limits in the source are 32-bit, but the model uses unbounded integers
(see "## Left out").

The core has two parts:

- **`HashSet<T>`** is a set stored in a separately chained hash table:
  - it holds an array of chains and a capacity, and hashes with a function supplied at construction;
  - `add` links an element into the chain that its hash, modulo the capacity, selects;
  - when the size would exceed 0.8 of the capacity, the array is doubled and every element is linked again under the new capacity;
  - `contains`, `size`, `elementsAtIndex` and `isElementAtIndex` walk the chains.
- **`WordChecker`** checks words against a dictionary held in such a set:
  - `wordExists` asks the set;
  - `findSuggestions` probes five families of candidates in a fixed order: adjacent swaps, one-letter insertions, deletions, one-letter replacements, and splits into two words joined by a space;
  - it returns every candidate the dictionary accepts, each listed once, in the order first found.

Files:

- `buckets.dfy` (module `Buckets`) has the values behind the table:
  - an entry is a key and an element (the source's `hashNode`);
  - a chain is a sequence of entries, its order being the order of the `Next` links;
  - a table is a sequence of chains;
  - it defines the table invariant `WellFormed`, the insertion functions and the lemmas about them.
- `hash_set.dfy` (module `HashTable`) has the class `HashSet`:
  - an `array` of chains, the capacity, the hash function, and a ghost `Contents` set;
  - `Valid()` is the object invariant: the structural part `Sound()` plus a load factor of at most 0.8;
  - `Add` keeps `Valid()`, and the queries need only `Sound()`;
  - `Add`, `Contains`, `Size`, `ElementsAtIndex` and `IsElementAtIndex` are stated over `Contents`;
  - the array-level helpers `Link`, `Rehash`, `RelinkChain` and `AddNode` are stated over the array's contents, through the functions of `Buckets`.
- `edits.dfy` (module `Edits`) is a functional specification of `findSuggestions`:
  - the candidate families in probing order;
  - the accepted candidates `Hits` and `SplitHits`;
  - `Dedup`, which keeps first occurrences;
  - `Suggestions`;
  - the properties of the result: which words are suggested, no repeats, and the order.
- `word_checker.dfy` (module `WordCheck`) has the class `WordChecker`:
  - its `FindSuggestions` is imperative, with the same loops as the source;
  - it is proved to return exactly `Suggestions(words.Contents, word)`.

Where the documentation and the code disagree:

- **`add` and duplicates.** The header says `add` of an element already present has no effect. The code walks to the end of the chain without comparing elements and appends a second entry. The model follows the documented behaviour, and the as-written behaviour is a finding below.
- **Out-of-range indexes.** `elementsAtIndex` and `isElementAtIndex` are documented to return 0 or false for an index outside the array. The code indexes the array without a check. The model follows the documentation.
- **The resize test.** `size() > capacity * .8` is written as `5 * size > 4 * capacity`. The capacity is always 10·2^k. For such a capacity `capacity * .8` rounds to exactly 0.8 × capacity, that is 8·2^k: the representation error of `.8` is less than half a unit in the last place. So the two tests agree.
- **Splits.** A split inserts a space at position `p` and cuts the text at its *first* space. The model does the same, so for a word that already holds a space it is not always the inserted space. `SuggestionsSplits` states the clean characterisation for words without spaces.

## Model

| member | source | states |
|---|---|---|
| HashTable.HashSet.constructor | core/HashSet.hpp:152-158 | the new set is empty, has the default capacity 10, uses the given hash function, and satisfies `Valid()` |
| HashTable.HashSet.InitTable | core/HashSet.hpp:161-167 | a fresh array of `cap` chains, every one empty |
| HashTable.HashSet.Add | core/HashSet.hpp:306-345 | `Contents` gains exactly `e` and `Valid()` is kept, including a load factor of at most 0.8; re-adding a stored element leaves the array and the capacity unchanged; the capacity doubles exactly when the new size exceeds 0.8 of the old capacity, and then the array is fresh; without a resize the array is the same one and its chains are `TableInsert` of the old ones |
| HashTable.HashSet.Link | core/HashSet.hpp:308-325 | the chain of bucket `hash(e) % capacity` becomes `TableInsert` of the old table; the invariant holds and `Contents` gains `e`; a stored element changes nothing |
| HashTable.HashSet.Grow | core/HashSet.hpp:327-344 | the capacity doubles, the array is fresh, `Contents` is unchanged, and every element sits in the bucket its hash selects under the new capacity |
| HashTable.HashSet.Rehash | core/HashSet.hpp:329-341 | the new array has the requested length, is well formed for the new length, and holds exactly the elements of the old array |
| HashTable.HashSet.RelinkChain | core/HashSet.hpp:335-340 | the array becomes `Relinked` of its old value by the chain's elements: still well formed, and holding the old elements plus those of the chain |
| HashTable.HashSet.AddNode | core/HashSet.hpp:349-369 | the array becomes `TableInsert` of its old value: `e` goes into chain `hash(e) % cap` unless an equal element is there |
| HashTable.HashSet.Contains | core/HashSet.hpp:373-384 | returns true exactly when `e` is in `Contents` |
| HashTable.HashSet.Size | core/HashSet.hpp:388-406 | returns the number of entries over all chains (`Count`), which equals the number of distinct elements stored |
| HashTable.HashSet.ElementsAtIndex | core/HashSet.hpp:117-120 | returns the number of stored elements whose hash selects `index`, which is the length of chain `index`; returns 0 for an index outside the array |
| HashTable.HashSet.IsElementAtIndex | core/HashSet.hpp:123-126 | returns true exactly when `e` is stored and its hash selects `index`; returns false for an index outside the array |
| Buckets.ChainInsert | core/HashSet.hpp:97-98 | the chain's elements gain exactly `e`; a chain without duplicates stays without, and a chain whose keys are all `key` keeps that |
| Buckets.TableInsertWellFormed | core/HashSet.hpp:308-325 | inserting keeps the table invariant (placement and no duplicates), adds exactly `e` to the stored elements, and puts `e` in its own bucket |
| Buckets.TableInsertPresent | core/HashSet.hpp:97-98 | inserting an element already stored gives back the same table |
| Buckets.TableInsertCount | core/HashSet.hpp:97-98 | the entry count grows by one for a new element and by none for a stored one |
| Buckets.RelinkedWellFormed | core/HashSet.hpp:333-341 | linking a chain's elements into a well-formed table keeps it well formed and adds exactly those elements |
| Buckets.EmptyTableEmpty | core/HashSet.hpp:161-167 | a table of empty chains stores nothing, has count 0, and is well formed when it has a bucket |
| Buckets.LocateWord | core/HashSet.hpp:373-384 | in a table with correct placement, an element is stored exactly when it is in the chain its hash selects |
| Buckets.BucketWords | core/HashSet.hpp:429-444 | chain `i` holds exactly the stored elements whose hash selects `i` |
| Buckets.CountIsCardinality | core/HashSet.hpp:388-406 | in a well-formed table, the number of entries equals the number of distinct stored elements |
| Buckets.SizeIsBucketSum | core/HashSet.hpp:117-120 | in a well-formed table, the entries counted chain by chain (what `size()` counts) equal the sum, over all indexes, of the number of stored elements whose hash selects that index (what `elementsAtIndex` returns) |
| Buckets.DistinctCard | core/HashSet.hpp:410-425 | a chain without duplicates has as many distinct elements as entries |
| Buckets.AsWrittenAddTwice | core/HashSet.hpp:311-325 | the as-written insertion, applied twice with one element to an empty table, leaves two entries for one element and breaks the invariant |
| Edits.AlphabetLetters | core/WordChecker.cpp:31 | the probed alphabet is the 26 letters A to Z in order |
| Edits.FirstIndex | core/WordChecker.cpp:98 | the position of the first occurrence of `x`, or the length when `x` is absent: at that position is `x`, and before it nowhere |
| Edits.SplitAt | core/WordChecker.cpp:96-100 | the two halves joined by a space give the probed text; for a word without spaces the cut is at `p`, giving `w[..p]` and `w[p..]` |
| Edits.SwapCandidates | core/WordChecker.cpp:34-39 | the swap candidates are exactly the exchanges of two adjacent characters |
| Edits.InsertCandidates | core/WordChecker.cpp:49-54 | the insertion candidates are exactly the insertions of one alphabet letter at any position, the end included |
| Edits.DeleteCandidates | core/WordChecker.cpp:65-68 | the deletion candidates are exactly the removals of one character |
| Edits.ReplaceCandidates | core/WordChecker.cpp:78-83 | the replacement candidates are exactly the replacements of one character by an alphabet letter |
| Edits.EditCandidates | core/WordChecker.cpp:33-92 | a text is among the four edit families exactly when it is one edit (`OneEdit`) away from the word |
| Edits.InsertsRow | core/WordChecker.cpp:49-54 | candidates `26*j` to `26*j+25` insert A to Z in turn before position `j` |
| Edits.ReplacesRow | core/WordChecker.cpp:78-83 | candidates `26*n` to `26*n+25` put A to Z in turn at position `n` |
| Edits.EditsAreSpaceless | core/WordChecker.cpp:31 | an edit of a word without spaces has no space, because the alphabet has none |
| Edits.SplitHitsHaveSpace | core/WordChecker.cpp:96-100 | every accepted split contains a space |
| Edits.SplitHitsExactly | core/WordChecker.cpp:94-108 | for a word without spaces, the accepted splits are exactly the texts `w[..p] + " " + w[p..]` with `1 <= p` and both halves in the dictionary |
| Edits.HitsMembers | core/WordChecker.cpp:40-46 | a text is a hit exactly when it is a candidate and in the dictionary |
| Edits.DedupMembers | core/WordChecker.cpp:42-45 | deduplication keeps exactly the elements of its input |
| Edits.DedupNoDup | core/WordChecker.cpp:42-45 | deduplication lists no element twice |
| Edits.DedupSnoc | core/WordChecker.cpp:42-45 | deduplicating one more element appends it exactly when it is not yet listed |
| Edits.DedupOrder | core/WordChecker.cpp:42-45 | deduplicated elements appear in the order of their first occurrence in the input |
| Edits.DedupPrefix | core/WordChecker.cpp:28-110 | what is listed after a prefix of the probes stays at the head of the list; the later entries come from the rest and are new |
| Edits.ProbeStep | core/WordChecker.cpp:53-61 | probing candidate `k` grows the list by that candidate exactly when the dictionary holds it and it is not yet listed |
| Edits.SplitStep | core/WordChecker.cpp:96-107 | probing the split at `p` grows the list by its text exactly when both halves are words and the text is not yet listed |
| Edits.SuggestionsMembers | core/WordChecker.cpp:28-110 | a text is suggested exactly when it is an edit candidate in the dictionary or an accepted split |
| Edits.SuggestionsNoDup | core/WordChecker.cpp:42-45 | no suggestion is listed twice |
| Edits.SuggestionsSound | core/WordChecker.cpp:28-92 | a suggestion without a space is a dictionary word one edit away from the word |
| Edits.SuggestionsComplete | core/WordChecker.cpp:28-92 | every dictionary word one edit away from the word is suggested |
| Edits.SuggestionsSplits | core/WordChecker.cpp:93-108 | for a word without spaces, the suggestions with a space are exactly its splits into two dictionary words, both directions |
| Edits.SuggestionsFirstFound | core/WordChecker.cpp:28-110 | the suggestions are ordered by the position at which each was first found |
| Edits.SuggestionsByFamily | core/WordChecker.cpp:33-108 | the swap hits come first, then the insertions, deletions and replacements, and the splits last |
| WordCheck.WordChecker.constructor | core/WordChecker.cpp:13-16 | the checker uses the given dictionary |
| WordCheck.WordChecker.WordExists | core/WordChecker.cpp:19-25 | returns true exactly when the dictionary holds the word |
| WordCheck.WordChecker.Probe | core/WordChecker.cpp:40-46 | appends the candidate exactly when the dictionary holds it and it is not yet listed, and otherwise returns the list unchanged |
| WordCheck.WordChecker.FindSuggestions | core/WordChecker.cpp:28-110 | returns exactly `Suggestions(words.Contents, word)`, listing no word twice |
| WordCheck.WordChecker.ProbeSwaps | core/WordChecker.cpp:34-47 | the swap loop leaves the deduplicated swap hits |
| WordCheck.WordChecker.ProbeInserts | core/WordChecker.cpp:49-63 | the insertion loops extend the deduplicated hits of the earlier probes by those of every insertion candidate |
| WordCheck.WordChecker.ProbeInsertsAt | core/WordChecker.cpp:51-62 | the inner letter loop at position `j` covers the 26 candidates of row `j` |
| WordCheck.WordChecker.ProbeInsert | core/WordChecker.cpp:53-61 | one insertion probe takes one step of the row, as `ProbeStep` states |
| WordCheck.WordChecker.ProbeDeletes | core/WordChecker.cpp:65-76 | the deletion loop extends the deduplicated hits by those of every deletion candidate |
| WordCheck.WordChecker.ProbeReplaces | core/WordChecker.cpp:78-92 | the replacement loops extend the deduplicated hits by those of every replacement candidate |
| WordCheck.WordChecker.ProbeReplacesAt | core/WordChecker.cpp:80-91 | the inner letter loop at position `n` covers the 26 candidates of row `n` |
| WordCheck.WordChecker.ProbeReplace | core/WordChecker.cpp:82-90 | one replacement probe takes one step of the row, as `ProbeStep` states |
| WordCheck.WordChecker.ProbeSplits | core/WordChecker.cpp:94-108 | the split loop extends the deduplicated hits by the accepted splits at positions 1 to `|word|-1` |
| WordCheck.WordChecker.ProbeSplit | core/WordChecker.cpp:96-107 | one split probe: the cut at the first space, the two lookups (the second only when the first succeeds), and one step as `SplitStep` states |

## Left out

- Copy constructor, move constructor, copy and move assignment, the destructor, `makeEmpty` and `clone` (core/HashSet.hpp:171-295) are memory management. The model has no pointers to copy or free.
- `isImplemented` and the placeholder hash function `HashSet__undefinedHashFunction` are omitted: one is a constant `true`, and the other is only reached through the copy and move operations.
- The old array is never freed after a resize. This leak is outside the model, because Dafny arrays are garbage collected.
- Linked lists of `hashNode` are modelled as sequences of entries, in `Next` order. The model checks no aliasing between nodes.
- The hash function returns an `unsigned int` and the capacity and counters are `int`. The model uses unbounded naturals, so overflow of `capacity * 2` or of `count` is not modelled.
- `Set.hpp` and `WordChecker.hpp` are not part of this model. The abstract `Set` interface becomes the concrete `HashSet` of strings.
- The `std::function` wrapper is a Dafny function value `T -> nat`.
- Text is modelled as a sequence of characters, whereas a C++ `std::string` is a sequence of bytes. The swaps, insertions, deletions, replacements and cuts of `findSuggestions` therefore agree with the source only for single-byte (ASCII) text, which is the kind the A–Z alphabet at core/WordChecker.cpp:31 implies. For multi-byte UTF-8 input the source edits single bytes of a character, and the model does not capture that.
- `std::find` over the result vector is modelled as sequence membership, and `std::string::find` as `FirstIndex`.
- `WordCheck.WordChecker.FindSuggestions` requires a non-empty word. For an empty word, `word.size() - 1` wraps around in unsigned arithmetic and the swap loop reads past the end of the string. That is undefined behaviour, not a result to model.
- `WordCheck.WordChecker.FindSuggestions` splits the source's loop bodies into methods of their own (`ProbeInsert`, `ProbeReplace`, `ProbeSplit`, and the row loops). The control flow and the probing order are the source's.
- `HashTable.HashSet.ElementsAtIndex` and `HashTable.HashSet.IsElementAtIndex` check the index against the capacity. The source does not check it, and reading outside the array is not modelled.
- `HashTable.HashSet.Add` and `HashTable.HashSet.AddNode` stop the chain walk at an equal element, as documented. The appending code is modelled separately as `Buckets.TableAppendAsWritten` (see "## Findings").

## Findings

| source | as written | input that shows it | evidently intended | confidence | as-written member | corrected member |
|---|---|---|---|---|---|---|
| core/HashSet.hpp:311-325 | `add` walks to the end of the chain without comparing elements and always appends a new node (and `addNode` at 354-368 does the same) | adding one element twice to a fresh set: the chain holds two entries and `size()` returns 2 | re-adding a stored element has no effect (core/HashSet.hpp:97-98) | not executed | Buckets.AsWrittenAddTwice | Buckets.TableInsertPresent |
