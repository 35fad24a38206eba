# Data structures of a course exercise set, modelled in Dafny

This project models the data structures and algorithms of a set of
course exercises, as found in their C++ and Python sources:

- the **compressed (radix) trie** with fuzzy search of
  `module_2/D/m2_taskD.cpp`: insertion that splits edges, a
  Damerau-Levenshtein table computed row by row with an early stop, and two
  searches (a depth-first walk and a priority walk) that return the stored
  words at a given number of mistakes;
- the **left-child/right-sibling trie** of `module_2/examples/D.cpp`, with
  its own insertion, label splitting and a recursive search over a
  restricted Damerau-Levenshtein (optimal string alignment) table;
- the two **binary min-heaps** with a key index of
  `module_2/C/m2_taskC.cpp` and `module_2/examples/C.cpp`;
- the **binary search tree** of `module_2/B/m2_taskB.hpp` and the two
  **splay trees** of `module_2/B/m2_taskB.py` (tree object with a root) and
  `module_2/B/m2_taskB_2.py` (the tree is one of its own nodes);
- the **bitset**, the **Bloom filter** and the incremental **prime sieve**
  of `module_3/D/m3_taskD.py`, and the trial-division prime list of
  `module_3/D/prime.py`;
- the **0/1 knapsack** with weight normalisation and backtracking of
  `module_3/A/m3_taskA.py`;
- the **shortest route to a number** with the operations `inc`, `dec` and
  `dbl` of `module_3/B/3m_taskB.py`;
- the **bounded stacks** of `module_1/B/module.py` and `module_1/main.cpp`,
  the **circular queue** of `module_1/C/module.py`, the **graph** with
  depth-first and breadth-first traversals of `module_1/D/module.py`, and
  the **integer scanner** of `module_1/A/A_parse_find_numbers_in_line.py`.

Objects whose fields the source updates in place are Dafny classes with
`modifies` clauses (the radix trie over a node arena, the heaps, the
stacks, the queue, the bitset, the Bloom filter, the graph, the prime
cache). Loops are methods with invariants, proved against recursive
specification functions (the distance tables, the knapsack table, the
sieve, the traversal orders). Recursive code (the sibling trie's insertion,
the tree operations) is written as functions over datatypes, with lemmas
for the properties the source relies on. Printing commands return the text
they would print; thrown exceptions become `Result` failures.

Shared pieces: `wrappers.dfy` (Option, Result), `text_output.dfy` (how a
line of values is printed), `trie_distance.dfy` (the Damerau-Levenshtein
table and its early stop), `trie_arena.dfy` (the radix trie's node arena),
`heap_order.dfy` (heap order and key index), `search_tree.dfy` (in-order
entries of search trees), `multiples.dfy` (primes and multiples).

## Model

| member | source | states |
|---|---|---|
| RadixTrie.MatchEndPosition | module_2/D/m2_taskD.cpp:14-25 | the result is the length of the longest common prefix: both strings agree up to it and differ just after it when both go on |
| RadixTrie.DamerauLevenshtein | module_2/D/m2_taskD.cpp:219-263 | the returned row is row `RowsComputed` of the Damerau-Levenshtein table of `str1` against `str2`, and its first entry is that number of rows, which is at most the length of `str1` |
| RadixTrie.NextRow | module_2/D/m2_taskD.cpp:232-252 | from the true rows i - 1 and i - 2 of the table, the new row is row i, and the flag is set exactly when row i has an entry past column 0 within the mistake budget |
| RadixTrie.FillRow | module_2/D/m2_taskD.cpp:232-252 | the new row holds, column by column, the cells computed from the two previous rows, and the flag is set exactly when some entry past column 0 is within the mistake budget |
| RadixTrie.ScanStep | module_2/D/m2_taskD.cpp:253-259 | the early stop fires exactly at the row where the computation ends, and the row it returns then starts with that row count; otherwise the computation goes on from the next row |
| RadixTrie.NextCell | module_2/D/m2_taskD.cpp:236-248 | a cell is the cheapest of insertion, deletion and replacement, lowered by a transposition when the last two letters are swapped; it is at most each candidate |
| TrieDistance.RowCellTable | module_2/D/m2_taskD.cpp:231-252 | a cell computed from the true two previous rows is the table entry |
| TrieDistance.NextRowIsRow | module_2/D/m2_taskD.cpp:231-252 | a row computed cell by cell from the true previous rows is the next table row, and it has an entry within budget exactly when the table row does |
| TrieDistance.StopFromSpec | module_2/D/m2_taskD.cpp:253-255 | the scan returns the row before the first early stop at or after row i, or the last row when no stop fires |
| TrieDistance.StopStep | module_2/D/m2_taskD.cpp:253-259 | one row of the scan either fires the stop (and the previous row is returned) or moves on to the next row |
| TrieDistance.NoStopFrom | module_2/D/m2_taskD.cpp:231-262 | with no stop from row i on, every row is computed |
| TrieDistance.RowsComputedSpec | module_2/D/m2_taskD.cpp:253-262 | the returned row is the last one exactly when no early stop fired anywhere |
| TrieDistance.TableAgree | module_2/D/m2_taskD.cpp:231-252 | the first i rows depend only on the first i letters of the path |
| TrieDistance.CompletePrefix | module_2/D/m2_taskD.cpp:195-204 | a path whose table was completed has completed tables for all its prefixes, so a walk that descends along complete rows reaches every completed path |
| TrieDistance.TableZero | module_2/D/m2_taskD.cpp:213-216 | a table entry is zero exactly when the two prefixes are equal |
| TrieDistance.DistZero | module_2/D/m2_taskD.cpp:196-198 | the distance is zero exactly for equal strings |
| TrieDistance.NextRowAbove | module_2/D/m2_taskD.cpp:249-255 | every entry of a row that follows a row with nothing within budget is over budget |
| TrieDistance.InvalidPersists | module_2/D/m2_taskD.cpp:253-255 | the early stop is sound: once a row has no entry within budget, no later row has one |
| TrieDistance.WithinBudgetComplete | module_2/D/m2_taskD.cpp:163-165 | a path within the budget is never cut short by the early stop |
| TrieDistance.CutShortOverBudget | module_2/D/m2_taskD.cpp:193-195 | a path cut short by the early stop is over the budget |
| RadixTrie.Priority | module_2/D/m2_taskD.cpp:213-216 | the priority as written: 0 when the row's entry at the path's length is 0, else the last entry; the read is out of range exactly when the path is at least as long as the row |
| RadixTrie.PriorityOfRow | module_2/D/m2_taskD.cpp:213-216 | on a complete row the priority is 0 for a prefix of the query, the distance for another path no longer than the query, and out of range for a longer path |
| RadixTrie.PriorityGuarded | module_2/D/m2_taskD.cpp:213-216 | the priority with the read kept inside the row is 0 or the row's last entry |
| RadixTrie.PriorityGuardedOfRow | module_2/D/m2_taskD.cpp:213-216 | on a complete row the guarded priority is 0 for a prefix of the query and the distance otherwise |
| RadixTrie.DistAbA | module_2/D/m2_taskD.cpp:154-168 | "ab" is at distance 1 from "a", and its table against "a" with budget 1 is computed in full |
| RadixTrie.MinPriority | module_2/D/m2_taskD.cpp:137-150 | the entry taken from the queue has a priority no larger than any other's |
| RadixTrie.CompressedTrie.constructor | module_2/D/m2_taskD.cpp:266 | a new trie is a root alone that stores no word |
| RadixTrie.CompressedTrie.EnteringEdge | module_2/D/m2_taskD.cpp:29-37 | every node but the root is entered by one edge, keyed by the first letter of its non-empty label, and its path extends its parent's path by that label |
| RadixTrie.CompressedTrie.NextEdgeTowardWord | module_2/D/m2_taskD.cpp:62-99 | at each node, a missing edge or a label that is not a prefix of the rest means no node spells the word; a label equal to the rest names the one node that does |
| RadixTrie.CompressedTrie.Insert | module_2/D/m2_taskD.cpp:50-130 | the stored words become the old ones plus `word`; the trie stays well formed, gains at most two nodes, which spell prefixes of `word`, the last `word` itself; keeps every old node's path, and changes nothing when `word` was stored |
| RadixTrie.CompressedTrie.AddLeafEdge | module_2/D/m2_taskD.cpp:64-69 | the leaf case inserts `word`: the new state is the old one with a word-end leaf spelling `word` on an edge labelled with the rest, keyed by its first character |
| RadixTrie.CompressedTrie.MarkWordEnd | module_2/D/m2_taskD.cpp:89-92 | the case where a node spells `word` inserts it: the new state is the old one with that node marked and nothing else changed |
| RadixTrie.CompressedTrie.SplitEdgeAtWordEnd | module_2/D/m2_taskD.cpp:101-112 | the case where `word` ends inside a label inserts it: the new state has a word-end node spelling `word` in the middle of the edge, the old target below it on the remainder of the label |
| RadixTrie.CompressedTrie.SplitEdgeApart | module_2/D/m2_taskD.cpp:114-127 | the case where `word` leaves a label part way inserts it: the new state has an inner node spelling the shared prefix in the middle of the edge, holding the old target on the rest of the label and a new leaf spelling `word` |
| TrieArena.WordsOf | module_2/D/m2_taskD.cpp:33-37 | the stored words are exactly the paths of the word-end nodes |
| TrieArena.TargetsDiffer | module_2/D/m2_taskD.cpp:29-37 | in a well-formed trie two different edges never lead to the same node |
| TrieArena.WordEndMarked | module_2/D/m2_taskD.cpp:89-92 | marking a non-root node keeps the trie well formed and adds its path to the words |
| TrieArena.LeafAdded | module_2/D/m2_taskD.cpp:64-69 | a new word-end leaf keeps the trie well formed and adds exactly `word` |
| TrieArena.SplitAtEndValid | module_2/D/m2_taskD.cpp:101-112 | splitting an edge at the word's end keeps the trie well formed and adds exactly `word` |
| TrieArena.SplitApartValid | module_2/D/m2_taskD.cpp:114-127 | splitting an edge where the word leaves it keeps the trie well formed and adds exactly `word` |
| TrieArena.GrowthInserts | module_2/D/m2_taskD.cpp:58-59 | a change that adds one or two nodes spelling prefixes of `word`, the last `word` itself, none of the old ones spelling `word`, and keeps the old paths and marks is an insertion of `word` |
| TrieArena.MarkInserts | module_2/D/m2_taskD.cpp:89-92 | marking the node that spells `word` is an insertion of `word` |
| TrieArena.LeafInserts | module_2/D/m2_taskD.cpp:64-69 | adding the leaf is an insertion of `word` |
| TrieArena.SplitAtEndInserts | module_2/D/m2_taskD.cpp:101-112 | the split at the word's end is an insertion of `word` |
| TrieArena.SplitApartInserts | module_2/D/m2_taskD.cpp:114-127 | the split apart is an insertion of `word` |
| RadixTrie.CompressedTrie.VisitOld | module_2/D/m2_taskD.cpp:190-205 | one edge of the depth-first search: returns `{path}` for a stored word at distance 0, records a stored word at exactly the budget, and pushes the target when its row is complete |
| RadixTrie.CompressedTrie.ExpandOld | module_2/D/m2_taskD.cpp:189-206 | all edges of a popped node are handled, and the walk invariant (visited, frontier, results) is kept |
| RadixTrie.CompressedTrie.SimilarOld | module_2/D/m2_taskD.cpp:177-210 | returns `{word}` when `word` is stored, and otherwise exactly the stored words at distance `maxMistakeCount` |
| RadixTrie.CompressedTrie.VisitAsWritten | module_2/D/m2_taskD.cpp:152-170 | one edge of the priority walk as written: a row ending in 0 answers the path, a word end whose row ends at the budget is recorded, and a complete row is pushed with its priority |
| RadixTrie.CompressedTrie.ExpandAsWritten | module_2/D/m2_taskD.cpp:152-171 | all edges of a popped node, as written, keeping the walk invariant |
| RadixTrie.CompressedTrie.SimilarAsWritten | module_2/D/m2_taskD.cpp:132-175 | the answer is one of the outcomes the code allows for any edge order: an out-of-range priority read, the path of a reached node whose row ends in 0, or the reached word ends recorded at the budget |
| RadixTrie.CompressedTrie.SimilarAnswersUnstored | module_2/D/m2_taskD.cpp:157-158 | with "ab" and "ac" stored, a query "a" with budget 0 has no stored word at distance 0, yet every answer as written is a single path |
| RadixTrie.CompressedTrie.NothingAtA | module_2/D/m2_taskD.cpp:157-158 | with "ab" and "ac" stored, no stored word is at distance 0 from "a" |
| RadixTrie.CompressedTrie.SimilarReadsPastRow | module_2/D/m2_taskD.cpp:213-214 | with "ab" stored, a query "a" with budget 1 always ends in the read past the end of a row, although "ab" is at distance 1 |
| RadixTrie.CompressedTrie.VisitSimilar | module_2/D/m2_taskD.cpp:152-170 | one edge of the corrected priority walk: the checks of the depth-first search and a push with the guarded priority |
| RadixTrie.CompressedTrie.ExpandSimilar | module_2/D/m2_taskD.cpp:152-171 | all edges of a popped node of the corrected walk, keeping the walk invariant |
| RadixTrie.CompressedTrie.Similar | module_2/D/m2_taskD.cpp:132-175 | the corrected priority walk returns `{word}` when `word` is stored and otherwise exactly the stored words at distance `maxMistakeCount`, whatever the order of the walk |
| SiblingTries.Lcp | module_2/examples/D.cpp:152-158 | the longest common prefix length: the strings agree up to it and differ just after it |
| SiblingTries.LcpUnique | module_2/examples/D.cpp:152-158 | a common prefix that cannot be extended is the longest one |
| SiblingTries.Prefix | module_2/examples/D.cpp:152-158 | `prefix` returns the longest common prefix length of the word and the label |
| SiblingTries.Split | module_2/examples/D.cpp:160-166 | after a split the node's label followed by its new first child's label is the old label |
| SiblingTries.SplitWords | module_2/examples/D.cpp:160-166 | a split whose node loses its mark stores the same words |
| SiblingTries.InsertPasses | module_2/examples/D.cpp:75-76 | a node sharing no first letter passes the word to its sibling |
| SiblingTries.InsertOpens | module_2/examples/D.cpp:77-84 | a node sharing part of the word is split where needed, loses its mark, and its children take the rest of the word |
| SiblingTries.InsertMarks | module_2/examples/D.cpp:85-90 | a node whose label starts with the whole word is split after it when longer, and marked |
| SiblingTries.InsertNode | module_2/examples/D.cpp:66-92 | the private `insert` always leaves a node at the head of the list; with InsertWords, InsertLabelled and InsertApart it stores exactly the old words plus `word` and keeps labels non-empty and siblings apart |
| SiblingTries.InsertWords | module_2/examples/D.cpp:66-92 | inserting stores the word, keeps every stored word, and adds no other |
| SiblingTries.InsertLabelled | module_2/examples/D.cpp:66-92 | inserting a non-empty word keeps every label non-empty |
| SiblingTries.InsertApart | module_2/examples/D.cpp:66-92 | inserting a non-empty word keeps the first letters of siblings distinct, and the list gains the word's first letter |
| SiblingTries.SplitApart | module_2/examples/D.cpp:160-166 | a split keeps the siblings' first letters and their being distinct |
| SiblingTries.OsaCell | module_2/examples/D.cpp:108-125 | each table entry of the restricted distance is the cheapest of insertion, deletion, substitution and, after a swap of the last two letters, a transposition |
| SiblingTries.NextEntry | module_2/examples/D.cpp:108-125 | the inner loop's entry, from the entry to its left, the previous row and the row two letters back, is the table entry |
| SiblingTries.NextColumn | module_2/examples/D.cpp:108-125 | one pass of the inner loop appends the next table entry of the row |
| SiblingTries.NextRow | module_2/examples/D.cpp:105-126 | the inner loop computes the table row of the letters read so far against the query padded with its terminator |
| SiblingTries.CellBelowDiag | module_2/examples/D.cpp:119 | an entry is at most one more than its diagonal neighbour |
| SiblingTries.PruneCell | module_2/examples/D.cpp:133-139 | after a row with nothing within budget, every entry of the next row is over budget |
| SiblingTries.PruneRow | module_2/examples/D.cpp:133-139 | the same for every column of the next row |
| SiblingTries.Prune | module_2/examples/D.cpp:133-149 | once a row has nothing within budget, no longer string comes within budget of the query, so cutting the branch loses no hit |
| SiblingTries.Lowest | module_2/examples/D.cpp:133 | `*min_element` of a non-empty row is an entry no larger than any other |
| SiblingTries.HitsCons | module_2/examples/D.cpp:52-56 | the hits of a sibling list are the hits at its first node plus those of the rest of the list |
| SiblingTries.NodeHitsFull | module_2/examples/D.cpp:128-148 | once the whole label is read, the hits at a node are its word (when it is an end within budget) and the hits of its children |
| SiblingTries.NodeHitsPruned | module_2/examples/D.cpp:133-142 | a row with nothing within budget leaves no hit at or under the node |
| SiblingTries.ReadLabel | module_2/examples/D.cpp:103-140 | the letter loop reads the label until its end or until a row has nothing within budget, returning the last two rows, and records the word exactly at the last letter of an end node within budget |
| SiblingTries.LabelRead | module_2/examples/D.cpp:128-142 | the row's entry for the whole query is the distance of what was read; a pruned row leaves no hit; a fully read label gives the node's word and its children's hits |
| SiblingTries.RSearch | module_2/examples/D.cpp:97-150 | `r_search` adds exactly the stored words at and under the node that are within budget |
| SiblingTries.HitsFromRoot | module_2/examples/D.cpp:41-58 | starting from nothing read, the hits are the stored words within budget |
| SiblingTries.Trie.constructor | module_2/examples/D.cpp:33 | a new trie stores nothing |
| SiblingTries.Trie.Insert | module_2/examples/D.cpp:60-63 | the stored words become the old ones plus `word`; a non-empty word keeps labels non-empty and siblings apart |
| SiblingTries.Trie.Search | module_2/examples/D.cpp:41-58 | the result is exactly the stored words within `maxCost` of `word` in the restricted Damerau-Levenshtein distance |
| HeapOrder.Swapped | module_2/C/m2_taskC.cpp:104-107 | a swap exchanges two slots, keeps the others and the multiset of entries |
| HeapOrder.RootIsMin | module_2/C/m2_taskC.cpp:73-76 | in an ordered heap the root holds the least key |
| HeapOrder.MaxAmongLeaves | module_2/examples/C.cpp:62-72 | in an ordered heap every key is at most some key in the second half of the slots |
| HeapOrder.UpStep | module_2/C/m2_taskC.cpp:19-24 | moving an entry above its larger parent keeps the order everywhere except around the moved entry |
| HeapOrder.DownStep | module_2/C/m2_taskC.cpp:25-39 | moving an entry below its smallest child keeps the order everywhere except around the moved entry |
| HeapOrder.IndexedSwap | module_2/C/m2_taskC.cpp:104-107 | swapping two slots and exchanging their keys' positions keeps the key index |
| HeapOrder.IndexedPop | module_2/C/m2_taskC.cpp:54-55 | dropping the last slot and its key keeps the key index |
| HeapOrder.IndexedPush | module_2/C/m2_taskC.cpp:44-45 | appending a new key at the end keeps the key index |
| HeapOrder.IndexedKeys | module_2/C/m2_taskC.cpp:109-113 | the indexed keys are exactly the stored keys |
| HeapOrder.DropFacts | module_2/C/m2_taskC.cpp:52-55 | swapping a slot with the last and popping keeps the index and removes exactly that slot's entry and key |
| HeapOrder.DropOrder | module_2/C/m2_taskC.cpp:52-59 | the same removal leaves the order intact away from the slot that received the last entry |
| MinHeaps.MinHeap.constructor | module_2/C/m2_taskC.cpp:159-160 | a new heap is empty |
| MinHeaps.MinHeap.Swap | module_2/C/m2_taskC.cpp:104-107 | exchanges two slots and their key positions, keeping the key index |
| MinHeaps.MinHeap.ShiftUp | module_2/C/m2_taskC.cpp:19-24 | restores the heap order around an entry that may be below its parent, keeping entries and keys |
| MinHeaps.MinHeap.SmallerChild | module_2/C/m2_taskC.cpp:25-39 | the child `ShiftDown` compares with holds the least key among the children, or there is no child |
| MinHeaps.MinHeap.ShiftDown | module_2/C/m2_taskC.cpp:25-39 | moves an entry down below its smaller child until no child is smaller, keeping entries and keys; the heap is ordered whenever it moved |
| MinHeaps.MinHeap.Add | module_2/C/m2_taskC.cpp:40-48 | refuses a stored key and changes nothing; otherwise adds exactly the new entry and keeps the heap order and the index |
| MinHeaps.MinHeap.Delete | module_2/C/m2_taskC.cpp:49-61 | refuses an absent key; otherwise removes exactly the entry of `key` and keeps the order and the index |
| MinHeaps.MinHeap.DropSlot | module_2/C/m2_taskC.cpp:52-55 | the removal step shared by `Delete` and `Extract`: swap with the last slot, pop, erase the key |
| MinHeaps.MinHeap.Restore | module_2/C/m2_taskC.cpp:56-59 | shifting down then up at the refilled slot restores the heap order |
| MinHeaps.MinHeap.Search | module_2/C/m2_taskC.cpp:62-66 | nothing for an absent key; otherwise the slot holding `key` and its value |
| MinHeaps.MinHeap.Set | module_2/C/m2_taskC.cpp:67-72 | false for an absent key; otherwise replaces the value of `key` in its slot and nothing else |
| MinHeaps.MinHeap.Min | module_2/C/m2_taskC.cpp:73-76 | nothing on an empty heap; otherwise slot 0, which holds the least key |
| MinHeaps.MinHeap.Max | module_2/C/m2_taskC.cpp:77-84 | nothing on an empty heap; otherwise a slot holding the largest key, with its index entry |
| MinHeaps.MinHeap.Extract | module_2/C/m2_taskC.cpp:85-93 | nothing on an empty heap; otherwise the old root, with exactly that entry removed and the order kept |
| MinHeaps.MinHeap.Empty | module_2/C/m2_taskC.cpp:95 | true exactly for an empty heap |
| MinHeats.MinHeat.constructor | module_2/examples/C.cpp:11 | a new heap is empty |
| MinHeats.MinHeat.Search | module_2/examples/C.cpp:14-19 | throws for an absent key; otherwise the slot of `key` and its value |
| MinHeats.MinHeat.Add | module_2/examples/C.cpp:21-28 | throws for a stored key and changes nothing; otherwise adds exactly the entry and keeps the order and the index |
| MinHeats.MinHeat.Set | module_2/examples/C.cpp:30-35 | throws for an absent key; otherwise replaces its value in place |
| MinHeats.MinHeat.Erase | module_2/examples/C.cpp:37-53 | throws for an absent key; otherwise removes exactly the entry of `key` and keeps the order and the index |
| MinHeats.MinHeat.Detach | module_2/examples/C.cpp:41-52 | the tail of `erase`: removes the entry of `key`, then lifts and sinks the moved entry; reports whether one was moved |
| MinHeats.MinHeat.Unlink | module_2/examples/C.cpp:46-50 | swaps the entry of `key` with the last, exchanges their index entries and pops |
| MinHeats.MinHeat.Min | module_2/examples/C.cpp:55-60 | throws on an empty heap; otherwise slot 0 and its entry, the least key |
| MinHeats.MinHeat.Max | module_2/examples/C.cpp:62-72 | throws on an empty heap; otherwise a slot holding the largest key, with its entry |
| MinHeats.MinHeat.Extract | module_2/examples/C.cpp:74-87 | throws on an empty heap; with one entry it removes it and then throws from the index lookup; otherwise returns the old root and removes exactly it, keeping the order |
| MinHeats.MinHeat.SwapUp | module_2/examples/C.cpp:96-106 | `swap_` exchanges the entry of `key` with the one at `(i - parity) / 2` exactly when its key is smaller, with the index entries |
| MinHeats.MinHeat.Lifting | module_2/examples/C.cpp:131-144 | lifts `key` while it is below its parent, keeping entries, keys and index; the heap is ordered when the slot's children were |
| MinHeats.MinHeat.LiftStep | module_2/examples/C.cpp:137-142 | one pass of `lifting`: either moves the key one level up or leaves everything as it is |
| MinHeats.MinHeat.Heapify | module_2/examples/C.cpp:108-129 | sinks `key` below its smaller child until no child is smaller, ending with an ordered heap |
| MinHeats.MinHeat.SinkTo | module_2/examples/C.cpp:113-126 | one step of `heapify` moves `key` down to the chosen child |
| MinHeats.StopOrdered | module_2/examples/C.cpp:134-135 | where `lifting` stops the order is whole when the slot's outgoing edges were ordered |
| MinHeats.UnlinkIndex | module_2/examples/C.cpp:46-50 | after `erase`'s swap and pop the index maps the moved key to the freed slot and forgets the erased key |
| MinHeats.PopFacts | module_2/examples/C.cpp:41-44 | erasing the last key pops exactly its entry and keeps the order and the index |
| MinHeats.LiftFacts | module_2/examples/C.cpp:96-106 | a `swap_` that lifts a key above its larger parent keeps the index and the order away from the key |
| MinHeats.SinkFacts | module_2/examples/C.cpp:113-126 | a `swap_` called with the smallest child's key moves `key` down one level, keeping the index |
| MinHeats.SinkOrder | module_2/examples/C.cpp:113-126 | swapping a key with its smallest, smaller child keeps the order away from the child slot the key moved to |
| SearchTrees.FindKeys | module_2/B/m2_taskB.hpp:226-242 | in a search tree the descent by comparisons finds a key exactly when it is stored |
| SearchTrees.KeysOfEntries | module_2/B/m2_taskB.hpp:176-200 | the keys of the in-order entries are the stored keys |
| SearchTrees.BstIncreasing | module_2/B/m2_taskB.hpp:226-242 | the search-tree order is exactly strictly increasing in-order keys |
| SearchTrees.FindEntries | module_2/B/m2_taskB.hpp:226-242 | in a search tree the descent finds `v` under `key` exactly when `(key, v)` is an in-order entry |
| SearchTrees.SameEntries | module_2/B/m2_taskB.py:69-139 | trees with the same in-order entries agree on order and on every lookup, which is why rotations and splays change no answer |
| BinaryTrees.Insert | module_2/B/m2_taskB.hpp:88-107 | `Add` stores the old keys plus `key` |
| BinaryTrees.InsertFacts | module_2/B/m2_taskB.hpp:88-107 | `Add` keeps the search-tree order, makes `key` find `value`, leaves every other key's value, and grows the tree only for a new key |
| BinaryTrees.Update | module_2/B/m2_taskB.hpp:109-112 | `Set` keeps the keys and the size |
| BinaryTrees.UpdateFacts | module_2/B/m2_taskB.hpp:109-112 | `Set` keeps the order, gives a stored key the new value, leaves every other key, and changes nothing for an absent key |
| BinaryTrees.Rightmost | module_2/B/m2_taskB.hpp:55-63 | the end of the right chain is a stored key |
| BinaryTrees.Leftmost | module_2/B/m2_taskB.hpp:155-164 | the end of the left chain is a stored key |
| BinaryTrees.RightmostMax | module_2/B/m2_taskB.hpp:166-175 | the end of the right chain holds the largest key, with its value |
| BinaryTrees.LeftmostMin | module_2/B/m2_taskB.hpp:155-164 | the end of the left chain holds the smallest key, with its value |
| BinaryTrees.DropRightmost | module_2/B/m2_taskB.hpp:124 | the relink of the left-subtree maximum keeps only stored keys; DropRightmostEntries and DropRightmostFacts show it removes exactly the last in-order entry and keeps the order |
| BinaryTrees.DropRightmostEntries | module_2/B/m2_taskB.hpp:124 | unlinking the rightmost node removes exactly the last in-order entry |
| BinaryTrees.DropRightmostFacts | module_2/B/m2_taskB.hpp:124 | unlinking the rightmost node keeps the order and removes exactly its key |
| BinaryTrees.Remove | module_2/B/m2_taskB.hpp:114-146 | `Delete` as written (the two-children case swaps keys only) stores a subset of the keys |
| BinaryTrees.Displaced | module_2/B/m2_taskB.hpp:117-127 | the key whose value `Delete` as written rewrites is a stored key |
| BinaryTrees.RemoveOrder | module_2/B/m2_taskB.hpp:114-146 | `Delete` as written keeps the order and removes exactly `key` |
| BinaryTrees.RemoveFind | module_2/B/m2_taskB.hpp:117-127 | after `Delete` as written the key moved up finds the deleted key's value, and every other key its own |
| BinaryTrees.DeleteMovesValue | module_2/B/m2_taskB.hpp:117-127 | deleting 2 from the tree 1 < 2 > 3 leaves key 1 holding "b", the deleted key's value |
| BinaryTrees.RemoveEntry | module_2/B/m2_taskB.hpp:114-146 | `Delete` with the whole entry swapped stores a subset of the keys |
| BinaryTrees.RemoveEntryOrder | module_2/B/m2_taskB.hpp:114-146 | the corrected delete keeps the order and removes exactly `key` |
| BinaryTrees.RemoveEntryFind | module_2/B/m2_taskB.hpp:114-146 | after the corrected delete `key` finds nothing and every other key finds its own value |
| BinaryTrees.BinaryTree.constructor | module_2/B/m2_taskB.hpp:82 | a new tree is empty |
| BinaryTrees.BinaryTree.SearchPlaceForKey | module_2/B/m2_taskB.hpp:226-242 | the walk reaches the node of `key` exactly when the descent finds it, with its value |
| BinaryTrees.BinaryTree.Search | module_2/B/m2_taskB.hpp:148-152 | `Search` discards the walk's result and returns the default value |
| BinaryTrees.BinaryTree.Add | module_2/B/m2_taskB.hpp:88-107 | the tree becomes `Insert` of the old tree, a search tree again |
| BinaryTrees.BinaryTree.Set | module_2/B/m2_taskB.hpp:109-112 | the tree becomes `Update` of the old tree |
| BinaryTrees.BinaryTree.Delete | module_2/B/m2_taskB.hpp:114-146 | the tree becomes `Remove` of the old tree, as written |
| BinaryTrees.BinaryTree.Min | module_2/B/m2_taskB.hpp:155-164 | the smallest stored key, with its value |
| BinaryTrees.BinaryTree.Max | module_2/B/m2_taskB.hpp:166-175 | the largest stored key, with its value |
| BinaryTrees.BinaryTree.Empty | module_2/B/m2_taskB.hpp:202 | true exactly for an empty tree |
| SplayTrees.Graft | module_2/B/m2_taskB.py:89-98 | `setup_parent` below the root leaves the root entry in place; GraftAt puts the new subtree at the path and GraftEntries keeps the entries when it holds the same ones |
| SplayTrees.GraftEntries | module_2/B/m2_taskB.py:89-98 | relinking a subtree with the same in-order entries into its parent keeps the tree's entries |
| SplayTrees.RotateRight | module_2/B/m2_taskB.py:69-78 | a right rotation keeps the in-order entries |
| SplayTrees.RotateLeft | module_2/B/m2_taskB.py:80-87 | a left rotation keeps the in-order entries |
| SplayTrees.RotateInverse | module_2/B/m2_taskB.py:69-87 | the two rotations undo each other |
| SplayTrees.Zig | module_2/B/m2_taskB.py:100-104 | the single rotation brings the child to the top and keeps the entries |
| SplayTrees.Twist | module_2/B/m2_taskB.py:106-120 | the zig-zig and zig-zag rotations bring the grandchild to the top and keep the entries |
| SplayTrees.Splayed | module_2/B/m2_taskB.py:122-139 | splaying brings the node at the path to the top with its key and value, and keeps the entries |
| SplayTrees.Descend | module_2/B/m2_taskB.py:25-36 | the `_search` walk stays on the tree; DescendPath and DescendFinds add that it stops only at the key, and in a search tree exactly when the key is stored |
| SplayTrees.DescendPath | module_2/B/m2_taskB.py:25-36 | the search walk stays on the tree and stops at a node only when it holds the key |
| SplayTrees.DescendFinds | module_2/B/m2_taskB.py:25-36 | in a search tree the walk ends at a node exactly when the key is stored, and that node holds its value |
| SplayTrees.DescendInsert | module_2/B/m2_taskB.py:38-49 | a leaf hung where the walk falls off is the search-tree insertion |
| SplayTrees.Spine | module_2/B/m2_taskB.py:51-61 | following one direction from a node ends at a node with no child that way |
| SplayTrees.SearchPath | module_2/B/m2_taskB.py:155-161 | the node `_splay_search` splays is on the tree: the one holding the key, or the last node the walk passed |
| SplayTrees.MinPath | module_2/B/m2_taskB.py:51-55 | `_min` follows the left links to the leftmost node |
| SplayTrees.MaxPath | module_2/B/m2_taskB.py:57-61 | `_max` follows the right links to the rightmost node |
| SplayTrees.WithoutFacts | module_2/B/m2_taskB.py:198-216 | a tree whose entries are a search tree's without `key` is a search tree where `key` is absent and other keys find their values |
| SplayTrees.JoinAtMax | module_2/B/m2_taskB.py:211-215 | after the left subtree's maximum is splayed up, hanging the right subtree under it gives the entries of both subtrees |
| SplayTrees.Walk | module_2/B/m2_taskB.py:25-36 | `_search`'s loop follows the search walk |
| SplayTrees.Splay | module_2/B/m2_taskB.py:122-139 | the `splay` loop computes the splayed tree |
| SplayTrees.SplayTree.constructor | module_2/B/m2_taskB.py:66-67 | a new tree is empty |
| SplayTrees.SplayTree.SplaySearch | module_2/B/m2_taskB.py:155-161 | the new tree is the old one splayed at the node of `key`, or at the last node the walk passed; answers whether the key is stored, which is whether the top now holds it; entries unchanged |
| SplayTrees.SplayTree.Search | module_2/B/m2_taskB.py:163-165 | the value of `key` before the call, or none; the tree is splayed as `_splay_search` does; entries unchanged |
| SplayTrees.SplayTree.Insert | module_2/B/m2_taskB.py:167-175 | the key ends at the top; true exactly for a new key, whose entries become those of the search-tree insertion; otherwise nothing changes |
| SplayTrees.SplayTree.Set | module_2/B/m2_taskB.py:218-225 | true exactly for a stored key, whose value alone is replaced |
| SplayTrees.SplayTree.Delete | module_2/B/m2_taskB.py:198-216 | true exactly for a stored key, whose entry alone is removed; the order is kept |
| SplayTrees.SplayTree.Min | module_2/B/m2_taskB.py:148-153 | none for an empty tree, otherwise the leftmost entry, whose node is splayed to the top; entries unchanged |
| SplayTrees.SplayTree.Max | module_2/B/m2_taskB.py:141-146 | none for an empty tree, otherwise the rightmost entry, whose node is splayed to the top; entries unchanged |
| NodeSplayTrees.ReceiverWalk | module_2/B/m2_taskB_2.py:33-41 | the walk that starts at the receiver stays on the structure and stops at a node only when it holds the key |
| NodeSplayTrees.InsertFrom | module_2/B/m2_taskB_2.py:14-27 | `insert` as written, walking from the receiver and then splaying (lines 150-154), brings `key` to the top, holding `value` when it answers true; InsertFromFacts gives the keys gained |
| NodeSplayTrees.InsertFromFacts | module_2/B/m2_taskB_2.py:14-27 | insertion as written brings the key to the top, gains exactly that key when it answers true, and changes no entry when it answers false |
| NodeSplayTrees.GraftLeafSplayed | module_2/B/m2_taskB_2.py:22-26 | hanging a new leaf and splaying it gains exactly its key |
| NodeSplayTrees.SplayedBag | module_2/B/m2_taskB_2.py:121-138 | splaying keeps the keys with their multiplicities |
| NodeSplayTrees.StaleReceiverDuplicates | module_2/B/m2_taskB_2.py:19 | inserting 4 twice into the tree of 8 stores 4 twice and breaks the search-tree order |
| NodeSplayTrees.InsertFromTop | module_2/B/m2_taskB.py:38-49 | the insert that walks from the top, as `_insert` does, brings `key` to the top, holding `value` when it answers true; InsertFromTopFacts gives the order and entries |
| NodeSplayTrees.InsertFromTopFacts | module_2/B/m2_taskB_2.py:14-27 | insertion from the top keeps the order, answers true exactly for a new key, and stores the entries of the search-tree insertion |
| NodeSplayTrees.SplayNode.Receiver | module_2/B/m2_taskB_2.py:1-7 | the receiver is a node of the structure holding the key recorded for it |
| NodeSplayTrees.SplayNode.constructor | module_2/B/m2_taskB_2.py:57-58 | a new receiver is empty, and so is its structure |
| NodeSplayTrees.SplayNode.Empty | module_2/B/m2_taskB_2.py:29-30 | true exactly while the structure is empty |
| NodeSplayTrees.SplayNode.Insert | module_2/B/m2_taskB_2.py:150-154 | an empty receiver takes the entry; otherwise the walk starts at the receiver and the node found or added is splayed to the top, gaining the key exactly when it answers true |
| NodeSplayTrees.SplayNode.Min | module_2/B/m2_taskB_2.py:145-148 | none for an empty structure, otherwise the end of the left chain below the receiver; the new top is the old structure splayed at that node, which holds the answer; entries unchanged |
| NodeSplayTrees.SplayNode.Max | module_2/B/m2_taskB_2.py:140-143 | none for an empty structure, otherwise the end of the right chain below the receiver; the new top is the old structure splayed at that node, which holds the answer; entries unchanged |
| NodeSplayTrees.ChainEnd | module_2/B/m2_taskB_2.py:140-148 | the chain below the receiver ends at a node with no child in its direction |
| Bitsets.BitOfSetBit | module_3/D/m3_taskD.py:37-40 | setting or clearing a bit changes that bit and no other |
| Bitsets.BitsOf | module_3/D/m3_taskD.py:24-26 | index i of the bitset is bit `length - i - 1` of the value |
| Bitsets.RangeInside | module_3/D/m3_taskD.py:22-24 | every position of a normalised slice is an index of the bitset |
| Bitsets.SliceBits | module_3/D/m3_taskD.py:35-40 | after a slice write the positions of the range read `v` and every other bit is unchanged |
| Bitsets.Bitset.constructor | module_3/D/m3_taskD.py:16-18 | a new bitset has the given length and every bit clear |
| Bitsets.Bitset.Get | module_3/D/m3_taskD.py:28-30 | an index inside the bitset reads its bit; a negative index reads the bit above the end it names; an index at or past the end fails (negative shift) |
| Bitsets.Bitset.GetSlice | module_3/D/m3_taskD.py:20-27 | a slice reads the bits at the positions of its range, in order |
| Bitsets.Bitset.SetItem | module_3/D/m3_taskD.py:43-51 | writing an index sets or clears exactly the bit it names and no other; an index inside keeps the length, a negative one may grow it to the bit written; an index at or past the end fails and changes nothing |
| Bitsets.Bitset.SetSlice | module_3/D/m3_taskD.py:32-42 | writing a slice sets or clears exactly the bits of its positions, and the length becomes the largest of `start + 1`, `stop` and the old length |
| Bitsets.Bitset.ToString | module_3/D/m3_taskD.py:53-57 | one '1' or '0' per index, in index order |
| BloomFilters.BloomFilter.constructor | module_3/D/m3_taskD.py:74-85 | a new filter has every bit clear |
| BloomFilters.BloomFilter.FHash | module_3/D/m3_taskD.py:87-88 | each hash is an index of the bitset |
| BloomFilters.BloomFilter.Contains | module_3/D/m3_taskD.py:90-94 | true exactly when every hashed index of the key holds a set bit |
| BloomFilters.BloomFilter.Add | module_3/D/m3_taskD.py:96-98 | the new bits are the old ones with exactly the key's hashed indices set, so the key is a member and every earlier member stays one; no bit outside the filter changes |
| BloomFilters.BloomFilter.ToString | module_3/D/m3_taskD.py:100-101 | the filter's bits as text |
| BloomFilters.NewFilter | module_3/D/m3_taskD.py:74-79 | a hash count of 0 raises the filter error, whatever the size; otherwise a filter with every bit clear |
| PrimeSieve.PrimesBetweenSpec | module_3/D/m3_taskD.py:109-120 | the reference list holds exactly the primes of its range, increasing |
| PrimeSieve.PrimesBetweenExtend | module_3/D/m3_taskD.py:112-120 | one more number adds it exactly when it is prime |
| PrimeSieve.KeyIffComposite | module_3/D/m3_taskD.py:113 | under the sieve's state a number is a key of the dictionary exactly when it is not prime |
| PrimeSieve.PrimeGen | module_3/D/m3_taskD.py:109-120 | the generator yields exactly the primes, in increasing order |
| PrimeSieve.PrimeStep | module_3/D/m3_taskD.py:113-115 | a prime goes in under its square and the sieve's state holds for the next number |
| PrimeSieve.Advance | module_3/D/m3_taskD.py:116-119 | a composite's primes move on to their next multiples, its key is dropped, and the state holds for the next number |
| PrimeSieve.Append | module_3/D/m3_taskD.py:118 | `setdefault(...).append(p)` appends to one key's list and changes no other key |
| PrimeSieve.MoveDone | module_3/D/m3_taskD.py:119 | once every listed prime has moved, dropping the key leaves the state for the next number |
| Multiples.Reach | module_3/D/prime.py:11-12 | the walk of a multiple up to the candidate stops at or past it and less than one step beyond |
| Multiples.ReachHits | module_3/D/prime.py:13 | the walk lands on the candidate exactly when the prime divides it |
| Multiples.CompositeFactor | module_3/D/prime.py:6-10 | a number that is not prime has a prime factor whose square is at most the number |
| Multiples.LeastIsPrime | module_3/D/prime.py:8-15 | the least divisor above 1 is prime |
| TrialDivision.FloorSqrt | module_3/D/prime.py:6 | the integer square root: its square is at most `n` and the next one's square is above |
| TrialDivision.Stop | module_3/D/prime.py:8-15 | the scan stops at the first entry above the limit or whose multiple lands on the candidate |
| TrialDivision.ScanFindsDivisor | module_3/D/prime.py:8-15 | on aligned entries the scan rejects the candidate exactly at the first entry that divides it |
| TrialDivision.PrimeCache.constructor | module_3/D/prime.py:20-21 | the cache starts unset |
| TrialDivision.PrimeCache.IsPrime | module_3/D/prime.py:5-16 | the answer is false exactly when the scan stops on an entry whose multiple reaches the candidate; the entries walked past, and that one, have their multiples pushed up to the candidate, and the rest are untouched |
| TrialDivision.PrimeCache.GetPrimeList | module_3/D/prime.py:19-34 | the first call starts the cache at [[3, 3]]; no call ever grows it, whatever length is asked for, and each returns the whole cache |
| Knapsack.GcdDivides | module_3/A/m3_taskA.py:52-54 | the gcd divides both arguments |
| Knapsack.GcdOfDivides | module_3/A/m3_taskA.py:50-55 | the folded gcd divides the limit and every weight |
| Knapsack.NormalizeWeights | module_3/A/m3_taskA.py:49-58 | the limit and every weight are the divisor (the gcd, or 1 when it is 0) times their normalised value |
| Knapsack.WeightsScale | module_3/A/m3_taskA.py:57 | a choice's weight is the divisor times its normalised weight |
| Knapsack.BestIsUpperBound | module_3/A/m3_taskA.py:24-31 | no choice of the first i items within a normalised limit costs more than the table entry |
| Knapsack.BestTake | module_3/A/m3_taskA.py:42-45 | a table entry that differs from the one above takes the item |
| Knapsack.FillMemo | module_3/A/m3_taskA.py:24-31 | the table holds the best cost of every prefix of items under every normalised limit |
| Knapsack.WalkStep | module_3/A/m3_taskA.py:42-46 | one step of the backward walk keeps its invariant: the picked cost plus the best cost left is the total, the picks stay distinct and decreasing, and the weights add up |
| Knapsack.Backtrack | module_3/A/m3_taskA.py:33-47 | the backward walk picks distinct items, with decreasing indices, whose cost is the best cost and whose normalised weight fits |
| Knapsack.ScaledUpperBound | module_3/A/m3_taskA.py:17-47 | a choice within the original limit is within the normalised one, so it costs no more than the best |
| Knapsack.Execute | module_3/A/m3_taskA.py:17-47 | the chosen items fit under the limit, the reported weight and cost are theirs, and no choice that fits costs more |
| Reduction.AvailableDivisionCount | module_3/B/3m_taskB.py:25-31 | the count is the exponent of 2 in the number |
| Reduction.TwosFactor | module_3/B/3m_taskB.py:25-31 | a non-zero number is 2 to that count times an odd number |
| Reduction.Move | module_3/B/3m_taskB.py:8-21 | one pass of the loop records `inc`, `dec` or `dbl`, and `dec` only for an odd number of at least 5; MoveDecreases and MoveUndone show the step makes progress and is undone by its operation |
| Reduction.MoveDecreases | module_3/B/3m_taskB.py:7-21 | each step of the loop decreases the walk's measure, so the loop ends |
| Reduction.MoveUndone | module_3/B/3m_taskB.py:8-21 | the recorded operation undoes the step it stands for |
| Reduction.PlanReplays | module_3/B/3m_taskB.py:52 | the operations, replayed in reverse from 0, build the number back |
| Reduction.PlanOps | module_3/B/3m_taskB.py:9-20 | every recorded operation is `inc`, `dec` or `dbl` |
| Reduction.DecOnlyWhenUpperHasMoreTwos | module_3/B/3m_taskB.py:16-18 | `dec` is recorded only for an odd number of at least 5 whose upper neighbour halves more often |
| Reduction.Calculate | module_3/B/3m_taskB.py:4-22 | the list of operations, which replayed in reverse from 0 gives back the number; empty for 0 |
| PrintingStack.Values | module_1/B/module.py:34-37 | the values of a run of filled slots, in order |
| PrintingStack.Stack.Contents | module_1/B/module.py:5-9 | the stack is slots 0 to the head, all filled |
| PrintingStack.Stack.constructor | module_1/B/module.py:6-9 | a new stack of the given size is empty |
| PrintingStack.Stack.Push | module_1/B/module.py:11-17 | a full stack prints "overflow" and is unchanged; otherwise the value goes on top |
| PrintingStack.Stack.Pop | module_1/B/module.py:19-26 | an empty stack prints "underflow"; otherwise the top value is printed and removed |
| PrintingStack.Stack.Print | module_1/B/module.py:28-37 | prints "empty", or the values bottom to top separated by spaces on one line |
| PrintingStack.Stack.Empty | module_1/B/module.py:39-40 | true exactly for an empty stack |
| ThrowingStack.Stack.Contents | module_1/main.cpp:52-55 | the stack is slots 0 to the head |
| ThrowingStack.Stack.constructor | module_1/main.cpp:13-14 | a new stack of the given size is empty |
| ThrowingStack.Stack.Push | module_1/main.cpp:18-24 | throws "overflow" on a full stack and is unchanged; otherwise the value goes on top |
| ThrowingStack.Stack.Pop | module_1/main.cpp:26-34 | throws "underflow" on an empty stack; otherwise returns and removes the top value |
| ThrowingStack.Stack.Print | module_1/main.cpp:36-45 | throws "empty" on an empty stack; otherwise writes every value below the top, each followed by a space |
| ThrowingStack.Stack.Empty | module_1/main.cpp:48-50 | true exactly for an empty stack |
| CircularQueue.Slot | module_1/C/module.py:18 | the slot k places on round the buffer is a slot |
| CircularQueue.SlotInjective | module_1/C/module.py:40-44 | different distances from one slot reach different slots |
| CircularQueue.EmptyLayout | module_1/C/module.py:46-47 | the empty test is true exactly when no value is stored |
| CircularQueue.FullLayout | module_1/C/module.py:14 | the full test is true exactly when every slot is filled, or when the buffer has one slot |
| CircularQueue.PushLayout | module_1/C/module.py:17-20 | storing after the tail keeps the layout and appends the value |
| CircularQueue.PopLayout | module_1/C/module.py:27-31 | clearing the head and moving it on keeps the layout and drops the oldest value |
| CircularQueue.Window | module_1/C/module.py:5-10 | the stored values, oldest first, are the filled slots from the head round, one per stored value |
| CircularQueue.Queue.constructor | module_1/C/module.py:6-10 | a new queue of the given size is empty |
| CircularQueue.Queue.Push | module_1/C/module.py:12-20 | prints "overflow" exactly on a full queue (or a one-slot buffer) and is unchanged; otherwise the value joins the end |
| CircularQueue.Queue.Pop | module_1/C/module.py:22-31 | an empty queue prints "underflow"; otherwise the oldest value is printed and removed |
| CircularQueue.Queue.Print | module_1/C/module.py:33-44 | prints "empty", or the values from head to tail on one line |
| CircularQueue.Queue.Empty | module_1/C/module.py:46-47 | true exactly for an empty queue |
| TextOutput.Line | module_1/B/module.py:33-37 | a printed line is the values separated by spaces, ended by a newline |
| TextOutput.SpacedPieces | module_1/main.cpp:42-44 | values written each followed by a space split back into the values |
| TextOutput.LinePieces | module_1/C/module.py:40-44 | a printed line of values without blanks reads back as the values |
| Graphs.LexTransitive | module_1/D/module.py:13 | Python's string order, which `sort` uses, is transitive |
| Graphs.LexTotal | module_1/D/module.py:13 | two different strings are ordered one way or the other |
| Graphs.SortedAdd | module_1/D/module.py:10-13 | `SortedSet.add` holds the old values and `value`, and grows by one exactly when `value` was absent; InsertSorted keeps the list sorted |
| Graphs.InsertSorted | module_1/D/module.py:10-13 | putting a new value into a sorted list keeps it sorted and adds just that value |
| Graphs.SortedSet.constructor | module_1/D/module.py:7-8 | a new set is empty |
| Graphs.SortedSet.Add | module_1/D/module.py:10-13 | the list stays sorted and gains `value` exactly when it was absent |
| Graphs.Link | module_1/D/module.py:27-30 | after `Graph.add` the start has an entry listing the end, and for an undirected graph the end has one listing the start; LinkEdges gives the whole new adjacency |
| Graphs.LinkEdges | module_1/D/module.py:27-30 | adding an edge records it, and the edge back for an undirected graph, keeping every list sorted |
| Graphs.Isolated | module_1/D/module.py:33-35 | a vertex without an entry reaches only itself |
| Graphs.Remove | module_1/D/module.py:47-48 | `list.remove` drops the value and keeps the list free of repeats |
| Graphs.Graph.Adj | module_1/D/module.py:25 | the neighbour lists, one per vertex with an entry |
| Graphs.Graph.constructor | module_1/D/module.py:23-25 | a new graph has no vertex |
| Graphs.Graph.Entry | module_1/D/module.py:28 | reading a vertex's set creates an empty one when it is absent and changes nothing else |
| Graphs.Graph.Add | module_1/D/module.py:27-30 | the neighbour lists become those with the edge (and the edge back when undirected) added |
| Graphs.Graph.DepthTraversal | module_1/D/module.py:32-49 | yields `start` first, each vertex reachable from it exactly once, and after each vertex the smallest unvisited neighbour of the latest yielded vertex that still has one; by `DepthUnique` this fixes the output |
| Graphs.Graph.WidthTraversal | module_1/D/module.py:51-68 | yields the breadth-first order from `start`: each reachable vertex exactly once, `start` first |
| Graphs.DepthFirst | module_1/D/module.py:37-49 | the stack loop yields every reachable vertex once, in depth-first order: after each vertex comes the smallest unvisited neighbour of the latest yielded vertex that still has one |
| Graphs.DepthUnique | module_1/D/module.py:37-49 | two outputs that start at `start`, list each reachable vertex once and keep the depth-first order are equal |
| Graphs.DepthBacktracks | module_1/D/module.py:37-49 | on the star A–B, A–C, A–D, the order A, B, D, C (skipping back past A's next neighbour) is not depth-first |
| Graphs.TopIsHighest | module_1/D/module.py:40-49 | the top of the stack is waiting and lies above every other waiting vertex: pushed later, or by the same vertex and smaller |
| Graphs.TopIsLatest | module_1/D/module.py:40-49 | the waiting vertex pushed last, and smallest among those its vertex pushed, is the smallest unvisited neighbour of the latest yielded vertex that still has one |
| Graphs.DepthVisit | module_1/D/module.py:40-49 | one pop yields the top, pushes its unvisited neighbours, moving those already waiting to the top, and keeps the loop invariant, the depth order included |
| Graphs.PushNeighbours | module_1/D/module.py:45-49 | the new stack is the old one without the unvisited neighbours, then those neighbours from the largest to the smallest, so an already waiting one moves to the top |
| Graphs.BreadthFirst | module_1/D/module.py:56-68 | the queue loop yields the breadth-first order |
| Graphs.WidthVisit | module_1/D/module.py:62-68 | one dequeue appends the unvisited neighbours, in order, to the output and the queue |
| Graphs.WidthFacts | module_1/D/module.py:56-68 | the breadth-first order lists every reachable vertex once |
| NumberScanner.ParseInt | module_1/A/A_parse_find_numbers_in_line.py:22 | Python's `int` of a numeral without a minus sign is non-negative |
| NumberScanner.DigitRun | module_1/A/A_parse_find_numbers_in_line.py:26-30 | the run of digits at the start of a text |
| NumberScanner.IntsFromLine | module_1/A/A_parse_find_numbers_in_line.py:16-35 | the scanner yields exactly the numbers of the reference reading of the line |
| NumberScanner.Consume | module_1/A/A_parse_find_numbers_in_line.py:19-35 | one character moves the machine to a new state and yields what the reference reading yields at that point |
| NumberScanner.StepSign | module_1/A/A_parse_find_numbers_in_line.py:20-25 | a sign ends the number being read and becomes the pending sign |
| NumberScanner.StepDigit | module_1/A/A_parse_find_numbers_in_line.py:26-30 | a digit extends the numeral being gathered |
| NumberScanner.StepOther | module_1/A/A_parse_find_numbers_in_line.py:31-35 | any other character ends the number being read; a pending sign survives it |
| NumberScanner.NoDigitsNoNumbers | module_1/A/A_parse_find_numbers_in_line.py:16-35 | a line without digits yields nothing |
| NumberScanner.TrailingDigitsDropped | module_1/A/A_parse_find_numbers_in_line.py:19-35 | digits at the very end of the text are never yielded |
| NumberScanner.NumbersAreNumerals | module_1/A/A_parse_find_numbers_in_line.py:22-34 | every yielded value is Python's `int` of a sign-optional numeral |
| NumberScanner.PendingSignSurvivesJunk | module_1/A/A_parse_find_numbers_in_line.py:20-35 | "+a5\n" yields 5: the sign is kept across the junk letter |
| NumberScanner.SignSplitsNumbers | module_1/A/A_parse_find_numbers_in_line.py:20-25 | "5-3x" yields 5 and -3 |

## Left out

- Reading commands from standard input, the regular-expression command
  parsers, `main` functions and printing to streams are left out; printing
  commands return the text they would print instead.
- The sibling trie lowercases words with the process locale; the model
  takes words as given.
- The destructors and `Clear` of the pointer structures are left out:
  values and arenas need no freeing.
- RadixTrie.CompressedTrie.Insert: requires a non-empty word. On the empty
  word `word[0]` is the terminating '\0', so the source stores a word-end
  node under an edge keyed '\0' with an empty label (a second empty word
  marks that node), and a blank dictionary line reaches this case. The
  model leaves it out because its trie keeps every label non-empty.
- RadixTrie.CompressedTrie.SimilarAsWritten: the order of
  `std::unordered_map` iteration and of equal priorities in
  `std::priority_queue` is not modelled; the contract names every outcome
  any such order can give, and the out-of-range read is an outcome of its
  own instead of undefined behaviour.
- RadixTrie.CompressedTrie.SimilarOld and RadixTrie.CompressedTrie.Similar
  follow the code in recording words at exactly `maxMistakeCount`
  mistakes, not at most that many.
- SiblingTries.Trie.Search: requires every label to be non-empty; an
  empty label (only an inserted empty word makes one) leaves the row empty
  and `min_element` of it is dereferenced.
- The search trees are values: parent pointers, in-place relinking and
  aliasing of nodes are not modelled; the rotations and splays are stated on
  the shape and in-order entries of the tree.
- BinaryTrees.BinaryTree.Delete: requires that the node removed has a
  parent whenever the source dereferences it (deleting the root with at most
  one child dereferences a null parent).
- BinaryTrees.BinaryTree.Delete: in the two-child case the source hangs
  the left-subtree maximum's left child under the maximum's parent
  (module_2/B/m2_taskB.hpp:124) but leaves that child's `parent` pointing at
  the freed maximum. After adding 5, 3, 7, 2 and deleting 5, node 2 still
  points at the freed node 3, and deleting 2 next writes through that freed
  pointer and leaves the root's left link dangling. Without parent pointers
  the model cannot show this; it answers the search-tree removal, the tree
  3 with only 7 below it, there.
- BinaryTrees.BinaryTree.Min: requires a non-empty tree, because the
  empty-tree guard discards its value and the loop dereferences null;
  BinaryTrees.BinaryTree.Max likewise.
- SplayTrees.SplayTree.Search: requires a non-empty tree, because the
  source splays `None` when the tree is empty; SplayTrees.SplayTree.SplaySearch
  likewise.
- NodeSplayTrees.SplayNode: the node the caller holds is identified by its
  key (which no other node holds); the structure above it is kept as a
  whole.
- BloomFilters.BloomFilter.constructor: the bitset size and the hash
  count, which the source computes in floating point from `n` and `p`, are
  parameters, and so is the list of primes the constructor draws from
  `prime_gen`. It also requires a positive size: with a size of 0 the
  source fails with a division by zero at the first `add` or lookup.
- BloomFilters.NewFilter: a hash count of 0 fails whatever the size, as in
  the source; with a positive hash count it requires a positive size, for
  the reason given for the constructor (a size of 0 divides by zero at the
  first `add`, and a negative size is not modelled).
- PrimeSieve.PrimeGen: the infinite generator is modelled as the primes
  below a limit.
- TrialDivision.PrimeCache.GetPrimeList: modelled as written; the
  comparison at module_3/D/prime.py:26 makes the growing loop unreachable,
  and a version that grows the cache is not part of this model.
- TrialDivision.PrimeCache.IsPrime: `is_prime` takes the list as a
  parameter; here it scans the cache's own list, the one list it is ever
  given.
- CircularQueue.Queue.constructor: requires a positive size; with a size
  of 0 every later command fails on the modulo or the index into the empty
  buffer.
- TrialDivision.FloorSqrt: `int(math.sqrt(n))` is the exact integer
  square root; floating-point rounding is not modelled.
- Knapsack.Execute: requires at least one item, because the source reads
  `items[0]` in `normalize_weights`.
- Knapsack.Item: weights, costs and the limit are non-negative numbers;
  negative ones, which `gcd` and the table indices would treat differently,
  are not modelled.
- Reduction.AvailableDivisionCount: requires a non-zero number; for 0 the
  source loops forever.
- Graphs.Graph.DepthTraversal and Graphs.Graph.WidthTraversal: the
  generators are modelled as the list of everything they yield, computed
  over the neighbour lists at the time of the call; the empty sets that
  reading a missing vertex adds to the `defaultdict` during a traversal are
  not modelled.
- MinHeats.MinHeat.SwapUp: the `flag` parameter of `swap_` is dropped, as
  every path overwrites it before returning.
- MinHeats.MinHeat.Heapify: the branch for a right child without a left
  child cannot be taken and is left out.
- NumberScanner.IntsFromLine: `isdigit` is taken as the ASCII digits;
  other Unicode digits are not modelled.

## Findings

| source | as written | input that shows it | evidently intended | confidence | as-written member | corrected member |
|---|---|---|---|---|---|---|
| module_2/D/m2_taskD.cpp:157-158 | `Similar` returns the path of any edge whose row ends in 0, whether or not it is a stored word and whether or not the row was cut short | trie holding "ab" and "ac", query "a", budget 0 | return only stored words, as `SimilarOld` does at lines 195-198 | high, not executed | RadixTrie.CompressedTrie.SimilarAnswersUnstored | RadixTrie.CompressedTrie.Similar |
| module_2/D/m2_taskD.cpp:213-214 | `priority` reads `row[label.size()]` where the path can be longer than the query, past the end of the row | trie holding "ab", query "a", budget 1 | read inside the row: a path longer than the query is not a prefix of it | high, not executed | RadixTrie.CompressedTrie.SimilarReadsPastRow | RadixTrie.PriorityGuardedOfRow |
| module_2/B/m2_taskB.hpp:117-127 | deleting a node with two children swaps only the keys, so the left-subtree maximum's key takes the deleted node's value | tree 1 < 2 > 3 with values "a", "b", "c"; delete 2 | move the whole entry, so key 1 keeps "a" | high, not executed | BinaryTrees.DeleteMovesValue | BinaryTrees.RemoveEntryFind |
| module_2/B/m2_taskB_2.py:19 | `insert` walks from the receiver, which a splay may have moved below the top, so it misses keys stored above it | insert 8, then 4, then 4 again | walk from the top of the structure | high, not executed | NodeSplayTrees.StaleReceiverDuplicates | NodeSplayTrees.InsertFromTopFacts |
