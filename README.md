# Huffman compressor core, modelled in Dafny

This project models the core of a small Huffman text compressor:

- its array-backed binary min-heap (`MinPQ`);
- its tree node (`HuffmanNode`);
- the pipeline that goes from a text to a compressed bit stream and back.

The pipeline has five steps:

1. Count the byte frequencies, forcing the entry for byte 0 to 1 so that the tree always holds the symbol the decoder stops at.
2. Build the Huffman tree by heapifying one leaf per present symbol and repeatedly merging the two smallest nodes.
3. Derive a code per symbol from the root-to-leaf paths.
4. Write and parse the frequency header.
5. Run the decode walk, which follows bits down the tree until it reaches the leaf of symbol 0.

The modules follow the source files:

| module | file | models |
|---|---|---|
| `Wrappers` | `wrappers.dfy` | `Option` and `Result` |
| `Huffman` | `huffman.dfy` | the node value, its `==` and its `<` |
| `HeapSpec` | `heap_spec.dfy` | pure functions over the queue's item sequence, one per heap operation, and the heap lemmas |
| `MinPriorityQueue` | `min_pq.dfy` | class `MinPQ`, with the fields `arr`, `capacity` and `numItems` |
| `TreeBuild` | `tree_build.dfy` | `create_huff_tree` |
| `Counting` | `counting.dfy` | the counting loop of `cnt_freq` |
| `Codes` | `codes.dfy` | `create_code`, `create_code_helper` and the concatenation of `encode_text` |
| `Header` | `header.dfy` | `create_header` and `parse_header`, including Python's `str.split` and `int` on the header tokens |
| `Decode` | `decode.dfy` | the decode loop of `huffman_decode` |
| `Pipeline` | `pipeline.dfy` | `huffman_encode` and `huffman_decode` with the files replaced by values |
| `QueueScenarios` | `queue_scenarios.dfy` | the queue usage scenarios, and the insertion order that exposes `shift_up`'s parent formula |
| `TreeScenarios` | `tree_scenarios.dfy` | the tree and the codes built from the counts of the first test file, one queue step at a time |

`MinPQ` keeps a ghost sequence `items`: the queued items in slot order. Each method states the new `items` by a `HeapSpec` function of the old ones. `shift_up` computes the parent of slot `idx` as `(idx-2)//2`, or 0 for slot 1. That is the true parent only for slot 1 and even slots. The model mirrors the formula exactly. So `insert` is proved to permute the contents but not to keep the heap property. `QueueScenarios.ShiftUpCounterexample` gives an insertion order after which `del_min` returns an item that is not the minimum. `heapify`, `shift_down` and `del_min` are proved correct for any strict weak order.

`enlarge` doubles the capacity when the queue is full. `shrink` halves it when the capacity is above 2, the queue is not empty and the capacity is at least four times the item count (min_pq.py:166-187). Starting from the default queue, inserts therefore keep the capacity a power of two (`HeapSpec.InsertKeepsCapacityTight`).

`HuffTree` is `create_huff_tree` written as a function of the frequency list, built from those same queue functions. The tree's shape is therefore the one the source's queue produces, `shift_up` included. `TreeBuild.BuildTree` drives a real `MinPQ` object and is proved equal to it. `TreeScenarios` rebuilds the tree for the counts of the first test file. In its second round, `shift_up` compares the new node with the wrong slot and the queue stops being a heap. The tree and the codes the tests expect still come out.

Where the docstrings and the code differ, the model follows the code:

- `<` on nodes is strict, though its docstring says "<=" (huffman.py:42-56).
- `del_min` and `min` are documented to raise IndexError on an empty queue (min_pq.py:74-75, 90-91). The code only reads `arr[0]`, which raises only for a queue built from `[]`, so the model requires a non-empty queue.

## Model

| member | source | states |
|---|---|---|
| Huffman.NewNode | huffman.py:16-22 | The constructor with its defaults; `NewNodeDefaults` states what they give |
| Huffman.NewNodeDefaults | huffman.py:16-22 | A node built from a frequency alone has no char and no children, so it is a leaf |
| Huffman.Eq | huffman.py:24-28 | `==` with its short-circuit `and` and None for the AttributeError; a `Some(true)` answer implies the nodes are equal |
| Huffman.ChildEq | huffman.py:24-28 | `==` on two child slots; a `Some(true)` answer implies the slots are equal |
| Huffman.EqIsStructural | huffman.py:24-28 | `==` answers True exactly when freq, char, left and right are equal, recursively; False implies the nodes differ (a node compared with a missing child raises, modelled as no answer) |
| Huffman.ChildEqIsStructural | huffman.py:24-28 | Comparing two child slots answers True iff both are None or both are equal nodes; a node against None raises, modelled as no answer |
| Huffman.EqOnLeaves | huffman.py:24-28 | On childless nodes `==` never raises and compares freq and char only |
| Huffman.EqExamples | huffman_tests.py:24-31 | `HuffmanNode(4) == HuffmanNode(4)` and `HuffmanNode(4) != HuffmanNode(1)` |
| Huffman.Less | huffman.py:51-56 | `<`: compare freqs, and on equal freqs the chars; its properties are in the three `Less` lemmas below |
| Huffman.LessIsLexicographic | huffman.py:42-56 | `<` is strict lexicographic order on (freq, ord(char)); nodes with equal keys are not below each other, contrary to the "<=" docstring |
| Huffman.LessIsStrictOrder | huffman.py:51-56 | `<` is irreflexive and transitive |
| TreeBuild.CharNodeLessIsStrictWeakOrder | huffman.py:51-56 | `<` on char-carrying nodes is a strict weak order, so the heap lemmas apply to the builder's queue |
| Huffman.LessIsTrichotomous | huffman.py:51-56 | Of two nodes with different chars exactly one is below the other |
| HeapSpec.ShiftUpParentAgreement | min_pq.py:120-123 | shift_up's parent slot equals the true parent `(idx-1)//2` iff idx is 1 or even; for odd idx >= 3 it is one slot to the left |
| HeapSpec.Swap | min_pq.py:126-127 | The tuple swap exchanges exactly the two slots and keeps the contents as a multiset |
| HeapSpec.ShiftedUp | min_pq.py:114-128 | shift_up keeps the length and the multiset of items |
| HeapSpec.MinChild | min_pq.py:138-157 | A child is chosen iff the left child exists; it is the left child, or the right one when that exists |
| HeapSpec.MinChildIsLeast | min_pq.py:150-157 | No child of the slot is strictly below the chosen child |
| HeapSpec.ShiftedDown | min_pq.py:130-164 | shift_down keeps the length and the multiset, and leaves every slot before idx alone |
| HeapSpec.ShiftedDownRestoresHeap | min_pq.py:130-164 | When the only out-of-order slot is idx, shift_down from idx restores the heap property from k on |
| HeapSpec.HeapifiedFrom | min_pq.py:53-56 | The heapify loop from any start slot keeps the length and the multiset |
| HeapSpec.HeapifiedFromIsHeap | min_pq.py:53-56 | Running the heapify loop down from idx, when the part after idx is a heap, gives a heap |
| HeapSpec.HeapifiedIsHeap | min_pq.py:49-56 | heapify leaves a valid min-heap that is a permutation of its input |
| HeapSpec.AfterDelMin | min_pq.py:78-83 | del_min removes exactly one copy of the root item |
| HeapSpec.AfterInsert | min_pq.py:65-68 | insert adds exactly the new item |
| HeapSpec.HeapRootIsLeast | min_pq.py:86-94 | In a heap no item is strictly below the root |
| HeapSpec.DelMinOfHeap | min_pq.py:70-84 | On a heap, del_min returns an item nothing is below and leaves a heap |
| HeapSpec.EnlargedCapacity | min_pq.py:169-174 | The capacity after `enlarge`: doubled exactly when the queue is full |
| HeapSpec.ShrunkCapacity | min_pq.py:180-187 | The capacity after `shrink`: halved under the 4x rule on a non-empty queue above capacity 2 |
| HeapSpec.EnlargeMakesRoom | min_pq.py:166-174 | After enlarge there is a free slot and the capacity is at most doubled |
| HeapSpec.ShrinkBounds | min_pq.py:176-187 | Shrink halves iff capacity > 2, num_items > 0 and capacity >= 4*num_items; the result holds the items, stays >= 2 from >= 2, and never changes on an empty queue |
| HeapSpec.InsertKeepsCapacityTight | min_pq.py:166-174 | Inserting keeps the capacity a power of two and below twice the item count (or 2) |
| MinPriorityQueue.MinPQ.Empty | min_pq.py:25-28 | `MinPQ()` has capacity 2, no items and `arr == [None, None]` |
| MinPriorityQueue.MinPQ.FromList | min_pq.py:29-33 | `MinPQ(lst)` has capacity = num_items = len(lst) and holds the heapified list |
| MinPriorityQueue.MinPQ.Heapify | min_pq.py:49-56 | The heapify loop leaves the items `Heapified(old items)` |
| MinPriorityQueue.MinPQ.Insert | min_pq.py:58-68 | Items become `AfterInsert(old items, item)`, one more item, capacity as enlarge computes it |
| MinPriorityQueue.MinPQ.DelMin | min_pq.py:70-84 | Returns the old root, items become `AfterDelMin(old items)`, capacity as shrink computes it; on a heap it returns a minimum and keeps a heap |
| MinPriorityQueue.MinPQ.Min | min_pq.py:86-94 | Returns the root, a minimum when the items form a heap |
| MinPriorityQueue.MinPQ.IsEmpty | min_pq.py:96-104 | True iff no item is queued |
| MinPriorityQueue.MinPQ.Size | min_pq.py:106-112 | Returns the number of items |
| MinPriorityQueue.MinPQ.ShiftUp | min_pq.py:114-128 | The swap loop leaves the items `ShiftedUp(old items, idx)`, with the source's parent formula |
| MinPriorityQueue.MinPQ.ShiftDown | min_pq.py:130-164 | The swap loop leaves the items `ShiftedDown(old items, idx)` |
| MinPriorityQueue.MinPQ.ChosenChild | min_pq.py:138-157 | Picks the child `MinChild` names |
| MinPriorityQueue.MinPQ.SwapSlots | min_pq.py:126-127 | Swaps two slots of `arr` and of the items |
| MinPriorityQueue.MinPQ.Enlarge | min_pq.py:166-174 | When full, a fresh array of twice the length holds the old slots followed by None; otherwise nothing changes |
| MinPriorityQueue.MinPQ.Shrink | min_pq.py:176-187 | Under the 4x rule, a fresh array of half the length holds the first slots; otherwise nothing changes |
| TreeBuild.CollectLeaves | huffman_coding.py:45-51 | The leaf loop returns the leaf list of the positive frequencies |
| TreeBuild.LeafListLeaves | huffman_coding.py:46-51 | Every listed leaf is `HuffmanNode(freq, chr(s))` for a positive `freqs[s]` |
| TreeBuild.LeafListAscending | huffman_coding.py:46-51 | The leaves are listed in strictly ascending symbol order |
| TreeBuild.LeafListComplete | huffman_coding.py:46-51 | Every positive-frequency symbol has its leaf in the list |
| TreeBuild.LeafListEmpty | huffman_coding.py:53-56 | The list is empty iff no frequency is positive |
| TreeBuild.LeavesFormForest | huffman_coding.py:45-53 | The leaves form a forest: each once, well formed, faithful to the frequencies, disjoint, covering every positive symbol |
| TreeBuild.Merge | huffman_coding.py:63-68 | The merged node: freq sum, both children, and a char that is one of the two chars and no larger than either |
| TreeBuild.SymbolIsSmallest | huffman_coding.py:64-68 | A built node's char is the smallest symbol in its subtree |
| TreeBuild.ForestCharsDistinct | huffman_coding.py:58-69 | Queued nodes have pairwise distinct chars, so `<` orders them totally |
| TreeBuild.MergedNodeOk | huffman_coding.py:63-68 | The merged node is well formed (sum of freqs, min of chars, both children) and holds exactly the symbols of its two children |
| TreeBuild.MergeKeepsNodes | huffman_coding.py:58-69 | After replacing two queued nodes by their merge, every queued node is still well formed and faithful to the frequencies |
| TreeBuild.MergeKeepsDisjoint | huffman_coding.py:58-69 | After the merge, no symbol lies under two queued nodes |
| TreeBuild.MergeKeepsCover | huffman_coding.py:58-69 | After the merge, every positive symbol still lies under some queued node |
| TreeBuild.MergeKeepsForest | huffman_coding.py:58-69 | Replacing two queued nodes by their merge keeps the forest |
| TreeBuild.MergeStepKeepsForest | huffman_coding.py:58-69 | One round of the while loop keeps the forest |
| TreeBuild.MergeStep | huffman_coding.py:58-69 | One round of the loop leaves one node fewer in the queue |
| TreeBuild.LastNodeIsTree | huffman_coding.py:71 | When one node remains, it is a well-formed tree holding every positive symbol with its frequency |
| TreeBuild.MergeLoopBuildsTree | huffman_coding.py:58-71 | The merge loop turns a forest into one well-formed tree holding every positive symbol with its frequency |
| TreeBuild.FreqIsLeafTotal | huffman_coding.py:67-68 | A well-formed node's freq is the sum of its leaves' freqs |
| TreeBuild.TotalsAgree | huffman_coding.py:46-51 | When each symbol's leaf freq matches the table, the leaf total is the sum of the positive entries |
| TreeBuild.HuffTree | huffman_coding.py:36-71 | `create_huff_tree` as a function: heapify the leaves, then run the merge loop; `HuffTreeFacts` and `BuildTree` state its properties |
| TreeBuild.HuffTreeFacts | huffman_coding.py:36-71 | None iff no entry is positive; otherwise a well-formed tree whose leaves are exactly the positive symbols with their frequencies and whose root freq is their sum |
| TreeBuild.MergeTwo | huffman_coding.py:58-69 | del_min twice and insert of the merge make the items `MergeStep(old items)` |
| TreeBuild.MergeAll | huffman_coding.py:58-71 | The while loop and the final del_min return `MergeLoop(old items)` |
| TreeBuild.BuildTree | huffman_coding.py:36-71 | create_huff_tree over a MinPQ returns `HuffTree(freqs)`, with all the facts of HuffTreeFacts |
| Counting.Frequencies | huffman_coding.py:12-33 | The list `cnt_freq` returns, in terms of the text's multiset of bytes; `CountFreq` is proved to compute it |
| Counting.CountFreq | huffman_coding.py:21-33 | 256 entries; entry i is the number of occurrences of i for i != 0; entry 0 is 1 |
| Codes.Assign | huffman_coding.py:100-106 | `create_code_helper` as a function from the old table to the new one; keeps 256 entries |
| Codes.AssignWritesPaths | huffman_coding.py:89-106 | The helper writes `path + PathTo(n, s)` into each symbol under n and leaves every other entry alone |
| Codes.CreateCodeHelper | huffman_coding.py:89-106 | The recursive helper updates `out_list` in place to `Assign(node, old out_list, path)` |
| Codes.CreateCode | huffman_coding.py:73-86 | Returns `CodeTable(root)`: a present symbol's code is its root-to-leaf path, '' for absent symbols |
| Codes.PathToFindsSymbols | huffman_coding.py:100-106 | A symbol has a path iff it is a leaf symbol of the tree |
| Codes.CodeTableIsPaths | huffman_coding.py:82-106 | Entry s of the codes is s's path ('0' left, '1' right) when s is in the tree, '' otherwise |
| Codes.SingleLeafCode | huffman_coding.py:105-106 | A single-leaf tree gives its symbol the empty code |
| Codes.PathsBelowInternalNonEmpty | huffman_coding.py:100-104 | Below an internal root every path is non-empty |
| Codes.PathsPrefixFree | huffman_coding.py:100-106 | No symbol's path is a prefix of another's |
| Codes.CodesPrefixFree | huffman_coding.py:100-106 | With at least two leaves, present symbols have non-empty codes and no code is a prefix of another |
| Codes.WellFormedIsCodable | huffman_coding.py:100-106 | Every tree create_huff_tree builds can be coded without error, and its leaves have distinct symbols |
| Codes.Encoded | huffman_coding.py:166-168 | The concatenation of the codes of the text's bytes, in order; the lemmas below split it and give its length |
| Codes.EncodedCons | huffman_coding.py:166-168 | The encoding of `c` followed by a text is `codes[c]` followed by the text's encoding |
| Codes.EncodedLength | huffman_coding.py:166-168 | The encoding's length is the sum of the characters' code lengths |
| Codes.CodeLengthsSnoc | huffman_coding.py:166-168 | Appending a character adds its code's length |
| Codes.EncodeText | huffman_coding.py:156-172 | The loop returns the concatenation of the characters' codes in order |
| Header.HeaderOf | huffman_coding.py:148-154 | The string `create_header` returns; `CreateHeader` is proved to compute it and `HeaderRoundTrip` inverts it |
| Header.Split | huffman_coding.py:225 | Python's `str.split()` with no argument; the `Split` lemmas below give its tokens |
| Header.ParseInt | huffman_coding.py:231 | Python's `int()` on a token: optional sign, ASCII digits with single underscores, None for a ValueError; `ParseNatToString` inverts the numeral writer |
| Header.NatToStringDigits | huffman_coding.py:151 | A number is written as a non-empty string of decimal digits |
| Header.NatToStringValue | huffman_coding.py:151 | The digits written denote the number |
| Header.ParseNatToString | huffman_coding.py:231 | `int` reads back every number the header writes |
| Header.SplitToken | huffman_coding.py:225 | `split` carries a run without whitespace into the current token |
| Header.SplitAtSpace | huffman_coding.py:225 | `split` separates at a space |
| Header.TokensAreTokens | huffman_coding.py:149-151 | The header holds an even number of non-empty, whitespace-free tokens |
| Header.SplitSpaced | huffman_coding.py:225 | Splitting tokens joined by single spaces gives the tokens back |
| Header.SplitHeader | huffman_coding.py:141-154 | Splitting a header gives the "i f" token pair of each positive entry, in ascending i |
| Header.CreateHeader | huffman_coding.py:141-154 | The loop writes "i f " per positive entry, then drops the trailing space: `HeaderOf(freqs)` |
| Header.ParseHeader | huffman_coding.py:217-233 | The parse loop returns `ParseHeaderSpec(header)`, IndexError and ValueError included |
| Header.Fill | huffman_coding.py:228-231 | The pair loop of `parse_header` as a function over the tokens, with IndexError and ValueError as errors; a success keeps 256 entries |
| Header.FillNumeralPair | huffman_coding.py:229-231 | A pair of written numerals sets that one entry |
| Header.Slot | huffman_coding.py:231 | A symbol in -256..255 names the entry congruent to it modulo 256, so a negative symbol counts from the end of the list |
| Header.FillTokensFrom | huffman_coding.py:228-231 | Parsing the pairs written from symbol k on sets exactly the positive entries from k on |
| Header.HeaderRoundTrip | huffman_coding.py:217-233 | `parse_header(create_header(f)) == f` for every 256-entry non-negative f |
| Header.FillOkIff | huffman_coding.py:228-231 | Parsing succeeds iff the token count is even, every token is an integer and every symbol is in -256..255 |
| Header.GoodPairsFront | huffman_coding.py:228-231 | A token list is well formed iff its first pair is and the rest is |
| Header.OddTokenCountFails | huffman_coding.py:228-230 | An odd token count never parses |
| Header.LastWriteFront | huffman_coding.py:228-231 | The last pair naming a symbol is in the rest of the list, or else it is the first pair |
| Header.FillLastWins | huffman_coding.py:228-231 | Each entry holds the value of the last pair naming it, or its old value |
| Header.ParseHeaderLastWins | huffman_coding.py:217-233 | For a well-formed header each entry is the value of the last pair naming it, else 0 |
| Header.NegativeSymbolWraps | huffman_coding.py:231 | "-1 5" sets entry 255, by Python's negative indexing |
| Header.SplitThreeExample | huffman_coding.py:225 | "0 1 97" splits into three tokens |
| Header.MissingFrequencyExample | huffman_coding.py:230 | "0 1 97" raises IndexError |
| Header.SplitOutOfRangeExample | huffman_coding.py:225 | "256 1" splits into two tokens |
| Header.SymbolOutOfRangeExample | huffman_coding.py:231 | "256 1" raises IndexError |
| Header.NonIntegerExample | huffman_coding.py:231 | "97 x" raises ValueError |
| Header.SplitRepeatExample | huffman_coding.py:225 | "97 1 97 2" splits into four tokens |
| Header.RepeatFirstPair | huffman_coding.py:228-231 | The first pair "97 1" sets entry 97 to 1 |
| Header.RepeatSecondPair | huffman_coding.py:228-231 | The second pair "97 2" sets entry 97 to 2 |
| Header.RepeatedSymbolExample | huffman_coding.py:228-231 | For "97 1 97 2" the last value wins: entry 97 is 2 |
| Decode.Walk | huffman_coding.py:199-211 | The decode loop as a function of the remaining bits and the current node, with NoNode, NoSymbol and OutOfBits as errors; the `Walk` lemmas below state what it computes |
| Decode.HuffmanDecode | huffman_coding.py:197-211 | The decode loop returns `DecodeBits(tree, bits)`, with its three failures |
| Decode.TakeUntilZeroIsPrefix | huffman_coding.py:201-202 | What decoding returns is the longest 0-free prefix of the text, so all of a text without byte 0 |
| Decode.WalkPath | huffman_coding.py:200-211 | Following a leaf's code from the root stops at symbol 0, or emits the symbol and resumes at the root |
| Decode.WalkSentinel | huffman_coding.py:200-202 | The code of 0 leads to the stop |
| Decode.WalkFirstCode | huffman_coding.py:204-211 | The code of the first symbol emits it, or stops if it is 0 |
| Decode.WalkOneSymbol | huffman_coding.py:204-211 | One emitted symbol followed by the rest's decoding decodes the whole |
| Decode.WalkEncoded | huffman_coding.py:200-211 | Decoding the codes of a text followed by the code of 0, from an internal root, gives the text up to its first 0 |
| Decode.DecodeRoundTrip | huffman_coding.py:200-211 | For every well-formed tree holding 0 and every text over its symbols, decoding the encoded text plus `codes[0]` gives the text up to its first 0 |
| Decode.LeafRootRoundTrip | huffman_coding.py:200-202 | When the root is itself a leaf it is the leaf of 0, so decoding gives nothing, as does the text up to its first 0 |
| Decode.LeafRootStops | huffman_coding.py:201-202 | A tree that is the single leaf 0 decodes any bits to nothing |
| Pipeline.HuffmanEncode | huffman_coding.py:118-139 | The header is `HeaderOf(counts)`; the uncompressed output is the header, " ", "\n" and the codes; only the compressed bits get `codes[0]` appended |
| Pipeline.HuffmanDecodeStream | huffman_coding.py:189-211 | Parsing the header, rebuilding the tree and running the loop gives `DecodeSpec(header, bits)` |
| Pipeline.EncodeDecodeRoundTrip | huffman_coding.py:118-139 | Decoding the header and compressed bits the encoder produces gives the text up to its first byte 0 |
| QueueScenarios.HeapifyExample | huffman_tests.py:161-167 | `MinPQ([5, 4, 3, 2, 1])` holds `[1, 2, 3, 5, 4]` |
| QueueScenarios.ShiftUpCounterexample | min_pq.py:120-128 | Inserting 1, 5, 2, 3, 7, 8, 9 leaves 3 below its parent 5; two del_mins later the root is 5 while 3 is still queued |
| QueueScenarios.UseCaseOne | huffman_tests.py:145-159 | Inserting 5, 3, 6 into `MinPQ()` gives `[3, 5, 6]` at capacity 2 then 4; the del_mins leave `[5, 6]`, `[6]` and `[]`, so they return 3, 5, 6; capacity ends at 2 |
| QueueScenarios.UseCaseTwo | huffman_tests.py:161-177 | `MinPQ([5, 4, 3, 2, 1])` holds `[1, 2, 3, 5, 4]`; the del_mins leave `[2, 4, 3, 5]`, `[3, 4, 5]`, `[4, 5]`, `[5]` and `[]`, so they return 1, 2, 3, 4, 5; emptying the capacity-5 queue halves the capacity once, to 2 |
| QueueScenarios.FullFunctionality | huffman_tests.py:182-197 | Inserting 6, 7, 2 gives the items `[2, 7, 6]` at capacity 4 (the `None` slot of `arr` follows from `Valid()`); the del_mins leave `[6, 7]`, `[7]` and `[]`, so `MinPQ.DelMin`'s `old(items)[0]` returns 2, 6, 7 |
| TreeScenarios.File1Leaves | huffman_coding.py:46-51 | The leaf loop over the first test file's counts lists the leaves of chr(0), 'a', 'b', 'c', 'd', 'f' in symbol order |
| TreeScenarios.File1Heap | min_pq.py:49-56 | Heapifying those leaves swaps 'b' and 'f' and changes nothing else |
| TreeScenarios.RoundOne | huffman_coding.py:58-69 | The first merge round takes chr(0) and 'a' and inserts their merge of freq 3 |
| TreeScenarios.RoundTwo | huffman_coding.py:58-69 | The second round takes 'f' and the freq-3 node and inserts their merge of freq 5 at slot 3 |
| TreeScenarios.RoundTwoBreaksHeap | min_pq.py:120-128 | At slot 3, `shift_up` compares with slot 0 instead of the true parent slot 1, whose 'c' is larger, so the queue is no longer a heap |
| TreeScenarios.RoundThree | huffman_coding.py:58-69 | The third round merges 'b' with the freq-5 node |
| TreeScenarios.RoundFour | huffman_coding.py:58-69 | The fourth round merges 'c' with the freq-9 node |
| TreeScenarios.RoundFive | huffman_coding.py:58-69 | The last round merges 'd' with the freq-17 node into the root |
| TreeScenarios.File1Tree | huffman_tests.py:51-61 | The tree has root freq 33, left child the leaf 'd' of freq 16, right child of freq 17 and char chr(0) |
| TreeScenarios.File1Codable | huffman_coding.py:89-106 | That tree can be coded; its leaves are chr(0), 'a', 'b', 'c', 'd', 'f', each once |
| TreeScenarios.File1Codes | huffman_tests.py:63-72 | The codes are 'd'="0", 'c'="10", 'b'="110", 'f'="1110", chr(0)="11110", 'a'="11111" |

## Left out

- File I/O is not modelled. That covers the `open`, the line iteration and the `close` in `cnt_freq` and `encode_text`, the writes in `huffman_encode`, and the FileNotFoundError re-raise in `huffman_decode` (huffman_coding.py:183-187). The text is a `seq` of byte values and the outputs are returned values.
- Characters of code point 256 or more are not modelled. `cnt_freq` raises IndexError on them; here the text is bytes (`Counting.Byte`).
- `HuffmanBitWriter` and `HuffmanBitReader` are not part of this model. The compressed stream is the sequence of bits `write_code` is given and `read_bit` yields, with `Decode.Bits` mapping '0'/'1' to false/true. Byte packing and padding are not modelled. A stream that runs out of bits is the `OutOfBits` failure.
- The header extraction `header[2:]` / `[:-3]` in `huffman_decode` (huffman_coding.py:191-193) is not modelled, because it depends on the unseen `read_str` format. `Pipeline.HuffmanDecodeStream` takes the header text itself.
- The compressed file name (huffman_coding.py:133) is not modelled.
- The unused `create_code` call in `huffman_decode` (huffman_coding.py:196) is not modelled.
- Both `__repr__` methods are left out, since they only produce debug text (huffman.py:30-40, min_pq.py:37-47).
- The tests that compare output files with fixture files are left out (huffman_tests.py:102-140). So are the expectations for the second and third test files and for the header "0 1 97 3 98 4 99 2" (huffman_tests.py:74-100). The fixture files are not part of this model. The first test file's expectations (huffman_tests.py:45-72) are in `TreeScenarios`, on counts rebuilt from what those tests state. `test_create_huff_tree` is defined twice (huffman_tests.py:51 and 120), and only the second one, `create_huff_tree([]) is None`, would run. It is covered by `TreeBuild.HuffTreeFacts`.
- MinPriorityQueue.MinPQ.Insert: does not promise to keep the heap property, because `shift_up`'s parent formula breaks it (see `QueueScenarios.ShiftUpCounterexample`). It requires capacity > 0, because a queue built from an empty list has capacity 0 and `insert` would then fail on the slot write.
- MinPriorityQueue.MinPQ.DelMin: requires a non-empty queue. On an empty default queue the source returns None, writes `arr[-1]` and drops the count to -1. On a queue built from `[]` it raises IndexError. Neither path is modelled.
- MinPriorityQueue.MinPQ.Min: requires a non-empty queue. `min()` returns `arr[0]`. That is None on an empty default queue and an IndexError on a queue built from `[]`. Neither path is modelled.
- MinPriorityQueue.MinPQ.FromList: copies the list into a fresh array. In the source the queue adopts the caller's list object, so later changes through either name are shared. That aliasing is not modelled.
- Huffman.Less: requires chars on both nodes when the frequencies are equal. Otherwise `ord(None)` raises TypeError. Every node the tree builder makes has a char (`Huffman.CharNode`), so the builder never hits this.
- Codes.CreateCodeHelper: requires every leaf to carry a symbol below 256 and every internal node to have both children. Other trees crash `ord`, the list index or the `.left` access. Every tree the builder makes qualifies (`Codes.WellFormedIsCodable`).
- Codes.CreateCode: requires `Codable(rootNode)` for the same reason as `CreateCodeHelper`, whose call would crash on other trees. Every tree the builder makes qualifies.
- `int()` on the header tokens accepts ASCII digits, an optional sign and single underscores between digits. Other Unicode decimal digits, which Python also accepts, are not modelled.
- The usage scenarios in `QueueScenarios` are stated on the `HeapSpec` functions that the `MinPQ` methods are proved against, not on `MinPQ` objects. The `MinPQ` methods' ensures give their new items and capacity as exactly these `HeapSpec` functions of the old state, so the scenarios hold for the objects too.
