# LZ and BPE tokenizers, modelled in Dafny

This project models the core of a small tokenizer library.

**LZ coder.** The library's `LZCoder` (C++ in `src/lz.cpp`/`src/lz.hpp`, Python in `src/lz.py`) is an LZ78-style coder.
- A trie maps every learned codeword, a string of input symbols, to an output id.
- Encoding repeatedly emits the id of the longest codeword that starts the remaining input.
- With learning on, it also binds that codeword extended by one symbol to the smallest free id.
- `update_vocab` registers new single-symbol codewords.
- Decoding concatenates the codewords of the ids.

**Hierarchical coder.** `HierarchicalLZCoder` keeps one `LZCoder` per context. The context is the id emitted last; the empty token is the root context. When a context must learn a new codeword, it takes the free id that the most other contexts would emit for the same input.

**BPE.** `src/bpe.py` holds byte-pair encoding.
- `get_stats` counts adjacent pairs and `merge_pairs` replaces a pair by a new id.
- `BPE.learn` seeds one id per alphabet symbol, then merges the most frequent pair until no pair repeats or the merge budget is spent.
- `encode` replays the merges; `decode` expands every id.

**Contextual tokenizer.** Also in `src/bpe.py`.
- `get_context_stats` collects, for every pair of symbols X, Y, the strings that follow an X up to a Y with no X in between.
- `learn_contextual_tokenizer` keeps the most frequent such string per (X, Y).
- `contextual_encode` walks that table from context 0; `contextual_decode` looks up consecutive id pairs.

**How the model is built.** The code that updates state in place is modelled as imperative Dafny.
- Classes `LZCoders.LZCoder`, `HierarchicalCoders.HierarchicalLZCoder` and `Bpe.BPE` have the source's fields.
- Their methods and loops are proved against specification functions on a value of the whole state (`LZState.CoderState`, `HierarchicalState.HCoderState`, `Bpe.BpeState`).
- The source's counting and merging loops (`get_stats`, `merge_pairs`, `get_context_stats`, `learn_contextual_tokenizer`, `contextual_encode`) are methods with loop invariants, proved against functions.
- The lemmas about those functions carry the properties: the coders' invariants, round trips, bounds, and the id choices.

The C++ is followed where it differs from the Python; the differences in behaviour are listed under "## Left out". Errors the source raises as exceptions are `Failure` values of `Errors.Error`, one constructor per distinct condition.

## Model

| member | source | states |
|---|---|---|
| Tries.EmptyTrie | src/lz.cpp:87 | a new trie is only the root node, is prefix-closed, and binds no key |
| Tries.Inserted | src/lz.cpp:120-130 | inserting a key keeps the trie prefix-closed: every prefix of a node is a node |
| Tries.InsertedMeaning | src/lz.cpp:120-130 | after `insert(key, value)` the key is terminal with `value`; every other key keeps its binding or its absence; no node is lost |
| Tries.InsertedSize | src/lz.cpp:189-201 | `size()` grows by one exactly when the inserted key was not yet terminal |
| Tries.Insert | src/lz.cpp:120-130 | the node-by-node walk builds exactly the trie `Inserted` describes |
| Tries.Get | src/lz.cpp:135-148 | in a prefix-closed trie `get` succeeds iff the key is terminal and returns its value; otherwise it fails with a key error |
| Tries.Lookup | src/lz.cpp:135-148 | the walking loop returns what `Get` specifies |
| Tries.Contains | src/lz.cpp:153-160 | `contains` holds exactly when the key is terminal |
| Tries.LongestPrefix | src/lz.cpp:166-184 | the result is a prefix of the sequence, every step of it is a node, the next symbol leaves the trie, and the value is that of the deepest terminal node on the way (EMPTY_TOKEN when there is none) |
| Tries.FindLongestPrefix | src/lz.cpp:166-184 | the walking loop returns what `LongestPrefix` specifies |
| Tries.LongestPrefixIsCodeword | src/lz.cpp:166-184 | when every node is terminal, the prefix found is itself bound to the returned value (the empty prefix to EMPTY_TOKEN), and no terminal key that starts the sequence is longer |
| VocabSets.IdsBetween | src/lz.cpp:224-227 | the id set holds exactly the integers in the half-open range |
| VocabSets.IdRange | src/lz.cpp:224-227 | the free ids of a new coder are exactly 0 to n-1, and never EMPTY_TOKEN |
| VocabSets.IdRangeSize | src/lz.cpp:224-227 | there are exactly n of them |
| VocabSets.LeastElement | src/lz.cpp:231 | every non-empty id set has an element no larger than all others |
| VocabSets.Min | src/lz.cpp:231 | `*unused_tokens.begin()` is an element of the set and no larger than any other |
| LZState.CapacityIffUnused | src/lz.cpp:336-352 | under the coder invariant, `token_map.size() < vocab_size` holds exactly when some id is free, so the two capacity tests of the source agree |
| LZState.AddToken | src/lz.cpp:358-362 | binding an id to a codeword updates both tables and removes that id from the free ids, and changes nothing else |
| LZState.AddTokenKeepsInv | src/lz.cpp:358-362 | adding a new codeword one symbol longer than a known one, under a free id, keeps the coder invariant; the invariant includes the equal table sizes that src/lz.py:100 asserts. No earlier binding changes, and the alphabet stays known |
| LZState.AddTokenKeepsSizes | src/lz.py:96-100 | with a fresh id and a fresh codeword, the two tables stay the same size |
| LZState.Propose | src/lz.cpp:336-352 | the proposed prefix starts the input and is at most one symbol longer than the longest known codeword |
| LZState.ProposeMeaning | src/lz.cpp:336-352 | under the invariant, the match is the longest codeword that starts the input. A known proposal is that match with its id (empty iff EMPTY_TOKEN); it is shorter than the input while learning only when no id is free. A new proposal happens only when learning with a free id: the match plus the next symbol, not yet a codeword, under the smallest free id |
| LZState.EncodeStep | src/lz.cpp:288-305 | a successful step consumes a prefix of the input, and without learning the coder is unchanged |
| LZState.EncodeStepMeaning | src/lz.cpp:288-305 | under the invariant a step always succeeds, keeps the invariant and every earlier binding, and binds the emitted id to the consumed prefix (empty iff EMPTY_TOKEN); a non-empty prefix gets an id in [0, output_vocab_size) |
| LZState.DecodeIds | src/lz.cpp:311-330 | decoding fails exactly when some id has no codeword, and then with "token not found" |
| LZState.DecodeIdsMonotone | src/lz.cpp:311-330 | decoding with tables that only gained bindings gives the same result |
| LZState.EncodeKeepsInv | src/lz.cpp:264-282 | `encode` keeps the coder invariant, never rebinds an id, and keeps the alphabet known |
| LZState.EncodeRoundTrip | src/lz.cpp:264-282 | under the invariant a successful `encode` decodes, with the tables it leaves, back to its input |
| LZState.EncodeWithoutLearningIsPure | src/lz.cpp:264-282 | `encode` with learning off leaves the coder unchanged |
| LZState.EncodeOverKnownSymbolsSucceeds | src/lz.cpp:264-282 | when every input symbol is a single-symbol codeword, `encode` succeeds, with or without learning |
| LZState.EncodeIdsInRange | src/lz.cpp:264-282 | every emitted id lies in [0, output_vocab_size) |
| LZState.FullProposeIgnoresLearning | src/lz.cpp:336-352 | with no free id, a step with learning is the step without |
| LZState.FullCoderIgnoresLearning | src/lz.cpp:264-282 | with no free id, encoding with learning changes nothing and gives the same result as encoding without |
| LZState.FullCoderRejectsUnknownSymbol | src/lz.cpp:264-282 | with no free id, an input that starts with a symbol that is not a codeword fails with "the output dictionary is full" |
| LZState.Fresh | src/lz.cpp:214-216 | a coder starts with only the empty codeword, bound to EMPTY_TOKEN in both tables |
| LZState.Unregistered | src/lz.cpp:210-227 | before registration the free ids are exactly 0 to n-1, the bound is n+1, and the alphabet is the one given |
| LZState.NewCoder | src/lz.cpp:210-238 | construction fails, with the size error, exactly when the bound is positive and the alphabet is larger than it; otherwise the coder keeps the alphabet |
| LZState.RegisterAllInv | src/lz.cpp:229-233 | registering the alphabet symbol by symbol keeps the coder invariant |
| LZState.RegisterAllRanks | src/lz.cpp:229-233 | registering in ascending symbol order with the smallest free id binds every alphabet symbol to its rank in the alphabet |
| LZState.RegisterAllFree | src/lz.cpp:229-233 | after registration the free ids are exactly those from the alphabet's size up to n-1 |
| LZState.NewCoderValid | src/lz.cpp:210-238 | a coder built with a positive bound satisfies the invariant, knows every alphabet symbol, and has `vocab_size` n+1 |
| LZState.NewCoderIds | src/lz.cpp:210-238 | a new coder binds each alphabet symbol to its rank, leaves the remaining ids free, and holds no other codeword than the empty one and those singletons |
| LZState.UnboundedEncodeEmitsEmpty | src/lz.cpp:210-238 | with no positive bound no id is ever free, so `encode` emits EMPTY_TOKEN once per symbol, which decodes to nothing |
| LZState.SingletonCoderEncodes | src/lz.cpp:264-282 | a full coder whose codewords are single symbols encodes an input over them symbol by symbol, emitting each symbol's id and changing nothing |
| LZState.FullAlphabetEncodesRanks | src/lz.cpp:210-282 | a coder built on exactly n symbols encodes any input over them as the ranks of its symbols, and learns nothing |
| LZState.LearnsFreshSymbol | src/lz.cpp:288-305 | with learning and a free id, an input that starts with an unknown symbol binds that symbol alone to the smallest free id, emits that id, and goes on from the next symbol |
| LZState.Registered | src/lz.cpp:250-252 | registering a symbol binds its single-symbol codeword to the smallest free id and adds it to the alphabet |
| LZState.RegisterFreshSymbol | src/lz.cpp:244-258 | registering a symbol that is not yet a codeword keeps the invariant, and the overflow test fires exactly when no id is left free |
| LZState.RegisterSymbolSpec | src/lz.cpp:244-258 | one turn of `update_vocab`, with the corrected guard, keeps the invariant and rebinds no id; a failure leaves no free id and is either "no unused tokens" or the overflow error |
| LZState.UpdateVocabSpec | src/lz.cpp:244-258 | the corrected `update_vocab` keeps the invariant and rebinds no id; a failure leaves no free id and is one of those two errors |
| LZState.UpdateVocabKnown | src/lz.cpp:244-258 | every alphabet symbol stays a single-symbol codeword |
| LZState.UpdateVocabRecords | src/lz.cpp:244-258 | the alphabet only grows, and after success it holds every symbol of the input |
| LZState.UpdateThenEncodeSucceeds | src/lz.cpp:244-258 | after a successful `update_vocab`, encoding the same input without learning succeeds |
| LZState.UpdateVocabKeepsRoundTrip | src/lz.cpp:244-258 | after the corrected `update_vocab`, every later `encode` still decodes to its input |
| LZCoders.LZCoder.constructor | src/lz.cpp:210-238 | the new object's fields are the coder `NewCoder` specifies |
| LZCoders.LZCoder.New | src/lz.cpp:218-222 | construction fails with the size error exactly when `NewCoder` does, and otherwise returns a fresh coder in that state |
| LZCoders.LZCoder.FreeIds | src/lz.cpp:224-227 | the loop frees exactly the ids 0 to n-1 |
| LZCoders.LZCoder.RegisterAlphabet | src/lz.cpp:229-233 | the loop registers the alphabet as `RegisterAll` specifies |
| LZCoders.LZCoder.AddNewToken | src/lz.cpp:358-362 | the fields are updated as `AddToken` specifies |
| LZCoders.LZCoder.ProposeNextToken | src/lz.cpp:336-352 | returns the proposal `Propose` specifies |
| LZCoders.LZCoder.EncodeOneToken | src/lz.cpp:288-305 | result and new fields are those of `EncodeStep` |
| LZCoders.LZCoder.Encode | src/lz.cpp:264-282 | the loop computes `EncodeFrom`; it keeps the invariant, rebinds no id, and a success decodes with the new tables to the input |
| LZCoders.LZCoder.EncodeSteps | src/lz.cpp:268-279 | the step-by-step loop computes `EncodeFrom` |
| LZCoders.LZCoder.DecodeOneToken | src/lz.cpp:324-330 | returns the id's codeword, or "token not found" |
| LZCoders.LZCoder.Decode | src/lz.cpp:311-318 | the loop computes `DecodeIds` |
| LZCoders.LZCoder.UpdateVocab | src/lz.cpp:244-258 | the loop computes the corrected `update_vocab`, keeps the invariant, rebinds no id and keeps the alphabet known |
| LZCoders.LZCoder.RegisterSymbol | src/lz.cpp:246-256 | one turn of the loop, as the corrected `RegisterSymbol` specifies |
| LZFindings.UpdateVocabAsWrittenBreaksRoundTrip | src/lz.cpp:244-258 | with `update_vocab` as written, this run breaks the round trip: a coder with bound 2 learns `[5]` as id 0; `update_vocab([5])` then rebinds `[5]` to id 1; encoding `[5, 5]` emits `[1]`, which decodes to `[5]` |
| HierarchicalState.HNew | src/lz.cpp:372-381 | construction fails, with the size error, exactly when the alphabet is non-empty and larger than a non-negative bound. A negative bound, compared as a `size_t`, is never exceeded. Otherwise only the root context exists, with the alphabet |
| HierarchicalState.HNewValid | src/lz.cpp:372-381 | with a positive bound the new coder satisfies the hierarchical invariant: the root exists, and every context's coder keeps the `LZCoder` invariant with the common bound |
| HierarchicalState.HUpdateVocab | src/lz.cpp:387-389 | only the root coder is updated, by the corrected `update_vocab`; the contexts and the bound stay as they were |
| HierarchicalState.HUpdateVocabSpec | src/lz.cpp:387-389 | the corrected root `update_vocab` keeps the hierarchical invariant |
| HierarchicalState.HUpdateVocabExtends | src/lz.cpp:387-389 | the corrected root `update_vocab` rebinds no id in any context |
| HierarchicalState.TallyFromCounts | src/lz.cpp:453-464 | after the counting loop, each id's count is its start count plus the number of other contexts whose coder would emit that already-bound id for this input |
| HierarchicalState.ArbitrateFromMeaning | src/lz.cpp:466-474 | the selection loop returns a free id with the highest count; among ties it returns the smallest, and with no positive count the proposed id |
| HierarchicalState.ChooseMeaning | src/lz.cpp:446-474 | the new id is free in this context and no free id is recommended by more other contexts; among the most recommended it is the smallest, and with no recommendation it is the smallest free id |
| HierarchicalState.ChooseIsFree | src/lz.cpp:446-474 | the chosen id is free in this context |
| HierarchicalState.WithContext | src/lz.cpp:427-433 | a missing context gets a coder; the other contexts and the bound are kept |
| HierarchicalState.HStepRegistered | src/lz.cpp:435-440 | a proposal already known in its context is emitted as is, and the step keeps the invariant |
| HierarchicalState.HStepNewToken | src/lz.cpp:442-477 | a new proposal is bound under the chosen id, which was not bound before, and the step keeps the invariant |
| HierarchicalState.HStepMeaning | src/lz.cpp:422-478 | under the invariant a step fails exactly when the context is missing and learning is off, and then with "context not in coders" and no change. Otherwise it keeps the invariant and the root alphabet, rebinds no id, and binds the emitted id in that context to the consumed prefix (empty iff EMPTY_TOKEN; a non-empty prefix gets an id below the bound) |
| HierarchicalState.HStepPrefix | src/lz.cpp:422-478 | a successful step consumes exactly the prefix its context's coder proposes |
| HierarchicalState.HDecodeFrom | src/lz.cpp:484-497 | decoding fails only for a missing context or an unknown id |
| HierarchicalState.HDecodeMonotone | src/lz.cpp:484-497 | decoding with coders that only gained bindings gives the same result |
| HierarchicalState.HEncodeKeepsInv | src/lz.cpp:395-408 | encoding keeps the hierarchical invariant and rebinds no id in any context |
| HierarchicalState.HEncodeRoundTrip | src/lz.cpp:395-408 | a successful encoding decodes, from the same context with the final coders, back to its input |
| HierarchicalState.HStuckIsFixpoint | src/lz.cpp:400-405 | a root step that consumes nothing emits EMPTY_TOKEN and changes nothing, so the source's loop would repeat it forever |
| HierarchicalState.HRootStepProgress | src/lz.cpp:422-440 | at the root, an input that starts with an alphabet symbol is never consumed by an empty step |
| HierarchicalState.HEncodeOverAlphabetSucceeds | src/lz.cpp:395-408 | with learning on, encoding any input over the root alphabet succeeds from any context |
| HierarchicalCoders.Arbitrate | src/lz.cpp:466-474 | the selection loop computes `ArbitrateFrom` over all counted ids |
| HierarchicalCoders.HierarchicalLZCoder.constructor | src/lz.cpp:372-381 | for every input that passes the size check (negative bounds included), the new object's fields are the coder `HNew` specifies; the refused inputs are the error result of `HierarchicalLZCoder.New` |
| HierarchicalCoders.HierarchicalLZCoder.New | src/lz.cpp:375-377 | construction fails with the size error exactly when `HNew` does (a non-empty alphabet larger than a non-negative bound), and otherwise returns a fresh coder in that state |
| HierarchicalCoders.HierarchicalLZCoder.UpdateVocab | src/lz.cpp:387-389 | the fields are updated as `HUpdateVocab` specifies (the corrected root update), keeping the invariant and every binding |
| HierarchicalCoders.HierarchicalLZCoder.Tally | src/lz.cpp:453-464 | the counting loop over the contexts computes `TallyFrom` from a zero count for the proposed id |
| HierarchicalCoders.HierarchicalLZCoder.EncodeOneToken | src/lz.cpp:422-478 | result and new fields are those of `HStep` |
| HierarchicalCoders.HierarchicalLZCoder.EncodeOneTokenAtRoot | src/lz.cpp:414-416 | the overload with no context is the step in the root context |
| HierarchicalCoders.HierarchicalLZCoder.Encode | src/lz.cpp:395-408 | the loop computes `HEncodeFrom` from the root; it keeps the invariant, rebinds no id, and a success decodes to the input |
| HierarchicalCoders.HierarchicalLZCoder.EncodeSteps | src/lz.cpp:400-405 | the step-by-step loop computes `HEncodeFrom` from the root |
| HierarchicalCoders.HierarchicalLZCoder.Decode | src/lz.cpp:484-497 | the loop computes `HDecodeFrom` from the root |
| BpeMerge.Pairs | src/bpe.py:15-16 | the adjacent pairs of the list, in order, one fewer than its length |
| BpeMerge.GetStats | src/bpe.py:5-18 | the count of each pair is its number of occurrences as adjacent ids, and no other pair is a key |
| BpeMerge.StatsExample | test/test_bpe.cpp:44-53 | the pairs of `[1, 2, 1, 2, 3, 4]` are counted 2, 1, 1, 1 as the test expects |
| BpeMerge.MostFrequentMeaning | src/bpe.py:113 | `max(stats, key=stats.get)` picks a pair of maximal count, the first such in order of first occurrence |
| BpeMerge.MergePairs | src/bpe.py:21-46 | the loop computes `Merged` |
| BpeMerge.MergeExample | test/test_bpe.cpp:58-69 | merging `(1, 2)` into 5 in `[1, 2, 3, 1, 2, 4]` gives `[5, 3, 5, 4]` |
| BpeMerge.MergedLength | src/bpe.py:21-46 | the merged list is no longer than the input and at least half as long; it is strictly shorter iff the pair occurs; with a new id distinct from both halves, it is shorter by exactly the number of replacements (the new id's added occurrences) |
| BpeMerge.MergedTokens | src/bpe.py:21-46 | if the input and the new id are drawn from a set, so is the merged list |
| BpeMerge.MergedRemovesPair | src/bpe.py:21-46 | when the new id differs from both halves, the pair no longer occurs |
| BpeMerge.MergedExpands | src/bpe.py:21-46 | when the new id stands for the two halves' strings joined, expanding the merged list gives the same symbols as before |
| Bpe.Encoded | src/bpe.py:129-147 | encoding fails, with a key error, exactly when a symbol is outside the tokenizer's alphabet |
| Bpe.Decoded | src/bpe.py:150-161 | decoding fails exactly when an id has no value |
| Bpe.LearnStep | src/bpe.py:118-124 | one merge adds exactly the next id |
| Bpe.SeededValid | src/bpe.py:92-99 | the seeded tokenizer is valid: ids 1 to n, each merge's id stands for its parts joined, and each symbol's id stands for that symbol |
| Bpe.LearnStepValid | src/bpe.py:118-124 | a merge keeps the tokenizer valid |
| Bpe.LearnLoopValid | src/bpe.py:109-124 | the learning loop keeps the tokenizer valid |
| Bpe.LearnLoopExpands | src/bpe.py:109-124 | the learning loop leaves ids that expand to the same symbols as before |
| Bpe.LearnLoopEncodes | src/bpe.py:109-124 | the ids the loop leaves are what replaying all learned merges on the seed ids gives |
| Bpe.LearnLoopStops | src/bpe.py:109-124 | the loop stops only when the merge budget is spent or no pair occurs twice |
| Bpe.LearnLoopBounds | src/bpe.py:109-124 | merges only grow, stay within the budget unless none was added, and each merge shortens the list by at least one |
| Bpe.LearnLoopKeepsVocab | src/bpe.py:109-124 | the loop leaves the symbol-to-id table unchanged |
| Bpe.IdsExpand | src/bpe.py:140 | under a valid tokenizer the seed ids of the input expand back to the input |
| Bpe.ApplyMergesExpands | src/bpe.py:141-146 | replaying merges keeps the expansion of the ids |
| Bpe.EncodeRoundTrip | src/bpe.py:129-161 | for a valid tokenizer, `decode(encode(x))` is `x` |
| Bpe.LearnValid | src/bpe.py:67-126 | learning fails, with a key error, exactly when a symbol is outside the given alphabet; the tokenizer it leaves is valid either way |
| Bpe.LearnRoundTrip | src/bpe.py:67-126 | the ids `learn` returns decode to its input |
| Bpe.LearnMatchesEncode | src/bpe.py:67-147 | the ids `learn` returns are what `encode` gives with the learned tokenizer |
| Bpe.LearnStops | src/bpe.py:109-124 | after learning, the budget is spent or no pair of the returned ids occurs twice |
| Bpe.LearnBounds | src/bpe.py:67-126 | merges number at least the alphabet size and at most the budget, unless only the seeds exist; every learned merge shortened the output by one |
| Bpe.MostFrequentPair | src/bpe.py:111-115 | returns the pair `max(stats, key=stats.get)` picks, and its count, which is at least one |
| Bpe.BPE.constructor | src/bpe.py:61-64 | the object holds the given merges, values and alphabet |
| Bpe.BPE.Learn | src/bpe.py:67-126 | the result and new fields are those of `Learned` |
| Bpe.BPE.LearnMerges | src/bpe.py:109-124 | the loop computes `LearnLoop` |
| Bpe.BPE.MergeMostFrequent | src/bpe.py:111-124 | one round leaves the outcome of the loop unchanged; it either stops with the loop's final state or adds one merge |
| Bpe.BPE.Encode | src/bpe.py:129-147 | returns `Encoded`; for a valid tokenizer a success decodes to the input |
| Contextual.IsPrefix | src/bpe.py:300-312 | holds exactly when the string starts the sequence |
| Contextual.LastMatchMeaning | src/bpe.py:266-272 | the scan keeps the last row entry whose string starts the rest; with none it keeps `(0, ())` |
| Contextual.FindMatch | src/bpe.py:266-272 | the scanning loop computes `LastMatch` |
| Contextual.StepEntry | src/bpe.py:266-272 | in a table of the learned shape each step lands on an entry of the current row |
| Contextual.EncodeFromRoundTrip | src/bpe.py:265-276 | for a table of the learned shape, a successful run of the loop from a context decodes, prefixed by that context, to the rest of the input |
| Contextual.EncodeRoundTrip | src/bpe.py:246-297 | for a table of the learned shape, `contextual_decode(contextual_encode(x))` is `x` whenever encoding succeeds |
| Contextual.ContextualEncode | src/bpe.py:246-278 | the loop computes `Encoded` |
| ContextualLearn.LastBefore | src/bpe.py:184-198 | the start index of a symbol before a position is -1 or an earlier position |
| ContextualLearn.LastBeforeMeaning | src/bpe.py:184-198 | the start index is an occurrence of the symbol, and no later one comes before the position |
| ContextualLearn.SpansMeaning | src/bpe.py:165-200 | every string counted for (X, Y) directly follows an X, ends with a Y, and holds no X |
| ContextualLearn.EmptyStats | src/bpe.py:180 | the initial statistics are those of the empty prefix of the input |
| ContextualLearn.CountPosition | src/bpe.py:186-198 | one turn of the outer loop fails, with a key error, exactly at a position where a symbol outside the vocabulary follows a vocabulary symbol; otherwise it yields the statistics of one more symbol |
| ContextualLearn.CountContexts | src/bpe.py:190-195 | the inner loop over the vocabulary fails exactly when some context's row lacks the current symbol, and otherwise advances every context |
| ContextualLearn.CountContext | src/bpe.py:191-195 | one turn of the inner loop fails exactly when that context's row lacks the symbol, and otherwise advances that context |
| ContextualLearn.QuietFails | src/bpe.py:186-198 | the inner loop fails exactly where the outer loop's failure condition holds |
| ContextualLearn.GetContextStats | src/bpe.py:165-200 | fails, with a key error, exactly when some position fails; otherwise returns the statistics of the whole input |
| ContextualLearn.CountAll | src/bpe.py:186-198 | the outer loop fails exactly when some position fails, and otherwise yields the statistics of the whole input |
| ContextualLearn.Upsert | src/bpe.py:236 | dict assignment binds the key to the value and keeps every other key's binding |
| ContextualLearn.LearnRow | src/bpe.py:230-236 | the loop over end symbols builds the row `LearnedRow` specifies |
| ContextualLearn.LearnedAll | src/bpe.py:228-239 | when every context's row is learned, overwriting row 0 with the singletons gives the learned table |
| ContextualLearn.LearnContextualTokenizer | src/bpe.py:203-241 | fails, with a key error, exactly when the statistics fail; otherwise returns the learned table |
| ContextualLearn.LearnedRowLookup | src/bpe.py:228-236 | a learned row is a dict: each end symbol with strings maps to its most frequent string, 0 maps to the empty string, and nothing else is a key |
| ContextualLearn.LearnedLookup | src/bpe.py:228-239 | the same holds in the learned table for every non-zero context of the vocabulary |
| ContextualLearn.SingletonsLookup | src/bpe.py:239 | row 0 maps each vocabulary symbol to itself alone, and nothing else |
| ContextualLearn.LearnedContexts | src/bpe.py:228-239 | the learned table has a row exactly for each vocabulary symbol and for 0 |
| ContextualLearn.LearnedEntryMeaning | src/bpe.py:230-236 | the entry for (X, Y) is a counted string between them, with the highest count, and the first such in order of first occurrence |
| ContextualLearn.LearnedWellFormed | src/bpe.py:203-241 | the learned table has the shape the encoder relies on, unless 0 is both in the vocabulary and in the input |
| ContextualLearn.LearnedRoundTrip | src/bpe.py:203-297 | with the learned table, whenever encoding succeeds, decoding gives the input back |
| ContextualLearn.MostFrequentSpan | src/bpe.py:230-236 | a learned string is never empty |
| ContextualLearn.LearnedEncodes | src/bpe.py:246-278 | with the learned table, encoding any input over the vocabulary succeeds, whether or not 0 is a symbol: it neither loops nor hits a missing key |
| ContextualFindings.LearnedAsWrittenBreaksRoundTrip | src/bpe.py:228-239 | the tokenizer learned from `[1, 0]` over the vocabulary `[0, 1]` encodes `[1, 1]` as `[0, 1, 0, 1]`, which decodes to `[1, 0, 1]` |

## Left out

- The Python `ensure_list`/`get_input_vocab` conversions of strings and bytes, and their C++ overloads (src/lz.cpp:28-78): inputs are sequences of integer symbols from the start.
- The Python bindings, the `bpe.cpp`/`bpe.hpp` stubs, the `ContextualBPE` wrapper and the scripts' `__main__` blocks: they add no logic to the core.
- `Trie` copy construction and assignment (src/lz.cpp:97-115): the trie is a value here (a set of nodes plus a map of terminal keys), so copies are implicit and cannot alias.
- Sets are iterated in ascending order, as `std::set` does. The Python picks an arbitrary element in `get_set_element` and takes `list(set(...))` in unspecified order; the model follows the C++. The BPE alphabet is therefore passed as a list of distinct symbols in the order `list(input_vocab)` produced.
- `input_vocab=None` in `BPE.learn` and `learn_contextual_tokenizer` means the set of the input's symbols; callers pass that list.
- Python's `LZCoder(None)` fails inside `range`; the model follows the C++, where a non-positive bound means no free ids.
- Python's `update_vocab` tests the overflow for every symbol (src/lz.py:102-109), the C++ only after a new registration; the C++ is followed.
- Python's dicts of counts become lists of occurrences; `max(..., key=...)` is the first element of maximal count in order of first insertion, which is Python's dict order.
- LZState.EncodeRoundTrip and the other coder lemmas assume a positive bound when they rely on free ids. With a non-positive bound, LZState.UnboundedEncodeEmitsEmpty shows every symbol is emitted as EMPTY_TOKEN and the round trip loses the input.
- HierarchicalState.HEncodeFrom: a root step that consumes nothing makes the source loop forever; the model returns `NoProgress` instead. Contextual.EncodeFrom does the same for a cycle of contexts that consume nothing.
- The hierarchical coder holds its per-context coders as values in a map, not as separate objects.
- ContextualLearn.LearnedWellFormed and ContextualLearn.LearnedRoundTrip are stated for learning inputs in which 0 is not both a vocabulary symbol and an occurring id. Otherwise a context's learned entry for end symbol 0 replaces its `0: ()` escape (src/bpe.py:236), and the round trip fails; see Findings.
- `learn_contextual_tokenizer`'s documentation says "longest" string; the code keeps the most frequent one, which is what the model proves.
- The tests on timing and compression rates in floating point are not modelled, nor the "hello" test (test/test_lz.py:44-58) that the output is strictly shorter than the input.
- The run of test/test_lz.py:65-72 (a coder of bound 4 with no alphabet learns a, b, c, d as ids 0 to 3) is covered by LZState.LearnsFreshSymbol and LZState.SingletonCoderEncodes for one symbol at a time; the whole run as a single equation is not proved.
- The hierarchical coder's root `update_vocab` (src/lz.cpp:387-389) is modelled with the corrected `LZCoder::update_vocab` of the Findings table, so its rows promise that no id is rebound; with the code as written that promise fails, as LZFindings.UpdateVocabAsWrittenBreaksRoundTrip shows.
- HierarchicalState.ArbitrateFrom and HierarchicalState.Choose break ties among equally voted free ids as the C++ does (src/lz.cpp:466-474): the ascending `std::map` walk replaces the best id only on a strictly higher count, so the smallest id wins. The Python (src/lz.py:189, 204-208) seeds the proposed id with count 0 and takes the first unbound id of a stable sort by count, so among equal counts it keeps the id whose recommending context comes first in `coders`; with free ids 7 and 3 voted once each and 7's context first, the Python picks 7 and the model picks 3. The Python's order is not modelled.
- Python's hierarchical `encode_one_token` (src/lz.py:159-212) asserts things the C++ leaves out; the C++ version is modelled.

## Findings

| source | as written | input that shows it | evidently intended | confidence | as-written member | corrected member |
|---|---|---|---|---|---|---|
| src/lz.cpp:244-258 | `update_vocab` registers a symbol that is not yet in the alphabet under a new id even when its single-symbol codeword was already learned by `encode`, rebinding that codeword while the old id keeps it | `LZCoder(2, {})`; `encode([5], learn=true)` gives `[0]` and binds `[5]` to 0; `update_vocab([5])` binds `[5]` to 1 as well; `encode([5, 5], learn=true)` gives `[1]`, which decodes to `[5]`. The Python's table-size assertion (src/lz.py:100) would stop here instead | a symbol whose codeword is already known is only added to the alphabet | not executed | LZFindings.UpdateVocabAsWrittenBreaksRoundTrip | LZState.UpdateVocabKeepsRoundTrip |
| src/bpe.py:228-239 | each context's row starts as `{0: ()}`, and a learned entry for end symbol 0 overwrites that escape when 0 is both a vocabulary symbol and in the learning input | `learn_contextual_tokenizer([1, 0], {0, 1})`, then `contextual_encode([1, 1])` gives `[0, 1, 0, 1]`, and `contextual_decode` of that gives `[1, 0, 1]` | 0 is reserved for the empty string and never a learned end symbol, so every context keeps `0: ()` | not executed | ContextualFindings.LearnedAsWrittenBreaksRoundTrip | ContextualLearn.LearnedRoundTrip |
