# word2vec.h in Dafny

word2vec.h is a single-header C++ implementation of word2vec: skip-gram with hierarchical
softmax, trained by several threads that share the weight tables without locking. Its `Model`
struct builds a vocabulary from tokenised sentences, codes every word by a Huffman tree over
the word counts, trains the embeddings, and answers nearest-neighbour queries
(`most_similar`).

This project models the integer and index logic of `Model`. The floating-point arithmetic,
the threads and the file I/O are left out.

- **Vocabulary build** (`build_vocab`), in `vocabulary.dfy`, `huffman.dfy`,
  `huffman_codes.dfy` and `model.dfy`:
  - Tokens are counted over the corpus.
  - If there is at most one distinct token, the call fails with -1. This check comes
    before filtering.
  - A token is kept when its count is above `min_count_`. The comparison is done in
    unsigned 32 bits.
  - Kept tokens are given indices `0..n-1`, in the iteration order of the counting map.
    That order is a parameter, `order`.
  - The two lowest-count nodes are merged greedily, `n-1` times, and the new node's
    `uint32_t` count wraps modulo 2^32. The heap is a multiset
    of node ids, and any minimum may be taken.
  - An explicit stack walks the tree from the root and stores each leaf's `codes_` and
    `points_`.
  - `syn0_` and `syn1_` are sized to `n` rows of `layer1_size_` entries. A negative size makes the resize throw.
- **The producer of `train`** (`scheduler.dfy`):
  - Sentences with no tokens are skipped.
  - Every other sentence gets the indices of its known tokens appended to `words_`.
  - The queue holds batches of 800 sentences, then the last partial batch, then one stop
    job per worker.
- **`train_sentence`** (`skipgram.dfy`):
  - The reduced window is a parameter.
  - A pass is described by the sequence of (position, context, code bit, syn1 row) steps
    it takes.
- **`most_similar`** (`similarity.dfy` and `model.dfy`):
  - The dot-product scores are given as a sequence of integers.
  - The selection runs in place on an `indexes` array: `make_heap`/`pop_heap` on the
    first k+1 rows, one candidate per later row, then `sort_heap`.
  - The results loop skips query words and stops on `++j >= topn`.
- **`has`**: membership in the vocabulary.

`class Model` (model.dfy) holds:

- the fields `build_vocab` and `train` assign: `vocab`, `words`, the row counts of
  `syn0_`, `syn1_` and `syn0norm_`, and the row lengths of `syn0_` and `syn1_`;
- a validity invariant;
- methods for `build_vocab`, `train`, `train_sentence`, `most_similar` and `has`.

The work itself is done by module-level methods on values, which these class methods call.

## Model

| member | source | states |
|---|---|---|
| Vocabulary.CountTokens | word2vec.h:78-82 | the count of every token is its number of occurrences in the corpus; only tokens that occur have an entry |
| Vocabulary.CountKeys | word2vec.h:78-82 | the keys of the counting map are exactly the tokens that occur in the corpus |
| Vocabulary.Tally | word2vec.h:78-82 | the counting map as a function: the same counts, positive entries only |
| Vocabulary.TallySize | word2vec.h:85 | the number of distinct tokens equals the length of any duplicate-free listing of them |
| Vocabulary.Threshold | word2vec.h:91-92 | `min_count_` converted to uint32 for the comparison: the value in [0, 2^32) congruent to it modulo 2^32 |
| Vocabulary.SurvivorsMembers | word2vec.h:90-97 | a token is kept iff it is listed and its count is strictly above the threshold; kept tokens keep the listing order and have no duplicates |
| Vocabulary.NegativeMinCountKeepsNothing | word2vec.h:91-92 | a negative `min_count_` keeps no token, because it becomes a threshold of at least 2^31 |
| Vocabulary.ResolveMembers | word2vec.h:219-222 | the resolved indices are exactly the vocabulary indices of known tokens; there is at most one per token |
| Vocabulary.Lookup | word2vec.h:219-222 | the lookup loop appends, in token order, the index of every token found in the vocabulary |
| Huffman.MinimumExists | word2vec.h:109-112 | a non-empty heap has a node of minimum count |
| Huffman.PopMinimum | word2vec.h:109-110 | `pop_heap` with the `count_ >` comparator yields a node of minimum count in the heap |
| Huffman.PopTwo | word2vec.h:109-112 | `min1` is a minimum of the heap and `min2` is a minimum of what remains |
| Huffman.MergeTwo | word2vec.h:108-116 | one merge pops a minimum-count id and then a minimum-count id of what remains. The new state is exactly the merge of those two: the next internal node has them as its left and right children and counts their uint32_t sum, they leave the heap and the new node enters it. The merge loop's invariant is kept |
| Huffman.Sum32 | word2vec.h:113 | the new node's `uint32_t` count is below 2^32: the plain sum when that is below 2^32, and the sum minus 2^32 when two uint32 counts overflow |
| Huffman.BuildStep | word2vec.h:108-116 | one merge preserves the invariant of the merge loop: heap contents, parent links, sums, and a trace of greedy choices |
| Huffman.ForestTree | word2vec.h:108-117 | after n-1 merges the heap holds only the root 2n-2, and the child and parent links form a tree |
| Huffman.BuildTree | word2vec.h:103-117 | the result is the greedy merge of the leaf counts. It has n-1 internal nodes, ids n..2n-2 in creation order, each with the two current minima as children (first popped on the left) and their sum modulo 2^32 as count. It is a tree rooted at the single node left in the heap |
| Huffman.LeavesOfRoot | word2vec.h:119-142 | below the root, each leaf 0..n-1 occurs exactly once |
| HuffmanCodes.Walk | word2vec.h:133-140 | following code bits from a node gives one point per bit; every bit is 0 or 1 and every point is below n-1 |
| HuffmanCodes.Descend | word2vec.h:134-140 | a child frame extends the parent's points by `index_ - n` and its codes by 0 (left) or 1 (right) |
| HuffmanCodes.VisitLeaf | word2vec.h:127-131 | popping a leaf frame stores its points and codes and marks it visited; the stack measure decreases |
| HuffmanCodes.VisitInternal | word2vec.h:133-140 | popping an internal frame pushes both children with extended paths; the stack measure decreases |
| HuffmanCodes.AssignCodes | word2vec.h:119-142 | every leaf's codes and points are the path from the root to that leaf, and internal nodes get none. Every leaf is visited exactly once |
| HuffmanCodes.VisitedAll | word2vec.h:123-142 | when the stack is empty, every leaf is coded and visited once |
| HuffmanCodes.WalkPrefix | word2vec.h:133-140 | a prefix of a leaf's code leads to an internal node along a prefix of its points |
| HuffmanCodes.FirstPoint | word2vec.h:121-135 | with n >= 2 every code is non-empty and starts at the root's point n-2; a single word has an empty code |
| HuffmanCodes.PrefixFree | word2vec.h:123-142 | no leaf's code is a prefix of another leaf's code |
| HuffmanCodes.SharedPrefix | word2vec.h:123-142 | leaves whose codes share the first d bits share the first d points |
| Word2Vec.Model.constructor | word2vec.h:65 | stores size, window and min_count, with the defaults 100, 5 and 5; the vocabulary and the tables are empty |
| Word2Vec.Model.Has | word2vec.h:68 | `has(w)` holds iff some Word of the vocabulary has text w |
| Word2Vec.Model.BuildVocab | word2vec.h:70-158 | returns -1 iff there is at most one distinct token, and then nothing changes. Otherwise the model is built: every kept token has a Word with its index, text, count, code and points, and `syn0_`/`syn1_` have one row per word. A negative `layer1_size_` makes the row resize throw and leaves the rows empty. Otherwise it returns 0 and every row has `layer1_size_` entries |
| Word2Vec.Build | word2vec.h:70-147 | the same build on values; the status is 0 or -1 |
| Word2Vec.Filter | word2vec.h:88-97 | the filtering loop gives the kept tokens contiguous indices in listing order, with their counts and empty codes, and enters each one in `vocab_` |
| Word2Vec.FilterStep | word2vec.h:90-96 | one turn of the filtering loop keeps the next token, with the next index, exactly when its count is above the threshold |
| Word2Vec.CodeWords | word2vec.h:101-142 | the words get the codes and points of their leaves in the tree the greedy merge of their counts builds |
| Word2Vec.Assemble | word2vec.h:88-142 | the filtered and coded words form the built state, consistent with `vocab_` |
| Word2Vec.HasFrequent | word2vec.h:88-97 | after the build, a token is in the vocabulary iff it occurs in the corpus with a count above the unsigned threshold |
| Word2Vec.WordCodes | word2vec.h:119-147 | each word has as many points as code bits. Every bit is 0 or 1, and every point is below n-1, so it is a row of `syn1_` (n rows). With n >= 2 the code is non-empty and starts at n-2; a single word has an empty code |
| Word2Vec.BuiltPaths | word2vec.h:129-147 | after the build every point of every word is a row of `syn1_` |
| Word2Vec.CodesPrefixFree | word2vec.h:123-142 | no word's code is a prefix of another word's code |
| Word2Vec.GuardAdmitsEmptyVocabulary | word2vec.h:85-92 | the corpus [["a","b"]] with min_count 1 passes the check on distinct tokens, yet no token survives |
| Word2Vec.BuildChecked | word2vec.h:85-97 | with the check done after filtering, it returns -1 iff at most one token survives; otherwise the state is built with at least two words |
| Word2Vec.Model.Train | word2vec.h:212-240 | returns 0. The sentences are prepared as the producer leaves them and the queue is exactly the schedule: batches of the non-empty sentences, then one stop job per worker. `syn0norm_` gets a row per `syn0_` row and nothing else changes |
| Word2Vec.Model.TrainSentence | word2vec.h:362-405 | throws iff `layer1_size_` is negative and some pair builds its `work` vector (line 378); it then reads no syn1 row. Otherwise it returns the sentence length and takes exactly the steps of the window traversal over the words' codes and points. Every syn1 row it reads is in bounds |
| Word2Vec.Model.MostSimilar | word2vec.h:295-349 | if both lists are empty or `syn0norm_` is empty, the result is empty. Past that check it throws iff `layer1_size_` is negative (line 298). Otherwise the ranked rows are the k = min(topn + \|query\|, n-1) best rows, best first, and the results are their first Cap(topn) non-query rows as (text, score) pairs |
| Word2Vec.Similar | word2vec.h:295-349 | the same query on values |
| Word2Vec.Query | word2vec.h:299-311 | the query indices: known positive words, then known negative words, at most one per word |
| Word2Vec.SimilarWords | word2vec.h:326-347 | the reported words are at most Cap(topn) known words, none of them a query word, in non-increasing score order. A known non-query word that scores above a reported word is itself reported |
| Word2Vec.ReportedKnown | word2vec.h:341-345 | every reported row is a known word that is not in either query list |
| Word2Vec.ReportedBest | word2vec.h:326-345 | a known non-query word that scores above a reported word is reported |
| Word2Vec.NotQueried | word2vec.h:299-311 | a known word that is in neither list does not resolve to a query index |
| Scheduler.Prepare | word2vec.h:215-222 | a sentence with tokens gets the indices of its known tokens appended to its words, in order; a sentence without tokens is unchanged |
| Scheduler.PrepareAll | word2vec.h:214-222 | every sentence is prepared in place |
| Scheduler.Stops | word2vec.h:235 | `max(0, n_workers)` stop jobs |
| Scheduler.Admit | word2vec.h:215-228 | a sentence with tokens is prepared and joins the pending batch, and a batch that reaches 800 is queued; a sentence without tokens is passed over |
| Scheduler.Enqueue | word2vec.h:214-229 | after the sentence loop: only full batches of 800 are queued, fewer than 800 sentences are pending, and together they are the non-empty prepared sentences in order |
| Scheduler.AddStops | word2vec.h:235 | the last loop appends exactly the stop jobs |
| Scheduler.Produce | word2vec.h:212-235 | the sentences end up prepared and the queue is exactly the schedule |
| Scheduler.PendingChunks | word2vec.h:225-232 | full batches plus the flushed remainder are the chunking of all queued sentences |
| Scheduler.FlattenSchedule | word2vec.h:212-235 | the batches of the queue, concatenated, are the non-empty prepared sentences in input order |
| Scheduler.ChunkSizes | word2vec.h:224-232 | the number of batches is the sentence count divided by 800, rounded up; every batch has 1 to 800 sentences, and all but the last have exactly 800 |
| Scheduler.StopsLast | word2vec.h:231-235 | the queue is the batches followed by exactly `max(0, n_workers)` stop jobs; a job is a stop iff it comes after every batch |
| Scheduler.ReadyMembers | word2vec.h:214-224 | a sentence is queued iff it is the prepared form of an input sentence with tokens; no more are queued than given |
| SkipGram.Pass.Lo | word2vec.h:369 | the first context position is 0 or i - window + reduced |
| SkipGram.Pass.Hi | word2vec.h:370 | one past the last context position is len or i + window + 1 - reduced |
| SkipGram.ContextSteps | word2vec.h:372-398 | the inner loop computes exactly the steps of one (position, context) pair: none when the context is the position itself or its word has an empty code, otherwise one per code bit of the current word |
| SkipGram.WindowSteps | word2vec.h:369-402 | the middle loop covers the contexts from lo up to hi |
| SkipGram.TrainSentence | word2vec.h:362-405 | returns the sentence length and takes exactly the steps of the whole traversal |
| SkipGram.WindowBounds | word2vec.h:369-370 | lo <= i < hi <= len; j lies in [lo, hi) iff it is within window - reduced of i |
| SkipGram.WindowSymmetric | word2vec.h:369-370 | j is in the window of i iff i is in the window of j |
| SkipGram.ContextMembers | word2vec.h:372-398 | the steps of one pair are exactly its code bits, with the bit's point as row and the bit as target |
| SkipGram.ContextsMembers | word2vec.h:371-402 | the steps of a position are exactly those of its contexts in [lo, hi) |
| SkipGram.PositionsMembers | word2vec.h:365-404 | the steps of the first n positions are exactly those of each position below n |
| SkipGram.StepsEngage | word2vec.h:371-381 | a pass with a step has a pair (i, j) with j in the window of i, j != i and a non-empty code for j, which is where the `work` vector is built |
| SkipGram.TraceMembers | word2vec.h:362-405 | a step is taken iff its context is in the window, is not the position, and has a non-empty code, and the step is a bit of the current word's code with that bit's point |
| SkipGram.RowsInBounds | word2vec.h:380-381 | if every point is below the number of syn1 rows, every row a pass touches is in bounds |
| Similarity.Swap | word2vec.h:331-336 | exchanges two entries of the heap range; the range is permuted and the rest of the array is unchanged |
| Similarity.MinToFront | word2vec.h:331 | `make_heap` with the `>` comparator brings a lowest-scoring row of the range to the front, permuting only the range |
| Similarity.PopHeap | word2vec.h:332 | `pop_heap` moves the top to the end of the range and brings the lowest score of the rest to the front; the range is permuted and the suffix is unchanged |
| Similarity.StartHeap | word2vec.h:329-332 | after make_heap and pop_heap on the first k+1 rows, the selection invariant holds for the rows seen so far |
| Similarity.SelectStart | word2vec.h:331-332 | the rows popped from the first k+1 leave the k best of them, lowest first |
| Similarity.Offer | word2vec.h:333-336 | one turn of the selection loop keeps the invariant: the heap holds the best rows seen so far, and the rows not yet seen are untouched |
| Similarity.AcceptStep | word2vec.h:334-336 | a row that scores above the top replaces it, and the heap still holds the best rows seen |
| Similarity.RejectStep | word2vec.h:334 | a row that scores no higher than the top is passed over |
| Similarity.EmptyStep | word2vec.h:333-336 | with k = 0 the loop keeps nothing |
| Similarity.SelectDone | word2vec.h:333-339 | after the loop the k rows, in any order, are distinct and no other row outscores them |
| Similarity.SortStep | word2vec.h:339 | one pop of `sort_heap` moves the lowest remaining score to the front of the sorted tail |
| Similarity.SortHeap | word2vec.h:339 | `sort_heap` permutes the first k rows into non-increasing score order and leaves the rest alone |
| Similarity.Select | word2vec.h:329-339 | the first k entries of `indexes` are k distinct rows, no other row scores above them, and they are best first |
| Similarity.Results | word2vec.h:341-347 | the results loop reports, as (text, score) pairs, the first Cap(topn) ranked rows that are not query words |
| Similarity.Cap | word2vec.h:346 | at least one result is allowed, and topn of them when topn >= 1 |
| Similarity.KeepMembers | word2vec.h:342-344 | a ranked row is kept iff it is not a query word |
| Similarity.KeepPrefix | word2vec.h:342-346 | the rows kept from a prefix of the ranking begin the rows kept from all of it |
| Similarity.KeepOrder | word2vec.h:342-345 | skipping query words keeps the score order and the distinctness of the ranking |
| Similarity.ChosenCut | word2vec.h:346 | the loop stops exactly when Cap(topn) rows have been kept |
| Similarity.ChosenMembers | word2vec.h:341-347 | reported rows are ranked non-query rows, at most Cap(topn) of them; fewer only when every such row is reported |
| Similarity.ChosenBest | word2vec.h:339-347 | over a best-first ranking of the top k, the reported rows are distinct and best first, and no left-out non-query row scores above a reported one |

## Left out

- Threads: the worker lambda, the mutex, the condition variable, the `done` flag and the joins (word2vec.h:169-210, 234-236). Only the producer and the contents of the queue are modelled.
- The races between workers on `syn0_`, `syn1_` and `current_words` are intentional, and they have no exact semantics to state.
- Floating point is left out:
  - the sigmoid table;
  - the gradient and the learning rate;
  - `dot`, `saxpy` and `unit`;
  - the weight values and their random initialisation;
  - the normalisation of `syn0norm_`;
  - the scores of `most_similar`, which are given integers here. NaN scores do not arise.
- SkipGram.TrainSentence: the steps include every code bit. The source skips the update of a bit whose dot product saturates (|f| >= 6). Which bits those are depends on float values, so the step records the syn1 row read, not whether it was written.
- `rand() % window_` for the reduced window is a parameter in [0, window_).
- `save`, `load`, `similarity()`, the progress output and the `max_depth` diagnostic are left out. They are file I/O, a float dot product and logging.
- Vocabulary.CountTokens: counts are unbounded. The source's `int` map values and `uint32_t` counts could wrap around after 2^31 occurrences of one token.
- Word2Vec.Query: `int(topn + all_words.size())` is taken without wrap-around.
- Word2Vec.Model.BuildVocab requires a model with an empty vocabulary. A second `build_vocab` on the same model (emplace into a full `vocab_`) is not modelled.
- Word2Vec.Model.BuildVocab requires at least one surviving token when there are two or more distinct tokens. With none, the merge loop runs zero times (`0 < n_words - 1` is false), and the traversal then reads `heap[0]` of an empty vector and dereferences it, which is undefined behaviour; see Findings.
- Word2Vec.Model.MostSimilar requires topn + |query| >= 0 once the early return is passed and `layer1_size_` is not negative. Otherwise k is negative and the heap range ends before it starts, which is undefined behaviour.
- Word2Vec.Model.TrainSentence requires every word index of the sentence to be below the vocabulary size. The source holds `Word *` addresses into `words_`, and this is what makes them valid.
- Word2Vec.Model.Train: the workers' calls of `train_sentence` on every queued sentence are not chained to the queue. Each call is covered by Word2Vec.Model.TrainSentence, and Scheduler.FlattenSchedule states which sentences are queued.
- Huffman.BuildTree: the tree is the greedy merge, with any minimum taken on ties. Minimality of the weighted path length (the Huffman optimality theorem) is not proved.
- Similarity.MinToFront and Similarity.PopHeap model the standard heap functions by what the selection relies on: the lowest score of the range comes to the front, and the range is permuted. The exact heap layout is not modelled, so among equal scores the order of rows can differ from libstdc++.
- Huffman.BuildTree: internal node counts are `uint32_t` sums and wrap modulo 2^32 (Huffman.Sum32), as at word2vec.h:113. The leaf counts come from the unbounded counts above, so they can be 2^32 or more only where Vocabulary.CountTokens already departs from the source.
- Word2Vec.Model.BuildVocab, Word2Vec.Model.TrainSentence and Word2Vec.Model.MostSimilar: when a negative `layer1_size_` makes a vector construction throw `std::length_error`, the model reports it as `thrown`. It does not model unwinding through the caller. In BuildVocab the tables' rows are left empty. The float initialisation of `syn0_` is left out.
- Word2Vec.Model.constructor: `alpha` and `min_alpha` (defaults 0.025 and 0.0001) are floats and are not stored. `size`, `window` and `min_count` keep their defaults 100, 5 and 5.
- Words are referred to by index, not by `Word *`. Sentences are values returned by the producer; sharing through `SentenceP` is not modelled.

Three behaviours of the code are easy to misread. The model follows the code in each:

- The size check counts distinct tokens before filtering (word2vec.h:85-86), not the tokens that survive it.
- The producer skips only sentences with no tokens (word2vec.h:215). A sentence whose tokens are all unknown is still queued, with no words appended.
- `most_similar` caps the candidates at n-1 (word2vec.h:329). When topn <= 0, the check `++j >= topn` comes only after a result is pushed (word2vec.h:346), so the limit is one result, not zero (Similarity.Cap). A result is reported only when a non-query row is among the k ranked rows: with topn = 0 and one known query word, k is 1, the only ranked row can be the query word itself, and then nothing is reported.

## Findings

| source | as written | input that shows it | evidently intended | confidence | as-written member | corrected member |
|---|---|---|---|---|---|---|
| word2vec.h:85-121 | the check `n_words <= 1` counts distinct tokens before filtering, so a corpus with several distinct tokens can leave no survivor; the merge loop then runs zero times and the traversal reads `heap[0]` of an empty vector | corpus [["a","b"]] with min_count 1: two distinct tokens, each with count 1, none above 1 | fail with -1 when fewer than two tokens survive filtering | high; not executed | Word2Vec.GuardAdmitsEmptyVocabulary | Word2Vec.BuildChecked |

Word2Vec.Model.BuildVocab keeps the code as written. Its precondition excludes the undefined case, and Word2Vec.BuildChecked is the corrected build.
