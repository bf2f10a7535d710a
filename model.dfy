/** The Model of word2vec.h: the vocabulary built from a corpus (one Word per surviving token,
    with its index, count and Huffman code), and the sizes of the weight tables. The weight
    values themselves are floating point and are not part of this model. */
module Word2Vec {
  import opened Vocabulary
  import opened Huffman
  import opened HuffmanCodes
  import Scheduler
  import SkipGram
  import Similarity

  /** A vocabulary entry: index_, text_, count_, and the codes_ and points_ of its leaf in the
      Huffman tree. */
  datatype Word = Word(index: nat, text: string, count: nat, codes: seq<nat>, points: seq<nat>)

  function CountsOf(words: seq<Word>): (r: seq<nat>)
    ensures |r| == |words| && forall k | 0 <= k < |words| :: r[k] == words[k].count
  {
    seq(|words|, k requires 0 <= k < |words| => words[k].count)
  }

  function CodesOf(words: seq<Word>): (r: seq<seq<nat>>)
    ensures |r| == |words| && forall k | 0 <= k < |words| :: r[k] == words[k].codes
  {
    seq(|words|, k requires 0 <= k < |words| => words[k].codes)
  }

  function PointsOf(words: seq<Word>): (r: seq<seq<nat>>)
    ensures |r| == |words| && forall k | 0 <= k < |words| :: r[k] == words[k].points
  {
    seq(|words|, k requires 0 <= k < |words| => words[k].points)
  }

  function TextsOf(words: seq<Word>): (r: seq<string>)
    ensures |r| == |words| && forall k | 0 <= k < |words| :: r[k] == words[k].text
  {
    seq(|words|, k requires 0 <= k < |words| => words[k].text)
  }

  /** Every Word has one point per code bit, and every point is a row of syn1. */
  ghost predicate Paths(words: seq<Word>)
  {
    forall k | 0 <= k < |words| ::
      |words[k].codes| == |words[k].points| && forall b | 0 <= b < |words[k].points| :: words[k].points[b] < |words|
  }

  /** `order` is an iteration order of the counting map: every token of the corpus once. */
  ghost predicate Listing(corpus: seq<seq<string>>, order: seq<string>)
  {
    Distinct(order) && forall t :: t in order <==> Occurs(corpus, t)
  }

  /** The tokens build_vocab keeps, in the iteration order of its counting map. */
  ghost function Kept(corpus: seq<seq<string>>, order: seq<string>, minCount: int): seq<string>
    requires -0x8000_0000 <= minCount < 0x8000_0000
  {
    Survivors(order, Tally(corpus), Threshold(minCount))
  }

  class Model {
    var layer1Size: int
    var window: int
    var minCount: int
    /** vocab_: each kept token and the index of its Word. */
    var vocab: map<string, nat>
    /** words_: the Words by index. */
    var words: seq<Word>
    /** The number of rows of syn0_, syn1_ and syn0norm_. */
    var syn0Rows: nat
    var syn1Rows: nat
    var normRows: nat
    /** The length of every row of syn0_ and of syn1_ (layer1_size_ once they are sized). */
    var syn0Cols: nat
    var syn1Cols: nat

    /** The words and the vocabulary agree, every code is a path of syn1 rows, syn0 and syn1
        have a row per word, and syn0norm is empty (before training) or has a row per word. */
    ghost predicate Valid()
      reads this
    {
      Consistent(vocab, words) && Paths(words) &&
      syn0Rows == |words| && syn1Rows == |words| &&
      (normRows == 0 || normRows == |words|)
    }

    /** Model(size = 100, window = 5, min_count = 5): the three sizes are stored, and the
        vocabulary and the tables start empty. */
    constructor(size: int := 100, window: int := 5, minCount: int := 5)
      ensures Valid()
      ensures layer1Size == size && this.window == window && this.minCount == minCount
      ensures vocab == map[] && words == [] && syn0Rows == 0 && syn1Rows == 0 && normRows == 0
      ensures syn0Cols == 0 && syn1Cols == 0
    {
      layer1Size := size;
      this.window := window;
      this.minCount := minCount;
      vocab := map[];
      words := [];
      syn0Rows := 0;
      syn1Rows := 0;
      normRows := 0;
      syn0Cols := 0;
      syn1Cols := 0;
    }

    /** has(): the token is in the vocabulary, which is to say some Word carries it. */
    predicate Has(w: string): (b: bool)
      reads this
      ensures Valid() ==> (b <==> exists k | 0 <= k < |words| :: words[k].text == w)
    {
      w in vocab
    }

    /** The state a successful build_vocab leaves: a Word per kept token, in the order of the
        listing, with index, count, and the code and points of its leaf in the tree the
        greedy merge of the counts builds; and the vocabulary maps each kept token to its
        index. */
    ghost predicate Built(corpus: seq<seq<string>>, order: seq<string>, tree: Tree, trace: seq<multiset<nat>>)
      reads this
    {
      BuiltState(corpus, order, minCount, vocab, words, tree, trace)
    }

    /** build_vocab on a new Model. `order` is the iteration order of the counting map.
        With at most one distinct token the result is -1 and nothing changes. Otherwise the
        model is Built: the kept tokens, their Huffman codes, and weight tables with a row
        per word. Each row is then resized to layer1_size_; a negative size converts to a
        size_t beyond max_size(), so the first resize throws std::length_error: `thrown`
        says so, and the rows stay empty. Otherwise the result is 0 and every row of syn0_
        and syn1_ has layer1_size_ entries. */
    method BuildVocab(corpus: seq<seq<string>>, order: seq<string>)
      returns (r: int, thrown: bool, ghost tree: Tree, ghost trace: seq<multiset<nat>>)
      requires vocab == map[] && words == [] && Valid()
      requires Listing(corpus, order)
      requires -0x8000_0000 <= minCount < 0x8000_0000
      requires |order| <= 1 || |Kept(corpus, order, minCount)| >= 1
      modifies this
      ensures r == -1 <==> |order| <= 1
      ensures r == -1 ==> !thrown && vocab == map[] && words == [] && syn0Rows == 0 && syn1Rows == 0
      ensures r == -1 ==> syn0Cols == old(syn0Cols) && syn1Cols == old(syn1Cols)
      ensures r == 0 ==> Built(corpus, order, tree, trace) && syn0Rows == |words| && syn1Rows == |words|
      ensures r == 0 ==> (thrown <==> layer1Size < 0)
      ensures r == 0 && !thrown ==> syn0Cols == layer1Size && syn1Cols == layer1Size
      ensures thrown ==> syn0Cols == 0 && syn1Cols == 0
      ensures Valid()
      ensures layer1Size == old(layer1Size) && window == old(window) && minCount == old(minCount)
      ensures normRows == old(normRows)
    {
      var status, v, ws;
      status, v, ws, tree, trace := Build(corpus, order, minCount);
      var rows, cols0, cols1 := syn0Rows, syn0Cols, syn1Cols;
      thrown := false;
      if status == 0 {
        rows := |ws|;
        thrown := layer1Size < 0;
        cols0 := if thrown then 0 else layer1Size;
        cols1 := cols0;
      }
      vocab, words, syn0Rows, syn1Rows, syn0Cols, syn1Cols := v, ws, rows, rows, cols0, cols1;
      r := status;
    }

    /** The sequential part of train: the producer fills each non-empty sentence's words_
        with the indices of its known tokens and queues the sentences in batches of 800,
        then one stop job per worker (what the workers train is SkipGram.Trace of each
        queued sentence); afterwards syn0norm is a copy of syn0. */
    method Train(sentences: seq<Scheduler.Sentence>, nWorkers: int)
      returns (r: int, updated: seq<Scheduler.Sentence>, jobs: seq<Scheduler.Job>)
      requires Valid()
      modifies this
      ensures r == 0
      ensures updated == Scheduler.PrepareAll(vocab, sentences)
      ensures jobs == Scheduler.Schedule(vocab, sentences, nWorkers)
      ensures normRows == syn0Rows && Valid()
      ensures vocab == old(vocab) && words == old(words) && syn0Rows == old(syn0Rows) && syn1Rows == old(syn1Rows)
      ensures syn0Cols == old(syn0Cols) && syn1Cols == old(syn1Cols)
      ensures layer1Size == old(layer1Size) && window == old(window) && minCount == old(minCount)
    {
      updated, jobs := Scheduler.Produce(vocab, sentences, nWorkers);
      normRows := syn0Rows;
      r := 0;
    }

    /** train_sentence for a sentence whose words_ are vocabulary indices, with the reduced
        window drawn for it: returns the sentence length, and takes the steps SkipGram.Trace
        describes over the words' codes and points, every one on a row of syn1. The first
        Engaged pair builds a `work` vector of layer1_size_ entries; a negative size throws
        std::length_error there (`thrown`), before any syn1 row is read. */
    method TrainSentence(sentence: seq<nat>, reduced: int)
      returns (count: nat, steps: seq<SkipGram.Step>, thrown: bool)
      requires Valid() && 0 <= reduced < window
      requires forall k | 0 <= k < |sentence| :: sentence[k] < |words|
      ensures var pass := SkipGram.Pass(sentence, CodesOf(words), PointsOf(words), window, reduced);
              thrown <==> layer1Size < 0 && SkipGram.Engages(pass)
      ensures !thrown ==> count == |sentence|
      ensures !thrown ==> steps == SkipGram.Trace(SkipGram.Pass(sentence, CodesOf(words), PointsOf(words), window, reduced))
      ensures layer1Size < 0 ==> steps == []
      ensures forall s | s in steps :: s.row < syn1Rows
    {
      var pass := SkipGram.Pass(sentence, CodesOf(words), PointsOf(words), window, reduced);
      thrown := layer1Size < 0 && SkipGram.Engages(pass);
      if thrown {
        return 0, [], true;
      }
      count, steps := SkipGram.TrainSentence(pass);
      SkipGram.StepsEngage(pass);
      forall s | s in steps ensures s.row < syn1Rows {
        SkipGram.RowsInBounds(pass, syn1Rows, s);
      }
    }

    /** most_similar with the score of every row of syn0norm given: empty when both word
        lists are empty or syn0norm is empty. Past that check the `mean` vector of
        layer1_size_ entries is built, and a negative size throws std::length_error
        (`thrown`). Otherwise the result is the best rows, best first, with the query words
        left out, as Similar computes them. */
    method MostSimilar(positive: seq<string>, negative: seq<string>, topn: int, scores: seq<int>)
      returns (results: seq<(string, int)>, ranked: seq<nat>, thrown: bool)
      requires Valid() && |scores| == normRows
      requires layer1Size < 0 || Admissible(vocab, positive, negative, topn, |scores|)
      ensures (positive == [] && negative == []) || normRows == 0 ==> !thrown && results == []
      ensures !((positive == [] && negative == []) || normRows == 0) ==> (thrown <==> layer1Size < 0)
      ensures thrown ==> results == []
      ensures !((positive == [] && negative == []) || normRows == 0) && !thrown ==>
        Ranked(vocab, positive, negative, topn, scores, ranked) &&
        results == Similarity.Label(Similarity.Chosen(ranked, Query(vocab, positive, negative), topn), TextsOf(words), scores)
    {
      thrown := !((positive == [] && negative == []) || normRows == 0) && layer1Size < 0;
      if thrown {
        return [], [], true;
      }
      results, ranked := Similar(vocab, words, positive, negative, topn, scores);
    }
  }

  /** The query words of most_similar as indices (all_words): the known positive words, then
      the known negative ones. */
  function Query(vocab: map<string, nat>, positive: seq<string>, negative: seq<string>): (q: seq<nat>)
    ensures |q| <= |positive| + |negative|
  {
    ResolveMembers(vocab, positive);
    ResolveMembers(vocab, negative);
    Resolve(vocab, positive) + Resolve(vocab, negative)
  }

  /** When most_similar gets past its first check, k = topn + |all_words| must not be
      negative: the heap range would otherwise end before it starts. */
  predicate Admissible(vocab: map<string, nat>, positive: seq<string>, negative: seq<string>, topn: int, n: nat)
  {
    (positive == [] && negative == []) || n == 0 || topn + |Query(vocab, positive, negative)| >= 0
  }

  /** The candidate count of most_similar, capped at n - 1. */
  function Candidates(vocab: map<string, nat>, positive: seq<string>, negative: seq<string>, topn: int, n: nat): int
  {
    var wanted := topn + |Query(vocab, positive, negative)|;
    if wanted < n - 1 then wanted else n - 1
  }

  /** `ranked` is what the selection leaves in indexes[0..k): k best rows, best first. */
  ghost predicate Ranked(vocab: map<string, nat>, positive: seq<string>, negative: seq<string>, topn: int,
                         scores: seq<int>, ranked: seq<nat>)
  {
    |ranked| == Candidates(vocab, positive, negative, topn, |scores|) &&
    Similarity.TopK(scores, ranked, |scores|) && Similarity.Descending(scores, ranked)
  }

  /** What most_similar reports, in terms of words: at most Cap(topn) known words, none of
      them a query word, in non-increasing score order; and a known word outside the query
      that scores above a reported word is reported itself. */
  lemma SimilarWords(vocab: map<string, nat>, words: seq<Word>, positive: seq<string>, negative: seq<string>,
                     topn: int, scores: seq<int>, ranked: seq<nat>)
    requires Consistent(vocab, words) && |scores| == |words|
    requires Ranked(vocab, positive, negative, topn, scores, ranked)
    ensures var results := Similarity.Label(Similarity.Chosen(ranked, Query(vocab, positive, negative), topn), TextsOf(words), scores);
      |results| <= Similarity.Cap(topn) &&
      (forall i | 0 <= i < |results| :: results[i].0 in vocab && results[i].0 !in positive && results[i].0 !in negative) &&
      (forall i, j | 0 <= i < j < |results| :: results[i].1 >= results[j].1) &&
      (forall t, i | t in vocab && t !in positive && t !in negative && 0 <= i < |results| && results[i].1 < scores[vocab[t]] ::
         exists j | 0 <= j < |results| :: results[j].0 == t)
  {
    var query := Query(vocab, positive, negative);
    var chosen := Similarity.Chosen(ranked, query, topn);
    var results := Similarity.Label(chosen, TextsOf(words), scores);
    Similarity.ChosenMembers(ranked, query, topn, 0);
    forall i | 0 <= i < |results| ensures results[i].0 in vocab && results[i].0 !in positive && results[i].0 !in negative {
      ReportedKnown(vocab, words, positive, negative, topn, scores, ranked, i);
      assert results[i].0 == words[chosen[i]].text;
    }
    forall i, j | 0 <= i < j < |results| ensures results[i].1 >= results[j].1 {
      Similarity.ChosenBest(scores, ranked, query, topn, |scores|);
      assert results[i].1 == Similarity.Score(scores, chosen[i]);
    }
    forall t, i | t in vocab && t !in positive && t !in negative && 0 <= i < |results| && results[i].1 < scores[vocab[t]]
      ensures exists j | 0 <= j < |results| :: results[j].0 == t
    {
      assert results[i].1 == Similarity.Score(scores, chosen[i]);
      ReportedBest(vocab, words, positive, negative, topn, scores, ranked, t, i);
      var j :| 0 <= j < |chosen| && Similarity.Text(TextsOf(words), chosen[j]) == t;
      assert results[j].0 == t;
    }
  }

  /** The i-th reported word is a known word outside the query. */
  lemma ReportedKnown(vocab: map<string, nat>, words: seq<Word>, positive: seq<string>, negative: seq<string>,
                      topn: int, scores: seq<int>, ranked: seq<nat>, i: nat)
    requires Consistent(vocab, words) && |scores| == |words|
    requires Ranked(vocab, positive, negative, topn, scores, ranked)
    requires i < |Similarity.Chosen(ranked, Query(vocab, positive, negative), topn)|
    ensures var x := Similarity.Chosen(ranked, Query(vocab, positive, negative), topn)[i];
      x < |words| && words[x].text in vocab && words[x].text !in positive && words[x].text !in negative
  {
    var query := Query(vocab, positive, negative);
    var x := Similarity.Chosen(ranked, query, topn)[i];
    ResolveMembers(vocab, positive);
    ResolveMembers(vocab, negative);
    Similarity.ChosenMembers(ranked, query, topn, x);
  }

  /** A known word outside the query that scores above the i-th reported word is reported. */
  lemma ReportedBest(vocab: map<string, nat>, words: seq<Word>, positive: seq<string>, negative: seq<string>,
                     topn: int, scores: seq<int>, ranked: seq<nat>, t: string, i: nat)
    requires Consistent(vocab, words) && |scores| == |words|
    requires Ranked(vocab, positive, negative, topn, scores, ranked)
    requires t in vocab && t !in positive && t !in negative
    requires i < |Similarity.Chosen(ranked, Query(vocab, positive, negative), topn)|
    requires Similarity.Score(scores, Similarity.Chosen(ranked, Query(vocab, positive, negative), topn)[i]) < scores[vocab[t]]
    ensures exists j | 0 <= j < |Similarity.Chosen(ranked, Query(vocab, positive, negative), topn)| ::
      Similarity.Text(TextsOf(words), Similarity.Chosen(ranked, Query(vocab, positive, negative), topn)[j]) == t
  {
    var query := Query(vocab, positive, negative);
    var chosen := Similarity.Chosen(ranked, query, topn);
    var y := vocab[t];
    NotQueried(vocab, words, positive, negative, t);
    if y !in chosen {
      Similarity.ChosenBest(scores, ranked, query, topn, |scores|);
      assert Similarity.Score(scores, y) <= Similarity.Score(scores, chosen[i]) by {
        assert chosen[i] in chosen;
      }
      assert false;
    }
    var j :| 0 <= j < |chosen| && chosen[j] == y;
    assert Similarity.Text(TextsOf(words), chosen[j]) == t;
  }

  /** A known word that is not among the query words does not resolve to a query index. */
  lemma NotQueried(vocab: map<string, nat>, words: seq<Word>, positive: seq<string>, negative: seq<string>, t: string)
    requires Consistent(vocab, words) && t in vocab && t !in positive && t !in negative
    ensures vocab[t] !in Query(vocab, positive, negative)
  {
    ResolveMembers(vocab, positive);
    ResolveMembers(vocab, negative);
  }

  /** most_similar on values: resolve the query words, select and sort the best
      k = min(topn + |all_words|, n - 1) rows, and report them without the query words. */
  method Similar(vocab: map<string, nat>, words: seq<Word>, positive: seq<string>, negative: seq<string>,
                 topn: int, scores: seq<int>)
    returns (results: seq<(string, int)>, ranked: seq<nat>)
    requires Admissible(vocab, positive, negative, topn, |scores|)
    ensures (positive == [] && negative == []) || |scores| == 0 ==> results == []
    ensures !((positive == [] && negative == []) || |scores| == 0) ==>
      Ranked(vocab, positive, negative, topn, scores, ranked) &&
      results == Similarity.Label(Similarity.Chosen(ranked, Query(vocab, positive, negative), topn), TextsOf(words), scores)
  {
    if (positive == [] && negative == []) || |scores| == 0 {
      return [], [];
    }
    var pos := Lookup(vocab, positive);
    var neg := Lookup(vocab, negative);
    var query := pos + neg;
    var n := |scores|;
    var k := if topn + |query| < n - 1 then topn + |query| else n - 1;
    var indexes := new nat[n](j => j);
    Similarity.Select(indexes, scores, k);
    ranked := indexes[..k];
    results := Similarity.Results(ranked, query, topn, TextsOf(words), scores);
  }

  /** build_vocab computed on values: the counting, the check for at most one distinct
      token, the filtering and the Huffman coding. */
  method Build(corpus: seq<seq<string>>, order: seq<string>, minCount: int)
    returns (r: int, vocab: map<string, nat>, words: seq<Word>, ghost tree: Tree, ghost trace: seq<multiset<nat>>)
    requires Listing(corpus, order)
    requires -0x8000_0000 <= minCount < 0x8000_0000
    requires |order| <= 1 || |Kept(corpus, order, minCount)| >= 1
    ensures r == 0 || r == -1
    ensures r == -1 <==> |order| <= 1
    ensures r == -1 ==> vocab == map[] && words == []
    ensures r == 0 ==> BuiltState(corpus, order, minCount, vocab, words, tree, trace)
    ensures Consistent(vocab, words) && Paths(words)
  {
    var counts := CountTokens(corpus);
    SameCounts(counts, Tally(corpus));
    TallySize(corpus, order);
    if |counts| <= 1 {
      r, vocab, words := -1, map[], [];
      tree, trace := Tree(0, [], [], []), [];
      return;
    }
    var filtered;
    vocab, filtered := Filter(counts, order, Threshold(minCount));
    IndexedSize(vocab, filtered, order, counts, Threshold(minCount));
    words, tree, trace := CodeWords(filtered);
    Assemble(corpus, order, minCount, vocab, filtered, words, tree, trace);
    BuiltPaths(corpus, order, minCount, vocab, words, tree, trace);
    r := 0;
  }

  /** The filtering loop of build_vocab: a Word for every listed token whose count is above
      the threshold, indexed in listing order, and a vocabulary entry for it. */
  method Filter(counts: map<string, nat>, order: seq<string>, threshold: nat) returns (vocab: map<string, nat>, words: seq<Word>)
    requires Distinct(order)
    ensures Indexed(vocab, words, Survivors(order, counts, threshold), counts)
  {
    vocab, words := map[], [];
    var index := 0;
    var i := 0;
    ghost var kept: seq<string> := [];
    while i < |order|
      invariant 0 <= i <= |order| && index == |words|
      invariant kept == Survivors(order[..i], counts, threshold)
      invariant Indexed(vocab, words, kept, counts)
    {
      var token := order[i];
      var count := Get(counts, token);
      FilterStep(order, counts, threshold, i, vocab, words, kept);
      if count > threshold {
        vocab := vocab[token := index];
        words := words + [Word(index, token, count, [], [])];
        index := index + 1;
        kept := kept + [token];
      }
      i := i + 1;
    }
    assert order[..i] == order;
  }

  /** One turn of the filtering loop: the next listed token is kept, with the next index,
      exactly when its count is above the threshold. */
  lemma FilterStep(order: seq<string>, counts: map<string, nat>, threshold: nat, i: nat,
                   vocab: map<string, nat>, words: seq<Word>, kept: seq<string>)
    requires Distinct(order) && i < |order|
    requires kept == Survivors(order[..i], counts, threshold) && Indexed(vocab, words, kept, counts)
    ensures Get(counts, order[i]) > threshold ==>
      Survivors(order[..i + 1], counts, threshold) == kept + [order[i]] &&
      Indexed(vocab[order[i] := |words|], words + [Word(|words|, order[i], Get(counts, order[i]), [], [])], kept + [order[i]], counts)
    ensures Get(counts, order[i]) <= threshold ==> Survivors(order[..i + 1], counts, threshold) == kept
  {
    SurvivorsSnoc(order, counts, threshold, i);
    SurvivorsMembers(order[..i], counts, threshold);
    assert order[i] !in order[..i] by {
      assert forall j | 0 <= j < i :: order[..i][j] == order[j];
    }
    if Get(counts, order[i]) > threshold {
      IndexedStep(vocab, words, kept, counts, order[i]);
    }
  }

  /** build_vocab with its size check moved after the filtering, so that it fails whenever
      fewer than two tokens survive; no input then reaches the Huffman step with an empty
      vocabulary. */
  method BuildChecked(corpus: seq<seq<string>>, order: seq<string>, minCount: int)
    returns (r: int, vocab: map<string, nat>, words: seq<Word>, ghost tree: Tree, ghost trace: seq<multiset<nat>>)
    requires Listing(corpus, order)
    requires -0x8000_0000 <= minCount < 0x8000_0000
    ensures r == -1 <==> |Kept(corpus, order, minCount)| <= 1
    ensures r == -1 ==> vocab == map[] && words == []
    ensures r == 0 ==> BuiltState(corpus, order, minCount, vocab, words, tree, trace) && |words| >= 2
    ensures Consistent(vocab, words)
  {
    var counts := CountTokens(corpus);
    SameCounts(counts, Tally(corpus));
    var filtered;
    vocab, filtered := Filter(counts, order, Threshold(minCount));
    IndexedSize(vocab, filtered, order, counts, Threshold(minCount));
    if |vocab| <= 1 {
      r, vocab, words := -1, map[], [];
      tree, trace := Tree(0, [], [], []), [];
      return;
    }
    words, tree, trace := CodeWords(filtered);
    Assemble(corpus, order, minCount, vocab, filtered, words, tree, trace);
    r := 0;
  }

  /** Two distinct tokens pass the size check of build_vocab, yet with min_count 1 neither
      survives, so the Huffman step would read the top of an empty heap. */
  lemma GuardAdmitsEmptyVocabulary()
    ensures Listing([["a", "b"]], ["a", "b"])
    ensures |["a", "b"]| > 1 && Kept([["a", "b"]], ["a", "b"], 1) == []
  {
    var corpus := [["a", "b"]];
    var order := ["a", "b"];
    assert corpus[0][0] == "a" && corpus[0][1] == "b";
    forall t ensures t in order <==> Occurs(corpus, t) {
      assert Occurs(corpus, t) <==> t in corpus[0];
    }
    assert CountIn(["a"], "a") == 1 && CountIn(["a"], "b") == 0;
    assert ["a", "b"][..1] == ["a"];
    assert Occurrences(corpus, "a") == 1 && Occurrences(corpus, "b") == 1;
    assert order[..1] == ["a"] && order[..1][..0] == [];
  }

  /** The Huffman part of build_vocab: the tree the greedy merge of the word counts builds,
      and the code and points of each word's leaf stored in its Word. */
  method CodeWords(words: seq<Word>) returns (coded: seq<Word>, ghost tree: Tree, ghost trace: seq<multiset<nat>>)
    requires |words| >= 1
    ensures Coded(words, coded, tree, trace)
  {
    var huffman, parent, merges := BuildTree(CountsOf(words));
    var codes, points, visits := AssignCodes(huffman, parent);
    tree, trace := huffman, merges;
    coded := WithCodes(words, codes, points);
    assert CountsOf(coded) == CountsOf(words);
    assert CodesOf(coded) == codes[..|words|];
    assert PointsOf(coded) == points[..|words|];
    forall k | 0 <= k < |coded| ensures LeafCoded(tree, CodesOf(coded), PointsOf(coded), k) {
      assert LeafCoded(tree, codes, points, k);
    }
  }

  /** `coded` is `words` with each Word's code and points set to those of its leaf in `tree`,
      which the greedy merge of the counts builds. */
  ghost predicate Coded(words: seq<Word>, coded: seq<Word>, tree: Tree, trace: seq<multiset<nat>>)
  {
    |coded| == |words| &&
    (forall k | 0 <= k < |words| :: SameEntry(words[k], coded[k])) &&
    GreedyMerge(CountsOf(coded), tree, trace) &&
    (forall k | 0 <= k < |coded| :: LeafCoded(tree, CodesOf(coded), PointsOf(coded), k))
  }

  /** Two Words that differ at most in their code and points. */
  predicate SameEntry(w: Word, v: Word)
  {
    v.index == w.index && v.text == w.text && v.count == w.count
  }

  /** The state a successful build_vocab leaves: a Word per kept token, in the order of the
      listing, with index, count, and the code and points of its leaf in the tree the greedy
      merge of the counts builds; and the vocabulary maps each kept token to its index. */
  ghost predicate BuiltState(corpus: seq<seq<string>>, order: seq<string>, minCount: int, vocab: map<string, nat>,
                             words: seq<Word>, tree: Tree, trace: seq<multiset<nat>>)
  {
    -0x8000_0000 <= minCount < 0x8000_0000 &&
    |words| == |Kept(corpus, order, minCount)| &&
    (forall t :: t in vocab <==> t in Kept(corpus, order, minCount)) &&
    (forall k | 0 <= k < |words| :: WordBuilt(corpus, Kept(corpus, order, minCount), k, words[k]) && vocab[words[k].text] == k) &&
    GreedyMerge(CountsOf(words), tree, trace) &&
    (forall k | 0 <= k < |words| :: LeafCoded(tree, CodesOf(words), PointsOf(words), k))
  }

  /** The Words with the code and points of their leaves filled in. */
  function WithCodes(words: seq<Word>, codes: seq<seq<nat>>, points: seq<seq<nat>>): (r: seq<Word>)
    requires |words| <= |codes| && |words| <= |points|
    ensures |r| == |words|
    ensures forall k | 0 <= k < |words| :: r[k] == words[k].(codes := codes[k], points := points[k])
  {
    seq(|words|, k requires 0 <= k < |words| => words[k].(codes := codes[k], points := points[k]))
  }

  /** The filtered Words with their codes filled in are the built state. */
  lemma Assemble(corpus: seq<seq<string>>, order: seq<string>, minCount: int, vocab: map<string, nat>,
                 words: seq<Word>, coded: seq<Word>, tree: Tree, trace: seq<multiset<nat>>)
    requires -0x8000_0000 <= minCount < 0x8000_0000
    requires Indexed(vocab, words, Kept(corpus, order, minCount), Tally(corpus))
    requires Coded(words, coded, tree, trace)
    requires |vocab| == |words|
    ensures BuiltState(corpus, order, minCount, vocab, coded, tree, trace)
    ensures Consistent(vocab, coded)
  {
    var kept := Kept(corpus, order, minCount);
    forall k | 0 <= k < |coded|
      ensures WordBuilt(corpus, kept, k, coded[k]) && vocab[coded[k].text] == k
    {
      assert words[k] == Word(k, kept[k], Get(Tally(corpus), kept[k]), [], []);
      assert SameEntry(words[k], coded[k]);
    }
  }

  /** The filtered vocabulary has one entry per Word. */
  lemma IndexedSize(vocab: map<string, nat>, words: seq<Word>, order: seq<string>, counts: map<string, nat>, threshold: nat)
    requires Distinct(order)
    requires Indexed(vocab, words, Survivors(order, counts, threshold), counts)
    ensures |vocab| == |words|
  {
    var kept := Survivors(order, counts, threshold);
    SurvivorsMembers(order, counts, threshold);
    assert vocab.Keys == set t | t in kept;
    DistinctCardinality(kept);
  }

  /** The first |words| kept tokens are indexed: the Word at index k is the k-th kept token
      with its count and no code yet, and the vocabulary maps each kept token to its index. */
  ghost predicate Indexed(vocab: map<string, nat>, words: seq<Word>, kept: seq<string>, counts: map<string, nat>)
  {
    |words| == |kept| && (forall t :: t in vocab <==> t in kept) &&
    forall k | 0 <= k < |words| :: words[k] == Word(k, kept[k], Get(counts, kept[k]), [], []) && vocab[kept[k]] == k
  }

  lemma IndexedStep(vocab: map<string, nat>, words: seq<Word>, kept: seq<string>, counts: map<string, nat>, token: string)
    requires Indexed(vocab, words, kept, counts) && token !in kept
    ensures Indexed(vocab[token := |words|], words + [Word(|words|, token, Get(counts, token), [], [])], kept + [token], counts)
  {
  }

  /** The vocabulary and the Words agree: one entry per Word, and the Word at index k has
      index k and a text the vocabulary maps to k. */
  ghost predicate Consistent(vocab: map<string, nat>, words: seq<Word>)
  {
    |words| == |vocab| &&
    (forall k | 0 <= k < |words| :: words[k].index == k && words[k].text in vocab && vocab[words[k].text] == k) &&
    forall t | t in vocab :: vocab[t] < |words| && words[vocab[t]].text == t
  }

  /** The fields of the Word at index k once build_vocab has run. */
  ghost predicate WordBuilt(corpus: seq<seq<string>>, kept: seq<string>, k: nat, w: Word)
  {
    k < |kept| && w.index == k && w.text == kept[k] && w.count == Occurrences(corpus, kept[k])
  }

  // ---------------------------------------------------------------------------------------
  // What a built vocabulary promises.

  /** After build_vocab, has(w) holds exactly for the tokens of the corpus whose count is
      above min_count (as compared in unsigned 32 bits). */
  lemma HasFrequent(corpus: seq<seq<string>>, order: seq<string>, minCount: int, vocab: map<string, nat>,
                    words: seq<Word>, tree: Tree, trace: seq<multiset<nat>>, w: string)
    requires Listing(corpus, order)
    requires BuiltState(corpus, order, minCount, vocab, words, tree, trace)
    ensures w in vocab <==> Occurs(corpus, w) && Occurrences(corpus, w) > Threshold(minCount)
  {
    SurvivorsMembers(order, Tally(corpus), Threshold(minCount));
  }

  /** Each word's code is a path from the root of the tree: one point per bit, every bit 0
      or 1, every point a row of syn1 below n - 1; with two words or more the code is
      non-empty and its first point is the root's row n - 2, and a single word has an empty
      code. */
  lemma WordCodes(corpus: seq<seq<string>>, order: seq<string>, minCount: int, vocab: map<string, nat>,
                  words: seq<Word>, tree: Tree, trace: seq<multiset<nat>>, k: nat)
    requires BuiltState(corpus, order, minCount, vocab, words, tree, trace) && k < |words|
    ensures |words[k].codes| == |words[k].points|
    ensures forall b | 0 <= b < |words[k].codes| :: words[k].codes[b] <= 1 && words[k].points[b] < |words| - 1
    ensures |words| >= 2 ==> |words[k].codes| >= 1 && words[k].points[0] == |words| - 2
    ensures |words| == 1 ==> words[k].codes == [] && words[k].points == []
  {
    assert LeafCoded(tree, CodesOf(words), PointsOf(words), k);
    FirstPoint(tree, CodesOf(words), PointsOf(words), k);
  }

  /** After build_vocab every code is a path of syn1 rows. */
  lemma BuiltPaths(corpus: seq<seq<string>>, order: seq<string>, minCount: int, vocab: map<string, nat>,
                   words: seq<Word>, tree: Tree, trace: seq<multiset<nat>>)
    requires BuiltState(corpus, order, minCount, vocab, words, tree, trace)
    ensures Paths(words)
  {
    forall k | 0 <= k < |words|
      ensures |words[k].codes| == |words[k].points| && forall b | 0 <= b < |words[k].points| :: words[k].points[b] < |words|
    {
      WordCodes(corpus, order, minCount, vocab, words, tree, trace, k);
    }
  }

  /** The words' codes are prefix-free: a word's code begins with another word's code only
      when they are the same word. */
  lemma CodesPrefixFree(corpus: seq<seq<string>>, order: seq<string>, minCount: int, vocab: map<string, nat>,
                        words: seq<Word>, tree: Tree, trace: seq<multiset<nat>>, a: nat, b: nat)
    requires BuiltState(corpus, order, minCount, vocab, words, tree, trace)
    requires a < |words| && b < |words| && words[a].codes <= words[b].codes
    ensures a == b
  {
    assert LeafCoded(tree, CodesOf(words), PointsOf(words), a);
    assert LeafCoded(tree, CodesOf(words), PointsOf(words), b);
    PrefixFree(tree, CodesOf(words), PointsOf(words), a, b);
  }
}
