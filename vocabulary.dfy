/** Token counting, frequency filtering and vocabulary lookup: the first half of
    Model::build_vocab and the token-resolution loops of Model::train and Model::most_similar.
    Tokens are strings; a corpus is a sequence of sentences, each a sequence of tokens. */
module Vocabulary {

  /** Number of occurrences of token `t` in one sentence's token list. */
  function CountIn(tokens: seq<string>, t: string): nat
  {
    if tokens == [] then 0
    else CountIn(tokens[..|tokens| - 1], t) + (if tokens[|tokens| - 1] == t then 1 else 0)
  }

  /** Number of occurrences of token `t` over the whole corpus. */
  function Occurrences(corpus: seq<seq<string>>, t: string): nat
  {
    if corpus == [] then 0
    else Occurrences(corpus[..|corpus| - 1], t) + CountIn(corpus[|corpus| - 1], t)
  }

  /** `t` appears somewhere in the corpus. */
  predicate Occurs(corpus: seq<seq<string>>, t: string)
  {
    exists i | 0 <= i < |corpus| :: t in corpus[i]
  }

  /** The value a counting map holds for `t`, where a missing key reads as 0 (what
      `operator[]` of the source's unordered_map default-inserts). */
  function Get(counts: map<string, nat>, t: string): nat
  {
    if t in counts then counts[t] else 0
  }

  predicate Distinct<T(==)>(s: seq<T>)
  {
    forall i, j | 0 <= i < j < |s| :: s[i] != s[j]
  }

  lemma {:induction false} CountInPositive(tokens: seq<string>, t: string)
    ensures CountIn(tokens, t) > 0 <==> t in tokens
  {
    if tokens != [] {
      var init := tokens[..|tokens| - 1];
      CountInPositive(init, t);
      assert tokens == init + [tokens[|tokens| - 1]];
    }
  }

  /** A token is counted at least once exactly when it occurs in some sentence. */
  lemma {:induction false} OccurrencesPositive(corpus: seq<seq<string>>, t: string)
    ensures Occurrences(corpus, t) > 0 <==> Occurs(corpus, t)
  {
    if corpus != [] {
      var init := corpus[..|corpus| - 1];
      OccurrencesPositive(init, t);
      CountInPositive(corpus[|corpus| - 1], t);
      if Occurs(corpus, t) {
        var i :| 0 <= i < |corpus| && t in corpus[i];
        if i < |corpus| - 1 {
          assert init[i] == corpus[i];
        }
      }
      if Occurs(init, t) {
        var i :| 0 <= i < |init| && t in init[i];
        assert corpus[i] == init[i];
      }
    }
  }

  /** The counting loop of build_vocab: `vocab[token] += 1` for every token of every
      sentence. The resulting map holds, for every token, its number of occurrences, and
      holds no key that does not occur. */
  method CountTokens(corpus: seq<seq<string>>) returns (counts: map<string, nat>)
    ensures forall t :: Get(counts, t) == Occurrences(corpus, t)
    ensures forall t :: t in counts ==> counts[t] > 0
  {
    counts := map[];
    var s := 0;
    while s < |corpus|
      invariant 0 <= s <= |corpus|
      invariant forall t :: Get(counts, t) == Occurrences(corpus[..s], t)
      invariant forall t :: t in counts ==> counts[t] > 0
    {
      var tokens := corpus[s];
      var k := 0;
      while k < |tokens|
        invariant 0 <= k <= |tokens|
        invariant forall t :: Get(counts, t) == Occurrences(corpus[..s], t) + CountIn(tokens[..k], t)
        invariant forall t :: t in counts ==> counts[t] > 0
      {
        var token := tokens[k];
        counts := counts[token := Get(counts, token) + 1];
        assert tokens[..k + 1][..k] == tokens[..k];
        k := k + 1;
      }
      assert tokens[..k] == tokens;
      assert corpus[..s + 1][..s] == corpus[..s];
      s := s + 1;
    }
    assert corpus[..s] == corpus;
  }

  /** The tokens of the corpus. */
  function Tokens(corpus: seq<seq<string>>): (r: set<string>)
    ensures forall t :: t in r <==> Occurs(corpus, t)
  {
    set i, j | 0 <= i < |corpus| && 0 <= j < |corpus[i]| :: corpus[i][j]
  }

  /** The counting map build_vocab should produce: every token of the corpus with its number
      of occurrences, which is positive, and no other key. */
  function Tally(corpus: seq<seq<string>>): (m: map<string, nat>)
    ensures forall t :: Get(m, t) == Occurrences(corpus, t)
    ensures forall t :: t in m ==> m[t] > 0
  {
    var m := map t | t in Tokens(corpus) :: Occurrences(corpus, t);
    assert forall t :: Get(m, t) == Occurrences(corpus, t) by {
      forall t ensures Get(m, t) == Occurrences(corpus, t) {
        OccurrencesPositive(corpus, t);
      }
    }
    assert forall t :: t in m ==> m[t] > 0 by {
      forall t | t in m ensures m[t] > 0 {
        OccurrencesPositive(corpus, t);
      }
    }
    m
  }

  /** A counting map with positive values is determined by the values it gives each token. */
  lemma SameCounts(a: map<string, nat>, b: map<string, nat>)
    requires forall t :: Get(a, t) == Get(b, t)
    requires forall t :: t in a ==> a[t] > 0
    requires forall t :: t in b ==> b[t] > 0
    ensures a == b
  {
    forall t ensures t in a <==> t in b {
      assert Get(a, t) == Get(b, t);
    }
    forall t | t in a ensures a[t] == b[t] {
      assert Get(a, t) == Get(b, t);
    }
    assert a.Keys == b.Keys;
  }

  /** A duplicate-free listing has as many distinct elements as entries. */
  lemma {:induction false} DistinctCardinality<T>(s: seq<T>)
    requires Distinct(s)
    ensures |set x | x in s| == |s|
  {
    if s != [] {
      var init := s[..|s| - 1];
      var last := s[|s| - 1];
      assert Distinct(init);
      DistinctCardinality(init);
      assert last !in init;
      assert (set x | x in s) == (set x | x in init) + {last};
    }
  }

  /** The keys of the counting map are exactly the tokens that occur in the corpus. */
  lemma CountKeys(corpus: seq<seq<string>>, counts: map<string, nat>)
    requires forall t :: Get(counts, t) == Occurrences(corpus, t)
    requires forall t :: t in counts ==> counts[t] > 0
    ensures forall t :: t in counts <==> Occurs(corpus, t)
  {
    forall t ensures t in counts <==> Occurs(corpus, t) {
      OccurrencesPositive(corpus, t);
    }
  }

  /** The counting map has one key per listed token. */
  lemma TallySize(corpus: seq<seq<string>>, order: seq<string>)
    requires Distinct(order) && forall t :: t in order <==> Occurs(corpus, t)
    ensures |Tally(corpus)| == |order|
  {
    assert Tally(corpus).Keys == set t | t in order;
    DistinctCardinality(order);
  }

  /** The value `min_count_` takes in the comparison `count <= min_count_` of build_vocab:
      `count` is a uint32_t and `min_count_` an int, so the int is converted to unsigned
      32-bit, and a negative threshold becomes a value of at least 2^31. */
  function Threshold(minCount: int): (r: nat)
    requires -0x8000_0000 <= minCount < 0x8000_0000
    ensures r < 0x1_0000_0000 && r % 0x1_0000_0000 == minCount % 0x1_0000_0000
  {
    if minCount < 0 then minCount + 0x1_0000_0000 else minCount
  }

  /** The tokens of `order` (the iteration order of the counting map) that survive
      filtering: those whose count is strictly greater than the threshold, in order. */
  function Survivors(order: seq<string>, counts: map<string, nat>, threshold: nat): seq<string>
  {
    if order == [] then []
    else
      var last := order[|order| - 1];
      Survivors(order[..|order| - 1], counts, threshold)
        + (if Get(counts, last) > threshold then [last] else [])
  }

  /** Listing one more token keeps it when its count is above the threshold. */
  lemma SurvivorsSnoc(order: seq<string>, counts: map<string, nat>, threshold: nat, i: nat)
    requires i < |order|
    ensures Survivors(order[..i + 1], counts, threshold) ==
      Survivors(order[..i], counts, threshold) + (if Get(counts, order[i]) > threshold then [order[i]] else [])
  {
    assert order[..i + 1][..i] == order[..i];
  }

  /** A token survives exactly when it is listed and its count is strictly greater than the
      threshold; survivors keep the listing's order and its freedom from duplicates. */
  lemma {:induction false} SurvivorsMembers(order: seq<string>, counts: map<string, nat>, threshold: nat)
    ensures forall t :: t in Survivors(order, counts, threshold) <==> t in order && Get(counts, t) > threshold
    ensures Distinct(order) ==> Distinct(Survivors(order, counts, threshold))
    ensures |Survivors(order, counts, threshold)| <= |order|
  {
    if order != [] {
      var init := order[..|order| - 1];
      var last := order[|order| - 1];
      SurvivorsMembers(init, counts, threshold);
      assert order == init + [last];
      if Distinct(order) {
        assert Distinct(init);
        assert last !in init;
      }
    }
  }

  /** With a negative min_count nothing survives, since every count fits in 31 bits while the
      converted threshold is at least 2^31. */
  lemma NegativeMinCountKeepsNothing(order: seq<string>, counts: map<string, nat>, minCount: int)
    requires -0x8000_0000 <= minCount < 0
    requires forall t :: t in counts ==> counts[t] < 0x8000_0000
    ensures Survivors(order, counts, Threshold(minCount)) == []
  {
    var kept := Survivors(order, counts, Threshold(minCount));
    SurvivorsMembers(order, counts, Threshold(minCount));
  }

  /** The vocabulary indices of the tokens that `vocab` knows, in token order; unknown tokens
      are dropped. */
  function Resolve(vocab: map<string, nat>, tokens: seq<string>): seq<nat>
  {
    if tokens == [] then []
    else
      var last := tokens[|tokens| - 1];
      Resolve(vocab, tokens[..|tokens| - 1]) + (if last in vocab then [vocab[last]] else [])
  }

  /** An index is resolved exactly when some known token maps to it. */
  lemma {:induction false} ResolveMembers(vocab: map<string, nat>, tokens: seq<string>)
    ensures forall x :: x in Resolve(vocab, tokens) <==> exists t :: t in tokens && t in vocab && vocab[t] == x
    ensures |Resolve(vocab, tokens)| <= |tokens|
  {
    if tokens != [] {
      var init := tokens[..|tokens| - 1];
      var last := tokens[|tokens| - 1];
      ResolveMembers(vocab, init);
      assert tokens == init + [last];
      forall x ensures x in Resolve(vocab, tokens) <==> exists t :: t in tokens && t in vocab && vocab[t] == x {
        if x in Resolve(vocab, tokens) && x !in Resolve(vocab, init) {
          assert last in tokens && last in vocab && vocab[last] == x;
        }
        if exists t :: t in tokens && t in vocab && vocab[t] == x {
          var t :| t in tokens && t in vocab && vocab[t] == x;
          if t != last {
            assert t in init;
          }
        }
      }
    }
  }

  /** The lookup loop `vocab_.find(token)` / `push_back` over a token list (the producer's
      resolution of a sentence and most_similar's resolution of its query words). */
  method Lookup(vocab: map<string, nat>, tokens: seq<string>) returns (ids: seq<nat>)
    ensures ids == Resolve(vocab, tokens)
  {
    ids := [];
    var i := 0;
    while i < |tokens|
      invariant 0 <= i <= |tokens|
      invariant ids == Resolve(vocab, tokens[..i])
    {
      if tokens[i] in vocab {
        ids := ids + [vocab[tokens[i]]];
      }
      assert tokens[..i + 1][..i] == tokens[..i];
      i := i + 1;
    }
    assert tokens[..i] == tokens;
  }
}
