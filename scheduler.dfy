/** The producer half of Model::train: every sentence with tokens gets its words resolved
    against the vocabulary and is queued, in order, in batches of 800 sentences; a final
    shorter batch follows if one is pending, and then one stop job per worker. The job queue
    is a sequence; the worker threads that drain it are not part of this module. */
module Scheduler {
  import opened Vocabulary

  /** batch_size: the number of sentences in a full job. */
  const BatchSize: nat := 800

  /** A sentence: its resolved words (vocabulary indices, standing for the `Word *` addresses of
      words_) and its tokens. */
  datatype Sentence = Sentence(words: seq<nat>, tokens: seq<string>)

  /** A queued job: a batch of sentences, or the null job that stops a worker. */
  datatype Job = Batch(sentences: seq<Sentence>) | Stop

  /** What the producer does to one sentence: one with tokens gets the indices of its known
      tokens, in order, appended to its words; one without tokens is left alone. */
  function Prepare(vocab: map<string, nat>, s: Sentence): (p: Sentence)
    ensures p.tokens == s.tokens
    ensures s.tokens == [] ==> p == s
    ensures s.tokens != [] ==> |s.words| <= |p.words| && p.words[..|s.words|] == s.words
    ensures s.tokens != [] ==> p.words[|s.words|..] == Resolve(vocab, s.tokens)
  {
    if s.tokens == [] then s
    else
      var p := s.(words := s.words + Resolve(vocab, s.tokens));
      assert p.words[..|s.words|] == s.words && p.words[|s.words|..] == Resolve(vocab, s.tokens);
      p
  }

  /** The sentences after the producer has run: every one prepared, in place. */
  function PrepareAll(vocab: map<string, nat>, sentences: seq<Sentence>): (r: seq<Sentence>)
    ensures |r| == |sentences|
    ensures forall j | 0 <= j < |sentences| :: r[j] == Prepare(vocab, sentences[j])
  {
    seq(|sentences|, j requires 0 <= j < |sentences| => Prepare(vocab, sentences[j]))
  }

  /** The sentences the producer queues, in input order: the prepared ones that have tokens. */
  function Ready(vocab: map<string, nat>, sentences: seq<Sentence>): seq<Sentence>
  {
    if sentences == [] then []
    else
      var last := sentences[|sentences| - 1];
      Ready(vocab, sentences[..|sentences| - 1]) + (if last.tokens == [] then [] else [Prepare(vocab, last)])
  }

  /** Consecutive batches of BatchSize sentences, the last one possibly shorter and never
      empty. */
  function Chunks(ready: seq<Sentence>): seq<Job>
    decreases |ready|
  {
    if ready == [] then []
    else if |ready| <= BatchSize then [Batch(ready)]
    else [Batch(ready[..BatchSize])] + Chunks(ready[BatchSize..])
  }

  /** One stop job per worker; a non-positive worker count gives none. */
  function Stops(nWorkers: int): (r: seq<Job>)
    ensures |r| == if nWorkers < 0 then 0 else nWorkers
    ensures forall k | 0 <= k < |r| :: r[k] == Stop
  {
    if nWorkers <= 0 then [] else Stops(nWorkers - 1) + [Stop]
  }

  /** The whole queue the producer fills. */
  function Schedule(vocab: map<string, nat>, sentences: seq<Sentence>, nWorkers: int): seq<Job>
  {
    Chunks(Ready(vocab, sentences)) + Stops(nWorkers)
  }

  /** The sentences of the queued batches, in queue order; stop jobs hold none. */
  function Flatten(jobs: seq<Job>): seq<Sentence>
  {
    if jobs == [] then []
    else Flatten(jobs[..|jobs| - 1]) + (match jobs[|jobs| - 1] case Batch(ss) => ss case Stop => [])
  }

  /** Every job is a batch of exactly BatchSize sentences. */
  ghost predicate FullBatches(jobs: seq<Job>)
  {
    forall k | 0 <= k < |jobs| :: jobs[k].Batch? && |jobs[k].sentences| == BatchSize
  }

  /** The job still being filled, queued only if it holds a sentence. */
  function Pending(job: seq<Sentence>): seq<Job>
  {
    if job == [] then [] else [Batch(job)]
  }

  /** The producer loop: resolve and queue each sentence with tokens, flush every full
      batch, flush the last partial batch, then queue a stop job per worker. It returns the
      sentences as it leaves them and the queue. */
  method Produce(vocab: map<string, nat>, sentences: seq<Sentence>, nWorkers: int)
    returns (updated: seq<Sentence>, jobs: seq<Job>)
    ensures updated == PrepareAll(vocab, sentences)
    ensures jobs == Schedule(vocab, sentences, nWorkers)
  {
    var job;
    updated, jobs, job := Enqueue(vocab, sentences);
    PendingChunks(jobs, job);
    if job != [] {
      jobs := jobs + [Batch(job)];
    }
    jobs := AddStops(jobs, nWorkers);
  }

  /** The last loop of the producer: one stop job per worker. */
  method AddStops(queue: seq<Job>, nWorkers: int) returns (jobs: seq<Job>)
    ensures jobs == queue + Stops(nWorkers)
  {
    jobs := queue;
    var w := 0;
    while w < nWorkers
      invariant (w == 0 || w <= nWorkers) && jobs == queue + Stops(w)
    {
      jobs := jobs + [Stop];
      w := w + 1;
    }
    assert nWorkers <= 0 ==> Stops(w) == Stops(nWorkers);
  }

  /** The sentence loop of the producer: it leaves every sentence prepared, and has queued
      full batches of the sentences with tokens, with the rest of them pending. */
  method Enqueue(vocab: map<string, nat>, sentences: seq<Sentence>)
    returns (updated: seq<Sentence>, jobs: seq<Job>, job: seq<Sentence>)
    ensures updated == PrepareAll(vocab, sentences)
    ensures FullBatches(jobs) && |job| < BatchSize
    ensures Flatten(jobs) + job == Ready(vocab, sentences)
  {
    updated := sentences;
    jobs := [];
    job := [];
    var i := 0;
    while i < |sentences|
      invariant 0 <= i <= |sentences| && |updated| == |sentences|
      invariant forall j | 0 <= j < |sentences| :: Visited(vocab, sentences, updated, i, j)
      invariant FullBatches(jobs) && |job| < BatchSize
      invariant Flatten(jobs) + job == Ready(vocab, sentences[..i])
    {
      ghost var before := updated;
      ReadySnoc(vocab, sentences, i);
      var resolved;
      jobs, job, resolved := Admit(vocab, jobs, job, sentences[i]);
      updated := updated[i := resolved];
      ghost var next := i + 1;
      forall j | 0 <= j < |sentences| ensures Visited(vocab, sentences, updated, next, j) {
        assert Visited(vocab, sentences, before, i, j);
      }
      i := i + 1;
    }
    assert sentences[..i] == sentences;
    forall j | 0 <= j < |sentences| ensures updated[j] == PrepareAll(vocab, sentences)[j] {
      assert Visited(vocab, sentences, updated, i, j);
    }
  }

  /** The body of the sentence loop: a sentence with tokens gets the indices of its known
      tokens appended to its words and joins the pending batch, which is queued once it
      holds BatchSize sentences; a sentence without tokens is passed over. */
  method Admit(vocab: map<string, nat>, queue: seq<Job>, pending: seq<Sentence>, s: Sentence)
    returns (jobs: seq<Job>, job: seq<Sentence>, resolved: Sentence)
    requires FullBatches(queue) && |pending| < BatchSize
    ensures resolved == if s.tokens == [] then s else Prepare(vocab, s)
    ensures FullBatches(jobs) && |job| < BatchSize
    ensures Flatten(jobs) + job == Flatten(queue) + pending + (if s.tokens == [] then [] else [resolved])
  {
    jobs, job, resolved := queue, pending, s;
    if s.tokens != [] {
      var ids := Lookup(vocab, s.tokens);
      resolved := s.(words := s.words + ids);
      assert resolved == Prepare(vocab, s);
      QueueStep(jobs, job, resolved);
      job := job + [resolved];
      if |job| == BatchSize {
        FlattenSnoc(jobs, Batch(job));
        FullSnoc(jobs, job);
        jobs := jobs + [Batch(job)];
        job := [];
      }
    }
  }

  /** Position j of the sentences holds the prepared sentence once the loop has passed it,
      and the original before. */
  ghost predicate Visited(vocab: map<string, nat>, sentences: seq<Sentence>, updated: seq<Sentence>, i: nat, j: nat)
    requires j < |sentences| && j < |updated|
  {
    updated[j] == if j < i then Prepare(vocab, sentences[j]) else sentences[j]
  }

  lemma FullSnoc(jobs: seq<Job>, job: seq<Sentence>)
    requires FullBatches(jobs) && |job| == BatchSize
    ensures FullBatches(jobs + [Batch(job)])
  {
  }

  lemma QueueStep(jobs: seq<Job>, job: seq<Sentence>, s: Sentence)
    ensures Flatten(jobs) + (job + [s]) == (Flatten(jobs) + job) + [s]
  {
  }

  /** Reading one more sentence queues it when it has tokens. */
  lemma ReadySnoc(vocab: map<string, nat>, sentences: seq<Sentence>, i: nat)
    requires i < |sentences|
    ensures Ready(vocab, sentences[..i + 1]) ==
      Ready(vocab, sentences[..i]) + (if sentences[i].tokens == [] then [] else [Prepare(vocab, sentences[i])])
  {
    assert sentences[..i + 1][..i] == sentences[..i];
  }

  lemma FlattenSnoc(jobs: seq<Job>, j: Job)
    ensures Flatten(jobs + [j]) == Flatten(jobs) + (match j case Batch(ss) => ss case Stop => [])
  {
    assert (jobs + [j])[..|jobs|] == jobs;
  }

  /** Flatten of a queue that starts with a given job. */
  lemma {:induction false} FlattenCons(j: Job, jobs: seq<Job>)
    ensures Flatten([j] + jobs) == (match j case Batch(ss) => ss case Stop => []) + Flatten(jobs)
    decreases |jobs|
  {
    if jobs != [] {
      var init := jobs[..|jobs| - 1];
      assert ([j] + jobs)[..|jobs|] == [j] + init;
      FlattenCons(j, init);
    }
  }

  /** Full batches followed by a short pending job are exactly the chunking of their
      sentences: what the producer queues is Chunks of what it read. */
  lemma {:induction false} PendingChunks(jobs: seq<Job>, job: seq<Sentence>)
    requires FullBatches(jobs) && |job| < BatchSize
    ensures Chunks(Flatten(jobs) + job) == jobs + Pending(job)
    decreases |jobs|
  {
    if jobs == [] {
      assert Flatten(jobs) + job == job;
    } else {
      var rest := jobs[1..];
      assert jobs == [jobs[0]] + rest;
      FlattenCons(jobs[0], rest);
      assert FullBatches(rest) by {
        forall k | 0 <= k < |rest| ensures rest[k].Batch? && |rest[k].sentences| == BatchSize {
          assert rest[k] == jobs[k + 1];
        }
      }
      PendingChunks(rest, job);
      var all := Flatten(jobs) + job;
      var head := jobs[0].sentences;
      assert all == head + (Flatten(rest) + job);
      assert all[..BatchSize] == head;
      assert all[BatchSize..] == Flatten(rest) + job;
      if |all| == BatchSize {
        assert Flatten(rest) + job == [];
        assert Flatten(rest) == [] && job == [];
        assert Chunks(Flatten(rest) + job) == [];
        assert all == head;
      }
    }
  }

  // ---------------------------------------------------------------------------------------
  // What the queue holds.

  /** The batches hold exactly the queued sentences, in order. */
  lemma {:induction false} FlattenChunks(ready: seq<Sentence>)
    ensures Flatten(Chunks(ready)) == ready
    decreases |ready|
  {
    if ready != [] {
      if |ready| <= BatchSize {
        assert Flatten([Batch(ready)]) == Flatten([]) + ready;
      } else {
        FlattenChunks(ready[BatchSize..]);
        FlattenCons(Batch(ready[..BatchSize]), Chunks(ready[BatchSize..]));
        assert ready == ready[..BatchSize] + ready[BatchSize..];
      }
    }
  }

  /** The stop jobs hold no sentences. */
  lemma {:induction false} FlattenStops(nWorkers: int)
    ensures Flatten(Stops(nWorkers)) == []
    decreases if nWorkers < 0 then 0 else nWorkers
  {
    if nWorkers > 0 {
      FlattenStops(nWorkers - 1);
      FlattenSnoc(Stops(nWorkers - 1), Stop);
    }
  }

  /** The flattened queue is the sentences with tokens, prepared, in input order. */
  lemma FlattenSchedule(vocab: map<string, nat>, sentences: seq<Sentence>, nWorkers: int)
    ensures Flatten(Schedule(vocab, sentences, nWorkers)) == Ready(vocab, sentences)
  {
    FlattenAppend(Chunks(Ready(vocab, sentences)), Stops(nWorkers));
    FlattenChunks(Ready(vocab, sentences));
    FlattenStops(nWorkers);
  }

  lemma {:induction false} FlattenAppend(a: seq<Job>, b: seq<Job>)
    ensures Flatten(a + b) == Flatten(a) + Flatten(b)
    decreases |b|
  {
    if b != [] {
      var init := b[..|b| - 1];
      assert (a + b)[..|a + b| - 1] == a + init;
      FlattenAppend(a, init);
    } else {
      assert a + b == a;
    }
  }

  /** Every batch is non-empty and holds at most BatchSize sentences; all but the last
      hold exactly BatchSize; there are as many batches as BatchSize-blocks of sentences,
      rounding up. */
  lemma {:induction false} ChunkSizes(ready: seq<Sentence>)
    ensures |Chunks(ready)| == (|ready| + BatchSize - 1) / BatchSize
    ensures forall k | 0 <= k < |Chunks(ready)| :: Chunks(ready)[k].Batch? && 1 <= |Chunks(ready)[k].sentences| <= BatchSize
    ensures forall k | 0 <= k < |Chunks(ready)| - 1 :: |Chunks(ready)[k].sentences| == BatchSize
    decreases |ready|
  {
    if |ready| > BatchSize {
      var rest := ready[BatchSize..];
      ChunkSizes(rest);
      var c := Chunks(ready);
      assert c == [Batch(ready[..BatchSize])] + Chunks(rest);
      forall k | 1 <= k < |c| ensures c[k] == Chunks(rest)[k - 1] {
      }
    }
  }

  /** The queue is the batches followed by exactly one stop job per worker: no stop job
      comes before a batch. */
  lemma StopsLast(vocab: map<string, nat>, sentences: seq<Sentence>, nWorkers: int)
    ensures |Schedule(vocab, sentences, nWorkers)| == |Chunks(Ready(vocab, sentences))| + (if nWorkers < 0 then 0 else nWorkers)
    ensures forall k | 0 <= k < |Schedule(vocab, sentences, nWorkers)| ::
      Schedule(vocab, sentences, nWorkers)[k].Stop? <==> k >= |Chunks(Ready(vocab, sentences))|
  {
    ChunkSizes(Ready(vocab, sentences));
  }

  /** The queued sentences are exactly the prepared sentences that have tokens. */
  lemma {:induction false} ReadyMembers(vocab: map<string, nat>, sentences: seq<Sentence>)
    ensures forall p :: p in Ready(vocab, sentences) <==> exists s | s in sentences :: s.tokens != [] && p == Prepare(vocab, s)
    ensures |Ready(vocab, sentences)| <= |sentences|
  {
    if sentences != [] {
      var init := sentences[..|sentences| - 1];
      var last := sentences[|sentences| - 1];
      ReadyMembers(vocab, init);
      assert sentences == init + [last];
      forall p ensures p in Ready(vocab, sentences) <==> exists s | s in sentences :: s.tokens != [] && p == Prepare(vocab, s) {
        if exists s | s in sentences :: s.tokens != [] && p == Prepare(vocab, s) {
          var s :| s in sentences && s.tokens != [] && p == Prepare(vocab, s);
          if s != last {
            assert s in init;
          }
        }
      }
    }
  }
}
