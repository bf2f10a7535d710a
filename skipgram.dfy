/** The index structure of Model::train_sentence: for every position of a sentence, the
    context positions inside its (randomly reduced) window, and for each of them the
    syn1 rows of the current word's Huffman path that the hierarchical-softmax step reads
    and may update. The updates themselves are floating point and are left out: a pass is
    described by the sequence of the (position, context, bit) steps it takes. */
module SkipGram {

  /** The data one call works on: the sentence's words_ as vocabulary indices, the codes_
      and points_ of every vocabulary word by index, window_, and the reduced_window drawn
      for this sentence. */
  datatype Pass = Pass(ids: seq<nat>, codes: seq<seq<nat>>, points: seq<seq<nat>>, window: int, reduced: int)
  {
    /** reduced_window is `rand() % window_`, so it lies in [0, window_); every word of the
        sentence is in the vocabulary and has at least as many points as code bits. */
    ghost predicate Valid()
    {
      0 <= reduced < window &&
      forall k | 0 <= k < |ids| :: ids[k] < |codes| && ids[k] < |points| && |codes[ids[k]]| <= |points[ids[k]]|
    }

    /** `std::max(0, i - window_ + reduced_window)`: the first context position. */
    function Lo(i: nat): (j: nat)
      ensures j == 0 || j == i - window + reduced
    {
      if i - window + reduced > 0 then i - window + reduced else 0
    }

    /** `std::min(len, i + window_ + 1 - reduced_window)`: one past the last context
        position. */
    function Hi(i: nat): (k: int)
      ensures k == |ids| || k == i + window + 1 - reduced
    {
      if i + window + 1 - reduced < |ids| then i + window + 1 - reduced else |ids|
    }
  }

  /** One step of the inner loop: at `position`, with context word at `context`, bit `bit`
      of the current word's code, which reads syn1 row `row` for the dot product and, when
      that product lies strictly between -6 and 6, updates it with the gradient for the
      label 1 - `target` (`target` is the code bit). Whether the update happens depends on
      float values and is not part of the step. */
  datatype Step = Step(position: nat, context: nat, bit: nat, row: nat, target: nat)

  /** The steps for one (position, context) pair, over the first n bits of the current
      word's code. */
  function Bits(p: Pass, i: nat, j: nat, n: nat): (r: seq<Step>)
    requires p.Valid() && i < |p.ids| && n <= |p.codes[p.ids[i]]|
    ensures |r| == n
  {
    seq(n, b requires 0 <= b < n => Step(i, j, b, p.points[p.ids[i]][b], p.codes[p.ids[i]][b]))
  }

  /** The steps for one (position, context) pair: none when the context is the position
      itself or its word has an empty code, otherwise one per bit of the current word's
      code. */
  function Context(p: Pass, i: nat, j: nat): seq<Step>
    requires p.Valid() && i < |p.ids| && j < |p.ids|
  {
    if j == i || p.codes[p.ids[j]] == [] then [] else Bits(p, i, j, |p.codes[p.ids[i]]|)
  }

  /** The steps for position i over the contexts lo .. hi - 1, in order. */
  function Contexts(p: Pass, i: nat, lo: nat, hi: nat): seq<Step>
    requires p.Valid() && i < |p.ids| && hi <= |p.ids|
    decreases hi
  {
    if hi <= lo then [] else Contexts(p, i, lo, hi - 1) + Context(p, i, hi - 1)
  }

  /** The steps for the first n positions, in order. */
  function Positions(p: Pass, n: nat): seq<Step>
    requires p.Valid() && n <= |p.ids|
  {
    if n == 0 then [] else Positions(p, n - 1) + Contexts(p, n - 1, p.Lo(n - 1), p.Hi(n - 1))
  }

  /** The steps of a whole call. */
  function Trace(p: Pass): seq<Step>
    requires p.Valid()
  {
    Positions(p, |p.ids|)
  }

  /** train_sentence: visits every position, every context in its window, and every bit of
      the current word's code; it returns the sentence length and the steps it took. */
  method TrainSentence(p: Pass) returns (count: nat, steps: seq<Step>)
    requires p.Valid()
    ensures count == |p.ids|
    ensures steps == Trace(p)
  {
    count := 0;
    steps := [];
    var len := |p.ids|;
    var i := 0;
    while i < len
      invariant 0 <= i <= len && count == i
      invariant steps == Positions(p, i)
    {
      var window := WindowSteps(p, i);
      PositionsSnoc(p, i);
      steps := steps + window;
      count := count + 1;
      i := i + 1;
    }
  }

  /** The middle loop of train_sentence for position i: the contexts from
      `max(0, i - window_ + reduced_window)` up to `min(len, i + window_ + 1 - reduced_window)`. */
  method WindowSteps(p: Pass, i: nat) returns (steps: seq<Step>)
    requires p.Valid() && i < |p.ids|
    ensures steps == Contexts(p, i, p.Lo(i), p.Hi(i))
  {
    steps := [];
    var len := |p.ids|;
    var j := if i - p.window + p.reduced > 0 then i - p.window + p.reduced else 0;
    var k := if i + p.window + 1 - p.reduced < len then i + p.window + 1 - p.reduced else len;
    assert j == p.Lo(i) && k == p.Hi(i);
    while j < k
      invariant p.Lo(i) <= j <= k
      invariant steps == Contexts(p, i, p.Lo(i), j)
    {
      var context := ContextSteps(p, i, j);
      ContextsSnoc(p, i, p.Lo(i), j);
      steps := steps + context;
      j := j + 1;
    }
  }

  /** The body of the middle loop: nothing when the context is the position itself or its
      word has an empty code, otherwise the inner loop over the current word's code. */
  method ContextSteps(p: Pass, i: nat, j: nat) returns (steps: seq<Step>)
    requires p.Valid() && i < |p.ids| && j < |p.ids|
    ensures steps == Context(p, i, j)
  {
    steps := [];
    var current := p.ids[i];
    var word := p.ids[j];
    if j == i || p.codes[word] == [] {
      return;
    }
    var codelen := |p.codes[current]|;
    var b := 0;
    while b < codelen
      invariant 0 <= b <= codelen
      invariant steps == Bits(p, i, j, b)
    {
      BitsSnoc(p, i, j, b);
      steps := steps + [Step(i, j, b, p.points[current][b], p.codes[current][b])];
      b := b + 1;
    }
  }

  lemma PositionsSnoc(p: Pass, i: nat)
    requires p.Valid() && i < |p.ids|
    ensures Positions(p, i + 1) == Positions(p, i) + Contexts(p, i, p.Lo(i), p.Hi(i))
  {
  }

  lemma ContextsSnoc(p: Pass, i: nat, lo: nat, j: nat)
    requires p.Valid() && i < |p.ids| && lo <= j < |p.ids|
    ensures Contexts(p, i, lo, j + 1) == Contexts(p, i, lo, j) + Context(p, i, j)
  {
  }

  lemma BitsSnoc(p: Pass, i: nat, j: nat, n: nat)
    requires p.Valid() && i < |p.ids| && n < |p.codes[p.ids[i]]|
    ensures Bits(p, i, j, n + 1) == Bits(p, i, j, n) + [Step(i, j, n, p.points[p.ids[i]][n], p.codes[p.ids[i]][n])]
  {
  }

  // ---------------------------------------------------------------------------------------
  // What a pass visits.

  /** The window of position i is every position within window_ - reduced_window of it,
      inside the sentence; it always holds i itself. */
  lemma WindowBounds(p: Pass, i: nat, j: nat)
    requires p.Valid() && i < |p.ids| && j < |p.ids|
    ensures p.Lo(i) <= i < p.Hi(i) <= |p.ids|
    ensures p.Lo(i) <= j < p.Hi(i) <==> i - (p.window - p.reduced) <= j <= i + (p.window - p.reduced)
  {
  }

  /** Position j is in the window of i exactly when i is in the window of j. */
  lemma WindowSymmetric(p: Pass, i: nat, j: nat)
    requires p.Valid() && i < |p.ids| && j < |p.ids|
    ensures p.Lo(i) <= j < p.Hi(i) <==> p.Lo(j) <= i < p.Hi(j)
  {
    WindowBounds(p, i, j);
    WindowBounds(p, j, i);
  }

  /** The step `s` is one train_sentence takes: its context lies in the window of its
      position and is not the position itself, the context word has a non-empty code, and
      the step's bit is a bit of the current word's code, with that bit's point as the
      syn1 row and the bit's value as the target. */
  ghost predicate Visits(p: Pass, s: Step)
    requires p.Valid()
  {
    s.position < |p.ids| && s.context < |p.ids| &&
    p.Lo(s.position) <= s.context < p.Hi(s.position) && s.context != s.position &&
    p.codes[p.ids[s.context]] != [] &&
    s.bit < |p.codes[p.ids[s.position]]| &&
    s.row == p.points[p.ids[s.position]][s.bit] && s.target == p.codes[p.ids[s.position]][s.bit]
  }

  /** The steps of one (position, context) pair. */
  lemma ContextMembers(p: Pass, i: nat, j: nat, s: Step)
    requires p.Valid() && i < |p.ids| && j < |p.ids|
    ensures s in Context(p, i, j) <==>
      s.position == i && s.context == j && j != i && p.codes[p.ids[j]] != [] &&
      s.bit < |p.codes[p.ids[i]]| && s.row == p.points[p.ids[i]][s.bit] && s.target == p.codes[p.ids[i]][s.bit]
  {
    if j != i && p.codes[p.ids[j]] != [] {
      var bits := Bits(p, i, j, |p.codes[p.ids[i]]|);
      if s.position == i && s.context == j && s.bit < |p.codes[p.ids[i]]| &&
         s.row == p.points[p.ids[i]][s.bit] && s.target == p.codes[p.ids[i]][s.bit] {
        assert bits[s.bit] == s;
      }
    }
  }

  /** The steps of position i over the contexts lo .. hi - 1. */
  lemma {:induction false} ContextsMembers(p: Pass, i: nat, lo: nat, hi: nat, s: Step)
    requires p.Valid() && i < |p.ids| && hi <= |p.ids|
    ensures s in Contexts(p, i, lo, hi) <==> lo <= s.context < hi && s in Context(p, i, s.context)
    decreases hi
  {
    if lo < hi {
      ContextsMembers(p, i, lo, hi - 1, s);
      if s.context < |p.ids| {
        ContextMembers(p, i, hi - 1, s);
        ContextMembers(p, i, s.context, s);
      }
    }
  }

  /** Every step of position i's window has position i. */
  lemma ContextsPosition(p: Pass, i: nat, lo: nat, hi: nat, s: Step)
    requires p.Valid() && i < |p.ids| && hi <= |p.ids| && s in Contexts(p, i, lo, hi)
    ensures s.position == i
  {
    ContextsMembers(p, i, lo, hi, s);
    ContextMembers(p, i, s.context, s);
  }

  /** The steps of the first n positions. */
  lemma {:induction false} PositionsMembers(p: Pass, n: nat, s: Step)
    requires p.Valid() && n <= |p.ids|
    ensures s in Positions(p, n) <==> s.position < n && s in Contexts(p, s.position, p.Lo(s.position), p.Hi(s.position))
  {
    if n > 0 {
      var i := n - 1;
      var last := Contexts(p, i, p.Lo(i), p.Hi(i));
      PositionsSnoc(p, i);
      PositionsMembers(p, i, s);
      if s in last {
        ContextsPosition(p, i, p.Lo(i), p.Hi(i), s);
      }
    }
  }

  /** train_sentence takes exactly the steps described by Visits: every in-window context
      with a non-empty code, paired with every bit of the current word's code. */
  lemma TraceMembers(p: Pass, s: Step)
    requires p.Valid()
    ensures s in Trace(p) <==> Visits(p, s)
  {
    PositionsMembers(p, |p.ids|, s);
    if s.position < |p.ids| {
      ContextsMembers(p, s.position, p.Lo(s.position), p.Hi(s.position), s);
      if s.context < |p.ids| {
        ContextMembers(p, s.position, s.context, s);
      }
    }
  }

  /** (i, j) is a pair for which train_sentence builds its `work` vector of layer1_size_
      entries: j lies in the window of i, is not i, and its word has a non-empty code. */
  predicate Engaged(p: Pass, i: nat, j: nat)
    requires p.Valid() && i < |p.ids| && j < |p.ids|
  {
    p.Lo(i) <= j < p.Hi(i) && j != i && p.codes[p.ids[j]] != []
  }

  /** Some pair of the sentence is Engaged. */
  predicate Engages(p: Pass)
    requires p.Valid()
  {
    exists i: nat, j: nat | i < |p.ids| && j < |p.ids| :: Engaged(p, i, j)
  }

  /** Every step belongs to an Engaged pair: a pass that builds no `work` vector reads no
      syn1 row. */
  lemma StepsEngage(p: Pass)
    requires p.Valid()
    ensures Trace(p) != [] ==> Engages(p)
  {
    if Trace(p) != [] {
      var s := Trace(p)[0];
      TraceMembers(p, s);
      assert Engaged(p, s.position, s.context);
    }
  }

  /** When every point of every word is below `rows` (the size of syn1), every row a pass
      touches is in bounds. */
  lemma RowsInBounds(p: Pass, rows: nat, s: Step)
    requires p.Valid()
    requires forall w, b | 0 <= w < |p.points| && 0 <= b < |p.points[w]| :: p.points[w][b] < rows
    requires s in Trace(p)
    ensures s.row < rows
  {
    TraceMembers(p, s);
  }
}
