/** The top-k selection of Model::most_similar, on the array `indexes` of row numbers keyed
    by the score of each row. The scores (dot products of floats in the source) are given
    data here. The standard heap functions are modelled by the property the selection
    relies on: after make_heap, or after pop_heap has moved the top to the end of the
    range, the first element of the range has the lowest score in it (the comparator
    `dists[i] > dists[j]` makes the heap top the lowest score). */
module Similarity {
  import opened Vocabulary

  /** The score of row x (0 for a row past the end, which no caller asks for). */
  function Score(scores: seq<int>, x: nat): int
  {
    if x < |scores| then scores[x] else 0
  }

  /** The first element of s has the lowest score of s. */
  ghost predicate MinFirst(scores: seq<int>, s: seq<nat>)
  {
    forall i | 0 <= i < |s| :: Score(scores, s[0]) <= Score(scores, s[i])
  }

  /** The scores of s do not increase along s. */
  ghost predicate Descending(scores: seq<int>, s: seq<nat>)
  {
    forall i, j | 0 <= i < j < |s| :: Score(scores, s[i]) >= Score(scores, s[j])
  }

  /** `chosen` is a set of the best rows among 0 .. n-1: distinct rows, and no row left
      out scores above a chosen one. */
  ghost predicate TopK(scores: seq<int>, chosen: seq<nat>, n: nat)
  {
    Distinct(chosen) &&
    (forall i | 0 <= i < |chosen| :: chosen[i] < n) &&
    forall x, i | 0 <= x < n && x !in chosen && 0 <= i < |chosen| :: Score(scores, x) <= Score(scores, chosen[i])
  }

  /** Exchange a[i] and a[j], inside the prefix a[..m]. */
  method Swap(a: array<nat>, i: nat, j: nat, ghost m: nat)
    requires i < m && j < m && m <= a.Length
    modifies a
    ensures a[i] == old(a[j]) && a[j] == old(a[i])
    ensures forall k | 0 <= k < a.Length && k != i && k != j :: a[k] == old(a[k])
    ensures multiset(a[..m]) == multiset(old(a[..m]))
    ensures a[m..] == old(a[m..])
  {
    a[i], a[j] := a[j], a[i];
    assert a[..m] == old(a[..m])[i := old(a[j])][j := old(a[i])];
  }

  /** What make_heap, and the sift-down inside pop_heap, guarantee here: the lowest score
      of a[..m] is brought to a[0]; a[..m] is permuted and the rest is untouched. */
  method MinToFront(a: array<nat>, scores: seq<int>, m: nat)
    requires m <= a.Length
    modifies a
    ensures multiset(a[..m]) == multiset(old(a[..m]))
    ensures a[m..] == old(a[m..])
    ensures MinFirst(scores, a[..m])
  {
    if m == 0 {
      return;
    }
    var t := 0;
    var i := 1;
    while i < m
      invariant 1 <= i <= m && t < i
      invariant forall j | 0 <= j < i :: Score(scores, a[t]) <= Score(scores, a[j])
    {
      if Score(scores, a[i]) < Score(scores, a[t]) {
        t := i;
      }
      i := i + 1;
    }
    Swap(a, 0, t, m);
  }

  /** pop_heap on a[..m]: the top (the lowest score) moves to a[m-1], and the lowest score
      of the rest comes to the front. */
  method PopHeap(a: array<nat>, scores: seq<int>, m: nat)
    requires 1 <= m <= a.Length
    modifies a
    ensures a[m - 1] == old(a[0])
    ensures multiset(a[..m]) == multiset(old(a[..m]))
    ensures a[m..] == old(a[m..])
    ensures MinFirst(scores, a[..m - 1])
  {
    Swap(a, 0, m - 1, m);
    ghost var swapped := a[..];
    MinToFront(a, scores, m - 1);
    assert a[m - 1] == swapped[m - 1];
    assert a[..m] == a[..m - 1] + [a[m - 1]];
    assert swapped[..m] == swapped[..m - 1] + [swapped[m - 1]];
    assert a[m..] == swapped[m..];
  }

  /** The state of the selection loop of most_similar after the rows below p have been
      seen: a[..k] holds distinct rows below p with the lowest score first, every other row
      below p scores no higher than that first one, and the rows from p on are untouched
      (a[j] == j). */
  ghost predicate Selecting(scores: seq<int>, s: seq<nat>, k: nat, p: nat)
    requires k < p <= |s|
  {
    (forall x | x in multiset(s[..k]) :: x < p) &&
    (forall x :: multiset(s[..k])[x] <= 1) &&
    MinFirst(scores, s[..k]) &&
    (forall x | 0 <= x < p && x !in multiset(s[..k]) :: k > 0 ==> Score(scores, x) <= Score(scores, s[0])) &&
    (forall j | p <= j < |s| :: s[j] == j)
  }

  /** The identity prefix holds every row below m once. */
  lemma {:induction false} IdentityRows(s: seq<nat>, m: nat)
    requires m <= |s| && forall j | 0 <= j < m :: s[j] == j
    ensures forall x: nat :: multiset(s[..m])[x] == if x < m then 1 else 0
  {
    if m > 0 {
      IdentityRows(s, m - 1);
      assert s[..m] == s[..m - 1] + [m - 1];
      forall x: nat ensures multiset(s[..m])[x] == if x < m then 1 else 0 {
        assert multiset(s[..m])[x] == multiset(s[..m - 1])[x] + (if x == m - 1 then 1 else 0);
      }
    } else {
      assert s[..m] == [];
    }
  }

  /** make_heap then pop_heap on the first k + 1 rows of the identity array starts the
      selection: the row popped to a[k] has the lowest score of them. */
  lemma SelectStart(scores: seq<int>, init: seq<nat>, s0: seq<nat>, s1: seq<nat>, k: nat)
    requires k < |init| && |s0| == |init| && |s1| == |init|
    requires forall j | 0 <= j < |init| :: init[j] == j
    requires multiset(s0[..k + 1]) == multiset(init[..k + 1]) && s0[k + 1..] == init[k + 1..]
    requires MinFirst(scores, s0[..k + 1])
    requires s1[k] == s0[0] && multiset(s1[..k + 1]) == multiset(s0[..k + 1]) && s1[k + 1..] == s0[k + 1..]
    requires MinFirst(scores, s1[..k])
    ensures Selecting(scores, s1, k, k + 1)
  {
    IdentityRows(init, k + 1);
    assert s1[..k + 1] == s1[..k] + [s1[k]];
    forall x ensures multiset(s1[..k])[x] <= 1 && (x in multiset(s1[..k]) ==> x < k + 1) {
      assert multiset(s1[..k + 1])[x] == multiset(s1[..k])[x] + (if x == s1[k] then 1 else 0);
    }
    forall j | k + 1 <= j < |s1| ensures s1[j] == j {
      assert s1[j] == s1[k + 1..][j - (k + 1)] == s0[k + 1..][j - (k + 1)] == init[j];
    }
    forall x | 0 <= x < k + 1 && x !in multiset(s1[..k]) ensures k > 0 ==> Score(scores, x) <= Score(scores, s1[0]) {
      if k > 0 {
        assert multiset(s1[..k + 1])[x] == multiset(s1[..k])[x] + (if x == s1[k] then 1 else 0);
        assert x == s1[k];
        assert s1[0] in multiset(s0[..k + 1]);
      }
    }
  }

  /** A row that scores above the top replaces it: the old top leaves the heap, which still
      holds the best rows seen so far. */
  lemma AcceptStep(scores: seq<int>, s0: seq<nat>, s1: seq<nat>, k: nat, p: nat)
    requires 0 < k < p < |s0| && |s1| == |s0| && Selecting(scores, s0, k, p)
    requires Score(scores, p) > Score(scores, s0[0])
    requires s1[k] == s0[0] && multiset(s1[..k + 1]) == multiset(s0[..k]) + multiset{p}
    requires s1[k + 1..] == s0[k + 1..] && MinFirst(scores, s1[..k])
    ensures Selecting(scores, s1, k, p + 1)
  {
    assert s1[..k + 1] == s1[..k] + [s1[k]];
    forall j | p + 1 <= j < |s1| ensures s1[j] == j {
      assert s1[j] == s1[k + 1..][j - (k + 1)] == s0[j];
    }
    var top0 := s0[0];
    assert top0 in multiset(s0[..k]);
    assert p !in multiset(s0[..k]);
    assert multiset(s1[..k]) == multiset(s0[..k]) + multiset{p} - multiset{top0};
    assert s1[0] in multiset(s1[..k]);
    assert Score(scores, top0) <= Score(scores, s1[0]) by {
      if s1[0] != p {
        assert s1[0] in s0[..k];
      }
    }
    forall x ensures multiset(s1[..k])[x] <= 1 && (x in multiset(s1[..k]) ==> x < p + 1) {
      assert multiset(s1[..k])[x] <= multiset(s0[..k])[x] + (if x == p then 1 else 0);
    }
    forall x | 0 <= x < p + 1 && x !in multiset(s1[..k]) ensures Score(scores, x) <= Score(scores, s1[0]) {
      if x != top0 {
        assert x != p && x !in multiset(s0[..k]);
      }
    }
  }

  /** With no room for candidates (k = 0) the loop only moves past each row. */
  lemma EmptyStep(scores: seq<int>, s0: seq<nat>, s1: seq<nat>, p: nat)
    requires 0 < p < |s0| && |s1| == |s0| && Selecting(scores, s0, 0, p)
    requires s1[1..] == s0[1..]
    ensures Selecting(scores, s1, 0, p + 1)
  {
    forall j | p + 1 <= j < |s1| ensures s1[j] == j {
      assert s1[j] == s1[1..][j - 1] == s0[j];
    }
  }

  /** A row that scores no higher than the top is passed over. */
  lemma RejectStep(scores: seq<int>, s: seq<nat>, k: nat, p: nat)
    requires k < p < |s| && Selecting(scores, s, k, p)
    requires k > 0 ==> Score(scores, p) <= Score(scores, s[0])
    ensures Selecting(scores, s, k, p + 1)
  {
  }

  /** A sequence whose multiset holds each element at most once has no duplicates. */
  lemma {:induction false} SingleCopies(s: seq<nat>)
    requires forall x :: multiset(s)[x] <= 1
    ensures Distinct(s)
  {
    if s != [] {
      var init := s[..|s| - 1];
      assert s == init + [s[|s| - 1]];
      forall x ensures multiset(init)[x] <= 1 {
        assert multiset(s)[x] == multiset(init)[x] + (if x == s[|s| - 1] then 1 else 0);
      }
      SingleCopies(init);
      assert multiset(s)[s[|s| - 1]] == multiset(init)[s[|s| - 1]] + 1;
    }
  }

  /** When every row has been seen, a[..k], in any order, holds k best rows. */
  lemma SelectDone(scores: seq<int>, s: seq<nat>, k: nat, chosen: seq<nat>)
    requires k < |s| && Selecting(scores, s, k, |s|)
    requires multiset(chosen) == multiset(s[..k])
    ensures TopK(scores, chosen, |s|)
  {
    SingleCopies(chosen);
    forall i | 0 <= i < |chosen| ensures chosen[i] < |s| {
      assert chosen[i] in multiset(chosen);
    }
    forall x, i | 0 <= x < |s| && x !in chosen && 0 <= i < |chosen| ensures Score(scores, x) <= Score(scores, chosen[i]) {
      assert x !in multiset(s[..k]);
      assert chosen[i] in multiset(s[..k]);
      var j :| 0 <= j < k && s[..k][j] == chosen[i];
    }
  }

  /** The selection part of most_similar on `indexes` (a[j] == j on entry): make_heap and
      pop_heap on the first k + 1 rows, then every later row that scores above the top
      replaces it, and finally sort_heap on the first k. On return a[..k] holds k rows no
      other row outscores, best first. */
  method Select(a: array<nat>, scores: seq<int>, k: nat)
    requires k < a.Length
    requires forall j | 0 <= j < a.Length :: a[j] == j
    modifies a
    ensures TopK(scores, a[..k], a.Length)
    ensures Descending(scores, a[..k])
  {
    StartHeap(a, scores, k);
    var p := k + 1;
    while p < a.Length
      invariant k < p <= a.Length
      invariant Selecting(scores, a[..], k, p)
    {
      Offer(a, scores, k, p);
      p := p + 1;
    }
    ghost var done := a[..];
    SortHeap(a, scores, k);
    SelectDone(scores, done, k, a[..k]);
  }

  /** make_heap and pop_heap on the first k + 1 rows of `indexes`. */
  method StartHeap(a: array<nat>, scores: seq<int>, k: nat)
    requires k < a.Length
    requires forall j | 0 <= j < a.Length :: a[j] == j
    modifies a
    ensures Selecting(scores, a[..], k, k + 1)
  {
    ghost var init := a[..];
    MinToFront(a, scores, k + 1);
    ghost var heaped := a[..];
    PopHeap(a, scores, k + 1);
    SelectStart(scores, init, heaped, a[..], k);
  }

  /** One turn of the selection loop: row p replaces the top and is sifted in when it
      scores above the top, and is passed over otherwise. */
  method Offer(a: array<nat>, scores: seq<int>, k: nat, p: nat)
    requires k < p < a.Length && Selecting(scores, a[..], k, p)
    modifies a
    ensures Selecting(scores, a[..], k, p + 1)
  {
    ghost var before := a[..];
    if Score(scores, a[p]) > Score(scores, a[0]) {
      a[k] := a[p];
      ghost var placed := a[..];
      assert placed[..k + 1] == before[..k] + [p];
      assert placed[k + 1..] == before[k + 1..];
      PopHeap(a, scores, k + 1);
      if k > 0 {
        AcceptStep(scores, before, a[..], k, p);
      } else {
        EmptyStep(scores, before, a[..], p);
      }
    } else {
      RejectStep(scores, before, k, p);
    }
  }

  /** The state of sort_heap on a[..k] with m rows left in the heap: the lowest score of
      a[..m] is first, a[m..k] is in non-increasing score order, and no row of a[m..k]
      scores above a row still in the heap. */
  ghost predicate Sorting(scores: seq<int>, s: seq<nat>, m: nat, k: nat)
    requires m <= k <= |s|
  {
    MinFirst(scores, s[..m]) &&
    (forall i, j | m <= i < j < k :: Score(scores, s[i]) >= Score(scores, s[j])) &&
    (forall i, j | 0 <= i < m <= j < k :: Score(scores, s[i]) >= Score(scores, s[j]))
  }

  /** Permuting a[..m] permutes a[..k] for every k >= m and leaves a[k..] alone. */
  lemma PrefixShuffle(s0: seq<nat>, s1: seq<nat>, m: nat, k: nat)
    requires m <= k <= |s0| && |s1| == |s0|
    requires multiset(s1[..m]) == multiset(s0[..m]) && s1[m..] == s0[m..]
    ensures multiset(s1[..k]) == multiset(s0[..k]) && s1[k..] == s0[k..]
  {
    assert s0[..k] == s0[..m] + s0[m..][..k - m];
    assert s1[..k] == s1[..m] + s1[m..][..k - m];
    assert s1[k..] == s1[m..][k - m..];
    assert s0[k..] == s0[m..][k - m..];
  }

  /** One pop_heap of sort_heap: the lowest score of the heap joins the front of the sorted
      part. */
  lemma SortStep(scores: seq<int>, s0: seq<nat>, s1: seq<nat>, m: nat, k: nat)
    requires 1 < m <= k <= |s0| && |s1| == |s0| && Sorting(scores, s0, m, k)
    requires s1[m - 1] == s0[0] && multiset(s1[..m]) == multiset(s0[..m]) && s1[m..] == s0[m..]
    requires MinFirst(scores, s1[..m - 1])
    ensures Sorting(scores, s1, m - 1, k)
  {
    forall j | m <= j < k ensures s1[j] == s0[j] {
      assert s1[j] == s1[m..][j - m];
    }
    forall i | 0 <= i < m ensures exists i' :: 0 <= i' < m && s0[i'] == s1[i] {
      assert s1[i] in multiset(s1[..m]);
      assert s1[i] in s0[..m];
    }
    forall i, j | 0 <= i < m - 1 < j < k ensures Score(scores, s1[i]) >= Score(scores, s1[j]) {
      var i' :| 0 <= i' < m && s0[i'] == s1[i];
      assert Score(scores, s0[i']) >= Score(scores, s0[0]);
    }
    forall i | 0 <= i < m - 1 ensures Score(scores, s1[i]) >= Score(scores, s1[m - 1]) {
      var i' :| 0 <= i' < m && s0[i'] == s1[i];
      assert s0[..m][i'] == s0[i'];
    }
  }

  /** sort_heap on a[..k], whose first row has the lowest score: pops the heap until one
      row is left, leaving a[..k] in non-increasing score order. */
  method SortHeap(a: array<nat>, scores: seq<int>, k: nat)
    requires k <= a.Length && MinFirst(scores, a[..k])
    modifies a
    ensures multiset(a[..k]) == multiset(old(a[..k])) && a[k..] == old(a[k..])
    ensures Descending(scores, a[..k])
  {
    ghost var orig := a[..];
    var m := k;
    while m > 1
      invariant 0 <= m <= k
      invariant Sorting(scores, a[..], m, k)
      invariant multiset(a[..k]) == multiset(orig[..k]) && a[k..] == orig[k..]
    {
      ghost var before := a[..];
      PopHeap(a, scores, m);
      SortStep(scores, before, a[..], m, k);
      PrefixShuffle(before, a[..], m, k);
      m := m - 1;
    }
  }

  // ---------------------------------------------------------------------------------------
  // The results loop.

  /** The rows of `ranked`, in order, that are not query words. */
  function Keep(ranked: seq<nat>, query: seq<nat>): (r: seq<nat>)
    ensures |r| <= |ranked|
  {
    if ranked == [] then []
    else
      var last := ranked[|ranked| - 1];
      Keep(ranked[..|ranked| - 1], query) + (if last in query then [] else [last])
  }

  /** How many results the loop emits at most: the counter test `++j >= topn` runs after
      the first result is pushed, so a topn of 0 or below still lets one through. */
  function Cap(topn: int): (c: nat)
    ensures c >= 1 && (topn >= 1 ==> c == topn)
  {
    if topn < 1 then 1 else topn
  }

  /** The rows most_similar reports: the first Cap(topn) rows of `ranked` that are not
      query words. */
  function Chosen(ranked: seq<nat>, query: seq<nat>, topn: int): seq<nat>
  {
    var kept := Keep(ranked, query);
    if Cap(topn) < |kept| then kept[..Cap(topn)] else kept
  }

  /** The text of row x (empty for a row past the end, which no caller asks for). */
  function Text(texts: seq<string>, x: nat): string
  {
    if x < |texts| then texts[x] else ""
  }

  /** The (text, score) pair reported for each row. */
  function Label(rows: seq<nat>, texts: seq<string>, scores: seq<int>): (r: seq<(string, int)>)
    ensures |r| == |rows|
    ensures forall i | 0 <= i < |rows| :: r[i] == (Text(texts, rows[i]), Score(scores, rows[i]))
  {
    seq(|rows|, i requires 0 <= i < |rows| => (Text(texts, rows[i]), Score(scores, rows[i])))
  }

  /** The results loop of most_similar over the k ranked rows: query words are skipped, and
      the loop stops once the counter reaches topn. */
  method Results(ranked: seq<nat>, query: seq<nat>, topn: int, texts: seq<string>, scores: seq<int>)
    returns (results: seq<(string, int)>)
    ensures results == Label(Chosen(ranked, query, topn), texts, scores)
  {
    results := [];
    ghost var kept: seq<nat> := [];
    var i := 0;
    var j := 0;
    while i < |ranked|
      invariant 0 <= i <= |ranked|
      invariant kept == Keep(ranked[..i], query)
      invariant results == Label(kept, texts, scores)
      invariant j == |kept| < Cap(topn)
    {
      KeepSnoc(ranked, query, i);
      if ranked[i] in query {
        i := i + 1;
        continue;
      }
      LabelSnoc(kept, ranked[i], texts, scores);
      results := results + [(Text(texts, ranked[i]), Score(scores, ranked[i]))];
      kept := kept + [ranked[i]];
      j := j + 1;
      if j >= topn {
        ChosenCut(ranked, query, topn, i + 1);
        return;
      }
      i := i + 1;
    }
    assert ranked[..i] == ranked;
  }

  lemma LabelSnoc(rows: seq<nat>, x: nat, texts: seq<string>, scores: seq<int>)
    ensures Label(rows + [x], texts, scores) == Label(rows, texts, scores) + [(Text(texts, x), Score(scores, x))]
  {
  }

  /** Once the first n rows have kept Cap(topn) rows, those are the rows reported. */
  lemma ChosenCut(ranked: seq<nat>, query: seq<nat>, topn: int, n: nat)
    requires n <= |ranked| && |Keep(ranked[..n], query)| == Cap(topn)
    ensures Chosen(ranked, query, topn) == Keep(ranked[..n], query)
  {
    KeepPrefix(ranked, query, n);
  }

  lemma KeepSnoc(ranked: seq<nat>, query: seq<nat>, i: nat)
    requires i < |ranked|
    ensures Keep(ranked[..i + 1], query) == Keep(ranked[..i], query) + (if ranked[i] in query then [] else [ranked[i]])
  {
    assert ranked[..i + 1][..i] == ranked[..i];
  }

  /** What the loop has kept after the first n rows begins what it keeps overall. */
  lemma {:induction false} KeepPrefix(ranked: seq<nat>, query: seq<nat>, n: nat)
    requires n <= |ranked|
    ensures Keep(ranked[..n], query) <= Keep(ranked, query)
    decreases |ranked| - n
  {
    if n == |ranked| {
      assert ranked[..n] == ranked;
    } else {
      var init := ranked[..|ranked| - 1];
      KeepPrefix(init, query, n);
      assert init[..n] == ranked[..n];
    }
  }

  /** A row is kept exactly when it is ranked and is not a query word. */
  lemma {:induction false} KeepMembers(ranked: seq<nat>, query: seq<nat>, x: nat)
    ensures x in Keep(ranked, query) <==> x in ranked && x !in query
  {
    if ranked != [] {
      var init := ranked[..|ranked| - 1];
      KeepMembers(init, query, x);
      assert ranked == init + [ranked[|ranked| - 1]];
    }
  }

  /** Keeping rows keeps their order, and keeps them distinct. */
  lemma {:induction false} KeepOrder(scores: seq<int>, ranked: seq<nat>, query: seq<nat>)
    ensures Descending(scores, ranked) ==> Descending(scores, Keep(ranked, query))
    ensures Distinct(ranked) ==> Distinct(Keep(ranked, query))
  {
    if ranked != [] {
      var init := ranked[..|ranked| - 1];
      var last := ranked[|ranked| - 1];
      KeepOrder(scores, init, query);
      var kept := Keep(init, query);
      forall i | 0 <= i < |kept| ensures kept[i] in init {
        KeepMembers(init, query, kept[i]);
      }
      if Descending(scores, ranked) {
        forall x | x in init ensures Score(scores, x) >= Score(scores, last) {
          var i :| 0 <= i < |init| && init[i] == x;
        }
      }
      if Distinct(ranked) {
        assert last !in init;
      }
    }
  }

  /** The rows reported are ranked rows that are not query words, at most Cap(topn) of
      them; fewer only when every such row is reported. */
  lemma ChosenMembers(ranked: seq<nat>, query: seq<nat>, topn: int, x: nat)
    ensures x in Chosen(ranked, query, topn) ==> x in ranked && x !in query
    ensures |Chosen(ranked, query, topn)| <= Cap(topn)
    ensures |Chosen(ranked, query, topn)| < Cap(topn) && x in ranked && x !in query ==> x in Chosen(ranked, query, topn)
  {
    KeepMembers(ranked, query, x);
  }

  /** Over a ranking that is best first, the rows reported are distinct, best first, and
      no row left out (other than a query word) scores above a reported one. */
  lemma ChosenBest(scores: seq<int>, ranked: seq<nat>, query: seq<nat>, topn: int, n: nat)
    requires TopK(scores, ranked, n) && Descending(scores, ranked)
    ensures Distinct(Chosen(ranked, query, topn)) && Descending(scores, Chosen(ranked, query, topn))
    ensures forall x, y | x in Chosen(ranked, query, topn) && 0 <= y < n && y !in query && y !in Chosen(ranked, query, topn) ::
      Score(scores, y) <= Score(scores, x)
  {
    var kept := Keep(ranked, query);
    var chosen := Chosen(ranked, query, topn);
    KeepOrder(scores, ranked, query);
    forall x, y | x in chosen && 0 <= y < n && y !in query && y !in chosen ensures Score(scores, y) <= Score(scores, x) {
      ChosenMembers(ranked, query, topn, x);
      KeepMembers(ranked, query, y);
      var a :| 0 <= a < |chosen| && chosen[a] == x;
      var i :| 0 <= i < |ranked| && ranked[i] == x;
      if y in ranked {
        var b :| 0 <= b < |kept| && kept[b] == y;
        assert kept[a] == x;
        assert b >= |chosen|;
      }
    }
  }
}
