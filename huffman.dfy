/** The Huffman merge of Model::build_vocab, over an arena of nodes addressed by id.
    Ids 0 .. n-1 are the leaves (the surviving vocabulary words, with their counts); the
    i-th merge creates the internal node n + i. Node v has the count count[v] and, when it
    is internal, the children left[v] and right[v] (the source's left_ and right_; a leaf's
    entries there stand for its null child links and are never read).
    The priority heap is a multiset of node ids; one merge extracts a minimum-count id, then
    a minimum-count id of what remains, and inserts the new node. */
module Huffman {

  datatype Tree = Tree(n: nat, count: seq<nat>, left: seq<nat>, right: seq<nat>)
  {
    /** The last node created, 2n - 2; for a single leaf it is that leaf. */
    function Root(): nat
    {
      if n == 0 then 0 else 2 * n - 2
    }

    /** Entries for all 2n - 1 ids, and every child created before its parent. */
    ghost predicate Shaped()
    {
      n >= 1 && |count| == 2 * n - 1 && |left| == 2 * n - 1 && |right| == 2 * n - 1 &&
      forall v | n <= v < 2 * n - 1 :: left[v] < v && right[v] < v
    }
  }

  /** `v` is a minimum-count element of `heap`. */
  predicate IsMinimum(count: seq<nat>, heap: multiset<nat>, v: nat)
  {
    v in heap && v < |count| &&
    forall u {:trigger NoSmaller(count, heap, v, u)} | u in heap :: NoSmaller(count, heap, v, u)
  }

  /** If `u` is in the heap, its count is not smaller than that of `v`. */
  predicate NoSmaller(count: seq<nat>, heap: multiset<nat>, v: nat, u: nat)
    requires v < |count|
  {
    u in heap ==> u < |count| && count[v] <= count[u]
  }

  /** Exactly the nodes other than the root have a parent. */
  ghost predicate ParentsCover(t: Tree, parent: map<nat, nat>)
  {
    forall v: nat :: v in parent <==> v < t.Root()
  }

  /** A node's parent is an internal node created after it that names it as a child. */
  ghost predicate ParentLinks(t: Tree, parent: map<nat, nat>)
    requires t.Shaped()
  {
    forall v | v in parent ::
      t.n <= parent[v] <= t.Root() && v < parent[v] &&
      (t.left[parent[v]] == v || t.right[parent[v]] == v)
  }

  /** Both children of an internal node have it as their parent, and they differ. */
  ghost predicate ChildLinks(t: Tree, parent: map<nat, nat>)
    requires t.Shaped()
  {
    forall v | t.n <= v <= t.Root() ::
      t.left[v] in parent && parent[t.left[v]] == v &&
      t.right[v] in parent && parent[t.right[v]] == v &&
      t.left[v] != t.right[v]
  }

  /** Every non-root node has exactly one parent, an internal node created after it that
      names it as its left or its right child; the two children of a node differ. */
  ghost predicate IsTree(t: Tree, parent: map<nat, nat>)
  {
    t.Shaped() && ParentsCover(t, parent) && ParentLinks(t, parent) && ChildLinks(t, parent)
  }

  /** After `i` merges: each internal node v created so far has the children left[v] and
      right[v], both created before it, and counts their sum modulo 2^32. */
  ghost predicate Merged(n: nat, i: nat, count: seq<nat>, left: seq<nat>, right: seq<nat>)
  {
    |count| == n + i && |left| == n + i && |right| == n + i &&
    forall v :: MergedNode(n, count, left, right, v)
  }

  ghost predicate MergedNode(n: nat, count: seq<nat>, left: seq<nat>, right: seq<nat>, v: nat)
  {
    n <= v < |count| && v < |left| && v < |right| ==>
      left[v] < v && right[v] < v && count[v] == Sum32(count[left[v]], count[right[v]])
  }

  /** The count of a new node: count_ is a uint32_t, so the sum of the children's counts
      wraps around modulo 2^32; below 2^32 it is the plain sum. */
  function Sum32(a: nat, b: nat): (r: nat)
    ensures r < 0x1_0000_0000
    ensures a + b < 0x1_0000_0000 ==> r == a + b
    ensures a + b >= 0x1_0000_0000 && a < 0x1_0000_0000 && b < 0x1_0000_0000 ==> r == a + b - 0x1_0000_0000
  {
    (a + b) % 0x1_0000_0000
  }

  /** Merge j, which creates node n + j, as the source makes it: trace[j] is the heap before
      it (its ids are all below n + j), the left child is a minimum-count id of that heap,
      the right child a minimum-count id of what remains, and trace[j + 1] is the heap with
      both removed and node n + j inserted. */
  ghost predicate MergeStep(n: nat, j: nat, count: seq<nat>, left: seq<nat>, right: seq<nat>,
                            trace: seq<multiset<nat>>)
  {
    n + j < |count| && n + j < |left| && n + j < |right| && j + 1 < |trace| &&
    IsMinimum(count[..n + j], trace[j], left[n + j]) &&
    IsMinimum(count[..n + j], trace[j] - multiset{left[n + j]}, right[n + j]) &&
    trace[j + 1] == trace[j] - multiset{left[n + j], right[n + j]} + multiset{n + j}
  }

  /** The first `i` merges are recorded in `trace`. */
  ghost predicate Traced(n: nat, i: nat, count: seq<nat>, left: seq<nat>, right: seq<nat>,
                         trace: seq<multiset<nat>>)
  {
    forall j | 0 <= j < i :: MergeStep(n, j, count, left, right, trace)
  }

  /** Each heap id occurs once and is one of the `m` ids created so far. */
  ghost predicate HeapIds(m: nat, heap: multiset<nat>)
  {
    forall v :: HeapSlot(m, heap, v)
  }

  ghost predicate HeapSlot(m: nat, heap: multiset<nat>, v: nat)
  {
    heap[v] <= 1 && (v in heap ==> v < m)
  }

  /** The created ids are split between the heap and the keys of the parent links. */
  ghost predicate Partition(m: nat, heap: multiset<nat>, parent: map<nat, nat>)
  {
    forall v :: Split(m, heap, parent, v)
  }

  ghost predicate Split(m: nat, heap: multiset<nat>, parent: map<nat, nat>, v: nat)
  {
    v < m ==> (v in heap <==> v !in parent)
  }

  /** The parent link of `v` points to an internal node created after it, naming it as a child. */
  ghost predicate UpLink(n: nat, m: nat, left: seq<nat>, right: seq<nat>, parent: map<nat, nat>, v: nat)
  {
    v in parent ==>
      v < m && n <= parent[v] < m && v < parent[v] &&
      parent[v] < |left| && parent[v] < |right| &&
      (left[parent[v]] == v || right[parent[v]] == v)
  }

  ghost predicate UpLinks(n: nat, m: nat, left: seq<nat>, right: seq<nat>, parent: map<nat, nat>)
  {
    forall v :: UpLink(n, m, left, right, parent, v)
  }

  /** Internal node `v` is the parent of both its children, which differ. */
  ghost predicate DownLink(n: nat, left: seq<nat>, right: seq<nat>, parent: map<nat, nat>, v: nat)
  {
    n <= v < |left| && v < |right| ==>
    left[v] in parent && parent[left[v]] == v &&
    right[v] in parent && parent[right[v]] == v && left[v] != right[v]
  }

  ghost predicate DownLinks(n: nat, m: nat, left: seq<nat>, right: seq<nat>, parent: map<nat, nat>)
  {
    |left| == m && forall v :: DownLink(n, left, right, parent, v)
  }

  /** After `i` merges the ids created so far are split between the heap (each at most
      once) and the parent links, which point from a child to the node that took it. */
  ghost predicate Forest(n: nat, i: nat, left: seq<nat>, right: seq<nat>,
                         heap: multiset<nat>, parent: map<nat, nat>)
  {
    |left| == n + i && |right| == n + i && |heap| + i == n &&
    HeapIds(n + i, heap) && Partition(n + i, heap, parent) &&
    UpLinks(n, n + i, left, right, parent) && DownLinks(n, n + i, left, right, parent) &&
    (i > 0 ==> n + i - 1 in heap)
  }

  /** The merge loop as the source runs it: the heap starts as all leaves, every merge takes
      two minimum-count ids as in Traced, the internal nodes count the uint32_t sums of their
      children, and the heap ends as the root alone. */
  ghost predicate GreedyMerge(leafCounts: seq<nat>, t: Tree, trace: seq<multiset<nat>>)
  {
    t.Shaped() && t.n == |leafCounts| && t.count[..t.n] == leafCounts &&
    |trace| == t.n && trace[0] == Ids(t.n) &&
    Merged(t.n, t.n - 1, t.count, t.left, t.right) &&
    Traced(t.n, t.n - 1, t.count, t.left, t.right, trace) &&
    trace[t.n - 1] == multiset{t.Root()}
  }

  /** The ids 0 .. n-1, each once: the heap built from `words_`. */
  function Ids(n: nat): (h: multiset<nat>)
    ensures |h| == n
    ensures forall v: nat :: h[v] == if v < n then 1 else 0
  {
    if n == 0 then multiset{} else Ids(n - 1) + multiset{n - 1}
  }

  /** A nonempty heap whose ids index `count` has a minimum. */
  lemma {:induction false} MinimumExists(count: seq<nat>, heap: multiset<nat>)
    requires heap != multiset{}
    requires forall u | u in heap :: u < |count|
    ensures exists v :: IsMinimum(count, heap, v)
    decreases |heap|
  {
    var x :| x in heap;
    var rest := heap - multiset{x};
    if rest == multiset{} {
      assert heap == multiset{x};
      assert IsMinimum(count, heap, x);
    } else {
      MinimumExists(count, rest);
      var m: nat :| IsMinimum(count, rest, m);
      var v := if count[x] <= count[m] then x else m;
      forall u ensures NoSmaller(count, heap, v, u) {
        assert NoSmaller(count, rest, m, u);
      }
      assert IsMinimum(count, heap, v);
    }
  }

  /** The merge loop's variables: the arena (counts and children), the heap, and the parent
      links and heap history that record how the tree was formed. */
  datatype Forming = Forming(count: seq<nat>, left: seq<nat>, right: seq<nat>, heap: multiset<nat>,
                             parent: map<nat, nat>, trace: seq<multiset<nat>>)

  /** One merge: ids min1 and min2 leave the heap, node `node` counting the uint32_t sum of
      theirs enters it with them as its children. */
  function Merge(s: Forming, node: nat, min1: nat, min2: nat): Forming
    requires min1 < |s.count| && min2 < |s.count|
  {
    var heap := s.heap - multiset{min1} - multiset{min2} + multiset{node};
    Forming(s.count + [Sum32(s.count[min1], s.count[min2])], s.left + [min1], s.right + [min2], heap,
            s.parent[min1 := node][min2 := node], s.trace + [heap])
  }

  /** Every heap id is one of the `m` ids created so far. */
  lemma HeapBelow(m: nat, heap: multiset<nat>)
    requires HeapIds(m, heap)
    ensures forall u | u in heap :: u < m
  {
    forall u | u in heap ensures u < m {
      assert HeapSlot(m, heap, u);
    }
  }

  lemma HeapIdsStep(m: nat, heap: multiset<nat>, min1: nat, min2: nat)
    requires HeapIds(m, heap) && min1 in heap && min2 in heap - multiset{min1}
    ensures HeapIds(m + 1, heap - multiset{min1} - multiset{min2} + multiset{m})
  {
    var heap' := heap - multiset{min1} - multiset{min2} + multiset{m};
    var m' := m + 1;
    forall v ensures HeapSlot(m', heap', v) {
      assert HeapSlot(m, heap, v);
      if v != m {
        assert heap'[v] <= heap[v];
      }
    }
  }

  lemma PartitionStep(m: nat, heap: multiset<nat>, parent: map<nat, nat>, min1: nat, min2: nat)
    requires HeapIds(m, heap) && Partition(m, heap, parent) && m !in parent
    requires min1 in heap && min2 in heap - multiset{min1}
    ensures Partition(m + 1, heap - multiset{min1} - multiset{min2} + multiset{m},
                      parent[min1 := m][min2 := m])
  {
    var heap' := heap - multiset{min1} - multiset{min2} + multiset{m};
    var parent' := parent[min1 := m][min2 := m];
    var m' := m + 1;
    assert HeapSlot(m, heap, min1) && HeapSlot(m, heap, min2) && HeapSlot(m, heap, m);
    assert min1 != min2;
    forall v ensures Split(m', heap', parent', v) {
      if v != min1 && v != min2 && v != m {
        assert Split(m, heap, parent, v);
        assert heap'[v] == heap[v];
      }
    }
  }

  lemma UpLinksStep(n: nat, m: nat, left: seq<nat>, right: seq<nat>, parent: map<nat, nat>,
                    min1: nat, min2: nat)
    requires |left| == m && |right| == m && n <= m
    requires UpLinks(n, m, left, right, parent) && min1 < m && min2 < m
    ensures UpLinks(n, m + 1, left + [min1], right + [min2], parent[min1 := m][min2 := m])
  {
    var left', right' := left + [min1], right + [min2];
    var parent' := parent[min1 := m][min2 := m];
    var m' := m + 1;
    forall v ensures UpLink(n, m', left', right', parent', v) {
      if v in parent' && v != min1 && v != min2 {
        assert UpLink(n, m, left, right, parent, v);
        assert left'[parent[v]] == left[parent[v]];
        assert right'[parent[v]] == right[parent[v]];
      }
    }
  }

  lemma DownLinksStep(n: nat, m: nat, left: seq<nat>, right: seq<nat>, heap: multiset<nat>,
                      parent: map<nat, nat>, min1: nat, min2: nat)
    requires |left| == m && |right| == m && n <= m
    requires DownLinks(n, m, left, right, parent) && Partition(m, heap, parent)
    requires HeapIds(m, heap) && min1 in heap && min2 in heap - multiset{min1}
    ensures DownLinks(n, m + 1, left + [min1], right + [min2], parent[min1 := m][min2 := m])
  {
    var left', right' := left + [min1], right + [min2];
    var parent' := parent[min1 := m][min2 := m];
    assert HeapSlot(m, heap, min1) && HeapSlot(m, heap, min2);
    assert Split(m, heap, parent, min1) && Split(m, heap, parent, min2);
    assert min1 != min2;
    forall v: nat ensures DownLink(n, left', right', parent', v) {
      if n <= v < m {
        assert DownLink(n, left, right, parent, v);
        assert left'[v] == left[v] && right'[v] == right[v];
        assert left[v] != min1 && left[v] != min2 && right[v] != min1 && right[v] != min2;
      }
    }
  }

  /** One merge appends a node that counts the uint32_t sum of its two children. */
  lemma MergedStep(n: nat, i: nat, s: Forming, min1: nat, min2: nat)
    requires Merged(n, i, s.count, s.left, s.right) && min1 < n + i && min2 < n + i
    ensures var s' := Merge(s, n + i, min1, min2);
            Merged(n, i + 1, s'.count, s'.left, s'.right)
  {
    var count, left, right := s.count, s.left, s.right;
    var count', left', right' := count + [Sum32(count[min1], count[min2])], left + [min1], right + [min2];
    forall v: nat ensures MergedNode(n, count', left', right', v) {
      if n <= v < n + i {
        assert MergedNode(n, count, left, right, v);
        assert count'[left[v]] == count[left[v]] && count'[right[v]] == count[right[v]];
      }
    }
  }

  /** One merge keeps the heap and the parent links a partition of the created ids. */
  lemma ForestStep(n: nat, i: nat, s: Forming, min1: nat, min2: nat)
    requires Forest(n, i, s.left, s.right, s.heap, s.parent) && i + 1 < n
    requires min1 in s.heap && min2 in s.heap - multiset{min1} && min1 < |s.count| && min2 < |s.count|
    ensures var s' := Merge(s, n + i, min1, min2);
            Forest(n, i + 1, s'.left, s'.right, s'.heap, s'.parent)
  {
    var m := n + i;
    var left, right, heap, parent := s.left, s.right, s.heap, s.parent;
    HeapBelow(m, heap);
    assert UpLink(n, m, left, right, parent, m);
    HeapIdsStep(m, heap, min1, min2);
    PartitionStep(m, heap, parent, min1, min2);
    UpLinksStep(n, m, left, right, parent, min1, min2);
    DownLinksStep(n, m, left, right, heap, parent, min1, min2);
  }

  /** A later merge keeps the record of merge j. */
  lemma MergeStepKept(n: nat, j: nat, s: Forming, node: nat, min1: nat, min2: nat)
    requires MergeStep(n, j, s.count, s.left, s.right, s.trace)
    requires min1 < |s.count| && min2 < |s.count|
    ensures var s' := Merge(s, node, min1, min2);
            MergeStep(n, j, s'.count, s'.left, s'.right, s'.trace)
  {
    var s' := Merge(s, node, min1, min2);
    assert s'.count[..n + j] == s.count[..n + j];
  }

  /** The merge that creates node n + i, recorded after the first i. */
  lemma MergeStepLast(n: nat, i: nat, s: Forming, min1: nat, min2: nat)
    requires |s.count| == n + i && |s.left| == n + i && |s.right| == n + i
    requires |s.trace| == i + 1 && s.trace[i] == s.heap
    requires IsMinimum(s.count, s.heap, min1) && IsMinimum(s.count, s.heap - multiset{min1}, min2)
    ensures var s' := Merge(s, n + i, min1, min2);
            MergeStep(n, i, s'.count, s'.left, s'.right, s'.trace)
  {
    var s' := Merge(s, n + i, min1, min2);
    assert s'.count[..n + i] == s.count;
    assert multiset{min1, min2} == multiset{min1} + multiset{min2};
  }

  /** One merge extends the trace: the chosen ids are minima of the heap before it. */
  lemma TracedStep(n: nat, i: nat, s: Forming, min1: nat, min2: nat)
    requires Traced(n, i, s.count, s.left, s.right, s.trace)
    requires |s.count| == n + i && |s.left| == n + i && |s.right| == n + i
    requires |s.trace| == i + 1 && s.trace[i] == s.heap
    requires IsMinimum(s.count, s.heap, min1) && IsMinimum(s.count, s.heap - multiset{min1}, min2)
    ensures var s' := Merge(s, n + i, min1, min2);
            Traced(n, i + 1, s'.count, s'.left, s'.right, s'.trace)
  {
    var s' := Merge(s, n + i, min1, min2);
    forall j | 0 <= j < i + 1
      ensures MergeStep(n, j, s'.count, s'.left, s'.right, s'.trace)
    {
      if j < i {
        MergeStepKept(n, j, s, n + i, min1, min2);
      } else {
        MergeStepLast(n, i, s, min1, min2);
      }
    }
  }

  /** When the loop ends the heap holds the root alone, and the links form a tree. */
  lemma ForestTree(n: nat, count: seq<nat>, left: seq<nat>, right: seq<nat>,
                   heap: multiset<nat>, parent: map<nat, nat>)
    requires n >= 1 && Merged(n, n - 1, count, left, right)
    requires Forest(n, n - 1, left, right, heap, parent)
    ensures heap == multiset{Tree(n, count, left, right).Root()}
    ensures IsTree(Tree(n, count, left, right), parent)
  {
    var t := Tree(n, count, left, right);
    var root := t.Root();
    var m := n + n - 1;
    forall v | n <= v < m ensures left[v] < v && right[v] < v {
      assert MergedNode(n, count, left, right, v);
    }
    HeapBelow(m, heap);
    if n == 1 {
      var x :| x in heap;
      assert x == 0;
    }
    assert root in heap && HeapSlot(m, heap, root);
    assert |heap - multiset{root}| == 0;
    assert heap == multiset{root} + (heap - multiset{root});
    forall v | v in parent
      ensures t.n <= parent[v] <= root && v < parent[v]
      ensures t.left[parent[v]] == v || t.right[parent[v]] == v
    {
      assert UpLink(n, m, left, right, parent, v);
    }
    forall v | t.n <= v <= root
      ensures t.left[v] in parent && parent[t.left[v]] == v
      ensures t.right[v] in parent && parent[t.right[v]] == v && t.left[v] != t.right[v]
    {
      assert DownLink(n, left, right, parent, v);
    }
    forall v: nat ensures v in parent <==> v < root {
      assert UpLink(n, m, left, right, parent, v);
      assert Split(m, heap, parent, v);
    }
  }

  /** The state of the merge loop after `i` merges. */
  ghost predicate Building(leafCounts: seq<nat>, i: nat, s: Forming)
  {
    var n := |leafCounts|;
    n >= 1 && i <= n - 1 &&
    Merged(n, i, s.count, s.left, s.right) && s.count[..n] == leafCounts &&
    |s.trace| == i + 1 && s.trace[i] == s.heap && s.trace[0] == Ids(n) &&
    Traced(n, i, s.count, s.left, s.right, s.trace) &&
    Forest(n, i, s.left, s.right, s.heap, s.parent)
  }

  /** Before the last merge the heap holds at least two ids, all of them created already. */
  lemma BuildingHeap(leafCounts: seq<nat>, i: nat, s: Forming)
    requires Building(leafCounts, i, s) && i < |leafCounts| - 1
    ensures |s.heap| >= 2 && forall u | u in s.heap :: u < |s.count|
  {
    HeapBelow(|leafCounts| + i, s.heap);
  }

  /** One merge of two minimum-count ids keeps the loop state. */
  lemma BuildStep(leafCounts: seq<nat>, i: nat, s: Forming, min1: nat, min2: nat)
    requires Building(leafCounts, i, s) && i < |leafCounts| - 1
    requires IsMinimum(s.count, s.heap, min1) && IsMinimum(s.count, s.heap - multiset{min1}, min2)
    ensures Building(leafCounts, i + 1, Merge(s, |leafCounts| + i, min1, min2))
  {
    var n := |leafCounts|;
    ForestStep(n, i, s, min1, min2);
    TracedStep(n, i, s, min1, min2);
    MergedStep(n, i, s, min1, min2);
    MergeKeepsLeaves(n, i, s, min1, min2);
  }

  /** A merge only appends: the leaves' counts and the initial heap stay as they were. */
  lemma MergeKeepsLeaves(n: nat, i: nat, s: Forming, min1: nat, min2: nat)
    requires |s.count| == n + i && min1 < |s.count| && min2 < |s.count| && |s.trace| == i + 1
    ensures var s' := Merge(s, n + i, min1, min2);
            s'.count[..n] == s.count[..n] && s'.trace[0] == s.trace[0] && s'.trace[i + 1] == s'.heap &&
            |s'.trace| == i + 2
  {
    var s' := Merge(s, n + i, min1, min2);
    assert s'.count[..n] == s.count[..n];
  }

  /** The id pop_heap takes off the heap: one of minimum count. */
  method PopMinimum(count: seq<nat>, heap: multiset<nat>) returns (v: nat)
    requires heap != multiset{}
    requires forall u | u in heap :: u < |count|
    ensures IsMinimum(count, heap, v)
  {
    MinimumExists(count, heap);
    v :| IsMinimum(count, heap, v);
  }

  /** The two pop_heap calls of one merge: a minimum-count id, then a minimum-count id of
      what remains. */
  method PopTwo(count: seq<nat>, heap: multiset<nat>) returns (min1: nat, min2: nat)
    requires |heap| >= 2
    requires forall u | u in heap :: u < |count|
    ensures IsMinimum(count, heap, min1) && IsMinimum(count, heap - multiset{min1}, min2)
  {
    min1 := PopMinimum(count, heap);
    assert |heap - multiset{min1}| == |heap| - 1;
    min2 := PopMinimum(count, heap - multiset{min1});
  }

  /** One iteration of the merge loop: pop a minimum-count id, pop a minimum-count id of
      what remains, and push the new node n + i that takes them as its children. */
  method MergeTwo(leafCounts: seq<nat>, i: nat, s: Forming) returns (s': Forming, min1: nat, min2: nat)
    requires Building(leafCounts, i, s) && i < |leafCounts| - 1
    ensures IsMinimum(s.count, s.heap, min1) && IsMinimum(s.count, s.heap - multiset{min1}, min2)
    ensures s' == Merge(s, |leafCounts| + i, min1, min2)
    ensures Building(leafCounts, i + 1, s')
  {
    BuildingHeap(leafCounts, i, s);
    min1, min2 := PopTwo(s.count, s.heap);
    BuildStep(leafCounts, i, s, min1, min2);
    s' := Merge(s, |leafCounts| + i, min1, min2);
  }

  /** The merge loop of build_vocab (n - 1 iterations of pop_heap, pop_heap, push_heap),
      with the leaves' counts as input. Ties between equal counts are broken arbitrarily. */
  method BuildTree(leafCounts: seq<nat>) returns (t: Tree, ghost parent: map<nat, nat>, ghost trace: seq<multiset<nat>>)
    requires |leafCounts| >= 1
    ensures GreedyMerge(leafCounts, t, trace)
    ensures IsTree(t, parent)
  {
    var n := |leafCounts|;
    var s := Forming(leafCounts, seq(n, _ => 0), seq(n, _ => 0), Ids(n), map[], [Ids(n)]);
    var i := 0;
    while i < n - 1
      invariant Building(leafCounts, i, s)
      decreases n - 1 - i
    {
      var min1, min2;
      s, min1, min2 := MergeTwo(leafCounts, i, s);
      i := i + 1;
    }
    t := Tree(n, s.count, s.left, s.right);
    parent, trace := s.parent, s.trace;
    ForestTree(n, s.count, s.left, s.right, s.heap, s.parent);
  }

  // ---------------------------------------------------------------------------------------
  // The shape of the merged tree: every leaf lies below the root exactly once.

  /** The leaves below node `v`, each with the number of tree paths that lead to it. */
  ghost function LeafBag(t: Tree, v: nat): multiset<nat>
    requires t.Shaped() && v <= t.Root()
    decreases v
  {
    if v < t.n then multiset{v}
    else LeafBag(t, t.left[v]) + LeafBag(t, t.right[v])
  }

  /** Node `u` is reached from `v` by following parent links zero or more times. */
  ghost predicate Reaches(parent: map<nat, nat>, v: nat, u: nat)
    decreases u - v
  {
    v == u || (v < u && v in parent && v < parent[v] <= u && Reaches(parent, parent[v], u))
  }

  lemma {:induction false} ReachesParent(parent: map<nat, nat>, x: nat, c: nat)
    requires Reaches(parent, x, c) && c in parent && c < parent[c]
    ensures Reaches(parent, x, parent[c])
    decreases c - x
  {
    if x != c {
      ReachesParent(parent, parent[x], c);
    }
  }

  /** Two nodes with the same parent that lie above the same node are the same node. */
  lemma {:induction false} ReachesUnique(parent: map<nat, nat>, x: nat, a: nat, b: nat)
    requires Reaches(parent, x, a) && Reaches(parent, x, b)
    requires a in parent && b in parent && a < parent[a] && b < parent[b] && parent[a] == parent[b]
    ensures a == b
    decreases a - x
  {
    if x != a && x != b {
      ReachesUnique(parent, parent[x], a, b);
    }
  }

  lemma {:induction false} LeafBagBounds(t: Tree, v: nat)
    requires t.Shaped() && v <= t.Root()
    ensures forall l | l in LeafBag(t, v) :: l < t.n && l <= v
    decreases v
  {
    if v >= t.n {
      LeafBagBounds(t, t.left[v]);
      LeafBagBounds(t, t.right[v]);
    }
  }

  lemma {:induction false} LeafReachesAncestor(t: Tree, parent: map<nat, nat>, v: nat, l: nat)
    requires t.Shaped() && ChildLinks(t, parent) && v <= t.Root() && l in LeafBag(t, v)
    ensures Reaches(parent, l, v)
    decreases v
  {
    if v >= t.n {
      if l in LeafBag(t, t.left[v]) {
        LeafReachesAncestor(t, parent, t.left[v], l);
        ReachesParent(parent, l, t.left[v]);
      } else {
        LeafReachesAncestor(t, parent, t.right[v], l);
        ReachesParent(parent, l, t.right[v]);
      }
    }
  }

  /** No leaf lies twice below a node: the two subtrees of a node share no leaf. */
  lemma {:induction false} LeafBagSingle(t: Tree, parent: map<nat, nat>, v: nat, l: nat)
    requires t.Shaped() && ChildLinks(t, parent) && v <= t.Root()
    ensures LeafBag(t, v)[l] <= 1
    decreases v
  {
    if v >= t.n {
      var a, b := t.left[v], t.right[v];
      LeafBagSingle(t, parent, a, l);
      LeafBagSingle(t, parent, b, l);
      if l in LeafBag(t, a) && l in LeafBag(t, b) {
        LeafReachesAncestor(t, parent, a, l);
        LeafReachesAncestor(t, parent, b, l);
        ReachesUnique(parent, l, a, b);
      }
    }
  }

  lemma {:induction false} ReachesRoot(t: Tree, parent: map<nat, nat>, v: nat)
    requires IsTree(t, parent) && v <= t.Root()
    ensures Reaches(parent, v, t.Root())
    decreases t.Root() - v
  {
    if v < t.Root() {
      ReachesRoot(t, parent, parent[v]);
    }
  }

  lemma {:induction false} ReachesContains(t: Tree, parent: map<nat, nat>, x: nat, v: nat, l: nat)
    requires IsTree(t, parent) && v <= t.Root() && Reaches(parent, x, v) && l in LeafBag(t, x)
    ensures l in LeafBag(t, v)
    decreases v - x
  {
    if x != v {
      var p := parent[x];
      assert l in LeafBag(t, p);
      ReachesContains(t, parent, p, v, l);
    }
  }

  /** Below the root lies every leaf, each exactly once, and nothing else. */
  lemma LeavesOfRoot(t: Tree, parent: map<nat, nat>)
    requires IsTree(t, parent)
    ensures forall l: nat :: LeafBag(t, t.Root())[l] == if l < t.n then 1 else 0
  {
    LeafBagBounds(t, t.Root());
    forall l: nat ensures LeafBag(t, t.Root())[l] == if l < t.n then 1 else 0 {
      LeafBagSingle(t, parent, t.Root(), l);
      if l < t.n {
        ReachesRoot(t, parent, l);
        ReachesContains(t, parent, l, t.Root(), l);
      }
    }
  }
}
