/** The code assignment of Model::build_vocab: a depth-first traversal of the merged tree
    with an explicit stack of (node, points, codes) frames. Every leaf receives the bits of
    its path from the root (0 for a left child, 1 for a right child) as its codes_, and the
    internal nodes along that path, as offsets id - n, as its points_. */
module HuffmanCodes {
  import opened Huffman

  datatype Option<T> = None | Some(value: T)

  /** Descending from node `v` along `bits`: the node reached and the points passed, or None
      when a bit is not 0 or 1, or when the walk runs past a leaf. Every successful walk has
      one point per bit, every point is an internal node's offset below n - 1, and every bit
      is 0 or 1. */
  function Walk(t: Tree, v: nat, bits: seq<nat>): (r: Option<(nat, seq<nat>)>)
    requires t.Shaped() && v <= t.Root()
    ensures r.Some? ==> r.value.0 <= t.Root() && |r.value.1| == |bits|
    ensures r.Some? ==> forall k | 0 <= k < |bits| :: bits[k] <= 1 && r.value.1[k] < t.n - 1
  {
    if bits == [] then Some((v, []))
    else
      var last := bits[|bits| - 1];
      match Walk(t, v, bits[..|bits| - 1])
      case None => None
      case Some((u, points)) =>
        if u < t.n || last > 1 then None
        else Some((if last == 0 then t.left[u] else t.right[u], points + [u - t.n]))
  }

  /** One frame of the traversal stack: a node still to visit, with the points and the code
      bits of its path from the root. */
  datatype Frame = Frame(node: nat, points: seq<nat>, codes: seq<nat>)

  ghost predicate FramesBelowRoot(t: Tree, stack: seq<Frame>)
  {
    forall f | f in stack :: f.node <= t.Root()
  }

  /** The leaves still to be reached from the frames on the stack. */
  ghost function StackLeaves(t: Tree, stack: seq<Frame>): multiset<nat>
    requires t.Shaped() && FramesBelowRoot(t, stack)
  {
    if stack == [] then multiset{}
    else StackLeaves(t, stack[..|stack| - 1]) + LeafBag(t, stack[|stack| - 1].node)
  }

  /** The number of nodes below `v`, itself included. */
  ghost function NodeCount(t: Tree, v: nat): nat
    requires t.Shaped() && v <= t.Root()
    decreases v
  {
    if v < t.n then 1 else 1 + NodeCount(t, t.left[v]) + NodeCount(t, t.right[v])
  }

  /** The number of nodes the traversal still has to pop. */
  ghost function StackSize(t: Tree, stack: seq<Frame>): nat
    requires t.Shaped() && FramesBelowRoot(t, stack)
  {
    if stack == [] then 0
    else StackSize(t, stack[..|stack| - 1]) + NodeCount(t, stack[|stack| - 1].node)
  }

  /** A frame records the walk from the root to its node. */
  ghost predicate FrameWalks(t: Tree, f: Frame)
    requires t.Shaped()
  {
    f.node <= t.Root() && Walk(t, t.Root(), f.codes) == Some((f.node, f.points))
  }

  /** Leaf `l`'s entries hold the walk from the root to it. */
  ghost predicate LeafCoded(t: Tree, codes: seq<seq<nat>>, points: seq<seq<nat>>, l: nat)
    requires t.Shaped()
  {
    l < t.n && l < |codes| && l < |points| && Walk(t, t.Root(), codes[l]) == Some((l, points[l]))
  }

  /** The code table the traversal produces: an entry per node, the walk from the root
      along every leaf's code ends at that leaf having passed its points, and internal nodes
      keep empty entries. */
  ghost predicate CodeTable(t: Tree, codes: seq<seq<nat>>, points: seq<seq<nat>>)
  {
    t.Shaped() && |codes| == 2 * t.n - 1 && |points| == 2 * t.n - 1 &&
    (forall l | 0 <= l < t.n :: LeafCoded(t, codes, points, l)) &&
    (forall v | t.n <= v < 2 * t.n - 1 :: codes[v] == [] && points[v] == [])
  }

  lemma PopFrame(t: Tree, stack: seq<Frame>)
    requires t.Shaped() && FramesBelowRoot(t, stack) && stack != []
    ensures FramesBelowRoot(t, stack[..|stack| - 1])
    ensures StackLeaves(t, stack) == StackLeaves(t, stack[..|stack| - 1]) + LeafBag(t, stack[|stack| - 1].node)
    ensures StackSize(t, stack) == StackSize(t, stack[..|stack| - 1]) + NodeCount(t, stack[|stack| - 1].node)
  {
  }

  lemma PushFrames(t: Tree, stack: seq<Frame>, a: Frame, b: Frame)
    requires t.Shaped() && FramesBelowRoot(t, stack) && a.node <= t.Root() && b.node <= t.Root()
    ensures FramesBelowRoot(t, stack + [a, b])
    ensures StackLeaves(t, stack + [a, b]) == StackLeaves(t, stack) + LeafBag(t, a.node) + LeafBag(t, b.node)
    ensures StackSize(t, stack + [a, b]) == StackSize(t, stack) + NodeCount(t, a.node) + NodeCount(t, b.node)
  {
    var s := stack + [a, b];
    assert s[..|s| - 1] == stack + [a];
    assert (stack + [a])[..|stack|] == stack;
  }

  /** Stepping from a frame of internal node u to its children. */
  lemma WalkChildren(t: Tree, f: Frame)
    requires t.Shaped() && FrameWalks(t, f) && f.node >= t.n
    ensures FrameWalks(t, Descend(t, f, 0)) && FrameWalks(t, Descend(t, f, 1))
  {
    assert (f.codes + [0])[..|f.codes|] == f.codes;
    assert (f.codes + [1])[..|f.codes|] == f.codes;
  }

  /** The invariant of the traversal: every frame on the stack records its walk from the
      root, every leaf visited so far holds its walk, internal entries are still empty, and
      the leaves below the stacked frames together with the visited ones are all the leaves
      below the root. */
  ghost predicate Pending(t: Tree, codes: seq<seq<nat>>, points: seq<seq<nat>>, stack: seq<Frame>, visits: seq<nat>)
  {
    t.Shaped() && |codes| == 2 * t.n - 1 && |points| == 2 * t.n - 1 &&
    FramesBelowRoot(t, stack) && StackWalks(t, stack) &&
    VisitedCoded(t, codes, points, visits) && InternalsEmpty(t, codes, points) &&
    StackLeaves(t, stack) + multiset(visits) == LeafBag(t, t.Root())
  }

  ghost predicate StackWalks(t: Tree, stack: seq<Frame>)
    requires t.Shaped()
  {
    forall f | f in stack :: FrameWalks(t, f)
  }

  ghost predicate VisitedCoded(t: Tree, codes: seq<seq<nat>>, points: seq<seq<nat>>, visits: seq<nat>)
    requires t.Shaped()
  {
    forall l | l in visits :: LeafCoded(t, codes, points, l)
  }

  ghost predicate InternalsEmpty(t: Tree, codes: seq<seq<nat>>, points: seq<seq<nat>>)
    requires |codes| == 2 * t.n - 1 && |points| == 2 * t.n - 1
  {
    forall v | t.n <= v < 2 * t.n - 1 :: codes[v] == [] && points[v] == []
  }

  /** Moving a popped leaf from the stack to the visited list keeps the leaves accounted. */
  lemma LeafMoved(t: Tree, stack: seq<Frame>, visits: seq<nat>, bag: multiset<nat>)
    requires t.Shaped() && FramesBelowRoot(t, stack) && stack != [] && stack[|stack| - 1].node < t.n
    requires StackLeaves(t, stack) + multiset(visits) == bag
    ensures FramesBelowRoot(t, stack[..|stack| - 1])
    ensures StackLeaves(t, stack[..|stack| - 1]) + multiset(visits + [stack[|stack| - 1].node]) == bag
    ensures StackSize(t, stack[..|stack| - 1]) < StackSize(t, stack)
  {
    var l := stack[|stack| - 1].node;
    PopFrame(t, stack);
    assert LeafBag(t, l) == multiset{l};
    assert multiset(visits + [l]) == multiset(visits) + multiset{l};
  }

  /** The frame of a child of internal node `f.node`: the left child for bit 0, the right
      child for bit 1, with the node's offset appended to the points and the bit to the code. */
  function Descend(t: Tree, f: Frame, bit: nat): (g: Frame)
    requires t.Shaped() && t.n <= f.node <= t.Root() && bit <= 1
    ensures g.node < f.node && g.points == f.points + [f.node - t.n] && g.codes == f.codes + [bit]
  {
    Frame(if bit == 0 then t.left[f.node] else t.right[f.node], f.points + [f.node - t.n], f.codes + [bit])
  }

  /** The stack after popping an internal node's frame and pushing the frame of its left
      child, then that of its right child. */
  function Expand(t: Tree, stack: seq<Frame>): seq<Frame>
    requires t.Shaped() && stack != [] && t.n <= stack[|stack| - 1].node <= t.Root()
  {
    var f := stack[|stack| - 1];
    stack[..|stack| - 1] + [Descend(t, f, 0), Descend(t, f, 1)]
  }

  /** Replacing a popped internal node by its two children keeps the leaves accounted. */
  lemma ChildrenPushed(t: Tree, stack: seq<Frame>, visits: seq<nat>, bag: multiset<nat>)
    requires t.Shaped() && FramesBelowRoot(t, stack) && stack != [] && stack[|stack| - 1].node >= t.n
    requires StackLeaves(t, stack) + multiset(visits) == bag
    ensures FramesBelowRoot(t, Expand(t, stack))
    ensures StackLeaves(t, Expand(t, stack)) + multiset(visits) == bag
    ensures StackSize(t, Expand(t, stack)) < StackSize(t, stack)
  {
    var f := stack[|stack| - 1];
    PopFrame(t, stack);
    PushFrames(t, stack[..|stack| - 1], Descend(t, f, 0), Descend(t, f, 1));
    assert LeafBag(t, f.node) == LeafBag(t, Descend(t, f, 0).node) + LeafBag(t, Descend(t, f, 1).node);
  }

  /** The children frames of an internal frame record their walks. */
  lemma ChildrenWalk(t: Tree, stack: seq<Frame>)
    requires t.Shaped() && stack != [] && StackWalks(t, stack) && stack[|stack| - 1].node >= t.n
    ensures FramesBelowRoot(t, stack) && StackWalks(t, Expand(t, stack))
  {
    var f := stack[|stack| - 1];
    assert FrameWalks(t, f);
    forall g | g in stack ensures g.node <= t.Root() {
      assert FrameWalks(t, g);
    }
    WalkChildren(t, f);
    var rest := stack[..|stack| - 1];
    forall g | g in rest + [Descend(t, f, 0), Descend(t, f, 1)] ensures FrameWalks(t, g) {
      if g in rest {
        assert g in stack;
      }
    }
  }

  /** Storing a leaf's walk keeps every earlier visited leaf's entries. */
  lemma LeafStored(t: Tree, codes: seq<seq<nat>>, points: seq<seq<nat>>, visits: seq<nat>, f: Frame)
    requires t.Shaped() && |codes| == 2 * t.n - 1 && |points| == 2 * t.n - 1
    requires VisitedCoded(t, codes, points, visits) && InternalsEmpty(t, codes, points)
    requires FrameWalks(t, f) && f.node < t.n
    ensures VisitedCoded(t, codes[f.node := f.codes], points[f.node := f.points], visits + [f.node])
    ensures InternalsEmpty(t, codes[f.node := f.codes], points[f.node := f.points])
  {
    forall l | l in visits + [f.node] ensures LeafCoded(t, codes[f.node := f.codes], points[f.node := f.points], l) {
      if l != f.node {
        assert LeafCoded(t, codes, points, l);
      }
    }
  }

  /** Popping a leaf frame and storing its walk keeps the invariant and leaves fewer nodes
      to pop. */
  lemma VisitLeaf(t: Tree, codes: seq<seq<nat>>, points: seq<seq<nat>>, stack: seq<Frame>, visits: seq<nat>)
    requires Pending(t, codes, points, stack, visits) && stack != [] && stack[|stack| - 1].node < t.n
    ensures var f := stack[|stack| - 1];
      Pending(t, codes[f.node := f.codes], points[f.node := f.points], stack[..|stack| - 1], visits + [f.node])
    ensures StackSize(t, stack[..|stack| - 1]) < StackSize(t, stack)
  {
    var f := stack[|stack| - 1];
    assert FrameWalks(t, f);
    LeafMoved(t, stack, visits, LeafBag(t, t.Root()));
    LeafStored(t, codes, points, visits, f);
    forall g | g in stack[..|stack| - 1] ensures FrameWalks(t, g) {
      assert g in stack;
    }
  }

  /** Popping an internal frame and pushing its children keeps the invariant and leaves
      fewer nodes to pop. */
  lemma VisitInternal(t: Tree, codes: seq<seq<nat>>, points: seq<seq<nat>>, stack: seq<Frame>, visits: seq<nat>)
    requires Pending(t, codes, points, stack, visits) && stack != [] && stack[|stack| - 1].node >= t.n
    ensures Pending(t, codes, points, Expand(t, stack), visits)
    ensures StackSize(t, Expand(t, stack)) < StackSize(t, stack)
  {
    ChildrenWalk(t, stack);
    ChildrenPushed(t, stack, visits, LeafBag(t, t.Root()));
  }

  /** The traversal of build_vocab: start from the root with empty points and codes; pop the
      last frame; a leaf takes the frame's points and codes; an internal node pushes its left
      child with bit 0, then its right child with bit 1, both with its own offset appended to
      the points. `visits` lists the leaves in the order they are reached. */
  method AssignCodes(t: Tree, ghost parent: map<nat, nat>)
    returns (codes: seq<seq<nat>>, points: seq<seq<nat>>, ghost visits: seq<nat>)
    requires IsTree(t, parent)
    ensures CodeTable(t, codes, points)
    ensures multiset(visits) == Ids(t.n)
  {
    var n := t.n;
    codes := seq(2 * n - 1, _ => []);
    points := seq(2 * n - 1, _ => []);
    var stack := [Frame(t.Root(), [], [])];
    visits := [];
    assert stack[..0] == [];
    while stack != []
      invariant Pending(t, codes, points, stack, visits)
      decreases StackSize(t, stack)
    {
      var f := stack[|stack| - 1];
      if f.node < n {
        VisitLeaf(t, codes, points, stack, visits);
        codes := codes[f.node := f.codes];
        points := points[f.node := f.points];
        visits := visits + [f.node];
        stack := stack[..|stack| - 1];
      } else {
        VisitInternal(t, codes, points, stack, visits);
        stack := Expand(t, stack);
      }
    }
    VisitedAll(t, parent, codes, points, visits);
  }

  /** When the stack is empty every leaf has been visited exactly once. */
  lemma VisitedAll(t: Tree, parent: map<nat, nat>, codes: seq<seq<nat>>, points: seq<seq<nat>>, visits: seq<nat>)
    requires IsTree(t, parent) && Pending(t, codes, points, [], visits)
    ensures CodeTable(t, codes, points)
    ensures multiset(visits) == Ids(t.n)
  {
    LeavesOfRoot(t, parent);
    assert StackLeaves(t, []) == multiset{};
    assert multiset(visits) == LeafBag(t, t.Root());
    forall l: nat ensures multiset(visits)[l] == Ids(t.n)[l] {
    }
    assert multiset(visits) == Ids(t.n);
    forall l | 0 <= l < t.n ensures LeafCoded(t, codes, points, l) {
      assert l in multiset(visits);
    }
  }

  // ---------------------------------------------------------------------------------------
  // Properties of the code table.

  /** A prefix of a successful walk is a successful walk through the same first points. */
  lemma {:induction false} WalkPrefix(t: Tree, v: nat, bits: seq<nat>, k: nat)
    requires t.Shaped() && v <= t.Root() && Walk(t, v, bits).Some? && k <= |bits|
    ensures Walk(t, v, bits[..k]).Some?
    ensures Walk(t, v, bits[..k]).value.1 == Walk(t, v, bits).value.1[..k]
    ensures k < |bits| ==> Walk(t, v, bits[..k]).value.0 >= t.n
  {
    if k < |bits| {
      var init := bits[..|bits| - 1];
      assert init[..k] == bits[..k];
      if k < |init| {
        WalkPrefix(t, v, init, k);
      } else {
        assert init == bits[..k];
      }
    } else {
      assert bits[..k] == bits;
    }
  }

  /** With two leaves or more, every leaf's code is non-empty and its first point is the
      root's offset n - 2; with a single leaf, its code and its points are empty. */
  lemma FirstPoint(t: Tree, codes: seq<seq<nat>>, points: seq<seq<nat>>, l: nat)
    requires t.Shaped() && LeafCoded(t, codes, points, l)
    ensures t.n >= 2 ==> |codes[l]| >= 1 && |points[l]| >= 1 && points[l][0] == t.n - 2
    ensures t.n == 1 ==> codes[l] == [] && points[l] == []
  {
    if t.n >= 2 {
      WalkPrefix(t, t.Root(), codes[l], 1);
      var first := codes[l][..1];
      assert first[..0] == [];
    }
  }

  /** The codes are prefix-free: a leaf's code begins with another leaf's code only when the
      two leaves are the same. */
  lemma PrefixFree(t: Tree, codes: seq<seq<nat>>, points: seq<seq<nat>>, a: nat, b: nat)
    requires t.Shaped() && LeafCoded(t, codes, points, a) && LeafCoded(t, codes, points, b)
    requires codes[a] <= codes[b]
    ensures a == b
  {
    var k := |codes[a]|;
    assert codes[b][..k] == codes[a];
    if k < |codes[b]| {
      WalkPrefix(t, t.Root(), codes[b], k);
    } else {
      assert codes[b][..k] == codes[b];
    }
  }

  /** Leaves whose codes agree on their first d bits pass the same first d internal nodes. */
  lemma SharedPrefix(t: Tree, codes: seq<seq<nat>>, points: seq<seq<nat>>, a: nat, b: nat, d: nat)
    requires t.Shaped() && LeafCoded(t, codes, points, a) && LeafCoded(t, codes, points, b)
    requires d <= |codes[a]| && d <= |codes[b]| && codes[a][..d] == codes[b][..d]
    ensures d <= |points[a]| && d <= |points[b]| && points[a][..d] == points[b][..d]
  {
    WalkPrefix(t, t.Root(), codes[a], d);
    WalkPrefix(t, t.Root(), codes[b], d);
  }
}
