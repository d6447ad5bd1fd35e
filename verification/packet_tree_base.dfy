/**
 * What the binary and the stationary packet trees share
 * (src/WaveletPacketTreeTemplateBase.h): the number of wavelet levels, the
 * root signal, and the specifications that both trees' DecomposeNode and
 * ReconstructNode are proved against -- the signal every child receives
 * from a decomposition, and the signal a reconstruction produces at each
 * node on the path from the root to the one marked leaf.
 */
module PacketTreeBase {
  import opened IndexedTree
  import opened WaveletMath

  /** The branching of a packet tree: binary with one fixed dyadic mode, or the stationary quad tree. */
  datatype Layout = Binary(mode: DyadicMode) | Stationary
  {
    /** The template argument k. */
    function Arity(): nat
    {
      if Binary? then 2 else 4
    }

    /**
     * The dyadic mode between a node and its child c: the binary tree's own
     * mode; in the stationary tree Even for NW (0) and SW (2), Odd for NE (1)
     * and SE (3).
     */
    function ChildMode(c: nat): DyadicMode
    {
      if Binary? then mode else if c % 2 == 0 then Even else Odd
    }

    /** Child c holds approximation (lowpass) coefficients: child 0 of the binary tree, NW and NE of the stationary one. */
    predicate Lowpass(c: nat)
    {
      if Binary? then c == 0 else c < 2
    }

    /**
     * Decomposing a signal of length n is well defined, and so is decomposing
     * every sub-band below it: Decompose's own requirement, plus a filter of at
     * least two taps unless every sub-band is taken in Even mode.
     */
    predicate DecomposeReady(w: Wavelet, padding: PaddingMode, n: nat)
    {
      Decomposable(n, w, padding) && (w.Length() >= 2 || this == Binary(Even))
    }
  }

  // ---------------------------------------------------------------------
  // WaveletPacketTreeTemplateBase

  /** GetWaveletLevelCount: 2^(height - 1). */
  function WaveletLevelCount(t: Tree): (r: nat)
    reads t
    requires t.Valid()
    ensures r >= 1
    ensures t.k == 2 ==> r == t.GetLeafCount()
    ensures r == Pow(2, t.height - 1)
  {
    PowPositive(2, t.height - 1);
    Pow(2, t.height - 1)
  }

  /** In a quad tree every one of the 2^(height-1) levels owns as many leaves: the leaf count is its square. */
  lemma LevelCountSquared(t: Tree)
    requires t.Valid() && t.k == 4
    ensures WaveletLevelCount(t) * WaveletLevelCount(t) == t.GetLeafCount()
  {
    PowFourIsSquare(t.height - 1);
  }

  /** GetRootSignal: the signal of node 0. */
  function RootSignal(t: Tree): (r: seq<real>)
    reads t
    requires t.Valid()
    ensures r == t.nodes[0]
  {
    t.GetNodeData(0)
  }

  /** SetRootSignal as documented: node 0 receives a copy of the signal, nothing else changes. */
  method SetRootSignal(t: Tree, signal: seq<real>)
    requires t.Valid()
    modifies t
    ensures t.Valid()
    ensures t.nodes == old(t.nodes)[0 := signal] && t.marks == old(t.marks)
    ensures RootSignal(t) == signal
  {
    t.SetNodeData(0, signal);
  }

  /**
   * SetRootSignal as written: the node data is bound by value, so only a
   * local copy receives the signal and the tree keeps its old root.
   */
  method SetRootSignalAsWritten(t: Tree, signal: seq<real>) returns (data: seq<real>)
    requires t.Valid()
    ensures data == signal
    ensures RootSignal(t) == old(RootSignal(t))
  {
    data := t.GetNodeData(0);
    data := signal;
  }

  /** On a fresh tree, setting the root to [1.0] as written leaves the root empty. */
  method SetRootSignalIsLost() returns (root: seq<real>)
    ensures root == [] && root != [1.0]
  {
    var t := new Tree(2, 1);
    var copy := SetRootSignalAsWritten(t, [1.0]);
    root := RootSignal(t);
  }

  // ---------------------------------------------------------------------
  // Decomposition

  /** The signal DecomposeNode stores in child c of a node whose signal is parent. */
  function ChildSignal(layout: Layout, w: Wavelet, padding: PaddingMode, parent: seq<real>, c: nat): seq<real>
    requires Decomposable(|parent|, w, padding)
  {
    var d := Decomposition(parent, w, layout.ChildMode(c), padding);
    if layout.Lowpass(c) then d.approx else d.detail
  }

  /** x is a proper descendant of r. */
  predicate StrictlyBelow(k: nat, r: nat, x: nat)
    requires k >= 1
  {
    x != r && InSubtree(k, r, x)
  }

  /** a and b agree everywhere except on proper descendants of r. */
  predicate SameExceptBelow(k: nat, r: nat, a: seq<seq<real>>, b: seq<seq<real>>)
    requires k >= 1
  {
    |a| == |b| && forall i :: 0 <= i < |a| && !StrictlyBelow(k, r, i) ==> a[i] == b[i]
  }

  /**
   * Every internal node p in the subtree of r (p below first, the first leaf)
   * can be decomposed, and each of its children holds the sub-band that
   * decomposing p's signal gives it.
   */
  predicate DecomposedBelow(layout: Layout, w: Wavelet, padding: PaddingMode, nodes: seq<seq<real>>, first: nat, r: nat)
  {
    forall p, c ::
      0 <= p < first && p < |nodes| && 0 <= c < layout.Arity() && InSubtree(layout.Arity(), r, p) &&
      Child(layout.Arity(), p, c) < |nodes| ==>
        Decomposable(|nodes[p]|, w, padding) &&
        nodes[Child(layout.Arity(), p, c)] == ChildSignal(layout, w, padding, nodes[p], c)
  }

  /** The subtrees of children 0 .. count - 1 of node are decomposed. */
  predicate ChildrenDecomposed(layout: Layout, w: Wavelet, padding: PaddingMode, nodes: seq<seq<real>>, first: nat, node: nat, count: nat)
  {
    forall j :: 0 <= j < count ==> DecomposedBelow(layout, w, padding, nodes, first, Child(layout.Arity(), node, j))
  }

  /** A decomposed subtree stays decomposed when nothing inside it changes. */
  lemma DecomposedFrame(layout: Layout, w: Wavelet, padding: PaddingMode, a: seq<seq<real>>, b: seq<seq<real>>, first: nat, r: nat)
    requires |a| == |b| && DecomposedBelow(layout, w, padding, a, first, r)
    requires forall i :: 0 <= i < |a| && InSubtree(layout.Arity(), r, i) ==> a[i] == b[i]
    ensures DecomposedBelow(layout, w, padding, b, first, r)
  {
    var k := layout.Arity();
    forall p, c |
      0 <= p < first && p < |b| && c < k && InSubtree(k, r, p) && Child(k, p, c) < |b|
      ensures Decomposable(|b[p]|, w, padding) && b[Child(k, p, c)] == ChildSignal(layout, w, padding, b[p], c)
    {
      ChildInSubtree(k, p, c);
      SubtreeTransitive(k, r, p, Child(k, p, c));
    }
  }

  /**
   * Decomposing the subtree of child j, which changes only its proper
   * descendants, keeps the earlier children's subtrees decomposed and leaves
   * the node and all its children as they were.
   */
  lemma ChildDecomposed(layout: Layout, w: Wavelet, padding: PaddingMode, a: seq<seq<real>>, b: seq<seq<real>>,
                        first: nat, node: nat, j: nat)
    requires j < layout.Arity()
    requires ChildrenDecomposed(layout, w, padding, a, first, node, j)
    requires SameExceptBelow(layout.Arity(), Child(layout.Arity(), node, j), a, b)
    requires DecomposedBelow(layout, w, padding, b, first, Child(layout.Arity(), node, j))
    ensures ChildrenDecomposed(layout, w, padding, b, first, node, j + 1)
    ensures node < |a| ==> b[node] == a[node]
    ensures forall c :: 0 <= c < layout.Arity() && Child(layout.Arity(), node, c) < |a| ==>
      b[Child(layout.Arity(), node, c)] == a[Child(layout.Arity(), node, c)]
  {
    var k := layout.Arity();
    var y := Child(k, node, j);
    forall i | 0 <= i < j
      ensures DecomposedBelow(layout, w, padding, b, first, Child(k, node, i))
    {
      forall x | 0 <= x < |a| && InSubtree(k, Child(k, node, i), x)
        ensures a[x] == b[x]
      {
        SiblingsDisjoint(k, node, i, j, x);
      }
      DecomposedFrame(layout, w, padding, a, b, first, Child(k, node, i));
    }
    if node < |a| {
      ParentOfChild(k, node, j);
      if InSubtree(k, y, node) {
        SubtreeAbove(k, y, node);
      }
    }
    forall c | c < k && Child(k, node, c) < |a|
      ensures b[Child(k, node, c)] == a[Child(k, node, c)]
    {
      if c != j {
        SiblingsDisjoint(k, node, c, j, Child(k, node, c));
      }
    }
  }

  /** The children of node hold the sub-bands that decomposing node's signal gives them. */
  predicate SubbandsStored(layout: Layout, w: Wavelet, padding: PaddingMode, nodes: seq<seq<real>>, node: nat)
  {
    node < |nodes| && Decomposable(|nodes[node]|, w, padding) &&
    forall c :: 0 <= c < layout.Arity() && Child(layout.Arity(), node, c) < |nodes| ==>
      nodes[Child(layout.Arity(), node, c)] == ChildSignal(layout, w, padding, nodes[node], c)
  }

  /**
   * One recursive call of DecomposeNode on child j: one more child subtree
   * is decomposed, the node's children still hold its sub-bands, and still
   * only proper descendants of the node differ from a0.
   */
  lemma ChildStep(layout: Layout, w: Wavelet, padding: PaddingMode, a0: seq<seq<real>>, a: seq<seq<real>>,
                  b: seq<seq<real>>, first: nat, node: nat, j: nat)
    requires j < layout.Arity()
    requires ChildrenDecomposed(layout, w, padding, a, first, node, j) && SubbandsStored(layout, w, padding, a, node)
    requires SameExceptBelow(layout.Arity(), node, a0, a)
    requires SameExceptBelow(layout.Arity(), Child(layout.Arity(), node, j), a, b)
    requires DecomposedBelow(layout, w, padding, b, first, Child(layout.Arity(), node, j))
    ensures ChildrenDecomposed(layout, w, padding, b, first, node, j + 1) && SubbandsStored(layout, w, padding, b, node)
    ensures SameExceptBelow(layout.Arity(), node, a0, b)
  {
    ChildDecomposed(layout, w, padding, a, b, first, node, j);
    BelowChildIsBelow(layout.Arity(), node, j, a, b);
  }

  /** A child of a node whose children hold its sub-bands is ready to be decomposed in turn. */
  lemma StoredChildReady(layout: Layout, w: Wavelet, padding: PaddingMode, nodes: seq<seq<real>>, node: nat, c: nat)
    requires SubbandsStored(layout, w, padding, nodes, node) && layout.DecomposeReady(w, padding, |nodes[node]|)
    requires c < layout.Arity() && Child(layout.Arity(), node, c) < |nodes|
    ensures layout.DecomposeReady(w, padding, |nodes[Child(layout.Arity(), node, c)]|)
  {
    assert nodes[Child(layout.Arity(), node, c)] == ChildSignal(layout, w, padding, nodes[node], c);
    SubbandDecomposable(|nodes[node]|, w, layout.ChildMode(c), padding);
  }

  /** A node whose children hold its sub-bands and whose children's subtrees are decomposed is decomposed itself. */
  lemma NodeDecomposed(layout: Layout, w: Wavelet, padding: PaddingMode, nodes: seq<seq<real>>, first: nat, node: nat)
    requires node < first && node < |nodes| && Decomposable(|nodes[node]|, w, padding)
    requires forall c :: 0 <= c < layout.Arity() && Child(layout.Arity(), node, c) < |nodes| ==>
      nodes[Child(layout.Arity(), node, c)] == ChildSignal(layout, w, padding, nodes[node], c)
    requires ChildrenDecomposed(layout, w, padding, nodes, first, node, layout.Arity())
    ensures DecomposedBelow(layout, w, padding, nodes, first, node)
  {
    var k := layout.Arity();
    forall p, c |
      0 <= p < first && p < |nodes| && c < k && InSubtree(k, node, p) && Child(k, p, c) < |nodes|
      ensures Decomposable(|nodes[p]|, w, padding) && nodes[Child(k, p, c)] == ChildSignal(layout, w, padding, nodes[p], c)
    {
      if p != node {
        var b := Branch(k, node, p);
        assert DecomposedBelow(layout, w, padding, nodes, first, Child(k, node, b));
      }
    }
  }

  /** Below a leaf there is nothing to decompose. */
  lemma LeafDecomposed(layout: Layout, w: Wavelet, padding: PaddingMode, nodes: seq<seq<real>>, first: nat, leaf: nat)
    requires first <= leaf
    ensures DecomposedBelow(layout, w, padding, nodes, first, leaf)
  {
    var k := layout.Arity();
    forall p | InSubtree(k, leaf, p)
      ensures leaf <= p
    {
      SubtreeAbove(k, leaf, p);
    }
  }

  /** Proper descendants of a child are proper descendants of its parent. */
  lemma BelowChildIsBelow(k: nat, node: nat, c: nat, a: seq<seq<real>>, b: seq<seq<real>>)
    requires k >= 1 && c < k && SameExceptBelow(k, Child(k, node, c), a, b)
    ensures forall i :: 0 <= i < |a| && !StrictlyBelow(k, node, i) ==> a[i] == b[i]
  {
    forall i | 0 <= i < |a| && !StrictlyBelow(k, node, i)
      ensures a[i] == b[i]
    {
      if InSubtree(k, Child(k, node, c), i) {
        ChildSubtreeInside(k, node, c, i);
      }
    }
  }

  /**
   * In a decomposed tree whose root signal is not empty, every node's signal
   * is non-empty, given a filter of at least two taps or Even mode throughout.
   */
  lemma {:induction false} DecomposedNonEmpty(layout: Layout, w: Wavelet, padding: PaddingMode, nodes: seq<seq<real>>,
                                               first: nat, x: nat)
    requires |nodes| == layout.Arity() * first + 1 && x < |nodes|
    requires DecomposedBelow(layout, w, padding, nodes, first, 0) && |nodes[0]| > 0
    requires w.WellFormed() && (w.Length() >= 2 || layout == Binary(Even))
    ensures |nodes[x]| > 0
    decreases x
  {
    var k := layout.Arity();
    if x > 0 {
      ParentBelow(k, x);
      ChildOfParent(k, x);
      ParentIsInternal(k, first, x);
      var p := Parent(k, x);
      DecomposedNonEmpty(layout, w, padding, nodes, first, p);
      RootSubtree(k, p);
      var c := (x - 1) % k;
      assert Child(k, p, c) == x;
      SubbandBounds(|nodes[p]|, w.Length(), layout.ChildMode(c));
    }
  }

  // ---------------------------------------------------------------------
  // Reconstruction along one path

  /** The reconstruction filter for a marked child c: lowpass for approximation children, highpass otherwise. */
  function Filter(layout: Layout, w: Wavelet, c: nat): seq<real>
  {
    if layout.Lowpass(c) then w.lowpassReconstruction else w.highpassReconstruction
  }

  /**
   * Every step of the path from x down to leaf satisfies Reconstruct's
   * requirements: the filter has more than two taps and the window of the
   * node's current length fits in what its child on the path up-samples to.
   */
  predicate PathFits(layout: Layout, w: Wavelet, nodes: seq<seq<real>>, leaf: nat, x: nat)
    requires leaf < |nodes|
    decreases leaf - x
  {
    var k := layout.Arity();
    x == leaf ||
    (InSubtree(k, x, leaf) &&
      (SubtreeAbove(k, x, leaf);
       var c := Branch(k, x, leaf);
       var y := Child(k, x, c);
       SubtreeAbove(k, y, leaf);
       ParentOfChild(k, x, c);
       Reconstructible(|nodes[y]|, Filter(layout, w, c), w, |nodes[x]|) &&
       PathFits(layout, w, nodes, leaf, y)))
  }

  /**
   * The signal ReconstructNode leaves at node x when leaf is the only marked
   * node: the leaf's own signal at the leaf, and above it the reconstruction,
   * to x's current length, of the signal one step down the path.
   */
  function PathSignal(layout: Layout, w: Wavelet, padding: PaddingMode, nodes: seq<seq<real>>, leaf: nat, x: nat): (r: seq<real>)
    requires leaf < |nodes| && PathFits(layout, w, nodes, leaf, x)
    ensures x <= leaf && |r| == |nodes[x]|
    decreases leaf - x
  {
    var k := layout.Arity();
    if x == leaf then nodes[leaf]
    else
      SubtreeAbove(k, x, leaf);
      var c := Branch(k, x, leaf);
      var y := Child(k, x, c);
      SubtreeAbove(k, y, leaf);
      ParentOfChild(k, x, c);
      Reconstruction(PathSignal(layout, w, padding, nodes, leaf, y), Filter(layout, w, c), w, |nodes[x]|,
                     layout.ChildMode(c), padding)
  }

  /**
   * One step of the path: if the path from node to leaf fits and goes
   * through child c, then the path from c fits, and the signal at node is
   * the reconstruction of the signal at c with c's filter and mode.
   */
  lemma PathStep(layout: Layout, w: Wavelet, padding: PaddingMode, nodes: seq<seq<real>>, leaf: nat, node: nat, c: nat)
    requires leaf < |nodes| && c < layout.Arity()
    requires InSubtree(layout.Arity(), Child(layout.Arity(), node, c), leaf)
    requires PathFits(layout, w, nodes, leaf, node)
    ensures node < Child(layout.Arity(), node, c) <= leaf
    ensures PathFits(layout, w, nodes, leaf, Child(layout.Arity(), node, c))
    ensures Reconstructible(|nodes[Child(layout.Arity(), node, c)]|, Filter(layout, w, c), w, |nodes[node]|)
    ensures PathSignal(layout, w, padding, nodes, leaf, node) ==
      Reconstruction(PathSignal(layout, w, padding, nodes, leaf, Child(layout.Arity(), node, c)),
                     Filter(layout, w, c), w, |nodes[node]|, layout.ChildMode(c), padding)
  {
    var k := layout.Arity();
    BranchUnique(k, node, c, leaf);
    ParentOfChild(k, node, c);
    SubtreeAbove(k, Child(k, node, c), leaf);
  }

  /**
   * PathFits and PathSignal read only the leaf's signal and the lengths of
   * the nodes on the path; in particular the other nodes, and the contents of
   * the inner nodes on the path, do not matter.
   */
  lemma {:induction false} PathDependsOnLengths(layout: Layout, w: Wavelet, padding: PaddingMode,
                                                 a: seq<seq<real>>, b: seq<seq<real>>, leaf: nat, x: nat)
    requires leaf < |a| == |b| && a[leaf] == b[leaf]
    requires forall i :: 0 <= i < |a| && InSubtree(layout.Arity(), x, i) && InSubtree(layout.Arity(), i, leaf) ==>
      |a[i]| == |b[i]|
    ensures PathFits(layout, w, a, leaf, x) == PathFits(layout, w, b, leaf, x)
    ensures PathFits(layout, w, a, leaf, x) ==>
      PathSignal(layout, w, padding, a, leaf, x) == PathSignal(layout, w, padding, b, leaf, x)
    decreases leaf - x
  {
    var k := layout.Arity();
    if x != leaf && InSubtree(k, x, leaf) {
      SubtreeAbove(k, x, leaf);
      var c := Branch(k, x, leaf);
      var y := Child(k, x, c);
      SubtreeAbove(k, y, leaf);
      ParentOfChild(k, x, c);
      ChildInSubtree(k, x, c);
      forall i | 0 <= i < |a| && InSubtree(k, y, i) && InSubtree(k, i, leaf)
        ensures |a[i]| == |b[i]|
      {
        SubtreeTransitive(k, x, y, i);
      }
      PathDependsOnLengths(layout, w, padding, a, b, leaf, y);
      assert |a[x]| == |b[x]|;
      assert |a[y]| == |b[y]|;
    }
  }

  /** a and b agree outside the subtree of r. */
  predicate SameOutside<T(==)>(k: nat, r: nat, a: seq<T>, b: seq<T>)
    requires k >= 1
  {
    |a| == |b| && forall i :: 0 <= i < |a| && !InSubtree(k, r, i) ==> a[i] == b[i]
  }

  /** Within the subtree of r, leaf is the only marked node. */
  predicate OnlyMarked(k: nat, r: nat, leaf: nat, marks: seq<bool>)
    requires k >= 1
  {
    forall i :: 0 <= i < |marks| && InSubtree(k, r, i) ==> marks[i] == (i == leaf)
  }

  /** Within the subtree of r, the marked nodes are exactly leaf and its ancestors. */
  predicate MarkedPath(k: nat, r: nat, leaf: nat, marks: seq<bool>)
    requires k >= 1
  {
    forall i :: 0 <= i < |marks| && InSubtree(k, r, i) ==> marks[i] == InSubtree(k, i, leaf)
  }

  /**
   * Within the subtree of r, every ancestor of leaf holds its path signal
   * (computed from the nodes before) and every other node is as before.
   */
  predicate PathRebuilt(layout: Layout, w: Wavelet, padding: PaddingMode, before: seq<seq<real>>, after: seq<seq<real>>,
                        r: nat, leaf: nat)
    requires leaf < |before|
  {
    |after| == |before| &&
    forall i :: 0 <= i < |after| && InSubtree(layout.Arity(), r, i) ==>
      if InSubtree(layout.Arity(), i, leaf) then
        PathFits(layout, w, before, leaf, i) && after[i] == PathSignal(layout, w, padding, before, leaf, i)
      else after[i] == before[i]
  }

  /**
   * The effect of ReconstructNode(r) when leaf is the only marked node below
   * r: nothing if leaf is not below r; otherwise only the subtree of r
   * changes, the path from r to leaf is marked, and its nodes are rebuilt.
   */
  predicate PathReconstructed(layout: Layout, w: Wavelet, padding: PaddingMode,
                              n0: seq<seq<real>>, m0: seq<bool>, n1: seq<seq<real>>, m1: seq<bool>, r: nat, leaf: nat)
    requires leaf < |n0|
  {
    var k := layout.Arity();
    if InSubtree(k, r, leaf) then
      SameOutside(k, r, n0, n1) && SameOutside(k, r, m0, m1) &&
      MarkedPath(k, r, leaf, m1) && PathRebuilt(layout, w, padding, n0, n1, r, leaf)
    else n1 == n0 && m1 == m0
  }

  /**
   * ReconstructNode's bookkeeping after the calls on children 0 .. j - 1:
   * if leaf lies below a child already visited, that child's subtree has been
   * reconstructed; otherwise nothing has changed yet.
   */
  predicate ChildrenReconstructed(layout: Layout, w: Wavelet, padding: PaddingMode,
                                  n0: seq<seq<real>>, m0: seq<bool>, n: seq<seq<real>>, m: seq<bool>,
                                  node: nat, leaf: nat, j: nat)
    requires leaf < |n0|
  {
    var k := layout.Arity();
    if InSubtree(k, node, leaf) && node != leaf && Branch(k, node, leaf) < j then
      PathReconstructed(layout, w, padding, n0, m0, n, m, Child(k, node, Branch(k, node, leaf)), leaf)
    else n == n0 && m == m0
  }

  /** The requirements of ReconstructNode(r) for the one marked leaf. */
  predicate ReadyBelow(layout: Layout, w: Wavelet, nodes: seq<seq<real>>, marks: seq<bool>, r: nat, leaf: nat)
    requires leaf < |nodes|
  {
    OnlyMarked(layout.Arity(), r, leaf, marks) &&
    (InSubtree(layout.Arity(), r, leaf) ==> PathFits(layout, w, nodes, leaf, r))
  }

  /** Before the call on child j, that child's requirements hold. */
  lemma ChildReady(layout: Layout, w: Wavelet, padding: PaddingMode,
                   n0: seq<seq<real>>, m0: seq<bool>, n: seq<seq<real>>, m: seq<bool>, node: nat, leaf: nat, j: nat)
    requires leaf < |n0| && j < layout.Arity()
    requires ReadyBelow(layout, w, n0, m0, node, leaf)
    requires ChildrenReconstructed(layout, w, padding, n0, m0, n, m, node, leaf, j)
    ensures leaf < |n| && ReadyBelow(layout, w, n, m, Child(layout.Arity(), node, j), leaf)
  {
    var k := layout.Arity();
    var y := Child(k, node, j);
    forall i | 0 <= i < |m0| && InSubtree(k, y, i)
      ensures InSubtree(k, node, i)
    {
      ChildSubtreeInside(k, node, j, i);
    }
    if InSubtree(k, node, leaf) && node != leaf && Branch(k, node, leaf) < j {
      var b := Branch(k, node, leaf);
      var z := Child(k, node, b);
      forall i | 0 <= i < |m| && InSubtree(k, y, i)
        ensures m[i] == m0[i] && i != leaf
      {
        SiblingsDisjoint(k, node, j, b, i);
        if i == leaf {
          SiblingsDisjoint(k, node, b, j, leaf);
        }
      }
      if InSubtree(k, y, leaf) {
        SiblingsDisjoint(k, node, b, j, leaf);
      }
    } else if InSubtree(k, y, leaf) {
      ChildSubtreeInside(k, node, j, leaf);
      PathStep(layout, w, padding, n0, leaf, node, j);
    }
  }

  /** After the call on child j, the bookkeeping covers children 0 .. j. */
  lemma ChildDone(layout: Layout, w: Wavelet, padding: PaddingMode,
                  n0: seq<seq<real>>, m0: seq<bool>, n: seq<seq<real>>, m: seq<bool>,
                  n1: seq<seq<real>>, m1: seq<bool>, node: nat, leaf: nat, j: nat)
    requires leaf < |n0| && j < layout.Arity()
    requires ChildrenReconstructed(layout, w, padding, n0, m0, n, m, node, leaf, j)
    requires leaf < |n| && PathReconstructed(layout, w, padding, n, m, n1, m1, Child(layout.Arity(), node, j), leaf)
    ensures ChildrenReconstructed(layout, w, padding, n0, m0, n1, m1, node, leaf, j + 1)
  {
    var k := layout.Arity();
    if InSubtree(k, node, leaf) && node != leaf {
      var b := Branch(k, node, leaf);
      if b != j && InSubtree(k, Child(k, node, j), leaf) {
        SiblingsDisjoint(k, node, b, j, leaf);
      }
    } else if InSubtree(k, Child(k, node, j), leaf) {
      ChildSubtreeInside(k, node, j, leaf);
    }
  }

  /**
   * After all children: child c is marked exactly when leaf lies below it,
   * which is the case for at most one child.
   */
  lemma MarkedChild(layout: Layout, w: Wavelet, padding: PaddingMode,
                    n0: seq<seq<real>>, m0: seq<bool>, n: seq<seq<real>>, m: seq<bool>, node: nat, leaf: nat, c: nat)
    requires leaf < |n0| && c < layout.Arity() && Child(layout.Arity(), node, c) < |m0|
    requires OnlyMarked(layout.Arity(), node, leaf, m0)
    requires ChildrenReconstructed(layout, w, padding, n0, m0, n, m, node, leaf, layout.Arity())
    ensures Child(layout.Arity(), node, c) < |m|
    ensures m[Child(layout.Arity(), node, c)] ==
      (InSubtree(layout.Arity(), node, leaf) && node != leaf && Branch(layout.Arity(), node, leaf) == c)
  {
    var k := layout.Arity();
    var y := Child(k, node, c);
    ChildInSubtree(k, node, c);
    ParentOfChild(k, node, c);
    assert m0[y] == (y == leaf);
    if InSubtree(k, node, leaf) && node != leaf {
      var b := Branch(k, node, leaf);
      var z := Child(k, node, b);
      assert PathReconstructed(layout, w, padding, n0, m0, n, m, z, leaf);
      if b == c {
        assert MarkedPath(k, z, leaf, m);
      } else {
        SiblingsDisjoint(k, node, c, b, y);
        assert SameOutside(k, z, m0, m);
        assert m[y] == m0[y];
      }
    }
  }

  /** The node's signal step: Reconstruct applied to the rebuilt child on the path gives the node's path signal. */
  lemma NodeStepSignal(layout: Layout, w: Wavelet, padding: PaddingMode,
                       n0: seq<seq<real>>, m0: seq<bool>, n: seq<seq<real>>, m: seq<bool>, node: nat, leaf: nat)
    requires leaf < |n0| && node < |n0| && InSubtree(layout.Arity(), node, leaf) && node != leaf
    requires PathFits(layout, w, n0, leaf, node)
    requires ChildrenReconstructed(layout, w, padding, n0, m0, n, m, node, leaf, layout.Arity())
    ensures |n| == |n0| && |m| == |m0|
    ensures Child(layout.Arity(), node, Branch(layout.Arity(), node, leaf)) < |n|
    ensures n[node] == n0[node]
    ensures Reconstructible(|n[Child(layout.Arity(), node, Branch(layout.Arity(), node, leaf))]|,
                            Filter(layout, w, Branch(layout.Arity(), node, leaf)), w, |n[node]|)
    ensures Reconstruction(n[Child(layout.Arity(), node, Branch(layout.Arity(), node, leaf))],
                           Filter(layout, w, Branch(layout.Arity(), node, leaf)), w, |n[node]|,
                           layout.ChildMode(Branch(layout.Arity(), node, leaf)), padding)
      == PathSignal(layout, w, padding, n0, leaf, node)
  {
    var k := layout.Arity();
    var b := Branch(k, node, leaf);
    var y := Child(k, node, b);
    PathStep(layout, w, padding, n0, leaf, node, b);
    assert PathReconstructed(layout, w, padding, n0, m0, n, m, y, leaf);
    assert PathRebuilt(layout, w, padding, n0, n, y, leaf);
    assert n[y] == PathSignal(layout, w, padding, n0, leaf, y);
    if InSubtree(k, y, node) {
      SubtreeAbove(k, y, node);
    }
    assert SameOutside(k, y, n0, n);
  }

  /** Changing the node itself and, before that, only its child b's subtree changes only the node's subtree. */
  lemma NodeStepOutside<T>(k: nat, node: nat, b: nat, a0: seq<T>, a: seq<T>, v: T)
    requires k >= 1 && b < k && node < |a| && SameOutside(k, Child(k, node, b), a0, a)
    ensures SameOutside(k, node, a0, a[node := v])
  {
    forall i | 0 <= i < |a0| && !InSubtree(k, node, i)
      ensures a[node := v][i] == a0[i]
    {
      if InSubtree(k, Child(k, node, b), i) {
        ChildSubtreeInside(k, node, b, i);
      }
    }
  }

  /** A node below the node, other than the node itself, lies below exactly one child; off child b it is off the path. */
  lemma OffBranch(k: nat, node: nat, b: nat, leaf: nat, i: nat)
    requires k >= 1 && b < k && InSubtree(k, Child(k, node, b), leaf)
    requires InSubtree(k, node, i) && i != node && Branch(k, node, i) != b
    ensures !InSubtree(k, Child(k, node, b), i) && !InSubtree(k, i, leaf)
  {
    var ci := Branch(k, node, i);
    SiblingsDisjoint(k, node, ci, b, i);
    if InSubtree(k, i, leaf) {
      SubtreeTransitive(k, Child(k, node, ci), i, leaf);
      SiblingsDisjoint(k, node, ci, b, leaf);
    }
  }

  /** The node's marking step: marking the node extends the marked path of its child b to the node. */
  lemma NodeStepMarks(k: nat, node: nat, b: nat, leaf: nat, m0: seq<bool>, m: seq<bool>)
    requires k >= 1 && b < k && node < |m| && InSubtree(k, Child(k, node, b), leaf)
    requires OnlyMarked(k, node, leaf, m0)
    requires SameOutside(k, Child(k, node, b), m0, m) && MarkedPath(k, Child(k, node, b), leaf, m)
    ensures SameOutside(k, node, m0, m[node := true]) && MarkedPath(k, node, leaf, m[node := true])
  {
    var m2 := m[node := true];
    ChildSubtreeInside(k, node, b, leaf);
    NodeStepOutside(k, node, b, m0, m, true);
    forall i | 0 <= i < |m2| && InSubtree(k, node, i)
      ensures m2[i] == InSubtree(k, i, leaf)
    {
      if i != node && Branch(k, node, i) != b {
        OffBranch(k, node, b, leaf, i);
      }
    }
  }

  /** The node's writing step: storing the node's path signal extends the rebuilt path of its child b to the node. */
  lemma NodeStepNodes(layout: Layout, w: Wavelet, padding: PaddingMode, n0: seq<seq<real>>, n: seq<seq<real>>,
                      node: nat, b: nat, leaf: nat, data: seq<real>)
    requires leaf < |n0| && node < |n0| && b < layout.Arity()
    requires InSubtree(layout.Arity(), Child(layout.Arity(), node, b), leaf) && PathFits(layout, w, n0, leaf, node)
    requires data == PathSignal(layout, w, padding, n0, leaf, node)
    requires SameOutside(layout.Arity(), Child(layout.Arity(), node, b), n0, n)
    requires PathRebuilt(layout, w, padding, n0, n, Child(layout.Arity(), node, b), leaf)
    ensures SameOutside(layout.Arity(), node, n0, n[node := data])
    ensures PathRebuilt(layout, w, padding, n0, n[node := data], node, leaf)
  {
    var k := layout.Arity();
    ChildSubtreeInside(k, node, b, leaf);
    NodeStepOutside(k, node, b, n0, n, data);
    NodeStepBelow(layout, w, padding, n0, n, node, b, leaf);
  }

  /** Below the node, off the node itself, the rebuilt path of child b is the rebuilt path of the node. */
  lemma NodeStepBelow(layout: Layout, w: Wavelet, padding: PaddingMode, n0: seq<seq<real>>, n: seq<seq<real>>,
                      node: nat, b: nat, leaf: nat)
    requires leaf < |n0| && b < layout.Arity()
    requires InSubtree(layout.Arity(), Child(layout.Arity(), node, b), leaf)
    requires SameOutside(layout.Arity(), Child(layout.Arity(), node, b), n0, n)
    requires PathRebuilt(layout, w, padding, n0, n, Child(layout.Arity(), node, b), leaf)
    ensures forall i :: 0 <= i < |n0| && InSubtree(layout.Arity(), node, i) && i != node ==>
      if InSubtree(layout.Arity(), i, leaf) then
        PathFits(layout, w, n0, leaf, i) && n[i] == PathSignal(layout, w, padding, n0, leaf, i)
      else n[i] == n0[i]
  {
    var k := layout.Arity();
    forall i | 0 <= i < |n0| && InSubtree(k, node, i) && i != node
      ensures if InSubtree(k, i, leaf) then
          PathFits(layout, w, n0, leaf, i) && n[i] == PathSignal(layout, w, padding, n0, leaf, i)
        else n[i] == n0[i]
    {
      if Branch(k, node, i) != b {
        OffBranch(k, node, b, leaf, i);
      } else {
        RebuiltAt(layout, w, padding, n0, n, Child(k, node, b), leaf, i);
      }
    }
  }

  /**
   * The node's own step: with leaf below child b, the signal Reconstruct
   * produces from b's current signal is the node's path signal, and writing
   * it and marking the node completes ReconstructNode's effect.
   */
  lemma NodeStep(layout: Layout, w: Wavelet, padding: PaddingMode,
                 n0: seq<seq<real>>, m0: seq<bool>, n: seq<seq<real>>, m: seq<bool>, node: nat, leaf: nat)
    requires leaf < |n0| == |m0| && node < |n0| && InSubtree(layout.Arity(), node, leaf) && node != leaf
    requires ReadyBelow(layout, w, n0, m0, node, leaf)
    requires ChildrenReconstructed(layout, w, padding, n0, m0, n, m, node, leaf, layout.Arity())
    ensures Child(layout.Arity(), node, Branch(layout.Arity(), node, leaf)) < |n| && node < |n| && node < |m|
    ensures Reconstructible(|n[Child(layout.Arity(), node, Branch(layout.Arity(), node, leaf))]|,
                            Filter(layout, w, Branch(layout.Arity(), node, leaf)), w, |n[node]|)
    ensures PathReconstructed(layout, w, padding, n0, m0,
      n[node := Reconstruction(n[Child(layout.Arity(), node, Branch(layout.Arity(), node, leaf))],
                               Filter(layout, w, Branch(layout.Arity(), node, leaf)), w, |n[node]|,
                               layout.ChildMode(Branch(layout.Arity(), node, leaf)), padding)],
      m[node := true], node, leaf)
  {
    var k := layout.Arity();
    var b := Branch(k, node, leaf);
    var y := Child(k, node, b);
    NodeStepSignal(layout, w, padding, n0, m0, n, m, node, leaf);
    var data := PathSignal(layout, w, padding, n0, leaf, node);
    assert |m| == |m0|;
    assert Reconstruction(n[y], Filter(layout, w, b), w, |n[node]|, layout.ChildMode(b), padding) == data;
    assert PathReconstructed(layout, w, padding, n0, m0, n, m, y, leaf);
    NodeStepMarks(k, node, b, leaf, m0, m);
    NodeStepNodes(layout, w, padding, n0, n, node, b, leaf, data);
    assert PathReconstructed(layout, w, padding, n0, m0, n[node := data], m[node := true], node, leaf);
  }

  /** What PathRebuilt says about one node. */
  lemma RebuiltAt(layout: Layout, w: Wavelet, padding: PaddingMode, before: seq<seq<real>>, after: seq<seq<real>>,
                  r: nat, leaf: nat, i: nat)
    requires leaf < |before| && PathRebuilt(layout, w, padding, before, after, r, leaf)
    requires i < |after| && InSubtree(layout.Arity(), r, i)
    ensures InSubtree(layout.Arity(), i, leaf) ==>
      PathFits(layout, w, before, leaf, i) && after[i] == PathSignal(layout, w, padding, before, leaf, i)
    ensures !InSubtree(layout.Arity(), i, leaf) ==> after[i] == before[i]
  {
  }

  /**
   * From the root, the reconstruction marks exactly leaf and its ancestors
   * and rebuilds their signals; when the leaf is the root itself, nothing
   * changes. Stated for the arity written as k.
   */
  lemma RootReconstructed(layout: Layout, k: nat, w: Wavelet, padding: PaddingMode,
                          n0: seq<seq<real>>, m0: seq<bool>, n1: seq<seq<real>>, m1: seq<bool>, leaf: nat)
    requires k == layout.Arity()
    requires leaf < |n0| && PathReconstructed(layout, w, padding, n0, m0, n1, m1, 0, leaf)
    ensures |n1| == |n0| && |m1| == |m0|
    ensures forall i :: 0 <= i < |m1| ==> m1[i] == InSubtree(k, i, leaf)
    ensures PathRebuilt(layout, w, padding, n0, n1, 0, leaf)
    ensures leaf == 0 ==> n1 == n0
  {
    RootSubtree(k, leaf);
    forall i | 0 <= i < |m1|
      ensures m1[i] == InSubtree(k, i, leaf)
    {
      RootSubtree(k, i);
    }
    if leaf == 0 {
      forall i | 0 <= i < |n1|
        ensures n1[i] == n0[i]
      {
        RootSubtree(k, i);
      }
    }
  }

  /** A call on a leaf changes nothing, and this is ReconstructNode's effect there. */
  lemma LeafReconstructed(layout: Layout, w: Wavelet, padding: PaddingMode,
                          n: seq<seq<real>>, m: seq<bool>, first: nat, node: nat, leaf: nat)
    requires |n| == |m| == layout.Arity() * first + 1
    requires first <= node < |n| && first <= leaf < |n|
    requires OnlyMarked(layout.Arity(), node, leaf, m)
    ensures PathReconstructed(layout, w, padding, n, m, n, m, node, leaf)
  {
    var k := layout.Arity();
    if InSubtree(k, node, leaf) {
      LeafSubtree(k, first, node, leaf);
      forall i | 0 <= i < |n| && InSubtree(k, node, i)
        ensures i == node
      {
        LeafSubtree(k, first, node, i);
      }
    }
  }

  /**
   * After a full pass from the root, no leaf has changed and every node keeps
   * its length.
   */
  lemma RebuiltKeepsLeavesAndLengths(layout: Layout, w: Wavelet, padding: PaddingMode,
                                     before: seq<seq<real>>, after: seq<seq<real>>, first: nat, leaf: nat)
    requires |before| == layout.Arity() * first + 1 && first <= leaf < |before|
    requires PathRebuilt(layout, w, padding, before, after, 0, leaf)
    ensures |after| == |before|
    ensures forall i :: 0 <= i < |before| ==> |after[i]| == |before[i]|
    ensures forall i :: first <= i < |before| ==> after[i] == before[i]
  {
    var k := layout.Arity();
    forall i | 0 <= i < |before|
      ensures |after[i]| == |before[i]| && (first <= i ==> after[i] == before[i])
    {
      RootSubtree(k, i);
      if InSubtree(k, i, leaf) && first <= i {
        LeafSubtree(k, first, i, leaf);
      }
    }
  }

  /**
   * In a decomposed tree with a non-empty root and a filter of more than two
   * taps, the path from any node above a leaf down to that leaf fits:
   * decomposition leaves every child long enough for the reconstruction
   * window of its parent.
   */
  lemma {:induction false} DecomposedPathFits(layout: Layout, w: Wavelet, padding: PaddingMode, nodes: seq<seq<real>>,
                                               first: nat, leaf: nat, x: nat)
    requires |nodes| == layout.Arity() * first + 1 && leaf < |nodes| && InSubtree(layout.Arity(), x, leaf)
    requires DecomposedBelow(layout, w, padding, nodes, first, 0) && |nodes[0]| > 0
    requires w.WellFormed() && w.Length() > 2
    ensures PathFits(layout, w, nodes, leaf, x)
    decreases leaf - x
  {
    var k := layout.Arity();
    if x != leaf {
      SubtreeAbove(k, x, leaf);
      var c := Branch(k, x, leaf);
      var y := Child(k, x, c);
      SubtreeAbove(k, y, leaf);
      ParentOfChild(k, x, c);
      DecomposedPathFits(layout, w, padding, nodes, first, leaf, y);
      DecomposedNonEmpty(layout, w, padding, nodes, first, x);
      ChildOfParent(k, y);
      ParentIsInternal(k, first, y);
      RootSubtree(k, x);
      SubbandBounds(|nodes[x]|, w.Length(), layout.ChildMode(c));
    }
  }

  /** cur has dec's leaves (the nodes from first on) and the length of every one of its nodes. */
  ghost predicate KeepsLeavesAndLengths(dec: seq<seq<real>>, cur: seq<seq<real>>, first: nat)
  {
    |cur| == |dec| &&
    (forall i :: 0 <= i < |dec| ==> |cur[i]| == |dec[i]|) &&
    (forall i :: first <= i < |dec| ==> cur[i] == dec[i])
  }

  /**
   * Reconstructing level after level from one decomposition, as a caller that
   * sums the levels does: a reconstruction pass for leaf, on a tree that
   * still has the decomposed tree's leaves and lengths, keeps them, and
   * afterwards the path of any leaf other still fits and gives the same
   * root signal as in the decomposed tree. The first pass starts from
   * cur == dec.
   */
  lemma ReconstructAgain(layout: Layout, w: Wavelet, padding: PaddingMode,
                         dec: seq<seq<real>>, cur: seq<seq<real>>, after: seq<seq<real>>,
                         first: nat, leaf: nat, other: nat)
    requires |dec| == layout.Arity() * first + 1 && first <= leaf < |dec| && first <= other < |dec|
    requires DecomposedBelow(layout, w, padding, dec, first, 0) && |dec[0]| > 0
    requires w.WellFormed() && w.Length() > 2
    requires KeepsLeavesAndLengths(dec, cur, first)
    requires PathRebuilt(layout, w, padding, cur, after, 0, leaf)
    ensures KeepsLeavesAndLengths(dec, after, first)
    ensures PathFits(layout, w, dec, other, 0) && PathFits(layout, w, after, other, 0)
    ensures PathSignal(layout, w, padding, after, other, 0) == PathSignal(layout, w, padding, dec, other, 0)
  {
    RebuiltKeepsLeavesAndLengths(layout, w, padding, cur, after, first, leaf);
    RootSubtree(layout.Arity(), other);
    DecomposedPathFits(layout, w, padding, dec, first, other, 0);
    PathDependsOnLengths(layout, w, padding, dec, after, other, 0);
  }
}
