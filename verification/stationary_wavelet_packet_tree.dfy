/**
 * The stationary wavelet packet tree of src/StationaryWaveletPacketTree.cc:
 * a quad tree in which every internal node is decomposed in both dyadic
 * modes. Child 0 (north-west) and child 2 (south-west) take the
 * approximation and the detail of the Even decomposition, child 1
 * (north-east) and child 3 (south-east) those of the Odd one. Reconstructing
 * a level rebuilds the root from each leaf of the level in turn and averages
 * the results.
 */
module StationaryPacketTree {
  import opened IndexedTree
  import opened WaveletMath
  import opened PacketTreeBase
  import opened StationaryLeafIndex

  const ChildIndexNorthWest: nat := 0
  const ChildIndexNorthEast: nat := 1
  const ChildIndexSouthWest: nat := 2
  const ChildIndexSouthEast: nat := 3

  /** Element-wise sum, as std::transform with std::plus computes it. */
  function AddSignals(a: seq<real>, b: seq<real>): (r: seq<real>)
    requires |a| == |b|
    ensures |r| == |a|
  {
    seq(|a|, t requires 0 <= t < |a| => a[t] + b[t])
  }

  /** Every sample divided by count. */
  function Averaged(sum: seq<real>, count: nat): (r: seq<real>)
    requires count > 0
    ensures |r| == |sum|
  {
    seq(|sum|, t requires 0 <= t < |sum| => sum[t] / count as real)
  }

  /** std::transform(acc, signal, acc, std::plus): adds signal into acc sample by sample. */
  method AddInto(acc: array<real>, signal: seq<real>)
    requires acc.Length == |signal|
    modifies acc
    ensures acc[..] == AddSignals(old(acc[..]), signal)
  {
    var t := 0;
    while t < acc.Length
      invariant 0 <= t <= acc.Length
      invariant forall u :: 0 <= u < t ==> acc[u] == old(acc[u]) + signal[u]
      invariant forall u :: t <= u < acc.Length ==> acc[u] == old(acc[u])
    {
      acc[t] := acc[t] + signal[t];
      t := t + 1;
    }
  }

  /** Divides every sample of acc by count in place. */
  method DivideAll(acc: array<real>, count: nat)
    requires count > 0
    modifies acc
    ensures acc[..] == Averaged(old(acc[..]), count)
  {
    var t := 0;
    while t < acc.Length
      invariant 0 <= t <= acc.Length
      invariant forall u :: 0 <= u < t ==> acc[u] == old(acc[u]) / count as real
      invariant forall u :: t <= u < acc.Length ==> acc[u] == old(acc[u])
    {
      acc[t] := acc[t] / count as real;
      t := t + 1;
    }
  }

  /** The node index of the j-th leaf that level accumulates. */
  function LevelLeaf(first: nat, level: nat, j: nat): nat
  {
    first + LeafOffset(level, j)
  }

  /** The paths from the first count leaves of level up to the root all fit. */
  predicate LevelFits(w: Wavelet, nodes: seq<seq<real>>, first: nat, level: nat, count: nat)
  {
    forall j :: 0 <= j < count ==>
      LevelLeaf(first, level, j) < |nodes| && PathFits(Stationary, w, nodes, LevelLeaf(first, level, j), 0)
  }

  /**
   * The sum of the root signals that reconstructing from each of the first
   * count leaves of level gives, starting from zeros of the root's length.
   */
  function LevelSum(w: Wavelet, padding: PaddingMode, nodes: seq<seq<real>>, first: nat, level: nat, count: nat)
    : (r: seq<real>)
    requires |nodes| > 0 && LevelFits(w, nodes, first, level, count)
    ensures |r| == |nodes[0]|
  {
    if count == 0 then seq(|nodes[0]|, _ => 0.0)
    else
      AddSignals(LevelSum(w, padding, nodes, first, level, count - 1),
                 PathSignal(Stationary, w, padding, nodes, LevelLeaf(first, level, count - 1), 0))
  }

  /**
   * The sum over the level's first next == j + 1 leaves unfolds once. A
   * proof helper with no counterpart in the source: it keeps
   * ReconstructLevelLeaf's proof within the resource limit.
   */
  lemma LevelSumNext(w: Wavelet, padding: PaddingMode, nodes: seq<seq<real>>, first: nat, level: nat,
                     j: nat, next: nat, count: nat)
    requires |nodes| > 0 && j < count && next == j + 1 && LevelFits(w, nodes, first, level, count)
    ensures LevelFits(w, nodes, first, level, next)
    ensures LevelSum(w, padding, nodes, first, level, next) ==
            AddSignals(LevelSum(w, padding, nodes, first, level, j),
                       PathSignal(Stationary, w, padding, nodes, LevelLeaf(first, level, j), 0))
  {
  }

  /**
   * In a decomposed tree with a non-empty root and filters of more than two
   * taps, every level's leaves have paths that fit.
   */
  lemma DecomposedLevelFits(w: Wavelet, padding: PaddingMode, nodes: seq<seq<real>>, first: nat, h: nat, level: nat)
    requires |nodes| == 4 * first + 1 && |nodes| == first + Pow(4, h) && level < Pow(2, h)
    requires DecomposedBelow(Stationary, w, padding, nodes, first, 0) && |nodes[0]| > 0
    requires w.WellFormed() && w.Length() > 2
    ensures LevelFits(w, nodes, first, level, Pow(2, h))
  {
    forall j | 0 <= j < Pow(2, h)
      ensures LevelLeaf(first, level, j) < |nodes| && PathFits(Stationary, w, nodes, LevelLeaf(first, level, j), 0)
    {
      LeafOffsetBound(level, j, h);
      RootSubtree(4, LevelLeaf(first, level, j));
      DecomposedPathFits(Stationary, w, padding, nodes, first, LevelLeaf(first, level, j), 0);
    }
  }

  /**
   * Before leaf j of level is reconstructed from the current nodes cur --
   * the original nodes n0 with rebuilt inner signals of the same lengths --
   * the leaf is in range, its path fits, and the root signal it gives is
   * the one it gives from n0.
   */
  lemma LeafReady(w: Wavelet, padding: PaddingMode, n0: seq<seq<real>>, cur: seq<seq<real>>,
                  first: nat, level: nat, j: nat, count: nat, h: nat)
    requires |n0| == first + Pow(4, h) && |cur| == |n0| && level < Pow(2, h) && j < count <= Pow(2, h)
    requires forall x :: 0 <= x < |n0| ==> |cur[x]| == |n0[x]|
    requires forall x :: first <= x < |n0| ==> cur[x] == n0[x]
    requires LevelFits(w, n0, first, level, count)
    ensures LevelLeaf(first, level, j) < |cur| && PathFits(Stationary, w, cur, LevelLeaf(first, level, j), 0)
    ensures PathSignal(Stationary, w, padding, cur, LevelLeaf(first, level, j), 0)
         == PathSignal(Stationary, w, padding, n0, LevelLeaf(first, level, j), 0)
  {
    LeafOffsetBound(level, j, h);
    PathDependsOnLengths(Stationary, w, padding, n0, cur, LevelLeaf(first, level, j), 0);
  }

  /**
   * Reconstructing level after level from one decomposition: on nodes cur
   * that keep the decomposed nodes' leaves and lengths -- as every
   * Reconstruct leaves them -- the paths of a level's leaves still fit and
   * the level's sum is the one the decomposed nodes give.
   */
  lemma {:induction false} LevelSumAgain(w: Wavelet, padding: PaddingMode, dec: seq<seq<real>>, cur: seq<seq<real>>,
                                         first: nat, level: nat, count: nat, h: nat)
    requires |dec| == 4 * first + 1 && |dec| == first + Pow(4, h) && level < Pow(2, h) && count <= Pow(2, h)
    requires KeepsLeavesAndLengths(dec, cur, first)
    requires LevelFits(w, dec, first, level, count)
    ensures LevelFits(w, cur, first, level, count)
    ensures LevelSum(w, padding, cur, first, level, count) == LevelSum(w, padding, dec, first, level, count)
    decreases count
  {
    LevelFitsAgain(w, padding, dec, cur, first, level, count, h);
    if count > 0 {
      var j := count - 1;
      LevelSumAgain(w, padding, dec, cur, first, level, j, h);
      LeafReady(w, padding, dec, cur, first, level, j, count, h);
      LevelSumNext(w, padding, cur, first, level, j, count, count);
      LevelSumNext(w, padding, dec, first, level, j, count, count);
    }
  }

  lemma LevelFitsAgain(w: Wavelet, padding: PaddingMode, dec: seq<seq<real>>, cur: seq<seq<real>>,
                       first: nat, level: nat, count: nat, h: nat)
    requires |dec| == first + Pow(4, h) && level < Pow(2, h) && count <= Pow(2, h)
    requires KeepsLeavesAndLengths(dec, cur, first)
    requires LevelFits(w, dec, first, level, count)
    ensures LevelFits(w, cur, first, level, count)
  {
    forall j | 0 <= j < count
      ensures LevelLeaf(first, level, j) < |cur| && PathFits(Stationary, w, cur, LevelLeaf(first, level, j), 0)
    {
      LeafReady(w, padding, dec, cur, first, level, j, count, h);
    }
  }

  /**
   * The i-th pair of leaves of a level, at offsets currentLeaf and
   * currentLeaf + 1 from the first leaf, are the level's leaves done and
   * done + 1.
   */
  lemma PairLeaf(first: nat, level: nat, i: nat, currentLeaf: nat, done: nat, j: nat)
    requires currentLeaf == LeafOffset(level, 0) + 4 * Spread(i) && done == 2 * i && (j == done || j == done + 1)
    ensures j == done ==> LevelLeaf(first, level, j) == first + currentLeaf
    ensures j == done + 1 ==> LevelLeaf(first, level, j) == first + currentLeaf + 1
  {
    IterationLeaves(level, i);
  }

  /**
   * Storing the Even sub-bands in the north-west and south-west children
   * and the Odd ones in the north-east and south-east children changes only
   * proper descendants of node and leaves each child holding its sub-band.
   */
  lemma SplitStored(w: Wavelet, padding: PaddingMode, n0: seq<seq<real>>, n1: seq<seq<real>>, node: nat,
                    evenApprox: seq<real>, evenDetail: seq<real>, oddApprox: seq<real>, oddDetail: seq<real>)
    requires Child(4, node, ChildIndexSouthEast) < |n0| && Decomposable(|n0[node]|, w, padding)
    requires Subbands(evenApprox, evenDetail) == Decomposition(n0[node], w, Even, padding)
    requires Subbands(oddApprox, oddDetail) == Decomposition(n0[node], w, Odd, padding)
    requires n1 == n0[Child(4, node, ChildIndexNorthWest) := evenApprox][Child(4, node, ChildIndexSouthWest) := evenDetail]
                     [Child(4, node, ChildIndexNorthEast) := oddApprox][Child(4, node, ChildIndexSouthEast) := oddDetail]
    ensures SameExceptBelow(4, node, n0, n1) && SubbandsStored(Stationary, w, padding, n1, node)
  {
    forall c | 0 <= c < 4
      ensures InSubtree(4, node, Child(4, node, c)) && Child(4, node, c) != node
    {
      ChildInSubtree(4, node, c);
    }
    assert n1[node] == n0[node];
    assert SameExceptBelow(4, node, n0, n1);
    forall c | 0 <= c < 4 && Child(4, node, c) < |n1|
      ensures n1[Child(4, node, c)] == ChildSignal(Stationary, w, padding, n1[node], c)
    {
      if c == ChildIndexNorthWest {
      } else if c == ChildIndexNorthEast {
      } else if c == ChildIndexSouthWest {
      } else {
      }
    }
  }

  class StationaryWaveletPacketTree {
    const tree: Tree
    const wavelet: Wavelet
    const paddingMode: PaddingMode

    ghost predicate Valid()
      reads this, tree
    {
      tree.Valid() && tree.k == 4
    }

    /** StationaryWaveletPacketTree(height, wavelet, padding_mode): a fresh quad tree of empty, unmarked nodes. */
    constructor (height: nat, wavelet: Wavelet, paddingMode: PaddingMode)
      requires height >= 1
      ensures Valid() && fresh(tree) && tree.height == height
      ensures this.wavelet == wavelet && this.paddingMode == paddingMode
      ensures forall i :: 0 <= i < |tree.nodes| ==> tree.nodes[i] == [] && !tree.marks[i]
    {
      tree := new Tree(4, height);
      this.wavelet := wavelet;
      this.paddingMode := paddingMode;
    }

    /** Decompose(): decomposes the whole tree from the root; the root itself and the marks are unchanged. */
    method Decompose()
      requires Valid()
      requires !tree.IsLeaf(0) ==> Stationary.DecomposeReady(wavelet, paddingMode, |tree.nodes[0]|)
      modifies tree
      ensures Valid()
      ensures |tree.nodes| == |old(tree.nodes)| && tree.nodes[0] == old(tree.nodes[0]) && tree.marks == old(tree.marks)
      ensures DecomposedBelow(Stationary, wavelet, paddingMode, tree.nodes, tree.GetFirstLeaf(), 0)
    {
      DecomposeNode(0);
      assert !StrictlyBelow(4, 0, 0);
    }

    /**
     * DecomposeNode(node): nothing on a leaf; otherwise the Even
     * decomposition goes to the north-west and south-west children, the Odd
     * one to the north-east and south-east children, and the four children
     * are decomposed in turn. Only proper descendants of the node change.
     */
    method DecomposeNode(node: nat)
      requires Valid() && node < |tree.nodes|
      requires !tree.IsLeaf(node) ==> Stationary.DecomposeReady(wavelet, paddingMode, |tree.nodes[node]|)
      modifies tree
      ensures Valid()
      ensures SameExceptBelow(4, node, old(tree.nodes), tree.nodes) && tree.marks == old(tree.marks)
      ensures DecomposedBelow(Stationary, wavelet, paddingMode, tree.nodes, tree.GetFirstLeaf(), node)
      decreases Geom(4, tree.height) - node, 1
    {
      ghost var first := tree.GetFirstLeaf();
      if tree.IsLeaf(node) {
        LeafDecomposed(Stationary, wavelet, paddingMode, tree.nodes, first, node);
        return;
      }

      var nwChild := tree.GetChild(node, ChildIndexNorthWest);
      var neChild := tree.GetChild(node, ChildIndexNorthEast);
      var swChild := tree.GetChild(node, ChildIndexSouthWest);
      var seChild := tree.GetChild(node, ChildIndexSouthEast);
      ghost var n0 := tree.nodes;

      var evenApprox, evenDetail := WaveletMath.Decompose(tree.GetNodeData(node), wavelet, Even, paddingMode);
      tree.SetNodeData(nwChild, evenApprox);
      tree.SetNodeData(swChild, evenDetail);
      var oddApprox, oddDetail := WaveletMath.Decompose(tree.GetNodeData(node), wavelet, Odd, paddingMode);
      tree.SetNodeData(neChild, oddApprox);
      tree.SetNodeData(seChild, oddDetail);
      ghost var n1 := tree.nodes;
      SplitStored(wavelet, paddingMode, n0, n1, node, evenApprox, evenDetail, oddApprox, oddDetail);

      DecomposeChild(node, ChildIndexNorthWest, first, n0);
      DecomposeChild(node, ChildIndexNorthEast, first, n0);
      DecomposeChild(node, ChildIndexSouthWest, first, n0);
      DecomposeChild(node, ChildIndexSouthEast, first, n0);
      NodeDecomposed(Stationary, wavelet, paddingMode, tree.nodes, first, node);
    }

    /**
     * The recursive call of DecomposeNode(node) on its child c, made once the
     * node's children hold its sub-bands and children 0 to c - 1 have been
     * decomposed. n0 holds the nodes before DecomposeNode(node) began.
     */
    method DecomposeChild(node: nat, c: nat, ghost first: nat, ghost n0: seq<seq<real>>)
      requires Valid() && node < |tree.nodes| && !tree.IsLeaf(node) && c < 4 && first == tree.GetFirstLeaf()
      requires SameExceptBelow(4, node, n0, tree.nodes) && Stationary.DecomposeReady(wavelet, paddingMode, |n0[node]|)
      requires SubbandsStored(Stationary, wavelet, paddingMode, tree.nodes, node)
      requires ChildrenDecomposed(Stationary, wavelet, paddingMode, tree.nodes, first, node, c)
      modifies tree
      ensures Valid() && tree.marks == old(tree.marks)
      ensures SameExceptBelow(4, node, n0, tree.nodes) && SubbandsStored(Stationary, wavelet, paddingMode, tree.nodes, node)
      ensures ChildrenDecomposed(Stationary, wavelet, paddingMode, tree.nodes, first, node, c + 1)
      decreases Geom(4, tree.height) - node, 0
    {
      var child := tree.GetChild(node, c);
      ghost var a := tree.nodes;
      assert a[node] == n0[node];
      StoredChildReady(Stationary, wavelet, paddingMode, a, node, c);
      DecomposeNode(child);
      ChildStep(Stationary, wavelet, paddingMode, n0, a, tree.nodes, first, node, c);
    }

    /**
     * ReconstructNode(node), when leaf is the only marked node below node:
     * reconstructs the four children first, then the node itself from its
     * marked child, if any (ReconstructFromMarkedChild).
     */
    method ReconstructNode(node: nat, ghost leaf: nat)
      requires Valid() && node < |tree.nodes| && tree.IsLeaf(leaf)
      requires ReadyBelow(Stationary, wavelet, tree.nodes, tree.marks, node, leaf)
      modifies tree
      ensures Valid()
      ensures PathReconstructed(Stationary, wavelet, paddingMode, old(tree.nodes), old(tree.marks), tree.nodes, tree.marks, node, leaf)
      decreases Geom(4, tree.height) - node, 1
    {
      if tree.IsLeaf(node) {
        LeafReconstructed(Stationary, wavelet, paddingMode, tree.nodes, tree.marks, tree.GetFirstLeaf(), node, leaf);
        return;
      }

      ghost var n0, m0 := tree.nodes, tree.marks;
      ReconstructChild(node, leaf, ChildIndexNorthWest, n0, m0);
      ReconstructChild(node, leaf, ChildIndexNorthEast, n0, m0);
      ReconstructChild(node, leaf, ChildIndexSouthWest, n0, m0);
      ReconstructChild(node, leaf, ChildIndexSouthEast, n0, m0);
      ReconstructFromMarkedChild(node, leaf, n0, m0);
    }

    /**
     * The recursive call of ReconstructNode(node) on its child c, made after
     * children 0 to c - 1 have been reconstructed. n0 and m0 are the nodes
     * and marks before the children were visited.
     */
    method ReconstructChild(node: nat, ghost leaf: nat, c: nat, ghost n0: seq<seq<real>>, ghost m0: seq<bool>)
      requires Valid() && node < |tree.nodes| && !tree.IsLeaf(node) && tree.IsLeaf(leaf) && c < 4
      requires |n0| == |m0| == |tree.nodes| && ReadyBelow(Stationary, wavelet, n0, m0, node, leaf)
      requires ChildrenReconstructed(Stationary, wavelet, paddingMode, n0, m0, tree.nodes, tree.marks, node, leaf, c)
      modifies tree
      ensures Valid() && |tree.nodes| == |n0|
      ensures ChildrenReconstructed(Stationary, wavelet, paddingMode, n0, m0, tree.nodes, tree.marks, node, leaf, c + 1)
      decreases Geom(4, tree.height) - node, 0
    {
      var child := tree.GetChild(node, c);
      ghost var n, m := tree.nodes, tree.marks;
      ChildReady(Stationary, wavelet, paddingMode, n0, m0, n, m, node, leaf, c);
      ReconstructNode(child, leaf);
      ChildDone(Stationary, wavelet, paddingMode, n0, m0, n, m, tree.nodes, tree.marks, node, leaf, c);
    }

    /**
     * The second half of ReconstructNode(node), once the four children have
     * been reconstructed: if one of them is marked (never two), marks the
     * node and replaces its signal, keeping its length, by the reconstruction
     * from that child -- Even mode for the west children, Odd for the east
     * ones, lowpass for the north children, highpass for the south ones.
     * n0 and m0 are the nodes and marks before the children were visited.
     */
    method ReconstructFromMarkedChild(node: nat, ghost leaf: nat, ghost n0: seq<seq<real>>, ghost m0: seq<bool>)
      requires Valid() && node < |tree.nodes| && !tree.IsLeaf(node) && tree.IsLeaf(leaf) && |n0| == |m0| == |tree.nodes|
      requires ReadyBelow(Stationary, wavelet, n0, m0, node, leaf)
      requires ChildrenReconstructed(Stationary, wavelet, paddingMode, n0, m0, tree.nodes, tree.marks, node, leaf, 4)
      modifies tree
      ensures Valid()
      ensures PathReconstructed(Stationary, wavelet, paddingMode, n0, m0, tree.nodes, tree.marks, node, leaf)
    {
      var nwChild := tree.GetChild(node, ChildIndexNorthWest);
      var neChild := tree.GetChild(node, ChildIndexNorthEast);
      var swChild := tree.GetChild(node, ChildIndexSouthWest);
      var seChild := tree.GetChild(node, ChildIndexSouthEast);
      ghost var n4, m4 := tree.nodes, tree.marks;
      MarkedChild(Stationary, wavelet, paddingMode, n0, m0, n4, m4, node, leaf, 0);
      MarkedChild(Stationary, wavelet, paddingMode, n0, m0, n4, m4, node, leaf, 1);
      MarkedChild(Stationary, wavelet, paddingMode, n0, m0, n4, m4, node, leaf, 2);
      MarkedChild(Stationary, wavelet, paddingMode, n0, m0, n4, m4, node, leaf, 3);

      var dyadMode := Even;
      var marked := false;
      var childSignal: seq<real> := [];
      var filter: seq<real> := [];
      ghost var branch := 0;
      if tree.IsMarked(nwChild) {
        assert !tree.IsMarked(swChild) && !tree.IsMarked(neChild) && !tree.IsMarked(seChild);
        dyadMode := Even;
        marked := true;
        childSignal := tree.GetNodeData(nwChild);
        filter := wavelet.lowpassReconstruction;
        branch := ChildIndexNorthWest;
      } else if tree.IsMarked(swChild) {
        assert !tree.IsMarked(nwChild) && !tree.IsMarked(neChild) && !tree.IsMarked(seChild);
        dyadMode := Even;
        marked := true;
        childSignal := tree.GetNodeData(swChild);
        filter := wavelet.highpassReconstruction;
        branch := ChildIndexSouthWest;
      } else if tree.IsMarked(neChild) {
        assert !tree.IsMarked(swChild) && !tree.IsMarked(nwChild) && !tree.IsMarked(seChild);
        dyadMode := Odd;
        marked := true;
        childSignal := tree.GetNodeData(neChild);
        filter := wavelet.lowpassReconstruction;
        branch := ChildIndexNorthEast;
      } else if tree.IsMarked(seChild) {
        assert !tree.IsMarked(swChild) && !tree.IsMarked(neChild) && !tree.IsMarked(nwChild);
        dyadMode := Odd;
        marked := true;
        childSignal := tree.GetNodeData(seChild);
        filter := wavelet.highpassReconstruction;
        branch := ChildIndexSouthEast;
      } else {
        assert !InSubtree(4, node, leaf);
      }

      if marked {
        assert branch == Branch(4, node, leaf) && childSignal == n4[Child(4, node, branch)];
        assert filter == Filter(Stationary, wavelet, branch) && dyadMode == Stationary.ChildMode(branch);
        NodeStep(Stationary, wavelet, paddingMode, n0, m0, n4, m4, node, leaf);
        tree.SetMark(node);
        var data := WaveletMath.Reconstruct(childSignal, filter, wavelet, |tree.GetNodeData(node)|, dyadMode, paddingMode);
        tree.SetNodeData(node, data);
      }
    }

    /**
     * ReconstructAccumulate(leaf_node, accumulated_signal): marks only the
     * leaf, reconstructs from the root and adds the root's new signal to the
     * accumulator, whose length must be the root's.
     */
    method ReconstructAccumulate(leafNode: nat, accumulated: array<real>)
      requires Valid() && tree.IsLeaf(leafNode)
      requires accumulated.Length == |tree.nodes[0]|
      requires PathFits(Stationary, wavelet, tree.nodes, leafNode, 0)
      modifies tree, accumulated
      ensures Valid()
      ensures forall i :: 0 <= i < |tree.marks| ==> tree.marks[i] == InSubtree(4, i, leafNode)
      ensures PathRebuilt(Stationary, wavelet, paddingMode, old(tree.nodes), tree.nodes, 0, leafNode)
      ensures accumulated[..] == AddSignals(old(accumulated[..]),
                                            PathSignal(Stationary, wavelet, paddingMode, old(tree.nodes), leafNode, 0))
    {
      ghost var pathSignal := PathSignal(Stationary, wavelet, paddingMode, tree.nodes, leafNode, 0);
      tree.Unmark();
      tree.SetMark(leafNode);
      ReconstructNode(0, leafNode);
      RootSubtree(4, leafNode);
      RootSubtree(4, 0);
      forall i | 0 <= i < |tree.marks|
        ensures tree.marks[i] == InSubtree(4, i, leafNode)
      {
        RootSubtree(4, i);
      }
      assert RootSignal(tree) == pathSignal by {
        assert InSubtree(4, 0, 0);
      }
      assert |RootSignal(tree)| == accumulated.Length;

      AddInto(accumulated, RootSignal(tree));
    }

    /**
     * The state of Reconstruct's loop after the first done leaves of level:
     * the leaves and the node lengths are those of n0, the path from every
     * leaf of the level fits, and accumulated holds the sum of the root
     * signals that the first done leaves give.
     */
    ghost predicate Accumulating(accumulated: array<real>, n0: seq<seq<real>>, first: nat, level: nat, h: nat, done: nat)
      reads this, tree, accumulated
    {
      Valid() && tree.height == h + 1 && first == tree.GetFirstLeaf() && 0 < |tree.nodes| == |n0| &&
      level < Pow(2, h) && done <= Pow(2, h) &&
      (forall x :: 0 <= x < |n0| ==> |tree.nodes[x]| == |n0[x]|) &&
      (forall x :: first <= x < |n0| ==> tree.nodes[x] == n0[x]) &&
      LevelFits(wavelet, n0, first, level, Pow(2, h)) && LevelFits(wavelet, n0, first, level, done) &&
      accumulated.Length == |n0[0]| && accumulated[..] == LevelSum(wavelet, paddingMode, n0, first, level, done)
    }

    /**
     * One ReconstructAccumulate call of Reconstruct's loop, for leaf j of the
     * level: the accumulator advances from the sum over the level's first j
     * leaves to the sum over its first j + 1, and the leaves and node lengths
     * stay those of the tree the loop started from.
     */
    method ReconstructLevelLeaf(level: nat, ghost j: nat, leafNode: nat, accumulated: array<real>,
                                ghost n0: seq<seq<real>>, ghost first: nat, ghost h: nat)
      returns (ghost after: nat)
      requires Accumulating(accumulated, n0, first, level, h, j) && j < Pow(2, h) && leafNode == LevelLeaf(first, level, j)
      modifies tree, accumulated
      ensures after == j + 1 && Accumulating(accumulated, n0, first, level, h, after)
    {
      ghost var cur := tree.nodes;
      assert |cur| == 4 * first + 1 by {
        assert tree.k == 4;
      }
      LeafReady(wavelet, paddingMode, n0, cur, first, level, j, Pow(2, h), h);
      ReconstructAccumulate(leafNode, accumulated);
      RebuiltKeepsLeavesAndLengths(Stationary, wavelet, paddingMode, cur, tree.nodes, first, leafNode);
      after := j + 1;
      LevelSumNext(wavelet, paddingMode, n0, first, level, j, after, Pow(2, h));
    }

    /**
     * One iteration of Reconstruct's loop: the offset of the i-th pair of
     * leaves of the level is computed from the starting leaf, and both leaves
     * of the pair are reconstructed and accumulated in turn.
     */
    method ReconstructLevelPair(level: nat, i: nat, startingLeaf: nat, accumulated: array<real>,
                                firstLeafIndex: nat, ghost n0: seq<seq<real>>, ghost done: nat, ghost h: nat)
      returns (ghost next: nat)
      requires Accumulating(accumulated, n0, firstLeafIndex, level, h, done)
      requires done == 2 * i && done + 1 < Pow(2, h) && startingLeaf == LeafOffset(level, 0)
      modifies tree, accumulated
      ensures next == done + 2 && Accumulating(accumulated, n0, firstLeafIndex, level, h, next)
    {
      var currentLeaf := ComputeLeafOffset(startingLeaf, i);
      PairLeaf(firstLeafIndex, level, i, currentLeaf, done, done);
      var middle := ReconstructLevelLeaf(level, done, firstLeafIndex + currentLeaf, accumulated, n0, firstLeafIndex, h);
      PairLeaf(firstLeafIndex, level, i, currentLeaf, done, middle);
      next := ReconstructLevelLeaf(level, middle, firstLeafIndex + currentLeaf + 1, accumulated, n0, firstLeafIndex, h);
    }

    /** The end of Reconstruct: divides the accumulated sum by count and makes the average the root signal. */
    method StoreAverage(accumulated: array<real>, count: nat)
      requires Valid() && count > 0
      modifies tree, accumulated
      ensures Valid()
      ensures tree.nodes == old(tree.nodes)[0 := Averaged(old(accumulated[..]), count)] && tree.marks == old(tree.marks)
    {
      DivideAll(accumulated, count);
      SetRootSignal(tree, accumulated[..]);
    }

    /**
     * Reconstruct(level): nothing for a tree of height 1. Otherwise, for
     * each of the 2^(height-1) leaves of the level (two per iteration), the
     * path from the leaf is rebuilt and the root signal it gives is
     * accumulated; the root then receives the average. The leaves and the
     * length of every node are unchanged.
     */
    method Reconstruct(level: nat)
      requires Valid()
      requires tree.height > 1 ==>
        level < WaveletLevelCount(tree) &&
        LevelFits(wavelet, tree.nodes, tree.GetFirstLeaf(), level, WaveletLevelCount(tree))
      modifies tree
      ensures Valid() && |tree.nodes| == |old(tree.nodes)|
      ensures tree.height == 1 ==> tree.nodes == old(tree.nodes) && tree.marks == old(tree.marks)
      ensures tree.height > 1 ==>
        RootSignal(tree) == Averaged(LevelSum(wavelet, paddingMode, old(tree.nodes), tree.GetFirstLeaf(), level,
                                              WaveletLevelCount(tree)), WaveletLevelCount(tree))
      ensures forall i :: 0 <= i < |tree.nodes| ==> |tree.nodes[i]| == |old(tree.nodes)[i]|
      ensures forall i :: tree.GetFirstLeaf() <= i < |tree.nodes| ==> tree.nodes[i] == old(tree.nodes)[i]
    {
      if tree.height == 1 {
        return;
      }

      var leafCount := tree.GetLeafCount();
      var levelCount := WaveletLevelCount(tree);
      var firstLeafIndex := tree.GetFirstLeaf();
      ghost var n0 := tree.nodes;
      ghost var h: nat := tree.height - 1;

      var reconstructed := new real[|RootSignal(tree)|](_ => 0.0);
      assert reconstructed[..] == LevelSum(wavelet, paddingMode, n0, firstLeafIndex, level, 0);

      assert levelCount == Pow(2, h) == 2 * Pow(2, h - 1);
      assert levelCount / 2 == Pow(2, h - 1);
      var startingLeaf := ComputeStartingLeaf(level, leafCount, h);

      var i := 0;
      ghost var done := 0;
      while i < levelCount / 2
        invariant 0 <= i <= levelCount / 2 && done == 2 * i
        invariant Accumulating(reconstructed, n0, firstLeafIndex, level, h, done)
      {
        done := ReconstructLevelPair(level, i, startingLeaf, reconstructed, firstLeafIndex, n0, done, h);
        i := i + 1;
      }
      assert levelCount == done;
      StoreAverage(reconstructed, levelCount);
      GeomStep(4, h - 1);
      PowPositive(4, h - 1);
    }
  }
}
