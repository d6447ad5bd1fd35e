/**
 * The binary wavelet packet tree of src/WaveletPacketTree.cc. Decompose
 * splits every internal node's signal into an approximation (child 0) and a
 * detail (child 1) with the tree's fixed dyadic and padding modes;
 * Reconstruct marks one leaf and rebuilds the signals on the path from that
 * leaf up to the root.
 */
module BinaryPacketTree {
  import opened IndexedTree
  import opened WaveletMath
  import opened PacketTreeBase

  const ChildIndexLeft: nat := 0
  const ChildIndexRight: nat := 1

  class WaveletPacketTree {
    const tree: Tree
    const wavelet: Wavelet
    const dyadicMode: DyadicMode
    const paddingMode: PaddingMode

    /** The branching this tree follows: two children, one dyadic mode for both. */
    function Shape(): Layout
    {
      Binary(dyadicMode)
    }

    ghost predicate Valid()
      reads this, tree
    {
      tree.Valid() && tree.k == 2
    }

    /** WaveletPacketTree(height, wavelet, dyadic_mode, padding_mode): a fresh tree of empty, unmarked nodes. */
    constructor (height: nat, wavelet: Wavelet, dyadicMode: DyadicMode, paddingMode: PaddingMode)
      requires height >= 1
      ensures Valid() && fresh(tree) && tree.height == height
      ensures this.wavelet == wavelet && this.dyadicMode == dyadicMode && this.paddingMode == paddingMode
      ensures forall i :: 0 <= i < |tree.nodes| ==> tree.nodes[i] == [] && !tree.marks[i]
    {
      tree := new Tree(2, height);
      this.wavelet := wavelet;
      this.dyadicMode := dyadicMode;
      this.paddingMode := paddingMode;
    }

    /** Decompose(): decomposes the whole tree from the root; the root itself and the marks are unchanged. */
    method Decompose()
      requires Valid()
      requires !tree.IsLeaf(0) ==> Shape().DecomposeReady(wavelet, paddingMode, |tree.nodes[0]|)
      modifies tree
      ensures Valid()
      ensures |tree.nodes| == |old(tree.nodes)| && tree.nodes[0] == old(tree.nodes[0]) && tree.marks == old(tree.marks)
      ensures DecomposedBelow(Shape(), wavelet, paddingMode, tree.nodes, tree.GetFirstLeaf(), 0)
    {
      DecomposeNode(0);
      assert !StrictlyBelow(2, 0, 0);
    }

    /**
     * DecomposeNode(node): nothing on a leaf; otherwise the node's children
     * receive its approximation and detail coefficients and are decomposed in
     * turn. Only proper descendants of the node change.
     */
    method DecomposeNode(node: nat)
      requires Valid() && node < |tree.nodes|
      requires !tree.IsLeaf(node) ==> Shape().DecomposeReady(wavelet, paddingMode, |tree.nodes[node]|)
      modifies tree
      ensures Valid()
      ensures SameExceptBelow(2, node, old(tree.nodes), tree.nodes) && tree.marks == old(tree.marks)
      ensures DecomposedBelow(Shape(), wavelet, paddingMode, tree.nodes, tree.GetFirstLeaf(), node)
      decreases Geom(2, tree.height) - node, 1
    {
      ghost var first := tree.GetFirstLeaf();
      if tree.IsLeaf(node) {
        LeafDecomposed(Shape(), wavelet, paddingMode, tree.nodes, first, node);
        return;
      }

      var left := tree.GetChild(node, ChildIndexLeft);
      var right := tree.GetChild(node, ChildIndexRight);
      ghost var n0 := tree.nodes;

      var approx, detail := WaveletMath.Decompose(tree.GetNodeData(node), wavelet, dyadicMode, paddingMode);
      tree.SetNodeData(left, approx);
      tree.SetNodeData(right, detail);
      ChildInSubtree(2, node, 0);
      ChildInSubtree(2, node, 1);
      assert SameExceptBelow(2, node, n0, tree.nodes);
      assert SubbandsStored(Shape(), wavelet, paddingMode, tree.nodes, node);

      DecomposeChild(node, ChildIndexLeft, first, n0);
      DecomposeChild(node, ChildIndexRight, first, n0);
      NodeDecomposed(Shape(), wavelet, paddingMode, tree.nodes, first, node);
    }

    /**
     * The recursive call of DecomposeNode(node) on its child c, made once the
     * node's children hold its sub-bands and children 0 to c - 1 have been
     * decomposed. n0 holds the nodes before DecomposeNode(node) began.
     */
    method DecomposeChild(node: nat, c: nat, ghost first: nat, ghost n0: seq<seq<real>>)
      requires Valid() && node < |tree.nodes| && !tree.IsLeaf(node) && c < 2 && first == tree.GetFirstLeaf()
      requires SameExceptBelow(2, node, n0, tree.nodes) && Shape().DecomposeReady(wavelet, paddingMode, |n0[node]|)
      requires SubbandsStored(Shape(), wavelet, paddingMode, tree.nodes, node)
      requires ChildrenDecomposed(Shape(), wavelet, paddingMode, tree.nodes, first, node, c)
      modifies tree
      ensures Valid() && tree.marks == old(tree.marks)
      ensures SameExceptBelow(2, node, n0, tree.nodes) && SubbandsStored(Shape(), wavelet, paddingMode, tree.nodes, node)
      ensures ChildrenDecomposed(Shape(), wavelet, paddingMode, tree.nodes, first, node, c + 1)
      decreases Geom(2, tree.height) - node, 0
    {
      var child := tree.GetChild(node, c);
      ghost var a := tree.nodes;
      assert a[node] == n0[node];
      StoredChildReady(Shape(), wavelet, paddingMode, a, node, c);
      DecomposeNode(child);
      ChildStep(Shape(), wavelet, paddingMode, n0, a, tree.nodes, first, node, c);
    }

    /** The node index of the leaf of level, GetFirstLeaf() + level, written without reference to the nodes. */
    function LeafOfLevel(level: nat): nat
      requires tree.height >= 1
    {
      Geom(tree.k, tree.height - 1) + level
    }

    /**
     * Reconstruct(level): clears every mark, marks leaf firstLeaf + level and
     * reconstructs from the root. Afterwards exactly that leaf and its
     * ancestors are marked, each ancestor holds its path signal, and every
     * other node -- the leaves in particular -- is unchanged.
     */
    method Reconstruct(level: nat)
      requires Valid() && level < WaveletLevelCount(tree)
      requires PathFits(Shape(), wavelet, tree.nodes, LeafOfLevel(level), 0)
      modifies tree
      ensures Valid() && |tree.marks| == |tree.nodes| == |old(tree.nodes)|
      ensures LeafOfLevel(level) == tree.GetFirstLeaf() + level
      ensures forall i :: 0 <= i < |tree.marks| ==> tree.marks[i] == InSubtree(2, i, LeafOfLevel(level))
      ensures PathRebuilt(Shape(), wavelet, paddingMode, old(tree.nodes), tree.nodes, 0, LeafOfLevel(level))
      ensures tree.height == 1 ==> tree.nodes == old(tree.nodes)
    {
      tree.Unmark();
      IsolateLevel(level);
      ghost var n1, m1 := tree.nodes, tree.marks;
      ReconstructNode(0, LeafOfLevel(level));
      RootReconstructed(Shape(), 2, wavelet, paddingMode, n1, m1, tree.nodes, tree.marks, LeafOfLevel(level));
    }

    /** IsolateLevel(level): marks the leaf of the level; in a binary tree there is one leaf per level. */
    method IsolateLevel(level: nat)
      requires Valid() && level < WaveletLevelCount(tree)
      modifies tree
      ensures Valid()
      ensures tree.IsLeaf(tree.GetFirstLeaf() + level)
      ensures tree.marks == old(tree.marks)[tree.GetFirstLeaf() + level := true] && tree.nodes == old(tree.nodes)
    {
      tree.SetMark(tree.GetFirstLeaf() + level);
    }

    /**
     * ReconstructNode(node), when leaf is the only marked node below node:
     * reconstructs the children first, then the node itself from its marked
     * child, if any (ReconstructFromMarkedChild).
     */
    method ReconstructNode(node: nat, ghost leaf: nat)
      requires Valid() && node < |tree.nodes| && tree.IsLeaf(leaf)
      requires ReadyBelow(Shape(), wavelet, tree.nodes, tree.marks, node, leaf)
      modifies tree
      ensures Valid()
      ensures PathReconstructed(Shape(), wavelet, paddingMode, old(tree.nodes), old(tree.marks), tree.nodes, tree.marks, node, leaf)
      decreases Geom(2, tree.height) - node, 1
    {
      if tree.IsLeaf(node) {
        LeafReconstructed(Shape(), wavelet, paddingMode, tree.nodes, tree.marks, tree.GetFirstLeaf(), node, leaf);
        return;
      }

      ghost var n0, m0 := tree.nodes, tree.marks;
      ReconstructChild(node, leaf, ChildIndexLeft, n0, m0);
      ReconstructChild(node, leaf, ChildIndexRight, n0, m0);
      ReconstructFromMarkedChild(node, leaf, n0, m0);
    }

    /**
     * The recursive call of ReconstructNode(node) on its child c, made after
     * children 0 to c - 1 have been reconstructed. n0 and m0 are the nodes
     * and marks before the children were visited.
     */
    method ReconstructChild(node: nat, ghost leaf: nat, c: nat, ghost n0: seq<seq<real>>, ghost m0: seq<bool>)
      requires Valid() && node < |tree.nodes| && !tree.IsLeaf(node) && tree.IsLeaf(leaf) && c < 2
      requires |n0| == |m0| == |tree.nodes| && ReadyBelow(Shape(), wavelet, n0, m0, node, leaf)
      requires ChildrenReconstructed(Shape(), wavelet, paddingMode, n0, m0, tree.nodes, tree.marks, node, leaf, c)
      modifies tree
      ensures Valid() && |tree.nodes| == |n0|
      ensures ChildrenReconstructed(Shape(), wavelet, paddingMode, n0, m0, tree.nodes, tree.marks, node, leaf, c + 1)
      decreases Geom(2, tree.height) - node, 0
    {
      var child := tree.GetChild(node, c);
      ghost var n, m := tree.nodes, tree.marks;
      ChildReady(Shape(), wavelet, paddingMode, n0, m0, n, m, node, leaf, c);
      ReconstructNode(child, leaf);
      ChildDone(Shape(), wavelet, paddingMode, n0, m0, n, m, tree.nodes, tree.marks, node, leaf, c);
    }

    /**
     * The second half of ReconstructNode(node), once both children have been
     * reconstructed: if one of them is marked (never both), marks the node
     * and replaces its signal, keeping its length, by the reconstruction from
     * that child -- lowpass for the left child, highpass for the right one.
     * n0 and m0 are the nodes and marks before the children were visited.
     */
    method ReconstructFromMarkedChild(node: nat, ghost leaf: nat, ghost n0: seq<seq<real>>, ghost m0: seq<bool>)
      requires Valid() && node < |tree.nodes| && !tree.IsLeaf(node) && tree.IsLeaf(leaf) && |n0| == |m0| == |tree.nodes|
      requires ReadyBelow(Shape(), wavelet, n0, m0, node, leaf)
      requires ChildrenReconstructed(Shape(), wavelet, paddingMode, n0, m0, tree.nodes, tree.marks, node, leaf, 2)
      modifies tree
      ensures Valid()
      ensures PathReconstructed(Shape(), wavelet, paddingMode, n0, m0, tree.nodes, tree.marks, node, leaf)
    {
      var left := tree.GetChild(node, ChildIndexLeft);
      var right := tree.GetChild(node, ChildIndexRight);
      ghost var n2, m2 := tree.nodes, tree.marks;
      MarkedChild(Shape(), wavelet, paddingMode, n0, m0, n2, m2, node, leaf, 0);
      MarkedChild(Shape(), wavelet, paddingMode, n0, m0, n2, m2, node, leaf, 1);

      var marked := false;
      var childSignal: seq<real> := [];
      var filter: seq<real> := [];
      if tree.IsMarked(left) {
        assert !tree.IsMarked(right);
        marked := true;
        childSignal := tree.GetNodeData(left);
        filter := wavelet.lowpassReconstruction;
      } else if tree.IsMarked(right) {
        assert !tree.IsMarked(left);
        marked := true;
        childSignal := tree.GetNodeData(right);
        filter := wavelet.highpassReconstruction;
      }

      if marked {
        NodeStep(Shape(), wavelet, paddingMode, n0, m0, n2, m2, node, leaf);
        tree.SetMark(node);
        var data := WaveletMath.Reconstruct(childSignal, filter, wavelet, |tree.GetNodeData(node)|, dyadicMode, paddingMode);
        tree.SetNodeData(node, data);
      }
    }
  }
}
