# panwave wavelet packet trees, modelled in Dafny

panwave decomposes a signal into a wavelet packet tree and rebuilds it one
wavelet level at a time. This project models the core of that engine and
proves its structural properties:

- **`WaveletMath`** (`wavelet_math.dfy`): the numeric primitives.
  - `Pad` supports zero and symmetric padding.
  - `Convolve` is full-overlap convolution.
  - `DyadicDownsample` and `DyadicUpsample` sample in `Even` and `Odd` modes.
  - `Decompose` and `Reconstruct` perform one decomposition or reconstruction step.
  - Each primitive is a loop-based method proved equal to a specification function.
- **`IndexedTree`** (`indexed_tree.dfy`): the implicit k-ary tree stored in one flat sequence.
  - Pure child, parent and leaf arithmetic.
  - A class `Tree` whose node signals and mark bits change in place.
- **`PacketTreeBase`** (`packet_tree_base.dfy`): what both packet trees share.
  - The wavelet level count, and the root signal and its setter.
  - The specifications both trees are proved against:
    - the sub-band each child receives from a decomposition (`DecomposedBelow`);
    - the signal that reconstruction leaves on the path from the one marked leaf up to the root (`PathSignal`, `PathReconstructed`).
- **`BinaryPacketTree`** (`wavelet_packet_tree.dfy`): the binary tree.
  - `Decompose` stores the approximation in child 0 and the detail in child 1.
  - `Reconstruct(level)` marks leaf `firstLeaf + level` and rebuilds the root-to-leaf path.
- **`StationaryLeafIndex`** (`stationary_leaf_index.dfy`): the bit arithmetic that picks a level's leaves in the stationary tree.
  - Offset `2·Spread(level) + Spread(j)`, where `Spread` moves bit s to base-4 digit s.
  - Both loops of the source are proved to compute it.
  - These offsets pair (level, rank) with leaves one to one.
- **`StationaryPacketTree`** (`stationary_wavelet_packet_tree.dfy`): the stationary quad tree.
  - Every node is decomposed in both dyadic modes.
  - `Reconstruct(level)` rebuilds the root from each of the level's `2^(height-1)` leaves and averages the results.

Signal values are exact `real`s and sizes are unbounded `nat`s.

## Model

| member | source | states |
|---|---|---|
| WaveletMath.Padded | src/WaveletMath.cc:22-29 | the padded signal has length `len + padLeft + padRight`, positions `padLeft ..` hold the data, and under `Zeroes` every other position is 0 |
| WaveletMath.Pad | src/WaveletMath.cc:16-59 | the four fill loops (left overflow, left mirror, right overflow, right mirror) produce exactly `Padded` |
| WaveletMath.FillLeftMirror | src/WaveletMath.cc:31-41 | every left padding position p holds `data[padLeft - p]` while that index is in range, else the last sample; nothing to its right changes |
| WaveletMath.FillRightMirror | src/WaveletMath.cc:42-53 | every right padding position mirrors the data around its last sample, falling back to `data[0]`; nothing to its left changes |
| WaveletMath.SymmetricPadMirrors | src/WaveletMath.cc:39-53 | symmetric padding mirrors the data around its first sample on the left and around its last sample on the right, as far as the data reaches |
| WaveletMath.SymmetricPadOverflow | src/WaveletMath.cc:33-47 | beyond the mirror's reach the left padding repeats the last sample and the right padding the first |
| WaveletMath.PadExampleSymmetricSix | test/test.cc:203-207 | `[1..5]` padded 6/6 symmetrically is `[5,5,5,4,3,2,1,2,3,4,5,4,3,2,1,1,1]` |
| WaveletMath.PadExampleSymmetricFive | test/test.cc:208-212 | `[1..5]` padded 5/5 symmetrically is `[5,5,4,3,2,1,2,3,4,5,4,3,2,1,1]` |
| WaveletMath.PadExampleZeroes | test/test.cc:213-217 | `[1..5]` padded 6/6 with zeros is six zeros, the data, six zeros |
| WaveletMath.PadExampleSymmetricThree | src/WaveletMath.cc:31-53 | `[1,2,3]` padded 3/3 symmetrically is `[3,3,2,1,2,3,2,1,1]` |
| WaveletMath.Convolved | src/WaveletMath.cc:67-70 | the convolution of data by coeffs has length `len(data) - len(coeffs) + 1` |
| WaveletMath.Convolve | src/WaveletMath.cc:61-82 | the nested accumulation loop yields `result[i] = Σ_j data[i+j]·coeffs[L-1-j]`, i.e. exactly `Convolved` |
| WaveletMath.ConvolutionSumLinear | src/WaveletMath.cc:75-78 | each partial convolution sum is linear in the signal |
| WaveletMath.ConvolveLinear | src/WaveletMath.cc:72-81 | convolving `x·a + y·b` gives `x·conv(a) + y·conv(b)` element by element |
| WaveletMath.ConvolutionSumImpulse | src/WaveletMath.cc:75-78 | with a filter whose only non-zero tap is a final 1, each partial sum is `data[i]` |
| WaveletMath.ConvolveImpulse | src/WaveletMath.cc:72-81 | that filter makes the convolution the window `data[..len(data)-L+1]` |
| WaveletMath.Downsampled | src/WaveletMath.cc:92-95 | the down-sampled length is `ceil(n/2)` for `Even` and `floor(n/2)` for `Odd` |
| WaveletMath.DyadicDownsample | src/WaveletMath.cc:84-96 | the push_back loop yields `out[k] = data[2k + s]`, s = 0 for `Even`, 1 for `Odd` |
| WaveletMath.Upsampled | src/WaveletMath.cc:105-110 | the up-sampled length is `2n + 1` for `Even` and `2n - 1` for `Odd` |
| WaveletMath.DyadicUpsample | src/WaveletMath.cc:98-116 | the strided loop puts `data[k]` at `2k+1` (`Even`) or `2k` (`Odd`) and 0 everywhere else |
| WaveletMath.DownsampleUndoesUpsample | src/WaveletMath.cc:92-115 | down-sampling with the opposite parity undoes up-sampling, in both modes |
| WaveletMath.DownsampleHalvesPartition | src/WaveletMath.cc:92-95 | the `Even` and `Odd` halves differ in length by at most one and interleave back into the signal |
| WaveletMath.DyadicExamples | test/test.cc:181-191 | the up-sampling cases on one and two samples and all four down-sampling cases of the tests |
| WaveletMath.UpsampleTenEven | test/test.cc:169-171 | `Even` up-sampling of 1..10 gives 21 samples with the data at the odd positions |
| WaveletMath.UpsampleTenOdd | test/test.cc:172-174 | `Odd` up-sampling of 1..10 gives 19 samples with the data at the even positions |
| WaveletMath.UpsampleNineOdd | test/test.cc:175-177 | `Odd` up-sampling of 1..9 gives 17 samples with the data at the even positions |
| WaveletMath.UpsampleNineEven | test/test.cc:178-180 | `Even` up-sampling of 1..9 gives 19 samples with the data at the odd positions |
| WaveletMath.Decomposition | src/WaveletMath.cc:127-141 | approximation and detail both have length `(n+L)/2` for `Even` and `(n+L-1)/2` for `Odd` |
| WaveletMath.Decompose | src/WaveletMath.cc:118-142 | pad by L-1 on each side, convolve with both decomposition filters, down-sample: exactly `Decomposition` |
| WaveletMath.SubbandBounds | src/WaveletMath.cc:140-141 | a sub-band of a non-empty signal is non-empty (L ≥ 2 or `Even`), and twice its length covers the signal |
| WaveletMath.SubbandDecomposable | src/WaveletMath.cc:127-138 | a sub-band satisfies Decompose's requirements again |
| WaveletMath.WideReconstruction | src/WaveletMath.cc:160-163 | the up-sampled, padded, convolved signal has length `2n ± 1 + L - 1` |
| WaveletMath.ReconstructWindowFits | src/WaveletMath.cc:165-168 | the copy window starts at `L - (Even ? 0 : 2) ≥ 0` and fits in the convolution iff `data_size ≤ 2·len(coeffs)` |
| WaveletMath.Reconstruction | src/WaveletMath.cc:165-168 | the output has exactly `data_size` samples, sample t being sample `start + t` of the wide convolution |
| WaveletMath.Reconstruct | src/WaveletMath.cc:144-169 | up-sample, pad, convolve and copy the window: exactly `Reconstruction` |
| WaveletMath.ReconstructionParts | src/WaveletMath.cc:165-168 | the window taken from the convolution result is in bounds and is `Reconstruction` |
| IndexedTree.NodeCountFormula | src/Tree.h:42-43 | `(k·k^(h-1) - 1)/(k - 1)` is exactly `1 + k + … + k^(h-1)`, the internal nodes plus the leaves |
| IndexedTree.ParentBelow | src/Tree.h:96-101 | GetParent's result is below its argument |
| IndexedTree.ParentOfChild | src/Tree.h:85-101 | a child's index is above its parent's and GetParent undoes GetChild |
| IndexedTree.ChildOfParent | src/Tree.h:96-101 | every non-root node is child `(x-1) % k` of its parent |
| IndexedTree.RootSubtree | src/Tree.h:26-29 | every node lies below the root |
| IndexedTree.SiblingsDisjoint | src/Tree.h:85-90 | the subtrees of two distinct children of one node never overlap |
| IndexedTree.BranchUnique | src/Tree.h:85-90 | a node strictly below p lies below exactly one child of p |
| IndexedTree.InternalChildInRange | src/Tree.h:85-90 | children of internal nodes have indices at most `k·firstLeaf`, the last node |
| IndexedTree.LeafChildOutOfRange | src/Tree.h:60-90 | "children" of leaves lie past the last node |
| IndexedTree.LeafSubtree | src/Tree.h:60-75 | within the tree, a leaf's subtree is the leaf alone |
| IndexedTree.Tree.constructor | src/Tree.h:39-47 | `leafCount = k^(height-1)`, `(k·leafCount-1)/(k-1)` empty nodes and as many false marks; height 1 gives one node |
| IndexedTree.Tree.GetLeafCount | src/Tree.h:55 | the leaf count is `k^(height-1)`, and the leaves are the last that many nodes |
| IndexedTree.Tree.IsLeaf | src/Tree.h:73-75 | a node is a leaf iff it is in range and its first child falls outside the tree; then every child does; for height 1 only the root is a leaf |
| IndexedTree.Tree.GetFirstLeaf | src/Tree.h:60-62 | the first leaf is the number of internal nodes, 0 for height 1 |
| IndexedTree.Tree.GetLastLeaf | src/Tree.h:67 | the last leaf is the last node, the last child of the last internal node |
| IndexedTree.Tree.GetChild | src/Tree.h:85-90 | the child's parent is the node; it is in range iff the node is not a leaf |
| IndexedTree.Tree.GetParent | src/Tree.h:96-101 | the parent is a smaller, internal node and has the node as its child `(x-1) % k` |
| IndexedTree.Tree.SetNodeData | src/Tree.h:103-107 | a write through the node reference changes that node's signal only, and `GetNodeData` then reads back the written signal |
| IndexedTree.Tree.SetMark | src/Tree.h:113-127 | mark `node` becomes true and nothing else changes, so `IsMarked(node)` holds afterwards |
| IndexedTree.Tree.Unmark | src/Tree.h:132 | every mark is false, the number of marks is kept, the signals are untouched |
| PacketTreeBase.WaveletLevelCount | src/WaveletPacketTreeTemplateBase.h:40-42 | the level count is `2^(height-1) ≥ 1`, and equals the leaf count when k = 2 |
| PacketTreeBase.LevelCountSquared | src/WaveletPacketTreeTemplateBase.h:40-42 | when k = 4 the leaf count is the square of the level count |
| PacketTreeBase.SetRootSignal | src/WaveletPacketTreeBase.h:60-67 | node 0 receives the signal and nothing else changes |
| PacketTreeBase.RootSignal | src/WaveletPacketTreeTemplateBase.h:36-38 | the root signal is the signal of node 0, the root |
| PacketTreeBase.SetRootSignalAsWritten | src/WaveletPacketTreeTemplateBase.h:29-34 | as written, the signal lands in a local copy of node 0, and the tree's root signal is unchanged |
| PacketTreeBase.SetRootSignalIsLost | src/WaveletPacketTreeTemplateBase.h:29-34 | as written, setting the root of a fresh tree to `[1.0]` leaves it `[]` |
| PacketTreeBase.StoredChildReady | src/WaveletPacketTree.cc:59-65 | a child holding its parent's sub-band can be decomposed in turn |
| PacketTreeBase.ChildStep | src/WaveletPacketTree.cc:64-65 | one recursive DecomposeNode call on a child keeps the earlier children decomposed, the node's sub-bands stored, and changes only nodes below the node |
| PacketTreeBase.NodeDecomposed | src/WaveletPacketTree.cc:51-66 | a node whose children hold its sub-bands and whose child subtrees are decomposed has a decomposed subtree |
| PacketTreeBase.LeafDecomposed | src/WaveletPacketTree.cc:52-54 | below a leaf nothing needs decomposing |
| PacketTreeBase.DecomposedNonEmpty | src/WaveletMath.cc:140-141 | in a decomposed tree with a non-empty root, every node's signal is non-empty |
| PacketTreeBase.PathSignal | src/WaveletPacketTree.cc:96-99 | the signal reconstruction leaves at a node on the path has the node's current length |
| PacketTreeBase.PathStep | src/WaveletPacketTree.cc:82-99 | a node's path signal is the reconstruction of its path child's signal with that child's filter and mode |
| PacketTreeBase.PathDependsOnLengths | src/StationaryWaveletPacketTree.cc:113-116 | the path signal depends only on the leaf's signal and the lengths along the path, not on inner contents |
| PacketTreeBase.ChildReady | src/WaveletPacketTree.cc:76-77 | before each recursive call the child's subtree holds only the one marked leaf and its path fits |
| PacketTreeBase.ChildDone | src/WaveletPacketTree.cc:76-77 | after the call on child j, the children 0..j are accounted for |
| PacketTreeBase.MarkedChild | src/WaveletPacketTree.cc:82-90 | after the recursive calls a child is marked iff the marked leaf lies below it, so never two children |
| PacketTreeBase.NodeStep | src/WaveletPacketTree.cc:92-100 | marking the node and storing the reconstruction from the marked child completes the path below the node |
| PacketTreeBase.RootReconstructed | src/WaveletPacketTree.cc:32-41 | from the root, exactly the leaf and its ancestors end marked, the path is rebuilt and everything else is unchanged; nothing changes when the leaf is the root |
| PacketTreeBase.LeafReconstructed | src/WaveletPacketTree.cc:69-71 | ReconstructNode on a leaf changes nothing |
| PacketTreeBase.RebuiltKeepsLeavesAndLengths | src/WaveletPacketTree.cc:92-100 | after a pass from the root no leaf has changed and every node keeps its length |
| PacketTreeBase.ReconstructAgain | test/test.cc:72-77 | reconstructing level after level from one decomposition: each pass keeps the decomposed leaves and node lengths, so every later leaf's path still fits and gives the root signal it gives in the decomposed tree |
| PacketTreeBase.DecomposedPathFits | src/WaveletMath.cc:165-168 | after Decompose with L > 2 and a non-empty root, every root-to-leaf path satisfies Reconstruct's window requirement |
| BinaryPacketTree.WaveletPacketTree.constructor | src/WaveletPacketTree.cc:23-28 | a binary tree of the given height with empty, unmarked nodes and the given wavelet and modes |
| BinaryPacketTree.WaveletPacketTree.Decompose | src/WaveletPacketTree.cc:30 | the whole tree is decomposed, the root and the marks are unchanged |
| BinaryPacketTree.WaveletPacketTree.DecomposeNode | src/WaveletPacketTree.cc:51-66 | every internal node below the node holds its parent's approximation (child 0) or detail (child 1); only proper descendants change |
| BinaryPacketTree.WaveletPacketTree.DecomposeChild | src/WaveletPacketTree.cc:64-65 | one recursive call decomposes one more child's subtree and keeps the node's children holding its sub-bands |
| BinaryPacketTree.WaveletPacketTree.Reconstruct | src/WaveletPacketTree.cc:32-41 | the marked nodes are exactly leaf `firstLeaf + level` and its ancestors, those ancestors hold their path signals, every other node is unchanged, and height 1 changes nothing |
| BinaryPacketTree.WaveletPacketTree.IsolateLevel | src/WaveletPacketTree.cc:43-49 | leaf `firstLeaf + level` is a leaf and its mark alone is set |
| BinaryPacketTree.WaveletPacketTree.ReconstructNode | src/WaveletPacketTree.cc:68-101 | with one marked leaf below, only the node's subtree changes, the path to the leaf ends marked and holds its path signals |
| BinaryPacketTree.WaveletPacketTree.ReconstructChild | src/WaveletPacketTree.cc:76-77 | one recursive call reconstructs one more child's subtree |
| BinaryPacketTree.WaveletPacketTree.ReconstructFromMarkedChild | src/WaveletPacketTree.cc:79-100 | left child marked: lowpass; right child marked: highpass; the node is marked and rebuilt to its own length; with no marked child nothing changes |
| StationaryLeafIndex.SpreadBound | src/StationaryWaveletPacketTree.cc:170-185 | spreading a number below `2^m` gives less than `4^m / 3` |
| StationaryLeafIndex.LeafOffsetBound | src/StationaryWaveletPacketTree.cc:190-193 | every leaf offset of a level and rank below `2^h` is below `4^h`, the leaf count |
| StationaryLeafIndex.LeafOffsetInverse | src/StationaryWaveletPacketTree.cc:154-185 | the level and the rank can be read back from the offset |
| StationaryLeafIndex.LeafOffsetOnto | src/StationaryWaveletPacketTree.cc:154-185 | every offset is the offset of the level and rank read back from it |
| StationaryLeafIndex.ReadBackBound | src/StationaryWaveletPacketTree.cc:154-185 | reading back from an offset below `4^h` gives a level and a rank below `2^h` |
| StationaryLeafIndex.LevelLeavesDistinct | src/StationaryWaveletPacketTree.cc:170-194 | the leaves one level accumulates are pairwise distinct |
| StationaryLeafIndex.EachLeafOneLevel | src/StationaryWaveletPacketTree.cc:154-194 | each of the `4^h` leaves is accumulated by exactly one level, at exactly one rank |
| StationaryLeafIndex.StartingLeafStep | src/StationaryWaveletPacketTree.cc:158-162 | bit s of the level, when set, adds `2·4^s` to the starting leaf |
| StationaryLeafIndex.ComputeStartingLeaf | src/StationaryWaveletPacketTree.cc:153-166 | the first loop computes `Σ_s bit_s(level)·2·4^s`, the offset of the level's first leaf |
| StationaryLeafIndex.TakeLowBit | src/StationaryWaveletPacketTree.cc:177-184 | one inner-loop step moves the low bit of the index into the leaf |
| StationaryLeafIndex.ComputeLeafOffset | src/StationaryWaveletPacketTree.cc:170-185 | the inner loop adds `4^(b+1)` for every set bit b of i |
| StationaryLeafIndex.IterationLeaves | src/StationaryWaveletPacketTree.cc:187-193 | iteration i reconstructs the level's leaves 2i and 2i+1 |
| StationaryPacketTree.AddInto | src/StationaryWaveletPacketTree.cc:132-134 | the accumulator becomes its element-wise sum with the signal |
| StationaryPacketTree.DivideAll | src/StationaryWaveletPacketTree.cc:196-198 | every accumulated sample is divided by the level count |
| StationaryPacketTree.DecomposedLevelFits | src/StationaryWaveletPacketTree.cc:170-194 | after Decompose with L > 2 and a non-empty root, the path from every leaf of every level fits |
| StationaryPacketTree.LevelSumAgain | test/test.cc:72-77 | on a tree that keeps the decomposed leaves and lengths, as every stationary `Reconstruct` leaves it, each level's paths still fit and its sum is the one the decomposed tree gives |
| StationaryPacketTree.LeafReady | src/StationaryWaveletPacketTree.cc:190-193 | rebuilding inner nodes for earlier leaves does not change the root signal a later leaf gives |
| StationaryPacketTree.PairLeaf | src/StationaryWaveletPacketTree.cc:187-193 | `firstLeaf + current_leaf` and `+ 1` are the level's leaves 2i and 2i+1 |
| StationaryPacketTree.SplitStored | src/StationaryWaveletPacketTree.cc:45-57 | NW and SW get the Even approximation and detail, NE and SE the Odd ones; only children change |
| StationaryPacketTree.StationaryWaveletPacketTree.constructor | src/StationaryWaveletPacketTree.cc:28-31 | a quad tree of the given height with empty, unmarked nodes |
| StationaryPacketTree.StationaryWaveletPacketTree.Decompose | src/StationaryWaveletPacketTree.cc:33 | the whole tree is decomposed, the root and the marks are unchanged |
| StationaryPacketTree.StationaryWaveletPacketTree.DecomposeNode | src/StationaryWaveletPacketTree.cc:35-63 | every internal node below the node holds its parent's sub-band for its quadrant; only proper descendants change |
| StationaryPacketTree.StationaryWaveletPacketTree.DecomposeChild | src/StationaryWaveletPacketTree.cc:59-62 | one recursive call decomposes one more child's subtree |
| StationaryPacketTree.StationaryWaveletPacketTree.ReconstructNode | src/StationaryWaveletPacketTree.cc:65-118 | with one marked leaf below, only the node's subtree changes, the path to the leaf ends marked and holds its path signals |
| StationaryPacketTree.StationaryWaveletPacketTree.ReconstructChild | src/StationaryWaveletPacketTree.cc:75-78 | one recursive call reconstructs one more child's subtree |
| StationaryPacketTree.StationaryWaveletPacketTree.ReconstructFromMarkedChild | src/StationaryWaveletPacketTree.cc:80-117 | NW: Even/lowpass, SW: Even/highpass, NE: Odd/lowpass, SE: Odd/highpass; at most one child is marked; the node keeps its length |
| StationaryPacketTree.StationaryWaveletPacketTree.ReconstructAccumulate | src/StationaryWaveletPacketTree.cc:120-135 | the marks end on exactly the leaf's root path, the path is rebuilt and the accumulator gains the root signal the leaf gives |
| StationaryPacketTree.StationaryWaveletPacketTree.ReconstructLevelLeaf | src/StationaryWaveletPacketTree.cc:190-193 | one accumulation advances the sum from the level's first j leaves to its first j+1 |
| StationaryPacketTree.StationaryWaveletPacketTree.ReconstructLevelPair | src/StationaryWaveletPacketTree.cc:170-194 | one iteration advances the sum by the level's leaves 2i and 2i+1 |
| StationaryPacketTree.StationaryWaveletPacketTree.StoreAverage | src/StationaryWaveletPacketTree.cc:196-200 | the root becomes the accumulator divided by the level count, nothing else in the tree changes |
| StationaryPacketTree.StationaryWaveletPacketTree.Reconstruct | src/StationaryWaveletPacketTree.cc:137-201 | height 1 changes nothing; otherwise the root becomes the average, over the level's `2^(height-1)` leaves, of the root signals they rebuild, while leaves and node lengths are kept |

## Left out

- Filter coefficient tables and their loaders (src/Wavelet.cc) are left out. A wavelet is a record of four filter sequences, and `Length()` is their common length, as `Wavelet::Length` asserts.
- Floating point is not modelled. Values are exact reals, so whether the levels sum back to the input within a tolerance is not stated.
- Integer widths are not modelled. `size_t` becomes an unbounded `nat`, and `std::pow` becomes the exact integer power `Pow`.
- In the leaf-index loop, `& 0x1U` and `>> 1U` are written `% 2` and `/ 2`. These agree on unsigned values.
- The explicit-filter `WaveletMath::Decompose` and `Reconstruct` called in src/StationaryWaveletPacketTree.cc:45-57 and :114-116 are not part of this model. Both trees use the wavelet-based versions of src/WaveletMath.cc, with the same filters and modes.
- IndexedTree.Tree.GetNodeData and IndexedTree.Tree.IsMarked: plain reads with no contract of their own. What they return is stated through `SetNodeData` and `SetMark`, which read back what they wrote.
- Virtual-interface plumbing, deleted copy and move operators, `GetHeight`, the test program and its printing are left out. Reference-returning `GetNodeData` is modelled as a read plus `SetNodeData` for writes.
- The overload mismatch of `SetRootSignal` and `GetRootSignal` is not modelled. The interface (src/WaveletPacketTreeBase.h:67, :73) takes and returns a reference; the template (src/WaveletPacketTreeTemplateBase.h:29, :36) takes and returns a pointer.
- The constructors' default arguments are not modelled: `Odd` dyadic mode and `Zeroes` padding for the binary tree (src/WaveletPacketTree.h:43-45), and `Zeroes` padding for the stationary tree (src/StationaryWaveletPacketTree.h:44-46). Dafny has no default parameters, so the model's constructors take every mode explicitly.
- WaveletMath.Reconstruct: requires `data_size ≤ 2·len(coeffs)`, which the source does not check. Beyond that bound `copy_n` reads past the end of the convolution result; `ReconstructWindowFits` proves that this is exactly the fitting condition.
- BinaryPacketTree.WaveletPacketTree.Decompose: requires `DecomposeReady` of the root length, a sufficient condition and not the exact one.
  - It asks for a filter of at least two taps unless the mode is `Even`.
  - The source only asserts each step's own requirement, so a too-short sub-band fails an assert deeper in the recursion instead.
- StationaryPacketTree.StationaryWaveletPacketTree.Decompose: requires `DecomposeReady` for the same reason, with at least two taps, since `Odd` sub-bands are taken at every node.
- BinaryPacketTree.WaveletPacketTree.ReconstructNode: specified only when at most one leaf is marked below the node, named by the ghost parameter `leaf`.
  - This is the only way the source calls it: after `Unmark` and a single `SetMark`.
  - Only two marked children of one node trip the source's asserts (src/WaveletPacketTree.cc:83 and :87). Other patterns are not reachable through `Reconstruct` and are not specified. Examples are a lone marked inner node, or a marked leaf with some ancestors already marked; the source would rebuild the ancestors from the marked child's current signal.
- StationaryPacketTree.StationaryWaveletPacketTree.ReconstructNode: specified under the same single-marked-leaf requirement (`ReadyBelow`), the only pattern `ReconstructAccumulate` produces.
  - Only two marked children of one node trip the source's asserts (src/StationaryWaveletPacketTree.cc:85-104). Other patterns are not specified.
- BinaryPacketTree.WaveletPacketTree.Reconstruct: requires the root-to-leaf path to fit (`PathFits`), which the source does not check. `DecomposedPathFits` shows that a decomposed tree with a non-empty root and filters of more than two taps meets it, and `ReconstructAgain` that it still does after any number of earlier `Reconstruct` calls.
- StationaryPacketTree.StationaryWaveletPacketTree.Reconstruct: requires every leaf of the level to have a fitting path (`LevelFits`), for the same reason; `DecomposedLevelFits` establishes it after decomposition, and `LevelSumAgain` keeps it through earlier `Reconstruct` calls.
- StationaryPacketTree.StationaryWaveletPacketTree.Reconstruct: says nothing about the contents of inner nodes other than the root, or about the marks, after the call. As in the source, these are whatever the last leaf's pass left behind.
- StationaryPacketTree.StationaryWaveletPacketTree.StoreAverage: stores the average with the documented `SetRootSignal`. As written, the average never reaches the root (see Findings).

## Findings

| source | as written | input that shows it | evidently intended | confidence | as-written member | corrected member |
|---|---|---|---|---|---|---|
| src/WaveletPacketTreeTemplateBase.h:29-34 | `auto data = this->GetNodeData(0)` copies node 0, so the signal is assigned to that local copy (modelled by `SetRootSignalAsWritten`) | a fresh binary tree of height 1 and the signal `[1.0]`: the root is still `[]` afterwards | `auto& data`, so that node 0 receives a copy of the signal, as src/WaveletPacketTreeBase.h:60-67 documents | not executed | PacketTreeBase.SetRootSignalIsLost | PacketTreeBase.SetRootSignal |
