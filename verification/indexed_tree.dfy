/**
 * The implicit k-ary tree of src/Tree.h: nodes live in one flat sequence,
 * the root is node 0, the children of node p are k*p+1 .. k*p+k, and the
 * leaves are the last leafCount nodes. Index arithmetic is pure; the node
 * signals and the mark bits are state that the tree updates in place.
 */
module IndexedTree {

  /** b to the power e, as an exact integer (the source goes through std::pow). */
  function Pow(b: nat, e: nat): nat
  {
    if e == 0 then 1 else b * Pow(b, e - 1)
  }

  /** 1 + k + k^2 + ... + k^(h-1): the number of nodes of a complete k-ary tree of height h. */
  function Geom(k: nat, h: nat): nat
  {
    if h == 0 then 0 else k * Geom(k, h - 1) + 1
  }

  /** Index of child c of node p. */
  function Child(k: nat, p: nat, c: nat): nat
  {
    k * p + 1 + c
  }

  /** Index of the parent of node x (x is not the root). */
  function Parent(k: nat, x: nat): nat
    requires k >= 1 && x >= 1
  {
    (x - 1) / k
  }

  // ---------------------------------------------------------------------
  // Arithmetic helpers

  lemma DivModUnique(a: int, b: int, q: int, r: int)
    requires b > 0 && 0 <= r < b && a == b * q + r
    ensures a / b == q && a % b == r
  {
    var q', r' := a / b, a % b;
    assert a == b * q' + r' && 0 <= r' < b;
    if q' < q {
      assert b * (q - q') >= b by { MulMonotone(b, 1, q - q'); }
      assert false;
    } else if q' > q {
      assert b * (q' - q) >= b by { MulMonotone(b, 1, q' - q); }
      assert false;
    }
  }

  lemma MulMonotone(k: int, a: int, b: int)
    requires k >= 0 && a <= b
    ensures k * a <= k * b
  {
    assert k * b - k * a == k * (b - a);
  }

  lemma PowPositive(b: nat, e: nat)
    requires b >= 1
    ensures Pow(b, e) >= 1
  {
    if e > 0 {
      PowPositive(b, e - 1);
      MulMonotone(Pow(b, e - 1), 1, b);
    }
  }

  lemma {:induction false} PowAdd(b: nat, e1: nat, e2: nat)
    ensures Pow(b, e1 + e2) == Pow(b, e1) * Pow(b, e2)
  {
    if e2 > 0 {
      PowAdd(b, e1, e2 - 1);
      MulRotate(b, Pow(b, e1), Pow(b, e2 - 1), Pow(b, e1 + e2 - 1));
    }
  }

  lemma {:induction false} MulRotate(b: int, x: int, y: int, xy: int)
    requires xy == x * y
    ensures b * xy == x * (b * y)
  {
  }

  /** A power of 4 is the square of the same power of 2. */
  lemma {:induction false} PowFourIsSquare(e: nat)
    ensures Pow(4, e) == Pow(2, e) * Pow(2, e)
  {
    if e > 0 {
      PowFourIsSquare(e - 1);
      var t := Pow(2, e - 1);
      calc {
        Pow(4, e);
        4 * Pow(4, e - 1);
        4 * (t * t);
        (2 * t) * (2 * t);
      }
    }
  }

  /** The geometric series adds one power at a time. */
  lemma {:induction false} GeomStep(k: nat, h: nat)
    ensures Geom(k, h + 1) == Geom(k, h) + Pow(k, h)
  {
    if h > 0 {
      GeomStep(k, h - 1);
      calc {
        Geom(k, h + 1);
        k * Geom(k, h) + 1;
        k * (Geom(k, h - 1) + Pow(k, h - 1)) + 1;
        (k * Geom(k, h - 1) + 1) + k * Pow(k, h - 1);
      }
    }
  }

  /** (k-1) * (1 + k + ... + k^(h-1)) == k^h - 1. */
  lemma {:induction false} GeomClosedForm(k: nat, h: nat)
    requires k >= 1
    ensures (k - 1) * Geom(k, h) + 1 == Pow(k, h)
  {
    if h > 0 {
      GeomClosedForm(k, h - 1);
      ClosedFormStep(k, Geom(k, h - 1), Geom(k, h), Pow(k, h - 1), Pow(k, h));
    }
  }

  lemma {:induction false} ClosedFormStep(k: int, g: int, next: int, p: int, nextPower: int)
    requires (k - 1) * g + 1 == p && next == k * g + 1 && nextPower == k * p
    ensures (k - 1) * next + 1 == nextPower
  {
    calc {
      (k - 1) * next + 1;
      (k - 1) * (k * g + 1) + 1;
      k * ((k - 1) * g) + k;
      k * ((k - 1) * g + 1);
    }
  }

  /**
   * The node count the constructor computes, (k * leafCount - 1) / (k - 1)
   * with leafCount = k^(height-1), is exactly 1 + k + ... + k^(height-1).
   */
  lemma NodeCountFormula(k: nat, height: nat)
    requires k >= 2 && height >= 1
    ensures (k * Pow(k, height - 1) - 1) / (k - 1) == Geom(k, height)
    ensures Geom(k, height) == k * Geom(k, height - 1) + 1
    ensures Geom(k, height) == Geom(k, height - 1) + Pow(k, height - 1)
  {
    GeomClosedForm(k, height);
    GeomStep(k, height - 1);
    DivModUnique(k * Pow(k, height - 1) - 1, k - 1, Geom(k, height), 0);
  }

  // ---------------------------------------------------------------------
  // Parent / child arithmetic

  /** GetParent moves strictly towards the root. */
  lemma ParentBelow(k: nat, x: nat)
    requires k >= 1 && x >= 1
    ensures Parent(k, x) < x
  {
    DivModUnique(x - 1, k, (x - 1) / k, (x - 1) % k);
    MulMonotone((x - 1) / k, 1, k);
  }

  /** GetParent undoes GetChild. */
  lemma ParentOfChild(k: nat, p: nat, c: nat)
    requires k >= 1 && c < k
    ensures Child(k, p, c) > p
    ensures Parent(k, Child(k, p, c)) == p
  {
    DivModUnique(k * p + c, k, p, c);
    MulMonotone(p, 1, k);
  }

  /** Every non-root node is a child of its parent, at child index (x-1) % k. */
  lemma ChildOfParent(k: nat, x: nat)
    requires k >= 1 && x >= 1
    ensures (x - 1) % k < k
    ensures Child(k, Parent(k, x), (x - 1) % k) == x
  {
  }

  // ---------------------------------------------------------------------
  // Subtrees

  /** x lies in the subtree rooted at r: walking up from x by GetParent reaches r. */
  predicate InSubtree(k: nat, r: nat, x: nat)
    requires k >= 1
    decreases x
  {
    x == r || (x > r && (ParentBelow(k, x); InSubtree(k, r, Parent(k, x))))
  }

  lemma {:induction false} SubtreeAbove(k: nat, r: nat, x: nat)
    requires k >= 1 && InSubtree(k, r, x)
    ensures r <= x
  {
  }

  lemma {:induction false} SubtreeTransitive(k: nat, a: nat, b: nat, x: nat)
    requires k >= 1 && InSubtree(k, a, b) && InSubtree(k, b, x)
    ensures InSubtree(k, a, x)
    decreases x
  {
    if x != b {
      ParentBelow(k, x);
      SubtreeTransitive(k, a, b, Parent(k, x));
      SubtreeAbove(k, a, b);
    }
  }

  /** Every node is in the subtree of the root. */
  lemma {:induction false} RootSubtree(k: nat, x: nat)
    requires k >= 1
    ensures InSubtree(k, 0, x)
    decreases x
  {
    if x > 0 {
      ParentBelow(k, x);
      RootSubtree(k, Parent(k, x));
    }
  }

  lemma ChildInSubtree(k: nat, p: nat, c: nat)
    requires k >= 1 && c < k
    ensures InSubtree(k, p, Child(k, p, c))
  {
    ParentOfChild(k, p, c);
  }

  /** The subtree of a child lies strictly inside the subtree of its parent. */
  lemma ChildSubtreeInside(k: nat, p: nat, c: nat, x: nat)
    requires k >= 1 && c < k && InSubtree(k, Child(k, p, c), x)
    ensures InSubtree(k, p, x) && x != p
  {
    ChildInSubtree(k, p, c);
    SubtreeTransitive(k, p, Child(k, p, c), x);
    SubtreeAbove(k, Child(k, p, c), x);
  }

  /**
   * The child of p whose subtree holds x, for x strictly below p.
   */
  function Branch(k: nat, p: nat, x: nat): (c: nat)
    requires k >= 1 && InSubtree(k, p, x) && x != p
    ensures c < k && InSubtree(k, Child(k, p, c), x)
    decreases x
  {
    ParentBelow(k, x);
    ChildOfParent(k, x);
    var y := Parent(k, x);
    if y == p then (x - 1) % k
    else
      var c := Branch(k, p, y);
      SubtreeAbove(k, Child(k, p, c), y);
      c
  }

  /** Subtrees of two distinct children of one node never overlap. */
  lemma {:induction false} SiblingsDisjoint(k: nat, p: nat, c1: nat, c2: nat, x: nat)
    requires k >= 1 && c1 < k && c2 < k && c1 != c2
    requires InSubtree(k, Child(k, p, c1), x)
    ensures !InSubtree(k, Child(k, p, c2), x)
    decreases x
  {
    var a, b := Child(k, p, c1), Child(k, p, c2);
    if InSubtree(k, b, x) {
      ParentOfChild(k, p, c1);
      ParentOfChild(k, p, c2);
      if x == a {
        assert x != b && InSubtree(k, b, Parent(k, x));
        SubtreeAbove(k, b, p);
      } else if x == b {
        assert InSubtree(k, a, Parent(k, x));
        SubtreeAbove(k, a, p);
      } else {
        ParentBelow(k, x);
        SiblingsDisjoint(k, p, c1, c2, Parent(k, x));
      }
    }
  }

  /** Branch names the only child whose subtree holds x. */
  lemma BranchUnique(k: nat, p: nat, c: nat, x: nat)
    requires k >= 1 && c < k && InSubtree(k, Child(k, p, c), x)
    ensures InSubtree(k, p, x) && x != p && Branch(k, p, x) == c
  {
    ChildSubtreeInside(k, p, c, x);
    var b := Branch(k, p, x);
    if b != c {
      SiblingsDisjoint(k, p, c, b, x);
    }
  }

  /**
   * With internal nodes 0 .. first-1 and size == k * first + 1: children of
   * internal nodes are in range, children of leaves are not, every non-root
   * node has an internal parent, and a leaf's subtree is the leaf alone.
   */
  lemma InternalChildInRange(k: nat, first: nat, p: nat, c: nat)
    requires k >= 1 && p < first && c < k
    ensures Child(k, p, c) <= k * first
  {
    MulMonotone(k, p, first - 1);
  }

  lemma LeafChildOutOfRange(k: nat, first: nat, p: nat, c: nat)
    requires k >= 1 && first <= p
    ensures Child(k, p, c) >= k * first + 1
  {
    MulMonotone(k, first, p);
  }

  lemma ParentIsInternal(k: nat, first: nat, x: nat)
    requires k >= 1 && 1 <= x <= k * first
    ensures Parent(k, x) < first
  {
    ChildOfParent(k, x);
    if Parent(k, x) >= first {
      LeafChildOutOfRange(k, first, Parent(k, x), (x - 1) % k);
    }
  }

  lemma LeafSubtree(k: nat, first: nat, leaf: nat, x: nat)
    requires k >= 1 && first <= leaf && InSubtree(k, leaf, x) && x <= k * first
    ensures x == leaf
  {
    if x != leaf {
      var c := Branch(k, leaf, x);
      SubtreeAbove(k, Child(k, leaf, c), x);
      LeafChildOutOfRange(k, first, leaf, c);
    }
  }

  /**
   * Tree<Element,k> of src/Tree.h with Element = a node signal. `nodes` is
   * nodes_ (one signal per node), `marks` is mark_.
   */
  class Tree {
    const k: nat
    const height: nat
    const leafCount: nat
    var nodes: seq<seq<real>>
    var marks: seq<bool>

    ghost predicate Valid()
      reads this
    {
      k >= 2 && height >= 1 && leafCount == Pow(k, height - 1) &&
      |nodes| == Geom(k, height) && |nodes| == Geom(k, height - 1) + leafCount && |marks| == |nodes|
    }

    /** Tree(height): sizes nodes_ and mark_ to (k*leafCount - 1)/(k - 1), all empty and unmarked. */
    constructor (k: nat, height: nat)
      requires k >= 2 && height >= 1
      ensures Valid() && this.k == k && this.height == height
      ensures leafCount == Pow(k, height - 1)
      ensures |nodes| == (k * leafCount - 1) / (k - 1)
      ensures forall i :: 0 <= i < |nodes| ==> nodes[i] == [] && !marks[i]
      ensures height == 1 ==> |nodes| == 1 && leafCount == 1
    {
      this.k := k;
      this.height := height;
      var leaves := Pow(k, height - 1);
      this.leafCount := leaves;
      NodeCountFormula(k, height);
      var total := (k * leaves - 1) / (k - 1);
      nodes := seq(total, _ => []);
      marks := seq(total, _ => false);
    }

    /** GetLeafCount: k^(height-1) leaves, the last nodes of the layout. */
    function GetLeafCount(): (r: nat)
      reads this
      ensures Valid() ==> r == Pow(k, height - 1) && GetFirstLeaf() + r == |nodes|
    {
      leafCount
    }

    /** Index of the first leaf: the number of internal nodes. */
    function GetFirstLeaf(): (r: nat)
      reads this
      requires Valid()
      ensures r == Geom(k, height - 1)
      ensures height == 1 ==> r == 0
    {
      NodeCountFormula(k, height);
      |nodes| - leafCount
    }

    /** Index of the last leaf; for height > 1 it is the last child of the last internal node. */
    function GetLastLeaf(): (r: nat)
      reads this
      requires Valid()
      ensures r + 1 == |nodes|
      ensures height > 1 ==> r == Child(k, GetFirstLeaf() - 1, k - 1)
    {
      NodeCountFormula(k, height);
      |nodes| - 1
    }

    /** IsLeaf: a leaf is a node in range whose children all fall outside the tree. */
    function IsLeaf(node: nat): (r: bool)
      reads this
      requires Valid()
      ensures r <==> node < |nodes| && Child(k, node, 0) >= |nodes|
      ensures r ==> forall c :: 0 <= c < k ==> Child(k, node, c) >= |nodes|
      ensures height == 1 ==> (r <==> node == 0)
    {
      NodeCountFormula(k, height);
      if node < GetFirstLeaf() then
        InternalChildInRange(k, GetFirstLeaf(), node, 0);
        false
      else
        forall c | 0 <= c < k
          ensures Child(k, node, c) >= k * GetFirstLeaf() + 1
        {
          LeafChildOutOfRange(k, GetFirstLeaf(), node, c);
        }
        node <= GetLastLeaf()
    }

    /** GetChild: requires a child index below k and a parent in range. */
    function GetChild(parent: nat, childIndex: nat): (r: nat)
      reads this
      requires Valid() && childIndex < k && parent < |nodes|
      ensures r > parent && Parent(k, r) == parent
      ensures !IsLeaf(parent) ==> r < |nodes|
      ensures IsLeaf(parent) ==> r >= |nodes|
    {
      ParentOfChild(k, parent, childIndex);
      if parent < GetFirstLeaf() then
        InternalChildInRange(k, GetFirstLeaf(), parent, childIndex);
        Child(k, parent, childIndex)
      else
        LeafChildOutOfRange(k, GetFirstLeaf(), parent, childIndex);
        Child(k, parent, childIndex)
    }

    /** GetParent: requires a non-root node in range; the parent is an internal node. */
    function GetParent(child: nat): (r: nat)
      reads this
      requires Valid() && child < |nodes| && child != 0
      ensures r < child && !IsLeaf(r)
      ensures GetChild(r, (child - 1) % k) == child
    {
      ParentBelow(k, child);
      ParentIsInternal(k, GetFirstLeaf(), child);
      ChildOfParent(k, child);
      Parent(k, child)
    }

    function GetNodeData(index: nat): seq<real>
      reads this
      requires Valid() && index < |nodes|
    {
      nodes[index]
    }

    /** A write through the reference GetNodeData(index) returns. */
    method SetNodeData(index: nat, signal: seq<real>)
      requires Valid() && index < |nodes|
      modifies this
      ensures Valid()
      ensures nodes == old(nodes)[index := signal] && marks == old(marks)
      ensures GetNodeData(index) == signal
    {
      nodes := nodes[index := signal];
    }

    function IsMarked(node: nat): bool
      reads this
      requires Valid() && node < |marks|
    {
      marks[node]
    }

    /** SetMark(node): sets mark node and no other. */
    method SetMark(node: nat)
      requires Valid() && node < |marks|
      modifies this
      ensures Valid()
      ensures marks == old(marks)[node := true] && nodes == old(nodes)
      ensures IsMarked(node)
    {
      marks := marks[node := true];
    }

    /** Unmark(): every mark false, same number of marks. */
    method Unmark()
      requires Valid()
      modifies this
      ensures Valid()
      ensures |marks| == |old(marks)| && nodes == old(nodes)
      ensures forall i :: 0 <= i < |marks| ==> !marks[i]
    {
      marks := seq(|marks|, _ => false);
    }
  }
}
