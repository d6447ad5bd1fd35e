/**
 * The leaf-index arithmetic of StationaryWaveletPacketTree::Reconstruct
 * (src/StationaryWaveletPacketTree.cc). Leaves of the quad tree are
 * numbered from the first leaf; writing an offset in base 4, digit s
 * carries bit s of the level in its high half and bit s of the leaf's rank
 * within the level in its low half. The two loops of Reconstruct compute
 * exactly these offsets, and the offsets pair levels and ranks with leaves
 * one to one.
 */
module StationaryLeafIndex {
  import opened IndexedTree

  /** Bit s of x becomes base-4 digit s (0 or 1). */
  function Spread(x: nat): nat
  {
    if x == 0 then 0 else 4 * Spread(x / 2) + x % 2
  }

  /** The high halves of the base-4 digits of x, as a binary number. */
  function HighBits(x: nat): nat
  {
    if x == 0 then 0 else 2 * HighBits(x / 4) + (x % 4) / 2
  }

  /** The low halves of the base-4 digits of x, as a binary number. */
  function LowBits(x: nat): nat
  {
    if x == 0 then 0 else 2 * LowBits(x / 4) + x % 2
  }

  /**
   * Offset from the first leaf of the j-th leaf that level accumulates:
   * leaf j = 2i + e is the leaf current_leaf + e of iteration i.
   */
  function LeafOffset(level: nat, j: nat): nat
  {
    2 * Spread(level) + Spread(j)
  }

  lemma {:induction false} SpreadDouble(y: nat, e: nat)
    requires e < 2
    ensures Spread(2 * y + e) == 4 * Spread(y) + e
  {
    if 2 * y + e != 0 {
      DivModUnique(2 * y + e, 2, y, e);
    }
  }

  lemma {:induction false} SpreadEven(y: nat)
    ensures Spread(2 * y) == 4 * Spread(y)
  {
    if y != 0 {
      assert (2 * y) / 2 == y;
    }
  }

  lemma {:induction false} SpreadOdd(y: nat)
    ensures Spread(2 * y + 1) == 4 * Spread(y) + 1
  {
    assert (2 * y + 1) / 2 == y;
  }

  lemma {:induction false} SpreadZero(x: nat)
    ensures Spread(x) == 0 <==> x == 0
  {
    if x > 0 && x % 2 == 0 {
      SpreadZero(x / 2);
    }
  }

  /** Spreading x < 2^m stays below 4^m, with a third to spare. */
  lemma {:induction false} SpreadBound(x: nat, m: nat)
    requires x < Pow(2, m)
    ensures 3 * Spread(x) + 1 <= Pow(4, m)
  {
    if x == 0 {
      PowPositive(4, m);
    } else {
      assert m > 0;
      assert x / 2 < Pow(2, m - 1);
      SpreadBound(x / 2, m - 1);
      var q := Spread(x / 2);
      assert 3 * Spread(x) + 1 <= 4 * (3 * q + 1);
      MulMonotone(4, 3 * q + 1, Pow(4, m - 1));
    }
  }

  /** Every leaf offset of a level below 2^h and a rank below 2^h lies among the 4^h leaves. */
  lemma {:induction false} LeafOffsetBound(level: nat, j: nat, h: nat)
    requires level < Pow(2, h) && j < Pow(2, h)
    ensures LeafOffset(level, j) < Pow(4, h)
  {
    SpreadBound(level, h);
    SpreadBound(j, h);
  }

  /** The level and the rank can be read back from the offset. */
  lemma {:induction false} LeafOffsetInverse(level: nat, j: nat)
    ensures HighBits(LeafOffset(level, j)) == level
    ensures LowBits(LeafOffset(level, j)) == j
    decreases level + j
  {
    if level != 0 || j != 0 {
      var x := LeafOffset(level, j);
      var a, ea := level / 2, level % 2;
      var b, eb := j / 2, j % 2;
      SpreadOf(level, a, ea);
      SpreadOf(j, b, eb);
      var y := LeafOffset(a, b);
      assert x == 4 * y + (2 * ea + eb);
      DivModUnique(x, 4, y, 2 * ea + eb);
      DivModUnique(x, 2, 2 * y + ea, eb);
      SpreadZero(level);
      SpreadZero(j);
      LeafOffsetInverse(a, b);
    }
  }

  /** Every offset is the offset of the level and rank read back from it. */
  lemma {:induction false} LeafOffsetOnto(x: nat)
    ensures LeafOffset(HighBits(x), LowBits(x)) == x
    decreases x
  {
    if x > 0 {
      var q, r := x / 4, x % 4;
      var high, low := HighBits(q), LowBits(q);
      var hx, lx := HighBits(x), LowBits(x);
      assert hx == 2 * high + r / 2;
      assert lx == 2 * low + r % 2 by {
        DivModUnique(x, 2, 2 * q + r / 2, r % 2);
      }
      SpreadOf(hx, high, r / 2);
      SpreadOf(lx, low, r % 2);
      LeafOffsetOnto(q);
      Recombine(x, q, r, Spread(high), Spread(low), r / 2, r % 2);
    }
  }

  lemma {:induction false} Recombine(x: int, q: int, r: int, high: int, low: int, d1: int, d0: int)
    requires x == 4 * q + r && r == 2 * d1 + d0 && q == 2 * high + low
    ensures 2 * (4 * high + d1) + (4 * low + d0) == x
  {
  }

  /** Reading back from an offset below 4^h gives a level and a rank below 2^h. */
  lemma {:induction false} ReadBackBound(x: nat, h: nat)
    requires x < Pow(4, h)
    ensures HighBits(x) < Pow(2, h) && LowBits(x) < Pow(2, h)
  {
    if x > 0 {
      assert h > 0;
      assert x / 4 < Pow(4, h - 1);
      ReadBackBound(x / 4, h - 1);
      assert HighBits(x) < 2 * Pow(2, h - 1);
      assert LowBits(x) < 2 * Pow(2, h - 1);
    } else {
      PowPositive(2, h);
    }
  }

  /** The leaves one level accumulates are pairwise distinct. */
  lemma {:induction false} LevelLeavesDistinct(level: nat, j1: nat, j2: nat)
    requires j1 != j2
    ensures LeafOffset(level, j1) != LeafOffset(level, j2)
  {
    LeafOffsetInverse(level, j1);
    LeafOffsetInverse(level, j2);
  }

  /**
   * Over all levels below 2^h, each of the 4^h leaves is accumulated by
   * exactly one level, with exactly one rank below 2^h.
   */
  lemma {:induction false} EachLeafOneLevel(x: nat, h: nat)
    requires x < Pow(4, h)
    ensures HighBits(x) < Pow(2, h) && LowBits(x) < Pow(2, h)
    ensures LeafOffset(HighBits(x), LowBits(x)) == x
    ensures forall level, j :: LeafOffset(level, j) == x ==> level == HighBits(x) && j == LowBits(x)
  {
    ReadBackBound(x, h);
    LeafOffsetOnto(x);
    forall level, j | LeafOffset(level, j) == x
      ensures level == HighBits(x) && j == LowBits(x)
    {
      LeafOffsetInverse(level, j);
    }
  }

  // ---------------------------------------------------------------------
  // The loops

  /** Comparing powers of one base compares their exponents. */
  lemma {:induction false} PowExponentOrder(b: nat, e1: nat, e2: nat)
    requires b >= 2
    ensures Pow(b, e1) <= Pow(b, e2) ==> e1 <= e2
    ensures Pow(b, e1) < Pow(b, e2) ==> e1 < e2
  {
    if e2 < e1 {
      PowStrictlyIncreasing(b, e2, e1);
    }
  }

  lemma {:induction false} PowStrictlyIncreasing(b: nat, e1: nat, e2: nat)
    requires b >= 2 && e1 < e2
    ensures Pow(b, e1) < Pow(b, e2)
    decreases e2
  {
    PowPositive(b, e2 - 1);
    if e1 < e2 - 1 {
      PowStrictlyIncreasing(b, e1, e2 - 1);
    }
  }

  /** Adding b at bit s of a number below 2^s adds Spread(b) at base-4 digit s. */
  lemma {:induction false} SpreadShift(a: nat, b: nat, s: nat)
    requires a < Pow(2, s)
    ensures Spread(a + Pow(2, s) * b) == Spread(a) + Pow(4, s) * Spread(b)
  {
    if s > 0 {
      var half, quarter := Pow(2, s - 1), Pow(4, s - 1);
      assert Pow(2, s) == 2 * half;
      assert Pow(4, s) == 4 * quarter;
      assert a / 2 < half;
      SpreadShift(a / 2, b, s - 1);
      var x, y := ShiftArith(a, b, half, Pow(2, s));
      SpreadShiftStep(a, b, x, y, quarter, Pow(4, s));
    } else {
      assert a == 0 && Pow(2, s) == 1 && Pow(4, s) == 1;
      assert a + Pow(2, s) * b == b;
      assert Pow(4, s) * Spread(b) == Spread(b);
    }
  }

  /** The step of SpreadShift: bit 0 of a moves to digit 0, the rest shifts by one bit and one digit. */
  lemma {:induction false} SpreadShiftStep(a: nat, b: nat, x: nat, y: nat, quarter: nat, full: nat)
    requires x == 2 * y + a % 2 && full == 4 * quarter
    requires Spread(y) == Spread(a / 2) + quarter * Spread(b)
    ensures Spread(x) == Spread(a) + full * Spread(b)
  {
    SpreadOf(x, y, a % 2);
    SpreadOf(a, a / 2, a % 2);
    ShiftCombine(Spread(x), Spread(y), Spread(a), Spread(a / 2), Spread(b), quarter, full, a % 2);
  }

  /** Spread of a number given as twice y plus a bit. */
  lemma {:induction false} SpreadOf(x: nat, y: nat, e: nat)
    requires e < 2 && x == 2 * y + e
    ensures Spread(x) == 4 * Spread(y) + e
  {
    SpreadDouble(y, e);
  }

  lemma {:induction false} ShiftArith(a: nat, b: nat, half: nat, whole: nat) returns (x: nat, y: nat)
    requires whole == 2 * half
    ensures x == a + whole * b && y == a / 2 + half * b && x == 2 * y + a % 2
  {
    x, y := a + whole * b, a / 2 + half * b;
  }

  lemma {:induction false} ShiftCombine(sx: int, sy: int, sa: int, sl: int, sb: int, q: int, full: int, e: int)
    requires full == 4 * q && sx == 4 * sy + e && sy == sl + q * sb && sa == 4 * sl + e
    ensures sx == sa + full * sb
  {
  }

  /** Bit s of the level, when set, adds 2 * 4^s to the starting leaf. */
  lemma {:induction false} StartingLeafStep(level: nat, s: nat)
    ensures Pow(2, s) > 0
    ensures 2 * Spread(level % Pow(2, s + 1))
         == 2 * Spread(level % Pow(2, s)) + (if level % Pow(2, s + 1) >= Pow(2, s) then 2 * Pow(4, s) else 0)
  {
    ModSplit(level, s);
    var m := Pow(2, s);
    var low, both := level % m, level % Pow(2, s + 1);
    var bit := both / m;
    SpreadShift(low, bit, s);
    SpreadBit(bit);
    BitStep(Spread(both), Spread(low), Spread(bit), Pow(4, s), both, low, m, bit);
  }

  lemma {:induction false} SpreadBit(bit: nat)
    requires bit < 2
    ensures Spread(bit) == bit
  {
    if bit == 1 {
      assert bit / 2 == 0;
    }
  }

  lemma {:induction false} BitStep(spreadBoth: int, spreadLow: int, spreadBit: int, quad: int, both: int, low: int, m: int, bit: int)
    requires spreadBoth == spreadLow + quad * spreadBit && spreadBit == bit && 0 <= bit < 2
    requires both == low + m * bit && 0 <= low < m
    ensures 2 * spreadBoth == 2 * spreadLow + (if both >= m then 2 * quad else 0)
  {
    if bit == 0 {
      assert both < m;
    } else {
      assert both >= m;
    }
  }

  /** The remainder modulo 2^(s+1) splits into the remainder modulo 2^s and bit s. */
  lemma {:induction false} ModSplit(x: nat, s: nat)
    ensures Pow(2, s) > 0
    ensures x % Pow(2, s + 1) == x % Pow(2, s) + Pow(2, s) * (x % Pow(2, s + 1) / Pow(2, s))
    ensures x % Pow(2, s + 1) / Pow(2, s) < 2
  {
    PowPositive(2, s);
    assert Pow(2, s + 1) == 2 * Pow(2, s);
    ModDouble(x, Pow(2, s), Pow(2, s + 1));
  }

  /** The remainder modulo 2m splits into the remainder modulo m and one more bit. */
  lemma {:induction false} ModDouble(x: nat, m: int, m2: int)
    requires m > 0 && m2 == 2 * m
    ensures x % m2 == x % m + m * (x % m2 / m) && x % m2 / m < 2
  {
    var y, q := x % m2, x / m2;
    var t, r := y / m, y % m;
    assert x == m2 * q + y && 0 <= y < m2;
    assert y == m * t + r && 0 <= r < m;
    SplitArith(x, m, m2, q, y, t, r);
    DivModUnique(x, m, 2 * q + t, r);
  }

  lemma {:induction false} SplitArith(x: int, m: int, m2: int, q: int, y: int, t: int, r: int)
    requires m > 0 && m2 == 2 * m && x == m2 * q + y && 0 <= y < m2 && y == m * t + r && 0 <= r < m
    ensures x == m * (2 * q + t) + r && t < 2
  {
    MulCancel(m, t, 2);
  }

  lemma {:induction false} MulCancel(m: int, t: int, k: int)
    requires m > 0
    ensures m * t < m * k ==> t < k
  {
    if t >= k {
      MulMonotone(m, k, t);
    }
  }

  /**
   * The first loop of Reconstruct: for each bit s of the level (with
   * current_leaf_count = 4^(s+1) not above the leaf count 4^h) it adds
   * 2 * 4^s when the bit is set.
   */
  method ComputeStartingLeaf(level: nat, leafCount: nat, ghost h: nat) returns (startingLeaf: nat)
    requires leafCount == Pow(4, h) && level < Pow(2, h)
    ensures startingLeaf == LeafOffset(level, 0)
  {
    startingLeaf := 0;
    var currentLeafCount := 4;
    var currentLevelCount := 2;
    ghost var s: nat := 0;
    while currentLeafCount <= leafCount
      invariant s <= h
      invariant currentLeafCount == Pow(4, s + 1)
      invariant currentLevelCount >= 2 && currentLevelCount == Pow(2, s + 1) && Pow(2, s) >= 1
      invariant startingLeaf == 2 * Spread(level % Pow(2, s))
      decreases leafCount - currentLeafCount
    {
      PowExponentOrder(4, s + 1, h);
      var remainder := level % currentLevelCount;
      StartingLeafStep(level, s);
      if remainder >= currentLevelCount / 2 {
        startingLeaf := startingLeaf + currentLeafCount / 2;
      }
      currentLeafCount := currentLeafCount * 4;
      currentLevelCount := currentLevelCount * 2;
      s := s + 1;
    }
    PowExponentOrder(4, h, s + 1);
    DivModUnique(level, Pow(2, h), 0, level);
  }

  /** One step of the inner loop: the low bit of levelIndex moves into currentLeaf. */
  lemma {:induction false} TakeLowBit(currentLeaf: nat, currentMultiplier: nat, levelIndex: nat)
    requires levelIndex != 0
    ensures levelIndex % 2 != 0 ==>
      currentLeaf + currentMultiplier * Spread(levelIndex)
      == (currentLeaf + currentMultiplier) + (currentMultiplier * 4) * Spread(levelIndex / 2)
    ensures levelIndex % 2 == 0 ==>
      currentLeaf + currentMultiplier * Spread(levelIndex)
      == currentLeaf + (currentMultiplier * 4) * Spread(levelIndex / 2)
  {
    var rest, bit := Spread(levelIndex / 2), levelIndex % 2;
    assert Spread(levelIndex) == 4 * rest + bit;
    Distribute(currentMultiplier, rest, bit);
  }

  lemma {:induction false} Distribute(m: int, rest: int, bit: int)
    ensures m * (4 * rest + bit) == m * bit + (m * 4) * rest
    ensures bit == 0 ==> m * bit == 0
    ensures bit == 1 ==> m * bit == m
  {
  }

  /** The inner loop of Reconstruct: adds 4^(b+1) for every set bit b of i. */
  method ComputeLeafOffset(startingLeaf: nat, i: nat) returns (currentLeaf: nat)
    ensures currentLeaf == startingLeaf + 4 * Spread(i)
  {
    currentLeaf := startingLeaf;
    var currentMultiplier: nat := 4;
    var levelIndex := i;
    while levelIndex != 0
      invariant currentLeaf + currentMultiplier * Spread(levelIndex) == startingLeaf + 4 * Spread(i)
      decreases levelIndex
    {
      TakeLowBit(currentLeaf, currentMultiplier, levelIndex);
      if levelIndex % 2 != 0 {
        currentLeaf := currentLeaf + currentMultiplier;
      }
      levelIndex := levelIndex / 2;
      currentMultiplier := currentMultiplier * 4;
    }
  }

  /** Iteration i of the outer loop visits the level's leaves 2i and 2i + 1. */
  lemma {:induction false} IterationLeaves(level: nat, i: nat)
    ensures LeafOffset(level, 2 * i) == LeafOffset(level, 0) + 4 * Spread(i)
    ensures LeafOffset(level, 2 * i + 1) == LeafOffset(level, 0) + 4 * Spread(i) + 1
  {
    SpreadEven(i);
    SpreadOdd(i);
  }
}
