/** The transaction tree hash (CryptoNight/tree-hash.cpp), for an arbitrary 64-to-32-byte hash
    `H` of two neighbouring nodes. */
module TreeHash {
  // ----- the width of the first full level

  function Shr(x: nat, i: nat): nat {
    if i == 0 then x else Shr(x / 2, i - 1)
  }

  function Or(x: nat, y: nat): (z: nat)
    ensures z >= x && z >= y
  {
    if x == 0 && y == 0 then 0
    else (if x % 2 == 1 || y % 2 == 1 then 1 else 0) + 2 * Or(x / 2, y / 2)
  }

  function AndNot(x: nat, y: nat): (z: nat)
    ensures z <= x
  {
    if x == 0 then 0
    else (if x % 2 == 1 && y % 2 == 0 then 1 else 0) + 2 * AndNot(x / 2, y / 2)
  }

  /** One turn of the smearing loop, `cnt |= cnt >> i`. */
  function SmearBy(x: nat, i: nat): nat {
    Or(x, Shr(x, i))
  }

  function Smear1(c: nat): nat { SmearBy(c, 1) }
  function Smear2(c: nat): nat { SmearBy(Smear1(c), 2) }

  /** The loop runs for i = 1, 2, 4: it stops at sizeof(size_t), eight, so it smears a bit over
      eight places and not over all sixty-four. */
  function Smear(c: nat): nat { SmearBy(Smear2(c), 4) }

  /** What the code uses as the width: the set bits with eight clear bits above them. */
  function Width(c: nat): nat {
    AndNot(Smear(c), Shr(Smear(c), 1))
  }

  /** What it wants: the greatest power of two not above `c`. */
  function TopBit(c: nat): (t: nat)
    ensures c > 0 ==> t <= c < 2 * t
  {
    if c < 2 then c else 2 * TopBit(c / 2)
  }

  /** No set bit of `c` has eight clear bits and then another set bit above it. */
  predicate Gapless(c: nat) {
    c <= 1 || (c % 512 != 1 && Gapless(c / 2))
  }

  lemma {:induction false} ShrHalves(x: nat, i: nat)
    ensures Shr(x, i) / 2 == Shr(x / 2, i) == Shr(x, i + 1)
    decreases i
  {
    if i > 0 {
      ShrHalves(x / 2, i - 1);
    }
  }

  lemma OrHalves(x: nat, y: nat)
    ensures Or(x, y) / 2 == Or(x / 2, y / 2)
    ensures Or(x, y) % 2 == if x % 2 == 1 || y % 2 == 1 then 1 else 0
  {}

  lemma SmearByHalves(x: nat, i: nat)
    ensures SmearBy(x, i) / 2 == SmearBy(x / 2, i)
    ensures SmearBy(x, i) % 2 == if x % 2 == 1 || Shr(x, i) % 2 == 1 then 1 else 0
  {
    OrHalves(x, Shr(x, i));
    ShrHalves(x, i);
  }

  lemma Shr1(c: nat)
    ensures Shr(c, 1) == c / 2
  {
    assert Shr(c / 2, 0) == c / 2;
  }

  lemma Shr2(c: nat)
    ensures Shr(c, 2) == c / 4
  {
    Shr1(c / 2);
  }

  lemma Shr4(c: nat)
    ensures Shr(c, 4) == c / 16
  {
    Shr2(c / 4);
    assert Shr(c, 4) == Shr(c / 2, 3) == Shr(c / 2 / 2, 2);
  }

  lemma Smear1Step(c: nat)
    ensures Smear1(c) % 2 == if c % 4 == 0 then 0 else 1
    ensures Smear1(c) / 2 == Smear1(c / 2)
  {
    hide SmearBy, Shr;
    SmearByHalves(c, 1);
    Shr1(c);
  }

  lemma {:induction false} Smear1Shr(c: nat, i: nat)
    ensures Shr(Smear1(c), i) == Smear1(Shr(c, i))
    decreases i
  {
    hide Smear1;
    if i > 0 {
      Smear1Step(c);
      Smear1Shr(c / 2, i - 1);
    }
  }

  lemma Smear2Step(c: nat)
    ensures Smear2(c) % 2 == if c % 16 == 0 then 0 else 1
    ensures Smear2(c) / 2 == Smear2(c / 2)
  {
    hide Smear1, SmearBy, Shr;
    SmearByHalves(Smear1(c), 2);
    Smear1Step(c);
    Smear1Shr(c, 2);
    Shr2(c);
    Smear1Step(c / 4);
  }

  lemma {:induction false} Smear2Shr(c: nat, i: nat)
    ensures Shr(Smear2(c), i) == Smear2(Shr(c, i))
    decreases i
  {
    hide Smear2;
    if i > 0 {
      Smear2Step(c);
      Smear2Shr(c / 2, i - 1);
    }
  }

  lemma SmearStep(c: nat)
    ensures Smear(c) % 2 == if c % 256 == 0 then 0 else 1
    ensures Smear(c) / 2 == Smear(c / 2)
  {
    hide Smear2, SmearBy, Shr;
    SmearByHalves(Smear2(c), 4);
    Smear2Step(c);
    Smear2Shr(c, 4);
    Shr4(c);
    Smear2Step(c / 16);
  }

  lemma {:induction false} SmearPositive(c: nat)
    ensures c > 0 ==> Smear(c) > 0
    ensures c == 0 ==> Smear(c) == 0
  {
    SmearStep(c);
    if c > 0 { SmearPositive(c / 2); }
  }

  /** The width bit by bit. */
  lemma WidthStep(c: nat)
    requires c > 0
    ensures Width(c) == (if c % 512 == 1 then 1 else 0) + 2 * Width(c / 2)
  {
    hide Smear, Shr, AndNot;
    SmearPositive(c);
    SmearStep(c);
    SmearStep(c / 2);
    Shr1(Smear(c));
    Shr1(Smear(c / 2));
    AndNotStep(Smear(c), Smear(c / 2));
    LoneBit(c);
  }

  lemma LoneBit(c: nat)
    ensures c % 256 != 0 && c / 2 % 256 == 0 <==> c % 512 == 1
  {
    LowBits(c);
    HalfBits(c);
  }

  lemma LowBits(c: nat)
    ensures c % 256 == c % 512 % 256
  {
    assert c == 256 * (2 * (c / 512)) + c % 512;
  }

  lemma HalfBits(c: nat)
    ensures c / 2 % 256 == c % 512 / 2
  {
    assert c / 2 == 256 * (c / 512) + c % 512 / 2;
  }

  lemma AndNotStep(x: nat, y: nat)
    requires x > 0
    ensures AndNot(x, y) == (if x % 2 == 1 && y % 2 == 0 then 1 else 0) + 2 * AndNot(x / 2, y / 2)
  {}

  lemma WidthOfZero()
    ensures Width(0) == 0
  {
    SmearPositive(0);
  }

  /** The width is the wanted power of two exactly when `c` has no long gap. */
  lemma {:induction false} WidthIsTopBitIff(c: nat)
    ensures Width(c) == TopBit(c) <==> Gapless(c)
  {
    if c <= 1 {
      WidthOfZero();
      if c == 1 { WidthStep(1); }
    } else {
      WidthStep(c);
      WidthIsTopBitIff(c / 2);
    }
  }

  /** Blocks of 3 to 513 transactions are safe; 514 is the first count that is not. */
  lemma SmallCountsAreGapless(c: nat)
    ensures c <= 512 ==> Gapless(c)
    ensures !Gapless(513)
  {
    if 1 < c <= 512 {
      SmallCountsAreGapless(c / 2);
    }
  }

  /** Halving the width again and again reaches 2 and never 3. */
  predicate HalvesToTwo(n: nat) {
    n == 2 || (n > 3 && HalvesToTwo(n / 2))
  }

  lemma {:induction false} WidthFacts(c: nat)
    requires c >= 2
    ensures HalvesToTwo(Width(c))
    ensures TopBit(c) <= Width(c) <= c
    ensures c + 1 <= 2 * Width(c)
  {
    hide Width;
    WidthStep(c);
    if c < 4 {
      WidthStep(1);
      WidthOfZero();
    } else {
      WidthFacts(c / 2);
      assert Width(c) / 2 == Width(c / 2);
    }
  }

  // ----- the tree

  /** Neighbours hashed together; a last node without a neighbour is dropped. */
  function Pairs<T>(H: (T, T) -> T, xs: seq<T>): (ys: seq<T>)
    ensures |ys| == |xs| / 2
  {
    if |xs| < 2 then [] else [H(xs[0], xs[1])] + Pairs(H, xs[2..])
  }

  /** The first full level: the leading leaves kept so that `width` nodes are left. */
  function FirstLevel<T>(H: (T, T) -> T, leaves: seq<T>, width: nat): (level: seq<T>)
    requires width <= |leaves| <= 2 * width
    ensures |level| == width
  {
    var kept := 2 * width - |leaves|;
    leaves[..kept] + Pairs(H, leaves[kept..])
  }

  function Reduce<T>(H: (T, T) -> T, level: seq<T>): T
    requires HalvesToTwo(|level|)
    decreases |level|
  {
    if |level| == 2 then H(level[0], level[1]) else Reduce(H, Pairs(H, level))
  }

  /** What the code computes. */
  function Root<T>(H: (T, T) -> T, leaves: seq<T>): T
    requires |leaves| > 0
  {
    if |leaves| == 1 then leaves[0]
    else if |leaves| == 2 then H(leaves[0], leaves[1])
    else
      WidthFacts(|leaves| - 1);
      Reduce(H, FirstLevel(H, leaves, Width(|leaves| - 1)))
  }

  predicate PowerOfTwo(n: nat) {
    n == 1 || (n > 1 && n % 2 == 0 && PowerOfTwo(n / 2))
  }

  /** The root of a balanced tree over the nodes of one level. */
  function Balanced<T>(H: (T, T) -> T, xs: seq<T>): T
    requires PowerOfTwo(|xs|)
    decreases |xs|
  {
    if |xs| == 1 then xs[0]
    else
      var half := |xs| / 2;
      H(Balanced(H, xs[..half]), Balanced(H, xs[half..]))
  }

  lemma TopBitIsPowerOfTwo(c: nat)
    requires c > 0
    ensures PowerOfTwo(TopBit(c))
  {
    if c > 1 { TopBitIsPowerOfTwo(c / 2); }
  }

  /** The Merkle root: with 2^k < count <= 2^(k+1), the trailing leaves are paired so that 2^k
      nodes are left, and those are the leaves of a balanced tree. */
  function MerkleRoot<T>(H: (T, T) -> T, leaves: seq<T>): T
    requires |leaves| > 0
  {
    if |leaves| == 1 then leaves[0]
    else
      TopBitIsPowerOfTwo(|leaves| - 1);
      Balanced(H, FirstLevel(H, leaves, TopBit(|leaves| - 1)))
  }

  lemma {:induction false} PairsConcat<T>(H: (T, T) -> T, xs: seq<T>, ys: seq<T>)
    requires |xs| % 2 == 0
    ensures Pairs(H, xs + ys) == Pairs(H, xs) + Pairs(H, ys)
    decreases |xs|
  {
    if xs == [] {
      assert xs + ys == ys;
    } else {
      assert (xs + ys)[2..] == xs[2..] + ys;
      PairsConcat(H, xs[2..], ys);
    }
  }

  /** Hashing a level pairwise first does not change the balanced root. */
  lemma {:induction false} BalancedOfPairs<T>(H: (T, T) -> T, xs: seq<T>)
    requires PowerOfTwo(|xs|) && |xs| >= 2
    ensures PowerOfTwo(|xs| / 2) && Balanced(H, Pairs(H, xs)) == Balanced(H, xs)
    decreases |xs|
  {
    var half := |xs| / 2;
    if half == 1 {
      assert Pairs(H, xs) == [H(xs[0], xs[1])];
    } else {
      BalancedOfPairs(H, xs[..half]);
      BalancedOfPairs(H, xs[half..]);
      PairsConcat(H, xs[..half], xs[half..]);
      assert xs == xs[..half] + xs[half..];
      var p := Pairs(H, xs);
      assert p[..half / 2] == Pairs(H, xs[..half]) && p[half / 2..] == Pairs(H, xs[half..]);
    }
  }

  lemma {:induction false} ReduceIsBalanced<T>(H: (T, T) -> T, level: seq<T>)
    requires PowerOfTwo(|level|) && HalvesToTwo(|level|)
    ensures Reduce(H, level) == Balanced(H, level)
    decreases |level|
  {
    if |level| > 2 {
      BalancedOfPairs(H, level);
      ReduceIsBalanced(H, Pairs(H, level));
    }
  }

  lemma RootOfTwo<T>(H: (T, T) -> T, leaves: seq<T>)
    requires |leaves| == 2
    ensures Root(H, leaves) == MerkleRoot(H, leaves)
  {
    assert FirstLevel(H, leaves, 1) == [H(leaves[0], leaves[1])];
  }

  /** For every hash and every list of leaves whose count leaves no long gap, the code computes the Merkle root. */
  lemma RootIsMerkleRoot<T>(H: (T, T) -> T, leaves: seq<T>)
    requires |leaves| > 0 && Gapless(|leaves| - 1)
    ensures Root(H, leaves) == MerkleRoot(H, leaves)
  {
    hide Width, Gapless, Pairs, Reduce;
    if |leaves| == 2 {
      RootOfTwo(H, leaves);
    } else if |leaves| > 2 {
      WidthIsTopBitIff(|leaves| - 1);
      WidthFacts(|leaves| - 1);
      TopBitIsPowerOfTwo(|leaves| - 1);
      ReduceIsBalanced(H, FirstLevel(H, leaves, TopBit(|leaves| - 1)));
    }
  }

  // ----- the converse, on the free hash

  datatype Tree = Leaf(id: nat) | Node(left: Tree, right: Tree)

  function Join(a: Tree, b: Tree): Tree { Node(a, b) }

  function Leaves(t: Tree): (n: nat)
    ensures n > 0
  {
    match t
    case Leaf(_) => 1
    case Node(l, r) => Leaves(l) + Leaves(r)
  }

  function Total(ts: seq<Tree>): nat {
    if ts == [] then 0 else Leaves(ts[0]) + Total(ts[1..])
  }

  lemma {:induction false} TotalConcat(xs: seq<Tree>, ys: seq<Tree>)
    ensures Total(xs + ys) == Total(xs) + Total(ys)
  {
    if xs == [] {
      assert xs + ys == ys;
    } else {
      assert (xs + ys)[1..] == xs[1..] + ys;
      TotalConcat(xs[1..], ys);
    }
  }

  lemma {:induction false} TotalOfPairs(xs: seq<Tree>)
    ensures Total(Pairs(Join, xs)) <= Total(xs)
    ensures Total(Pairs(Join, xs)) == Total(xs) <==> |xs| % 2 == 0
    decreases |xs|
  {
    if |xs| >= 2 {
      TotalOfPairs(xs[2..]);
      assert Total(xs) == Leaves(xs[0]) + (Leaves(xs[1]) + Total(xs[1..][1..]));
      assert xs[1..][1..] == xs[2..];
    }
  }

  /** A level whose width is not a power of two loses a leaf on the way up. */
  lemma {:induction false} ReduceCounts(level: seq<Tree>)
    requires HalvesToTwo(|level|)
    ensures Leaves(Reduce(Join, level)) <= Total(level)
    ensures Leaves(Reduce(Join, level)) == Total(level) ==> PowerOfTwo(|level|)
    decreases |level|
  {
    if |level| == 2 {
      assert Total(level) == Leaves(level[0]) + (Leaves(level[1]) + Total(level[1..][1..]));
    } else {
      TotalOfPairs(level);
      ReduceCounts(Pairs(Join, level));
    }
  }

  lemma {:induction false} BalancedCounts(xs: seq<Tree>)
    requires PowerOfTwo(|xs|)
    ensures Leaves(Balanced(Join, xs)) == Total(xs)
    decreases |xs|
  {
    if |xs| == 1 {
      assert xs[1..] == [];
    } else {
      var half := |xs| / 2;
      BalancedCounts(xs[..half]);
      BalancedCounts(xs[half..]);
      TotalConcat(xs[..half], xs[half..]);
      assert xs == xs[..half] + xs[half..];
    }
  }

  lemma FirstLevelCounts(leaves: seq<Tree>, width: nat)
    requires width <= |leaves| <= 2 * width
    ensures Total(FirstLevel(Join, leaves, width)) == Total(leaves)
  {
    var kept := 2 * width - |leaves|;
    TotalOfPairs(leaves[kept..]);
    TotalConcat(leaves[..kept], Pairs(Join, leaves[kept..]));
    TotalConcat(leaves[..kept], leaves[kept..]);
    assert leaves == leaves[..kept] + leaves[kept..];
  }

  lemma {:induction false} OnlyPowerInRange(n: nat, c: nat)
    requires PowerOfTwo(n) && c > 0 && n <= c < 2 * n
    ensures n == TopBit(c)
  {
    if n > 1 { OnlyPowerInRange(n / 2, c / 2); }
  }

  /** On trees the code computes the Merkle root if and only if the count leaves no long gap. */
  lemma RootIsMerkleRootIff(leaves: seq<Tree>)
    requires |leaves| > 0
    ensures Root(Join, leaves) == MerkleRoot(Join, leaves) <==> Gapless(|leaves| - 1)
  {
    var c := |leaves| - 1;
    if Gapless(c) {
      RootIsMerkleRoot(Join, leaves);
    } else {
      WidthFacts(c);
      WidthIsTopBitIff(c);
      TopBitIsPowerOfTwo(c);
      FirstLevelCounts(leaves, Width(c));
      FirstLevelCounts(leaves, TopBit(c));
      ReduceCounts(FirstLevel(Join, leaves, Width(c)));
      BalancedCounts(FirstLevel(Join, leaves, TopBit(c)));
      if PowerOfTwo(Width(c)) {
        OnlyPowerInRange(Width(c), c);
      }
    }
  }

  // ----- the transaction that a long gap loses

  lemma {:induction false} PairsAt<T>(H: (T, T) -> T, xs: seq<T>, j: nat)
    requires 2 * j + 1 < |xs|
    ensures Pairs(H, xs)[j] == H(xs[2 * j], xs[2 * j + 1])
  {
    if j > 0 { PairsAt(H, xs[2..], j - 1); }
  }

  lemma PairsOfUpdate<T>(H: (T, T) -> T, xs: seq<T>, j: nat, x: T)
    requires 2 * j + 1 < |xs|
    ensures Pairs(H, xs[2 * j := x]) == Pairs(H, xs)[j := H(x, xs[2 * j + 1])]
  {
    hide Pairs;
    var ys := xs[2 * j := x];
    forall k | 0 <= k < |ys| / 2 ensures Pairs(H, ys)[k] == Pairs(H, xs)[j := H(x, xs[2 * j + 1])][k] {
      PairsAt(H, ys, k);
      PairsAt(H, xs, k);
    }
  }

  /** An odd last node does not get into the next level. */
  lemma PairsDropLast<T>(H: (T, T) -> T, xs: seq<T>, x: T)
    requires |xs| % 2 == 1
    ensures Pairs(H, xs[|xs| - 1 := x]) == Pairs(H, xs)
  {
    hide Pairs;
    var ys := xs[|xs| - 1 := x];
    forall k | 0 <= k < |xs| / 2 ensures Pairs(H, ys)[k] == Pairs(H, xs)[k] {
      PairsAt(H, ys, k);
      PairsAt(H, xs, k);
    }
  }

  /** The node of a level of `n` that leads to the first dropped one. */
  function LostNode(n: nat): (j: nat)
    requires HalvesToTwo(n) && !PowerOfTwo(n)
    ensures j < n
  {
    if n % 2 == 1 then n - 1 else 2 * LostNode(n / 2)
  }

  lemma {:induction false} LostNodeIsLost<T>(H: (T, T) -> T, level: seq<T>, x: T)
    requires HalvesToTwo(|level|) && !PowerOfTwo(|level|)
    ensures Reduce(H, level[LostNode(|level|) := x]) == Reduce(H, level)
    decreases |level|
  {
    if |level| % 2 == 1 {
      PairsDropLast(H, level, x);
    } else {
      var j := LostNode(|level| / 2);
      PairsOfUpdate(H, level, j, x);
      LostNodeIsLost(H, Pairs(H, level), H(x, level[2 * j + 1]));
    }
  }

  /** The first leaf under node `j` of the first full level. */
  function LeafUnder(count: nat, width: nat, j: nat): (i: nat)
    requires width <= count <= 2 * width && j < width
    ensures i < count
  {
    var kept := 2 * width - count;
    if j < kept then j else kept + 2 * (j - kept)
  }

  /** The place of the lost node among the leaves. */
  function LostLeaf(count: nat): (i: nat)
    requires count > 0 && !Gapless(count - 1)
    ensures i < count
  {
    LongGapWidth(count - 1);
    LeafUnder(count, Width(count - 1), LostNode(Width(count - 1)))
  }

  lemma LongGapWidth(c: nat)
    requires !Gapless(c)
    ensures HalvesToTwo(Width(c)) && !PowerOfTwo(Width(c)) && c < 2 * Width(c) && Width(c) <= c
  {
    WidthFacts(c);
    WidthIsTopBitIff(c);
    if PowerOfTwo(Width(c)) {
      OnlyPowerInRange(Width(c), c);
    }
  }

  lemma FirstLevelOfUpdate<T>(H: (T, T) -> T, leaves: seq<T>, width: nat, j: nat, x: T) returns (y: T)
    requires width <= |leaves| <= 2 * width && j < width
    ensures FirstLevel(H, leaves[LeafUnder(|leaves|, width, j) := x], width) == FirstLevel(H, leaves, width)[j := y]
  {
    hide Pairs;
    var kept := 2 * width - |leaves|;
    if j < kept {
      y := x;
      assert leaves[j := x][kept..] == leaves[kept..];
    } else {
      var i := 2 * (j - kept);
      y := H(x, leaves[kept + i + 1]);
      assert leaves[kept + i := x][kept..] == leaves[kept..][i := x];
      PairsOfUpdate(H, leaves[kept..], j - kept, x);
    }
  }

  /** With a long gap there is a transaction that the root does not depend on, whatever the hash. */
  lemma LostLeafIsLost<T>(H: (T, T) -> T, leaves: seq<T>, x: T)
    requires |leaves| > 0 && !Gapless(|leaves| - 1)
    ensures Root(H, leaves[LostLeaf(|leaves|) := x]) == Root(H, leaves)
  {
    hide Width, Gapless, Pairs, Reduce, FirstLevel, LostNode;
    SmallCountsAreGapless(|leaves| - 1);
    var width := Width(|leaves| - 1);
    LongGapWidth(|leaves| - 1);
    var y := FirstLevelOfUpdate(H, leaves, width, LostNode(width), x);
    LostNodeIsLost(H, FirstLevel(H, leaves, width), y);
  }

  lemma {:induction false} PairsInjective(xs: seq<Tree>, ys: seq<Tree>)
    requires |xs| == |ys| && |xs| % 2 == 0 && Pairs(Join, xs) == Pairs(Join, ys)
    ensures xs == ys
  {
    forall k | 0 <= k < |xs| ensures xs[k] == ys[k] {
      PairsAt(Join, xs, k / 2);
      PairsAt(Join, ys, k / 2);
    }
  }

  lemma {:induction false} BalancedInjective(xs: seq<Tree>, ys: seq<Tree>)
    requires PowerOfTwo(|xs|) && |xs| == |ys| && Balanced(Join, xs) == Balanced(Join, ys)
    ensures xs == ys
    decreases |xs|
  {
    if |xs| > 1 {
      var half := |xs| / 2;
      BalancedInjective(xs[..half], ys[..half]);
      BalancedInjective(xs[half..], ys[half..]);
      assert xs == xs[..half] + xs[half..] && ys == ys[..half] + ys[half..];
    }
  }

  lemma FirstLevelInjective(xs: seq<Tree>, ys: seq<Tree>, width: nat)
    requires width <= |xs| <= 2 * width && |xs| == |ys|
    requires FirstLevel(Join, xs, width) == FirstLevel(Join, ys, width)
    ensures xs == ys
  {
    hide Pairs;
    var kept := 2 * width - |xs|;
    var l, m := FirstLevel(Join, xs, width), FirstLevel(Join, ys, width);
    assert l[..kept] == xs[..kept] && m[..kept] == ys[..kept];
    assert l[kept..] == Pairs(Join, xs[kept..]) && m[kept..] == Pairs(Join, ys[kept..]);
    PairsInjective(xs[kept..], ys[kept..]);
    assert xs == xs[..kept] + xs[kept..] && ys == ys[..kept] + ys[kept..];
  }

  /** The root stands for all its transactions if and only if the count leaves no long gap. */
  lemma RootIsInjectiveIff(count: nat)
    requires count > 0
    ensures Gapless(count - 1) <==>
            forall xs: seq<Tree>, ys: seq<Tree> | |xs| == count && |ys| == count ::
              Root(Join, xs) == Root(Join, ys) ==> xs == ys
  {
    hide Width, Gapless, Root, MerkleRoot, LostLeaf;
    if Gapless(count - 1) {
      forall xs: seq<Tree>, ys: seq<Tree> | |xs| == count && |ys| == count && Root(Join, xs) == Root(Join, ys)
        ensures xs == ys
      {
        RootIsMerkleRoot(Join, xs);
        RootIsMerkleRoot(Join, ys);
        MerkleRootInjective(xs, ys);
      }
    } else {
      var xs := seq(count, i => Leaf(0));
      var i := LostLeaf(count);
      LostLeafIsLost(Join, xs, Leaf(1));
      assert xs[i := Leaf(1)][i] != xs[i];
    }
  }

  lemma MerkleRootInjective(xs: seq<Tree>, ys: seq<Tree>)
    requires 0 < |xs| == |ys| && MerkleRoot(Join, xs) == MerkleRoot(Join, ys)
    ensures xs == ys
  {
    hide FirstLevel, Balanced;
    if |xs| > 1 {
      var width := TopBit(|xs| - 1);
      TopBitIsPowerOfTwo(|xs| - 1);
      BalancedInjective(FirstLevel(Join, xs, width), FirstLevel(Join, ys, width));
      FirstLevelInjective(xs, ys, width);
    }
  }

  /** A hash that takes only one value gives that value as the root of two transactions and more. */
  lemma {:induction false} ReduceOfConstant<T>(H: (T, T) -> T, level: seq<T>, c: T)
    requires HalvesToTwo(|level|) && forall a, b :: H(a, b) == c
    ensures Reduce(H, level) == c
    decreases |level|
  {
    if |level| > 2 {
      ReduceOfConstant(H, Pairs(H, level), c);
    }
  }

  lemma RootOfConstant<T>(H: (T, T) -> T, leaves: seq<T>, c: T)
    requires |leaves| > 0 && leaves[0] == c && forall a, b :: H(a, b) == c
    ensures Root(H, leaves) == c
  {
    hide Width, FirstLevel, Reduce;
    if |leaves| > 2 {
      WidthFacts(|leaves| - 1);
      ReduceOfConstant(H, FirstLevel(H, leaves, Width(|leaves| - 1)), c);
    }
  }

  // ----- the shape of the Merkle root

  /** The leaves of a tree from left to right, each with its depth. */
  function Fringe(t: Tree, depth: nat): seq<(nat, nat)> {
    match t
    case Leaf(id) => [(id, depth)]
    case Node(l, r) => Fringe(l, depth + 1) + Fringe(r, depth + 1)
  }

  function FringeOf(ts: seq<Tree>, depth: nat): seq<(nat, nat)> {
    if ts == [] then [] else Fringe(ts[0], depth) + FringeOf(ts[1..], depth)
  }

  lemma {:induction false} FringeConcat(xs: seq<Tree>, ys: seq<Tree>, depth: nat)
    ensures FringeOf(xs + ys, depth) == FringeOf(xs, depth) + FringeOf(ys, depth)
    decreases |xs|
  {
    if xs == [] {
      assert xs + ys == ys;
    } else {
      assert (xs + ys)[1..] == xs[1..] + ys;
      FringeConcat(xs[1..], ys, depth);
    }
  }

  lemma {:induction false} FringeOfPairs(xs: seq<Tree>, depth: nat)
    requires |xs| % 2 == 0
    ensures FringeOf(Pairs(Join, xs), depth) == FringeOf(xs, depth + 1)
    decreases |xs|
  {
    if xs != [] {
      FringeOfPairs(xs[2..], depth);
      assert xs[1..][1..] == xs[2..];
      assert Pairs(Join, xs)[1..] == Pairs(Join, xs[2..]);
    }
  }

  function TwoTo(k: nat): nat {
    if k == 0 then 1 else 2 * TwoTo(k - 1)
  }

  lemma {:induction false} FringeOfBalanced(xs: seq<Tree>, k: nat, depth: nat)
    requires |xs| == TwoTo(k)
    ensures PowerOfTwo(|xs|) && Fringe(Balanced(Join, xs), depth) == FringeOf(xs, depth + k)
    decreases k
  {
    if k == 0 {
      assert xs[1..] == [];
    } else {
      var half := |xs| / 2;
      FringeOfBalanced(xs[..half], k - 1, depth + 1);
      FringeOfBalanced(xs[half..], k - 1, depth + 1);
      FringeConcat(xs[..half], xs[half..], depth + k);
      assert xs == xs[..half] + xs[half..];
    }
  }

  lemma {:induction false} TwoToIsTopBit(k: nat, c: nat)
    requires TwoTo(k) <= c < 2 * TwoTo(k)
    ensures TopBit(c) == TwoTo(k)
  {
    if k > 0 {
      TwoToIsTopBit(k - 1, c / 2);
    }
  }

  /** Between 2^k and 2^(k+1) leaves keep their order; the first ones are k levels down, the paired ones k + 1. */
  lemma MerkleRootShape(leaves: seq<Tree>, k: nat)
    requires TwoTo(k) < |leaves| <= 2 * TwoTo(k)
    ensures var kept := 2 * TwoTo(k) - |leaves|;
            Fringe(MerkleRoot(Join, leaves), 0) == FringeOf(leaves[..kept], k) + FringeOf(leaves[kept..], k + 1)
  {
    hide Pairs, Balanced, TopBit;
    TwoToIsTopBit(k, |leaves| - 1);
    TopBitIsPowerOfTwo(|leaves| - 1);
    var kept := 2 * TwoTo(k) - |leaves|;
    FringeOfBalanced(FirstLevel(Join, leaves, TwoTo(k)), k, 0);
    FringeConcat(leaves[..kept], Pairs(Join, leaves[kept..]), k);
    FringeOfPairs(leaves[kept..], k);
  }

  lemma WidthOfTwo()
    ensures Width(2) == 2
  {
    hide Width;
    WidthStep(2);
    WidthStep(1);
    WidthOfZero();
  }

  lemma FirstLevelOfThree<T>(H: (T, T) -> T, a: T, b: T, c: T)
    ensures FirstLevel(H, [a, b, c], 2) == [a, H(b, c)]
  {
    assert [a, b, c][1..] == [b, c];
    assert Pairs(H, [b, c]) == [H(b, c)];
  }

  /** Three transactions. */
  lemma RootOfThree<T>(H: (T, T) -> T, a: T, b: T, c: T)
    ensures Root(H, [a, b, c]) == H(a, H(b, c))
  {
    hide Width, FirstLevel, HalvesToTwo;
    WidthOfTwo();
    WidthFacts(2);
    FirstLevelOfThree(H, a, b, c);
    assert Root(H, [a, b, c]) == Reduce(H, [a, H(b, c)]);
  }

  // ----- the root depends on the values of the hash only

  lemma {:induction false} SamePairs<T(!new)>(H: (T, T) -> T, G: (T, T) -> T, xs: seq<T>)
    requires forall a, b :: H(a, b) == G(a, b)
    ensures Pairs(H, xs) == Pairs(G, xs)
    decreases |xs|
  {
    if |xs| >= 2 {
      SamePairs(H, G, xs[2..]);
    }
  }

  lemma {:induction false} SameBalanced<T(!new)>(H: (T, T) -> T, G: (T, T) -> T, xs: seq<T>)
    requires PowerOfTwo(|xs|) && forall a, b :: H(a, b) == G(a, b)
    ensures Balanced(H, xs) == Balanced(G, xs)
    decreases |xs|
  {
    if |xs| > 1 {
      SameBalanced(H, G, xs[..|xs| / 2]);
      SameBalanced(H, G, xs[|xs| / 2..]);
    }
  }

  lemma SameMerkleRoot<T(!new)>(H: (T, T) -> T, G: (T, T) -> T, leaves: seq<T>)
    requires |leaves| > 0 && forall a, b :: H(a, b) == G(a, b)
    ensures MerkleRoot(H, leaves) == MerkleRoot(G, leaves)
  {
    hide Pairs, Balanced;
    if |leaves| > 1 {
      var width := TopBit(|leaves| - 1);
      TopBitIsPowerOfTwo(|leaves| - 1);
      SamePairs(H, G, leaves[2 * width - |leaves|..]);
      SameBalanced(H, G, FirstLevel(H, leaves, width));
    }
  }

  // ----- tree_hash

  method WidthOf(count: nat) returns (cnt: nat)
    requires count > 2
    ensures cnt == Width(count - 1)
  {
    cnt := count - 1;
    var i := 1;
    ghost var turn := 0;
    while i < 8
      invariant (turn, i) in {(0, 1), (1, 2), (2, 4), (3, 8)}
      invariant turn == 0 ==> cnt == count - 1
      invariant turn == 1 ==> cnt == Smear1(count - 1)
      invariant turn == 2 ==> cnt == Smear2(count - 1)
      invariant turn == 3 ==> cnt == Smear(count - 1)
      decreases 8 - i
    {
      cnt := Or(cnt, Shr(cnt, i));
      i := i * 2;
      turn := turn + 1;
    }
    cnt := AndNot(cnt, Shr(cnt, 1));
  }

  /** The kept leaves copied, the others hashed in pairs: the leaf index ends exactly at the count. */
  method FillFirstLevel<T>(H: (T, T) -> T, hashes: seq<T>, cnt: nat) returns (ints: array<T>)
    requires 0 < cnt <= |hashes| <= 2 * cnt
    ensures fresh(ints) && ints[..] == FirstLevel(H, hashes, cnt)
  {
    hide Pairs;
    var count := |hashes|;
    ints := new T[cnt](_ => hashes[0]);
    var kept := 2 * cnt - count;
    ghost var paired := hashes[kept..];
    var k := 0;
    while k < kept
      invariant k <= kept
      invariant ints[..k] == hashes[..k]
    {
      ints[k] := hashes[k];
      k := k + 1;
    }
    var i, j := kept, kept;
    while j < cnt
      invariant kept <= j <= cnt && i == kept + 2 * (j - kept)
      invariant ints[..j] == FirstLevel(H, hashes, cnt)[..j]
    {
      PairsAt(H, paired, j - kept);
      ints[j] := H(hashes[i], hashes[i + 1]);
      i, j := i + 2, j + 1;
    }
    assert i == count;
  }

  /** tree_hash: the levels overwrite one array, each node landing at or before the pair it hashes. */
  method TreeHashOf<T>(H: (T, T) -> T, hashes: seq<T>) returns (rootHash: T)
    requires |hashes| > 0
    ensures rootHash == Root(H, hashes)
  {
    hide Pairs, Width, FirstLevel;
    var count := |hashes|;
    if count == 1 {
      return hashes[0];
    }
    if count == 2 {
      return H(hashes[0], hashes[1]);
    }
    var cnt := WidthOf(count);
    WidthFacts(count - 1);
    var ints := FillFirstLevel(H, hashes, cnt);
    ghost var level := FirstLevel(H, hashes, cnt);
    while cnt > 2
      invariant 2 <= cnt <= ints.Length && |level| == cnt && HalvesToTwo(cnt)
      invariant ints[..cnt] == level
      invariant Reduce(H, level) == Root(H, hashes)
    {
      cnt := cnt / 2;
      HalveInPlace(H, ints, cnt, level);
      level := Pairs(H, level);
    }
    rootHash := H(ints[0], ints[1]);
  }

  /** One level: the pair at 2j is hashed into place j, before any later pair is touched. */
  method HalveInPlace<T>(H: (T, T) -> T, ints: array<T>, cnt: nat, ghost level: seq<T>)
    requires |level| <= ints.Length && cnt == |level| / 2
    requires ints[..|level|] == level
    modifies ints
    ensures ints[..cnt] == Pairs(H, level)
  {
    var i, j := 0, 0;
    while j < cnt
      invariant i == 2 * j && j <= cnt
      invariant ints[..j] == Pairs(H, level)[..j]
      invariant forall k :: i <= k < |level| ==> ints[k] == level[k]
    {
      PairsAt(H, level, j);
      ints[j] := H(ints[i], ints[i + 1]);
      i, j := i + 2, j + 1;
    }
  }
}
