/** The shrubs accumulator (hydra-toolkit/src/shurbstree.rs): a whitelist of leaves kept as
    one Merkle node per level. `Node` and `Roots` are the reference the rest is proved against. The
    hash is an arbitrary function throughout. */
module ShrubsTree {
  import opened Binary

  /** An element of the BLS12-381 scalar field, by its canonical representative. */
  datatype Scalar = Fr(repr: nat)

  /** The two-to-one Poseidon compression. */
  type Hash = (Scalar, Scalar) -> Scalar

  // ----- reference tree

  /** The node at position `pos` of level `level` above `leaves`. */
  function Node(h: Hash, leaves: seq<Scalar>, level: nat, pos: nat): Scalar
    requires pos < Half(|leaves|, level)
  {
    if level == 0 then leaves[pos]
    else h(Node(h, leaves, level - 1, 2 * pos), Node(h, leaves, level - 1, 2 * pos + 1))
  }

  /** The Merkle hash of a block of 2^level leaves. */
  function MerkleHash(h: Hash, level: nat, block: seq<Scalar>): Scalar
    requires |block| == Pow2(level)
    decreases level
  {
    if level == 0 then block[0]
    else
      var half := Pow2(level - 1);
      h(MerkleHash(h, level - 1, block[..half]), MerkleHash(h, level - 1, block[half..]))
  }

  /** The position, on its level, of the node the root list keeps. */
  function RootPos(n: nat, level: nat): (p: nat)
    requires level < Levels(n)
    ensures p < Half(n, level) && p % 2 == 0 && Half(n, level) <= p + 2
  {
    HalfPositive(n, level);
    LastEven(Half(n, level))
  }

  /** The root list over `leaves`: on every level, the last node at an even position. */
  function Roots(h: Hash, leaves: seq<Scalar>): (r: seq<Scalar>)
    ensures |r| == Levels(|leaves|)
  {
    RootsFrom(h, leaves, 0)
  }

  function RootsFrom(h: Hash, leaves: seq<Scalar>, level: nat): (r: seq<Scalar>)
    requires level <= Levels(|leaves|)
    ensures |r| == Levels(|leaves|) - level
    decreases Levels(|leaves|) - level
  {
    if level == Levels(|leaves|) then []
    else [Node(h, leaves, level, RootPos(|leaves|, level))] + RootsFrom(h, leaves, level + 1)
  }

  lemma {:induction false} RootsFromAt(h: Hash, leaves: seq<Scalar>, level: nat, k: nat)
    requires level <= k < Levels(|leaves|)
    ensures RootsFrom(h, leaves, level)[k - level] == Node(h, leaves, k, RootPos(|leaves|, k))
    decreases k - level
  {
    if level < k {
      RootsFromAt(h, leaves, level + 1, k);
    }
  }

  lemma RootAt(h: Hash, leaves: seq<Scalar>, k: nat)
    requires k < Levels(|leaves|)
    ensures Roots(h, leaves)[k] == Node(h, leaves, k, RootPos(|leaves|, k))
  {
    RootsFromAt(h, leaves, 0, k);
  }

  /** One level up: hash the complete pairs, drop an odd last element. */
  function Pairs(h: Hash, layer: seq<Scalar>): (r: seq<Scalar>)
    ensures |r| == |layer| / 2
  {
    if |layer| < 2 then [] else [h(layer[0], layer[1])] + Pairs(h, layer[2..])
  }

  lemma {:induction false} PairAt(h: Hash, layer: seq<Scalar>, i: nat)
    requires i < |layer| / 2
    ensures Pairs(h, layer)[i] == h(layer[2 * i], layer[2 * i + 1])
  {
    if i > 0 {
      PairAt(h, layer[2..], i - 1);
    }
  }

  /** All nodes of a level. */
  function Layer(h: Hash, leaves: seq<Scalar>, level: nat): (r: seq<Scalar>)
    ensures |r| == Half(|leaves|, level)
  {
    if level == 0 then leaves else Pairs(h, Layer(h, leaves, level - 1))
  }

  lemma {:induction false} LayerAt(h: Hash, leaves: seq<Scalar>, level: nat, pos: nat)
    requires pos < Half(|leaves|, level)
    ensures Layer(h, leaves, level)[pos] == Node(h, leaves, level, pos)
    decreases level
  {
    if level > 0 {
      PairAt(h, Layer(h, leaves, level - 1), pos);
      LayerAt(h, leaves, level - 1, 2 * pos);
      LayerAt(h, leaves, level - 1, 2 * pos + 1);
    }
  }

  // ----- facts about the reference tree

  lemma {:induction false} NodeAbovePairs(h: Hash, leaves: seq<Scalar>, level: nat, pos: nat)
    requires pos < Half(|leaves|, level + 1)
    ensures pos < Half(|leaves| / 2, level)
    ensures Node(h, Pairs(h, leaves), level, pos) == Node(h, leaves, level + 1, pos)
    decreases level
  {
    HalfOfHalf(|leaves|, level);
    if level == 0 {
      PairAt(h, leaves, pos);
    } else {
      NodeAbovePairs(h, leaves, level - 1, 2 * pos);
      NodeAbovePairs(h, leaves, level - 1, 2 * pos + 1);
    }
  }

  lemma {:induction false} NodeOfPrefix(h: Hash, leaves: seq<Scalar>, more: seq<Scalar>, level: nat, pos: nat)
    requires pos < Half(|leaves|, level)
    ensures pos < Half(|leaves + more|, level)
    ensures Node(h, leaves + more, level, pos) == Node(h, leaves, level, pos)
    decreases level
  {
    HalfMonotone(|leaves|, |leaves + more|, level);
    if level > 0 {
      NodeOfPrefix(h, leaves, more, level - 1, 2 * pos);
      NodeOfPrefix(h, leaves, more, level - 1, 2 * pos + 1);
    }
  }

  /** The recursion of `create_batch_devices` builds the reference list. */
  lemma {:induction false} RootsUnfold(h: Hash, leaves: seq<Scalar>)
    requires leaves != []
    ensures Roots(h, leaves) == [leaves[LastEven(|leaves|)]] + Roots(h, Pairs(h, leaves))
  {
    RootsFromAbovePairs(h, leaves, 0);
    assert Roots(h, leaves) == [Node(h, leaves, 0, RootPos(|leaves|, 0))] + RootsFrom(h, leaves, 1);
  }

  lemma SameRootAbovePairs(h: Hash, leaves: seq<Scalar>, level: nat)
    requires leaves != [] && level < Levels(|leaves| / 2)
    ensures Node(h, leaves, level + 1, RootPos(|leaves|, level + 1))
         == Node(h, Pairs(h, leaves), level, RootPos(|leaves| / 2, level))
  {
    HalfOfHalf(|leaves|, level);
    NodeAbovePairs(h, leaves, level, RootPos(|leaves|, level + 1));
  }

  lemma {:induction false} RootsFromAbovePairs(h: Hash, leaves: seq<Scalar>, level: nat)
    requires leaves != [] && level <= Levels(|leaves| / 2)
    ensures RootsFrom(h, leaves, level + 1) == RootsFrom(h, Pairs(h, leaves), level)
    decreases Levels(|leaves| / 2) - level
  {
    if level < Levels(|leaves| / 2) {
      SameRootAbovePairs(h, leaves, level);
      RootsFromAbovePairs(h, leaves, level + 1);
    }
  }

  /** The Merkle hash of the 2^level leaves from `start` on. */
  function BlockHash(h: Hash, leaves: seq<Scalar>, level: nat, start: nat): Scalar
    requires start + Pow2(level) <= |leaves|
  {
    MerkleHash(h, level, leaves[start..start + Pow2(level)])
  }

  lemma BlockHashSplit(h: Hash, leaves: seq<Scalar>, level: nat, start: nat)
    requires level > 0 && start + Pow2(level) <= |leaves|
    ensures BlockHash(h, leaves, level, start)
         == h(BlockHash(h, leaves, level - 1, start), BlockHash(h, leaves, level - 1, start + Pow2(level - 1)))
  {
    var block, w := leaves[start..start + Pow2(level)], Pow2(level - 1);
    assert block[..w] == leaves[start..start + w];
    assert block[w..] == leaves[start + w..start + w + w];
  }

  /** A node is the Merkle hash of exactly the leaves of its block. */
  lemma {:induction false} NodeIsBlockHash(h: Hash, leaves: seq<Scalar>, level: nat, pos: nat)
    requires pos < Half(|leaves|, level)
    ensures Start(level, pos) + Pow2(level) <= |leaves|
    ensures Node(h, leaves, level, pos) == BlockHash(h, leaves, level, Start(level, pos))
    decreases level
  {
    BlockFits(|leaves|, level, pos);
    if level > 0 {
      StartNext(level - 1, 2 * pos);
      NodeIsBlockHash(h, leaves, level - 1, 2 * pos);
      NodeIsBlockHash(h, leaves, level - 1, 2 * pos + 1);
      BlockHashSplit(h, leaves, level, Start(level, pos));
    }
  }

  /** Shape of the list: floor(log2 n) + 1 roots, each hashing the block of its last even node. */
  lemma {:induction false} RootsShape(h: Hash, leaves: seq<Scalar>, k: nat, start: nat)
    requires k < |Roots(h, leaves)|
    requires start == Start(k, RootPos(|leaves|, k))
    ensures Pow2(|Roots(h, leaves)| - 1) <= |leaves| < Pow2(|Roots(h, leaves)|)
    ensures start + Pow2(k) <= |leaves| < start + 3 * Pow2(k)
    ensures Roots(h, leaves)[k] == MerkleHash(h, k, leaves[start..start + Pow2(k)])
  {
    LevelsIsLog(|leaves|);
    RootAt(h, leaves, k);
    LastBlockNearEnd(|leaves|, k, RootPos(|leaves|, k));
    NodeIsBlockHash(h, leaves, k, RootPos(|leaves|, k));
  }

  /** At most two blocks of a level's width follow a node that is last or last but one. */
  lemma LastBlockNearEnd(n: nat, level: nat, pos: nat)
    requires Half(n, level) <= pos + 2
    ensures n < Start(level, pos) + 3 * Pow2(level)
  {
    HalfInBlock(n, level);
    if Half(n, level) < pos + 2 {
      StartMonotone(level, Half(n, level), pos + 2);
    }
    StartNext(level, pos);
    StartNext(level, pos + 1);
  }
}
