/** What the stored paths prove against the root list they were searched in. */
module ShrubsMembership {
  import opened Binary
  import opened Wrappers
  import opened ShrubsTree
  import opened ShrubsOwner
  import opened ShrubsInterval
  import opened Circuit
  import opened ShrubsPath

  /** The circuit's membership clause on a stored path. */
  predicate Accepted(h: Hash, root: seq<Scalar>, leaf: Scalar, p: PathTag) {
    match p
    case NoPath => Accepts(h, root, leaf, None, None)
    case PathTag(path, tag) => Accepts(h, root, leaf, Some(path), Some(tag))
  }

  function PathLength(p: PathTag): nat {
    if p.NoPath? then 0 else |p.path|
  }

  /** A path that lands on the root of its own length, or no path and the leaf is the first root. */
  ghost predicate Tight(h: Hash, root: seq<Scalar>, leaf: Scalar, p: PathTag) {
    && PathLength(p) < |root|
    && match p
       case NoPath => leaf == root[0]
       case PathTag(path, tag) => |path| == |tag| && Fold(h, leaf, path, tag) == root[|path|]
  }

  lemma TightIsAccepted(h: Hash, root: seq<Scalar>, leaf: Scalar, p: PathTag)
    requires Tight(h, root, leaf, p)
    ensures Accepted(h, root, leaf, p)
  {
  }

  // ----- path correctness

  /** The interval of a leaf is the block below the root of its level. */
  lemma IntervalIsOwned(i: nat, n: nat)
    requires i < n
    ensures var d, start := IntervalLevel(i, n), IntervalStart(i, n);
            && Covers(n, d, i) && start == Start(d, RootPos(n, d))
            && start <= i < start + Pow2(d) <= n
  {
    IntervalIsLastBlock(i, n);
    IntervalHolds(i, n);
  }

  lemma IntervalIsTopped(h: Hash, leaves: seq<Scalar>, i: nat)
    requires i < |leaves|
    ensures BlockTopped(h, Roots(h, leaves), leaves, 0, IntervalLevel(i, |leaves|), IntervalStart(i, |leaves|))
  {
    IntervalIsOwned(i, |leaves|);
    assert Roots(h, leaves)[0..] == Roots(h, leaves);
    BlockIsTopped(h, Roots(h, leaves), leaves, 0, IntervalLevel(i, |leaves|), IntervalStart(i, |leaves|));
  }

  /** `layer` is block `pos` of 2^d nodes on level `j`. */
  ghost predicate IsBlock(h: Hash, leaves: seq<Scalar>, layer: seq<Scalar>, j: nat, d: nat, pos: nat) {
    && Start(d, pos) + Pow2(d) <= Half(|leaves|, j)
    && layer == Layer(h, leaves, j)[Start(d, pos)..Start(d, pos) + Pow2(d)]
  }

  lemma BlockAbove(h: Hash, leaves: seq<Scalar>, layer: seq<Scalar>, j: nat, d: nat, pos: nat)
    requires d > 0 && IsBlock(h, leaves, layer, j, d, pos)
    ensures Start(d, pos) == 2 * Start(d - 1, pos)
    ensures IsBlock(h, leaves, Pairs(h, layer), j + 1, d - 1, pos)
  {
    StartDoubles(d - 1, pos);
    PairsOfBlock(h, Layer(h, leaves, j), Start(d - 1, pos), Pow2(d - 1));
  }

  lemma {:induction false} BlockNode(h: Hash, leaves: seq<Scalar>, layer: seq<Scalar>, j: nat, d: nat, pos: nat, v: nat)
    requires IsBlock(h, leaves, layer, j, d, pos) && v < |layer|
    ensures Start(d, pos) + v < Half(|leaves|, j)
    ensures layer[v] == Node(h, leaves, j, Start(d, pos) + v)
  {
    SliceNode(h, leaves, j, Start(d, pos), Start(d, pos) + Pow2(d), v);
  }

  lemma SliceNode(h: Hash, leaves: seq<Scalar>, j: nat, from: nat, to: nat, v: nat)
    requires from + v < to <= Half(|leaves|, j)
    ensures Layer(h, leaves, j)[from..to][v] == Node(h, leaves, j, from + v)
  {
    LayerAt(h, leaves, j, from + v);
  }

  lemma FirstRootIsLeaf(h: Hash, leaves: seq<Scalar>, k: nat, pos: nat)
    requires leaves != [] && pos < Half(|leaves|, k)
    ensures Roots(h, leaves)[0] == leaves[RootPos(|leaves|, 0)]
    ensures Node(h, leaves, k, pos) == Roots(h, leaves)[0] <==> SameValue(h, leaves, k, pos, 0, RootPos(|leaves|, 0))
  {
    RootAt(h, leaves, 0);
  }

  lemma {:induction false} BlockMissesFirstRoot(h: Hash, leaves: seq<Scalar>, layer: seq<Scalar>, j: nat, d: nat,
                                                pos: nat, v: nat)
    requires leaves != [] && IsBlock(h, leaves, layer, j, d, pos) && v < |layer|
    requires LevelsApart(h, leaves)
    requires j == 0 ==> layer[v] != Roots(h, leaves)[0]
    ensures MissesFirstRoot(h, Roots(h, leaves), layer, v, d)
    decreases d
  {
    if d > 0 {
      BlockNode(h, leaves, layer, j, d, pos, v);
      FirstRootIsLeaf(h, leaves, j, Start(d, pos) + v);
      BlockAbove(h, leaves, layer, j, d, pos);
      BlockMissesFirstRoot(h, leaves, Pairs(h, layer), j + 1, d - 1, pos, v / 2);
    }
  }

  /** The interval of leaf `i`. */
  function BlockAround(leaves: seq<Scalar>, i: nat): seq<Scalar>
    requires i < |leaves|
  {
    IntervalHolds(i, |leaves|);
    leaves[IntervalStart(i, |leaves|)..IntervalStart(i, |leaves|) + Pow2(IntervalLevel(i, |leaves|))]
  }

  lemma AroundIsBlock(h: Hash, leaves: seq<Scalar>, i: nat)
    requires i < |leaves|
    ensures var d := IntervalLevel(i, |leaves|);
            && Covers(|leaves|, d, i) && IsBlock(h, leaves, BlockAround(leaves, i), 0, d, RootPos(|leaves|, d))
            && IntervalStart(i, |leaves|) == Start(d, RootPos(|leaves|, d))
    ensures IntervalStart(i, |leaves|) <= i < IntervalStart(i, |leaves|) + |BlockAround(leaves, i)|
    ensures BlockAround(leaves, i)[i - IntervalStart(i, |leaves|)] == leaves[i]
  {
    IntervalIsOwned(i, |leaves|);
  }

  lemma AroundIsTopped(h: Hash, leaves: seq<Scalar>, i: nat)
    requires i < |leaves|
    ensures Topped(h, Roots(h, leaves), BlockAround(leaves, i), 0, IntervalLevel(i, |leaves|))
  {
    IntervalIsTopped(h, leaves, i);
  }

  lemma {:induction false} OwningIntervalIs(leaves: seq<Scalar>, leaf: Scalar, i: nat)
    requires leaf in leaves && i == FirstIndex(leaves, leaf)
    ensures IntervalStart(i, |leaves|) <= i < IntervalStart(i, |leaves|) + |BlockAround(leaves, i)|
    ensures OwningInterval(leaves, leaf)
         == if IntervalLevel(i, |leaves|) == 0 then None
            else Some((BlockAround(leaves, i), i - IntervalStart(i, |leaves|)))
  {
    IntervalHolds(i, |leaves|);
  }

  /** The path search, with the interval spelled out. */
  lemma DevicePathClimbs(h: Hash, root: seq<Scalar>, leaves: seq<Scalar>, leaf: Scalar, i: nat)
    requires leaf in leaves && root != [] && i == FirstIndex(leaves, leaf)
    ensures IntervalStart(i, |leaves|) <= i < IntervalStart(i, |leaves|) + |BlockAround(leaves, i)|
    ensures DevicePathTag(h, root, leaves, leaf)
         == if IntervalLevel(i, |leaves|) == 0 then NoPath
            else ClimbPath(h, root, BlockAround(leaves, i), 0, i - IntervalStart(i, |leaves|))
  {
    OwningIntervalIs(leaves, leaf, i);
  }

  /** The block a leaf is searched in, with the root that tops it. */
  lemma SearchedBlock(h: Hash, leaves: seq<Scalar>, leaf: Scalar)
    returns (i: nat, block: seq<Scalar>, d: nat, pos: nat, v: nat)
    requires leaf in leaves
    ensures i == FirstIndex(leaves, leaf)
    ensures d < Levels(|leaves|) && pos == RootPos(|leaves|, d) && Covers(|leaves|, d, i)
    ensures v < |block| && i == Start(d, pos) + v && block[v] == leaf
    ensures IsBlock(h, leaves, block, 0, d, pos) && Topped(h, Roots(h, leaves), block, 0, d)
    ensures DevicePathTag(h, Roots(h, leaves), leaves, leaf)
         == if d == 0 then NoPath else ClimbPath(h, Roots(h, leaves), block, 0, v)
  {
    i := FirstIndex(leaves, leaf);
    AroundIsBlock(h, leaves, i);
    AroundIsTopped(h, leaves, i);
    DevicePathClimbs(h, Roots(h, leaves), leaves, leaf, i);
    d := IntervalLevel(i, |leaves|);
    pos := RootPos(|leaves|, d);
    block := BlockAround(leaves, i);
    v := i - IntervalStart(i, |leaves|);
  }

  /** For any hash, what the verifier stores for a listed leaf lands on a root of the list, whose
      level is the path's length. */
  lemma DevicePathLandsOnRoot(h: Hash, leaves: seq<Scalar>, leaf: Scalar)
    requires leaf in leaves
    ensures LandsOnRoot(h, Roots(h, leaves), leaf, 0, DevicePathTag(h, Roots(h, leaves), leaves, leaf))
  {
    var i, block, d, pos, v := SearchedBlock(h, leaves, leaf);
    if d > 0 {
      ClimbLandsOnRoot(h, Roots(h, leaves), block, 0, d, v);
    }
  }

  /** With levels apart, a leaf other than the first root has a path to be found. */
  lemma LeafIsFound(h: Hash, leaves: seq<Scalar>, i: nat, block: seq<Scalar>, d: nat, pos: nat, v: nat)
    requires leaves != [] && 0 < d && pos < Half(|leaves|, d) && IsBlock(h, leaves, block, 0, d, pos) && v < |block|
    requires Topped(h, Roots(h, leaves), block, 0, d) && LevelsApart(h, leaves)
    ensures ClimbPath(h, Roots(h, leaves), block, 0, v).PathTag? <==> block[v] != Roots(h, leaves)[0]
  {
    ClimbCases(h, Roots(h, leaves), block, 0, d, v);
    if block[v] != Roots(h, leaves)[0] {
      BlockMissesFirstRoot(h, leaves, block, 0, d, pos, v);
      ClimbFinds(h, Roots(h, leaves), block, 0, d, v);
    }
  }

  /** With levels apart, every listed leaf holds a path that the circuit accepts, and none exactly
      when the leaf is the first root. Equal leaves are allowed. */
  lemma {:induction false} DevicePathTight(h: Hash, leaves: seq<Scalar>, leaf: Scalar)
    requires leaf in leaves && LevelsApart(h, leaves)
    ensures Tight(h, Roots(h, leaves), leaf, DevicePathTag(h, Roots(h, leaves), leaves, leaf))
    ensures DevicePathTag(h, Roots(h, leaves), leaves, leaf).NoPath? <==> leaf == Roots(h, leaves)[0]
  {
    DevicePathLandsOnRoot(h, leaves, leaf);
    var i, block, d, pos, v := SearchedBlock(h, leaves, leaf);
    if d > 0 {
      LeafIsFound(h, leaves, i, block, d, pos, v);
    } else {
      FirstRootIsLeaf(h, leaves, 0, i);
    }
  }
}
