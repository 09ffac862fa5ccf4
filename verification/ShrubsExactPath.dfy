/** Which path the verifier stores, sibling by sibling: the climb from the leaf's first occurrence up
    to the first root it meets. With repeated leaves that root may lie below the owner; with distinct
    nodes it is the owner. */
module ShrubsExactPath {
  import opened Binary
  import opened ShrubsTree
  import opened ShrubsOwner
  import opened ShrubsInterval
  import opened ShrubsPath
  import opened ShrubsMembership

  // ----- the first root met

  /** The node above leaf `i` on level `k` is complete and has the value of that level's root. */
  predicate MeetsRoot(h: Hash, leaves: seq<Scalar>, i: nat, k: nat) {
    k < Levels(|leaves|) && SameValue(h, leaves, k, Half(i, k), k, RootPos(|leaves|, k))
  }

  /** The least such level, from `k` on; the owner's level is one. */
  function MeetLevel(h: Hash, leaves: seq<Scalar>, i: nat, k: nat): (m: nat)
    requires i < |leaves| && k <= OwnerLevel(i, |leaves|)
    ensures k <= m <= OwnerLevel(i, |leaves|)
    ensures k < m ==> !MeetsRoot(h, leaves, i, k)
    decreases OwnerLevel(i, |leaves|) - k
  {
    if k == OwnerLevel(i, |leaves|) || MeetsRoot(h, leaves, i, k) then k else MeetLevel(h, leaves, i, k + 1)
  }

  lemma OwnerMeetsRoot(h: Hash, leaves: seq<Scalar>, i: nat)
    requires i < |leaves|
    ensures MeetsRoot(h, leaves, i, OwnerLevel(i, |leaves|))
  {
    OwnerIsLeast(i, |leaves|);
  }

  lemma {:induction false} MeetLevelIsFirst(h: Hash, leaves: seq<Scalar>, i: nat, k: nat, j: nat)
    requires i < |leaves| && k <= OwnerLevel(i, |leaves|) && k <= j <= MeetLevel(h, leaves, i, k)
    ensures MeetsRoot(h, leaves, i, j) <==> j == MeetLevel(h, leaves, i, k)
    decreases j - k
  {
    OwnerMeetsRoot(h, leaves, i);
    if k < j {
      MeetLevelIsFirst(h, leaves, i, k + 1, j);
    }
  }

  /** With distinct nodes the first root met is the owner. */
  lemma MeetsOwnerOnly(h: Hash, leaves: seq<Scalar>, i: nat)
    requires i < |leaves| && DistinctNodes(h, leaves)
    ensures MeetLevel(h, leaves, i, 0) == OwnerLevel(i, |leaves|)
  {
    var m := MeetLevel(h, leaves, i, 0);
    MeetLevelIsFirst(h, leaves, i, 0, m);
    OwnerIsLeast(i, |leaves|);
    assert Covers(|leaves|, m, i);
  }

  /** The siblings from leaf `i` up to the first root met; nothing when the leaf is the first root. */
  function SearchedPath(h: Hash, leaves: seq<Scalar>, i: nat): PathTag
    requires i < |leaves|
  {
    var k := MeetLevel(h, leaves, i, 0);
    if k == 0 then NoPath else StepsUp(h, leaves, i, k)
  }

  /** The siblings from leaf `i` up to its owner root. */
  function OwnerPath(h: Hash, leaves: seq<Scalar>, i: nat): PathTag
    requires i < |leaves|
  {
    var k := OwnerLevel(i, |leaves|);
    if k == 0 then NoPath else StepsUp(h, leaves, i, k)
  }

  // ----- climbing in a block

  lemma SiblingOffset(half: nat, v: nat, n: nat)
    requires v < n && n % 2 == 0
    ensures Sibling(v) < n && Sibling(2 * half + v) == 2 * half + Sibling(v)
    ensures (2 * half + v) / 2 == half + v / 2 && (2 * half + v) % 2 == v % 2
  {
  }

  /** The first `m` steps up from `v` in `a` and from `i` in `b` see the same siblings. */
  ghost predicate SameSteps(h: Hash, a: seq<Scalar>, v: nat, b: seq<Scalar>, i: nat, m: nat)
    decreases m
  {
    m > 0 ==>
      && Sibling(v) < |a| && Sibling(i) < |b| && a[Sibling(v)] == b[Sibling(i)] && v % 2 == i % 2
      && SameSteps(h, Pairs(h, a), v / 2, Pairs(h, b), i / 2, m - 1)
  }

  lemma {:induction false} SameStepsSamePath(h: Hash, a: seq<Scalar>, v: nat, b: seq<Scalar>, i: nat, m: nat)
    requires m > 0 && SameSteps(h, a, v, b, i, m)
    ensures StepsUp(h, a, v, m) == StepsUp(h, b, i, m)
    decreases m
  {
    if m > 1 {
      SameStepsSamePath(h, Pairs(h, a), v / 2, Pairs(h, b), i / 2, m - 1);
    }
  }

  /** The sibling inside a block is the sibling in the block's level. */
  lemma {:induction false} BlockSibling(h: Hash, leaves: seq<Scalar>, layer: seq<Scalar>, j: nat, d: nat, pos: nat,
                                        v: nat, p: nat)
    requires d > 0 && IsBlock(h, leaves, layer, j, d, pos) && v < |layer| && p == Start(d, pos) + v
    ensures Sibling(v) < |layer| && Sibling(p) < Half(|leaves|, j) && v % 2 == p % 2
    ensures layer[Sibling(v)] == Layer(h, leaves, j)[Sibling(p)]
  {
    StartDoubles(d - 1, pos);
    SiblingOffset(Start(d - 1, pos), v, |layer|);
  }

  lemma {:induction false} StepsUpInBlock(h: Hash, leaves: seq<Scalar>, layer: seq<Scalar>, j: nat, d: nat, pos: nat,
                                          v: nat, p: nat, m: nat)
    requires m <= d && IsBlock(h, leaves, layer, j, d, pos) && v < |layer| && p == Start(d, pos) + v
    ensures SameSteps(h, layer, v, Layer(h, leaves, j), p, m)
    decreases m
  {
    if m > 0 {
      BlockSibling(h, leaves, layer, j, d, pos, v, p);
      BlockStepNodes(h, leaves, layer, j, d, pos, v, p);
      StepsUpInBlock(h, leaves, Pairs(h, layer), j + 1, d - 1, pos, v / 2, p / 2, m - 1);
    }
  }

  lemma {:induction false} StepsUpLength(h: Hash, block: seq<Scalar>, d: nat, v: nat, m: nat)
    requires 0 < m <= d && v < |block| == Pow2(d)
    ensures PathLength(StepsUp(h, block, v, m)) == m && StepsUp(h, block, v, m).PathTag?
    decreases m
  {
    if m > 1 {
      StepsUpLength(h, Pairs(h, block), d - 1, v / 2, m - 1);
    }
  }

  lemma HalfOfOffset(a: nat, v: nat)
    ensures (2 * a + v) / 2 == a + v / 2
  {
  }

  /** The nodes on the way up from position `v` of a block, one level apart. */
  lemma {:induction false} BlockStepNodes(h: Hash, leaves: seq<Scalar>, layer: seq<Scalar>, j: nat, d: nat, pos: nat,
                                          v: nat, p: nat)
    requires d > 0 && IsBlock(h, leaves, layer, j, d, pos) && v < |layer| && p == Start(d, pos) + v
    ensures |layer| % 2 == 0 && v / 2 < |Pairs(h, layer)|
    ensures IsBlock(h, leaves, Pairs(h, layer), j + 1, d - 1, pos) && p / 2 == Start(d - 1, pos) + v / 2
    ensures p < Half(|leaves|, j) && layer[v] == Node(h, leaves, j, p)
    ensures p / 2 < Half(|leaves|, j + 1) && Pairs(h, layer)[v / 2] == Node(h, leaves, j + 1, p / 2)
  {
    BlockNode(h, leaves, layer, j, d, pos, v);
    BlockAbove(h, leaves, layer, j, d, pos);
    HalfOfOffset(Start(d - 1, pos), v);
    BlockNode(h, leaves, Pairs(h, layer), j + 1, d - 1, pos, v / 2);
  }

  // ----- meeting the root

  lemma RootValue(h: Hash, leaves: seq<Scalar>, i: nat, k: nat)
    requires k < Levels(|leaves|) && Half(i, k) < Half(|leaves|, k)
    ensures Node(h, leaves, k, Half(i, k)) == Roots(h, leaves)[k]
        <==> SameValue(h, leaves, k, Half(i, k), k, RootPos(|leaves|, k))
  {
    RootAt(h, leaves, k);
  }

  /** One step of the climb meets a root exactly at the level of the first meeting. */
  lemma StepMeets(h: Hash, leaves: seq<Scalar>, i: nat, j: nat, m: nat)
    requires LevelsApart(h, leaves) && i < |leaves| && m == MeetLevel(h, leaves, i, 0) && j < m
    ensures Half(i, j) < Half(|leaves|, j) && Half(i, j + 1) < Half(|leaves|, j + 1) && j + 1 < Levels(|leaves|)
    ensures Node(h, leaves, j, Half(i, j)) != Roots(h, leaves)[0]
    ensures Node(h, leaves, j + 1, Half(i, j + 1)) == Roots(h, leaves)[j + 1] <==> j + 1 == m
  {
    var n := |leaves|;
    OwnerIsLeast(i, n);
    CompleteBelow(i, n, j, OwnerLevel(i, n));
    CompleteBelow(i, n, j + 1, OwnerLevel(i, n));
    HalfPositive(n, j + 1);
    FirstRootIsLeaf(h, leaves, j, Half(i, j));
    MeetLevelIsFirst(h, leaves, i, 0, j);
    MeetLevelIsFirst(h, leaves, i, 0, j + 1);
    RootValue(h, leaves, i, j + 1);
  }

  /** The same, seen from inside a block. */
  lemma BlockStepMeets(h: Hash, leaves: seq<Scalar>, layer: seq<Scalar>, j: nat, d: nat, pos: nat,
                       v: nat, i: nat, m: nat)
    requires d > 0 && IsBlock(h, leaves, layer, j, d, pos) && v < |layer| && LevelsApart(h, leaves)
    requires i < |leaves| && Half(i, j) == Start(d, pos) + v && m == MeetLevel(h, leaves, i, 0) && j < m
    ensures |layer| % 2 == 0 && v / 2 < |Pairs(h, layer)| && j + 1 < Levels(|leaves|)
    ensures IsBlock(h, leaves, Pairs(h, layer), j + 1, d - 1, pos) && Half(i, j + 1) == Start(d - 1, pos) + v / 2
    ensures layer[v] != Roots(h, leaves)[0]
    ensures Pairs(h, layer)[v / 2] == Roots(h, leaves)[j + 1] <==> j + 1 == m
  {
    StepMeets(h, leaves, i, j, m);
    BlockStepNodes(h, leaves, layer, j, d, pos, v, Half(i, j));
  }

  lemma {:induction false} BlockMeets(h: Hash, leaves: seq<Scalar>, layer: seq<Scalar>, j: nat, d: nat, pos: nat,
                                      v: nat, i: nat, m: nat)
    requires d > 0 && IsBlock(h, leaves, layer, j, d, pos) && v < |layer|
    requires LevelsApart(h, leaves)
    requires i < |leaves| && Half(i, j) == Start(d, pos) + v
    requires m == MeetLevel(h, leaves, i, 0) && j < m <= j + d
    ensures MeetsRootAfter(h, Roots(h, leaves), layer, j, v, m - j)
    decreases d
  {
    BlockStepMeets(h, leaves, layer, j, d, pos, v, i, m);
    if j + 1 < m {
      BlockMeets(h, leaves, Pairs(h, layer), j + 1, d - 1, pos, v / 2, i, m);
    }
  }

  lemma LeafClimb(h: Hash, leaves: seq<Scalar>, i: nat, block: seq<Scalar>, d: nat, pos: nat, v: nat, m: nat)
    requires i < |leaves| && LevelsApart(h, leaves) && m == MeetLevel(h, leaves, i, 0) && 0 < m <= d
    requires IsBlock(h, leaves, block, 0, d, pos) && v < |block| && i == Start(d, pos) + v
    requires Topped(h, Roots(h, leaves), block, 0, d)
    ensures ClimbPath(h, Roots(h, leaves), block, 0, v) == StepsUp(h, leaves, i, m)
    ensures PathLength(StepsUp(h, leaves, i, m)) == m
  {
    BlockMeets(h, leaves, block, 0, d, pos, v, i, m);
    ClimbIsStepsUp(h, Roots(h, leaves), block, 0, d, v, m);
    StepsUpInBlock(h, leaves, block, 0, d, pos, v, i, m);
    SameStepsSamePath(h, block, v, leaves, i, m);
    StepsUpLength(h, block, d, v, m);
  }

  /** What the verifier stores for a listed leaf, repeated leaves included: the siblings from the
      leaf's first occurrence up to the first root met. */
  lemma {:induction false} DevicePathIsSearchedPath(h: Hash, leaves: seq<Scalar>, leaf: Scalar)
    requires leaf in leaves && LevelsApart(h, leaves)
    ensures DevicePathTag(h, Roots(h, leaves), leaves, leaf) == SearchedPath(h, leaves, FirstIndex(leaves, leaf))
    ensures PathLength(DevicePathTag(h, Roots(h, leaves), leaves, leaf))
         == MeetLevel(h, leaves, FirstIndex(leaves, leaf), 0)
  {
    var i, block, d, pos, v := SearchedBlock(h, leaves, leaf);
    var m := MeetLevel(h, leaves, i, 0);
    MeetLevelWithin(h, leaves, i, d);
    if m > 0 {
      LeafClimb(h, leaves, i, block, d, pos, v, m);
    } else if d > 0 {
      MeetLevelIsFirst(h, leaves, i, 0, 0);
      RootValue(h, leaves, i, 0);
      ClimbCases(h, Roots(h, leaves), block, 0, d, v);
    }
  }

  lemma MeetLevelWithin(h: Hash, leaves: seq<Scalar>, i: nat, d: nat)
    requires i < |leaves| && Covers(|leaves|, d, i)
    ensures MeetLevel(h, leaves, i, 0) <= d
  {
    OwnerIsLeast(i, |leaves|);
  }

  /** With distinct nodes, the verifier stores for leaf `i` exactly the siblings below its owner:
      the path's length is the owner's level. */
  lemma {:induction false} DevicePathIsOwnerPath(h: Hash, leaves: seq<Scalar>, i: nat)
    requires i < |leaves| && DistinctNodes(h, leaves)
    ensures DevicePathTag(h, Roots(h, leaves), leaves, leaves[i]) == OwnerPath(h, leaves, i)
    ensures PathLength(OwnerPath(h, leaves, i)) == OwnerLevel(i, |leaves|)
  {
    DevicePathIsSearchedPath(h, leaves, leaves[i]);
    DistinctLeaves(h, leaves, FirstIndex(leaves, leaves[i]), i);
    MeetsOwnerOnly(h, leaves, i);
  }

  lemma DistinctLeaves(h: Hash, leaves: seq<Scalar>, i: nat, j: nat)
    requires DistinctNodes(h, leaves) && i < |leaves| && j < |leaves| && leaves[i] == leaves[j]
    ensures i == j
  {
    assert SameValue(h, leaves, 0, i, 0, j);
  }
}
