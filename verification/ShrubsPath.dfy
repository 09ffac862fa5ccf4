/** Membership paths (`find_shrubs_path` of hydra-toolkit/src/shurbstree.rs and
    `find_device_shrubs_path_tag` of hydra-toolkit/src/lib.rs): the climb inside a leaf's interval
    and what the resulting path proves. */
module ShrubsPath {
  import opened Binary
  import opened ShrubsTree
  import opened ShrubsInterval
  import opened Circuit

  /** The source's `Option<(Vec<BlsScalar>, Vec<bool>)>`. */
  datatype PathTag = NoPath | PathTag(path: seq<Scalar>, tag: seq<bool>)

  // ----- hypotheses about the hash, stated on the nodes of one tree

  /** Two places of the tree hold complete nodes of the same value. */
  predicate SameValue(h: Hash, leaves: seq<Scalar>, k1: nat, p1: nat, k2: nat, p2: nat) {
    p1 < Half(|leaves|, k1) && p2 < Half(|leaves|, k2) && Node(h, leaves, k1, p1) == Node(h, leaves, k2, p2)
  }

  /** Complete nodes at different places of the tree have different values. */
  ghost predicate DistinctNodes(h: Hash, leaves: seq<Scalar>) {
    forall k1: nat, p1: nat, k2: nat, p2: nat :: SameValue(h, leaves, k1, p1, k2, p2) ==> k1 == k2 && p1 == p2
  }

  /** Nodes of different levels have different values; equal leaves are allowed. */
  ghost predicate LevelsApart(h: Hash, leaves: seq<Scalar>) {
    forall k1: nat, p1: nat, k2: nat, p2: nat :: SameValue(h, leaves, k1, p1, k2, p2) ==> k1 == k2
  }

  ghost predicate CollisionFree(h: Hash) {
    forall a, b, c, d :: h(a, b) == h(c, d) ==> a == c && b == d
  }

  ghost predicate PairwiseDistinct(leaves: seq<Scalar>) {
    forall i, j :: 0 <= i < j < |leaves| ==> leaves[i] != leaves[j]
  }

  /** No leaf is the value of an inner node. */
  ghost predicate LeavesAreNotInner(h: Hash, leaves: seq<Scalar>) {
    forall i: nat, k: nat, p: nat :: i < |leaves| && 0 < k && p < Half(|leaves|, k) ==>
      leaves[i] != Node(h, leaves, k, p)
  }

  // ----- the climb

  /** Climb from `layer[v]` on level `j`, collecting siblings, until a root of the list is met. */
  function ClimbPath(h: Hash, root: seq<Scalar>, layer: seq<Scalar>, j: nat, v: nat): PathTag
    requires |layer| >= 2 ==> root != [] && v < |layer|
    decreases |layer|
  {
    if |layer| >= 2 && root[0] == layer[v] then NoPath
    else if v >= |layer| || Sibling(v) >= |layer| then NoPath
    else
      var path, tag := [layer[Sibling(v)]], [v % 2 == 0];
      var temp := Pairs(h, layer);
      if |temp| < 2 then PathTag(path, tag)
      else if v / 2 >= |temp| || j + 1 >= |root| then NoPath
      else if temp[v / 2] == root[j + 1] then PathTag(path, tag)
      else
        var sub := ClimbPath(h, root, temp, j + 1, v / 2);
        if sub.NoPath? then NoPath else PathTag(path + sub.path, tag + sub.tag)
  }

  function Sibling(v: nat): nat {
    if v % 2 == 1 then v - 1 else v + 1
  }

  /** The source's recursion, growing `path` and `index` in place. */
  method FindShrubsPath(h: Hash, root: seq<Scalar>, leaves: seq<Scalar>, j: nat, value: nat) returns (r: PathTag)
    requires |leaves| >= 2 ==> root != [] && value < |leaves|
    ensures r == ClimbPath(h, root, leaves, j, value)
    decreases |leaves|
  {
    if |leaves| >= 2 && root[0] == leaves[value] {
      return NoPath;
    }
    if leaves == [] || value >= |leaves| {
      return NoPath;
    }
    var path, index, siblingIndex := [], [], 0;
    if value % 2 == 1 {
      index := index + [false];
      siblingIndex := value - 1;
    } else {
      index := index + [true];
      siblingIndex := value + 1;
    }
    if siblingIndex >= |leaves| {
      return NoPath;
    }
    path := path + [leaves[siblingIndex]];
    assert path == [leaves[Sibling(value)]] && index == [value % 2 == 0];
    var temp := Pairs(h, leaves);
    if |temp| >= 2 {
      var val, nextJ := value / 2, j + 1;
      if val >= |temp| || nextJ >= |root| {
        return NoPath;
      }
      if temp[val] == root[nextJ] {
        return PathTag(path, index);
      }
      var sub := FindShrubsPath(h, root, temp, nextJ, val);
      if sub.NoPath? {
        return NoPath;
      }
      path := path + sub.path;
      index := index + sub.tag;
      return PathTag(path, index);
    }
    return PathTag(path, index);
  }

  /** The path and tag the verifier stores for a leaf. */
  function DevicePathTag(h: Hash, root: seq<Scalar>, leaves: seq<Scalar>, leaf: Scalar): PathTag
    requires leaf in leaves ==> root != []
  {
    match OwningInterval(leaves, leaf)
    case None => NoPath
    case Some((interval, index)) =>
      IntervalHolds(FirstIndex(leaves, leaf), |leaves|);
      ClimbPath(h, root, interval, 0, index)
  }

  method FindDeviceShrubsPathTag(h: Hash, root: seq<Scalar>, leaves: seq<Scalar>, leaf: Scalar) returns (r: PathTag)
    requires leaf in leaves ==> root != []
    ensures r == DevicePathTag(h, root, leaves, leaf)
  {
    var found := FindIntervalIndex(leaves, leaf);
    if found.None? {
      return NoPath;
    }
    IntervalHolds(FirstIndex(leaves, leaf), |leaves|);
    r := FindShrubsPath(h, root, found.value.0, 0, found.value.1);
  }

  // ----- what the climb finds

  /** `layer` is a complete block of 2^d nodes of level `j`, hashing up to the root of level
      `j + d`. */
  ghost predicate Topped(h: Hash, root: seq<Scalar>, layer: seq<Scalar>, j: nat, d: nat)
    decreases d
  {
    && |layer| == Pow2(d) && j + d < |root|
    && if d == 0 then layer[0] == root[j] else Topped(h, root, Pairs(h, layer), j + 1, d - 1)
  }

  /** The cases of the climb below the top of a block. */
  lemma ClimbCases(h: Hash, root: seq<Scalar>, layer: seq<Scalar>, j: nat, d: nat, v: nat)
    requires d > 0 && Topped(h, root, layer, j, d) && v < |layer|
    ensures |layer| % 2 == 0 && Sibling(v) < |layer| && v / 2 < |Pairs(h, layer)|
    ensures ClimbPath(h, root, layer, j, v)
         == if root[0] == layer[v] then NoPath
            else if d == 1 || Pairs(h, layer)[v / 2] == root[j + 1]
            then PathTag([layer[Sibling(v)]], [v % 2 == 0])
            else Prepend(layer[Sibling(v)], v % 2 == 0, ClimbPath(h, root, Pairs(h, layer), j + 1, v / 2))
    ensures d == 1 ==> Pairs(h, layer)[v / 2] == root[j + 1]
  {
  }

  function Prepend(sibling: Scalar, right: bool, sub: PathTag): PathTag {
    if sub.NoPath? then NoPath else PathTag([sibling] + sub.path, [right] + sub.tag)
  }

  /** A path, if any, leads from its start on level `j` to the root that many levels up. */
  ghost predicate LandsOnRoot(h: Hash, root: seq<Scalar>, start: Scalar, j: nat, r: PathTag) {
    r.PathTag? ==>
      && |r.path| == |r.tag| && j + |r.path| < |root|
      && Fold(h, start, r.path, r.tag) == root[j + |r.path|]
  }

  /** For any hash, what the climb finds lands on a root. */
  lemma {:induction false} ClimbLandsOnRoot(h: Hash, root: seq<Scalar>, layer: seq<Scalar>, j: nat, d: nat, v: nat)
    requires d > 0 && Topped(h, root, layer, j, d) && v < |layer|
    ensures LandsOnRoot(h, root, layer[v], j, ClimbPath(h, root, layer, j, v))
    decreases d
  {
    var temp := Pairs(h, layer);
    ClimbCases(h, root, layer, j, d, v);
    PairAbove(h, layer, v);
    if d > 1 {
      ClimbLandsOnRoot(h, root, temp, j + 1, d - 1, v / 2);
      LandsAfterStep(h, root, layer[v], j, layer[Sibling(v)], v % 2 == 0, ClimbPath(h, root, temp, j + 1, v / 2));
    }
    LandsInOneStep(h, root, layer[v], j, layer[Sibling(v)], v % 2 == 0);
  }

  lemma LandsInOneStep(h: Hash, root: seq<Scalar>, start: Scalar, j: nat, sibling: Scalar, right: bool)
    requires j + 1 < |root|
    ensures Combine(h, start, sibling, right) == root[j + 1] ==>
              LandsOnRoot(h, root, start, j, PathTag([sibling], [right]))
  {
    FoldCons(h, start, sibling, right, [], []);
    assert [sibling] + [] == [sibling] && [right] + [] == [right];
  }

  lemma LandsAfterStep(h: Hash, root: seq<Scalar>, start: Scalar, j: nat, sibling: Scalar, right: bool, sub: PathTag)
    requires LandsOnRoot(h, root, Combine(h, start, sibling, right), j + 1, sub)
    ensures LandsOnRoot(h, root, start, j, Prepend(sibling, right, sub))
  {
    if sub.PathTag? {
      FoldCons(h, start, sibling, right, sub.path, sub.tag);
    }
  }

  lemma PairAbove(h: Hash, layer: seq<Scalar>, v: nat)
    requires |layer| % 2 == 0 && v < |layer|
    ensures Sibling(v) < |layer|
    ensures Pairs(h, layer)[v / 2] == Combine(h, layer[v], layer[Sibling(v)], v % 2 == 0)
  {
    PairAt(h, layer, v / 2);
    if v % 2 == 1 {
      assert 2 * (v / 2) == v - 1;
    } else {
      assert 2 * (v / 2) == v;
    }
  }

  lemma FoldCons(h: Hash, leaf: Scalar, sibling: Scalar, right: bool, path: seq<Scalar>, tag: seq<bool>)
    requires |path| == |tag|
    ensures Fold(h, leaf, [sibling] + path, [right] + tag) == Fold(h, Combine(h, leaf, sibling, right), path, tag)
  {
    assert ([sibling] + path)[1..] == path && ([right] + tag)[1..] == tag;
  }

  /** No node on the way up, below the top, equals the first root. */
  ghost predicate MissesFirstRoot(h: Hash, root: seq<Scalar>, layer: seq<Scalar>, v: nat, d: nat)
    requires root != []
    decreases d
  {
    d > 0 ==> v < |layer| && layer[v] != root[0] && MissesFirstRoot(h, root, Pairs(h, layer), v / 2, d - 1)
  }

  lemma {:induction false} ClimbFinds(h: Hash, root: seq<Scalar>, layer: seq<Scalar>, j: nat, d: nat, v: nat)
    requires d > 0 && Topped(h, root, layer, j, d)
    requires MissesFirstRoot(h, root, layer, v, d)
    ensures ClimbPath(h, root, layer, j, v).PathTag?
    decreases d
  {
    ClimbCases(h, root, layer, j, d, v);
    if d > 1 {
      ClimbFinds(h, root, Pairs(h, layer), j + 1, d - 1, v / 2);
    }
  }

  /** The node above `layer[v]` is first a root after `m` steps. */
  ghost predicate MeetsRootAfter(h: Hash, root: seq<Scalar>, layer: seq<Scalar>, j: nat, v: nat, m: nat)
    requires root != []
    decreases m
  {
    && m > 0 && |layer| % 2 == 0 && v < |layer| && layer[v] != root[0] && j + 1 < |root|
    && if m == 1 then Pairs(h, layer)[v / 2] == root[j + 1]
       else Pairs(h, layer)[v / 2] != root[j + 1] && MeetsRootAfter(h, root, Pairs(h, layer), j + 1, v / 2, m - 1)
  }

  /** The siblings and tags of `m` steps up. */
  function StepsUp(h: Hash, layer: seq<Scalar>, v: nat, m: nat): PathTag
    decreases m
  {
    if Sibling(v) >= |layer| then NoPath
    else if m <= 1 then PathTag([layer[Sibling(v)]], [v % 2 == 0])
    else Prepend(layer[Sibling(v)], v % 2 == 0, StepsUp(h, Pairs(h, layer), v / 2, m - 1))
  }

  lemma {:induction false} ClimbIsStepsUp(h: Hash, root: seq<Scalar>, layer: seq<Scalar>, j: nat, d: nat, v: nat,
                                          m: nat)
    requires 0 < m <= d && Topped(h, root, layer, j, d)
    requires MeetsRootAfter(h, root, layer, j, v, m)
    ensures ClimbPath(h, root, layer, j, v) == StepsUp(h, layer, v, m)
    decreases d
  {
    ClimbCases(h, root, layer, j, d, v);
    if m > 1 {
      ClimbIsStepsUp(h, root, Pairs(h, layer), j + 1, d - 1, v / 2, m - 1);
    }
  }

  // ----- blocks of the whole tree

  lemma {:induction false} PairsOfBlock(h: Hash, all: seq<Scalar>, off: nat, w: nat)
    requires 2 * off + 2 * w <= |all|
    ensures Pairs(h, all[2 * off..2 * off + 2 * w]) == Pairs(h, all)[off..off + w]
  {
    var block := all[2 * off..2 * off + 2 * w];
    forall i | 0 <= i < w ensures Pairs(h, block)[i] == Pairs(h, all)[off + i] {
      PairAt(h, block, i);
      PairAt(h, all, off + i);
    }
  }

  lemma {:induction false} StartDoubles(level: nat, pos: nat)
    ensures Start(level + 1, pos) == 2 * Start(level, pos)
  {
    if level > 0 {
      StartDoubles(level - 1, 2 * pos);
    }
  }

  /** The block below the root of level `d` hashes up to it. */
  lemma {:induction false} BlockIsTopped(h: Hash, root: seq<Scalar>, all: seq<Scalar>, j: nat, d: nat, off: nat)
    requires d < Levels(|all|) && off == Start(d, RootPos(|all|, d))
    requires j <= |root| && root[j..] == Roots(h, all)
    ensures BlockTopped(h, root, all, j, d, off)
    decreases d
  {
    BlockFits(|all|, d, RootPos(|all|, d));
    RootsUnfold(h, all);
    SuffixStep(root, j, Roots(h, all));
    if d > 0 {
      HalfOfHalf(|all|, d - 1);
      StartDoubles(d - 1, RootPos(|all|, d));
      BlockIsTopped(h, root, Pairs(h, all), j + 1, d - 1, off / 2);
      ToppedBelow(h, root, all, j, d, off / 2);
    } else {
      assert all[off..off + 1][0] == all[off];
    }
  }

  /** The block of 2^d nodes from `off` on is topped. */
  ghost predicate BlockTopped(h: Hash, root: seq<Scalar>, all: seq<Scalar>, j: nat, d: nat, off: nat) {
    off + Pow2(d) <= |all| && Topped(h, root, all[off..off + Pow2(d)], j, d)
  }

  /** A block is topped when its pairs are. */
  lemma {:induction false} ToppedBelow(h: Hash, root: seq<Scalar>, all: seq<Scalar>, j: nat, d: nat, half: nat)
    requires d > 0 && BlockTopped(h, root, Pairs(h, all), j + 1, d - 1, half)
    ensures BlockTopped(h, root, all, j, d, 2 * half)
  {
    PairsOfBlock(h, all, half, Pow2(d - 1));
  }

  lemma SuffixStep(root: seq<Scalar>, j: nat, rest: seq<Scalar>)
    requires j <= |root| && root[j..] == rest && rest != []
    ensures root[j] == rest[0] && root[j + 1..] == rest[1..]
    ensures |root| == j + |rest|
  {
    assert root[j] == root[j..][0];
    assert root[j + 1..] == root[j..][1..];
  }
}
