/** Acceptance of stored paths decided by leaves and counts alone, no hashing: which block of leaves
    lies below a root, and when a path searched in one list is good for another. */
module ShrubsBlocks {
  import opened Binary
  import opened ShrubsTree
  import opened ShrubsOwner
  import opened ShrubsInterval
  import opened ShrubsPath
  import opened ShrubsMembership
  import opened ShrubsExactPath
  import opened ShrubsRefresh

  /** The 2^k leaves below node `pos` of level `k`. */
  function Block(leaves: seq<Scalar>, k: nat, pos: nat): (r: seq<Scalar>)
    requires pos < Half(|leaves|, k)
    ensures |r| == Pow2(k)
  {
    BlockFits(|leaves|, k, pos);
    leaves[Start(k, pos)..Start(k, pos) + Pow2(k)]
  }

  lemma BlockHalves(leaves: seq<Scalar>, k: nat, pos: nat)
    requires k > 0 && pos < Half(|leaves|, k)
    ensures Block(leaves, k, pos) == Block(leaves, k - 1, 2 * pos) + Block(leaves, k - 1, 2 * pos + 1)
  {
    StartNext(k - 1, 2 * pos);
    BlockFits(|leaves|, k, pos);
  }

  /** With a collision-free hash, two nodes of one level are equal exactly when their leaves are. */
  lemma {:induction false} SameNodeIff(h: Hash, leaves: seq<Scalar>, k: nat, p: nat, q: nat)
    requires CollisionFree(h) && p < Half(|leaves|, k) && q < Half(|leaves|, k)
    ensures Node(h, leaves, k, p) == Node(h, leaves, k, q) <==> Block(leaves, k, p) == Block(leaves, k, q)
    decreases k
  {
    if k > 0 {
      BlockHalves(leaves, k, p);
      BlockHalves(leaves, k, q);
      SameNodeIff(h, leaves, k - 1, 2 * p, 2 * q);
      SameNodeIff(h, leaves, k - 1, 2 * p + 1, 2 * q + 1);
      SameHalves(Block(leaves, k - 1, 2 * p), Block(leaves, k - 1, 2 * p + 1),
                 Block(leaves, k - 1, 2 * q), Block(leaves, k - 1, 2 * q + 1));
    }
  }

  lemma SameHalves(a: seq<Scalar>, b: seq<Scalar>, c: seq<Scalar>, d: seq<Scalar>)
    requires |a| == |c|
    ensures a + b == c + d <==> a == c && b == d
  {
    assert (a + b)[..|a|] == a && (a + b)[|a|..] == b;
    assert (c + d)[..|c|] == c && (c + d)[|c|..] == d;
  }

  // ----- the length of a stored path

  /** The block above leaf `i` on level `k` repeats the one below that level's root. */
  predicate RepeatsRoot(leaves: seq<Scalar>, i: nat, k: nat) {
    && k < Levels(|leaves|) && Half(i, k) < Half(|leaves|, k)
    && Block(leaves, k, Half(i, k)) == Block(leaves, k, RootPos(|leaves|, k))
  }

  /** The least such level from `k` on. */
  function RepeatLevel(leaves: seq<Scalar>, i: nat, k: nat): (m: nat)
    requires i < |leaves| && k <= OwnerLevel(i, |leaves|)
    ensures k <= m <= OwnerLevel(i, |leaves|)
    decreases OwnerLevel(i, |leaves|) - k
  {
    if k == OwnerLevel(i, |leaves|) || RepeatsRoot(leaves, i, k) then k else RepeatLevel(leaves, i, k + 1)
  }

  /** The length of the path stored for a leaf. */
  function SearchLength(leaves: seq<Scalar>, leaf: Scalar): nat
    requires leaf in leaves
  {
    RepeatLevel(leaves, FirstIndex(leaves, leaf), 0)
  }

  lemma RepeatsIsMeets(h: Hash, leaves: seq<Scalar>, i: nat, k: nat)
    requires CollisionFree(h)
    ensures RepeatsRoot(leaves, i, k) <==> MeetsRoot(h, leaves, i, k)
  {
    if k < Levels(|leaves|) && Half(i, k) < Half(|leaves|, k) {
      SameNodeIff(h, leaves, k, Half(i, k), RootPos(|leaves|, k));
    }
  }

  lemma {:induction false} RepeatLevelIsMeetLevel(h: Hash, leaves: seq<Scalar>, i: nat, k: nat)
    requires CollisionFree(h) && i < |leaves| && k <= OwnerLevel(i, |leaves|)
    ensures RepeatLevel(leaves, i, k) == MeetLevel(h, leaves, i, k)
    decreases OwnerLevel(i, |leaves|) - k
  {
    RepeatsIsMeets(h, leaves, i, k);
    if k < OwnerLevel(i, |leaves|) && !RepeatsRoot(leaves, i, k) {
      RepeatLevelIsMeetLevel(h, leaves, i, k + 1);
    }
  }

  /** The length of a stored path, from the leaves alone. */
  lemma SearchLengthIs(h: Hash, leaves: seq<Scalar>, leaf: Scalar)
    requires CollisionFree(h) && LevelsApart(h, leaves) && leaf in leaves
    ensures PathLength(DevicePathTag(h, Roots(h, leaves), leaves, leaf)) == SearchLength(leaves, leaf)
  {
    DevicePathIsSearchedPath(h, leaves, leaf);
    RepeatLevelIsMeetLevel(h, leaves, FirstIndex(leaves, leaf), 0);
  }

  // ----- a path searched in one list, against another

  /** The roots of level `k` of the first `a` and the first `b` leaves exist and lie above the same
      leaves. */
  predicate RootsAgree(leaves: seq<Scalar>, k: nat, a: nat, b: nat)
    requires a <= |leaves| && b <= |leaves|
  {
    && k < Levels(a) && k < Levels(b)
    && Block(leaves[..a], k, RootPos(a, k)) == Block(leaves[..b], k, RootPos(b, k))
  }

  lemma BlockOfPrefix(leaves: seq<Scalar>, a: nat, k: nat, pos: nat)
    requires a <= |leaves| && pos < Half(a, k)
    ensures pos < Half(|leaves|, k) && Block(leaves[..a], k, pos) == Block(leaves, k, pos)
  {
    HalfMonotone(a, |leaves|, k);
    BlockFits(a, k, pos);
  }

  lemma RootsAgreeIff(h: Hash, leaves: seq<Scalar>, k: nat, a: nat, b: nat)
    requires CollisionFree(h) && a <= |leaves| && b <= |leaves| && k < Levels(a)
    ensures RootsAgree(leaves, k, a, b)
       <==> k < Levels(b) && Roots(h, leaves[..b])[k] == Roots(h, leaves[..a])[k]
  {
    if k < Levels(b) {
      RootOfPrefix(h, leaves, a, k);
      RootOfPrefix(h, leaves, b, k);
      BlockOfPrefix(leaves, a, k, RootPos(a, k));
      BlockOfPrefix(leaves, b, k, RootPos(b, k));
      SameNodeIff(h, leaves, k, RootPos(a, k), RootPos(b, k));
    }
  }

  /** Exactly when a path searched among the first `a` leaves is accepted against the list of the
      first `b`, older or newer, repeated leaves included: a condition on leaves and counts alone. */
  lemma {:induction false} SearchedPathAcceptedIff(h: Hash, leaves: seq<Scalar>, a: nat, b: nat, leaf: Scalar)
    requires CollisionFree(h) && LevelsApart(h, leaves) && a <= |leaves| && b <= |leaves| && leaf in leaves[..a]
    ensures Accepted(h, Roots(h, leaves[..b]), leaf, DevicePathTag(h, Roots(h, leaves[..a]), leaves[..a], leaf))
       <==> RootsAgree(leaves, SearchLength(leaves[..a], leaf), a, b)
  {
    assert leaves[..a] + leaves[a..] == leaves;
    DistinctBefore(h, leaves[..a], leaves[a..]);
    var p := DevicePathTag(h, Roots(h, leaves[..a]), leaves[..a], leaf);
    DevicePathTight(h, leaves[..a], leaf);
    SearchLengthIs(h, leaves[..a], leaf);
    AcceptedElsewhereIff(h, leaves, a, b, leaf, p);
    RootsAgreeIff(h, leaves, PathLength(p), a, b);
  }

  /** The same with distinct nodes, by index arithmetic alone: the old owner's level still has leaf `i`
      below its root. For a newer list that is when the owner does not change. */
  lemma {:induction false} OwnerPathAcceptedIff(h: Hash, leaves: seq<Scalar>, a: nat, b: nat, i: nat)
    requires DistinctNodes(h, leaves) && i < a <= |leaves| && b <= |leaves|
    ensures Accepted(h, Roots(h, leaves[..b]), leaves[i],
                     DevicePathTag(h, Roots(h, leaves[..a]), leaves[..a], leaves[i]))
       <==> Covers(b, OwnerLevel(i, a), i)
    ensures a <= b ==> (Covers(b, OwnerLevel(i, a), i) <==> !OwnerChanges(i, a, b))
  {
    var k, all := OwnerLevel(i, a), leaves[..a];
    assert all + leaves[a..] == leaves;
    DistinctBefore(h, all, leaves[a..]);
    assert all[i] == leaves[i];
    DevicePathIsOwnerPath(h, all, i);
    DevicePathTight(h, all, leaves[i]);
    AcceptedElsewhereIff(h, leaves, a, b, leaves[i], DevicePathTag(h, Roots(h, all), all, leaves[i]));
    OwnerIsLeast(i, a);
    RootOfPrefix(h, leaves, a, k);
    if k < Levels(b) {
      RootOfPrefix(h, leaves, b, k);
      assert Roots(h, leaves[..b])[k] == Roots(h, all)[k] <==> SameValue(h, leaves, k, RootPos(b, k), k, RootPos(a, k));
    }
    if a <= b {
      OwnerChangesIff(i, a, b);
    }
  }
}
