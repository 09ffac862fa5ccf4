/** What an insertion does to stored paths, and what an accepted path proves. */
module ShrubsRefresh {
  import opened Binary
  import opened ShrubsTree
  import opened ShrubsOwner
  import opened ShrubsPath
  import opened ShrubsMembership
  import opened ShrubsExactPath

  // ----- hypotheses about the tree, from hypotheses about the hash

  lemma {:induction false} NodeCollision(h: Hash, leaves: seq<Scalar>, k1: nat, p1: nat, k2: nat, p2: nat)
    requires CollisionFree(h) && LeavesAreNotInner(h, leaves)
    requires SameValue(h, leaves, k1, p1, k2, p2)
    ensures k1 == k2
    ensures PairwiseDistinct(leaves) ==> p1 == p2
    decreases k1 + k2
  {
    if k1 > 0 && k2 > 0 {
      assert h(Node(h, leaves, k1 - 1, 2 * p1), Node(h, leaves, k1 - 1, 2 * p1 + 1))
          == h(Node(h, leaves, k2 - 1, 2 * p2), Node(h, leaves, k2 - 1, 2 * p2 + 1));
      NodeCollision(h, leaves, k1 - 1, 2 * p1, k2 - 1, 2 * p2);
    }
  }

  /** A collision-free hash, leaves that are no inner nodes and, for the first claim, pairwise
      distinct leaves give the hypotheses used below; the converse needs nothing of the hash. */
  lemma TreeHypotheses(h: Hash, leaves: seq<Scalar>)
    ensures CollisionFree(h) && LeavesAreNotInner(h, leaves) && PairwiseDistinct(leaves) ==> DistinctNodes(h, leaves)
    ensures CollisionFree(h) && LeavesAreNotInner(h, leaves) ==> LevelsApart(h, leaves)
    ensures DistinctNodes(h, leaves) ==> PairwiseDistinct(leaves) && LevelsApart(h, leaves)
    ensures LevelsApart(h, leaves) ==> LeavesAreNotInner(h, leaves)
  {
    forall k1: nat, p1: nat, k2: nat, p2: nat |
      SameValue(h, leaves, k1, p1, k2, p2) && CollisionFree(h) && LeavesAreNotInner(h, leaves)
      ensures k1 == k2 && (PairwiseDistinct(leaves) ==> p1 == p2)
    {
      NodeCollision(h, leaves, k1, p1, k2, p2);
    }
    forall i, j | 0 <= i < j < |leaves| && DistinctNodes(h, leaves)
      ensures leaves[i] != leaves[j]
    {
      assert !SameValue(h, leaves, 0, i, 0, j);
    }
    forall i: nat, k: nat, p: nat |
      LevelsApart(h, leaves) && i < |leaves| && 0 < k && p < Half(|leaves|, k)
      ensures leaves[i] != Node(h, leaves, k, p)
    {
      assert !SameValue(h, leaves, 0, i, k, p);
    }
  }

  /** The hypotheses pass down to the tree before an insertion. */
  lemma DistinctBefore(h: Hash, prior: seq<Scalar>, batch: seq<Scalar>)
    ensures DistinctNodes(h, prior + batch) ==> DistinctNodes(h, prior)
    ensures LevelsApart(h, prior + batch) ==> LevelsApart(h, prior)
  {
    forall k1: nat, p1: nat, k2: nat, p2: nat | SameValue(h, prior, k1, p1, k2, p2)
      ensures SameValue(h, prior + batch, k1, p1, k2, p2)
    {
      NodeOfPrefix(h, prior, batch, k1, p1);
      NodeOfPrefix(h, prior, batch, k2, p2);
    }
  }

  // ----- stored paths across an insertion

  /** The exact condition, for any leaves, equal ones included: a path searched when there were `a`
      leaves is accepted against the root list of `b` leaves, older or newer, if and only if the two
      lists agree on the level of the path's length. */
  lemma AcceptedElsewhereIff(h: Hash, leaves: seq<Scalar>, a: nat, b: nat, leaf: Scalar, p: PathTag)
    requires LevelsApart(h, leaves) && a <= |leaves| && b <= |leaves|
    requires Tight(h, Roots(h, leaves[..a]), leaf, p)
    ensures Accepted(h, Roots(h, leaves[..b]), leaf, p)
       <==> PathLength(p) < Levels(b) && Roots(h, leaves[..b])[PathLength(p)] == Roots(h, leaves[..a])[PathLength(p)]
    ensures Accepted(h, Roots(h, leaves[..b]), leaf, p) ==> Tight(h, Roots(h, leaves[..b]), leaf, p)
  {
    var k := PathLength(p);
    if p.PathTag? && Roots(h, leaves[..a])[k] in Roots(h, leaves[..b]) {
      var j :| 0 <= j < |Roots(h, leaves[..b])| && Roots(h, leaves[..b])[j] == Roots(h, leaves[..a])[k];
      RootOfPrefix(h, leaves, a, k);
      RootOfPrefix(h, leaves, b, j);
      assert SameValue(h, leaves, j, RootPos(b, j), k, RootPos(a, k));
    }
  }

  /** The roots of a prefix are nodes of the whole tree. */
  lemma RootOfPrefix(h: Hash, leaves: seq<Scalar>, a: nat, k: nat)
    requires a <= |leaves| && k < Levels(a)
    ensures RootPos(a, k) < Half(|leaves|, k)
    ensures Roots(h, leaves[..a])[k] == Node(h, leaves, k, RootPos(a, k))
  {
    assert leaves[..a] + leaves[a..] == leaves;
    RootAt(h, leaves[..a], k);
    NodeOfPrefix(h, leaves[..a], leaves[a..], k, RootPos(a, k));
  }

  /** A stored path stays accepted when the root list grows if and only if the root at the level of
      its length is unchanged. */
  lemma StaysAcceptedIff(h: Hash, prior: seq<Scalar>, batch: seq<Scalar>, leaf: Scalar, p: PathTag)
    requires LevelsApart(h, prior + batch)
    requires Tight(h, Roots(h, prior), leaf, p)
    ensures PathLength(p) < |Roots(h, prior + batch)|
    ensures Accepted(h, Roots(h, prior + batch), leaf, p)
       <==> Roots(h, prior + batch)[PathLength(p)] == Roots(h, prior)[PathLength(p)]
    ensures Accepted(h, Roots(h, prior + batch), leaf, p) ==> Tight(h, Roots(h, prior + batch), leaf, p)
  {
    var grown := prior + batch;
    assert grown[..|prior|] == prior && grown[..|grown|] == grown;
    LevelsMonotone(|prior|, |grown|);
    AcceptedElsewhereIff(h, grown, |prior|, |grown|, leaf, p);
  }

  lemma OldRootIsNode(h: Hash, prior: seq<Scalar>, batch: seq<Scalar>, k: nat)
    requires k < Levels(|prior|)
    ensures RootPos(|prior|, k) < Half(|prior + batch|, k)
    ensures Roots(h, prior)[k] == Node(h, prior + batch, k, RootPos(|prior|, k))
  {
    assert (prior + batch)[..|prior|] == prior;
    RootOfPrefix(h, prior + batch, |prior|, k);
  }

  /** Below a node that is complete among the first `n` leaves, only those are seen. */
  lemma {:induction false} StepsOfPrefix(h: Hash, all: seq<Scalar>, n: nat, i: nat, m: nat)
    requires n <= |all| && Half(i, m) < Half(n, m)
    ensures SameSteps(h, all[..n], i, all, i, m)
    decreases m
  {
    if m > 0 {
      CompleteBelow(i, n, 1, m);
      assert Half(i, 1) == i / 2 && Half(n, 1) == n / 2;
      SiblingOfComplete(n, i);
      PairsOfPrefix(h, all, n);
      HalfOfHalf(i, m - 1);
      HalfOfHalf(n, m - 1);
      StepsOfPrefix(h, Pairs(h, all), n / 2, i / 2, m - 1);
    }
  }

  lemma SiblingOfComplete(n: nat, i: nat)
    requires i / 2 < n / 2
    ensures i < n && Sibling(i) < n
  {
  }

  lemma PairsOfPrefix(h: Hash, all: seq<Scalar>, n: nat)
    requires n <= |all|
    ensures Pairs(h, all[..n]) == Pairs(h, all)[..n / 2]
  {
    forall i | 0 <= i < n / 2 ensures Pairs(h, all[..n])[i] == Pairs(h, all)[i] {
      PairAt(h, all[..n], i);
      PairAt(h, all, i);
    }
  }

  /** An old leaf whose owner does not change keeps its path, sibling by sibling. */
  lemma UnaffectedKeepsPath(h: Hash, prior: seq<Scalar>, batch: seq<Scalar>, i: nat)
    requires i < |prior| && !OwnerChanges(i, |prior|, |prior + batch|)
    ensures OwnerPath(h, prior + batch, i) == OwnerPath(h, prior, i)
  {
    var n, k := |prior|, OwnerLevel(i, |prior|);
    OwnerChangesIff(i, n, |prior + batch|);
    OwnerIsLeast(i, n);
    assert (prior + batch)[..n] == prior;
    if k > 0 {
      StepsOfPrefix(h, prior + batch, n, i, k);
      SameStepsSamePath(h, prior, i, prior + batch, i, k);
    }
  }

  /** The refresh set is exact: with distinct nodes, an old leaf outside `affected_indices` gets the
      very path it already holds, and one inside holds a path the new root list rejects. */
  lemma {:induction false} RefreshIsExact(h: Hash, prior: seq<Scalar>, batch: seq<Scalar>, i: nat)
    requires i < |prior| && DistinctNodes(h, prior + batch)
    ensures var before := DevicePathTag(h, Roots(h, prior), prior, prior[i]);
            var after := DevicePathTag(h, Roots(h, prior + batch), prior + batch, prior[i]);
            && (i + 1 !in Affected(|prior|, |prior + batch|, |prior|) ==> before == after)
            && (i + 1 in Affected(|prior|, |prior + batch|, |prior|)
                <==> !Accepted(h, Roots(h, prior + batch), prior[i], before))
  {
    AffectedMembers(|prior|, |prior + batch|, |prior|);
    UnaffectedIsExact(h, prior, batch, i);
    AffectedIsStale(h, prior, batch, i);
  }

  lemma UnaffectedIsExact(h: Hash, prior: seq<Scalar>, batch: seq<Scalar>, i: nat)
    requires i < |prior| && DistinctNodes(h, prior + batch)
    ensures !OwnerChanges(i, |prior|, |prior + batch|) ==>
              DevicePathTag(h, Roots(h, prior), prior, prior[i])
              == DevicePathTag(h, Roots(h, prior + batch), prior + batch, prior[i])
  {
    DistinctBefore(h, prior, batch);
    DevicePathIsOwnerPath(h, prior, i);
    DevicePathIsOwnerPath(h, prior + batch, i);
    assert (prior + batch)[i] == prior[i];
    if !OwnerChanges(i, |prior|, |prior + batch|) {
      UnaffectedKeepsPath(h, prior, batch, i);
    }
  }

  lemma AffectedIsStale(h: Hash, prior: seq<Scalar>, batch: seq<Scalar>, i: nat)
    requires i < |prior| && DistinctNodes(h, prior + batch)
    ensures OwnerChanges(i, |prior|, |prior + batch|)
       <==> !Accepted(h, Roots(h, prior + batch), prior[i], DevicePathTag(h, Roots(h, prior), prior, prior[i]))
  {
    DistinctBefore(h, prior, batch);
    TreeHypotheses(h, prior);
    TreeHypotheses(h, prior + batch);
    DevicePathIsOwnerPath(h, prior, i);
    DevicePathTight(h, prior, prior[i]);
    StaysAcceptedIff(h, prior, batch, prior[i], DevicePathTag(h, Roots(h, prior), prior, prior[i]));
    SameRootIff(h, prior, batch, i);
  }

  /** With distinct nodes, the root on the old owner's level keeps its value exactly when it still
      owns the leaf. */
  lemma SameRootIff(h: Hash, prior: seq<Scalar>, batch: seq<Scalar>, i: nat)
    requires i < |prior| && DistinctNodes(h, prior + batch)
    ensures OwnerLevel(i, |prior|) < Levels(|prior|) <= Levels(|prior + batch|)
    ensures OwnerChanges(i, |prior|, |prior + batch|)
       <==> Roots(h, prior + batch)[OwnerLevel(i, |prior|)] != Roots(h, prior)[OwnerLevel(i, |prior|)]
  {
    var n, n', k := |prior|, |prior + batch|, OwnerLevel(i, |prior|);
    LevelsMonotone(n, n');
    OwnerIsLeast(i, n);
    OwnerChangesIff(i, n, n');
    OldRootIsNode(h, prior, batch, k);
    RootAt(h, prior + batch, k);
    assert Roots(h, prior + batch)[k] == Roots(h, prior)[k]
       <==> SameValue(h, prior + batch, k, RootPos(n', k), k, RootPos(n, k));
  }
}
