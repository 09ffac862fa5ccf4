/** Soundness of membership: with a collision-free hash, whatever path and tag a prover picks, of
    whatever length, an accepted leaf value is tied to the inserted leaves, and a satisfied circuit
    authenticates an enrolled device. */
module MembershipSoundness {
  import opened Binary
  import opened Wrappers
  import opened ShrubsTree
  import opened Circuit
  import opened ShrubsPath
  import opened ShrubsMembership
  import opened ShrubsRefresh

  /** The position reached from `pos` by undoing the steps of `tag`, topmost first. */
  function Below(pos: nat, tag: seq<bool>): nat
    decreases |tag|
  {
    if tag == [] then pos
    else Below(2 * pos + (if tag[|tag| - 1] then 0 else 1), tag[..|tag| - 1])
  }

  lemma LastStep(h: Hash, v: Scalar, path: seq<Scalar>, tag: seq<bool>)
    requires |path| == |tag| > 0
    ensures var m := |path| - 1;
            Fold(h, v, path, tag) == Combine(h, Fold(h, v, path[..m], tag[..m]), path[m], tag[m])
  {
    var m := |path| - 1;
    FoldSnoc(h, v, path[..m], tag[..m], path[m], tag[m]);
    assert path[..m] + [path[m]] == path && tag[..m] + [tag[m]] == tag;
  }

  /** A path no longer than the level starts at a node of the tree. */
  lemma {:induction false} DescendsToNode(h: Hash, leaves: seq<Scalar>, k: nat, pos: nat, v: Scalar,
                                          path: seq<Scalar>, tag: seq<bool>)
    requires CollisionFree(h) && pos < Half(|leaves|, k)
    requires |path| == |tag| <= k && Fold(h, v, path, tag) == Node(h, leaves, k, pos)
    ensures Below(pos, tag) < Half(|leaves|, k - |path|)
    ensures v == Node(h, leaves, k - |path|, Below(pos, tag))
    decreases |path|
  {
    if path != [] {
      var m := |path| - 1;
      LastStep(h, v, path, tag);
      DescendsToNode(h, leaves, k - 1, 2 * pos + (if tag[m] then 0 else 1), v, path[..m], tag[..m]);
    }
  }

  /** A longer path passes through a leaf. */
  lemma {:induction false} PassesThroughLeaf(h: Hash, leaves: seq<Scalar>, k: nat, pos: nat, v: Scalar,
                                             path: seq<Scalar>, tag: seq<bool>)
    requires CollisionFree(h) && pos < Half(|leaves|, k)
    requires |path| == |tag| >= k && Fold(h, v, path, tag) == Node(h, leaves, k, pos)
    ensures Fold(h, v, path[..|path| - k], tag[..|path| - k]) in leaves
    decreases k
  {
    if k == 0 {
      assert path[..|path|] == path && tag[..|path|] == tag;
    } else {
      var m := |path| - 1;
      LastStep(h, v, path, tag);
      PassesThroughLeaf(h, leaves, k - 1, 2 * pos + (if tag[m] then 0 else 1), v, path[..m], tag[..m]);
      assert path[..m][..|path| - k] == path[..|path| - k] && tag[..m][..|path| - k] == tag[..|path| - k];
    }
  }

  /** What an accepted path proves, for any leaf value and path: on landing on the root of level
      `level`, a path of that length starts at a leaf, a shorter one at an inner node, and a longer
      one goes through a leaf. */
  lemma AcceptedPathStartsInTree(h: Hash, leaves: seq<Scalar>, v: Scalar, path: seq<Scalar>, tag: seq<bool>)
    returns (level: nat)
    requires CollisionFree(h)
    requires Accepts(h, Roots(h, leaves), v, Some(path), Some(tag))
    ensures level < Levels(|leaves|) && Fold(h, v, path, tag) == Roots(h, leaves)[level]
    ensures |path| == level ==> v in leaves
    ensures |path| < level ==> IsInner(h, leaves, v)
    ensures |path| > level ==> Fold(h, v, path[..|path| - level], tag[..|path| - level]) in leaves
  {
    level :| 0 <= level < |Roots(h, leaves)| && Roots(h, leaves)[level] == Fold(h, v, path, tag);
    RootAt(h, leaves, level);
    if |path| <= level {
      DescendsToNode(h, leaves, level, RootPos(|leaves|, level), v, path, tag);
      assert |path| < level ==> NodeIs(h, leaves, level - |path|, Below(RootPos(|leaves|, level), tag), v);
    } else {
      PassesThroughLeaf(h, leaves, level, RootPos(|leaves|, level), v, path, tag);
    }
  }

  predicate NodeIs(h: Hash, leaves: seq<Scalar>, k: nat, pos: nat, v: Scalar) {
    pos < Half(|leaves|, k) && Node(h, leaves, k, pos) == v
  }

  ghost predicate IsInner(h: Hash, leaves: seq<Scalar>, v: Scalar) {
    exists k: nat, pos: nat :: 0 < k && NodeIs(h, leaves, k, pos, v)
  }

  /** Some leaf is reached from `v` by at least one step of hashing. */
  ghost predicate IsBelowLeaf(h: Hash, leaves: seq<Scalar>, v: Scalar) {
    exists path: seq<Scalar>, tag: seq<bool> :: |path| == |tag| > 0 && Fold(h, v, path, tag) in leaves
  }

  /** Membership is decided by the accumulator: a value that is neither an inner node nor below a
      leaf has an accepted path if and only if it was inserted. */
  lemma MembershipIff(h: Hash, leaves: seq<Scalar>, v: Scalar)
    requires CollisionFree(h) && LeavesAreNotInner(h, leaves)
    requires !IsInner(h, leaves, v) && !IsBelowLeaf(h, leaves, v)
    ensures v in leaves <==> exists p :: Accepted(h, Roots(h, leaves), v, p)
  {
    if v in leaves {
      TreeHypotheses(h, leaves);
      DevicePathTight(h, leaves, v);
      TightIsAccepted(h, Roots(h, leaves), v, DevicePathTag(h, Roots(h, leaves), leaves, v));
    }
    forall p | Accepted(h, Roots(h, leaves), v, p) ensures v in leaves {
      AcceptedIsListed(h, leaves, v, p);
    }
  }

  lemma AcceptedIsListed(h: Hash, leaves: seq<Scalar>, v: Scalar, p: PathTag)
    requires CollisionFree(h) && Accepted(h, Roots(h, leaves), v, p)
    requires !IsInner(h, leaves, v) && !IsBelowLeaf(h, leaves, v)
    ensures v in leaves
  {
    match p
    case NoPath =>
      RootAt(h, leaves, 0);
    case PathTag(path, tag) =>
      var level := AcceptedPathStartsInTree(h, leaves, v, path, tag);
  }

  // ----- what a satisfied circuit authenticates

  /** The secrets and the key behind a leaf. */
  datatype Device = Device(ar: Scalar, sk: Scalar, pk: Scalar)

  ghost predicate IsOutput(h: Hash, v: Scalar) {
    exists a, b :: h(a, b) == v
  }

  /** No field of the device is a hash. */
  ghost predicate IsRaw(h: Hash, d: Device) {
    !IsOutput(h, d.ar) && !IsOutput(h, d.sk) && !IsOutput(h, d.pk)
  }

  /** The leaves are those of the devices, in order. */
  ghost predicate Enrolled(h: Hash, leaves: seq<Scalar>, devs: seq<Device>) {
    && |leaves| == |devs|
    && forall i :: 0 <= i < |devs| ==>
         IsRaw(h, devs[i]) && leaves[i] == DeviceLeaf(h, devs[i].ar, devs[i].sk, devs[i].pk)
  }

  /** A hash of something that is itself a hash. */
  ghost predicate IsDeep(h: Hash, v: Scalar) {
    exists a, b :: h(a, b) == v && (IsOutput(h, a) || IsOutput(h, b))
  }

  /** Climbing from a deep value never leaves the deep values. */
  lemma {:induction false} FoldIsDeep(h: Hash, v: Scalar, path: seq<Scalar>, tag: seq<bool>)
    requires |path| == |tag| && IsDeep(h, v)
    ensures IsDeep(h, Fold(h, v, path, tag))
    decreases |path|
  {
    if path != [] {
      assert IsOutput(h, v);
      FoldIsDeep(h, Combine(h, v, path[0], tag[0]), path[1..], tag[1..]);
    }
  }

  /** A device's leaf is a hash of hash and key, neither of which is deep. */
  lemma NotAboveDeep(h: Hash, d: Device, w: Scalar, sibling: Scalar, right: bool)
    requires CollisionFree(h) && IsRaw(h, d) && IsDeep(h, w)
    ensures Combine(h, w, sibling, right) != DeviceLeaf(h, d.ar, d.sk, d.pk)
  {
    assert IsOutput(h, w);
    var a, b :| h(a, b) == w && (IsOutput(h, a) || IsOutput(h, b));
  }

  lemma DeviceLeafIsDeep(h: Hash, ar: Scalar, sk: Scalar, pk: Scalar)
    ensures IsDeep(h, DeviceLeaf(h, ar, sk, pk)) && IsOutput(h, DeviceLeaf(h, ar, sk, pk))
  {
    assert IsOutput(h, h(ar, sk));
  }

  lemma NodeIsOutput(h: Hash, leaves: seq<Scalar>, devs: seq<Device>, k: nat, pos: nat)
    requires Enrolled(h, leaves, devs) && pos < Half(|leaves|, k)
    ensures IsOutput(h, Node(h, leaves, k, pos))
  {
    if k == 0 {
      DeviceLeafIsDeep(h, devs[pos].ar, devs[pos].sk, devs[pos].pk);
    }
  }

  /** An inner node hashes two hashes; a leaf does not. */
  lemma InnerIsNoLeaf(h: Hash, leaves: seq<Scalar>, devs: seq<Device>, k: nat, pos: nat, d: Device)
    requires CollisionFree(h) && Enrolled(h, leaves, devs) && !IsOutput(h, d.pk)
    requires 0 < k && pos < Half(|leaves|, k)
    ensures Node(h, leaves, k, pos) != DeviceLeaf(h, d.ar, d.sk, d.pk)
  {
    NodeIsOutput(h, leaves, devs, k - 1, 2 * pos + 1);
  }

  /** Nothing is assumed of a device tree but raw devices: its levels are apart, and without repeated
      devices all its nodes are distinct. */
  lemma {:induction false} DeviceTree(h: Hash, leaves: seq<Scalar>, devs: seq<Device>)
    requires CollisionFree(h) && Enrolled(h, leaves, devs)
    ensures LeavesAreNotInner(h, leaves) && LevelsApart(h, leaves)
    ensures DistinctNodes(h, leaves) <==> forall i, j :: 0 <= i < j < |devs| ==> devs[i] != devs[j]
  {
    forall i: nat, k: nat, pos: nat | i < |leaves| && 0 < k && pos < Half(|leaves|, k)
      ensures leaves[i] != Node(h, leaves, k, pos)
    {
      InnerIsNoLeaf(h, leaves, devs, k, pos, devs[i]);
    }
    TreeHypotheses(h, leaves);
    assert PairwiseDistinct(leaves) <==> forall i, j :: 0 <= i < j < |devs| ==> devs[i] != devs[j];
  }

  lemma LeafOfDevice(h: Hash, leaves: seq<Scalar>, devs: seq<Device>, d: Device)
    requires CollisionFree(h) && Enrolled(h, leaves, devs)
    ensures DeviceLeaf(h, d.ar, d.sk, d.pk) in leaves <==> d in devs
  {
    if DeviceLeaf(h, d.ar, d.sk, d.pk) in leaves {
      var i :| 0 <= i < |leaves| && leaves[i] == DeviceLeaf(h, d.ar, d.sk, d.pk);
      assert devs[i] == d;
    }
    if d in devs {
      var i :| 0 <= i < |devs| && devs[i] == d;
      assert leaves[i] == DeviceLeaf(h, d.ar, d.sk, d.pk);
    }
  }

  /** Hashing on from a device's leaf leads to no leaf. */
  lemma AboveDeviceIsNoLeaf(h: Hash, leaves: seq<Scalar>, devs: seq<Device>, d: Device,
                            path: seq<Scalar>, tag: seq<bool>)
    requires CollisionFree(h) && Enrolled(h, leaves, devs) && |path| == |tag| > 0
    ensures Fold(h, DeviceLeaf(h, d.ar, d.sk, d.pk), path, tag) !in leaves
  {
    var v, m := DeviceLeaf(h, d.ar, d.sk, d.pk), |path| - 1;
    LastStep(h, v, path, tag);
    DeviceLeafIsDeep(h, d.ar, d.sk, d.pk);
    FoldIsDeep(h, v, path[..m], tag[..m]);
    forall i | 0 <= i < |leaves| ensures leaves[i] != Fold(h, v, path, tag) {
      NotAboveDeep(h, devs[i], Fold(h, v, path[..m], tag[..m]), path[m], tag[m]);
    }
  }

  /** So the hypotheses of `MembershipIff` hold of device leaves. */
  lemma DeviceIsApart(h: Hash, leaves: seq<Scalar>, devs: seq<Device>, d: Device)
    requires CollisionFree(h) && Enrolled(h, leaves, devs) && !IsOutput(h, d.pk)
    ensures !IsInner(h, leaves, DeviceLeaf(h, d.ar, d.sk, d.pk))
    ensures !IsBelowLeaf(h, leaves, DeviceLeaf(h, d.ar, d.sk, d.pk))
  {
    var v := DeviceLeaf(h, d.ar, d.sk, d.pk);
    forall k: nat, pos: nat | 0 < k && pos < Half(|leaves|, k) ensures Node(h, leaves, k, pos) != v {
      InnerIsNoLeaf(h, leaves, devs, k, pos, d);
    }
    forall path: seq<Scalar>, tag: seq<bool> | |path| == |tag| > 0 ensures Fold(h, v, path, tag) !in leaves {
      AboveDeviceIsNoLeaf(h, leaves, devs, d, path, tag);
    }
  }

  /** Soundness of the circuit. Against a root list over raw devices, and for a key that is no hash,
      the witnesses of a satisfied circuit - measurement, secret key and public key, with a path of any
      length - are those of an enrolled device. */
  lemma SatisfiedIsEnrolled(h: Hash, leaves: seq<Scalar>, devs: seq<Device>, c: AttestationCircuit)
    requires CollisionFree(h) && Enrolled(h, leaves, devs)
    requires c.root == Roots(h, leaves) && !IsOutput(h, c.pk)
    requires Satisfied(h, c)
    ensures Device(c.ar, c.sk, c.pk) in devs
  {
    var p := if c.path.Some? then PathTag(c.path.value, c.tag.value) else NoPath;
    DeviceIsApart(h, leaves, devs, Device(c.ar, c.sk, c.pk));
    AcceptedIsListed(h, leaves, DeviceLeaf(h, c.ar, c.sk, c.pk), p);
    LeafOfDevice(h, leaves, devs, Device(c.ar, c.sk, c.pk));
  }

  function WithPath(c: AttestationCircuit, p: PathTag): AttestationCircuit {
    match p
    case NoPath => c.(path := None, tag := None)
    case PathTag(path, tag) => c.(path := Some(path), tag := Some(tag))
  }

  /** Exactly the enrolled devices can satisfy the circuit: with the right commitment, some path does
      if and only if the device is enrolled. */
  lemma {:induction false} EnrolledIff(h: Hash, leaves: seq<Scalar>, devs: seq<Device>, c: AttestationCircuit)
    requires CollisionFree(h) && Enrolled(h, leaves, devs)
    requires c.root == Roots(h, leaves) && !IsOutput(h, c.pk)
    requires c.output == AuthorizedInfor(h, c.pk, c.ar, c.time, c.period)
    ensures (exists p :: Satisfied(h, WithPath(c, p))) <==> Device(c.ar, c.sk, c.pk) in devs
  {
    var d, v := Device(c.ar, c.sk, c.pk), DeviceLeaf(h, c.ar, c.sk, c.pk);
    forall p | Satisfied(h, WithPath(c, p)) ensures d in devs {
      SatisfiedIsEnrolled(h, leaves, devs, WithPath(c, p));
    }
    LeafOfDevice(h, leaves, devs, d);
    if d in devs {
      var p := DevicePathTag(h, c.root, leaves, v);
      DeviceTree(h, leaves, devs);
      DevicePathTight(h, leaves, v);
      TightIsAccepted(h, c.root, v, p);
      assert Satisfied(h, WithPath(c, p));
    }
  }
}
