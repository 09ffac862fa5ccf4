/** What a device holds when batches overlap: the root list of the last message's batch and the path of
    the last full response's, and exactly when the two satisfy the circuit. */
module HydraSessions {
  import opened Wrappers
  import opened ShrubsTree
  import opened ShrubsOwner
  import opened ShrubsPath
  import opened ShrubsMembership
  import opened ShrubsBlocks
  import opened Circuit
  import opened HydraTypes
  import opened HydraDaemon
  import opened HydraClient
  import opened HydraRun
  import opened HydraPhases

  // ----- what a device receives

  /** The messages written to one socket, in order, with their batches. */
  function Received(wire: seq<Sent>, i: nat): seq<Sent> {
    if wire == [] then []
    else
      var rest, s := Received(wire[..|wire| - 1], i), wire[|wire| - 1];
      if s.event.ToAttester? && s.event.socket == i then rest + [s] else rest
  }

  predicate AreToAttester(received: seq<Sent>, i: nat) {
    forall k :: 0 <= k < |received| ==> received[k].event.ToAttester? && received[k].event.socket == i
  }

  function FramesOf(received: seq<Sent>, i: nat): (r: seq<Frame>)
    requires AreToAttester(received, i)
    ensures |r| == |received|
  {
    if received == [] then []
    else FramesOf(received[..|received| - 1], i) + [received[|received| - 1].event.frame]
  }

  lemma {:induction false} ReceivedGood(h: Hash, w: Phased, wire: seq<Sent>, i: nat)
    requires forall k :: 0 <= k < |wire| ==> SentGood(h, w, wire[k])
    ensures AreToAttester(Received(wire, i), i)
    ensures forall k :: 0 <= k < |Received(wire, i)| ==> SentGood(h, w, Received(wire, i)[k])
  {
    if wire != [] {
      ReceivedGood(h, w, wire[..|wire| - 1], i);
    }
  }

  lemma PrefixGood(h: Hash, vk: Bytes, w: Phased, i: nat, k: nat)
    requires PhasedGood(h, vk, w) && k <= |Received(w.wire, i)|
    ensures AreToAttester(Received(w.wire, i)[..k], i)
    ensures forall j :: 0 <= j < k ==> SentGood(h, w, Received(w.wire, i)[..k][j])
  {
    ReceivedGood(h, w, w.wire, i);
  }

  /** The batch of the last full response. */
  function LastFull(received: seq<Sent>, i: nat): Option<nat>
    requires AreToAttester(received, i)
  {
    if received == [] then None
    else if received[|received| - 1].event.frame.FullResponse? then Some(received[|received| - 1].batch)
    else LastFull(received[..|received| - 1], i)
  }

  /** The last response received is the one built in the last batch that sent one. */
  lemma {:induction false} LastFullResponse(h: Hash, w: Phased, received: seq<Sent>, i: nat)
    requires AreToAttester(received, i)
    requires forall k :: 0 <= k < |received| ==> SentGood(h, w, received[k])
    ensures LastFull(received, i).None? <==> LastResponse(FramesOf(received, i)).None?
    ensures LastFull(received, i).Some? ==>
              && LastFull(received, i).value < |w.batches|
              && var b := w.batches[LastFull(received, i).value];
                 && i < |b.committed.active| && b.committed.root != []
                 && LastResponse(FramesOf(received, i)) == Some(BuildResponse(h, b.env, b.committed, i))
  {
    if received != [] {
      var m := |received| - 1;
      LastOfAppended(FramesOf(received[..m], i), received[m].event.frame);
      assert SentGood(h, w, received[m]);
      LastFullResponse(h, w, received[..m], i);
    }
  }

  /** An honest device whose last response is signed by the verifier satisfies the circuit exactly when
      the last path is accepted against the last root list. */
  lemma SessionSatisfiedIff(h: Hash, vk: Bytes, key: KeyInfor, measurement: Bytes, frames: seq<Frame>)
    requires frames != [] && LastContext(frames).verifierPk == vk && LastResponse(frames).Some?
    requires ResponseGood(h, vk, GenerateDeviceClientInfor(h, key, measurement), LastResponse(frames).value)
    ensures SessionSatisfied(h, SessionAfter(h, key, GenerateDeviceClientInfor(h, key, measurement), frames))
       <==> Accepts(h, LastContext(frames).root, GenerateDeviceClientInfor(h, key, measurement).merkleLeaf,
                    LastResponse(frames).value.shrubsPath, LastResponse(frames).value.shrubsTag)
  {
    SessionHolds(h, key, GenerateDeviceClientInfor(h, key, measurement), frames);
  }

  /** An attester as the snapshot of a batch has it. */
  lemma SnapshotOf(h: Hash, vk: Bytes, w: Phased, t: nat, i: nat)
    requires PhasedGood(h, vk, w) && t < |w.batches| && i < |w.batches[t].committed.active|
    ensures var c, leaves := w.batches[t].committed, w.state.oldLeaves;
            && i < |w.arrivals| && c.active[i].devInfor == w.arrivals[i].devInfor
            && i < |c.oldLeaves| <= |leaves| && c.oldLeaves == leaves[..|c.oldLeaves|] && c.oldLeaves[i] == leaves[i]
            && leaves[i] in leaves[..|c.oldLeaves|] && leaves[i] == w.arrivals[i].devInfor.merkleLeaf
  {
    assert BatchGood(h, vk, w.state.oldLeaves, w.arrivals, w.batches[t]);
    var c := w.batches[t].committed;
    assert c.active[i].(response := None) == w.arrivals[i];
    assert c.oldLeaves[i] == w.state.oldLeaves[i];
  }

  /** The last message received belongs to a batch of `m` leaves, the last full response to one of
      `a` leaves. */
  predicate Holds(w: Phased, received: seq<Sent>, i: nat, a: nat, m: nat) {
    && received != [] && AreToAttester(received, i)
    && received[|received| - 1].batch < |w.batches| && CountOf(w, received[|received| - 1].batch) == m
    && LastFull(received, i).Some? && LastFull(received, i).value < |w.batches|
    && CountOf(w, LastFull(received, i).value) == a
  }

  /** The root list a device holds is that of the last message's batch. */
  lemma HeldContext(h: Hash, vk: Bytes, w: Phased, received: seq<Sent>, i: nat, a: nat, m: nat)
    requires PhasedGood(h, vk, w) && Holds(w, received, i, a, m)
    requires SentGood(h, w, received[|received| - 1])
    ensures m <= |w.state.oldLeaves|
    ensures LastContext(FramesOf(received, i)) == PublicContext(Roots(h, w.state.oldLeaves[..m]), vk)
  {
    var last := received[|received| - 1];
    assert BatchGood(h, vk, w.state.oldLeaves, w.arrivals, w.batches[last.batch]);
    LastOfAppended(FramesOf(received[..|received| - 1], i), last.event.frame);
  }

  /** The response it holds is signed, and carries the path searched among the first `a` leaves. */
  lemma HeldResponse(h: Hash, vk: Bytes, w: Phased, received: seq<Sent>, i: nat, a: nat, m: nat)
    requires PhasedGood(h, vk, w) && Holds(w, received, i, a, m)
    requires forall k :: 0 <= k < |received| ==> SentGood(h, w, received[k])
    ensures i < |w.arrivals| && i < a <= |w.state.oldLeaves|
    ensures var leaves, r := w.state.oldLeaves, LastResponse(FramesOf(received, i));
            && leaves[i] in leaves[..a] && leaves[i] == w.arrivals[i].devInfor.merkleLeaf
            && r.Some? && ResponseGood(h, vk, w.arrivals[i].devInfor, r.value)
            && var p := DevicePathTag(h, Roots(h, leaves[..a]), leaves[..a], leaves[i]);
               r.value.shrubsPath == PathOption(p) && r.value.shrubsTag == TagOption(p)
  {
    var full := LastFull(received, i).value;
    LastFullResponse(h, w, received, i);
    var b := w.batches[full];
    assert BatchGood(h, vk, w.state.oldLeaves, w.arrivals, b);
    SnapshotOf(h, vk, w, full, i);
    BuiltResponse(h, b.env, b.committed, i);
  }

  /** The session of an honest device after some messages. */
  function SessionOf(h: Hash, key: KeyInfor, measurement: Bytes, received: seq<Sent>, i: nat): Session
    requires AreToAttester(received, i)
  {
    SessionAfter(h, key, GenerateDeviceClientInfor(h, key, measurement), FramesOf(received, i))
  }

  /** An honest device then holds the root list of the first `m` leaves, and the path searched among
      the first `a`. */
  lemma SessionOfBatches(h: Hash, vk: Bytes, w: Phased, i: nat, key: KeyInfor, measurement: Bytes,
                         received: seq<Sent>, a: nat, m: nat)
    requires PhasedGood(h, vk, w) && Holds(w, received, i, a, m)
    requires forall k :: 0 <= k < |received| ==> SentGood(h, w, received[k])
    requires i < |w.arrivals| && w.arrivals[i].devInfor == GenerateDeviceClientInfor(h, key, measurement)
    ensures m <= |w.state.oldLeaves| && i < a <= |w.state.oldLeaves| && w.state.oldLeaves[i] in w.state.oldLeaves[..a]
    ensures SessionSatisfied(h, SessionOf(h, key, measurement, received, i))
       <==> Accepted(h, Roots(h, w.state.oldLeaves[..m]), w.state.oldLeaves[i],
                     DevicePathTag(h, Roots(h, w.state.oldLeaves[..a]), w.state.oldLeaves[..a], w.state.oldLeaves[i]))
  {
    var leaves := w.state.oldLeaves;
    HeldContext(h, vk, w, received, i, a, m);
    HeldResponse(h, vk, w, received, i, a, m);
    SessionSatisfiedIff(h, vk, key, measurement, FramesOf(received, i));
    AcceptsOptions(h, Roots(h, leaves[..m]), leaves[i],
                   DevicePathTag(h, Roots(h, leaves[..a]), leaves[..a], leaves[i]));
  }

  /** Exactly when a device can prove, for every interleaving and after any prefix of what it was
      sent: the list of the last message's batch has, below the root the path leads to, the same leaves
      as the list of the batch that built the path. */
  lemma {:induction false} SessionIff(h: Hash, vk: Bytes, steps: seq<PhasedStep>, w: Phased, i: nat, key: KeyInfor,
                                      measurement: Bytes, k: nat, a: nat, m: nat)
    requires PossibleRun(h, vk, steps) && w == PhasedRun(h, steps)
    requires k <= |Received(w.wire, i)| && Holds(w, Received(w.wire, i)[..k], i, a, m)
    requires i < |w.arrivals| && w.arrivals[i].devInfor == GenerateDeviceClientInfor(h, key, measurement)
    requires CollisionFree(h) && LevelsApart(h, w.state.oldLeaves)
    ensures var leaves := w.state.oldLeaves;
            && m <= |leaves| && i < a <= |leaves| && leaves[i] in leaves[..a]
            && (SessionSatisfied(h, SessionOf(h, key, measurement, Received(w.wire, i)[..k], i))
                <==> RootsAgree(leaves, SearchLength(leaves[..a], leaves[i]), a, m))
  {
    EveryRunIsGood(h, vk, steps);
    PrefixGood(h, vk, w, i, k);
    SessionOfBatches(h, vk, w, i, key, measurement, Received(w.wire, i)[..k], a, m);
    SearchedPathAcceptedIff(h, w.state.oldLeaves, a, m, w.state.oldLeaves[i]);
  }

  /** The same without repeated leaves, by index arithmetic alone: the root that owned the leaf when the
      path was built covers it in the list of the last message's batch, older or newer. */
  lemma {:induction false} DistinctSessionIff(h: Hash, vk: Bytes, steps: seq<PhasedStep>, w: Phased, i: nat,
                                              key: KeyInfor, measurement: Bytes, k: nat, a: nat, m: nat)
    requires PossibleRun(h, vk, steps) && w == PhasedRun(h, steps)
    requires k <= |Received(w.wire, i)| && Holds(w, Received(w.wire, i)[..k], i, a, m)
    requires i < |w.arrivals| && w.arrivals[i].devInfor == GenerateDeviceClientInfor(h, key, measurement)
    requires DistinctNodes(h, w.state.oldLeaves)
    ensures i < a
    ensures SessionSatisfied(h, SessionOf(h, key, measurement, Received(w.wire, i)[..k], i))
       <==> Covers(m, OwnerLevel(i, a), i)
  {
    EveryRunIsGood(h, vk, steps);
    PrefixGood(h, vk, w, i, k);
    SessionOfBatches(h, vk, w, i, key, measurement, Received(w.wire, i)[..k], a, m);
    OwnerPathAcceptedIff(h, w.state.oldLeaves, a, m, i);
  }
}
