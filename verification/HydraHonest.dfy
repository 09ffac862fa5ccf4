/** Runs in which every attester submits the leaf of its own device: what the other results assume of
    the tree then follows from the hash and the devices, and the newest root list authenticates exactly
    the devices that have arrived in time. */
module HydraHonest {
  import opened Wrappers
  import opened ShrubsTree
  import opened ShrubsPath
  import opened Circuit
  import opened MembershipSoundness
  import opened HydraTypes
  import opened HydraDaemon
  import opened HydraClient
  import opened HydraDispatch
  import opened HydraRun
  import opened HydraPhases

  /** The device behind a key pair and a measurement. */
  function DeviceOf(key: KeyInfor, measurement: Bytes): Device {
    Device(FieldOfBytes(measurement), FieldOfBytes(key.signingKey), FieldOfBytes(key.verifyingKey))
  }

  datatype Owner = Owner(key: KeyInfor, measurement: Bytes)

  function DevicesOf(owners: seq<Owner>): (r: seq<Device>)
    ensures |r| == |owners|
  {
    if owners == [] then []
    else
      DevicesOf(owners[..|owners| - 1])
      + [DeviceOf(owners[|owners| - 1].key, owners[|owners| - 1].measurement)]
  }

  lemma {:induction false} DevicesAt(owners: seq<Owner>, i: nat)
    requires i < |owners|
    ensures DevicesOf(owners)[i] == DeviceOf(owners[i].key, owners[i].measurement)
  {
    if i < |owners| - 1 {
      DevicesAt(owners[..|owners| - 1], i);
    }
  }

  /** Attester `i` submitted what its key and measurement give, and no field of its device is a hash. */
  ghost predicate HonestArrivals(h: Hash, arrivals: seq<AttesterSession>, owners: seq<Owner>) {
    && |arrivals| == |owners|
    && forall i :: 0 <= i < |arrivals| ==>
         && arrivals[i].devInfor == GenerateDeviceClientInfor(h, owners[i].key, owners[i].measurement)
         && IsRaw(h, DeviceOf(owners[i].key, owners[i].measurement))
  }

  lemma ActiveAreEnrolled(h: Hash, w: World, owners: seq<Owner>)
    requires Basic(h, w) && HonestArrivals(h, w.arrivals, owners)
    ensures |w.state.oldLeaves| <= |owners|
    ensures Enrolled(h, w.state.oldLeaves, DevicesOf(owners[..|w.state.oldLeaves|]))
  {
    var n := |w.state.oldLeaves|;
    forall i | 0 <= i < n
      ensures IsRaw(h, DevicesOf(owners[..n])[i])
      ensures w.state.oldLeaves[i] == DeviceLeaf(h, DevicesOf(owners[..n])[i].ar, DevicesOf(owners[..n])[i].sk,
                                                 DevicesOf(owners[..n])[i].pk)
    {
      DevicesAt(owners[..n], i);
      assert w.state.active[i].(response := None) == w.arrivals[i];
    }
  }

  /** In every state of every run, with any interleaving and any failures: some path satisfies the
      circuit against the newest root list if and only if the device is that of an active attester. */
  lemma {:induction false} NewestListAuthenticates(h: Hash, vk: Bytes, steps: seq<PhasedStep>, owners: seq<Owner>,
                                                   c: AttestationCircuit)
    requires PossibleRun(h, vk, steps) && HonestArrivals(h, PhasedRun(h, steps).arrivals, owners)
    requires CollisionFree(h) && !IsOutput(h, c.pk) && c.root == PhasedRun(h, steps).state.root
    requires c.output == AuthorizedInfor(h, c.pk, c.ar, c.time, c.period)
    ensures |PhasedRun(h, steps).state.active| <= |owners|
    ensures (exists p :: Satisfied(h, WithPath(c, p)))
       <==> Device(c.ar, c.sk, c.pk) in DevicesOf(owners[..|PhasedRun(h, steps).state.active|])
  {
    EveryRunIsGood(h, vk, steps);
    var w := PhasedRun(h, steps);
    ActiveAreEnrolled(h, Core(w), owners);
    EnrolledIff(h, w.state.oldLeaves, DevicesOf(owners[..|w.state.oldLeaves|]), c);
  }

  /** No two attesters have the same device. */
  predicate DifferentDevices(owners: seq<Owner>) {
    forall i, j :: 0 <= i < j < |owners| ==>
      DeviceOf(owners[i].key, owners[i].measurement) != DeviceOf(owners[j].key, owners[j].measurement)
  }

  /** The end-to-end guarantee without hypotheses about the tree: with a collision-free hash, raw and
      different devices, an attester none of whose responses failed satisfies the circuit after any
      prefix of what it was sent, and against the newest root list after all of it. */
  lemma {:induction false} HonestDevicesProve(h: Hash, vk: Bytes, steps: seq<Step>, owners: seq<Owner>, i: nat, k: nat)
    requires Possible(h, vk, steps) && HonestArrivals(h, Run(h, steps).arrivals, owners)
    requires CollisionFree(h) && DifferentDevices(owners)
    requires i < |Run(h, steps).state.active| && i !in Run(h, steps).everMissed && i < |owners|
    requires 0 < k <= |FramesTo(Run(h, steps).wire, i)|
    ensures var frames := FramesTo(Run(h, steps).wire, i);
            var dev := GenerateDeviceClientInfor(h, owners[i].key, owners[i].measurement);
            var session := SessionAfter(h, owners[i].key, dev, frames[..k]);
            && SessionSatisfied(h, session)
            && (k == |frames| ==> session.context.value.root == Run(h, steps).state.root)
  {
    var w := Run(h, steps);
    QueueConservation(h, vk, steps);
    HonestTree(h, w, owners);
    ClientAlwaysProves(h, vk, steps, i, owners[i].key, owners[i].measurement, k);
  }

  lemma HonestTree(h: Hash, w: World, owners: seq<Owner>)
    requires Basic(h, w) && HonestArrivals(h, w.arrivals, owners) && CollisionFree(h) && DifferentDevices(owners)
    ensures DistinctNodes(h, w.state.oldLeaves)
  {
    var devs := DevicesOf(owners[..|w.state.oldLeaves|]);
    ActiveAreEnrolled(h, w, owners);
    forall i, j | 0 <= i < j < |devs| ensures devs[i] != devs[j] {
      DevicesAt(owners[..|w.state.oldLeaves|], i);
      DevicesAt(owners[..|w.state.oldLeaves|], j);
    }
    DeviceTree(h, w.state.oldLeaves, devs);
  }
}
