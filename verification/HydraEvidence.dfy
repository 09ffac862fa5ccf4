/** What the relying party's check proves (relying-party/src/lib.rs): from the key, the times and the
    commitment of an evidence reply and the newest root list to an enrolled device and the response the
    verifier signed for it. */
module HydraEvidence {
  import opened Wrappers
  import opened ShrubsTree
  import opened ShrubsPath
  import opened Circuit
  import opened MembershipSoundness
  import opened HydraTypes
  import opened HydraClient
  import opened HydraRun
  import opened HydraPhases
  import opened HydraHonest

  // ----- what the signed commitment says

  /** The three copies of the commitment agree: verifier, attester and circuit. */
  lemma CommitmentsAgree(h: Hash, key: KeyInfor, dev: DeviceClientInfor, res: ResponseDeviceInfor, root: seq<Scalar>)
    requires key.verifyingKey == dev.verifyingKey
    ensures var config := NewConfig(h, key, dev, res);
            var c := CircuitOf(config, root);
            && config.authorizedInfor == DeviceAuthorizedInfor(h, dev, res)
            && c.output == AuthorizedInfor(h, c.pk, c.ar, c.time, c.period)
            && DeviceMerkleLeaf(h, key, dev.measuredValue) == DeviceLeaf(h, c.ar, c.sk, c.pk)
  {
  }

  /** The commitment binds: satisfied circuits with the same commitment agree on key, measurement and
      times. */
  lemma CommitmentBinds(h: Hash, a: AttestationCircuit, b: AttestationCircuit)
    requires CollisionFree(h) && Satisfied(h, a) && Satisfied(h, b)
    ensures a.output == b.output <==> a.pk == b.pk && a.ar == b.ar && a.time == b.time && a.period == b.period
  {
  }

  /** Exactly the key, measurement and times of the signed response open its commitment. */
  lemma CommitmentOpens(h: Hash, vk: Bytes, dev: DeviceClientInfor, r: ResponseDeviceInfor, c: AttestationCircuit)
    requires CollisionFree(h) && ResponseGood(h, vk, dev, r)
    ensures c.output == r.sig.value.authorizedInfor && Satisfied(h, c) ==>
              && c.pk == FieldOfBytes(dev.verifyingKey) && c.ar == FieldOfBytes(dev.measuredValue)
              && c.time == FieldOfSecs(r.timestamp) && c.period == FieldOfSecs(r.period)
    ensures c.pk == FieldOfBytes(dev.verifyingKey) && c.ar == FieldOfBytes(dev.measuredValue)
            && c.time == FieldOfSecs(r.timestamp) && c.period == FieldOfSecs(r.period) ==>
              r.sig.value.authorizedInfor == AuthorizedInfor(h, c.pk, c.ar, c.time, c.period)
  {
  }

  // ----- what an accepted proof says

  /** The reply's commitment is to the key of owner `o`, its measurement, and the reply's times. */
  predicate ClaimsOwner(h: Hash, e: EvidenceReply, o: Owner) {
    && FieldOfBytes(e.pk) == FieldOfBytes(o.key.verifyingKey)
    && e.authorizedInfor == h(h(h(FieldOfBytes(e.pk), FieldOfBytes(o.measurement)), FieldOfSecs(e.timestamp)),
                              FieldOfSecs(e.period))
  }

  function CircuitFor(e: EvidenceReply, root: seq<Scalar>, d: Device): AttestationCircuit {
    AttestationCircuit(FieldOfBytes(e.pk), d.sk, d.ar, FieldOfSecs(e.timestamp), FieldOfSecs(e.period),
                       e.authorizedInfor, root, None, None)
  }

  lemma OwnerOfDevice(owners: seq<Owner>, d: Device) returns (i: nat)
    requires d in DevicesOf(owners)
    ensures i < |owners| && d == DeviceOf(owners[i].key, owners[i].measurement)
  {
    i :| 0 <= i < |owners| && DevicesOf(owners)[i] == d;
    DevicesAt(owners, i);
  }

  /** Any circuit behind accepted inputs has the witnesses of an active attester's device. */
  lemma ProverIsActive(h: Hash, vk: Bytes, steps: seq<PhasedStep>, owners: seq<Owner>, e: EvidenceReply,
                       c: AttestationCircuit) returns (i: nat)
    requires PossibleRun(h, vk, steps) && HonestArrivals(h, PhasedRun(h, steps).arrivals, owners)
    requires CollisionFree(h) && !IsOutput(h, FieldOfBytes(e.pk))
    requires Satisfied(h, c) && PublicInputsOf(c) == EvidenceInputs(e, PhasedRun(h, steps).state.root)
    ensures i < |PhasedRun(h, steps).state.active| && i < |owners|
    ensures Device(c.ar, c.sk, c.pk) == DeviceOf(owners[i].key, owners[i].measurement)
    ensures ClaimsOwner(h, e, owners[i])
  {
    var w := PhasedRun(h, steps);
    var n := |w.state.oldLeaves|;
    EveryRunIsGood(h, vk, steps);
    ActiveAreEnrolled(h, Core(w), owners);
    InputsBind(c, CircuitFor(e, w.state.root, Device(c.ar, c.sk, c.pk)));
    SatisfiedIsEnrolled(h, w.state.oldLeaves, DevicesOf(owners[..n]), c);
    i := OwnerOfDevice(owners[..n], Device(c.ar, c.sk, c.pk));
  }

  /** Any active attester can have its evidence accepted. */
  lemma ActiveCanProve(h: Hash, vk: Bytes, steps: seq<PhasedStep>, owners: seq<Owner>, e: EvidenceReply, i: nat)
    requires PossibleRun(h, vk, steps) && HonestArrivals(h, PhasedRun(h, steps).arrivals, owners)
    requires CollisionFree(h) && !IsOutput(h, FieldOfBytes(e.pk))
    requires i < |PhasedRun(h, steps).state.active| && i < |owners| && ClaimsOwner(h, e, owners[i])
    ensures Provable(h, EvidenceInputs(e, PhasedRun(h, steps).state.root))
  {
    var root, n := PhasedRun(h, steps).state.root, |PhasedRun(h, steps).state.active|;
    var d := DeviceOf(owners[i].key, owners[i].measurement);
    var c := CircuitFor(e, root, d);
    NewestListAuthenticates(h, vk, steps, owners, c);
    DevicesAt(owners[..n], i);
    var p :| Satisfied(h, WithPath(c, p));
    assert PublicInputsOf(WithPath(c, p)) == EvidenceInputs(e, root);
  }

  /** The relying party's theorem. In every state of every interleaving, a proof for the inputs derived
      from a reply and the newest root list exists if and only if the reply's commitment is to the key and
      measurement of an active attester, and to the reply's own times. */
  lemma EvidenceProvableIff(h: Hash, vk: Bytes, steps: seq<PhasedStep>, owners: seq<Owner>, e: EvidenceReply)
    requires PossibleRun(h, vk, steps) && HonestArrivals(h, PhasedRun(h, steps).arrivals, owners)
    requires CollisionFree(h) && !IsOutput(h, FieldOfBytes(e.pk))
    ensures Provable(h, EvidenceInputs(e, PhasedRun(h, steps).state.root)) <==>
            exists i :: 0 <= i < |PhasedRun(h, steps).state.active| && i < |owners| && ClaimsOwner(h, e, owners[i])
  {
    var root := PhasedRun(h, steps).state.root;
    if Provable(h, EvidenceInputs(e, root)) {
      var c :| Satisfied(h, c) && PublicInputsOf(c) == EvidenceInputs(e, root);
      var i := ProverIsActive(h, vk, steps, owners, e, c);
    }
    forall i: nat | i < |PhasedRun(h, steps).state.active| && i < |owners| && ClaimsOwner(h, e, owners[i])
      ensures Provable(h, EvidenceInputs(e, root))
    {
      ActiveCanProve(h, vk, steps, owners, e, i);
    }
  }

  /** With the verifier's signature. If the reply carries the signature of a response the daemon has sent
      to attester `j`, over the reply's own commitment, whoever made the proof used the key and measurement
      of attester `j`'s submission and the times of that response, and is an active attester. */
  lemma SignedEvidence(h: Hash, vk: Bytes, steps: seq<PhasedStep>, owners: seq<Owner>, e: EvidenceReply,
                       c: AttestationCircuit, k: nat) returns (i: nat)
    requires PossibleRun(h, vk, steps) && HonestArrivals(h, PhasedRun(h, steps).arrivals, owners)
    requires CollisionFree(h) && !IsOutput(h, FieldOfBytes(e.pk))
    requires Satisfied(h, c) && PublicInputsOf(c) == EvidenceInputs(e, PhasedRun(h, steps).state.root)
    requires k < |PhasedRun(h, steps).wire|
    requires var event := PhasedRun(h, steps).wire[k].event;
             && event.ToAttester? && event.frame.FullResponse?
             && e.sig.Some? && e.sig == event.frame.response.sig && e.sig.value.authorizedInfor == e.authorizedInfor
    ensures i < |PhasedRun(h, steps).state.active| && i < |owners|
    ensures Device(c.ar, c.sk, c.pk) == DeviceOf(owners[i].key, owners[i].measurement)
    ensures var j, r := PhasedRun(h, steps).wire[k].event.socket, PhasedRun(h, steps).wire[k].event.frame.response;
            && j < |owners|
            && c.pk == FieldOfBytes(owners[j].key.verifyingKey) && c.ar == FieldOfBytes(owners[j].measurement)
            && c.time == FieldOfSecs(r.timestamp) == FieldOfSecs(e.timestamp)
            && c.period == FieldOfSecs(r.period) == FieldOfSecs(e.period)
  {
    var w := PhasedRun(h, steps);
    var s := w.wire[k];
    i := ProverIsActive(h, vk, steps, owners, e, c);
    EveryRunIsGood(h, vk, steps);
    SentIsSigned(h, vk, w, k);
    InputsBind(c, CircuitFor(e, w.state.root, Device(c.ar, c.sk, c.pk)));
    CommitmentOpens(h, vk, w.arrivals[s.event.socket].devInfor, s.event.frame.response, c);
  }

  /** Every response sent is signed over the submission it answers. */
  lemma SentIsSigned(h: Hash, vk: Bytes, w: Phased, k: nat)
    requires PhasedGood(h, vk, w) && k < |w.wire| && w.wire[k].event.ToAttester?
    requires w.wire[k].event.frame.FullResponse?
    ensures w.wire[k].event.socket < |w.arrivals|
    ensures ResponseGood(h, vk, w.arrivals[w.wire[k].event.socket].devInfor, w.wire[k].event.frame.response)
  {
    var s := w.wire[k];
    assert SentGood(h, w, s);
    var b := w.batches[s.batch];
    assert BatchGood(h, vk, w.state.oldLeaves, w.arrivals, b);
    BuiltResponse(h, b.env, b.committed, s.event.socket);
    assert b.committed.active[s.event.socket].(response := None) == w.arrivals[s.event.socket];
  }
}
