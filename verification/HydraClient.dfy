/** The attester's side of the channel (attester/src/hydra_client.rs and the configuration of
    attester/src/lib.rs): each frame overwrites the stored context, a full response also the stored
    configuration, and evidence is proved from what is stored. */
module HydraClient {
  import opened Wrappers
  import opened ShrubsTree
  import opened Circuit
  import opened HydraTypes

  datatype DeviceConfigInfor = DeviceConfigInfor(
    signingKey: Bytes, verifyingKey: Bytes, measuredValue: Scalar, timestamp: Duration, period: Duration,
    merkleLeaf: Scalar, merklePath: Option<seq<Scalar>>, merkleTag: Option<seq<bool>>,
    authorizedInfor: Scalar, signature: Option<Signature>)

  /** The files of a session directory. */
  datatype Session = Session(
    config: Option<DeviceConfigInfor>, context: Option<PublicContext>, response: Option<ResponseDeviceInfor>)

  const NEW_SESSION := Session(None, None, None)

  function NewConfig(h: Hash, key: KeyInfor, dev: DeviceClientInfor, res: ResponseDeviceInfor): DeviceConfigInfor {
    var pk, ar := FieldOfBytes(key.verifyingKey), FieldOfBytes(dev.measuredValue);
    DeviceConfigInfor(
      key.signingKey, key.verifyingKey, ar, res.timestamp, res.period, dev.merkleLeaf,
      res.shrubsPath, res.shrubsTag,
      ConfigAuthorizedInfor(h, ar, pk, FieldOfSecs(res.timestamp), FieldOfSecs(res.period)), res.sig)
  }

  function HandleFrame(h: Hash, key: KeyInfor, dev: DeviceClientInfor, s: Session, frame: Frame): Session {
    match frame
    case ContextRefresh(context) => s.(context := Some(context))
    case FullResponse(res, context) => Session(Some(NewConfig(h, key, dev, res)), Some(context), Some(res))
  }

  /** Handling a frame when only the first `saves` files can be written: the response, the context, the
      configuration, in this order. The first failure ends the attempt. */
  function Persist(h: Hash, key: KeyInfor, dev: DeviceClientInfor, s: Session, frame: Frame, saves: nat)
    : (r: (Session, bool))
    ensures r.1 <==> saves >= (if frame.FullResponse? then 3 else 1)
    ensures r.1 ==> r.0 == HandleFrame(h, key, dev, s, frame)
  {
    match frame
    case ContextRefresh(context) => if saves == 0 then (s, false) else (s.(context := Some(context)), true)
    case FullResponse(res, context) =>
      if saves == 0 then (s, false)
      else if saves == 1 then (s.(response := Some(res)), false)
      else if saves == 2 then (s.(response := Some(res), context := Some(context)), false)
      else (HandleFrame(h, key, dev, s, frame), true)
  }

  /** After a failed save the configuration is the old one, so evidence can still be given exactly when
      the old path is accepted against the root list that is on file. */
  lemma FailedSave(h: Hash, vk: Bytes, key: KeyInfor, dev: DeviceClientInfor, s: Session, frame: Frame, saves: nat)
    requires SessionSatisfied(h, s) && !Persist(h, key, dev, s, frame, saves).1
    requires s.context.value.verifierPk == frame.context.verifierPk == vk
    ensures var s' := Persist(h, key, dev, s, frame, saves).0;
            && s'.config == s.config && s'.context.Some?
            && s'.context == (if saves == 2 then Some(frame.context) else s.context)
            && s'.response == (if saves >= 1 then Some(frame.response) else s.response)
            && var c := CircuitOf(s.config.value, s'.context.value.root);
               SessionSatisfied(h, s') <==> Accepts(h, c.root, DeviceLeaf(h, c.ar, c.sk, c.pk), c.path, c.tag)
  {
  }

  /** The session after handling `frames` in order. */
  function SessionAfter(h: Hash, key: KeyInfor, dev: DeviceClientInfor, frames: seq<Frame>): Session {
    if frames == [] then NEW_SESSION
    else HandleFrame(h, key, dev, SessionAfter(h, key, dev, frames[..|frames| - 1]), frames[|frames| - 1])
  }

  /** The circuit built from a configuration and a root list. */
  function CircuitOf(c: DeviceConfigInfor, root: seq<Scalar>): AttestationCircuit {
    AttestationCircuit(
      FieldOfBytes(c.verifyingKey), FieldOfBytes(c.signingKey), c.measuredValue,
      FieldOfSecs(c.timestamp), FieldOfSecs(c.period), c.authorizedInfor, root, c.merklePath, c.merkleTag)
  }

  /** What an evidence reply says besides its proof. */
  datatype EvidenceReply = EvidenceReply(
    sig: Option<Signature>, pk: Bytes, timestamp: Duration, period: Duration, authorizedInfor: Scalar)

  /** The reply built on a configuration. */
  function EvidenceOf(c: DeviceConfigInfor): EvidenceReply {
    EvidenceReply(c.signature, c.verifyingKey, c.timestamp, c.period, c.authorizedInfor)
  }

  /** The inputs the relying party derives from a reply and the root list it has. */
  function EvidenceInputs(e: EvidenceReply, root: seq<Scalar>): seq<Scalar> {
    GenPublicInputs(FieldOfBytes(e.pk), root, e.authorizedInfor, FieldOfSecs(e.timestamp), FieldOfSecs(e.period))
  }

  /** The stored session satisfies every constraint of the circuit, and carries the circuit's leaf and
      the verifier's signature over what it commits to. */
  predicate SessionSatisfied(h: Hash, s: Session) {
    && s.config.Some? && s.context.Some?
    && Satisfied(h, CircuitOf(s.config.value, s.context.value.root))
    && s.config.value.merkleLeaf == DeviceLeaf(h, s.config.value.measuredValue,
                                               FieldOfBytes(s.config.value.signingKey),
                                               FieldOfBytes(s.config.value.verifyingKey))
    && s.config.value.signature == Some(Signature(
         s.context.value.verifierPk, s.config.value.verifyingKey, s.config.value.authorizedInfor,
         s.config.value.timestamp.secs, s.config.value.period.secs))
  }

  class ClientSession {
    var config: Option<DeviceConfigInfor>
    var context: Option<PublicContext>
    var response: Option<ResponseDeviceInfor>

    ghost function View(): Session
      reads this
    {
      Session(config, context, response)
    }

    constructor ()
      ensures View() == NEW_SESSION
    {
      config, context, response := None, None, None;
    }

    /** Handle one frame: a context refresh leaves the configuration alone. */
    method PersistFrame(h: Hash, key: KeyInfor, dev: DeviceClientInfor, frame: Frame, saves: nat) returns (ok: bool)
      modifies this
      ensures (View(), ok) == Persist(h, key, dev, old(View()), frame, saves)
    {
      match frame {
        case ContextRefresh(ctx) =>
          if saves == 0 {
            return false;
          }
          context := Some(ctx);
        case FullResponse(res, ctx) =>
          if saves == 0 {
            return false;
          }
          response := Some(res);
          if saves == 1 {
            return false;
          }
          context := Some(ctx);
          if saves == 2 {
            return false;
          }
          config := Some(NewConfig(h, key, dev, res));
      }
      return true;
    }

    /** Evidence from the stored session: the prover succeeds exactly when the constraints hold, on
        the public inputs the relying party will use. */
    method GenerateEvidence(h: Hash) returns (r: Synthesis)
      requires config.Some? && context.Some?
      ensures SessionSatisfied(h, View())
          ==> r == Synthesized(true, EvidenceInputs(EvidenceOf(config.value), context.value.root))
      ensures r.Synthesized? && r.holds ==> Satisfied(h, CircuitOf(config.value, context.value.root))
    {
      r := GenerateConstraints(h, CircuitOf(config.value, context.value.root));
    }
  }

  // ----- what a stream of frames leaves in the session

  function LastContext(frames: seq<Frame>): PublicContext
    requires frames != []
  {
    frames[|frames| - 1].context
  }

  function LastResponse(frames: seq<Frame>): Option<ResponseDeviceInfor> {
    if frames == [] then None
    else if frames[|frames| - 1].FullResponse? then Some(frames[|frames| - 1].response)
    else LastResponse(frames[..|frames| - 1])
  }

  /** The response is for this device and signed by the verifier. */
  predicate ResponseGood(h: Hash, vk: Bytes, dev: DeviceClientInfor, res: ResponseDeviceInfor) {
    && res.verifyingKey == dev.verifyingKey
    && res.sig == Some(Signature(vk, dev.verifyingKey, DeviceAuthorizedInfor(h, dev, res), res.timestamp.secs,
        res.period.secs))
  }

  /** The last path received is accepted against the last root list received. */
  predicate LastGood(h: Hash, vk: Bytes, dev: DeviceClientInfor, frames: seq<Frame>)
    requires frames != []
  {
    && LastContext(frames).verifierPk == vk
    && LastResponse(frames).Some?
    && ResponseGood(h, vk, dev, LastResponse(frames).value)
    && Accepts(h, LastContext(frames).root, dev.merkleLeaf,
               LastResponse(frames).value.shrubsPath, LastResponse(frames).value.shrubsTag)
  }

  /** That holds after every frame. */
  ghost predicate StreamGood(h: Hash, vk: Bytes, dev: DeviceClientInfor, frames: seq<Frame>) {
    frames == [] || (StreamGood(h, vk, dev, frames[..|frames| - 1]) && LastGood(h, vk, dev, frames))
  }

  lemma {:induction false} GoodPrefix(h: Hash, vk: Bytes, dev: DeviceClientInfor, frames: seq<Frame>, k: nat)
    requires StreamGood(h, vk, dev, frames) && k <= |frames|
    ensures StreamGood(h, vk, dev, frames[..k])
    decreases |frames|
  {
    if k < |frames| {
      GoodPrefix(h, vk, dev, frames[..|frames| - 1], k);
      assert frames[..|frames| - 1][..k] == frames[..k];
    } else {
      assert frames[..k] == frames;
    }
  }

  lemma {:induction false} SessionHolds(h: Hash, key: KeyInfor, dev: DeviceClientInfor, frames: seq<Frame>)
    requires frames != []
    ensures SessionAfter(h, key, dev, frames).context == Some(LastContext(frames))
    ensures SessionAfter(h, key, dev, frames).response == LastResponse(frames)
    ensures LastResponse(frames).Some? ==>
              SessionAfter(h, key, dev, frames).config == Some(NewConfig(h, key, dev, LastResponse(frames).value))
    ensures LastResponse(frames).None? ==> SessionAfter(h, key, dev, frames).config == None
  {
    if |frames| > 1 {
      SessionHolds(h, key, dev, frames[..|frames| - 1]);
    }
  }

  /** With such a last frame, an honest attester holds a satisfying session. */
  lemma LastGoodSatisfies(h: Hash, vk: Bytes, key: KeyInfor, measurement: Bytes, frames: seq<Frame>)
    requires frames != [] && LastGood(h, vk, GenerateDeviceClientInfor(h, key, measurement), frames)
    ensures SessionSatisfied(h, SessionAfter(h, key, GenerateDeviceClientInfor(h, key, measurement), frames))
  {
    SessionHolds(h, key, GenerateDeviceClientInfor(h, key, measurement), frames);
  }

  /** An honest attester on a good stream holds a satisfying session after every frame. */
  lemma GoodStreamSatisfies(h: Hash, vk: Bytes, key: KeyInfor, measurement: Bytes, frames: seq<Frame>, k: nat)
    requires StreamGood(h, vk, GenerateDeviceClientInfor(h, key, measurement), frames) && 0 < k <= |frames|
    ensures SessionSatisfied(h, SessionAfter(h, key, GenerateDeviceClientInfor(h, key, measurement), frames[..k]))
  {
    GoodPrefix(h, vk, GenerateDeviceClientInfor(h, key, measurement), frames, k);
    LastGoodSatisfies(h, vk, key, measurement, frames[..k]);
  }
}
