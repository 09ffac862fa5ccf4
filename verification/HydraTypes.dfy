/** The values exchanged on the Hydra channel (hydra-toolkit/src/lib.rs). */
module HydraTypes {
  import opened Wrappers
  import opened ShrubsTree

  type byte = x: int | 0 <= x < 256

  type Bytes = seq<byte>

  /** The number of values that `k` bytes can take. */
  function Pow256(k: nat): (p: nat)
    ensures p > 0
  {
    if k == 0 then 1 else 256 * Pow256(k - 1)
  }

  /** A time span; the source keeps whole seconds and nanoseconds below a second. */
  datatype Duration = Duration(secs: nat, nanos: nat)

  /** The order of the BLS12-381 scalar field. */
  const FIELD_ORDER: nat := 0x73eda753299d7d483339d80809a1d80553bda402fffe5bfeffffffff00000001

  function BigEndian(bytes: Bytes): nat {
    if bytes == [] then 0 else 256 * BigEndian(bytes[..|bytes| - 1]) + bytes[|bytes| - 1]
  }

  /** `BlsScalar::from(BigUint::from_bytes_be(bytes))`. */
  function FieldOfBytes(bytes: Bytes): Scalar {
    Fr(BigEndian(bytes) % FIELD_ORDER)
  }

  /** `BlsScalar::from(duration.as_secs())`. */
  function FieldOfSecs(d: Duration): Scalar {
    Fr(d.secs % FIELD_ORDER)
  }

  /** A secp256k1 key pair, by its encodings. */
  datatype KeyInfor = KeyInfor(signingKey: Bytes, verifyingKey: Bytes)

  /** What an attester submits. */
  datatype DeviceClientInfor = DeviceClientInfor(verifyingKey: Bytes, measuredValue: Bytes, merkleLeaf: Scalar)

  /** The verifier's endorsement: who signed, and the four fields signed. */
  datatype Signature = Signature(signer: Bytes, attesterPk: Bytes, authorizedInfor: Scalar, timestamp: nat, period: nat)

  datatype ResponseDeviceInfor = ResponseDeviceInfor(
    verifyingKey: Bytes, attesterAddr: string, timestamp: Duration, period: Duration,
    sig: Option<Signature>, shrubsPath: Option<seq<Scalar>>, shrubsTag: Option<seq<bool>>)

  datatype PublicContext = PublicContext(root: seq<Scalar>, verifierPk: Bytes)

  /** A message to an attester: an encrypted response with the context, or the context alone. */
  datatype Frame =
    | FullResponse(response: ResponseDeviceInfor, context: PublicContext)
    | ContextRefresh(context: PublicContext)

  /** The verifier's default validity of a response, in seconds. */
  const RESPONSE_PERIOD_SECS: nat := 8640000

  function NewResponse(pk: Bytes, now: Duration): ResponseDeviceInfor {
    ResponseDeviceInfor(pk, "", now, Duration(RESPONSE_PERIOD_SECS, 0), None, None, None)
  }

  /** The commitment as the verifier computes it from the submission and the response times
      (`generate_device_authoried_infor`). The source has three copies of this computation: this one,
      the attester's and the circuit's. */
  function DeviceAuthorizedInfor(h: Hash, dev: DeviceClientInfor, res: ResponseDeviceInfor): Scalar {
    var temp1 := h(FieldOfBytes(dev.verifyingKey), FieldOfBytes(dev.measuredValue));
    var temp2 := h(temp1, FieldOfSecs(res.timestamp));
    h(temp2, FieldOfSecs(res.period))
  }

  /** The attester's copy (`generate_verifier_authoried_infor`). */
  function ConfigAuthorizedInfor(h: Hash, ar: Scalar, pk: Scalar, time: Scalar, peri: Scalar): Scalar {
    var temp1 := h(pk, ar);
    var temp2 := h(temp1, time);
    h(temp2, peri)
  }

  /** The leaf as the attester computes it (`generate_device_merkle_leaf`); the circuit has its own copy. */
  function DeviceMerkleLeaf(h: Hash, key: KeyInfor, measurement: Bytes): Scalar {
    var c := h(FieldOfBytes(measurement), FieldOfBytes(key.signingKey));
    h(c, FieldOfBytes(key.verifyingKey))
  }

  /** The submission of an honest device: the leaf is derived from its own key and measurement. */
  function GenerateDeviceClientInfor(h: Hash, key: KeyInfor, measurement: Bytes): DeviceClientInfor {
    DeviceClientInfor(key.verifyingKey, measurement, DeviceMerkleLeaf(h, key, measurement))
  }

  // ----- the scalar field

  /** Byte strings are the same scalar exactly when they are congruent; below the order of the field and
      of one length, exactly when they are equal. */
  lemma {:induction false} SameField(a: Bytes, b: Bytes)
    ensures FieldOfBytes(a) == FieldOfBytes(b) <==> BigEndian(a) % FIELD_ORDER == BigEndian(b) % FIELD_ORDER
    ensures |a| == |b| && BigEndian(a) < FIELD_ORDER && BigEndian(b) < FIELD_ORDER ==>
              (FieldOfBytes(a) == FieldOfBytes(b) <==> a == b)
  {
    if |a| == |b| && BigEndian(a) == BigEndian(b) {
      SameBigEndian(a, b);
    }
  }

  lemma {:induction false} SameBigEndian(a: Bytes, b: Bytes)
    requires |a| == |b| && BigEndian(a) == BigEndian(b)
    ensures a == b
  {
    if a != [] {
      var m := |a| - 1;
      assert 256 * BigEndian(a[..m]) + a[m] == 256 * BigEndian(b[..m]) + b[m];
      SameBigEndian(a[..m], b[..m]);
      assert a == a[..m] + [a[m]] && b == b[..m] + [b[m]];
    }
  }

  /** Times of up to 64 bits are the same scalar exactly when their seconds are. */
  lemma SameSecs(a: Duration, b: Duration)
    requires a.secs < 0x1_0000_0000_0000_0000 && b.secs < 0x1_0000_0000_0000_0000
    ensures FieldOfSecs(a) == FieldOfSecs(b) <==> a.secs == b.secs
  {
  }
}
