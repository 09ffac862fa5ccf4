/** The messages of the Hydra channel in the binary format: their fields in the order the source
    writes and reads them, nesting, message kinds, TCP frames and signing bytes. */
module WireMessages {
  import opened Wrappers
  import opened HydraTypes
  import opened WireCodec
  import opened WireBuffers

  // ----- the formats

  datatype ResponseWire = ResponseWire(
    verifyingKey: Bytes, attesterAddr: Bytes, timestamp: Duration, period: Duration,
    sig: Option<Bytes>, shrubsPath: Option<seq<Bytes>>, shrubsTag: Option<seq<bool>>)

  datatype PublicContextWire = PublicContextWire(root: seq<Bytes>, verifierPk: Bytes)

  datatype EncryptedMessage = EncryptedMessage(ephemeralPublicKey: Bytes, nonce: Bytes, ciphertext: Bytes)

  datatype EvidenceWire = EvidenceWire(
    proof: Bytes, vk: Bytes, sig: Bytes, pk: Bytes, timestamp: Duration, period: Duration,
    authorizedInfor: Bytes, timestampAttester: Duration, periodAttester: Duration,
    proofTimestampPeriodSignature: Bytes)

  datatype ConfigWire = ConfigWire(
    signingKey: Bytes, verifyingKey: Bytes, measuredValue: Bytes, timestamp: Duration, period: Duration,
    merkleLeaf: Bytes, merklePath: Option<seq<Bytes>>, merkleTag: Option<seq<bool>>,
    authorizedInfor: Bytes, signature: Option<Bytes>)

  const RESPONSE_SHAPES := [
    ObjectShape(KeyKind), TextShape, TimeShape, TimeShape, OptionShape(ObjectShape(SignatureKind)),
    OptionShape(ObjectsShape(ScalarKind)), OptionShape(FlagsShape)]

  const CONTEXT_SHAPES := [ObjectsShape(ScalarKind), ObjectShape(KeyKind)]

  const PAIR_SHAPES := [BlobShape, BlobShape]

  const ENCRYPTED_SHAPES := [BlobShape, BlobShape, BlobShape]

  const EVIDENCE_SHAPES := [
    ObjectShape(ProofKind), ObjectShape(VkKind), ObjectShape(SignatureKind), ObjectShape(KeyKind),
    TimeShape, TimeShape, ObjectShape(ScalarKind), TimeShape, TimeShape,
    ObjectShape(SignatureKind), ObjectShape(SignatureKind)]

  const CONFIG_SHAPES := [
    BlobShape, ObjectShape(KeyKind), ObjectShape(ScalarKind), TimeShape, TimeShape, ObjectShape(ScalarKind),
    OptionShape(ObjectsShape(ScalarKind)), OptionShape(FlagsShape), ObjectShape(ScalarKind),
    OptionShape(ObjectShape(SignatureKind))]

  function OptionalObject(kind: Kind, o: Option<Bytes>): Value {
    if o.None? then Nothing else Just(Object(kind, o.value))
  }

  function OptionalScalars(o: Option<seq<Bytes>>): Value {
    if o.None? then Nothing else Just(Objects(ScalarKind, o.value))
  }

  function OptionalFlags(o: Option<seq<bool>>): Value {
    if o.None? then Nothing else Just(Flags(o.value))
  }

  function ResponseValues(r: ResponseWire): seq<Value> {
    [Object(KeyKind, r.verifyingKey), Text(r.attesterAddr), Time(r.timestamp), Time(r.period),
     OptionalObject(SignatureKind, r.sig), OptionalScalars(r.shrubsPath), OptionalFlags(r.shrubsTag)]
  }

  function ContextValues(c: PublicContextWire): seq<Value> {
    [Objects(ScalarKind, c.root), Object(KeyKind, c.verifierPk)]
  }

  function EvidenceValues(e: EvidenceWire, deviceSignature: Bytes): seq<Value> {
    [Object(ProofKind, e.proof), Object(VkKind, e.vk), Object(SignatureKind, e.sig), Object(KeyKind, e.pk),
     Time(e.timestamp), Time(e.period), Object(ScalarKind, e.authorizedInfor),
     Time(e.timestampAttester), Time(e.periodAttester),
     Object(SignatureKind, e.proofTimestampPeriodSignature), Object(SignatureKind, deviceSignature)]
  }

  function ConfigValues(c: ConfigWire): seq<Value> {
    [Blob(c.signingKey), Object(KeyKind, c.verifyingKey), Object(ScalarKind, c.measuredValue), Time(c.timestamp),
     Time(c.period), Object(ScalarKind, c.merkleLeaf), OptionalScalars(c.merklePath), OptionalFlags(c.merkleTag),
     Object(ScalarKind, c.authorizedInfor), OptionalObject(SignatureKind, c.signature)]
  }

  // ----- reading the fields back

  predicate HasShape(shape: Shape, v: Value) {
    match (shape, v)
    case (BlobShape, Blob(_)) => true
    case (TextShape, Text(_)) => true
    case (TimeShape, Time(_)) => true
    case (ObjectShape(k), Object(k', _)) => k == k'
    case (ObjectsShape(k), Objects(k', _)) => k == k'
    case (FlagsShape, Flags(_)) => true
    case (OptionShape(_), Nothing) => true
    case (OptionShape(inner), Just(w)) => HasShape(inner, w)
    case _ => false
  }

  predicate HaveShapes(shapes: seq<Shape>, vs: seq<Value>) {
    |shapes| == |vs| && forall k :: 0 <= k < |vs| ==> HasShape(shapes[k], vs[k])
  }

  function ObjectOption(v: Value): Option<Bytes>
    requires HasShape(OptionShape(ObjectShape(SignatureKind)), v)
  {
    if v.Nothing? then None
    else
      assert HasShape(ObjectShape(SignatureKind), v.value);
      Some(v.value.encoding)
  }

  function ScalarsOption(v: Value): Option<seq<Bytes>>
    requires HasShape(OptionShape(ObjectsShape(ScalarKind)), v)
  {
    if v.Nothing? then None
    else
      assert HasShape(ObjectsShape(ScalarKind), v.value);
      Some(v.value.encodings)
  }

  function FlagsOption(v: Value): Option<seq<bool>>
    requires HasShape(OptionShape(FlagsShape), v)
  {
    if v.Nothing? then None
    else
      assert HasShape(FlagsShape, v.value);
      Some(v.value.flags)
  }

  function ResponseOf(vs: seq<Value>): ResponseWire
    requires HaveShapes(RESPONSE_SHAPES, vs)
  {
    assert forall k :: 0 <= k < 7 ==> HasShape(RESPONSE_SHAPES[k], vs[k]);
    ResponseWire(vs[0].encoding, vs[1].bytes, vs[2].duration, vs[3].duration,
                 ObjectOption(vs[4]), ScalarsOption(vs[5]), FlagsOption(vs[6]))
  }

  function ContextOf(vs: seq<Value>): PublicContextWire
    requires HaveShapes(CONTEXT_SHAPES, vs)
  {
    PublicContextWire(vs[0].encodings, vs[1].encoding)
  }

  function EvidenceOf(vs: seq<Value>): (EvidenceWire, Bytes)
    requires HaveShapes(EVIDENCE_SHAPES, vs)
  {
    (EvidenceWire(vs[0].encoding, vs[1].encoding, vs[2].encoding, vs[3].encoding, vs[4].duration, vs[5].duration,
                  vs[6].encoding, vs[7].duration, vs[8].duration, vs[9].encoding),
     vs[10].encoding)
  }

  function ConfigOf(vs: seq<Value>): ConfigWire
    requires HaveShapes(CONFIG_SHAPES, vs)
  {
    ConfigWire(vs[0].bytes, vs[1].encoding, vs[2].encoding, vs[3].duration, vs[4].duration, vs[5].encoding,
               ScalarsOption(vs[6]), FlagsOption(vs[7]), vs[8].encoding, ObjectOption(vs[9]))
  }

  lemma {:induction false} DecodedHasShape(lib: Library, shape: Shape, s: Bytes)
    ensures Decode(lib, shape, s).Got? ==> HasShape(shape, Decode(lib, shape, s).value)
    decreases shape
  {
    if shape.OptionShape? && s != [] && s[0] == 1 {
      DecodedHasShape(lib, shape.shape, s[1..]);
    }
  }

  lemma {:induction false} DecodedHaveShapes(lib: Library, shapes: seq<Shape>, s: Bytes)
    ensures DecodeAll(lib, shapes, s).Got? ==> HaveShapes(shapes, DecodeAll(lib, shapes, s).value)
    decreases |shapes|
  {
    if shapes != [] {
      DecodedHasShape(lib, shapes[0], s);
      if Decode(lib, shapes[0], s).Got? {
        DecodedHaveShapes(lib, shapes[1..], Decode(lib, shapes[0], s).rest);
      }
    }
  }

  // ----- encoders and decoders

  method EncodeMessage(vs: seq<Value>) returns (out: Bytes)
    ensures out == EncodeAll(vs)
  {
    var buffer := new ByteBuffer();
    buffer.AppendAll(vs);
    out := buffer.out;
    assert [] + EncodeAll(vs) == EncodeAll(vs);
  }

  function DecodeMessage(lib: Library, shapes: seq<Shape>, s: Bytes): (r: Option<seq<Value>>)
    ensures r.Some? ==> HaveShapes(shapes, r.value)
  {
    DecodedHaveShapes(lib, shapes, s);
    match DecodeAll(lib, shapes, s)
    case Failed => None
    case Got(vs, _) => Some(vs)
  }

  method ReadMessage(lib: Library, shapes: seq<Shape>, bytes: Bytes) returns (r: Option<seq<Value>>)
    ensures r == DecodeMessage(lib, shapes, bytes)
  {
    var cursor := new Cursor(bytes);
    r := cursor.ReadAll(lib, shapes);
  }

  lemma DecodeMessageOf(lib: Library, shapes: seq<Shape>, vs: seq<Value>, rest: Bytes)
    requires FitAll(lib, shapes, vs)
    ensures DecodeMessage(lib, shapes, EncodeAll(vs) + rest) == Some(vs)
  {
    DecodeAllOf(lib, shapes, vs, rest);
  }

  /** The verifier response: two nested messages behind length prefixes. */
  function VerifierResponseBytes(r: ResponseWire, c: PublicContextWire): Bytes {
    EncodeAll([Blob(EncodeAll(ResponseValues(r))), Blob(EncodeAll(ContextValues(c)))])
  }

  function DecodeVerifierResponse(lib: Library, bytes: Bytes): Option<(ResponseWire, PublicContextWire)> {
    match DecodeMessage(lib, PAIR_SHAPES, bytes)
    case None => None
    case Some(pair) =>
      match DecodeMessage(lib, RESPONSE_SHAPES, pair[0].bytes)
      case None => None
      case Some(rs) =>
        match DecodeMessage(lib, CONTEXT_SHAPES, pair[1].bytes)
        case None => None
        case Some(cs) => Some((ResponseOf(rs), ContextOf(cs)))
  }

  predicate ResponseFits(lib: Library, r: ResponseWire) {
    FitAll(lib, RESPONSE_SHAPES, ResponseValues(r)) && |EncodeAll(ResponseValues(r))| < U64_LIMIT
  }

  predicate ContextFits(lib: Library, c: PublicContextWire) {
    FitAll(lib, CONTEXT_SHAPES, ContextValues(c)) && |EncodeAll(ContextValues(c))| < U64_LIMIT
  }

  lemma ResponseOfValues(r: ResponseWire)
    requires HaveShapes(RESPONSE_SHAPES, ResponseValues(r))
    ensures ResponseOf(ResponseValues(r)) == r
  {
  }

  /** Decoding the verifier response inverts encoding it, through both levels of nesting. */
  lemma VerifierResponseRoundTrip(lib: Library, r: ResponseWire, c: PublicContextWire, rest: Bytes)
    requires ResponseFits(lib, r) && ContextFits(lib, c)
    ensures DecodeVerifierResponse(lib, VerifierResponseBytes(r, c) + rest) == Some((r, c))
  {
    var rb, cb := EncodeAll(ResponseValues(r)), EncodeAll(ContextValues(c));
    DecodeMessageOf(lib, PAIR_SHAPES, [Blob(rb), Blob(cb)], rest);
    DecodeMessageOf(lib, RESPONSE_SHAPES, ResponseValues(r), []);
    DecodeMessageOf(lib, CONTEXT_SHAPES, ContextValues(c), []);
    assert rb + [] == rb && cb + [] == cb;
    ResponseOfValues(r);
  }

  lemma EvidenceRoundTrip(lib: Library, e: EvidenceWire, deviceSignature: Bytes, rest: Bytes)
    requires FitAll(lib, EVIDENCE_SHAPES, EvidenceValues(e, deviceSignature))
    ensures DecodeMessage(lib, EVIDENCE_SHAPES, EncodeAll(EvidenceValues(e, deviceSignature)) + rest).Some?
    ensures EvidenceOf(DecodeMessage(lib, EVIDENCE_SHAPES, EncodeAll(EvidenceValues(e, deviceSignature)) + rest).value)
         == (e, deviceSignature)
  {
    DecodeMessageOf(lib, EVIDENCE_SHAPES, EvidenceValues(e, deviceSignature), rest);
  }

  /** Loading a saved configuration: the secret key has to be 32 bytes that the library takes. */
  function LoadConfig(lib: Library, isSecretKey: Bytes -> bool, bytes: Bytes): Option<ConfigWire> {
    match DecodeMessage(lib, CONFIG_SHAPES, bytes)
    case None => None
    case Some(vs) =>
      var c := ConfigOf(vs);
      if |c.signingKey| != 32 || !isSecretKey(c.signingKey) then None else Some(c)
  }

  lemma ConfigOfValues(c: ConfigWire)
    requires HaveShapes(CONFIG_SHAPES, ConfigValues(c))
    ensures ConfigOf(ConfigValues(c)) == c
  {
  }

  lemma ConfigRoundTrip(lib: Library, isSecretKey: Bytes -> bool, c: ConfigWire, rest: Bytes)
    requires FitAll(lib, CONFIG_SHAPES, ConfigValues(c))
    ensures LoadConfig(lib, isSecretKey, EncodeAll(ConfigValues(c)) + rest)
         == if |c.signingKey| == 32 && isSecretKey(c.signingKey) then Some(c) else None
  {
    DecodeMessageOf(lib, CONFIG_SHAPES, ConfigValues(c), rest);
    ConfigOfValues(c);
  }

  // ----- submissions

  /** A device submission as it travels, and the signature over its encoding. */
  datatype DeviceWire = DeviceWire(
    verifyingKey: Bytes, measuredValue: Bytes, merkleLeaf: Bytes, timestamp: Duration, period: Duration)

  const DEVICE_SHAPES := [BlobShape, TextShape, BlobShape, TimeShape, TimeShape]

  /** "DINF" */
  const MSG_DEVICE_INFOR: Bytes := [68, 73, 78, 70]

  function DeviceValues(d: DeviceWire): seq<Value> {
    [Blob(d.verifyingKey), Text(d.measuredValue), Blob(d.merkleLeaf), Time(d.timestamp), Time(d.period)]
  }

  function DeviceOf(vs: seq<Value>): DeviceWire
    requires HaveShapes(DEVICE_SHAPES, vs)
  {
    DeviceWire(vs[0].bytes, vs[1].bytes, vs[2].bytes, vs[3].duration, vs[4].duration)
  }

  function SubmissionBytes(d: DeviceWire, signature: Bytes): Bytes {
    MSG_DEVICE_INFOR + EncodeAll([Blob(EncodeAll(DeviceValues(d))), Blob(signature)])
  }

  function DecodeSubmission(lib: Library, bytes: Bytes): Option<(DeviceWire, Bytes)> {
    if !(MSG_DEVICE_INFOR <= bytes) then None
    else
      match DecodeMessage(lib, PAIR_SHAPES, bytes[|MSG_DEVICE_INFOR|..])
      case None => None
      case Some(pair) =>
        match DecodeMessage(lib, DEVICE_SHAPES, pair[0].bytes)
        case None => None
        case Some(vs) => Some((DeviceOf(vs), pair[1].bytes))
  }

  lemma BehindTag(tag: Bytes, payload: Bytes, rest: Bytes)
    ensures tag <= tag + payload + rest && (tag + payload + rest)[|tag|..] == payload + rest
  {
  }

  /** The verifier decodes what an attester submits. */
  lemma SubmissionRoundTrip(lib: Library, d: DeviceWire, signature: Bytes, rest: Bytes)
    requires FitAll(lib, DEVICE_SHAPES, DeviceValues(d)) && |EncodeAll(DeviceValues(d))| < U64_LIMIT
    requires |signature| < U64_LIMIT
    ensures DecodeSubmission(lib, SubmissionBytes(d, signature) + rest) == Some((d, signature))
  {
    var device := EncodeAll(DeviceValues(d));
    var payload := EncodeAll([Blob(device), Blob(signature)]);
    BehindTag(MSG_DEVICE_INFOR, payload, rest);
    DecodeMessageOf(lib, PAIR_SHAPES, [Blob(device), Blob(signature)], rest);
    DecodeMessageOf(lib, DEVICE_SHAPES, DeviceValues(d), []);
    assert device + [] == device;
  }
}
