/** Frames on a TCP stream, the attester's dispatch on what a frame holds, and signing bytes
    (hydra-toolkit/src/lib.rs and attester/src/hydra_client.rs). */
module WireFrames {
  import opened Wrappers
  import opened HydraTypes
  import opened WireCodec
  import opened WireBuffers
  import opened WireMessages

  // ----- frames

  const MAX_TCP_FRAME_LEN: nat := 512 * 1024 * 1024

  /** The bytes of frames sent one after the other: each behind its 64-bit length. */
  function StreamOf(payloads: seq<Bytes>): Bytes {
    ItemsBytes(payloads)
  }

  function ReadFrame(s: Bytes): Parsed<Bytes> {
    match ReadUint(s, 8)
    case Failed => Failed
    case Got(len, rest) =>
      if len > MAX_TCP_FRAME_LEN || |rest| < len then Failed else Got(rest[..len], rest[len..])
  }

  /** The payloads read from a stream until a read fails. */
  function ReadFrames(s: Bytes): seq<Bytes>
    decreases |s|
  {
    match ReadFrame(s)
    case Failed => []
    case Got(payload, rest) => [payload] + ReadFrames(rest)
  }

  lemma ReadFrameOf(payload: Bytes, rest: Bytes)
    requires |payload| < U64_LIMIT
    ensures ReadFrame(LenBytes(payload) + rest)
         == if |payload| > MAX_TCP_FRAME_LEN then Failed else Got(payload, rest)
  {
    EightBytes();
    ReadUintOf(|payload|, 8, payload + rest);
    Associate(U64(|payload|), payload, rest);
    assert (payload + rest)[..|payload|] == payload && (payload + rest)[|payload|..] == rest;
  }

  /** The sender does not check the size of a frame, the reader does: exactly the payloads before the
      first oversized one arrive, in order. */
  function UpToOversized(payloads: seq<Bytes>): seq<Bytes> {
    if payloads == [] || |payloads[0]| > MAX_TCP_FRAME_LEN then []
    else [payloads[0]] + UpToOversized(payloads[1..])
  }

  lemma {:induction false} StreamDelivers(payloads: seq<Bytes>)
    requires forall k :: 0 <= k < |payloads| ==> |payloads[k]| < U64_LIMIT
    ensures ReadFrames(StreamOf(payloads)) == UpToOversized(payloads)
  {
    if payloads != [] {
      ReadFrameOf(payloads[0], StreamOf(payloads[1..]));
      StreamDelivers(payloads[1..]);
    }
  }

  /** Reading inverts sending if and only if no payload is oversized. */
  lemma {:induction false} FramingIff(payloads: seq<Bytes>)
    requires forall k :: 0 <= k < |payloads| ==> |payloads[k]| < U64_LIMIT
    ensures ReadFrames(StreamOf(payloads)) == payloads <==>
            forall k :: 0 <= k < |payloads| ==> |payloads[k]| <= MAX_TCP_FRAME_LEN
  {
    StreamDelivers(payloads);
    if payloads != [] {
      FramingIff(payloads[1..]);
      StreamDelivers(payloads[1..]);
      assert payloads == [payloads[0]] + payloads[1..];
    }
  }

  method SendFrame(stream: ByteBuffer, payload: Bytes)
    modifies stream
    ensures stream.out == old(stream.out) + LenBytes(payload)
  {
    stream.AppendLenBytes(payload);
  }

  method TcpReadFrame(stream: Cursor) returns (r: Option<Bytes>)
    requires stream.Valid()
    modifies stream
    ensures stream.Valid()
    ensures ReadFrame(old(stream.Rest())) == if r.None? then Failed else Got(r.value, stream.Rest())
  {
    var len := stream.ReadInt(8);
    if len.None? || len.value > MAX_TCP_FRAME_LEN {
      return None;
    }
    r := stream.ReadExact(len.value);
  }

  // ----- message kinds

  function Ascii(s: string): (r: Bytes)
    ensures |r| == |s|
  {
    seq(|s|, i requires 0 <= i < |s| => s[i] as int % 256)
  }

  /** "PUBC" */
  const MSG_PUBLIC_CONTEXT: Bytes := [80, 85, 66, 67]

  /** "verification failed:" */
  const REJECTED: Bytes :=
    [118, 101, 114, 105, 102, 105, 99, 97, 116, 105, 111, 110, 32, 102, 97, 105, 108, 101, 100, 58]

  /** "error:" */
  const ERROR: Bytes := [101, 114, 114, 111, 114, 58]

  /** The byte constants, as text. */
  lemma TagsSpelled()
    ensures REJECTED == Ascii("verification failed:") && ERROR == Ascii("error:")
    ensures MSG_PUBLIC_CONTEXT == Ascii("PUBC") && MSG_DEVICE_INFOR == Ascii("DINF")
  {
  }

  /** What the verifier puts in a frame for an attester. */
  datatype Update =
    | FullUpdate(response: ResponseWire, context: PublicContextWire)
    | ContextUpdate(context: PublicContextWire)

  datatype Handled = Updated(update: Update) | Rejected | Undecodable

  /** Foreign code: encryption to the attester's key, and decryption with its secret. */
  datatype Encryption = Encryption(seal: Bytes -> EncryptedMessage, unseal: EncryptedMessage -> Option<Bytes>)

  /** A sealed message opens to the plaintext; the ephemeral key is a compressed point. */
  ghost predicate Lawful(e: Encryption, plaintext: Bytes) {
    var m := e.seal(plaintext);
    && e.unseal(m) == Some(plaintext)
    && |m.ephemeralPublicKey| == 33 && |m.nonce| == 12 && |m.ciphertext| < U64_LIMIT
  }

  function EncryptedValues(m: EncryptedMessage): seq<Value> {
    [Blob(m.ephemeralPublicKey), Blob(m.nonce), Blob(m.ciphertext)]
  }

  function EncodeUpdate(e: Encryption, u: Update): Bytes {
    match u
    case ContextUpdate(c) => MSG_PUBLIC_CONTEXT + EncodeAll(ContextValues(c))
    case FullUpdate(r, c) => EncodeAll(EncryptedValues(e.seal(VerifierResponseBytes(r, c))))
  }

  /** The attester's handling of a frame: rejections first, then the plaintext kind, and anything
      else is taken for an encrypted response. */
  function HandleBytes(lib: Library, e: Encryption, bytes: Bytes): Handled {
    if REJECTED <= bytes || ERROR <= bytes then Rejected
    else if MSG_PUBLIC_CONTEXT <= bytes then
      match DecodeMessage(lib, CONTEXT_SHAPES, bytes[|MSG_PUBLIC_CONTEXT|..])
      case None => Undecodable
      case Some(vs) => Updated(ContextUpdate(ContextOf(vs)))
    else
      match DecodeMessage(lib, ENCRYPTED_SHAPES, bytes)
      case None => Undecodable
      case Some(vs) =>
        match e.unseal(EncryptedMessage(vs[0].bytes, vs[1].bytes, vs[2].bytes))
        case None => Undecodable
        case Some(plaintext) =>
          match DecodeVerifierResponse(lib, plaintext)
          case None => Undecodable
          case Some((r, c)) => Updated(FullUpdate(r, c))
  }

  /** The verifier's side: build the message, then send it behind its length. */
  method SendUpdate(stream: ByteBuffer, e: Encryption, u: Update)
    modifies stream
    ensures stream.out == old(stream.out) + LenBytes(EncodeUpdate(e, u))
  {
    var message: Bytes;
    match u {
      case ContextUpdate(c) =>
        var payload := EncodeMessage(ContextValues(c));
        message := MSG_PUBLIC_CONTEXT + payload;
      case FullUpdate(r, c) =>
        var response := EncodeMessage(ResponseValues(r));
        var context := EncodeMessage(ContextValues(c));
        var plaintext := EncodeMessage([Blob(response), Blob(context)]);
        message := EncodeMessage(EncryptedValues(e.seal(plaintext)));
    }
    SendFrame(stream, message);
  }

  /** The attester's side, up to the values read. */
  method ReadUpdate(lib: Library, e: Encryption, bytes: Bytes) returns (r: Handled)
    ensures r == HandleBytes(lib, e, bytes)
  {
    if REJECTED <= bytes || ERROR <= bytes {
      return Rejected;
    }
    if MSG_PUBLIC_CONTEXT <= bytes {
      var vs := ReadMessage(lib, CONTEXT_SHAPES, bytes[|MSG_PUBLIC_CONTEXT|..]);
      return if vs.None? then Undecodable else Updated(ContextUpdate(ContextOf(vs.value)));
    }
    var sealed := ReadMessage(lib, ENCRYPTED_SHAPES, bytes);
    if sealed.None? {
      return Undecodable;
    }
    var plaintext := e.unseal(EncryptedMessage(sealed.value[0].bytes, sealed.value[1].bytes, sealed.value[2].bytes));
    if plaintext.None? {
      return Undecodable;
    }
    r := ReadResponse(lib, plaintext.value);
  }

  method ReadResponse(lib: Library, plaintext: Bytes) returns (r: Handled)
    ensures r == match DecodeVerifierResponse(lib, plaintext)
                 case None => Undecodable
                 case Some((response, context)) => Updated(FullUpdate(response, context))
  {
    var pair := ReadMessage(lib, PAIR_SHAPES, plaintext);
    if pair.None? {
      return Undecodable;
    }
    var response := ReadMessage(lib, RESPONSE_SHAPES, pair.value[0].bytes);
    if response.None? {
      return Undecodable;
    }
    var context := ReadMessage(lib, CONTEXT_SHAPES, pair.value[1].bytes);
    if context.None? {
      return Undecodable;
    }
    return Updated(FullUpdate(ResponseOf(response.value), ContextOf(context.value)));
  }

  predicate UpdateFits(lib: Library, u: Update) {
    ContextFits(lib, u.context) && (u.FullUpdate? ==> ResponseFits(lib, u.response))
  }

  lemma {:induction false} HighByteIsZero(n: nat, k: nat)
    requires k > 0 && n < Pow256(k - 1)
    ensures ToBigEndian(n, k)[0] == 0
  {
    if k > 1 {
      HighByteIsZero(n / 256, k - 1);
    }
  }

  lemma KindBytes()
    ensures MSG_PUBLIC_CONTEXT[0] == 80 && REJECTED[0] == 118 && ERROR[0] == 101
  {
  }

  /** An encrypted response starts with the length of a key, so never like another kind. */
  lemma EncryptedStartsWithZero(m: EncryptedMessage)
    requires |m.ephemeralPublicKey| == 33
    ensures EncodeAll(EncryptedValues(m)) != [] && EncodeAll(EncryptedValues(m))[0] == 0
  {
    assert Pow256(7) >= Pow256(1) == 256;
    HighByteIsZero(33, 8);
    assert Encode(EncryptedValues(m)[0])[0] == U64(33)[0];
  }

  /** The attester's dispatch inverts the verifier's choice of message, for every update. */
  lemma DispatchInverts(lib: Library, e: Encryption, u: Update)
    requires UpdateFits(lib, u)
    requires u.FullUpdate? ==> Lawful(e, VerifierResponseBytes(u.response, u.context))
    ensures HandleBytes(lib, e, EncodeUpdate(e, u)) == Updated(u)
  {
    KindBytes();
    match u
    case ContextUpdate(c) =>
      var payload := EncodeAll(ContextValues(c));
      assert (MSG_PUBLIC_CONTEXT + payload)[|MSG_PUBLIC_CONTEXT|..] == payload;
      DecodeMessageOf(lib, CONTEXT_SHAPES, ContextValues(c), []);
      assert payload + [] == payload;
    case FullUpdate(r, c) =>
      EncryptedDispatch(lib, e, r, c);
  }

  lemma EncryptedDispatch(lib: Library, e: Encryption, r: ResponseWire, c: PublicContextWire)
    requires ResponseFits(lib, r) && ContextFits(lib, c) && Lawful(e, VerifierResponseBytes(r, c))
    ensures HandleBytes(lib, e, EncodeUpdate(e, FullUpdate(r, c))) == Updated(FullUpdate(r, c))
  {
    var plaintext := VerifierResponseBytes(r, c);
    var m := e.seal(plaintext);
    var bytes := EncodeAll(EncryptedValues(m));
    KindBytes();
    EncryptedStartsWithZero(m);
    DecodeMessageOf(lib, ENCRYPTED_SHAPES, EncryptedValues(m), []);
    assert bytes + [] == bytes;
    VerifierResponseRoundTrip(lib, r, c, []);
    assert plaintext + [] == plaintext;
  }

  /** No message to an attester is taken for a submission. */
  lemma UpdateIsNoSubmission(lib: Library, e: Encryption, u: Update)
    requires u.FullUpdate? ==> Lawful(e, VerifierResponseBytes(u.response, u.context))
    ensures DecodeSubmission(lib, EncodeUpdate(e, u)) == None
  {
    if u.FullUpdate? {
      EncryptedStartsWithZero(e.seal(VerifierResponseBytes(u.response, u.context)));
    }
    assert MSG_DEVICE_INFOR[0] == 68 && MSG_PUBLIC_CONTEXT[0] == 80;
  }

  // ----- signing bytes

  /** The names under which the fields of an evidence reply are signed. */
  function FieldNames(): (names: seq<Bytes>)
    ensures |names| == 10 && forall k :: 0 <= k < 10 ==> |names[k]| < 64
  {
    [Ascii("proof"), Ascii("vk"), Ascii("sig"), Ascii("pk"), Ascii("timestamp"), Ascii("period"),
     Ascii("authorized_infor"), Ascii("timestamp_attester"), Ascii("period_attester"),
     Ascii("proof_timestamp_period_signature")]
  }

  /** The fields under their names. */
  function NamedFields(names: seq<Bytes>, e: EvidenceWire): seq<(Bytes, Bytes)>
    requires |names| == 10
  {
    [(names[0], e.proof), (names[1], e.vk), (names[2], e.sig), (names[3], e.pk),
     (names[4], TimeBytes(e.timestamp)), (names[5], TimeBytes(e.period)), (names[6], e.authorizedInfor),
     (names[7], TimeBytes(e.timestampAttester)), (names[8], TimeBytes(e.periodAttester)),
     (names[9], e.proofTimestampPeriodSignature)]
  }

  /** `append_field`, field after field: length and name, length and data. */
  function FieldsBytes(fields: seq<(Bytes, Bytes)>): Bytes {
    if fields == [] then []
    else LenBytes(fields[0].0) + (LenBytes(fields[0].1) + FieldsBytes(fields[1..]))
  }

  predicate FieldsFit(fields: seq<(Bytes, Bytes)>) {
    forall k :: 0 <= k < |fields| ==> |fields[k].0| < U64_LIMIT && |fields[k].1| < U64_LIMIT
  }

  lemma {:induction false} FieldsAreInjective(a: seq<(Bytes, Bytes)>, b: seq<(Bytes, Bytes)>)
    requires |a| == |b| && FieldsFit(a) && FieldsFit(b)
    requires FieldsBytes(a) == FieldsBytes(b)
    ensures a == b
  {
    if a != [] {
      ReadLenBytesOf(a[0].0, LenBytes(a[0].1) + FieldsBytes(a[1..]));
      ReadLenBytesOf(b[0].0, LenBytes(b[0].1) + FieldsBytes(b[1..]));
      ReadLenBytesOf(a[0].1, FieldsBytes(a[1..]));
      ReadLenBytesOf(b[0].1, FieldsBytes(b[1..]));
      FieldsAreInjective(a[1..], b[1..]);
      assert a == [a[0]] + a[1..] && b == [b[0]] + b[1..];
    }
  }

  function SigningBytes(e: EvidenceWire): Bytes {
    FieldsBytes(NamedFields(FieldNames(), e))
  }

  predicate EvidenceFits(e: EvidenceWire) {
    && |e.proof| < U64_LIMIT && |e.vk| < U64_LIMIT && |e.sig| < U64_LIMIT && |e.pk| < U64_LIMIT
    && |e.authorizedInfor| < U64_LIMIT && |e.proofTimestampPeriodSignature| < U64_LIMIT
    && IsTime(e.timestamp) && IsTime(e.period)
    && IsTime(e.timestampAttester) && IsTime(e.periodAttester)
  }

  lemma NamedFieldsFit(names: seq<Bytes>, e: EvidenceWire)
    requires |names| == 10 && (forall k :: 0 <= k < 10 ==> |names[k]| < 64) && EvidenceFits(e)
    ensures FieldsFit(NamedFields(names, e))
  {
  }

  lemma TimeIsInjective(a: Duration, b: Duration)
    requires IsTime(a) && IsTime(b) && TimeBytes(a) == TimeBytes(b)
    ensures a == b
  {
    ReadTimeOf(a, []);
    ReadTimeOf(b, []);
  }

  lemma SameFields(names: seq<Bytes>, a: EvidenceWire, b: EvidenceWire)
    requires |names| == 10 && NamedFields(names, a) == NamedFields(names, b)
    requires EvidenceFits(a) && EvidenceFits(b)
    ensures a == b
  {
    var fa, fb := NamedFields(names, a), NamedFields(names, b);
    assert forall k :: 0 <= k < |fa| ==> fa[k].1 == fb[k].1;
    TimeIsInjective(a.timestamp, b.timestamp) by { assert fa[4].1 == fb[4].1; }
    TimeIsInjective(a.period, b.period) by { assert fa[5].1 == fb[5].1; }
    TimeIsInjective(a.timestampAttester, b.timestampAttester) by { assert fa[7].1 == fb[7].1; }
    TimeIsInjective(a.periodAttester, b.periodAttester) by { assert fa[8].1 == fb[8].1; }
  }

  /** Two evidence replies that are signed as the same bytes are the same reply. */
  lemma {:induction false} SigningBytesAreInjective(a: EvidenceWire, b: EvidenceWire)
    requires EvidenceFits(a) && EvidenceFits(b)
    ensures SigningBytes(a) == SigningBytes(b) <==> a == b
  {
    if SigningBytes(a) == SigningBytes(b) {
      var names := FieldNames();
      NamedFieldsFit(names, a);
      NamedFieldsFit(names, b);
      FieldsAreInjective(NamedFields(names, a), NamedFields(names, b));
      SameFields(names, a, b);
    }
  }
}
