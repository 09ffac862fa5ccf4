/** From the daemon's messages to bytes on a socket and back to the attester's session: the protocol of
    `HydraRun` over the formats of `WireMessages` and the frames of `WireFrames`. */
module HydraWire {
  import opened Wrappers
  import opened ShrubsTree
  import opened ShrubsPath
  import opened HydraTypes
  import opened HydraDispatch
  import opened HydraClient
  import opened HydraRun
  import opened WireCodec
  import opened WireBuffers
  import opened WireMessages
  import opened WireFrames

  // ----- values as they travel

  /** Foreign code: canonical bytes of scalars, signatures and addresses, and back. */
  datatype Encodings = Encodings(
    scalar: Scalar -> Bytes, scalarOf: Bytes -> Scalar,
    signature: Signature -> Bytes, signatureOf: Bytes -> Signature,
    text: string -> Bytes, textOf: Bytes -> string)

  ghost predicate Invertible(enc: Encodings) {
    && (forall x :: enc.scalarOf(enc.scalar(x)) == x)
    && (forall x :: enc.signatureOf(enc.signature(x)) == x)
    && (forall x :: enc.textOf(enc.text(x)) == x)
  }

  function ScalarsToWire(enc: Encodings, xs: seq<Scalar>): (r: seq<Bytes>)
    ensures |r| == |xs|
  {
    if xs == [] then [] else [enc.scalar(xs[0])] + ScalarsToWire(enc, xs[1..])
  }

  function ScalarsFromWire(enc: Encodings, bs: seq<Bytes>): (r: seq<Scalar>)
    ensures |r| == |bs|
  {
    if bs == [] then [] else [enc.scalarOf(bs[0])] + ScalarsFromWire(enc, bs[1..])
  }

  lemma {:induction false} ScalarsRoundTrip(enc: Encodings, xs: seq<Scalar>)
    requires Invertible(enc)
    ensures ScalarsFromWire(enc, ScalarsToWire(enc, xs)) == xs
  {
    if xs != [] {
      ScalarsRoundTrip(enc, xs[1..]);
    }
  }

  function ResponseToWire(enc: Encodings, r: ResponseDeviceInfor): ResponseWire {
    ResponseWire(
      r.verifyingKey, enc.text(r.attesterAddr), r.timestamp, r.period,
      if r.sig.None? then None else Some(enc.signature(r.sig.value)),
      if r.shrubsPath.None? then None else Some(ScalarsToWire(enc, r.shrubsPath.value)), r.shrubsTag)
  }

  function ResponseFromWire(enc: Encodings, r: ResponseWire): ResponseDeviceInfor {
    ResponseDeviceInfor(
      r.verifyingKey, enc.textOf(r.attesterAddr), r.timestamp, r.period,
      if r.sig.None? then None else Some(enc.signatureOf(r.sig.value)),
      if r.shrubsPath.None? then None else Some(ScalarsFromWire(enc, r.shrubsPath.value)), r.shrubsTag)
  }

  function ContextToWire(enc: Encodings, c: PublicContext): PublicContextWire {
    PublicContextWire(ScalarsToWire(enc, c.root), c.verifierPk)
  }

  function ContextFromWire(enc: Encodings, c: PublicContextWire): PublicContext {
    PublicContext(ScalarsFromWire(enc, c.root), c.verifierPk)
  }

  function UpdateOf(enc: Encodings, f: Frame): Update {
    match f
    case FullResponse(r, c) => FullUpdate(ResponseToWire(enc, r), ContextToWire(enc, c))
    case ContextRefresh(c) => ContextUpdate(ContextToWire(enc, c))
  }

  function FrameOf(enc: Encodings, u: Update): Frame {
    match u
    case FullUpdate(r, c) => FullResponse(ResponseFromWire(enc, r), ContextFromWire(enc, c))
    case ContextUpdate(c) => ContextRefresh(ContextFromWire(enc, c))
  }

  lemma UpdateRoundTrip(enc: Encodings, f: Frame)
    requires Invertible(enc)
    ensures FrameOf(enc, UpdateOf(enc, f)) == f
  {
    ScalarsRoundTrip(enc, f.context.root);
    if f.FullResponse? && f.response.shrubsPath.Some? {
      ScalarsRoundTrip(enc, f.response.shrubsPath.value);
    }
  }

  // ----- one frame

  /** What the attester has: the libraries, its secret for decryption, its key and its submission. */
  datatype Attester = Attester(
    lib: Library, enc: Encodings, unseal: EncryptedMessage -> Option<Bytes>, key: KeyInfor, dev: DeviceClientInfor)

  /** `bytes` carry a frame to the attester: the context in plaintext, or a response under some
      encryption that its secret undoes. */
  ghost predicate Carries(a: Attester, bytes: Bytes, f: Frame) {
    && UpdateFits(a.lib, UpdateOf(a.enc, f))
    && exists e: Encryption ::
         && e.unseal == a.unseal && bytes == EncodeUpdate(e, UpdateOf(a.enc, f))
         && (f.FullResponse? ==>
               Lawful(e, VerifierResponseBytes(ResponseToWire(a.enc, f.response), ContextToWire(a.enc, f.context))))
  }

  function Decoded(a: Attester, bytes: Bytes): Option<Frame> {
    match HandleBytes(a.lib, Encryption(_ => EncryptedMessage([], [], []), a.unseal), bytes)
    case Updated(u) => Some(FrameOf(a.enc, u))
    case Rejected => None
    case Undecodable => None
  }

  lemma OnlyUnsealMatters(lib: Library, e: Encryption, e': Encryption, bytes: Bytes)
    requires e.unseal == e'.unseal
    ensures HandleBytes(lib, e, bytes) == HandleBytes(lib, e', bytes)
  {
  }

  /** What is decoded is what was sent. */
  lemma {:induction false} CarriedIsDecoded(a: Attester, bytes: Bytes, f: Frame)
    requires Invertible(a.enc) && Carries(a, bytes, f)
    ensures Decoded(a, bytes) == Some(f)
  {
    var e: Encryption :|
      && e.unseal == a.unseal && bytes == EncodeUpdate(e, UpdateOf(a.enc, f))
      && (f.FullResponse? ==>
            Lawful(e, VerifierResponseBytes(ResponseToWire(a.enc, f.response), ContextToWire(a.enc, f.context))));
    DispatchInverts(a.lib, e, UpdateOf(a.enc, f));
    OnlyUnsealMatters(a.lib, e, Encryption(_ => EncryptedMessage([], [], []), a.unseal), bytes);
    UpdateRoundTrip(a.enc, f);
  }

  // ----- the attester's loop

  /** The attester as the loop sees it: a decoder, a key and a submission. */
  datatype Client = Client(decode: Bytes -> Option<Frame>, key: KeyInfor, dev: DeviceClientInfor)

  function ClientOf(a: Attester): Client {
    Client(bytes => Decoded(a, bytes), a.key, a.dev)
  }

  /** One message: dispatch, decode, persist. False where the source reports an error. */
  function Handle(h: Hash, c: Client, s: Session, bytes: Bytes, saves: nat): (Session, bool) {
    match c.decode(bytes)
    case None => (s, false)
    case Some(f) => Persist(h, c.key, c.dev, s, f, saves)
  }

  /** The loop over the stream: it ends at the first message that cannot be read, decoded or saved.
      `disk(k)` files can be written for message `k`. */
  function Receive(h: Hash, c: Client, s: Session, stream: Bytes, disk: nat -> nat, k: nat): Session
    decreases |stream|
  {
    match ReadFrame(stream)
    case Failed => s
    case Got(payload, rest) =>
      var r := Handle(h, c, s, payload, disk(k));
      if r.1 then Receive(h, c, r.0, rest, disk, k + 1) else r.0
  }

  /** Read one message from the stream, and handle it. */
  method ReadResponseAndPersist(h: Hash, a: Attester, stream: Cursor, session: ClientSession, saves: nat)
    returns (ok: bool)
    requires stream.Valid()
    modifies stream, session
    ensures stream.Valid()
    ensures match ReadFrame(old(stream.Rest()))
            case Failed => !ok && session.View() == old(session.View())
            case Got(payload, rest) =>
              && stream.Rest() == rest
              && (session.View(), ok) == Handle(h, ClientOf(a), old(session.View()), payload, saves)
  {
    var bytes := TcpReadFrame(stream);
    if bytes.None? {
      return false;
    }
    var update := ReadUpdate(a.lib, Encryption(_ => EncryptedMessage([], [], []), a.unseal), bytes.value);
    if !update.Updated? {
      return false;
    }
    ok := session.PersistFrame(h, a.key, a.dev, FrameOf(a.enc, update.update), saves);
  }

  /** The initial response, then updates until something fails. */
  method RunClient(h: Hash, a: Attester, stream: Cursor, session: ClientSession, disk: nat -> nat)
    requires stream.Valid()
    modifies stream, session
    ensures session.View() == Receive(h, ClientOf(a), old(session.View()), old(stream.Rest()), disk, 0)
  {
    var ok, k := true, 0;
    while ok
      invariant stream.Valid()
      invariant ok ==> Receive(h, ClientOf(a), session.View(), stream.Rest(), disk, k)
                       == Receive(h, ClientOf(a), old(session.View()), old(stream.Rest()), disk, 0)
      invariant !ok ==> session.View() == Receive(h, ClientOf(a), old(session.View()), old(stream.Rest()), disk, 0)
      decreases if ok then |stream.Rest()| + 1 else 0
    {
      FrameTakesBytes(stream.Rest());
      ok := ReadResponseAndPersist(h, a, stream, session, disk(k));
      k := k + 1;
    }
  }

  /** A rejection, or anything else that cannot be decoded, ends the loop and leaves the session as it is,
      whatever follows on the stream. */
  lemma {:induction false} RejectionEnds(h: Hash, a: Attester, s: Session, payload: Bytes, rest: Bytes,
                                         disk: nat -> nat, k: nat)
    requires |payload| <= MAX_TCP_FRAME_LEN
    requires Ascii("verification failed:") <= payload || Ascii("error:") <= payload
             || HandleBytes(a.lib, Encryption(_ => EncryptedMessage([], [], []), a.unseal), payload).Undecodable?
    ensures Receive(h, ClientOf(a), s, LenBytes(payload) + rest, disk, k) == s
  {
    TagsSpelled();
    ReadFrameOf(payload, rest);
    assert ClientOf(a).decode(payload) == None;
  }

  lemma FrameTakesBytes(stream: Bytes)
    ensures ReadFrame(stream).Got? ==> |ReadFrame(stream).rest| < |stream|
  {
  }

  // ----- bytes on the socket

  /** Each payload carries its frame and is small enough to be read. */
  ghost predicate AllCarried(a: Attester, payloads: seq<Bytes>, frames: seq<Frame>) {
    && |payloads| == |frames|
    && forall k :: 0 <= k < |frames| ==> Carries(a, payloads[k], frames[k]) && |payloads[k]| <= MAX_TCP_FRAME_LEN
  }

  /** The decoder gives each payload's frame. */
  predicate AllDecoded(c: Client, payloads: seq<Bytes>, frames: seq<Frame>)
    decreases |frames|
  {
    && |payloads| == |frames|
    && (frames != [] ==>
          && c.decode(payloads[0]) == Some(frames[0]) && |payloads[0]| <= MAX_TCP_FRAME_LEN
          && AllDecoded(c, payloads[1..], frames[1..]))
  }

  lemma {:induction false} AllCarriedAreDecoded(a: Attester, payloads: seq<Bytes>, frames: seq<Frame>)
    requires Invertible(a.enc) && AllCarried(a, payloads, frames)
    ensures AllDecoded(ClientOf(a), payloads, frames)
    decreases |frames|
  {
    if frames != [] {
      CarriedIsDecoded(a, payloads[0], frames[0]);
      AllCarriedAreDecoded(a, payloads[1..], frames[1..]);
    }
  }

  /** Handling frames from a session on, first one first. */
  function HandleAll(h: Hash, key: KeyInfor, dev: DeviceClientInfor, s: Session, frames: seq<Frame>): Session
    decreases |frames|
  {
    if frames == [] then s else HandleAll(h, key, dev, HandleFrame(h, key, dev, s, frames[0]), frames[1..])
  }

  lemma {:induction false} HandleAllSnoc(h: Hash, key: KeyInfor, dev: DeviceClientInfor, s: Session,
                                         frames: seq<Frame>, f: Frame)
    ensures HandleAll(h, key, dev, s, frames + [f]) == HandleFrame(h, key, dev, HandleAll(h, key, dev, s, frames), f)
    decreases |frames|
  {
    if frames == [] {
      assert [f][1..] == [] && [] + [f] == [f];
    } else {
      assert (frames + [f])[1..] == frames[1..] + [f];
      HandleAllSnoc(h, key, dev, HandleFrame(h, key, dev, s, frames[0]), frames[1..], f);
    }
  }

  lemma {:induction false} HandleAllIsSession(h: Hash, key: KeyInfor, dev: DeviceClientInfor, frames: seq<Frame>)
    ensures HandleAll(h, key, dev, NEW_SESSION, frames) == SessionAfter(h, key, dev, frames)
  {
    if frames != [] {
      var m := |frames| - 1;
      HandleAllIsSession(h, key, dev, frames[..m]);
      HandleAllSnoc(h, key, dev, NEW_SESSION, frames[..m], frames[m]);
      assert frames[..m] + [frames[m]] == frames;
    }
  }

  /** Some of the bytes of a stream hold its first frame, or no frame. */
  lemma CutFrame(payload: Bytes, more: Bytes, cut: Bytes)
    requires |payload| <= MAX_TCP_FRAME_LEN && cut <= LenBytes(payload) + more
    ensures |cut| < |LenBytes(payload)| ==> ReadFrame(cut) == Failed
    ensures |cut| >= |LenBytes(payload)| ==>
              var rest := cut[|LenBytes(payload)|..];
              rest <= more && ReadFrame(cut) == Got(payload, rest) && |cut| == |LenBytes(payload)| + |rest|
  {
    if |cut| >= |LenBytes(payload)| {
      var rest := cut[|LenBytes(payload)|..];
      PrefixSplits(LenBytes(payload), more, cut);
      ReadFrameOf(payload, rest);
    } else if |cut| >= 8 {
      var rest := cut[8..];
      EightBytes();
      Associate(U64(|payload|), payload, more);
      PrefixSplits(U64(|payload|), payload + more, cut);
      ReadUintOf(|payload|, 8, rest);
    }
  }

  lemma PrefixSplits(front: Bytes, more: Bytes, cut: Bytes)
    requires cut <= front + more && |front| <= |cut|
    ensures cut == front + cut[|front|..] && cut[|front|..] <= more
  {
    assert cut[|front|..] == (front + more)[|front|..|cut|] == more[..|cut| - |front|];
  }

  lemma ReceiveOne(h: Hash, c: Client, s: Session, stream: Bytes, payload: Bytes, rest: Bytes,
                   f: Frame, disk: nat -> nat, j: nat)
    requires ReadFrame(stream) == Got(payload, rest) && |rest| < |stream|
    requires c.decode(payload) == Some(f) && disk(j) >= 3
    ensures Receive(h, c, s, stream, disk, j) == Receive(h, c, HandleFrame(h, c.key, c.dev, s, f), rest, disk, j + 1)
  {
  }

  /** How many payloads are complete in the first `n` bytes of their stream. */
  function Arrived(payloads: seq<Bytes>, n: nat): (k: nat)
    ensures k <= |payloads|
  {
    if payloads == [] || n < |LenBytes(payloads[0])| then 0
    else 1 + Arrived(payloads[1..], n - |LenBytes(payloads[0])|)
  }

  lemma {:induction false} AllArrive(payloads: seq<Bytes>)
    ensures Arrived(payloads, |StreamOf(payloads)|) == |payloads|
  {
    if payloads != [] {
      AllArrive(payloads[1..]);
    }
  }

  lemma PrefixHandled(h: Hash, c: Client, s: Session, frames: seq<Frame>, k: nat)
    requires 0 < k <= |frames|
    ensures HandleAll(h, c.key, c.dev, s, frames[..k])
         == HandleAll(h, c.key, c.dev, HandleFrame(h, c.key, c.dev, s, frames[0]), frames[1..][..k - 1])
  {
    assert frames[..k][1..] == frames[1..][..k - 1];
  }

  lemma NothingReceived(h: Hash, c: Client, s: Session, frames: seq<Frame>, stream: Bytes,
                        disk: nat -> nat, j: nat)
    requires ReadFrame(stream) == Failed
    ensures Receive(h, c, s, stream, disk, j) == s == HandleAll(h, c.key, c.dev, s, frames[..0])
  {
  }

  /** However much of the stream arrives, what is handled are the frames that arrived completely. */
  lemma {:induction false} ReceiveCut(h: Hash, c: Client, s: Session, payloads: seq<Bytes>, frames: seq<Frame>,
                                      cut: Bytes, disk: nat -> nat, j: nat)
    requires AllDecoded(c, payloads, frames) && forall i :: disk(i) >= 3
    requires cut <= StreamOf(payloads)
    ensures Receive(h, c, s, cut, disk, j) == HandleAll(h, c.key, c.dev, s, frames[..Arrived(payloads, |cut|)])
    decreases |frames|
  {
    var k := Arrived(payloads, |cut|);
    if frames == [] {
      NothingReceived(h, c, s, frames, cut, disk, j);
    } else {
      var first, later := payloads[0], payloads[1..];
      CutFrame(first, StreamOf(later), cut);
      if |cut| < |LenBytes(first)| {
        NothingReceived(h, c, s, frames, cut, disk, j);
      } else {
        var rest := cut[|LenBytes(first)|..];
        var s' := HandleFrame(h, c.key, c.dev, s, frames[0]);
        assert Receive(h, c, s, cut, disk, j) == Receive(h, c, s', rest, disk, j + 1) by {
          ReceiveOne(h, c, s, cut, first, rest, frames[0], disk, j);
        }
        ReceiveCut(h, c, s', later, frames[1..], rest, disk, j + 1);
        PrefixHandled(h, c, s, frames, k);
      }
    }
  }

  /** The bytes of any frames, read by the attester's loop: its session is the one after the frames that
      arrived completely, all of them when all bytes did. */
  lemma {:induction false} BytesGiveSession(h: Hash, a: Attester, payloads: seq<Bytes>, frames: seq<Frame>,
                                            cut: Bytes, disk: nat -> nat)
    requires Invertible(a.enc) && AllCarried(a, payloads, frames)
    requires cut <= StreamOf(payloads) && forall j :: disk(j) >= 3
    ensures Receive(h, ClientOf(a), NEW_SESSION, cut, disk, 0)
         == SessionAfter(h, a.key, a.dev, frames[..Arrived(payloads, |cut|)])
    ensures cut == StreamOf(payloads) ==> Arrived(payloads, |cut|) == |frames|
  {
    AllCarriedAreDecoded(a, payloads, frames);
    ReceiveCut(h, ClientOf(a), NEW_SESSION, payloads, frames, cut, disk, 0);
    HandleAllIsSession(h, a.key, a.dev, frames[..Arrived(payloads, |cut|)]);
    AllArrive(payloads);
  }

  /** End to end, bytes included. Let any bytes of the stream that carries an attester's frames arrive, at
      least one whole frame; let its disk work. Then the attester's session satisfies the circuit
      against the root list it holds, and against the newest one if all bytes arrived. */
  lemma {:induction false} BytesProve(h: Hash, vk: Bytes, steps: seq<Step>, i: nat, a: Attester, measurement: Bytes,
                                      payloads: seq<Bytes>, cut: Bytes, disk: nat -> nat)
    requires Possible(h, vk, steps)
    requires i < |Run(h, steps).state.active| && i !in Run(h, steps).everMissed && i < |Run(h, steps).arrivals|
    requires DistinctNodes(h, Run(h, steps).state.oldLeaves)
    requires Run(h, steps).arrivals[i].devInfor == a.dev == GenerateDeviceClientInfor(h, a.key, measurement)
    requires Invertible(a.enc) && AllCarried(a, payloads, FramesTo(Run(h, steps).wire, i))
    requires cut <= StreamOf(payloads) && Arrived(payloads, |cut|) > 0
    requires forall j :: disk(j) >= 3
    ensures var session := Receive(h, ClientOf(a), NEW_SESSION, cut, disk, 0);
            && SessionSatisfied(h, session)
            && (cut == StreamOf(payloads) ==> session.context.value.root == Run(h, steps).state.root)
  {
    var frames := FramesTo(Run(h, steps).wire, i);
    BytesGiveSession(h, a, payloads, frames, cut, disk);
    ClientAlwaysProves(h, vk, steps, i, a.key, measurement, Arrived(payloads, |cut|));
  }
}
