# Verified model of the Hydra accumulator and the protocol around it

The Hydra channel lets devices prove that they are on a whitelist. The verifier keeps the whitelist
as a *shrubs accumulator* - one Merkle root per tree level - inserts newly arrived devices in
batches, and sends every device either a fresh Merkle path or only the new root list. Each device
then proves membership with a zero-knowledge circuit that accepts a path leading to any of the roots.

This project models that core and the code next to it, and proves:

- **Accumulator.** Inserting a batch in place gives exactly the list built from scratch, for any
  split into batches; every root is the Merkle hash of the last even block of its level; the owner
  search and the list of affected indices are exact.
- **Paths.** A stored path leads to the root whose level is its length, for any hash, and runs from the
  leaf's first occurrence to the first root it meets. When a path searched in one root list is accepted
  by another one, older or newer, is decided by leaves and counts alone, and without repeated leaves by
  index arithmetic alone. So the refresh set is exact both ways.
- **Soundness.** With a collision-free hash, the measurement, secret key and public key of a satisfied
  circuit are those of an enrolled device, whatever path of whatever length is used; and every enrolled
  device can satisfy it. A proof for the inputs the relying party derives from a reply and the newest
  root list exists exactly for active attesters, and the verifier's signature ties it to the measurement
  and the validity window that were signed.
- **Runs.** Nobody is lost or served twice; with batches carried out one after the other every active
  device's stored path is accepted by the newest root list, and a device that has handled any prefix of
  its messages, down to the bytes on the socket, holds a session that satisfies every constraint.
  Refreshing a response never changes its validity window.
- **Overlapping batches.** The source stores and sends after releasing the lock, so batches can
  overtake each other. Over every interleaving there is an exact condition for every stored record and
  every device's session, and for when two responses differ in their windows; a run in which a late
  store spoils a good record; and a check before storing that rules this out.
- **Repeated leaves.** Runs are not safe when a leaf is queued twice: there is a counterexample, and the
  exact condition on the leaves and batch sizes of a run.
- **Around it.** The binary format in both directions, TCP framing, message dispatch and signing bytes;
  the TCG event log parser against a printer, on cut logs too; the register replay against a running
  hash, and what equal registers say about two logs; the component registry under any interleaving of
  calls, and exactly which calls return an id.

## How to read it

- `Binary` holds the index arithmetic, `ShrubsTree` the reference tree, `ShrubsInsert` the growing list.
- `ShrubsOwner`, `ShrubsInterval`, `ShrubsPath`, `ShrubsMembership`, `ShrubsExactPath`, `ShrubsRefresh`
  and `ShrubsBlocks` follow the rest of `hydra-toolkit/src/shurbstree.rs`: owners, intervals, the path
  search, and when a path is accepted where.
- `Circuit` is the circuit, `MembershipSoundness` what satisfying it proves.
- `HydraDaemon`, `HydraDispatch` and `HydraClient` are the two ends of the protocol. `HydraRun` and
  `HydraDuplicates` are about runs whose batches are single steps; `HydraPhases`, `HydraSessions` and
  `HydraOvertaking` about overlapping batches; `HydraAtomic` shows the first to be a case of the second;
  `HydraHonest` replaces hypotheses about the tree by hypotheses about devices; `HydraEvidence` is the
  relying party's side; `HydraStamps` and `HydraRenewals` are about validity windows; `HydraWire` goes
  down to bytes.
- `WireCodec`, `WireBuffers`, `WireMessages`, `WireFrames` and `WireStrict` are the format, `EventLog`,
  `EventParser`, `EventCuts`, `EventReplay` and `EventBinding` the event log, `WasmRegistry` the registry.

Code that updates fields, vectors or cursors is a class or a method, proved against a function; the
theorems are about the functions.

The Poseidon hash is an arbitrary two-argument function everywhere. Three hypotheses appear, each only
where it is needed: `DistinctNodes` (no two places of the tree at hand have equal nodes),
`LevelsApart` (no two nodes of different levels are equal; leaves may repeat) and `CollisionFree`.
`MembershipSoundness.DeviceTree` derives the first two from the third for trees over device leaves
`H(H(ar, sk), pk)`, if no `ar`, `sk` or `pk` is itself a hash; the leaves, of course, are hashes.

## Where code and documentation differ

The model follows the code.

- A leaf without a path is accepted by the circuit when it equals the first root
  (`attester/src/lib.rs:189`); `docs/en/hydra.md` and the comment of `find_shrubs_path` say that such
  a device cannot take part in the batch.
- `find_interval_index` is a linear search followed by cutting off powers of two; its comment calls it
  a binary search in a sorted list.
- The message tags are `DINF`, `PUBC` and `EVID`.
- The frame sender does not check the size limit that the frame reader enforces, so framing is a round
  trip exactly for payloads within the limit (`WireFrames.FramingIff`).
- The early return of `process_batch` on an empty queue is dead code (`HydraRun.QueueConservation`:
  a timer runs exactly when someone waits).
- The event check compares three of the four expected register values (`EventBinding.PassesIff`).
- A log cut inside the vendor data of a Spec ID header is accepted as if nothing was missing, since
  skipping is not bounds-checked; cut anywhere else inside an item it makes the parser panic
  (`EventCuts.CutHeaderOutcome`, `EventCuts.CutEventPanics`).
- The comment of `rely_party_verification` says that it returns true if all three checks pass; the result
  depends on the proof alone. `HydraEvidence` states what the proof alone says (`EvidenceProvableIff`)
  and what it says with the verifier's signature (`SignedEvidence`).
- The event log parser panics, rather than fails, on a well-formed log with one to seven bytes behind it
  (`EventLog.ShortTailPanics`).
- The comment in `queue_attester` says that a single timer prevents races on the state; the timer is
  single, but a batch stores its responses after the next timer may have fired
  (`HydraOvertaking.StaleRun`).

## Model

| member | source | states |
|---|---|---|
| Binary.ExponentsOfTwo | hydra-toolkit/src/shurbstree.rs:87-95 | the loop over `trailing_zeros` and `x & (x - 1)` lists exactly the set bits of x, strictly ascending, and their powers of two sum to x |
| Binary.ClearLowestBit | hydra-toolkit/src/shurbstree.rs:89-92 | `x & (x - 1)` removes exactly the power of two that `trailing_zeros` names, for every x > 0 |
| ShrubsTree.RootsShape | hydra-toolkit/src/shurbstree.rs:152-185 | floor(log2 n) + 1 roots; `root[k]` is the Merkle hash of exactly the 2^k leaves of its block, and fewer than two more blocks follow it |
| ShrubsTree.RootsUnfold | hydra-toolkit/src/shurbstree.rs:163-184 | pushing the last even element and recursing on the hashed pairs produces the reference list, defined level by level on tree nodes |
| ShrubsInsert.RootList.CreateBatchDevices | hydra-toolkit/src/shurbstree.rs:152-185 | the in-place build appends exactly the reference roots of the leaves |
| ShrubsInsert.FrontierStep | hydra-toolkit/src/shurbstree.rs:113-132 | hashed pairs, behind the old root when the old count has the next bit, are exactly the next level's nodes from the first affected position on |
| ShrubsInsert.InsertStep | hydra-toolkit/src/shurbstree.rs:103-147 | one level of insertion keeps "new roots below, old roots from here on", or stops with the complete new list |
| ShrubsInsert.RootList.InsertShrubsTree | hydra-toolkit/src/shurbstree.rs:103-147 | the in-place recursion terminates and computes `InsertLevels`, wherever that is defined: exactly where no read, write or subtraction panics |
| ShrubsInsert.RootList.InsertBatchDevices | hydra-toolkit/src/lib.rs:489-509 | incremental insertion in place equals rebuild, for any non-empty old leaves and any batch on which the code does not panic |
| ShrubsInsert.InsertBatchRebuilds | hydra-toolkit/src/lib.rs:489-509 | the update computed from the root list and the old count alone is the list rebuilt from all leaves; it panics exactly without old leaves, and on an empty batch behind an even count |
| ShrubsInsert.BatchesRebuild | hydra-toolkit/src/lib.rs:489-509 | inserting any non-empty batches one after the other ends with the list built from all leaves at once |
| ShrubsOwner.OwnerIsLeast | hydra-toolkit/src/shurbstree.rs:23-59 | every leaf is covered by some root block, and the owner is the least level that covers it |
| ShrubsOwner.FindOwnerRoot | hydra-toolkit/src/shurbstree.rs:24-59 | the loop returns the owner's level and 1-based span; `unreachable!` is not reached and the block size stays within the total |
| ShrubsOwner.OwnerSpanIsHashed | hydra-toolkit/src/shurbstree.rs:23-59 | the owner's span is a block of 2^level leaves that holds the leaf, and `root[level]` is the Merkle hash of exactly these leaves |
| ShrubsOwner.OwnerChangesIff | hydra-toolkit/src/shurbstree.rs:73-78 | the owner of an old leaf changes exactly when its old owner node is no longer the root of its level; once a root has passed a leaf it never returns |
| ShrubsOwner.AffectedMembers | hydra-toolkit/src/shurbstree.rs:61-82 | the scan's list is ascending and holds exactly the 1-based indices whose owner changes |
| ShrubsOwner.AffectedIndices | hydra-toolkit/src/shurbstree.rs:62-82 | the method returns that list |
| ShrubsInterval.IntervalIsLastBlock | hydra-toolkit/src/shurbstree.rs:281-302 | a leaf's interval is the last complete block of a set bit of the leaf count |
| ShrubsInterval.LargestPowerTwoLeq | hydra-toolkit/src/shurbstree.rs:256-266 | the result is a power of two p with p <= n < 2p |
| ShrubsInterval.FindIntervalIndex | hydra-toolkit/src/shurbstree.rs:271-305 | cutting off powers of two finds the interval of the first occurrence, or nothing when the leaf is absent or alone |
| ShrubsPath.FindShrubsPath | hydra-toolkit/src/shurbstree.rs:193-254 | the recursion that grows path and tags in place computes the climb the theorems are about |
| ShrubsPath.ClimbLandsOnRoot | hydra-toolkit/src/shurbstree.rs:193-254 | for any hash, a found path has as many tags as siblings and folds to the root that many levels up |
| ShrubsPath.BlockIsTopped | hydra-toolkit/src/shurbstree.rs:281-297 | the interval handed to the path search hashes up to the root of its own level |
| ShrubsPath.FindDeviceShrubsPathTag | hydra-toolkit/src/lib.rs:350-368 | interval search and climb combined |
| ShrubsMembership.DevicePathLandsOnRoot | hydra-toolkit/src/lib.rs:350-368 | for any hash and any listed leaf, the stored path folds to the root whose level is the path's length |
| ShrubsMembership.DevicePathTight | hydra-toolkit/src/lib.rs:350-368 | with levels apart, every listed leaf gets a path the circuit accepts, and none exactly when it equals `root[0]`; equal leaves are allowed |
| ShrubsExactPath.DevicePathIsSearchedPath | hydra-toolkit/src/lib.rs:350-368 | repeated leaves included, the stored path is the siblings from the leaf's first occurrence up to the first root of equal value |
| ShrubsExactPath.DevicePathIsOwnerPath | hydra-toolkit/src/shurbstree.rs:187-254 | with distinct nodes, the path is exactly the siblings up to the owner root, and its length is the owner's level |
| ShrubsRefresh.AcceptedElsewhereIff | attester/src/lib.rs:166-191 | for any leaves, a path good for the list of `a` leaves is accepted by that of `b`, older or newer, if and only if the two agree on the level of its length |
| ShrubsRefresh.StaysAcceptedIff | attester/src/lib.rs:166-191 | for any leaves, a stored path stays accepted after an insertion if and only if the root at the level of its length keeps its value |
| ShrubsRefresh.UnaffectedKeepsPath | hydra-toolkit/src/shurbstree.rs:61-82 | an old leaf whose owner does not change keeps its path sibling by sibling |
| ShrubsRefresh.RefreshIsExact | hydra-toolkit/src/shurbstree.rs:61-82 | outside `affected_indices` the path before and after is the same; inside exactly when the new list rejects the old path |
| ShrubsBlocks.SearchLengthIs | hydra-toolkit/src/lib.rs:350-368 | the length of the stored path is the least level on which the leaves above the first occurrence repeat those of the root, no hashing needed |
| ShrubsBlocks.SearchedPathAcceptedIff | attester/src/lib.rs:166-191 | a path searched among the first `a` leaves is accepted by the list of the first `b` if and only if the roots of that length lie above the same leaves: a condition on leaves and counts |
| ShrubsBlocks.OwnerPathAcceptedIff | attester/src/lib.rs:166-191 | with distinct nodes, if and only if the owner root of the first count covers the leaf in the second; for a newer list, if the owner did not change |
| Circuit.GenerateConstraints | attester/src/lib.rs:146-198 | synthesis holds exactly when membership and commitment hold, fails or panics exactly on the shapes the source rejects, and allocates the relying party's inputs in order |
| Circuit.InputsBind | hydra-toolkit/src/lib.rs:148-164 | two input vectors are equal if and only if key, root list, commitment, timestamp and period are |
| MembershipSoundness.AcceptedPathStartsInTree | attester/src/lib.rs:166-191 | for any claimed leaf and any accepted path: of the root's level it starts at a leaf, shorter at an inner node, longer it passes through a leaf |
| MembershipSoundness.MembershipIff | attester/src/lib.rs:166-191 | a value that is neither an inner node nor below a leaf has an accepted path if and only if it was inserted |
| MembershipSoundness.DeviceTree | attester/src/lib.rs:163-164 | leaves of raw devices are no inner nodes, levels are apart, and nodes are distinct exactly when devices are |
| MembershipSoundness.SatisfiedIsEnrolled | attester/src/lib.rs:146-198 | the witnesses of a satisfied circuit, with a path of any length, are the measurement, secret key and public key of an enrolled device |
| MembershipSoundness.EnrolledIff | attester/src/lib.rs:146-198 | with the right commitment, some path satisfies the circuit if and only if the device is enrolled |
| HydraDaemon.CommittedRoot | verifier/src/hydra_daemon.rs:243-261 | growing the list incrementally commits the list built from all leaves, and never panics |
| HydraDaemon.VerifierState.QueueAttester | verifier/src/hydra_daemon.rs:157-197 | appends to the queue, and asks for a timer exactly when none is running |
| HydraDaemon.VerifierState.CommitBatch | verifier/src/hydra_daemon.rs:226-300 | drains the queue in order, leaves the root list of all leaves, and splits the old attesters by whether their owner root changed |
| HydraDaemon.VerifierState.ComputeStoreAndSend | verifier/src/hydra_daemon.rs:353-410 | stores and sends, in order, exactly the responses that could be built from the committed state |
| HydraDaemon.VerifierState.ProcessBatch | verifier/src/hydra_daemon.rs:212-351 | without interference, the whole batch, fields and sends, is the batch step of the run model; overlapping batches are the subject of `HydraPhases` |
| HydraDispatch.BatchAddressesEachOnce | verifier/src/hydra_daemon.rs:265-350 | affected, unaffected and new attesters partition the active ones: each is addressed exactly once, with the right kind of message, unless its response or the context cannot be encoded; nobody else is |
| HydraDispatch.PublishedBeforeNewAttesters | verifier/src/hydra_daemon.rs:312-350 | every relying party is sent the new root list before any new attester is answered |
| HydraDispatch.EveryRelyingPartyPublished | verifier/src/hydra_daemon.rs:490-507 | exactly the relying parties that can be reached are told, if the context can be encoded |
| HydraDispatch.PublishesInOrder | verifier/src/hydra_daemon.rs:490-507 | if all can be reached, the relying parties are told the new root list in the configured order |
| HydraDispatch.BatchOrder | verifier/src/hydra_daemon.rs:302-350 | within each part of a batch the attesters are addressed in order of arrival |
| HydraDispatch.BatchStoreAt | verifier/src/hydra_daemon.rs:383-400 | a batch overwrites exactly the responses it sends and no other record |
| HydraClient.ClientSession.PersistFrame | attester/src/hydra_client.rs:138-172 | a refresh overwrites the context only, a full response response, context and configuration in this order, up to the first save that fails |
| HydraClient.FailedSave | attester/src/hydra_client.rs:155-169 | after a failed save the configuration is the old one, and evidence can still be given exactly when its path is accepted by the root list on file |
| HydraClient.ClientSession.GenerateEvidence | attester/src/lib.rs:441-477 | proving from a satisfying session succeeds on the public inputs the relying party derives |
| HydraClient.SessionHolds | attester/src/hydra_client.rs:121-172 | after any frames the session holds the last context and the configuration of the last full response |
| HydraClient.GoodStreamSatisfies | attester/src/lib.rs:146-198 | an honest device on a good stream satisfies every constraint after each frame |
| HydraRun.QueueConservation | verifier/src/hydra_daemon.rs:172-263 | over every run, active then pending are the arrivals in order, each leaf is its attester's, and one timer runs exactly when someone waits |
| HydraRun.BatchingIsIrrelevant | verifier/src/hydra_daemon.rs:243-261 | any two runs that cut the same arrivals into batches, each inserted incrementally, end with the same leaves and the root list built from scratch |
| HydraRun.WholeRunSafety | verifier/src/hydra_daemon.rs:212-351 | with batches as single steps and distinct nodes, every active attester's stored path is accepted by the newest root list, unless its last needed message could not be built |
| HydraRun.NobodyMisses | verifier/src/hydra_daemon.rs:383-430 | the exceptions are failures only: if every response and context can be encoded, no attester misses anything |
| HydraRun.ClientAlwaysProves | attester/src/hydra_client.rs:121-172 | an honest device that handled any prefix of its frames satisfies the circuit against its stored roots, and against the newest roots when it handled all |
| HydraRun.RecoveredClientProves | attester/src/hydra_client.rs:121-172 | whatever responses a device missed, once its last needed response was built, handling all its frames gives a session that satisfies the circuit against the newest root list |
| HydraStamps.ArrivalsRecorded | verifier/src/hydra_daemon.rs:157-185 | the i-th attester to arrive is recorded as arrival i with its submission, leaf and address |
| HydraStamps.StampNeverChanges | verifier/src/hydra_daemon.rs:444-449 | once an attester has a stored response its timestamp, period, address and key never change, and every full response ever sent to it carries them; the period is one hundred days and the address the one it arrived with |
| HydraDuplicates.DuplicateLeafIsStranded | hydra-toolkit/src/shurbstree.rs:279 | counterexample for repeated leaves: the second of two equal leaves is not refreshed and its record is rejected after the next batch |
| HydraDuplicates.StrandedRun | verifier/src/hydra_daemon.rs:212-351 | the counterexample as a daemon run: two attesters with one leaf in a batch, any other leaf in the next, and the second record is rejected although every build succeeded |
| HydraDuplicates.BatchAcceptedIff | verifier/src/hydra_daemon.rs:265-297 | one batch, equal leaves allowed: all stored paths are accepted afterwards if and only if, before it, for each attester not to be refreshed the leaves below its path's root are the same in the old and the grown list |
| HydraDuplicates.RunAcceptedIff | verifier/src/hydra_daemon.rs:212-351 | every run, equal leaves allowed: all stored paths are accepted if and only if a guard on the queued leaves and the batch sizes holds |
| HydraPhases.EveryRunIsGood | verifier/src/hydra_daemon.rs:212-410 | over every interleaving of arrivals, commits, stores and sends: queue and timers are conserved, the fields agree with the leaves, each record is the response of the batch that stored it last, each message one of its batch |
| HydraPhases.RecordAcceptedIff | verifier/src/hydra_daemon.rs:383-400 | in every reachable state, equal leaves and failures included, a record is accepted by the newest list if and only if the leaves below its root are the same as in the batch it was built in |
| HydraPhases.DistinctRecordAcceptedIff | verifier/src/hydra_daemon.rs:383-400 | with distinct nodes, if and only if its owner root has not changed since that batch |
| HydraRenewals.WindowsDifferIff | verifier/src/hydra_daemon.rs:444-449 | over every interleaving, two full responses to one attester differ if and only if they go back to batches of different clocks, each committed while it had no stored response |
| HydraRenewals.OneWindow | verifier/src/hydra_daemon.rs:444-449 | they never differ if only one batch was committed while the attester was active without a stored response |
| HydraRenewals.WindowMovesBack | verifier/src/hydra_daemon.rs:383-400 | a run in which a late store puts a stored timestamp back to an older batch's clock |
| HydraSessions.SessionIff | attester/src/hydra_client.rs:121-172 | over every interleaving and after any prefix of its messages, a device's session satisfies the circuit if and only if the last message's batch and the last full response's batch have the same leaves below the path's root |
| HydraSessions.DistinctSessionIff | attester/src/hydra_client.rs:121-172 | with distinct nodes, if and only if the owner root of the response's batch covers the leaf in the last message's batch, be it older or newer |
| HydraOvertaking.OrderedRecordAccepted | verifier/src/hydra_daemon.rs:381-400 | if no response is stored over that of a later batch, a record with no store outstanding is accepted by the newest root list, whatever else interleaves |
| HydraOvertaking.StaleRun | verifier/src/hydra_daemon.rs:302-350 | a run of three attesters in which every step succeeds and an older batch, storing late, replaces an accepted record by a rejected one |
| HydraAtomic.AtomicBatch | verifier/src/hydra_daemon.rs:212-351 | a committed batch that nothing comes in between stores and sends exactly what the batch step of the run model does |
| HydraHonest.NewestListAuthenticates | attester/src/lib.rs:146-198 | in every state of every interleaving, some path satisfies the circuit against the newest list if and only if the device is that of an active attester |
| HydraHonest.HonestDevicesProve | attester/src/hydra_client.rs:121-172 | `ClientAlwaysProves` with nothing assumed but a collision-free hash and raw, different devices |
| HydraTypes.SameField | hydra-toolkit/src/lib.rs:399-406 | byte strings become the same scalar exactly when congruent modulo the field order, and below it, for one length, exactly when equal |
| HydraEvidence.CommitmentsAgree | hydra-toolkit/src/lib.rs:455-487 | the verifier's, the attester's and the circuit's copies of the commitment agree, and so do the two copies of the leaf |
| HydraEvidence.CommitmentBinds | attester/src/lib.rs:193-196 | satisfied circuits have the same commitment if and only if they agree on key, measurement, timestamp and period |
| HydraEvidence.CommitmentOpens | hydra-toolkit/src/lib.rs:455-475 | a satisfied circuit with the commitment of a signed response has the key and measurement of the submission and the times of the response |
| HydraEvidence.EvidenceProvableIff | relying-party/src/lib.rs:83-130 | in every state of every interleaving, the inputs derived from a reply and the newest list can be proved if and only if the reply commits to the key and measurement of an active attester and to its own times |
| HydraEvidence.SignedEvidence | relying-party/src/lib.rs:53-71 | with the signature of a response sent to attester j, the prover is an active attester and used the key and measurement of j and the times of that response |
| HydraWire.CarriedIsDecoded | hydra-toolkit/src/lib.rs:1103-1122 | a response or context, mapped to its wire form, encoded and encrypted, is decoded to itself |
| HydraWire.ReadResponseAndPersist | attester/src/hydra_client.rs:121-172 | one frame read from the stream: rejections, undecodable frames, failed saves, and otherwise the session step |
| HydraWire.RunClient | attester/src/hydra_client.rs:72-98 | the loop handles frames until the first that cannot be read, decoded or saved |
| HydraWire.RejectionEnds | attester/src/hydra_client.rs:131-136 | a rejection or an undecodable frame ends the loop and leaves the session as it is |
| HydraWire.BytesGiveSession | attester/src/hydra_client.rs:72-172 | from any part of the byte stream that carries some frames, the loop ends with the session after the frames that arrived completely |
| HydraWire.BytesProve | attester/src/hydra_client.rs:72-172 | the bytes of an attester's frames in a run, cut anywhere behind the first frame, leave a session that satisfies the circuit, against the newest root list when all arrived |
| WireCodec.DecodeOf | hydra-toolkit/src/lib.rs:538-684 | decoding any encoded value, followed by any bytes, returns the value and leaves those bytes |
| WireCodec.DecodeAllOf | hydra-toolkit/src/lib.rs:898-1078 | the same for every message format, as a list of fields |
| WireCodec.EncodingIsInjective | hydra-toolkit/src/lib.rs:898-1078 | equal bytes mean equal messages |
| WireStrict.DecodeExact | hydra-toolkit/src/lib.rs:543-684 | bytes that decode are the encoding of what they decode to, except exactly for durations with a second or more of nanoseconds; no stray flag, option tag or length is accepted |
| WireStrict.DecodedFits | hydra-toolkit/src/lib.rs:543-684 | whatever the bytes, a decoded value has its shape: UTF-8 text, canonical objects, normalized durations |
| WireStrict.DecodeAllExact | hydra-toolkit/src/lib.rs:898-1078 | the same for whole messages, whatever follows |
| WireBuffers.ByteBuffer.AppendAll | hydra-toolkit/src/lib.rs:538-680 | the growing vector ends as its old contents followed by the encoding |
| WireBuffers.Cursor.ReadAll | hydra-toolkit/src/lib.rs:543-684 | the advancing cursor reads exactly what the parser function returns, and fails exactly when it fails |
| WireMessages.VerifierResponseRoundTrip | hydra-toolkit/src/lib.rs:1080-1098 | response and context survive two levels of length prefixes, options, vectors and durations |
| WireMessages.SubmissionRoundTrip | hydra-toolkit/src/lib.rs:902-937 | a tagged, signed submission decodes to the device record and signature that were encoded |
| WireMessages.EvidenceRoundTrip | hydra-toolkit/src/lib.rs:1043-1078 | the evidence bundle decodes to what was encoded |
| WireMessages.ConfigRoundTrip | attester/src/lib.rs:387-430 | a saved configuration loads to itself exactly when its key is 32 bytes and valid |
| WireFrames.StreamDelivers | hydra-toolkit/src/lib.rs:1180-1212 | reading a stream of sent payloads yields those before the first oversized one, in order |
| WireFrames.FramingIff | hydra-toolkit/src/lib.rs:1180-1212 | reading inverts sending if and only if no payload exceeds the limit |
| WireFrames.TcpReadFrame | hydra-toolkit/src/lib.rs:1195-1212 | one frame is read, or refused for size or missing bytes |
| WireFrames.SendUpdate | hydra-toolkit/src/lib.rs:1080-1111 | the verifier's encoders and the frame writer put exactly the encoded update behind its length |
| WireFrames.ReadUpdate | attester/src/hydra_client.rs:128-153 | prefix tests and cursor decoders return what the dispatch function says |
| WireFrames.DispatchInverts | attester/src/hydra_client.rs:128-157 | the attester's dispatch recovers the verifier's update, encrypted or plain; an encrypted response never looks like another kind |
| WireFrames.UpdateIsNoSubmission | hydra-toolkit/src/lib.rs:1140-1147 | no message to an attester is taken for a submission |
| WireFrames.SigningBytesAreInjective | hydra-toolkit/src/lib.rs:166-250 | evidence replies with the same signing bytes agree on every field |
| EventLog.ParsePrinted | evidence-verify/src/eventlog_rs/mod.rs:99-176 | parsing any well-formed printed log followed by anything yields its entries and continues with the declared sizes |
| EventLog.ParseInvertsPrint | evidence-verify/src/eventlog_rs/mod.rs:99-176 | with the end of data or a stop pattern and junk behind it, the entries come back exactly, in order |
| EventLog.ShortTailPanics | evidence-verify/src/eventlog_rs/mod.rs:99-176 | a well-formed log with one to seven bytes behind it makes the parser panic |
| EventCuts.CutEventPanics | evidence-verify/src/eventlog_rs/mod.rs:137-163 | a well-formed log cut anywhere inside an event record makes the parser panic |
| EventCuts.CutHeaderOutcome | evidence-verify/src/eventlog_rs/mod.rs:119-135 | a log cut inside a Spec ID header makes it panic exactly when the cut is at or before the vendor size; otherwise the entries before it are returned |
| EventCuts.UndeclaredIsReported | evidence-verify/src/eventlog_rs/mod.rs:140-153 | the first digest of an undeclared algorithm is reported, whatever follows |
| EventParser.ReadDigestList | evidence-verify/src/eventlog_rs/mod.rs:140-157 | the digest loop reads what the parser function says, with its two ways to fail |
| EventParser.TryFrom | evidence-verify/src/eventlog_rs/mod.rs:99-176 | the index loop computes the parse, panics included, and the index advances on every iteration |
| EventReplay.FoldComposes | evidence-verify/src/eventlog_rs/mod.rs:82-90 | replaying a log in two parts is replaying it whole |
| EventReplay.FoldOfGroup | evidence-verify/src/eventlog_rs/mod.rs:67-90 | hashing a register's group is folding the log for that register |
| EventReplay.ReplayMeasurementRegistry | evidence-verify/src/eventlog_rs/mod.rs:59-93 | group-then-hash equals, for every register, the in-order fold, in whatever order groups are visited |
| EventReplay.ValidateEventLogDigests | evidence-verify/src/virtcca/event_log.rs:165-175 | reports the first entry without a usable digest |
| EventReplay.CompareRtmrWithEventLog | evidence-verify/src/virtcca/event_log.rs:46-96 | true exactly when registers 1 to 3 are present with 32 bytes and equal the first three expected values |
| EventReplay.EventVerify | evidence-verify/src/virtcca/event_log.rs:209-229 | each verdict exactly: empty log, parse error, panic, missing digest, register mismatch, unreadable references, acceptance |
| EventBinding.FoldIsRunning | evidence-verify/src/eventlog_rs/mod.rs:79-88 | replaying a register is hashing, from 32 zero bytes, the running value followed by each first digest addressed to it |
| EventBinding.ReplayBinds | evidence-verify/src/eventlog_rs/mod.rs:59-93 | without collisions or zero results among the messages hashed, two logs give a register the same value if and only if they have the same first digests for it in the same order |
| EventBinding.PassesIff | evidence-verify/src/virtcca/event_log.rs:165-225 | a printed log passes exactly when every entry has a non-empty first digest and the running hashes of registers 1 to 3 are the expected values |
| EventBinding.PassingLogsAgree | evidence-verify/src/virtcca/event_log.rs:209-225 | two printed logs that pass against the same values have the same first digests, in order, for registers 1 to 3 |
| WasmRegistry.StepKeepsInvariant | verifier/src/wasm_host.rs:114-151 | every step of a call keeps the maps mutually inverse, compiled and stored under the right hash, files owned once, hashes trusted, and never changes an entry |
| WasmRegistry.RegisteredStaysResolvable | verifier/src/wasm_host.rs:105-176 | under any interleaving, equal hashes get equal ids and different hashes different ids, and a returned id resolves ever after to trusted content of its hash |
| WasmRegistry.CallReturnsIff | verifier/src/wasm_host.rs:114-151 | whatever other calls do in between, a call returns an id if and only if its bytes are trusted and are registered at its check or compile; else it is refused |
| WasmRegistry.CallCanStep | verifier/src/wasm_host.rs:114-151 | no call waits for another: until it ends it has a step of its own, which brings it closer to its end |
| WasmRegistry.RegisterAlone | verifier/src/wasm_host.rs:114-151 | a call on its own ends refused, with the known id, or with its own id newly registered for its bytes, and changes nothing else |
| WasmRegistry.QuiescentFiles | verifier/src/wasm_host.rs:128-151 | with no call under way the files are exactly those of the registered ids |
| WasmRegistry.WasmHost.CheckCache | verifier/src/wasm_host.rs:115-126 | trust check and cached id, as the check step |
| WasmRegistry.WasmHost.CommitRegistration | verifier/src/wasm_host.rs:140-150 | the second look and the three insertions, as the commit step |
| WasmRegistry.WasmHost.Lookup | verifier/src/wasm_host.rs:168-176 | the lookup of `evaluate`, as the resolution of the run model |

## Left out

- HydraDaemon.VerifierState.ProcessBatch: the method runs a batch without interference; `HydraPhases` models the interference, step by step.
- HydraRun.WholeRunSafety: batches are single steps and nodes distinct. Without the first it is false (`HydraOvertaking.StaleRun`), without the second too (`HydraDuplicates.StrandedRun`); `HydraPhases.RecordAcceptedIff` gives the exact condition in general.
- HydraRun.ClientAlwaysProves: batches are single steps; `HydraSessions.SessionIff` is exact for overlapping ones.
- EventBinding.ReplayBinds: assumes no collisions among the messages the two replays hash; a hash with 32-byte results has some elsewhere.
- WireStrict.DecodeExact: assumes that libraries read only canonical encodings of keys, scalars, signatures and proofs.
- HydraWire.BytesProve: assumes that message sizes fit the format and the frame limit, and that saves succeed.
- Partial sends on a failing socket: a message is delivered whole or not at all; a device that loses its connection has handled some prefix of the bytes, which is covered.
- Real cryptography: Poseidon, Groth16, ECDSA, ECDH, HKDF, AES-GCM and SHA-256 are arbitrary functions or records of what was signed; decryption inverts encryption by hypothesis; a proof exists when the circuit's constraints hold.
- Library encodings of scalars, keys, signatures and proofs: taken as canonical byte strings that the library reads back.
- Machine words: lengths fit 64 bits by hypothesis in the codec; allocation failure for a huge announced length is not modelled, such a read simply fails.
- Event type and algorithm names, and the summary of firmware entries: lookups of the kept numbers.
- Removal of a duplicate component's file is assumed to succeed, and writing a component's file to be all or nothing; ids are fresh.
- Freshness and signature checks on submissions, the relying party's checks, gRPC policies, appraisers, other evidence formats, key files, clocks, logging: short guards around library calls, or I/O.
