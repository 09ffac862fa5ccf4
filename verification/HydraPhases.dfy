/** Batches that overlap. The source releases the lock once a batch is committed; storing and sending
    its responses then races with later batches. Here a commit, each store and each send is a step of
    its own, taken in any order between batches; a send may fail. `HydraRun` is the special case in
    which every batch is carried out before the next one is committed. */
module HydraPhases {
  import opened Wrappers
  import opened ShrubsTree
  import opened ShrubsOwner
  import opened ShrubsPath
  import opened ShrubsMembership
  import opened ShrubsBlocks
  import opened HydraTypes
  import opened HydraDaemon
  import opened HydraDispatch
  import opened HydraRun

  /** Under the lock again: store the responses built for some attesters; or write one message. */
  datatype Action =
    | StoreFor(indices: seq<nat>)
    | Send(event: Event)

  /** A committed batch: the state it was committed to, the batches that had built the responses stored
      then, and what is left to do. */
  datatype Batch = Batch(committed: State, env: Env, before: map<nat, nat>, todo: seq<Action>)

  /** A message written, and the batch it belongs to. */
  datatype Sent = Sent(event: Event, batch: nat)

  /** The daemon with its surroundings. `built` names the batch that an attester's stored response was
      built in. */
  datatype Phased = Phased(
    state: State, timers: nat, arrivals: seq<AttesterSession>, batches: seq<Batch>, wire: seq<Sent>,
    built: map<nat, nat>)

  const PHASED_START := Phased(INITIAL, 0, [], [], [], map[])

  datatype PhasedStep =
    | Queued(dev: DeviceClientInfor, addr: string)
    | Committed(env: Env)
    | Advanced(batch: nat, delivered: bool)

  function Sends(events: seq<Event>): seq<Action> {
    if events == [] then [] else [Send(events[0])] + Sends(events[1..])
  }

  /** Affected attesters, then contexts and relying parties, then new attesters. */
  function ActionsOf(h: Hash, env: Env, c: State, n: nat): seq<Action>
    requires n <= |c.active| && c.root != []
  {
    var n' := |c.active|;
    var affected, unaffected, arrived := OldIndices(n, n', n, true), OldIndices(n, n', n, false), NewIndices(n, n');
    [StoreFor(affected)]
    + Sends(FullSends(h, env, c, affected) + ContextSends(env, c, unaffected) + Publishes(env, c, env.relyingParties))
    + [StoreFor(arrived)]
    + Sends(FullSends(h, env, c, arrived))
  }

  function Core(w: Phased): World {
    World(w.state, w.timers, w.arrivals, [], {}, {})
  }

  /** Who has a response of batch `t` once it has stored those for `indices`. */
  function BuiltAfter(built: map<nat, nat>, t: nat, indices: seq<nat>, fails: set<nat>): map<nat, nat> {
    built + map i | i in indices && i !in fails :: t
  }

  predicate CanStore(w: Phased, b: Batch, indices: seq<nat>) {
    b.committed.root != [] && |b.committed.active| <= |w.state.active| && InRange(indices, |b.committed.active|)
  }

  function Rest(b: Batch): Batch
    requires b.todo != []
  {
    b.(todo := b.todo[1..])
  }

  function Act(h: Hash, w: Phased, t: nat, delivered: bool): Phased
    requires t < |w.batches| && w.batches[t].todo != []
  {
    var b := w.batches[t];
    var batches := w.batches[t := Rest(b)];
    match b.todo[0]
    case StoreFor(indices) =>
      if !CanStore(w, b, indices) then w
      else
        w.(state := w.state.(active := Store(h, b.env, b.committed, w.state.active, indices)),
           batches := batches, built := BuiltAfter(w.built, t, indices, b.env.buildFails))
    case Send(e) =>
      w.(batches := batches, wire := if delivered then w.wire + [Sent(e, t)] else w.wire)
  }

  function Commits(h: Hash, w: Phased, env: Env): Phased {
    var timers := if w.timers > 0 then w.timers - 1 else 0;
    var c := Commit(h, w.state);
    if w.state.pending == [] || c.root == [] then
      w.(timers := timers, state := w.state.(batchTimerRunning := false))
    else
      w.(timers := timers, state := c,
         batches := w.batches + [Batch(c, env, w.built, ActionsOf(h, env, c, |w.state.active|))])
  }

  function NextPhase(h: Hash, w: Phased, step: PhasedStep): Phased {
    match step
    case Queued(dev, addr) =>
      var core := Next(h, Core(w), Arrive(dev, addr));
      w.(state := core.state, timers := core.timers, arrivals := core.arrivals)
    case Committed(env) => Commits(h, w, env)
    case Advanced(t, delivered) => if t < |w.batches| && w.batches[t].todo != [] then Act(h, w, t, delivered) else w
  }

  predicate CanStep(vk: Bytes, w: Phased, step: PhasedStep) {
    match step
    case Queued(_, _) => true
    case Committed(env) => w.timers > 0 && env.verifierKey == vk
    case Advanced(t, _) => t < |w.batches| && w.batches[t].todo != []
  }

  function PhasedRun(h: Hash, steps: seq<PhasedStep>): Phased {
    if steps == [] then PHASED_START else NextPhase(h, PhasedRun(h, steps[..|steps| - 1]), steps[|steps| - 1])
  }

  ghost predicate PossibleRun(h: Hash, vk: Bytes, steps: seq<PhasedStep>) {
    steps == [] ||
    (&& PossibleRun(h, vk, steps[..|steps| - 1])
     && CanStep(vk, PhasedRun(h, steps[..|steps| - 1]), steps[|steps| - 1]))
  }

  // ----- what every step keeps

  /** A committed state is the daemon's state as of some earlier leaf count. */
  ghost predicate SnapshotGood(h: Hash, leaves: seq<Scalar>, arrivals: seq<AttesterSession>, c: State) {
    && 0 < |c.oldLeaves| <= |leaves| && c.oldLeaves == leaves[..|c.oldLeaves|]
    && c.root == Roots(h, c.oldLeaves) && c.root != []
    && LeavesListed(c) && KeysMatch(c) && SocketsNumbered(c.active)
    && |c.active| <= |arrivals|
    && forall i :: 0 <= i < |c.active| ==> c.active[i].(response := None) == arrivals[i]
  }

  /** A message of a batch: a response or the context to one of its attesters, or the context to a
      relying party. */
  ghost predicate EventGood(h: Hash, env: Env, c: State, e: Event)
    requires c.root != []
  {
    match e
    case ToAttester(i, frame) =>
      i < |c.active| && (frame == FullFrame(h, env, c, i) || frame == ContextRefresh(Context(env, c)))
    case ToRelyingParty(_, context) => context == Context(env, c)
  }

  ghost predicate ActionGood(h: Hash, env: Env, c: State, a: Action)
    requires c.root != []
  {
    match a
    case StoreFor(indices) => InRange(indices, |c.active|)
    case Send(e) => EventGood(h, env, c, e)
  }

  ghost predicate BatchGood(h: Hash, vk: Bytes, leaves: seq<Scalar>, arrivals: seq<AttesterSession>, b: Batch) {
    && SnapshotGood(h, leaves, arrivals, b.committed) && b.env.verifierKey == vk
    && forall k :: 0 <= k < |b.todo| ==> ActionGood(h, b.env, b.committed, b.todo[k])
  }

  /** The stored response of attester `i`, if any, is the one built in batch `built[i]`. */
  ghost predicate RecordGood(h: Hash, w: Phased, i: nat)
    requires i < |w.state.active|
  {
    && (w.state.active[i].response.Some? <==> i in w.built)
    && (i in w.built ==>
          && w.built[i] < |w.batches|
          && var b := w.batches[w.built[i]];
             && i < |b.committed.active| && b.committed.root != []
             && w.state.active[i].response == Some(BuildResponse(h, b.env, b.committed, i)))
  }

  ghost predicate SentGood(h: Hash, w: Phased, s: Sent) {
    && s.batch < |w.batches|
    && var b := w.batches[s.batch];
       b.committed.root != [] && EventGood(h, b.env, b.committed, s.event)
  }

  ghost predicate BatchesGood(h: Hash, vk: Bytes, w: Phased) {
    forall t :: 0 <= t < |w.batches| ==> BatchGood(h, vk, w.state.oldLeaves, w.arrivals, w.batches[t])
  }

  ghost predicate RecordsGood(h: Hash, w: Phased) {
    && (forall i :: 0 <= i < |w.state.active| ==> RecordGood(h, w, i))
    && (forall i :: i in w.built ==> i < |w.state.active|)
  }

  ghost predicate WireGood(h: Hash, w: Phased) {
    forall k :: 0 <= k < |w.wire| ==> SentGood(h, w, w.wire[k])
  }

  ghost predicate PhasedGood(h: Hash, vk: Bytes, w: Phased) {
    Basic(h, Core(w)) && BatchesGood(h, vk, w) && RecordsGood(h, w) && WireGood(h, w)
  }

  lemma SnapshotStaysGood(h: Hash, leaves: seq<Scalar>, arrivals: seq<AttesterSession>, c: State, more: seq<Scalar>,
                          moreArrivals: seq<AttesterSession>)
    requires SnapshotGood(h, leaves, arrivals, c)
    ensures SnapshotGood(h, leaves + more, arrivals + moreArrivals, c)
  {
    assert (leaves + more)[..|c.oldLeaves|] == leaves[..|c.oldLeaves|];
  }

  lemma {:induction false} SendsAt(events: seq<Event>, a: Action)
    ensures a in Sends(events) ==> a.Send? && a.event in events
  {
    if events != [] {
      SendsAt(events[1..], a);
    }
  }

  lemma {:induction false} FullSendsGood(h: Hash, env: Env, c: State, indices: seq<nat>, e: Event)
    requires c.root != [] && InRange(indices, |c.active|) && SocketsNumbered(c.active)
    ensures e in FullSends(h, env, c, indices) ==> EventGood(h, env, c, e)
    decreases |indices|
  {
    if indices != [] {
      FullSendsGood(h, env, c, indices[..|indices| - 1], e);
    }
  }

  lemma {:induction false} ContextSendsGood(h: Hash, env: Env, c: State, indices: seq<nat>, e: Event)
    requires c.root != [] && InRange(indices, |c.active|) && SocketsNumbered(c.active)
    ensures e in ContextSends(env, c, indices) ==> EventGood(h, env, c, e)
    decreases |indices|
  {
    if indices != [] {
      ContextSendsGood(h, env, c, indices[..|indices| - 1], e);
    }
  }

  lemma ActionsGood(h: Hash, env: Env, c: State, n: nat, a: Action)
    requires n <= |c.active| && c.root != [] && SocketsNumbered(c.active)
    requires a in ActionsOf(h, env, c, n)
    ensures ActionGood(h, env, c, a)
  {
    var n' := |c.active|;
    var affected, unaffected, arrived := OldIndices(n, n', n, true), OldIndices(n, n', n, false), NewIndices(n, n');
    var early := FullSends(h, env, c, affected) + ContextSends(env, c, unaffected)
                 + Publishes(env, c, env.relyingParties);
    SendsAt(early, a);
    SendsAt(FullSends(h, env, c, arrived), a);
    if a.Send? {
      FullSendsGood(h, env, c, affected, a.event);
      ContextSendsGood(h, env, c, unaffected, a.event);
      PublishesAddress(env, c, env.relyingParties, a.event);
      FullSendsGood(h, env, c, arrived, a.event);
    }
  }

  /** Batches are only added, and of an old one only the outstanding actions change. */
  ghost predicate BatchesExtend(w: Phased, w': Phased) {
    && |w.batches| <= |w'.batches|
    && forall t :: 0 <= t < |w.batches| ==>
         && w'.batches[t].committed == w.batches[t].committed && w'.batches[t].env == w.batches[t].env
         && w'.batches[t].before == w.batches[t].before
  }

  lemma WireStaysGood(h: Hash, w: Phased, w': Phased)
    requires WireGood(h, w) && BatchesExtend(w, w') && w'.wire == w.wire
    ensures WireGood(h, w')
  {
    forall k | 0 <= k < |w'.wire| ensures SentGood(h, w', w'.wire[k]) {
      assert SentGood(h, w, w.wire[k]);
    }
  }

  /** Records that are not touched stay good while batches and attesters are added. */
  lemma RecordsStayGood(h: Hash, w: Phased, w': Phased)
    requires RecordsGood(h, w) && BatchesExtend(w, w') && w'.built == w.built
    requires |w.state.active| <= |w'.state.active|
    requires forall i :: 0 <= i < |w'.state.active| ==>
               w'.state.active[i].response == if i < |w.state.active| then w.state.active[i].response else None
    ensures RecordsGood(h, w')
  {
    forall i | 0 <= i < |w'.state.active| ensures RecordGood(h, w', i) {
      if i < |w.state.active| {
        assert RecordGood(h, w, i);
      }
    }
  }

  lemma QueueKeepsGood(h: Hash, vk: Bytes, w: Phased, dev: DeviceClientInfor, addr: string)
    requires PhasedGood(h, vk, w)
    ensures PhasedGood(h, vk, NextPhase(h, w, Queued(dev, addr)))
  {
    var w' := NextPhase(h, w, Queued(dev, addr));
    StepKeepsBasic(h, vk, Core(w), Arrive(dev, addr));
    forall t | 0 <= t < |w'.batches|
      ensures BatchGood(h, vk, w'.state.oldLeaves, w'.arrivals, w'.batches[t])
    {
      assert BatchGood(h, vk, w.state.oldLeaves, w.arrivals, w.batches[t]);
    }
    RecordsStayGood(h, w, w');
    WireStaysGood(h, w, w');
  }

  lemma CommittedRecords(h: Hash, w: World)
    requires Basic(h, w) && w.state.pending != []
    ensures KeysMatch(Commit(h, w.state))
    ensures forall i :: 0 <= i < |Commit(h, w.state).active| ==>
              Commit(h, w.state).active[i].(response := None) == w.arrivals[i]
  {
    var c := Commit(h, w.state);
    forall i | 0 <= i < |c.active|
      ensures c.active[i].(response := None) == w.arrivals[i]
      ensures KeyMatches(c.active[i])
    {
      CommittedActive(h, w, i);
    }
  }

  /** The commit alone, without the stores, keeps the fields in order. */
  lemma CommitKeepsBasic(h: Hash, w: Phased, env: Env)
    requires Basic(h, Core(w)) && w.timers > 0 && w.state.pending != []
    ensures Commit(h, w.state).root != []
    ensures Basic(h, Core(Commits(h, w, env)))
  {
    CommittedRoot(h, w.state);
    CommitKeepsListed(h, w.state);
    CommittedRecords(h, Core(w));
  }

  lemma CommittedSnapshot(h: Hash, w: World)
    requires Basic(h, w) && w.state.pending != []
    ensures SnapshotGood(h, Commit(h, w.state).oldLeaves, w.arrivals, Commit(h, w.state))
  {
    var c := Commit(h, w.state);
    CommittedRoot(h, w.state);
    CommitKeepsListed(h, w.state);
    CommittedSockets(h, w);
    CommittedRecords(h, w);
    assert c.oldLeaves[..|c.oldLeaves|] == c.oldLeaves;
  }

  lemma NewBatchGood(h: Hash, vk: Bytes, w: World, env: Env, before: map<nat, nat>)
    requires Basic(h, w) && w.state.pending != [] && env.verifierKey == vk && Commit(h, w.state).root != []
    ensures BatchGood(h, vk, Commit(h, w.state).oldLeaves, w.arrivals,
                      Batch(Commit(h, w.state), env, before, ActionsOf(h, env, Commit(h, w.state), |w.state.active|)))
  {
    var c := Commit(h, w.state);
    CommittedSnapshot(h, w);
    forall a | a in ActionsOf(h, env, c, |w.state.active|) ensures ActionGood(h, env, c, a) {
      ActionsGood(h, env, c, |w.state.active|, a);
    }
  }

  lemma OldBatchesStayGood(h: Hash, vk: Bytes, w: Phased, more: seq<Scalar>)
    requires BatchesGood(h, vk, w)
    ensures forall t :: 0 <= t < |w.batches| ==>
              BatchGood(h, vk, w.state.oldLeaves + more, w.arrivals, w.batches[t])
  {
    forall t | 0 <= t < |w.batches| ensures BatchGood(h, vk, w.state.oldLeaves + more, w.arrivals, w.batches[t]) {
      assert BatchGood(h, vk, w.state.oldLeaves, w.arrivals, w.batches[t]);
      SnapshotStaysGood(h, w.state.oldLeaves, w.arrivals, w.batches[t].committed, more, []);
      assert w.arrivals + [] == w.arrivals;
    }
  }

  /** A commit adds one batch, and touches neither records, nor what was built or written. */
  lemma CommitsEffect(h: Hash, w: Phased, env: Env)
    requires Basic(h, Core(w)) && w.state.pending != []
    ensures var w', c := Commits(h, w, env), Commit(h, w.state);
            && c.root != [] && w'.state == c && c.oldLeaves == w.state.oldLeaves + LeavesOf(w.state.pending)
            && w'.batches == w.batches + [Batch(c, env, w.built, ActionsOf(h, env, c, |w.state.active|))]
            && w'.arrivals == w.arrivals && w'.built == w.built && w'.wire == w.wire
  {
    CommittedRoot(h, w.state);
  }

  lemma CommitKeepsBatches(h: Hash, vk: Bytes, w: Phased, env: Env)
    requires PhasedGood(h, vk, w) && w.state.pending != [] && env.verifierKey == vk
    ensures BatchesGood(h, vk, Commits(h, w, env))
  {
    CommitsEffect(h, w, env);
    NewBatchGood(h, vk, Core(w), env, w.built);
    OldBatchesStayGood(h, vk, w, LeavesOf(w.state.pending));
  }

  lemma CommitKeepsRecords(h: Hash, vk: Bytes, w: Phased, env: Env)
    requires PhasedGood(h, vk, w) && w.state.pending != []
    ensures RecordsGood(h, Commits(h, w, env)) && WireGood(h, Commits(h, w, env))
  {
    var w' := Commits(h, w, env);
    assert BatchesExtend(w, w') && w'.built == w.built && w'.wire == w.wire && w'.state == Commit(h, w.state) by {
      CommitsEffect(h, w, env);
    }
    NewRecordsEmpty(h, w);
    RecordsStayGood(h, w, w');
    WireStaysGood(h, w, w');
  }

  lemma CommitKeepsGood(h: Hash, vk: Bytes, w: Phased, env: Env)
    requires PhasedGood(h, vk, w) && w.timers > 0 && w.state.pending != [] && env.verifierKey == vk
    ensures PhasedGood(h, vk, Commits(h, w, env))
  {
    CommitKeepsBasic(h, w, env);
    CommitKeepsBatches(h, vk, w, env);
    CommitKeepsRecords(h, vk, w, env);
  }

  lemma NewRecordsEmpty(h: Hash, w: Phased)
    requires Basic(h, Core(w)) && w.state.pending != []
    ensures forall i :: 0 <= i < |Commit(h, w.state).active| ==>
              Commit(h, w.state).active[i].response
              == if i < |w.state.active| then w.state.active[i].response else None
  {
    forall i | 0 <= i < |Commit(h, w.state).active|
      ensures Commit(h, w.state).active[i].response
           == if i < |w.state.active| then w.state.active[i].response else None
    {
      CommittedActive(h, Core(w), i);
    }
  }

  // ----- an action of a batch

  /** New responses, made out to the right keys, leave everything else in order. */
  lemma ResponsesKeepBasic(h: Hash, w: World, active: seq<AttesterSession>)
    requires Basic(h, w) && |active| == |w.state.active|
    requires forall i :: 0 <= i < |active| ==>
               && active[i].(response := None) == w.arrivals[i] && active[i].merkleLeaf == w.state.active[i].merkleLeaf
               && KeyMatches(active[i])
    ensures Basic(h, w.(state := w.state.(active := active)))
  {
  }

  lemma StoreKeepsBasic(h: Hash, vk: Bytes, w: Phased, t: nat, indices: seq<nat>)
    requires Basic(h, Core(w)) && BatchesGood(h, vk, w) && t < |w.batches|
    requires CanStore(w, w.batches[t], indices)
    ensures Basic(h, Core(w.(state := w.state.(active :=
              Store(h, w.batches[t].env, w.batches[t].committed, w.state.active, indices)))))
  {
    var b := w.batches[t];
    var active := Store(h, b.env, b.committed, w.state.active, indices);
    forall i | 0 <= i < |active|
      ensures active[i].(response := None) == w.arrivals[i] && active[i].merkleLeaf == w.state.active[i].merkleLeaf
      ensures KeyMatches(active[i])
    {
      StoredRecord(h, vk, w, t, indices, i);
    }
    ResponsesKeepBasic(h, Core(w), active);
  }

  lemma StoredRecord(h: Hash, vk: Bytes, w: Phased, t: nat, indices: seq<nat>, i: nat)
    requires Basic(h, Core(w)) && BatchesGood(h, vk, w) && t < |w.batches|
    requires CanStore(w, w.batches[t], indices) && i < |w.state.active|
    ensures var b := w.batches[t];
            var r := Store(h, b.env, b.committed, w.state.active, indices)[i];
            && r.(response := None) == w.arrivals[i] && r.merkleLeaf == w.state.active[i].merkleLeaf
            && KeyMatches(r)
            && (i in indices ==> i < |b.committed.active|)
            && r.response == if i in indices && i !in b.env.buildFails
                             then Some(BuildResponse(h, b.env, b.committed, i)) else w.state.active[i].response
  {
    var b := w.batches[t];
    assert BatchGood(h, vk, w.state.oldLeaves, w.arrivals, b);
    assert w.state.active[i].(response := None) == w.arrivals[i];
    if i < |b.committed.active| {
      StoreAt(h, b.env, b.committed, w.state.active, indices, i);
      assert b.committed.active[i].(response := None) == w.arrivals[i];
    } else {
      StoreBeyond(h, b.env, b.committed, w.state.active, indices, i);
    }
  }

  lemma {:induction false} StoreBeyond(h: Hash, env: Env, c: State, active: seq<AttesterSession>, indices: seq<nat>,
                                       i: nat)
    requires c.root != [] && |active| >= |c.active| && InRange(indices, |c.active|)
    requires |c.active| <= i < |active|
    ensures Store(h, env, c, active, indices)[i] == active[i]
    decreases |indices|
  {
    if indices != [] {
      StoreBeyond(h, env, c, active, indices[..|indices| - 1], i);
    }
  }

  /** What an action leaves alone. */
  lemma ActEffect(h: Hash, w: Phased, t: nat, delivered: bool)
    requires t < |w.batches| && w.batches[t].todo != []
    ensures var w' := Act(h, w, t, delivered);
            && w'.state.oldLeaves == w.state.oldLeaves && w'.arrivals == w.arrivals
            && (w'.batches == w.batches || w'.batches == w.batches[t := Rest(w.batches[t])])
  {
  }

  lemma ActKeepsBatches(h: Hash, vk: Bytes, w: Phased, t: nat, delivered: bool)
    requires BatchesGood(h, vk, w) && t < |w.batches| && w.batches[t].todo != []
    ensures BatchesGood(h, vk, Act(h, w, t, delivered)) && BatchesExtend(w, Act(h, w, t, delivered))
  {
    var w' := Act(h, w, t, delivered);
    ActEffect(h, w, t, delivered);
    RestStaysGood(h, vk, w.state.oldLeaves, w.arrivals, w.batches[t]);
  }

  lemma RestStaysGood(h: Hash, vk: Bytes, leaves: seq<Scalar>, arrivals: seq<AttesterSession>, b: Batch)
    requires BatchGood(h, vk, leaves, arrivals, b) && b.todo != []
    ensures BatchGood(h, vk, leaves, arrivals, Rest(b))
  {
  }

  /** A batch that is due can always act. */
  lemma ActIsPossible(h: Hash, vk: Bytes, w: Phased, t: nat, indices: seq<nat>)
    requires Basic(h, Core(w)) && BatchesGood(h, vk, w) && t < |w.batches| && w.batches[t].todo != []
    requires w.batches[t].todo[0] == StoreFor(indices)
    ensures CanStore(w, w.batches[t], indices)
  {
    var b := w.batches[t];
    assert BatchGood(h, vk, w.state.oldLeaves, w.arrivals, b);
    assert ActionGood(h, b.env, b.committed, b.todo[0]);
  }

  lemma StoreKeepsRecords(h: Hash, vk: Bytes, w: Phased, t: nat, delivered: bool)
    requires PhasedGood(h, vk, w) && t < |w.batches| && w.batches[t].todo != []
    requires w.batches[t].todo[0].StoreFor?
    ensures RecordsGood(h, Act(h, w, t, delivered))
  {
    var b, w', indices := w.batches[t], Act(h, w, t, delivered), w.batches[t].todo[0].indices;
    ActIsPossible(h, vk, w, t, indices);
    ActKeepsBatches(h, vk, w, t, delivered);
    forall i | 0 <= i < |w'.state.active| ensures RecordGood(h, w', i) {
      StoredRecord(h, vk, w, t, indices, i);
      RecordAfterStore(h, w, w', t, indices, i);
    }
  }

  lemma RecordAfterStore(h: Hash, w: Phased, w': Phased, t: nat, indices: seq<nat>, i: nat)
    requires BatchesExtend(w, w') && t < |w.batches| && i < |w.state.active| == |w'.state.active| && RecordGood(h, w, i)
    requires w.batches[t].committed.root != [] && (i in indices ==> i < |w.batches[t].committed.active|)
    requires var b := w.batches[t];
             && w'.built == BuiltAfter(w.built, t, indices, b.env.buildFails)
             && w'.state.active[i].response == if i in indices && i !in b.env.buildFails
                                               then Some(BuildResponse(h, b.env, b.committed, i))
                                               else w.state.active[i].response
    ensures RecordGood(h, w', i)
  {
  }

  lemma SendKeepsGood(h: Hash, vk: Bytes, w: Phased, t: nat, delivered: bool)
    requires PhasedGood(h, vk, w) && t < |w.batches| && w.batches[t].todo != []
    requires w.batches[t].todo[0].Send?
    ensures RecordsGood(h, Act(h, w, t, delivered)) && WireGood(h, Act(h, w, t, delivered))
  {
    var b, w' := w.batches[t], Act(h, w, t, delivered);
    ActKeepsBatches(h, vk, w, t, delivered);
    RecordsStayGood(h, w, w');
    WireStaysGood(h, w, w'.(wire := w.wire));
    assert BatchGood(h, vk, w.state.oldLeaves, w.arrivals, b);
    assert ActionGood(h, b.env, b.committed, b.todo[0]);
    forall k | 0 <= k < |w'.wire| ensures SentGood(h, w', w'.wire[k]) {
      assert k < |w.wire| ==> SentGood(h, w'.(wire := w.wire), w.wire[k]);
    }
  }

  lemma ActKeepsGood(h: Hash, vk: Bytes, w: Phased, t: nat, delivered: bool)
    requires PhasedGood(h, vk, w) && t < |w.batches| && w.batches[t].todo != []
    ensures PhasedGood(h, vk, Act(h, w, t, delivered))
  {
    ActKeepsBatches(h, vk, w, t, delivered);
    if w.batches[t].todo[0].StoreFor? {
      ActIsPossible(h, vk, w, t, w.batches[t].todo[0].indices);
      StoreKeepsBasic(h, vk, w, t, w.batches[t].todo[0].indices);
      StoreKeepsRecords(h, vk, w, t, delivered);
      WireStaysGood(h, w, Act(h, w, t, delivered));
    } else {
      SendKeepsGood(h, vk, w, t, delivered);
    }
  }

  lemma PhaseKeepsGood(h: Hash, vk: Bytes, w: Phased, step: PhasedStep)
    requires PhasedGood(h, vk, w) && CanStep(vk, w, step)
    ensures PhasedGood(h, vk, NextPhase(h, w, step))
  {
    match step
    case Queued(dev, addr) => QueueKeepsGood(h, vk, w, dev, addr);
    case Committed(env) => CommitKeepsGood(h, vk, w, env);
    case Advanced(t, delivered) => ActKeepsGood(h, vk, w, t, delivered);
  }

  /** Over every interleaving: nobody is lost or queued twice, the fields agree with the leaves, every
      record is the response of the batch that stored it last, and every message is one of its batch. */
  lemma {:induction false} EveryRunIsGood(h: Hash, vk: Bytes, steps: seq<PhasedStep>)
    requires PossibleRun(h, vk, steps)
    ensures PhasedGood(h, vk, PhasedRun(h, steps))
  {
    if steps != [] {
      EveryRunIsGood(h, vk, steps[..|steps| - 1]);
      PhaseKeepsGood(h, vk, PhasedRun(h, steps[..|steps| - 1]), steps[|steps| - 1]);
    }
  }

  // ----- when a record is accepted

  /** The leaf count a batch was committed to. */
  function CountOf(w: Phased, t: nat): nat
    requires t < |w.batches|
  {
    |w.batches[t].committed.oldLeaves|
  }

  /** A stored response carries the path searched among the first `CountOf` leaves. */
  lemma RecordPath(h: Hash, vk: Bytes, w: Phased, i: nat)
    requires PhasedGood(h, vk, w) && i in w.built
    ensures i < |w.state.active| && w.built[i] < |w.batches|
    ensures var b, leaves := CountOf(w, w.built[i]), w.state.oldLeaves;
            && i < b <= |leaves| && w.state.active[i].merkleLeaf == leaves[i] && leaves[i] in leaves[..b]
            && StoredPath(w.state.active[i]) == DevicePathTag(h, Roots(h, leaves[..b]), leaves[..b], leaves[i])
  {
    assert RecordGood(h, w, i);
    var b := w.batches[w.built[i]];
    assert BatchGood(h, vk, w.state.oldLeaves, w.arrivals, b);
    BuiltResponse(h, b.env, b.committed, i);
    assert w.state.oldLeaves[..|b.committed.oldLeaves|][i] == w.state.oldLeaves[i];
  }

  /** Exactly when a stored record is accepted against the newest root list, in every reachable state
      (`EveryRunIsGood`), with builds and sends failing and leaves repeating at will: the newest list has the
      same leaves below the root the path leads to as the list of the batch the record was built in.
      The condition is about leaves and counts alone. */
  lemma {:induction false} RecordAcceptedIff(h: Hash, vk: Bytes, w: Phased, i: nat)
    requires PhasedGood(h, vk, w) && i in w.built
    requires CollisionFree(h) && LevelsApart(h, w.state.oldLeaves)
    ensures i < |w.state.active| && i < |w.state.oldLeaves| && w.built[i] < |w.batches|
    ensures var b, leaves := CountOf(w, w.built[i]), w.state.oldLeaves;
            && b <= |leaves| && leaves[i] in leaves[..b]
            && (Accepted(h, w.state.root, w.state.active[i].merkleLeaf, StoredPath(w.state.active[i]))
                <==> RootsAgree(leaves, SearchLength(leaves[..b], leaves[i]), b, |leaves|))
  {
    var leaves := w.state.oldLeaves;
    RecordPath(h, vk, w, i);
    assert leaves[..|leaves|] == leaves;
    SearchedPathAcceptedIff(h, leaves, CountOf(w, w.built[i]), |leaves|, leaves[i]);
  }

  /** The same without repeated leaves, by index arithmetic alone: the record's owner root has not
      changed since the batch it was built in. */
  lemma {:induction false} DistinctRecordAcceptedIff(h: Hash, vk: Bytes, w: Phased, i: nat)
    requires PhasedGood(h, vk, w) && i in w.built
    requires DistinctNodes(h, w.state.oldLeaves)
    ensures i < |w.state.active| && w.built[i] < |w.batches|
    ensures i < CountOf(w, w.built[i]) <= |w.state.active|
    ensures Accepted(h, w.state.root, w.state.active[i].merkleLeaf, StoredPath(w.state.active[i]))
       <==> !OwnerChanges(i, CountOf(w, w.built[i]), |w.state.active|)
  {
    var leaves := w.state.oldLeaves;
    RecordPath(h, vk, w, i);
    assert leaves[..|leaves|] == leaves;
    OwnerPathAcceptedIff(h, leaves, CountOf(w, w.built[i]), |leaves|, i);
  }
}
