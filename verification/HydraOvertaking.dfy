/** Batches that overtake each other: an older batch may store its responses after a newer one. The check
    before storing that keeps every record good, and a run without it in which a record goes bad although
    every step succeeds. */
module HydraOvertaking {
  import opened ShrubsTree
  import opened ShrubsOwner
  import opened ShrubsPath
  import opened ShrubsMembership
  import opened HydraTypes
  import opened HydraDaemon
  import opened HydraDispatch
  import opened HydraRun
  import opened HydraPhases

  // ----- storing in order

  /** The batch still has to store a response for attester `i`. */
  ghost predicate Outstanding(b: Batch, i: nat) {
    exists k :: 0 <= k < |b.todo| && b.todo[k].StoreFor? && i in b.todo[k].indices
  }

  /** The attesters a step stores responses for. */
  function StoredBy(w: Phased, step: PhasedStep): seq<nat> {
    if step.Advanced? && step.batch < |w.batches| && w.batches[step.batch].todo != []
       && w.batches[step.batch].todo[0].StoreFor?
    then w.batches[step.batch].todo[0].indices else []
  }

  /** A check before storing: no response of attester `i` overwrites that of a later batch. */
  predicate StoresInOrder(w: Phased, step: PhasedStep, i: nat) {
    i in StoredBy(w, step) && i in w.built ==> w.built[i] <= step.batch
  }

  predicate Builds(step: PhasedStep, i: nat) {
    step.Committed? ==> i !in step.env.buildFails
  }

  /** Throughout the run, the responses of attester `i` are built and stored in order. */
  ghost predicate OrderedRun(h: Hash, steps: seq<PhasedStep>, i: nat) {
    steps == [] ||
    var before, step := steps[..|steps| - 1], steps[|steps| - 1];
    OrderedRun(h, before, i) && StoresInOrder(PhasedRun(h, before), step, i) && Builds(step, i)
  }

  /** Batch `t` holds the response that attester `i` needs, stored or about to be. */
  ghost predicate Due(w: Phased, i: nat, t: nat) {
    && t < |w.batches| && i < CountOf(w, t) <= |w.state.active|
    && !OwnerChanges(i, CountOf(w, t), |w.state.active|)
    && ((i in w.built && w.built[i] == t) || Outstanding(w.batches[t], i))
  }

  /** Later batches have at least as many leaves, and all of them build responses for attester `i`. */
  ghost predicate Counted(w: Phased, i: nat) {
    && (forall t, u :: 0 <= t <= u < |w.batches| ==> CountOf(w, t) <= CountOf(w, u))
    && (forall t :: 0 <= t < |w.batches| ==> i !in w.batches[t].env.buildFails && CountOf(w, t) <= |w.state.active|)
  }

  ghost predicate Ordered(w: Phased, i: nat) {
    Counted(w, i) && (i < |w.state.active| ==> exists t: nat :: Due(w, i, t))
  }

  lemma NewBatchIsDue(h: Hash, w: Phased, env: Env, i: nat)
    requires Basic(h, Core(w)) && w.timers > 0 && w.state.pending != []
    requires i < |Commit(h, w.state).active|
    requires NeedsPath(|w.state.active|, |Commit(h, w.state).active|, i)
    ensures Due(Commits(h, w, env), i, |w.batches|)
  {
    var n, c := |w.state.active|, Commit(h, w.state);
    CommittedRoot(h, w.state);
    OldIndicesMembers(n, |c.active|, n, true, i);
    NewIndicesAre(n, |c.active|, i);
    NewBatchStores(h, env, c, n, w.built, i);
  }

  lemma NewBatchStores(h: Hash, env: Env, c: State, n: nat, before: map<nat, nat>, i: nat)
    requires n <= |c.active| && c.root != []
    requires i in OldIndices(n, |c.active|, n, true) || i in NewIndices(n, |c.active|)
    ensures Outstanding(Batch(c, env, before, ActionsOf(h, env, c, n)), i)
  {
    var n' := |c.active|;
    var early := Sends(FullSends(h, env, c, OldIndices(n, n', n, true))
                       + ContextSends(env, c, OldIndices(n, n', n, false)) + Publishes(env, c, env.relyingParties));
    var todo := ActionsOf(h, env, c, n);
    assert todo[0] == StoreFor(OldIndices(n, n', n, true));
    assert todo[1 + |early|] == StoreFor(NewIndices(n, n'));
  }

  lemma CommitKeepsCounted(h: Hash, w: Phased, env: Env, i: nat)
    requires Basic(h, Core(w)) && w.state.pending != []
    requires Counted(w, i) && i !in env.buildFails
    ensures Counted(Commits(h, w, env), i)
  {
    CommittedRoot(h, w.state);
  }

  lemma CommitKeepsOrdered(h: Hash, vk: Bytes, w: Phased, env: Env, i: nat)
    requires PhasedGood(h, vk, w) && w.timers > 0 && w.state.pending != []
    requires Ordered(w, i) && i !in env.buildFails
    ensures Ordered(Commits(h, w, env), i)
  {
    var n, c, w' := |w.state.active|, Commit(h, w.state), Commits(h, w, env);
    CommittedRoot(h, w.state);
    CommitKeepsCounted(h, w, env, i);
    if i < |c.active| {
      if NeedsPath(n, |c.active|, i) {
        NewBatchIsDue(h, w, env, i);
      } else {
        var t: nat :| Due(w, i, t);
        assert Due(w', i, t);
      }
    }
  }

  lemma OutstandingAfter(b: Batch, i: nat)
    requires b.todo != [] && Outstanding(b, i)
    ensures Outstanding(Rest(b), i) || (b.todo[0].StoreFor? && i in b.todo[0].indices)
  {
    var k :| 0 <= k < |b.todo| && b.todo[k].StoreFor? && i in b.todo[k].indices;
    assert k > 0 ==> Rest(b).todo[k - 1] == b.todo[k];
  }

  /** What one action of batch `t` does to the batches and to the record of attester `i`. */
  ghost predicate ActedOn(w: Phased, w': Phased, t: nat, i: nat)
    requires t < |w.batches| && w.batches[t].todo != []
  {
    var stores := i in StoredBy(w, Advanced(t, true));
    && w'.batches == w.batches[t := Rest(w.batches[t])] && |w'.state.active| == |w.state.active|
    && (stores && i !in w.batches[t].env.buildFails ==> i in w'.built && w'.built[i] == t)
    && (!stores ==> (i in w'.built <==> i in w.built) && (i in w.built ==> w'.built[i] == w.built[i]))
    && (!stores && Outstanding(w.batches[t], i) ==> Outstanding(Rest(w.batches[t]), i))
  }

  lemma ActOnAttester(h: Hash, vk: Bytes, w: Phased, t: nat, delivered: bool, i: nat)
    requires PhasedGood(h, vk, w) && t < |w.batches| && w.batches[t].todo != []
    ensures ActedOn(w, Act(h, w, t, delivered), t, i)
  {
    if w.batches[t].todo[0].StoreFor? {
      ActIsPossible(h, vk, w, t, w.batches[t].todo[0].indices);
    }
    if Outstanding(w.batches[t], i) {
      OutstandingAfter(w.batches[t], i);
    }
  }

  lemma DueStays(w: Phased, w': Phased, i: nat, t: nat, u: nat)
    requires t < |w.batches| && w.batches[t].todo != [] && w'.batches == w.batches[t := Rest(w.batches[t])]
    requires |w'.state.active| == |w.state.active|
    requires Due(w, i, u) && ((i in w'.built && w'.built[i] == u) || Outstanding(w'.batches[u], i))
    ensures Due(w', i, u)
  {
  }

  /** Where the stored response was good, that of the later batch storing over it is too. */
  lemma DueMoves(h: Hash, vk: Bytes, w: Phased, w': Phased, i: nat, t: nat, u: nat)
    requires PhasedGood(h, vk, w) && Counted(w, i) && i in StoredBy(w, Advanced(t, true)) && t < |w.batches|
    requires Due(w, i, u) && u <= t
    requires w'.batches == w.batches[t := Rest(w.batches[t])] && |w'.state.active| == |w.state.active|
    requires i in w'.built && w'.built[i] == t
    ensures Due(w', i, t)
  {
    StoredHere(h, vk, w, t, i);
    OwnerNeverReturns(i, CountOf(w, u), CountOf(w, t), |w.state.active|);
  }

  /** Acting keeps someone's response due: the acting batch's own, once it has stored it. */
  lemma ActKeepsDue(h: Hash, vk: Bytes, w: Phased, t: nat, delivered: bool, i: nat, u: nat)
    returns (u': nat)
    requires PhasedGood(h, vk, w) && t < |w.batches| && w.batches[t].todo != []
    requires Ordered(w, i) && Due(w, i, u) && StoresInOrder(w, Advanced(t, delivered), i)
    ensures Due(Act(h, w, t, delivered), i, u')
  {
    ActOnAttester(h, vk, w, t, delivered, i);
    u' := ActedKeepsDue(h, vk, w, Act(h, w, t, delivered), t, i, u);
  }

  lemma ActedKeepsDue(h: Hash, vk: Bytes, w: Phased, w': Phased, t: nat, i: nat, u: nat)
    returns (u': nat)
    requires PhasedGood(h, vk, w) && t < |w.batches| && w.batches[t].todo != []
    requires Ordered(w, i) && Due(w, i, u) && StoresInOrder(w, Advanced(t, true), i) && ActedOn(w, w', t, i)
    ensures Due(w', i, u')
  {
    u' := u;
    if i in StoredBy(w, Advanced(t, true)) && u != t && !Outstanding(w.batches[u], i) {
      DueMoves(h, vk, w, w', i, t, u);
      u' := t;
    } else {
      DueStays(w, w', i, t, u);
    }
  }

  lemma StoredHere(h: Hash, vk: Bytes, w: Phased, t: nat, i: nat)
    requires PhasedGood(h, vk, w) && t < |w.batches| && i in StoredBy(w, Advanced(t, true))
    ensures i < CountOf(w, t)
  {
    assert BatchGood(h, vk, w.state.oldLeaves, w.arrivals, w.batches[t]);
    assert ActionGood(h, w.batches[t].env, w.batches[t].committed, w.batches[t].todo[0]);
  }

  lemma ActKeepsCounted(h: Hash, vk: Bytes, w: Phased, t: nat, delivered: bool, i: nat)
    requires PhasedGood(h, vk, w) && t < |w.batches| && w.batches[t].todo != [] && Counted(w, i)
    ensures Counted(Act(h, w, t, delivered), i) && |Act(h, w, t, delivered).state.active| == |w.state.active|
  {
    ActOnAttester(h, vk, w, t, delivered, i);
  }

  lemma ActKeepsOrdered(h: Hash, vk: Bytes, w: Phased, t: nat, delivered: bool, i: nat)
    requires PhasedGood(h, vk, w) && t < |w.batches| && w.batches[t].todo != []
    requires Ordered(w, i) && StoresInOrder(w, Advanced(t, delivered), i)
    ensures Ordered(Act(h, w, t, delivered), i)
  {
    ActKeepsCounted(h, vk, w, t, delivered, i);
    if i < |w.state.active| {
      var u: nat :| Due(w, i, u);
      var u' := ActKeepsDue(h, vk, w, t, delivered, i, u);
    }
  }

  lemma QueueKeepsOrdered(h: Hash, w: Phased, dev: DeviceClientInfor, addr: string, i: nat)
    requires Ordered(w, i)
    ensures Ordered(NextPhase(h, w, Queued(dev, addr)), i)
  {
    if i < |w.state.active| {
      var t: nat :| Due(w, i, t);
      assert Due(NextPhase(h, w, Queued(dev, addr)), i, t);
    }
  }

  lemma {:induction false} OrderedRunIsOrdered(h: Hash, vk: Bytes, steps: seq<PhasedStep>, i: nat)
    requires PossibleRun(h, vk, steps) && OrderedRun(h, steps, i)
    ensures Ordered(PhasedRun(h, steps), i)
  {
    if steps != [] {
      var before, step := steps[..|steps| - 1], steps[|steps| - 1];
      var w := PhasedRun(h, before);
      EveryRunIsGood(h, vk, before);
      OrderedRunIsOrdered(h, vk, before, i);
      match step
      case Queued(dev, addr) => QueueKeepsOrdered(h, w, dev, addr, i);
      case Committed(env) => CommitKeepsOrdered(h, vk, w, env, i);
      case Advanced(t, delivered) => ActKeepsOrdered(h, vk, w, t, delivered, i);
    }
  }

  /** The check is enough: if the responses of an attester were built and stored in order, then between
      any steps at which no batch still has to store one, its record is accepted against the newest
      root list, however batches, messages and other attesters' responses interleave. */
  lemma {:induction false} OrderedRecordAccepted(h: Hash, vk: Bytes, steps: seq<PhasedStep>, i: nat)
    requires PossibleRun(h, vk, steps) && OrderedRun(h, steps, i)
    requires i < |PhasedRun(h, steps).state.active| && DistinctNodes(h, PhasedRun(h, steps).state.oldLeaves)
    requires forall t :: 0 <= t < |PhasedRun(h, steps).batches| ==> !Outstanding(PhasedRun(h, steps).batches[t], i)
    ensures var s := PhasedRun(h, steps).state;
            s.active[i].response.Some? && Accepted(h, s.root, s.active[i].merkleLeaf, StoredPath(s.active[i]))
  {
    var w := PhasedRun(h, steps);
    EveryRunIsGood(h, vk, steps);
    OrderedRunIsOrdered(h, vk, steps, i);
    var t: nat :| Due(w, i, t);
    assert RecordGood(h, w, i);
    DistinctRecordAcceptedIff(h, vk, w, i);
  }

  // ----- a run that stores out of order

  /** A batch in which nothing fails and no relying party is told. */
  predicate IsQuiet(env: Env) {
    env.verifierKey == [] && env.relyingParties == [] && env.buildFails == {} && !env.contextFails
  }

  lemma SmallCounts()
    ensures OldIndices(0, 1, 0, true) == [] && OldIndices(0, 1, 0, false) == [] && NewIndices(0, 1) == [0]
    ensures OwnerChanges(0, 1, 3) && OldIndices(1, 3, 1, true) == [0]
  {
    OwnerChangesIff(0, 1, 3);
    assert OwnerLevel(0, 1) == 0 && OwnerLevel(0, 3) == 1;
    assert OldIndices(1, 3, 1, true) == OldIndices(1, 3, 0, true) + [0];
    assert NewIndices(0, 1) == NewIndices(0, 0) + [0];
  }

  lemma FirstActions(h: Hash, env: Env, c: State)
    requires IsQuiet(env) && |c.active| == 1 && c.root != []
    ensures |ActionsOf(h, env, c, 0)| >= 2
    ensures ActionsOf(h, env, c, 0)[0] == StoreFor([]) && ActionsOf(h, env, c, 0)[1] == StoreFor([0])
  {
    SmallCounts();
    assert FullSends(h, env, c, []) + ContextSends(env, c, []) + Publishes(env, c, []) == [];
    assert ActionsOf(h, env, c, 0) == [StoreFor([])] + [StoreFor([0])] + Sends(FullSends(h, env, c, [0]));
  }

  lemma SecondActions(h: Hash, env: Env, c: State)
    requires IsQuiet(env) && |c.active| == 3 && c.root != []
    ensures ActionsOf(h, env, c, 1) != [] && ActionsOf(h, env, c, 1)[0] == StoreFor([0])
  {
    SmallCounts();
  }

  /** What matters of a state here: the leaves, how many attesters are queued, timers, batches and who
      has a response. */
  datatype Outline = Outline(leaves: seq<Scalar>, queued: seq<Scalar>, timers: nat, batches: seq<Batch>,
                             built: map<nat, nat>)

  function OutlineOf(w: Phased): Outline {
    Outline(w.state.oldLeaves, LeavesOf(w.state.pending), w.timers, w.batches, w.built)
  }

  ghost predicate Reached(h: Hash, steps: seq<PhasedStep>, o: Outline) {
    PossibleRun(h, [], steps) && OutlineOf(PhasedRun(h, steps)) == o
  }

  lemma OneMore(h: Hash, steps: seq<PhasedStep>, step: PhasedStep)
    requires PossibleRun(h, [], steps) && CanStep([], PhasedRun(h, steps), step)
    ensures PossibleRun(h, [], steps + [step])
    ensures PhasedRun(h, steps + [step]) == NextPhase(h, PhasedRun(h, steps), step)
  {
    var later := steps + [step];
    assert later[..|later| - 1] == steps && later[|later| - 1] == step;
    assert PhasedRun(h, later) == NextPhase(h, PhasedRun(h, steps), step);
  }

  lemma QueueOne(h: Hash, steps: seq<PhasedStep>, o: Outline, dev: DeviceClientInfor)
    requires Reached(h, steps, o)
    ensures Reached(h, steps + [Queued(dev, "")], o.(queued := o.queued + [dev.merkleLeaf], timers := 1))
  {
    var w := PhasedRun(h, steps);
    EveryRunIsGood(h, [], steps);
    OneMore(h, steps, Queued(dev, ""));
    assert NextPhase(h, w, Queued(dev, "")).state.pending[..|w.state.pending|] == w.state.pending;
  }

  lemma CommitOne(h: Hash, steps: seq<PhasedStep>, o: Outline, env: Env) returns (c: State)
    requires IsQuiet(env) && Reached(h, steps, o) && o.timers == 1 && o.queued != []
    ensures |c.active| == |o.leaves| + |o.queued| && |c.oldLeaves| == |c.active| && c.root != []
    ensures Reached(h, steps + [Committed(env)],
                    Outline(o.leaves + o.queued, [], 0,
                            o.batches + [Batch(c, env, o.built, ActionsOf(h, env, c, |o.leaves|))], o.built))
  {
    var w := PhasedRun(h, steps);
    EveryRunIsGood(h, [], steps);
    OneMore(h, steps, Committed(env));
    CommittedRoot(h, w.state);
    c := Commit(h, w.state);
  }

  lemma StoreOne(h: Hash, steps: seq<PhasedStep>, o: Outline, t: nat, indices: seq<nat>)
    requires Reached(h, steps, o) && t < |o.batches| && o.batches[t].todo != []
    requires o.batches[t].todo[0] == StoreFor(indices) && o.batches[t].env.buildFails == {}
    ensures Reached(h, steps + [Advanced(t, true)],
                    o.(batches := o.batches[t := Rest(o.batches[t])], built := BuiltAfter(o.built, t, indices, {})))
  {
    EveryRunIsGood(h, [], steps);
    OneMore(h, steps, Advanced(t, true));
    ActIsPossible(h, [], PhasedRun(h, steps), t, indices);
  }

  lemma FirstBatch(h: Hash, a: DeviceClientInfor, env: Env) returns (o: Outline)
    requires IsQuiet(env)
    ensures Reached(h, [Queued(a, "")] + [Committed(env)], o)
    ensures o.leaves == [a.merkleLeaf] && o.queued == [] && o.built == map[]
    ensures |o.batches| == 1 && o.batches[0].before == map[] && o.batches[0].env == env
    ensures |o.batches[0].committed.oldLeaves| == 1
    ensures |o.batches[0].todo| >= 2 && o.batches[0].todo[0] == StoreFor([]) && o.batches[0].todo[1] == StoreFor([0])
  {
    var o0 := Outline([], [], 0, [], map[]);
    assert [] + [Queued(a, "")] == [Queued(a, "")];
    QueueOne(h, [], o0, a);
    var c := CommitOne(h, [Queued(a, "")], o0.(queued := [a.merkleLeaf], timers := 1), env);
    FirstActions(h, env, c);
    o := Outline([a.merkleLeaf], [], 0, [Batch(c, env, map[], ActionsOf(h, env, c, 0))], map[]);
  }

  lemma SecondBatch(h: Hash, steps: seq<PhasedStep>, o: Outline, b: DeviceClientInfor,
                    c: DeviceClientInfor, env: Env)
    returns (o': Outline)
    requires IsQuiet(env) && Reached(h, steps, o) && |o.leaves| == 1 && o.queued == [] && |o.batches| == 1
    ensures Reached(h, steps + [Queued(b, "")] + [Queued(c, "")] + [Committed(env)], o')
    ensures o'.leaves == o.leaves + [b.merkleLeaf, c.merkleLeaf] && o'.built == o.built
    ensures |o'.batches| == 2 && o'.batches[0] == o.batches[0]
    ensures o'.batches[1].before == o.built && o'.batches[1].env == env && |o'.batches[1].committed.oldLeaves| == 3
    ensures o'.batches[1].todo != [] && o'.batches[1].todo[0] == StoreFor([0])
  {
    QueueOne(h, steps, o, b);
    QueueOne(h, steps + [Queued(b, "")], o.(queued := [b.merkleLeaf], timers := 1), c);
    var s := CommitOne(h, steps + [Queued(b, "")] + [Queued(c, "")],
                       o.(queued := [b.merkleLeaf, c.merkleLeaf], timers := 1), env);
    SecondActions(h, env, s);
    o' := Outline(o.leaves + [b.merkleLeaf, c.merkleLeaf], [], 0,
                  o.batches + [Batch(s, env, o.built, ActionsOf(h, env, s, 1))], o.built);
  }

  /** The run up to the late store: three attesters, two batches, the first still to store its response,
      the second with its own stored. */
  function EarlySteps(a: DeviceClientInfor, b: DeviceClientInfor, c: DeviceClientInfor, early: Env,
                      late: Env): seq<PhasedStep>
  {
    TwoBatches(a, b, c, early, late) + [Advanced(0, true)] + [Advanced(1, true)]
  }

  function TwoBatches(a: DeviceClientInfor, b: DeviceClientInfor, c: DeviceClientInfor, early: Env,
                      late: Env): seq<PhasedStep>
  {
    [Queued(a, "")] + [Committed(early)] + [Queued(b, "")] + [Queued(c, "")] + [Committed(late)]
  }

  lemma StaleRunReaches(h: Hash, a: DeviceClientInfor, b: DeviceClientInfor, c: DeviceClientInfor, early: Env,
                        late: Env)
    returns (o: Outline)
    requires IsQuiet(early) && IsQuiet(late)
    ensures Reached(h, EarlySteps(a, b, c, early, late), o)
    ensures o.leaves == [a.merkleLeaf, b.merkleLeaf, c.merkleLeaf]
    ensures |o.batches| == 2 && |o.batches[0].committed.oldLeaves| == 1 && |o.batches[1].committed.oldLeaves| == 3
    ensures o.batches[0].todo != [] && o.batches[0].todo[0] == StoreFor([0])
    ensures o.batches[0].env == early && o.batches[1].env == late
    ensures o.batches[0].before == o.batches[1].before == map[]
    ensures 0 in o.built && o.built[0] == 1
  {
    var o2 := TwoBatchesReach(h, a, b, c, early, late);
    o := BothStore(h, TwoBatches(a, b, c, early, late), o2);
  }

  lemma TwoBatchesReach(h: Hash, a: DeviceClientInfor, b: DeviceClientInfor, c: DeviceClientInfor, early: Env,
                        late: Env)
    returns (o: Outline)
    requires IsQuiet(early) && IsQuiet(late)
    ensures Reached(h, TwoBatches(a, b, c, early, late), o)
    ensures o.leaves == [a.merkleLeaf, b.merkleLeaf, c.merkleLeaf] && o.built == map[] && |o.batches| == 2
    ensures o.batches[0].before == o.batches[1].before == map[]
    ensures o.batches[0].env == early && |o.batches[0].committed.oldLeaves| == 1
    ensures o.batches[1].env == late && |o.batches[1].committed.oldLeaves| == 3
    ensures |o.batches[0].todo| >= 2 && o.batches[0].todo[0] == StoreFor([]) && o.batches[0].todo[1] == StoreFor([0])
    ensures o.batches[1].todo != [] && o.batches[1].todo[0] == StoreFor([0])
  {
    var o1 := FirstBatch(h, a, early);
    o := SecondBatch(h, [Queued(a, "")] + [Committed(early)], o1, b, c, late);
  }

  lemma BothStore(h: Hash, steps: seq<PhasedStep>, o: Outline) returns (o': Outline)
    requires Reached(h, steps, o) && |o.batches| == 2
    requires o.batches[0].env.buildFails == o.batches[1].env.buildFails == {}
    requires |o.batches[0].todo| >= 2 && o.batches[0].todo[0] == StoreFor([]) && o.batches[0].todo[1] == StoreFor([0])
    requires o.batches[1].todo != [] && o.batches[1].todo[0] == StoreFor([0]) && o.built == map[]
    ensures Reached(h, steps + [Advanced(0, true)] + [Advanced(1, true)], o')
    ensures o'.leaves == o.leaves && 0 in o'.built && o'.built[0] == 1
    ensures o'.batches == [Rest(o.batches[0]), Rest(o.batches[1])]
  {
    var o1 := o.(batches := o.batches[0 := Rest(o.batches[0])], built := BuiltAfter(o.built, 0, [], {}));
    StoreOne(h, steps, o, 0, []);
    StoreOne(h, steps + [Advanced(0, true)], o1, 1, [0]);
    o' := o1.(batches := o1.batches[1 := Rest(o1.batches[1])], built := BuiltAfter(o1.built, 1, [0], {}));
  }

  /** A record goes bad although every step succeeds. The newer batch has stored the path that its root
      list accepts; then the older batch stores the path it had found, which that list rejects. */
  lemma {:induction false} StaleRun(h: Hash, a: DeviceClientInfor, b: DeviceClientInfor, c: DeviceClientInfor,
                                    early: Env, late: Env)
    requires IsQuiet(early) && IsQuiet(late)
    requires DistinctNodes(h, [a.merkleLeaf, b.merkleLeaf, c.merkleLeaf])
    ensures var steps := EarlySteps(a, b, c, early, late);
            var s, s' := PhasedRun(h, steps).state, PhasedRun(h, steps + [Advanced(0, true)]).state;
            && PossibleRun(h, [], steps + [Advanced(0, true)])
            && |s.active| == |s'.active| == 3
            && Accepted(h, s.root, s.active[0].merkleLeaf, StoredPath(s.active[0]))
            && !Accepted(h, s'.root, s'.active[0].merkleLeaf, StoredPath(s'.active[0]))
  {
    var steps := EarlySteps(a, b, c, early, late);
    var o := StaleRunReaches(h, a, b, c, early, late);
    RecordOf(h, steps, o);
    StoreOne(h, steps, o, 0, [0]);
    var o' := o.(batches := o.batches[0 := Rest(o.batches[0])], built := BuiltAfter(o.built, 0, [0], {}));
    RecordOf(h, steps + [Advanced(0, true)], o');
    SmallCounts();
  }

  lemma RecordOf(h: Hash, steps: seq<PhasedStep>, o: Outline)
    requires Reached(h, steps, o) && 0 in o.built && DistinctNodes(h, o.leaves)
    ensures o.built[0] < |o.batches| && 0 < |o.batches[o.built[0]].committed.oldLeaves| <= |o.leaves|
    ensures var s := PhasedRun(h, steps).state;
            && |s.active| == |o.leaves|
            && (Accepted(h, s.root, s.active[0].merkleLeaf, StoredPath(s.active[0]))
                <==> !OwnerChanges(0, |o.batches[o.built[0]].committed.oldLeaves|, |o.leaves|))
  {
    EveryRunIsGood(h, [], steps);
    DistinctRecordAcceptedIff(h, [], PhasedRun(h, steps), 0);
  }
}
