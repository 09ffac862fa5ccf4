/** Whole runs of the daemon: any interleaving of arrivals and expired timers. A timer is a step
    that may happen at any time after it was started; a batch, with its sends, is one step. What an
    attester has handled is any prefix of the frames written to its socket. */
module HydraRun {
  import opened Wrappers
  import opened ShrubsTree
  import opened ShrubsOwner
  import opened ShrubsPath
  import opened ShrubsMembership
  import opened ShrubsRefresh
  import opened Circuit
  import opened HydraTypes
  import opened HydraDaemon
  import opened HydraDispatch
  import opened HydraClient

  /** The daemon with its surroundings: timers not yet expired, attesters in order of arrival,
      everything written, the attesters whose last needed response could not be built, and those to
      whom that ever happened. */
  datatype World = World(
    state: State, timers: nat, arrivals: seq<AttesterSession>, wire: seq<Event>,
    missed: set<nat>, everMissed: set<nat>)

  const START := World(INITIAL, 0, [], [], {}, {})

  datatype Step =
    | Arrive(dev: DeviceClientInfor, addr: string)
    | TimerExpires(env: Env)

  predicate Enabled(vk: Bytes, w: World, step: Step) {
    step.TimerExpires? ==> w.timers > 0 && step.env.verifierKey == vk
  }

  /** Who lags behind after a batch: those whose response or context could not be built, and those
      who missed a path before and needed none now. */
  function MissedAfter(n: nat, n': nat, missed: set<nat>, env: Env): set<nat>
    requires n <= n'
  {
    set i: nat | i < n' && (if NeedsPath(n, n', i) then i in env.buildFails else i in missed || env.contextFails)
  }

  function Next(h: Hash, w: World, step: Step): World {
    match step
    case Arrive(dev, addr) =>
      var item := NewSession(|w.arrivals|, dev, addr);
      w.(state := Queue(w.state, item),
         timers := w.timers + (if w.state.batchTimerRunning then 0 else 1),
         arrivals := w.arrivals + [item])
    case TimerExpires(env) =>
      var timers := if w.timers > 0 then w.timers - 1 else 0;
      if w.state.pending == [] || Commit(h, w.state).root == [] then
        w.(timers := timers, state := w.state.(batchTimerRunning := false))
      else
        var c, n := Commit(h, w.state), |w.state.active|;
        var missed := MissedAfter(n, |c.active|, w.missed, env);
        World(AfterBatch(h, env, w.state), timers, w.arrivals, w.wire + BatchSends(h, env, c, n),
              missed, w.everMissed + missed)
  }

  function Run(h: Hash, steps: seq<Step>): World {
    if steps == [] then START else Next(h, Run(h, steps[..|steps| - 1]), steps[|steps| - 1])
  }

  ghost predicate Possible(h: Hash, vk: Bytes, steps: seq<Step>) {
    steps == [] ||
    (&& Possible(h, vk, steps[..|steps| - 1])
     && Enabled(vk, Run(h, steps[..|steps| - 1]), steps[|steps| - 1]))
  }

  // ----- conservation

  /** Active then pending attesters are the arrivals, in order, each once; one timer is running
      exactly when the flag says so, that is exactly when someone waits. (So the early return of
      `process_batch` on an empty queue is never taken.) */
  ghost predicate Conserved(w: World) {
    && |w.arrivals| == |w.state.active| + |w.state.pending|
    && (forall i :: 0 <= i < |w.state.active| ==> w.state.active[i].(response := None) == w.arrivals[i])
    && (forall i :: 0 <= i < |w.state.pending| ==> w.state.pending[i] == w.arrivals[|w.state.active| + i])
    && (forall i :: 0 <= i < |w.arrivals| ==>
          w.arrivals[i] == NewSession(i, w.arrivals[i].devInfor, w.arrivals[i].attesterAddr))
    && w.timers == (if w.state.batchTimerRunning then 1 else 0)
    && (w.state.pending != [] <==> w.state.batchTimerRunning)
  }

  /** Stored responses are made out to the attester's own key. */
  ghost predicate KeysMatch(s: State) {
    forall i :: 0 <= i < |s.active| ==> KeyMatches(s.active[i])
  }

  predicate KeyMatches(item: AttesterSession) {
    item.response.Some? ==> item.response.value.verifyingKey == item.devInfor.verifyingKey
  }

  ghost predicate Basic(h: Hash, w: World) {
    Conserved(w) && Consistent(h, w.state) && LeavesListed(w.state) && KeysMatch(w.state)
  }

  lemma CommittedActive(h: Hash, w: World, i: nat)
    requires Conserved(w) && w.state.pending != [] && i < |Commit(h, w.state).active|
    ensures Commit(h, w.state).active[i].(response := None) == w.arrivals[i]
    ensures i >= |w.state.active| ==> Commit(h, w.state).active[i] == w.arrivals[i]
    ensures i < |w.state.active| ==> Commit(h, w.state).active[i] == w.state.active[i]
  {
  }

  lemma BatchKeepsRecord(h: Hash, env: Env, w: World, i: nat)
    requires Basic(h, w) && w.state.pending != [] && i < |Commit(h, w.state).active|
    ensures Commit(h, w.state).root != []
    ensures var r := AfterBatch(h, env, w.state).active[i];
            && r.(response := None) == w.arrivals[i]
            && r.merkleLeaf == Commit(h, w.state).active[i].merkleLeaf
            && KeyMatches(r)
  {
    CommittedRoot(h, w.state);
    BatchStoreAt(h, env, Commit(h, w.state), |w.state.active|, i);
    CommittedActive(h, w, i);
  }

  lemma BatchKeepsRecords(h: Hash, env: Env, w: World)
    requires Basic(h, w) && w.state.pending != []
    ensures Commit(h, w.state).root != []
    ensures LeavesListed(AfterBatch(h, env, w.state)) && KeysMatch(AfterBatch(h, env, w.state))
    ensures forall i :: 0 <= i < |AfterBatch(h, env, w.state).active| ==>
              AfterBatch(h, env, w.state).active[i].(response := None) == w.arrivals[i]
  {
    CommittedRoot(h, w.state);
    CommitKeepsListed(h, w.state);
    var a := AfterBatch(h, env, w.state);
    forall i | 0 <= i < |a.active|
      ensures a.active[i].(response := None) == w.arrivals[i]
      ensures a.oldLeaves[i] == a.active[i].merkleLeaf
      ensures KeyMatches(a.active[i])
    {
      BatchKeepsRecord(h, env, w, i);
    }
  }

  lemma BatchKeepsBasic(h: Hash, env: Env, w: World)
    requires Basic(h, w) && w.state.pending != [] && w.timers > 0
    ensures Basic(h, Next(h, w, TimerExpires(env)))
  {
    CommittedRoot(h, w.state);
    BatchKeepsRecords(h, env, w);
  }

  lemma StepKeepsBasic(h: Hash, vk: Bytes, w: World, step: Step)
    requires Basic(h, w) && Enabled(vk, w, step)
    ensures Basic(h, Next(h, w, step))
  {
    if step.TimerExpires? && w.state.pending != [] {
      BatchKeepsBasic(h, step.env, w);
    }
  }

  /** Over every run nobody is lost, stranded or served twice. */
  lemma {:induction false} QueueConservation(h: Hash, vk: Bytes, steps: seq<Step>)
    requires Possible(h, vk, steps)
    ensures Basic(h, Run(h, steps))
  {
    if steps != [] {
      QueueConservation(h, vk, steps[..|steps| - 1]);
      StepKeepsBasic(h, vk, Run(h, steps[..|steps| - 1]), steps[|steps| - 1]);
    }
  }

  /** How the arrivals were cut into batches leaves no trace: two runs with the same attesters, none
      of them waiting, hold the same leaves and the same root list, the one built from scratch. */
  lemma {:induction false} BatchingIsIrrelevant(h: Hash, vk: Bytes, a: seq<Step>, b: seq<Step>)
    requires Possible(h, vk, a) && Possible(h, vk, b)
    requires Run(h, a).arrivals == Run(h, b).arrivals
    requires Run(h, a).state.pending == [] && Run(h, b).state.pending == []
    ensures Run(h, a).state.oldLeaves == Run(h, b).state.oldLeaves == LeavesOf(Run(h, a).arrivals)
    ensures Run(h, a).state.root == Run(h, b).state.root == Roots(h, LeavesOf(Run(h, a).arrivals))
  {
    QueueConservation(h, vk, a);
    QueueConservation(h, vk, b);
    LeavesOfArrivals(Run(h, a));
    LeavesOfArrivals(Run(h, b));
  }

  lemma LeavesOfArrivals(w: World)
    requires Conserved(w) && LeavesListed(w.state) && w.state.pending == []
    ensures w.state.oldLeaves == LeavesOf(w.arrivals)
  {
    forall i | 0 <= i < |w.arrivals| ensures w.state.oldLeaves[i] == LeavesOf(w.arrivals)[i] {
      LeafOf(w.arrivals, i);
      assert w.state.active[i].(response := None) == w.arrivals[i];
    }
  }

  // ----- membership

  /** What an active attester's record and its socket's history say: the stored response is the last
      one sent, its path is the one for the current tree, the last context carries the current root
      list, and the two fit together. */
  ghost predicate DeviceServed(h: Hash, vk: Bytes, s: State, i: nat, frames: seq<Frame>)
    requires i < |s.active| && |s.oldLeaves| == |s.active| && s.root == Roots(h, s.oldLeaves)
  {
    var item := s.active[i];
    var p := DevicePathTag(h, s.root, s.oldLeaves, s.oldLeaves[i]);
    && item.response.Some? && frames != []
    && LastResponse(frames) == item.response
    && item.response.value.shrubsPath == PathOption(p) && item.response.value.shrubsTag == TagOption(p)
    && LastContext(frames).root == s.root
    && LastGood(h, vk, item.devInfor, frames)
  }

  /** With distinct nodes, every active attester that does not miss a path is served, and the
      stream of one that never missed a path was good after every frame. */
  ghost predicate Served(h: Hash, vk: Bytes, w: World)
    requires Basic(h, w)
  {
    && w.missed <= w.everMissed
    && (forall i: nat :: |w.state.active| <= i ==> FramesTo(w.wire, i) == [])
    && (DistinctNodes(h, w.state.oldLeaves) ==>
          forall i :: 0 <= i < |w.state.active| ==> DeviceGood(h, vk, w, i))
  }

  ghost predicate DeviceGood(h: Hash, vk: Bytes, w: World, i: nat)
    requires Basic(h, w) && i < |w.state.active|
  {
    && (i !in w.missed ==> DeviceServed(h, vk, w.state, i, FramesTo(w.wire, i)))
    && (i !in w.everMissed ==> StreamGood(h, vk, w.state.active[i].devInfor, FramesTo(w.wire, i)))
  }

  // ----- stored paths

  function StoredPath(item: AttesterSession): PathTag {
    if item.response.Some? && item.response.value.shrubsPath.Some? && item.response.value.shrubsTag.Some?
    then PathTag(item.response.value.shrubsPath.value, item.response.value.shrubsTag.value)
    else NoPath
  }

  predicate AcceptedRecord(h: Hash, s: State, i: nat) {
    i < |s.active| && Accepted(h, s.root, s.active[i].merkleLeaf, StoredPath(s.active[i]))
  }

  /** Every stored path is accepted against the current root list. */
  ghost predicate AllAccepted(h: Hash, s: State) {
    forall i :: 0 <= i < |s.active| ==> AcceptedRecord(h, s, i)
  }

  lemma AcceptsOptions(h: Hash, root: seq<Scalar>, leaf: Scalar, p: PathTag)
    ensures Accepts(h, root, leaf, PathOption(p), TagOption(p)) <==> Accepted(h, root, leaf, p)
  {
  }

  /** The response built for an attester carries the path for the committed tree, and the verifier's
      signature. */
  lemma BuiltResponse(h: Hash, env: Env, s: State, i: nat)
    requires i < |s.active| && s.root != [] && LeavesListed(s)
    requires KeyMatches(s.active[i])
    ensures var r := BuildResponse(h, env, s, i);
            var p := DevicePathTag(h, s.root, s.oldLeaves, s.oldLeaves[i]);
            && r.shrubsPath == PathOption(p) && r.shrubsTag == TagOption(p)
            && StoredPath(s.active[i].(response := Some(r))) == p
            && ResponseGood(h, env.verifierKey, s.active[i].devInfor, r)
  {
  }

  lemma LastOfAppended(frames: seq<Frame>, f: Frame)
    ensures (frames + [f])[..|frames + [f]| - 1] == frames
    ensures LastContext(frames + [f]) == f.context
    ensures LastResponse(frames + [f]) == if f.FullResponse? then Some(f.response) else LastResponse(frames)
  {
    assert (frames + [f])[..|frames + [f]| - 1] == frames;
  }

  lemma LeafAccepted(h: Hash, s: State, i: nat)
    requires s.root == Roots(h, s.oldLeaves) && i < |s.oldLeaves| && DistinctNodes(h, s.oldLeaves)
    ensures var p := DevicePathTag(h, s.root, s.oldLeaves, s.oldLeaves[i]);
            Accepts(h, s.root, s.oldLeaves[i], PathOption(p), TagOption(p))
  {
    TreeHypotheses(h, s.oldLeaves);
    DevicePathTight(h, s.oldLeaves, s.oldLeaves[i]);
    TightIsAccepted(h, s.root, s.oldLeaves[i], DevicePathTag(h, s.root, s.oldLeaves, s.oldLeaves[i]));
    AcceptsOptions(h, s.root, s.oldLeaves[i], DevicePathTag(h, s.root, s.oldLeaves, s.oldLeaves[i]));
  }

  /** An attester that is sent a full response is served afterwards. */
  lemma FullResponseServes(h: Hash, env: Env, c: State, after: State, i: nat, frames: seq<Frame>)
    requires Consistent(h, c) && LeavesListed(c) && c.root != [] && i < |c.active|
    requires DistinctNodes(h, c.oldLeaves)
    requires after.root == c.root && after.oldLeaves == c.oldLeaves && |after.active| == |c.active|
    requires after.active[i] == c.active[i].(response := Some(BuildResponse(h, env, c, i)))
    requires c.active[i].merkleLeaf == c.active[i].devInfor.merkleLeaf
    requires KeyMatches(c.active[i])
    ensures DeviceServed(h, env.verifierKey, after, i, frames + [FullFrame(h, env, c, i)])
  {
    BuiltResponse(h, env, c, i);
    LeafAccepted(h, c, i);
    LastOfAppended(frames, FullFrame(h, env, c, i));
  }

  /** An attester whose owner root did not change is still served after the context alone. */
  lemma ContextServes(h: Hash, env: Env, s: State, c: State, after: State, i: nat, frames: seq<Frame>)
    requires Consistent(h, s) && c == Commit(h, s) && s.pending != [] && i < |s.active|
    requires Consistent(h, c)
    requires LeavesListed(s) && LeavesListed(c)
    requires DistinctNodes(h, c.oldLeaves)
    requires !OwnerChanges(i, |s.active|, |c.active|)
    requires after.root == c.root && after.oldLeaves == c.oldLeaves && |after.active| == |c.active|
    requires after.active[i] == s.active[i] && s.active[i].merkleLeaf == s.active[i].devInfor.merkleLeaf
    requires DeviceServed(h, env.verifierKey, s, i, frames)
    ensures DeviceServed(h, env.verifierKey, after, i, frames + [ContextRefresh(Context(env, c))])
  {
    UnaffectedIsExact(h, s.oldLeaves, LeavesOf(s.pending), i);
    LeafAccepted(h, c, i);
    LastOfAppended(frames, ContextRefresh(Context(env, c)));
  }

  /** An attester as a batch commits it. */
  lemma CommittedDevice(h: Hash, w: World, i: nat)
    requires Basic(h, w) && w.state.pending != [] && i < |Commit(h, w.state).active|
    ensures var c, n := Commit(h, w.state), |w.state.active|;
            && Consistent(h, c) && LeavesListed(c) && c.root != []
            && (i < n ==> c.active[i] == w.state.active[i])
            && (i >= n ==> c.active[i].response == None)
            && c.active[i].merkleLeaf == c.active[i].devInfor.merkleLeaf
  {
    CommittedRoot(h, w.state);
    CommitKeepsListed(h, w.state);
    CommittedActive(h, w, i);
  }

  /** What a batch sends one attester. */
  lemma BatchFrames(h: Hash, env: Env, w: World, i: nat)
    requires Basic(h, w) && w.state.pending != [] && i < |Commit(h, w.state).active| && Commit(h, w.state).root != []
    ensures var c, n := Commit(h, w.state), |w.state.active|;
            FramesTo(Next(h, w, TimerExpires(env)).wire, i)
            == FramesTo(w.wire, i)
               + (if NeedsPath(n, |c.active|, i)
                  then if i in env.buildFails then [] else [FullFrame(h, env, c, i)]
                  else if env.contextFails then [] else [ContextRefresh(Context(env, c))])
  {
    var c, n := Commit(h, w.state), |w.state.active|;
    CommittedSockets(h, w);
    BatchAddressesEachOnce(h, env, c, n, i);
    FramesToConcat(w.wire, BatchSends(h, env, c, n), i);
  }

  /** What a batch leaves of one attester, and what it sends it. */
  lemma BatchEffect(h: Hash, env: Env, w: World, i: nat)
    requires Basic(h, w) && w.state.pending != [] && i < |Commit(h, w.state).active|
    ensures var c, n := Commit(h, w.state), |w.state.active|;
            var w' := Next(h, w, TimerExpires(env));
            && Consistent(h, c) && LeavesListed(c) && c.root != []
            && (i < n ==> c.active[i] == w.state.active[i])
            && (i >= n ==> c.active[i].response == None)
            && c.active[i].merkleLeaf == c.active[i].devInfor.merkleLeaf
            && |w'.state.active| == |c.active|
            && w'.state.active[i] == (if NeedsPath(n, |c.active|, i) && i !in env.buildFails
                                      then c.active[i].(response := Some(BuildResponse(h, env, c, i)))
                                      else c.active[i])
            && FramesTo(w'.wire, i)
               == FramesTo(w.wire, i)
                  + (if NeedsPath(n, |c.active|, i)
                     then if i in env.buildFails then [] else [FullFrame(h, env, c, i)]
                     else if env.contextFails then [] else [ContextRefresh(Context(env, c))])
  {
    CommittedDevice(h, w, i);
    BatchStoreAt(h, env, Commit(h, w.state), |w.state.active|, i);
    BatchFrames(h, env, w, i);
  }

  /** A batch keeps every attester good. */
  lemma BatchKeepsDevice(h: Hash, env: Env, w: World, i: nat)
    requires Basic(h, w) && w.state.pending != [] && w.timers > 0
    requires Served(h, env.verifierKey, w)
    requires Basic(h, Next(h, w, TimerExpires(env)))
    requires i < |Commit(h, w.state).active| && DistinctNodes(h, Commit(h, w.state).oldLeaves)
    ensures DeviceGood(h, env.verifierKey, Next(h, w, TimerExpires(env)), i)
  {
    var c, n := Commit(h, w.state), |w.state.active|;
    var w' := Next(h, w, TimerExpires(env));
    var frames := FramesTo(w.wire, i);
    BatchEffect(h, env, w, i);
    DistinctBefore(h, w.state.oldLeaves, LeavesOf(w.state.pending));
    assert i < n ==> DeviceGood(h, env.verifierKey, w, i);
    if NeedsPath(n, |c.active|, i) {
      if i !in env.buildFails {
        FullResponseServes(h, env, c, w'.state, i, frames);
        AppendKeepsStream(h, env.verifierKey, c.active[i].devInfor, frames, FullFrame(h, env, c, i));
      }
    } else if i !in w.missed && !env.contextFails {
      ContextServes(h, env, w.state, c, w'.state, i, frames);
      AppendKeepsStream(h, env.verifierKey, c.active[i].devInfor, frames, ContextRefresh(Context(env, c)));
    }
  }

  lemma CommittedSockets(h: Hash, w: World)
    requires Conserved(w) && w.state.pending != []
    ensures SocketsNumbered(Commit(h, w.state).active)
  {
    forall i | 0 <= i < |Commit(h, w.state).active| ensures Commit(h, w.state).active[i].socket == i {
      CommittedActive(h, w, i);
    }
  }

  lemma AppendKeepsStream(h: Hash, vk: Bytes, dev: DeviceClientInfor, frames: seq<Frame>, f: Frame)
    ensures StreamGood(h, vk, dev, frames) && LastGood(h, vk, dev, frames + [f])
        ==> StreamGood(h, vk, dev, frames + [f])
  {
    LastOfAppended(frames, f);
  }

  lemma StepKeepsServed(h: Hash, vk: Bytes, w: World, step: Step)
    requires Basic(h, w) && Served(h, vk, w) && Enabled(vk, w, step)
    ensures Basic(h, Next(h, w, step)) && Served(h, vk, Next(h, w, step))
  {
    StepKeepsBasic(h, vk, w, step);
    if step.TimerExpires? && w.state.pending != [] {
      BatchKeepsServed(h, step.env, w);
    } else {
      QuietStepKeepsServed(h, vk, w, step);
    }
  }

  lemma QuietStepKeepsServed(h: Hash, vk: Bytes, w: World, step: Step)
    requires Basic(h, w) && Served(h, vk, w) && Basic(h, Next(h, w, step))
    requires step.TimerExpires? ==> w.state.pending == []
    ensures Served(h, vk, Next(h, w, step))
  {
    var w' := Next(h, w, step);
    forall i | 0 <= i < |w'.state.active| && DistinctNodes(h, w'.state.oldLeaves)
      ensures DeviceGood(h, vk, w', i)
    {
      assert DeviceGood(h, vk, w, i);
    }
  }

  lemma BatchKeepsServed(h: Hash, env: Env, w: World)
    requires Basic(h, w) && Served(h, env.verifierKey, w) && w.state.pending != [] && w.timers > 0
    requires Basic(h, Next(h, w, TimerExpires(env)))
    ensures Served(h, env.verifierKey, Next(h, w, TimerExpires(env)))
  {
    var c, n := Commit(h, w.state), |w.state.active|;
    var w' := Next(h, w, TimerExpires(env));
    CommittedRoot(h, w.state);
    CommittedSockets(h, w);
    forall i: nat | |w'.state.active| <= i ensures FramesTo(w'.wire, i) == [] {
      BatchAddressesEachOnce(h, env, c, n, i);
      FramesToConcat(w.wire, BatchSends(h, env, c, n), i);
    }
    forall i | 0 <= i < |w'.state.active| && DistinctNodes(h, w'.state.oldLeaves)
      ensures DeviceGood(h, env.verifierKey, w', i)
    {
      BatchKeepsDevice(h, env, w, i);
    }
  }

  lemma {:induction false} RunIsServed(h: Hash, vk: Bytes, steps: seq<Step>)
    requires Possible(h, vk, steps)
    ensures Basic(h, Run(h, steps)) && Served(h, vk, Run(h, steps))
  {
    if steps != [] {
      RunIsServed(h, vk, steps[..|steps| - 1]);
      StepKeepsServed(h, vk, Run(h, steps[..|steps| - 1]), steps[|steps| - 1]);
    }
  }

  /** Whole-run safety. In every reachable state, as long as no two tree nodes collide, the path
      stored for every active attester - refreshed or not - is accepted by the circuit against the
      newest root list; excepted are only those whose last needed response could not be built. */
  lemma {:induction false} WholeRunSafety(h: Hash, vk: Bytes, steps: seq<Step>, i: nat)
    requires Possible(h, vk, steps)
    requires i < |Run(h, steps).state.active| && i !in Run(h, steps).missed
    requires DistinctNodes(h, Run(h, steps).state.oldLeaves)
    ensures var s := Run(h, steps).state;
            && s.root == Roots(h, s.oldLeaves)
            && s.active[i].response.Some?
            && Accepts(h, s.root, s.active[i].merkleLeaf,
                       s.active[i].response.value.shrubsPath, s.active[i].response.value.shrubsTag)
  {
    RunIsServed(h, vk, steps);
    assert DeviceGood(h, vk, Run(h, steps), i);
    LeafAccepted(h, Run(h, steps).state, i);
  }

  /** End to end. In every reachable state, an honest active attester that handled all its frames
      holds a session that satisfies the circuit against the newest root list; and one that handled
      only some of them, in order, holds a session that satisfies the circuit against the root list
      it has stored. */
  lemma {:induction false} ClientAlwaysProves(h: Hash, vk: Bytes, steps: seq<Step>, i: nat, key: KeyInfor,
                                              measurement: Bytes, k: nat)
    requires Possible(h, vk, steps)
    requires i < |Run(h, steps).state.active| && i !in Run(h, steps).everMissed
    requires DistinctNodes(h, Run(h, steps).state.oldLeaves)
    requires i < |Run(h, steps).arrivals|
    requires Run(h, steps).arrivals[i].devInfor == GenerateDeviceClientInfor(h, key, measurement)
    requires 0 < k <= |FramesTo(Run(h, steps).wire, i)|
    ensures var frames := FramesTo(Run(h, steps).wire, i);
            var session := SessionAfter(h, key, GenerateDeviceClientInfor(h, key, measurement), frames[..k]);
            && SessionSatisfied(h, session)
            && (k == |frames| ==> session.context.value.root == Run(h, steps).state.root)
  {
    RunIsServed(h, vk, steps);
    var w := Run(h, steps);
    var frames := FramesTo(w.wire, i);
    assert DeviceGood(h, vk, w, i);
    assert w.state.active[i].(response := None) == w.arrivals[i];
    GoodStreamSatisfies(h, vk, key, measurement, frames, k);
    SessionHolds(h, key, GenerateDeviceClientInfor(h, key, measurement), frames[..k]);
    if k == |frames| {
      assert frames[..k] == frames;
    }
  }

  /** Nothing could not be built or encoded in the run. */
  predicate NothingFails(steps: seq<Step>) {
    steps != [] ==>
      && NothingFails(steps[..|steps| - 1])
      && (steps[|steps| - 1].TimerExpires? ==>
            steps[|steps| - 1].env.buildFails == {} && !steps[|steps| - 1].env.contextFails)
  }

  /** The exceptions above are failures only: in a run in which everything is built, nobody misses anything. */
  lemma {:induction false} NobodyMisses(h: Hash, steps: seq<Step>)
    requires NothingFails(steps)
    ensures Run(h, steps).missed == {} && Run(h, steps).everMissed == {}
  {
    if steps != [] {
      NobodyMisses(h, steps[..|steps| - 1]);
    }
  }

  /** An attester that missed a response recovers with the next one: whatever it went through, once
      its last needed response was built it has frames, and after handling them all its session
      satisfies the circuit against the newest root list. */
  lemma {:induction false} RecoveredClientProves(h: Hash, vk: Bytes, steps: seq<Step>, i: nat, key: KeyInfor,
                                                 measurement: Bytes)
    requires Possible(h, vk, steps)
    requires i < |Run(h, steps).state.active| && i !in Run(h, steps).missed
    requires DistinctNodes(h, Run(h, steps).state.oldLeaves)
    requires i < |Run(h, steps).arrivals|
    requires Run(h, steps).arrivals[i].devInfor == GenerateDeviceClientInfor(h, key, measurement)
    ensures var frames := FramesTo(Run(h, steps).wire, i);
            var session := SessionAfter(h, key, GenerateDeviceClientInfor(h, key, measurement), frames);
            frames != [] && SessionSatisfied(h, session) && session.context.value.root == Run(h, steps).state.root
  {
    RunIsServed(h, vk, steps);
    var w := Run(h, steps);
    assert DeviceGood(h, vk, w, i);
    assert w.state.active[i].(response := None) == w.arrivals[i];
    LastGoodSatisfies(h, vk, key, measurement, FramesTo(w.wire, i));
    SessionHolds(h, key, GenerateDeviceClientInfor(h, key, measurement), FramesTo(w.wire, i));
  }
}
