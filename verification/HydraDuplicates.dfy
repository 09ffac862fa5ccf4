/** Runs in which leaves may repeat: an attester that reconnects with the same key and measurement
    submits the same leaf again. The path search takes the first occurrence, the refresh set goes by
    index, and the two can disagree; here is when the daemon's records stay accepted all the same. */
module HydraDuplicates {
  import opened Wrappers
  import opened ShrubsTree
  import opened ShrubsOwner
  import opened ShrubsPath
  import opened ShrubsMembership
  import opened ShrubsRefresh
  import opened ShrubsBlocks
  import opened HydraTypes
  import opened HydraDaemon
  import opened HydraDispatch
  import opened HydraRun

  /** The smallest failure, for any hash: with the leaf `l` queued twice, the second attester holds
      no path; inserting any other leaf does not affect its index, so it is sent the new root list
      alone, and the circuit rejects it. */
  lemma {:induction false} DuplicateLeafIsStranded(h: Hash, l: Scalar, m: Scalar)
    requires l != m
    ensures DevicePathTag(h, Roots(h, [l, l]), [l, l], l) == NoPath
    ensures 2 !in Affected(2, 3, 2)
    ensures !Accepted(h, Roots(h, [l, l] + [m]), l, NoPath)
  {
    RootAt(h, [l, l], 0);
    RootAt(h, [l, l] + [m], 0);
    AffectedMembers(2, 3, 2);
    OwnerChangesIff(1, 2, 3);
    assert OwnerLevel(1, 2) == 1 && OwnerLevel(1, 3) == 1;
    SearchFirstOfTwo(h, l);
  }

  lemma {:induction false} SearchFirstOfTwo(h: Hash, l: Scalar)
    ensures DevicePathTag(h, Roots(h, [l, l]), [l, l], l) == NoPath
  {
    RootAt(h, [l, l], 0);
    var i, block, d, pos, v := SearchedBlock(h, [l, l], l);
    assert i == 0;
    if d > 0 {
      ClimbCases(h, Roots(h, [l, l]), block, 0, d, v);
    }
  }

  ghost predicate TightRecord(h: Hash, s: State, i: nat) {
    i < |s.active| && Tight(h, s.root, s.active[i].merkleLeaf, StoredPath(s.active[i]))
  }

  ghost predicate AllTight(h: Hash, s: State) {
    forall i :: 0 <= i < |s.active| ==> TightRecord(h, s, i)
  }

  /** A guard that can be checked before the batch: for every old attester that is not to be refreshed,
      the leaves below the root its stored path leads to are the same before and after. */
  predicate BlocksKept(s: State) {
    forall i :: 0 <= i < |s.active| && !OwnerChanges(i, |s.active|, |s.active| + |s.pending|) ==> BlockKept(s, i)
  }

  predicate BlockKept(s: State, i: nat)
    requires i < |s.active|
  {
    var leaves := s.oldLeaves + LeavesOf(s.pending);
    |s.active| <= |leaves| && RootsAgree(leaves, PathLength(StoredPath(s.active[i])), |s.active|, |leaves|)
  }

  lemma RefreshedDevice(h: Hash, env: Env, w: World, i: nat)
    requires Basic(h, w) && w.state.pending != [] && env.buildFails == {}
    requires i < |Commit(h, w.state).active| && LevelsApart(h, Commit(h, w.state).oldLeaves)
    requires NeedsPath(|w.state.active|, |Commit(h, w.state).active|, i)
    ensures TightRecord(h, Next(h, w, TimerExpires(env)).state, i)
    ensures AcceptedRecord(h, Next(h, w, TimerExpires(env)).state, i)
  {
    var leaves := w.state.oldLeaves + LeavesOf(w.state.pending);
    AfterBatchCount(h, env, w);
    BatchRecord(h, env, w, i);
    DevicePathTight(h, leaves, leaves[i]);
    TightIsAccepted(h, Roots(h, leaves), leaves[i], DevicePathTag(h, Roots(h, leaves), leaves, leaves[i]));
  }

  lemma UnrefreshedDevice(h: Hash, env: Env, w: World, i: nat)
    requires Basic(h, w) && w.state.pending != [] && CollisionFree(h)
    requires i < |w.state.active| && LevelsApart(h, Commit(h, w.state).oldLeaves)
    requires !NeedsPath(|w.state.active|, |Commit(h, w.state).active|, i)
    requires TightRecord(h, w.state, i)
    ensures var s := Next(h, w, TimerExpires(env)).state;
            && (AcceptedRecord(h, s, i) <==> BlockKept(w.state, i))
            && (AcceptedRecord(h, s, i) ==> TightRecord(h, s, i))
  {
    var leaves, n, p := w.state.oldLeaves + LeavesOf(w.state.pending), |w.state.active|, StoredPath(w.state.active[i]);
    CommittedRoot(h, w.state);
    BatchEffect(h, env, w, i);
    assert leaves[..n] == w.state.oldLeaves && leaves[..|leaves|] == leaves;
    AcceptedElsewhereIff(h, leaves, n, |leaves|, w.state.active[i].merkleLeaf, p);
    RootsAgreeIff(h, leaves, PathLength(p), n, |leaves|);
  }

  /** One batch, from a state in which all stored paths are good: they are all accepted afterwards if
      and only if the guard holds. Equal leaves are allowed. */
  lemma {:induction false} BatchAcceptedIff(h: Hash, env: Env, w: World)
    requires Basic(h, w) && w.state.pending != [] && w.timers > 0 && env.buildFails == {}
    requires CollisionFree(h) && LevelsApart(h, Commit(h, w.state).oldLeaves)
    requires AllTight(h, w.state)
    ensures AllAccepted(h, Next(h, w, TimerExpires(env)).state) <==> BlocksKept(w.state)
    ensures AllAccepted(h, Next(h, w, TimerExpires(env)).state) ==> AllTight(h, Next(h, w, TimerExpires(env)).state)
  {
    var a := Next(h, w, TimerExpires(env)).state;
    AfterBatchCount(h, env, w);
    forall i: nat | i < |a.active|
      ensures RecordFate(h, w.state, a, i)
    {
      RecordAfterBatch(h, env, w, i);
    }
    FatesDecide(h, w.state, a);
  }

  lemma AfterBatchCount(h: Hash, env: Env, w: World)
    requires Basic(h, w) && w.state.pending != []
    ensures |Next(h, w, TimerExpires(env)).state.active| == |Commit(h, w.state).active|
         == |w.state.active| + |w.state.pending|
  {
    CommittedRoot(h, w.state);
  }

  /** After a batch a record is accepted if it was refreshed or its block was kept. */
  ghost predicate RecordFate(h: Hash, s: State, a: State, i: nat)
    requires i < |a.active| == |s.active| + |s.pending|
  {
    && (AcceptedRecord(h, a, i) <==> NeedsPath(|s.active|, |a.active|, i) || BlockKept(s, i))
    && (AcceptedRecord(h, a, i) ==> TightRecord(h, a, i))
  }

  lemma FatesDecide(h: Hash, s: State, a: State)
    requires |a.active| == |s.active| + |s.pending|
    requires forall i: nat :: i < |a.active| ==> RecordFate(h, s, a, i)
    ensures AllAccepted(h, a) <==> BlocksKept(s)
    ensures AllAccepted(h, a) ==> AllTight(h, a)
  {
    if BlocksKept(s) {
      forall i | 0 <= i < |a.active| ensures AcceptedRecord(h, a, i) {
        assert RecordFate(h, s, a, i);
      }
    }
    if AllAccepted(h, a) {
      forall i | 0 <= i < |a.active|
        ensures TightRecord(h, a, i) && (!NeedsPath(|s.active|, |a.active|, i) ==> BlockKept(s, i))
      {
        assert RecordFate(h, s, a, i) && AcceptedRecord(h, a, i);
      }
    }
  }

  lemma RecordAfterBatch(h: Hash, env: Env, w: World, i: nat)
    requires Basic(h, w) && w.state.pending != [] && env.buildFails == {}
    requires CollisionFree(h) && LevelsApart(h, Commit(h, w.state).oldLeaves)
    requires AllTight(h, w.state) && i < |Commit(h, w.state).active|
    ensures |Next(h, w, TimerExpires(env)).state.active| == |w.state.active| + |w.state.pending|
    ensures RecordFate(h, w.state, Next(h, w, TimerExpires(env)).state, i)
  {
    AfterBatchCount(h, env, w);
    if NeedsPath(|w.state.active|, |Commit(h, w.state).active|, i) {
      RefreshedDevice(h, env, w, i);
    } else {
      UnrefreshedDevice(h, env, w, i);
    }
  }

  /** The failure as a run of the daemon: two attesters with the same leaf in one batch, any other
      leaf in the next. The second attester's stored path is then rejected by the newest root list,
      although nothing went wrong on the way. */
  lemma {:induction false} StrandedRun(h: Hash, env: Env, a: DeviceClientInfor, b: DeviceClientInfor,
                                       c: DeviceClientInfor)
    requires a.merkleLeaf == b.merkleLeaf != c.merkleLeaf && env.buildFails == {}
    ensures var w1 := Next(h, Next(h, START, Arrive(a, "")), Arrive(b, ""));
            var w2 := Next(h, w1, TimerExpires(env));
            var w4 := Next(h, Next(h, w2, Arrive(c, "")), TimerExpires(env));
            && w1.timers == 1 && Next(h, w2, Arrive(c, "")).timers == 1
            && |w4.state.active| == 3
            && !Accepted(h, w4.state.root, w4.state.active[1].merkleLeaf, StoredPath(w4.state.active[1]))
  {
    var w2 := Next(h, Next(h, Next(h, START, Arrive(a, "")), Arrive(b, "")), TimerExpires(env));
    TwinsHoldNothing(h, env, a, b);
    ThirdStrandsSecond(h, env, w2, a.merkleLeaf, c);
  }

  /** After the first batch the second of two equal leaves holds no path. */
  lemma {:induction false} TwinsHoldNothing(h: Hash, env: Env, a: DeviceClientInfor, b: DeviceClientInfor)
    requires a.merkleLeaf == b.merkleLeaf && env.buildFails == {}
    ensures var w1 := Next(h, Next(h, START, Arrive(a, "")), Arrive(b, ""));
            var w2 := Next(h, w1, TimerExpires(env));
            && w1.timers == 1 && Basic(h, w2) && w2.state.pending == [] && |w2.state.active| == 2
            && w2.state.oldLeaves == [a.merkleLeaf, a.merkleLeaf] && StoredPath(w2.state.active[1]) == NoPath
  {
    var w0 := Next(h, START, Arrive(a, ""));
    var w1 := Next(h, w0, Arrive(b, ""));
    StepKeepsBasic(h, env.verifierKey, START, Arrive(a, ""));
    StepKeepsBasic(h, env.verifierKey, w0, Arrive(b, ""));
    TwoLeaves(w1.state.pending, a.merkleLeaf);
    AfterBatchCount(h, env, w1);
    BatchRecord(h, env, w1, 1);
    StepKeepsBasic(h, env.verifierKey, w1, TimerExpires(env));
    SearchFirstOfTwo(h, a.merkleLeaf);
  }

  /** Any third leaf then makes the first root another one, and does not refresh it. */
  lemma {:induction false} ThirdStrandsSecond(h: Hash, env: Env, w: World, l: Scalar, c: DeviceClientInfor)
    requires Basic(h, w) && w.state.pending == [] && |w.state.active| == 2 && w.state.oldLeaves == [l, l]
    requires StoredPath(w.state.active[1]) == NoPath && l != c.merkleLeaf && env.buildFails == {}
    ensures var w' := Next(h, Next(h, w, Arrive(c, "")), TimerExpires(env));
            && Next(h, w, Arrive(c, "")).timers == 1 && |w'.state.active| == 3
            && !Accepted(h, w'.state.root, w'.state.active[1].merkleLeaf, StoredPath(w'.state.active[1]))
  {
    var w3 := Next(h, w, Arrive(c, ""));
    StepKeepsBasic(h, env.verifierKey, w, Arrive(c, ""));
    OneLeaf(w3.state.pending, c.merkleLeaf);
    SecondIsUnaffected();
    AfterBatchCount(h, env, w3);
    BatchRecord(h, env, w3, 1);
    DuplicateLeafIsStranded(h, l, c.merkleLeaf);
  }

  lemma {:induction false} TwoLeaves(items: seq<AttesterSession>, l: Scalar)
    requires |items| == 2 && items[0].merkleLeaf == items[1].merkleLeaf == l
    ensures LeavesOf(items) == [l, l]
  {
    LeafOf(items, 0);
    LeafOf(items, 1);
  }

  lemma {:induction false} OneLeaf(items: seq<AttesterSession>, m: Scalar)
    requires |items| == 1 && items[0].merkleLeaf == m
    ensures LeavesOf(items) == [m]
  {
    LeafOf(items, 0);
  }

  lemma SecondIsUnaffected()
    ensures !OwnerChanges(1, 2, 3)
  {
    OwnerChangesIff(1, 2, 3);
    assert OwnerLevel(1, 2) == 1 && OwnerLevel(1, 3) == 1;
  }

  // ----- whole runs

  predicate NoBuildFails(steps: seq<Step>) {
    forall k :: 0 <= k < |steps| && steps[k].TimerExpires? ==> steps[k].env.buildFails == {}
  }

  /** What the steps alone say: the leaves queued, the leaves inserted, and the leaf count after each
      batch. */
  datatype Tally = Tally(queued: seq<Scalar>, leaves: seq<Scalar>, counts: seq<nat>)

  function TallyOf(steps: seq<Step>): Tally {
    if steps == [] then Tally([], [], [])
    else NextTally(TallyOf(steps[..|steps| - 1]), steps[|steps| - 1])
  }

  function NextTally(t: Tally, step: Step): Tally {
    match step
    case Arrive(dev, _) => t.(queued := t.queued + [dev.merkleLeaf])
    case TimerExpires(_) =>
      if t.queued == [] then t
      else Tally([], t.leaves + t.queued, t.counts + [|t.leaves + t.queued|])
  }

  /** The leaf count at the last batch that gave attester `i` a path. */
  function RefreshedAt(counts: seq<nat>, i: nat): nat {
    if counts == [] then 0
    else
      var n := if |counts| == 1 then 0 else counts[|counts| - 2];
      var n' := counts[|counts| - 1];
      if n <= n' && i < n' && !NeedsPath(n, n', i) then RefreshedAt(counts[..|counts| - 1], i) else n'
  }

  /** The guard of a whole run, on leaves and counts alone: for every attester, the leaves below the root
      it was given a path to are still those below the root of that level. */
  predicate GuardHolds(t: Tally) {
    forall i :: 0 <= i < |t.leaves| ==> RecordKept(t, i)
  }

  predicate RecordKept(t: Tally, i: nat)
    requires i < |t.leaves|
  {
    var r := RefreshedAt(t.counts, i);
    && r <= |t.leaves| && t.leaves[i] in t.leaves[..r]
    && RootsAgree(t.leaves, SearchLength(t.leaves[..r], t.leaves[i]), r, |t.leaves|)
  }

  predicate Matches(w: World, t: Tally) {
    && t.leaves == w.state.oldLeaves && t.queued == LeavesOf(w.state.pending)
    && (t.counts == [] <==> t.leaves == []) && (t.counts != [] ==> t.counts[|t.counts| - 1] == |t.leaves|)
  }

  /** The record of attester `i` holds the path of its last refresh. */
  ghost predicate RecordOfRefresh(h: Hash, w: World, t: Tally, i: nat)
    requires i < |w.state.active|
  {
    var r := RefreshedAt(t.counts, i);
    && i < r <= |t.leaves| && i < |t.leaves| && t.leaves[i] in t.leaves[..r]
    && StoredPath(w.state.active[i]) == DevicePathTag(h, Roots(h, t.leaves[..r]), t.leaves[..r], t.leaves[i])
  }

  ghost predicate Tallied(h: Hash, w: World, t: Tally) {
    && Basic(h, w) && Matches(w, t)
    && forall i :: 0 <= i < |w.state.active| ==> RecordOfRefresh(h, w, t, i)
  }

  lemma ArrivalTally(h: Hash, w: World, t: Tally, dev: DeviceClientInfor, addr: string)
    requires Tallied(h, w, t) && Basic(h, Next(h, w, Arrive(dev, addr)))
    ensures Tallied(h, Next(h, w, Arrive(dev, addr)), NextTally(t, Arrive(dev, addr)))
  {
    var w', t' := Next(h, w, Arrive(dev, addr)), NextTally(t, Arrive(dev, addr));
    assert w'.state.pending[..|w.state.pending|] == w.state.pending;
    forall i | 0 <= i < |w'.state.active| ensures RecordOfRefresh(h, w', t', i) {
      assert RecordOfRefresh(h, w, t, i);
    }
  }

  lemma BatchesTally(h: Hash, w: World, t: Tally, env: Env)
    requires Tallied(h, w, t) && Basic(h, Next(h, w, TimerExpires(env)))
    requires w.state.pending != [] && w.timers > 0 && env.buildFails == {}
    ensures Tallied(h, Next(h, w, TimerExpires(env)), NextTally(t, TimerExpires(env)))
  {
    var w', t' := Next(h, w, TimerExpires(env)), NextTally(t, TimerExpires(env));
    CommittedRoot(h, w.state);
    forall i | 0 <= i < |w'.state.active| ensures RecordOfRefresh(h, w', t', i) {
      assert i < |w.state.active| ==> RecordOfRefresh(h, w, t, i);
      BatchTally(h, env, w, t, i);
    }
  }

  lemma {:induction false} RunTally(h: Hash, vk: Bytes, steps: seq<Step>)
    requires Possible(h, vk, steps) && NoBuildFails(steps)
    ensures Tallied(h, Run(h, steps), TallyOf(steps))
  {
    QueueConservation(h, vk, steps);
    if steps != [] {
      var before, step := steps[..|steps| - 1], steps[|steps| - 1];
      RunTally(h, vk, before);
      match step
      case Arrive(dev, addr) => ArrivalTally(h, Run(h, before), TallyOf(before), dev, addr);
      case TimerExpires(env) => BatchesTally(h, Run(h, before), TallyOf(before), env);
    }
  }

  lemma RefreshedAtNow(counts: seq<nat>, n': nat, i: nat)
    requires i < n' && (counts == [] || counts[|counts| - 1] <= n')
    ensures var n := if counts == [] then 0 else counts[|counts| - 1];
            RefreshedAt(counts + [n'], i) == if NeedsPath(n, n', i) then n' else RefreshedAt(counts, i)
  {
    assert (counts + [n'])[..|counts|] == counts;
    assert counts == [] ==> NeedsPath(0, n', i);
  }

  lemma BatchTally(h: Hash, env: Env, w: World, t: Tally, i: nat)
    requires Basic(h, w) && w.state.pending != [] && w.timers > 0 && env.buildFails == {} && Matches(w, t)
    requires i < |w.state.active| ==> RecordOfRefresh(h, w, t, i)
    requires i < |Next(h, w, TimerExpires(env)).state.active|
    ensures RecordOfRefresh(h, Next(h, w, TimerExpires(env)), NextTally(t, TimerExpires(env)), i)
  {
    var n, n' := |w.state.active|, |Commit(h, w.state).active|;
    AfterBatchCount(h, env, w);
    BatchRecord(h, env, w, i);
    RefreshedAtNow(t.counts, n', i);
    PrefixKept(t.leaves, t.queued, i, if i < n then RefreshedAt(t.counts, i) else 0);
  }

  lemma PrefixKept(leaves: seq<Scalar>, more: seq<Scalar>, i: nat, r: nat)
    requires r <= |leaves|
    ensures (leaves + more)[..r] == leaves[..r] && (leaves + more)[..|leaves + more|] == leaves + more
    ensures i < |leaves| ==> (leaves + more)[i] == leaves[i]
  {
  }

  /** The record after a batch: the path among all leaves if one was needed, else the old one. */
  lemma BatchRecord(h: Hash, env: Env, w: World, i: nat)
    requires Basic(h, w) && w.state.pending != [] && env.buildFails == {}
    requires i < |Next(h, w, TimerExpires(env)).state.active| == |Commit(h, w.state).active|
    ensures var leaves := w.state.oldLeaves + LeavesOf(w.state.pending);
            var item := Next(h, w, TimerExpires(env)).state.active[i];
            && |leaves| == |Commit(h, w.state).active| && leaves[i] in leaves
            && (NeedsPath(|w.state.active|, |leaves|, i) ==>
                  StoredPath(item) == DevicePathTag(h, Roots(h, leaves), leaves, leaves[i]))
            && (!NeedsPath(|w.state.active|, |leaves|, i) ==> StoredPath(item) == StoredPath(w.state.active[i]))
            && item.merkleLeaf == leaves[i] && Next(h, w, TimerExpires(env)).state.root == Roots(h, leaves)
  {
    CommittedRoot(h, w.state);
    BatchEffect(h, env, w, i);
    if NeedsPath(|w.state.active|, |Commit(h, w.state).active|, i) {
      BuiltPath(h, env, Commit(h, w.state), i);
    }
  }

  lemma BuiltPath(h: Hash, env: Env, c: State, i: nat)
    requires i < |c.active| && c.root != [] && LeavesListed(c)
    ensures StoredPath(c.active[i].(response := Some(BuildResponse(h, env, c, i))))
         == DevicePathTag(h, c.root, c.oldLeaves, c.oldLeaves[i])
  {
  }

  /** For every run, equal leaves included: all stored paths are accepted by the newest root list if and
      only if the guard holds of its leaves and counts. */
  lemma {:induction false} RunAcceptedIff(h: Hash, vk: Bytes, steps: seq<Step>)
    requires Possible(h, vk, steps) && NoBuildFails(steps)
    requires CollisionFree(h) && LevelsApart(h, Run(h, steps).state.oldLeaves)
    ensures AllAccepted(h, Run(h, steps).state) <==> GuardHolds(TallyOf(steps))
  {
    var w, t := Run(h, steps), TallyOf(steps);
    RunTally(h, vk, steps);
    forall i: nat | i < |w.state.active| ensures AcceptedRecord(h, w.state, i) <==> RecordKept(t, i) {
      RecordAcceptedIff(h, w, t, i);
    }
  }

  lemma RecordAcceptedIff(h: Hash, w: World, t: Tally, i: nat)
    requires Tallied(h, w, t) && i < |w.state.active|
    requires CollisionFree(h) && LevelsApart(h, w.state.oldLeaves)
    ensures AcceptedRecord(h, w.state, i) <==> RecordKept(t, i)
  {
    assert RecordOfRefresh(h, w, t, i);
    assert t.leaves[..|t.leaves|] == t.leaves;
    SearchedPathAcceptedIff(h, t.leaves, RefreshedAt(t.counts, i), |t.leaves|, t.leaves[i]);
  }
}
