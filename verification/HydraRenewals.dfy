/** Validity windows when batches overlap. A batch builds on the responses that were stored when it was
    committed. If an attester had none then, the batch reads the clock, even when another batch already
    has a first response for it on the way; so an attester can hold responses of different windows, and
    this module says exactly when. */
module HydraRenewals {
  import opened Wrappers
  import opened ShrubsTree
  import opened HydraTypes
  import opened HydraDaemon
  import opened HydraRun
  import opened HydraStamps
  import opened HydraPhases
  import opened HydraOvertaking

  // ----- where a response comes from

  /** What batch `t` builds on for attester `i`: the response of an earlier batch, or none. */
  ghost predicate OriginGood(h: Hash, batches: seq<Batch>, t: nat, i: nat)
    requires t < |batches| && i < |batches[t].committed.active|
  {
    var c, before := batches[t].committed, batches[t].before;
    && (c.active[i].response.Some? <==> i in before)
    && (i in before ==>
          && before[i] < t
          && var b := batches[before[i]];
             && i < |b.committed.active| && b.committed.root != []
             && c.active[i].response == Some(BuildResponse(h, b.env, b.committed, i)))
  }

  ghost predicate OriginsGood(h: Hash, w: Phased) {
    forall t, i :: 0 <= t < |w.batches| && 0 <= i < |w.batches[t].committed.active| ==> OriginGood(h, w.batches, t, i)
  }

  lemma OriginStays(h: Hash, w: Phased, w': Phased, t: nat, i: nat)
    requires BatchesExtend(w, w') && t < |w.batches| && i < |w.batches[t].committed.active|
    requires OriginGood(h, w.batches, t, i)
    ensures OriginGood(h, w'.batches, t, i)
  {
  }

  /** A new batch builds on the records as they are. */
  lemma NewOrigin(h: Hash, vk: Bytes, w: Phased, env: Env, i: nat)
    requires PhasedGood(h, vk, w) && w.state.pending != [] && i < |Commit(h, w.state).active|
    ensures |Commits(h, w, env).batches| == |w.batches| + 1
    ensures Commits(h, w, env).batches[|w.batches|].committed == Commit(h, w.state)
    ensures OriginGood(h, Commits(h, w, env).batches, |w.batches|, i)
  {
    CommittedRoot(h, w.state);
    CommittedActive(h, Core(w), i);
    if i < |w.state.active| {
      assert RecordGood(h, w, i);
    }
  }

  lemma {:induction false} StepKeepsOrigins(h: Hash, vk: Bytes, w: Phased, step: PhasedStep)
    requires PhasedGood(h, vk, w) && OriginsGood(h, w) && CanStep(vk, w, step)
    ensures OriginsGood(h, NextPhase(h, w, step))
  {
    match step
    case Queued(_, _) =>
    case Advanced(t, delivered) =>
      ActKeepsOrigins(h, vk, w, t, delivered);
    case Committed(env) =>
      if w.state.pending != [] {
        CommitKeepsOrigins(h, vk, w, env);
      }
  }

  lemma ActKeepsOrigins(h: Hash, vk: Bytes, w: Phased, t: nat, delivered: bool)
    requires PhasedGood(h, vk, w) && OriginsGood(h, w) && t < |w.batches| && w.batches[t].todo != []
    ensures OriginsGood(h, Act(h, w, t, delivered))
  {
    ActKeepsBatches(h, vk, w, t, delivered);
    ActEffect(h, w, t, delivered);
    OldOrigins(h, w, Act(h, w, t, delivered));
  }

  lemma {:induction false} CommitKeepsOrigins(h: Hash, vk: Bytes, w: Phased, env: Env)
    requires PhasedGood(h, vk, w) && OriginsGood(h, w) && w.state.pending != []
    ensures OriginsGood(h, Commits(h, w, env))
  {
    var w' := Commits(h, w, env);
    CommittedRoot(h, w.state);
    OldOrigins(h, w, w');
    forall t, i | 0 <= t < |w'.batches| && 0 <= i < |w'.batches[t].committed.active|
      ensures OriginGood(h, w'.batches, t, i)
    {
      if t == |w.batches| {
        NewOrigin(h, vk, w, env, i);
      }
    }
  }

  lemma OldOrigins(h: Hash, w: Phased, w': Phased)
    requires OriginsGood(h, w) && BatchesExtend(w, w')
    ensures forall t, i :: 0 <= t < |w.batches| && 0 <= i < |w.batches[t].committed.active| ==>
              i < |w'.batches[t].committed.active| && OriginGood(h, w'.batches, t, i)
  {
    forall t, i | 0 <= t < |w.batches| && 0 <= i < |w.batches[t].committed.active|
      ensures i < |w'.batches[t].committed.active| && OriginGood(h, w'.batches, t, i)
    {
      OriginStays(h, w, w', t, i);
    }
  }

  lemma {:induction false} EveryOriginIsGood(h: Hash, vk: Bytes, steps: seq<PhasedStep>)
    requires PossibleRun(h, vk, steps)
    ensures PhasedGood(h, vk, PhasedRun(h, steps)) && OriginsGood(h, PhasedRun(h, steps))
  {
    EveryRunIsGood(h, vk, steps);
    if steps != [] {
      EveryOriginIsGood(h, vk, steps[..|steps| - 1]);
      StepKeepsOrigins(h, vk, PhasedRun(h, steps[..|steps| - 1]), steps[|steps| - 1]);
    }
  }

  // ----- the window of a response

  /** The batch whose clock the response of batch `t` for attester `i` goes back to. */
  function Origin(batches: seq<Batch>, t: nat, i: nat): nat
    requires t < |batches|
  {
    if i in batches[t].before && batches[t].before[i] < t then Origin(batches, batches[t].before[i], i) else t
  }

  /** It is a batch that was committed when the attester had no stored response. */
  lemma {:induction false} OriginIsFirst(h: Hash, w: Phased, t: nat, i: nat)
    requires OriginsGood(h, w) && t < |w.batches| && i < |w.batches[t].committed.active|
    ensures Origin(w.batches, t, i) <= t && i < |w.batches[Origin(w.batches, t, i)].committed.active|
    ensures i !in w.batches[Origin(w.batches, t, i)].before
  {
    assert OriginGood(h, w.batches, t, i);
    if i in w.batches[t].before {
      OriginIsFirst(h, w, w.batches[t].before[i], i);
    }
  }

  /** The window of a response is that of its origin: the clock of that batch, for the fixed period. */
  lemma {:induction false} WindowIsOrigins(h: Hash, vk: Bytes, w: Phased, t: nat, i: nat)
    requires PhasedGood(h, vk, w) && OriginsGood(h, w) && t < |w.batches| && i < |w.batches[t].committed.active|
    requires w.batches[t].committed.root != [] && i < |w.arrivals| && Origin(w.batches, t, i) < |w.batches|
    ensures StampOf(BuildResponse(h, w.batches[t].env, w.batches[t].committed, i))
         == Stamp(w.batches[Origin(w.batches, t, i)].env.Now(i), VALIDITY, w.arrivals[i].attesterAddr,
                  w.arrivals[i].devInfor.verifyingKey)
    decreases t
  {
    var b := w.batches[t];
    assert OriginGood(h, w.batches, t, i);
    assert BatchGood(h, vk, w.state.oldLeaves, w.arrivals, b);
    BuiltStamp(h, b.env, b.committed, i);
    assert b.committed.active[i].(response := None) == w.arrivals[i];
    if i in b.before {
      WindowIsOrigins(h, vk, w, b.before[i], i);
    }
  }

  /** A full response written to attester `i`, as message `k`. */
  predicate IsResponse(w: Phased, k: nat, i: nat) {
    && k < |w.wire| && w.wire[k].event.ToAttester? && w.wire[k].event.socket == i
    && w.wire[k].event.frame.FullResponse? && w.wire[k].batch < |w.batches|
  }

  function Window(w: Phased, k: nat, i: nat): Stamp
    requires IsResponse(w, k, i)
  {
    StampOf(w.wire[k].event.frame.response)
  }

  lemma SentWindow(h: Hash, vk: Bytes, w: Phased, k: nat, i: nat)
    requires PhasedGood(h, vk, w) && OriginsGood(h, w) && IsResponse(w, k, i)
    ensures i < |w.arrivals|
    ensures var o := Origin(w.batches, w.wire[k].batch, i);
            && StartsWindow(w, o, i)
            && Window(w, k, i) == Stamp(w.batches[o].env.Now(i), VALIDITY, w.arrivals[i].attesterAddr,
                                        w.arrivals[i].devInfor.verifyingKey)
  {
    assert SentGood(h, w, w.wire[k]);
    assert BatchGood(h, vk, w.state.oldLeaves, w.arrivals, w.batches[w.wire[k].batch]);
    OriginIsFirst(h, w, w.wire[k].batch, i);
    WindowIsOrigins(h, vk, w, w.wire[k].batch, i);
  }

  /** Exactly when two full responses to one attester differ in their windows, over every interleaving:
      they go back to batches, committed while the attester had no stored response, with different
      clocks. Address, key and period never differ. */
  lemma {:induction false} WindowsDifferIff(h: Hash, vk: Bytes, steps: seq<PhasedStep>, w: Phased, k: nat, l: nat,
                                            i: nat)
    requires PossibleRun(h, vk, steps) && w == PhasedRun(h, steps) && IsResponse(w, k, i) && IsResponse(w, l, i)
    ensures var o, p := Origin(w.batches, w.wire[k].batch, i), Origin(w.batches, w.wire[l].batch, i);
            && StartsWindow(w, o, i) && StartsWindow(w, p, i)
            && (Window(w, k, i) != Window(w, l, i) <==> w.batches[o].env.Now(i) != w.batches[p].env.Now(i))
            && Window(w, k, i).(timestamp := Window(w, l, i).timestamp) == Window(w, l, i)
  {
    EveryOriginIsGood(h, vk, steps);
    SentWindow(h, vk, w, k, i);
    SentWindow(h, vk, w, l, i);
  }

  /** Batch `t` was committed when attester `i` was active and had no stored response. */
  predicate StartsWindow(w: Phased, t: nat, i: nat) {
    t < |w.batches| && i < |w.batches[t].committed.active| && i !in w.batches[t].before
  }

  /** No attester's responses differ if only one batch was committed while it was active without a stored
      response: that is, if its first response was stored before the next batch was committed. */
  lemma {:induction false} OneWindow(h: Hash, vk: Bytes, steps: seq<PhasedStep>, w: Phased, k: nat, l: nat, i: nat)
    requires PossibleRun(h, vk, steps) && w == PhasedRun(h, steps) && IsResponse(w, k, i) && IsResponse(w, l, i)
    requires forall t: nat, u: nat :: StartsWindow(w, t, i) && StartsWindow(w, u, i) ==> t == u
    ensures Window(w, k, i) == Window(w, l, i)
  {
    EveryOriginIsGood(h, vk, steps);
    SentWindow(h, vk, w, k, i);
    SentWindow(h, vk, w, l, i);
  }

  /** The two windows occur: in the run of `StaleRun` the late store also puts back the time of the older
      batch's clock. */
  lemma {:induction false} WindowMovesBack(h: Hash, a: DeviceClientInfor, b: DeviceClientInfor, c: DeviceClientInfor,
                                           early: Env, late: Env)
    requires IsQuiet(early) && IsQuiet(late)
    ensures var steps := EarlySteps(a, b, c, early, late);
            var s, s' := PhasedRun(h, steps).state, PhasedRun(h, steps + [Advanced(0, true)]).state;
            && PossibleRun(h, [], steps + [Advanced(0, true)])
            && |s.active| > 0 && |s'.active| > 0 && s.active[0].response.Some? && s'.active[0].response.Some?
            && s.active[0].response.value.timestamp == late.Now(0)
            && s'.active[0].response.value.timestamp == early.Now(0)
  {
    var steps := EarlySteps(a, b, c, early, late);
    var o := StaleRunReaches(h, a, b, c, early, late);
    StoredWindow(h, steps, o);
    StoreOne(h, steps, o, 0, [0]);
    var o' := o.(batches := o.batches[0 := Rest(o.batches[0])], built := BuiltAfter(o.built, 0, [0], {}));
    StoredWindow(h, steps + [Advanced(0, true)], o');
  }

  lemma {:induction false} StoredWindow(h: Hash, steps: seq<PhasedStep>, o: Outline)
    requires Reached(h, steps, o) && 0 in o.built && o.built[0] < |o.batches|
    requires 0 !in o.batches[o.built[0]].before
    ensures var s := PhasedRun(h, steps).state;
            && |s.active| > 0 && s.active[0].response.Some?
            && s.active[0].response.value.timestamp == o.batches[o.built[0]].env.Now(0)
  {
    var w := PhasedRun(h, steps);
    EveryOriginIsGood(h, [], steps);
    assert RecordGood(h, w, 0);
    OriginIsFirst(h, w, o.built[0], 0);
    WindowIsOrigins(h, [], w, o.built[0], 0);
  }
}
