/** The validity window and the address of responses: a refresh keeps the ones of the first response. */
module HydraStamps {
  import opened Wrappers
  import opened ShrubsTree
  import opened HydraTypes
  import opened HydraDaemon
  import opened HydraDispatch
  import opened HydraRun

  /** From when and for how long a response is valid, and whose it is. */
  datatype Stamp = Stamp(timestamp: Duration, period: Duration, attesterAddr: string, verifyingKey: Bytes)

  function StampOf(r: ResponseDeviceInfor): Stamp {
    Stamp(r.timestamp, r.period, r.attesterAddr, r.verifyingKey)
  }

  /** One hundred days. */
  const VALIDITY := Duration(100 * 24 * 60 * 60, 0)

  /** The stamp a first response gets. */
  function FirstStamp(env: Env, item: AttesterSession, index: nat): Stamp {
    Stamp(env.Now(index), VALIDITY, item.attesterAddr, item.devInfor.verifyingKey)
  }

  /** A response is stamped with the stored stamp, at the current address; only a first one reads the
      clock. */
  lemma BuiltStamp(h: Hash, env: Env, s: State, i: nat)
    requires i < |s.active| && s.root != []
    ensures StampOf(BuildResponse(h, env, s, i))
         == if s.active[i].response.Some?
            then StampOf(s.active[i].response.value).(attesterAddr := s.active[i].attesterAddr)
            else FirstStamp(env, s.active[i], i)
  {
  }

  // ----- who arrived

  /** The submissions and addresses, in order of arrival. */
  function Submitted(steps: seq<Step>): seq<(DeviceClientInfor, string)> {
    if steps == [] then []
    else
      Submitted(steps[..|steps| - 1])
      + (if steps[|steps| - 1].Arrive? then [(steps[|steps| - 1].dev, steps[|steps| - 1].addr)] else [])
  }

  /** Attester `i` is the one that arrived `i`-th, with its submission, leaf and address. */
  lemma {:induction false} ArrivalsRecorded(h: Hash, steps: seq<Step>, i: nat)
    ensures |Run(h, steps).arrivals| == |Submitted(steps)|
    ensures i < |Submitted(steps)| ==>
              var (dev, addr) := Submitted(steps)[i];
              Run(h, steps).arrivals[i] == AttesterSession(i, dev, dev.merkleLeaf, None, addr)
  {
    if steps != [] {
      ArrivalsRecorded(h, steps[..|steps| - 1], i);
    }
  }

  // ----- stamps over a run

  predicate Stamped(frames: seq<Frame>, item: AttesterSession) {
    forall k :: 0 <= k < |frames| && frames[k].FullResponse? ==>
      item.response.Some? && StampOf(frames[k].response) == StampOf(item.response.value)
  }

  /** The record of attester `i` is for its arrival, valid for the fixed period, and every full response
      written to its socket has the stamp of the record. */
  ghost predicate StampGood(w: World, i: nat)
    requires i < |w.state.active| && i < |w.arrivals|
  {
    var item := w.state.active[i];
    && Stamped(FramesTo(w.wire, i), item)
    && (item.response.Some? ==>
          && item.response.value.attesterAddr == w.arrivals[i].attesterAddr
          && item.response.value.verifyingKey == w.arrivals[i].devInfor.verifyingKey
          && item.response.value.period == VALIDITY)
  }

  lemma StampedAppend(frames: seq<Frame>, more: seq<Frame>, item: AttesterSession, item': AttesterSession)
    requires Stamped(frames, item) && Stamped(more, item')
    requires item.response.Some? ==>
               item'.response.Some? && StampOf(item'.response.value) == StampOf(item.response.value)
    ensures Stamped(frames + more, item')
  {
  }

  /** A batch keeps the stamp of a record there is, and stamps a first one with its clock. */
  lemma BatchKeepsStamp(h: Hash, env: Env, w: World, i: nat)
    requires Basic(h, w) && w.state.pending != [] && i < |Commit(h, w.state).active|
    requires i < |w.state.active| ==> StampGood(w, i)
    requires i >= |w.state.active| ==> FramesTo(w.wire, i) == []
    ensures var w', n := Next(h, w, TimerExpires(env)), |w.state.active|;
            && i < |w'.state.active| && StampGood(w', i)
            && (i < n && w.state.active[i].response.Some? ==>
                  && w'.state.active[i].response.Some?
                  && StampOf(w'.state.active[i].response.value) == StampOf(w.state.active[i].response.value))
            && (w'.state.active[i].response.Some? && (i >= n || w.state.active[i].response.None?) ==>
                  w'.state.active[i].response.value.timestamp == env.Now(i))
  {
    var c := Commit(h, w.state);
    BatchEffect(h, env, w, i);
    CommittedActive(h, w, i);
    BuiltStamp(h, env, c, i);
    var w', frames := Next(h, w, TimerExpires(env)), FramesTo(w.wire, i);
    assert w'.arrivals == w.arrivals && c.active[i].(response := None) == w.arrivals[i];
    assert Stamped(frames, c.active[i]);
    StampedAppend(frames, FramesTo(w'.wire, i)[|frames|..], c.active[i], w'.state.active[i]);
    assert frames + FramesTo(w'.wire, i)[|frames|..] == FramesTo(w'.wire, i);
  }

  ghost predicate AllStamped(w: World) {
    && |w.state.active| <= |w.arrivals|
    && (forall i :: 0 <= i < |w.state.active| ==> StampGood(w, i))
    && (forall i: nat :: |w.state.active| <= i ==> FramesTo(w.wire, i) == [])
  }

  lemma {:induction false} StepKeepsStamps(h: Hash, vk: Bytes, w: World, step: Step)
    requires Basic(h, w) && AllStamped(w) && Enabled(vk, w, step)
    ensures AllStamped(Next(h, w, step))
    ensures forall i :: 0 <= i < |w.state.active| && w.state.active[i].response.Some? ==>
              && i < |Next(h, w, step).state.active| && Next(h, w, step).state.active[i].response.Some?
              && StampOf(Next(h, w, step).state.active[i].response.value) == StampOf(w.state.active[i].response.value)
  {
    var w' := Next(h, w, step);
    if step.TimerExpires? && w.state.pending != [] {
      BatchKeepsAllStamped(h, step.env, w);
    } else {
      forall i | 0 <= i < |w'.state.active| ensures StampGood(w', i) {
        assert StampGood(w, i);
      }
    }
  }

  lemma {:induction false} BatchKeepsAllStamped(h: Hash, env: Env, w: World)
    requires Basic(h, w) && AllStamped(w) && w.state.pending != []
    ensures AllStamped(Next(h, w, TimerExpires(env)))
    ensures forall i :: 0 <= i < |w.state.active| && w.state.active[i].response.Some? ==>
              && i < |Next(h, w, TimerExpires(env)).state.active|
              && Next(h, w, TimerExpires(env)).state.active[i].response.Some?
              && StampOf(Next(h, w, TimerExpires(env)).state.active[i].response.value)
                 == StampOf(w.state.active[i].response.value)
  {
    var w', c, n := Next(h, w, TimerExpires(env)), Commit(h, w.state), |w.state.active|;
    CommittedRoot(h, w.state);
    CommittedSockets(h, w);
    forall i | 0 <= i < |w'.state.active|
      ensures StampGood(w', i)
      ensures i < n && w.state.active[i].response.Some? ==>
                && w'.state.active[i].response.Some?
                && StampOf(w'.state.active[i].response.value) == StampOf(w.state.active[i].response.value)
    {
      BatchKeepsStamp(h, env, w, i);
    }
    forall i: nat | |w'.state.active| <= i ensures FramesTo(w'.wire, i) == [] {
      BatchAddressesEachOnce(h, env, c, n, i);
      FramesToConcat(w.wire, BatchSends(h, env, c, n), i);
    }
  }

  lemma {:induction false} RunIsStamped(h: Hash, vk: Bytes, steps: seq<Step>)
    requires Possible(h, vk, steps)
    ensures Basic(h, Run(h, steps)) && AllStamped(Run(h, steps))
  {
    QueueConservation(h, vk, steps);
    if steps != [] {
      RunIsStamped(h, vk, steps[..|steps| - 1]);
      StepKeepsStamps(h, vk, Run(h, steps[..|steps| - 1]), steps[|steps| - 1]);
    }
  }

  /** Once an attester has a stored response, its timestamp, period, address and key never change, however
      often the path is refreshed; and every full response ever written to its socket carries them. The
      address is the one it arrived with, and the period one hundred days. */
  lemma {:induction false} StampNeverChanges(h: Hash, vk: Bytes, steps: seq<Step>, k: nat, i: nat)
    requires Possible(h, vk, steps) && k <= |steps|
    requires i < |Run(h, steps[..k]).state.active| && Run(h, steps[..k]).state.active[i].response.Some?
    ensures i < |Run(h, steps).state.active| && i < |Submitted(steps)|
    ensures var before, after := Run(h, steps[..k]).state.active[i].response, Run(h, steps).state.active[i].response;
            && after.Some? && StampOf(after.value) == StampOf(before.value)
            && after.value.attesterAddr == Submitted(steps)[i].1
            && after.value.verifyingKey == Submitted(steps)[i].0.verifyingKey && after.value.period == VALIDITY
            && Stamped(FramesTo(Run(h, steps).wire, i), Run(h, steps).state.active[i])
    decreases |steps|
  {
    RunIsStamped(h, vk, steps);
    ArrivalsRecorded(h, steps, i);
    if k < |steps| {
      var before := steps[..|steps| - 1];
      assert before[..k] == steps[..k];
      StampNeverChanges(h, vk, before, k, i);
      RunIsStamped(h, vk, before);
      StepKeepsStamps(h, vk, Run(h, before), steps[|steps| - 1]);
    } else {
      assert steps[..k] == steps;
    }
    assert StampGood(Run(h, steps), i);
  }
}
