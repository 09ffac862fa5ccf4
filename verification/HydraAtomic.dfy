/** The batch of `HydraRun` and of `ProcessBatch` is a batch of `HydraPhases` that nothing comes in
    between: committed, then carried out to the end with every message delivered. */
module HydraAtomic {
  import opened ShrubsTree
  import opened HydraDaemon
  import opened HydraRun
  import opened HydraPhases

  /** The next `k` actions of batch `t`, all delivered. */
  function CarryOut(h: Hash, w: Phased, t: nat, k: nat): Phased
    decreases k
  {
    if k == 0 || t >= |w.batches| || w.batches[t].todo == [] then w
    else CarryOut(h, Act(h, w, t, true), t, k - 1)
  }

  function EventsOf(wire: seq<Sent>): seq<Event> {
    if wire == [] then [] else EventsOf(wire[..|wire| - 1]) + [wire[|wire| - 1].event]
  }

  /** What some actions write. */
  function Written(todo: seq<Action>): seq<Event> {
    if todo == [] then []
    else (if todo[0].Send? then [todo[0].event] else []) + Written(todo[1..])
  }

  ghost predicate StoresInRange(c: State, todo: seq<Action>) {
    forall k :: 0 <= k < |todo| && todo[k].StoreFor? ==> InRange(todo[k].indices, |c.active|)
  }

  /** The records after some actions. */
  function Stored(h: Hash, env: Env, c: State, active: seq<AttesterSession>, todo: seq<Action>)
    : (r: seq<AttesterSession>)
    requires c.root != [] && |active| >= |c.active| && StoresInRange(c, todo)
    ensures |r| == |active|
    decreases |todo|
  {
    if todo == [] then active
    else Stored(h, env, c, if todo[0].StoreFor? then Store(h, env, c, active, todo[0].indices) else active, todo[1..])
  }

  lemma {:induction false} WrittenConcat(a: seq<Action>, b: seq<Action>)
    ensures Written(a + b) == Written(a) + Written(b)
  {
    if a == [] {
      assert a + b == b;
    } else {
      var first := if a[0].Send? then [a[0].event] else [];
      assert (a + b)[1..] == a[1..] + b;
      WrittenConcat(a[1..], b);
      assert first + (Written(a[1..]) + Written(b)) == first + Written(a[1..]) + Written(b);
    }
  }

  lemma {:induction false} StoredConcat(h: Hash, env: Env, c: State, active: seq<AttesterSession>, a: seq<Action>,
                                        b: seq<Action>)
    requires c.root != [] && |active| >= |c.active| && StoresInRange(c, a + b)
    ensures StoresInRange(c, a) && StoresInRange(c, b)
    ensures Stored(h, env, c, active, a + b) == Stored(h, env, c, Stored(h, env, c, active, a), b)
    decreases |a|
  {
    InRangeParts(c, a, b);
    if a == [] {
      assert a + b == b;
    } else {
      assert (a + b)[1..] == a[1..] + b;
      var next := if a[0].StoreFor? then Store(h, env, c, active, a[0].indices) else active;
      StoredConcat(h, env, c, next, a[1..], b);
    }
  }

  lemma InRangeParts(c: State, a: seq<Action>, b: seq<Action>)
    ensures StoresInRange(c, a + b) <==> StoresInRange(c, a) && StoresInRange(c, b)
  {
    assert forall k :: 0 <= k < |a| ==> (a + b)[k] == a[k];
    assert forall k :: 0 <= k < |b| ==> (a + b)[|a| + k] == b[k];
  }

  lemma {:induction false} OfSends(h: Hash, env: Env, c: State, active: seq<AttesterSession>, events: seq<Event>)
    requires c.root != [] && |active| >= |c.active|
    ensures Written(Sends(events)) == events
    ensures StoresInRange(c, Sends(events)) && Stored(h, env, c, active, Sends(events)) == active
  {
    if events != [] {
      OfSends(h, env, c, active, events[1..]);
    }
  }

  /** A batch stores and writes what the batch step of the run model does. */
  lemma OfBatch(h: Hash, env: Env, c: State, n: nat)
    requires n <= |c.active| && c.root != []
    ensures StoresInRange(c, ActionsOf(h, env, c, n))
    ensures Written(ActionsOf(h, env, c, n)) == BatchSends(h, env, c, n)
    ensures Stored(h, env, c, c.active, ActionsOf(h, env, c, n)) == BatchStore(h, env, c, n)
  {
    var affected, arrived := OldIndices(n, |c.active|, n, true), NewIndices(n, |c.active|);
    var early := FullSends(h, env, c, affected) + ContextSends(env, c, OldIndices(n, |c.active|, n, false))
                 + Publishes(env, c, env.relyingParties);
    OfParts(h, env, c, affected, early, arrived, FullSends(h, env, c, arrived));
  }

  lemma OfParts(h: Hash, env: Env, c: State, affected: seq<nat>, early: seq<Event>,
                arrived: seq<nat>, late: seq<Event>)
    requires c.root != [] && InRange(affected, |c.active|) && InRange(arrived, |c.active|)
    ensures var todo := [StoreFor(affected)] + Sends(early) + [StoreFor(arrived)] + Sends(late);
            && StoresInRange(c, todo) && Written(todo) == early + late
            && Stored(h, env, c, c.active, todo)
               == Store(h, env, c, Store(h, env, c, c.active, affected), arrived)
  {
    var first, second := [StoreFor(affected)] + Sends(early), [StoreFor(arrived)] + Sends(late);
    OfHalf(h, env, c, c.active, affected, early);
    OfHalf(h, env, c, Store(h, env, c, c.active, affected), arrived, late);
    WrittenConcat(first, second);
    InRangeParts(c, first, second);
    StoredConcat(h, env, c, c.active, first, second);
    assert first + second == [StoreFor(affected)] + Sends(early) + [StoreFor(arrived)] + Sends(late);
  }

  lemma OfHalf(h: Hash, env: Env, c: State, active: seq<AttesterSession>, indices: seq<nat>,
               events: seq<Event>)
    requires c.root != [] && |active| >= |c.active| && InRange(indices, |c.active|)
    ensures var todo := [StoreFor(indices)] + Sends(events);
            && StoresInRange(c, todo) && Written(todo) == events
            && Stored(h, env, c, active, todo) == Store(h, env, c, active, indices)
  {
    OfStore(h, env, c, active, indices);
    OfSends(h, env, c, Store(h, env, c, active, indices), events);
    WrittenConcat([StoreFor(indices)], Sends(events));
    InRangeParts(c, [StoreFor(indices)], Sends(events));
    StoredConcat(h, env, c, active, [StoreFor(indices)], Sends(events));
  }

  lemma OfStore(h: Hash, env: Env, c: State, active: seq<AttesterSession>, indices: seq<nat>)
    requires c.root != [] && |active| >= |c.active| && InRange(indices, |c.active|)
    ensures StoresInRange(c, [StoreFor(indices)]) && Written([StoreFor(indices)]) == []
    ensures Stored(h, env, c, active, [StoreFor(indices)]) == Store(h, env, c, active, indices)
  {
    assert [StoreFor(indices)][1..] == [];
  }

  /** What the run model sees of a state. */
  datatype Visible = Visible(state: State, timers: nat, arrivals: seq<AttesterSession>, events: seq<Event>)

  function VisibleOf(w: Phased): Visible {
    Visible(w.state, w.timers, w.arrivals, EventsOf(w.wire))
  }

  ghost predicate CanCarryOut(b: Batch, v: Visible) {
    && b.committed.root != [] && |b.committed.active| <= |v.state.active| && StoresInRange(b.committed, b.todo)
  }

  /** A visible state after all actions of a batch, or after the first. */
  function AfterAll(h: Hash, b: Batch, v: Visible): Visible
    requires CanCarryOut(b, v)
  {
    v.(state := v.state.(active := Stored(h, b.env, b.committed, v.state.active, b.todo)),
       events := v.events + Written(b.todo))
  }

  function AfterOne(h: Hash, b: Batch, v: Visible): Visible
    requires CanCarryOut(b, v) && b.todo != []
  {
    match b.todo[0]
    case StoreFor(indices) => v.(state := v.state.(active := Store(h, b.env, b.committed, v.state.active, indices)))
    case Send(e) => v.(events := v.events + [e])
  }

  lemma OneThenRest(h: Hash, b: Batch, v: Visible)
    requires CanCarryOut(b, v) && b.todo != []
    ensures CanCarryOut(Rest(b), AfterOne(h, b, v))
    ensures AfterAll(h, Rest(b), AfterOne(h, b, v)) == AfterAll(h, b, v)
  {
  }

  lemma OneAction(h: Hash, w: Phased, t: nat)
    requires t < |w.batches| && w.batches[t].todo != [] && CanCarryOut(w.batches[t], VisibleOf(w))
    ensures Act(h, w, t, true).batches == w.batches[t := Rest(w.batches[t])]
    ensures VisibleOf(Act(h, w, t, true)) == AfterOne(h, w.batches[t], VisibleOf(w))
  {
    var b := w.batches[t];
    if b.todo[0].Send? {
      assert (w.wire + [Sent(b.todo[0].event, t)])[..|w.wire|] == w.wire;
    }
  }

  lemma NothingLeft(h: Hash, b: Batch, v: Visible)
    requires CanCarryOut(b, v) && b.todo == []
    ensures AfterAll(h, b, v) == v
  {
    assert v.events + [] == v.events;
  }

  /** Carrying out a batch to the end. */
  lemma {:induction false} CarriedOut(h: Hash, w: Phased, t: nat, k: nat)
    requires t < |w.batches| && k == |w.batches[t].todo| && CanCarryOut(w.batches[t], VisibleOf(w))
    ensures VisibleOf(CarryOut(h, w, t, k)) == AfterAll(h, w.batches[t], VisibleOf(w))
    decreases k
  {
    if k == 0 {
      NothingLeft(h, w.batches[t], VisibleOf(w));
    } else {
      OneAction(h, w, t);
      OneThenRest(h, w.batches[t], VisibleOf(w));
      CarriedOut(h, Act(h, w, t, true), t, k - 1);
    }
  }

  /** From any state in order: committing a batch and carrying it out at once is the batch step of
      `HydraRun`, fields and messages. */
  lemma {:induction false} AtomicBatch(h: Hash, w: Phased, env: Env)
    requires Basic(h, Core(w)) && w.timers > 0 && w.state.pending != []
    ensures var w1 := Commits(h, w, env);
            && |w1.batches| == |w.batches| + 1
            && var w2 := CarryOut(h, w1, |w.batches|, |w1.batches[|w.batches|].todo|);
               var after := Next(h, Core(w).(wire := EventsOf(w.wire)), TimerExpires(env));
               VisibleOf(w2) == Visible(after.state, after.timers, after.arrivals, after.wire)
  {
    var c, w1 := Commit(h, w.state), Commits(h, w, env);
    CommittedRoot(h, w.state);
    OfBatch(h, env, c, |w.state.active|);
    CarriedOut(h, w1, |w.batches|, |w1.batches[|w.batches|].todo|);
  }
}
