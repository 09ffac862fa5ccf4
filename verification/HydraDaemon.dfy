/** The verifier daemon (verifier/src/hydra_daemon.rs): attesters are queued, a timer closes the
    batch, the batch is inserted in the accumulator, and every attester is sent either a full
    response or the new root list. `State` is the value of the mutex-protected fields; the class
    updates the fields and is proved to follow the functions on `State`. */
module HydraDaemon {
  import opened Wrappers
  import opened ShrubsTree
  import opened ShrubsInsert
  import opened ShrubsOwner
  import opened ShrubsPath
  import opened HydraTypes

  /** A connected attester. Sockets are numbered in order of arrival. */
  datatype AttesterSession = AttesterSession(
    socket: nat, devInfor: DeviceClientInfor, merkleLeaf: Scalar,
    response: Option<ResponseDeviceInfor>, attesterAddr: string)

  datatype State = State(
    root: seq<Scalar>, oldLeaves: seq<Scalar>, pending: seq<AttesterSession>, active: seq<AttesterSession>,
    hasCreatedTree: bool, batchTimerRunning: bool)

  const INITIAL := State([], [], [], [], false, false)

  /** What the daemon writes: a frame to an attester, or the context to a relying party. */
  datatype Event =
    | ToAttester(socket: nat, frame: Frame)
    | ToRelyingParty(addr: string, context: PublicContext)

  /** What a batch takes from outside: the verifier key, the relying parties, the clock read for a
      first response, the attesters whose response cannot be built, whether the context message cannot
      be encoded, and the relying parties that cannot be reached. */
  datatype Env = Env(
    verifierKey: Bytes, relyingParties: seq<string>, clock: map<nat, Duration>,
    buildFails: set<nat>, contextFails: bool, unreachable: set<string>)
  {
    function Now(index: nat): Duration {
      if index in clock then clock[index] else Duration(0, 0)
    }
  }

  // ----- the steps as functions

  function NewSession(socket: nat, dev: DeviceClientInfor, addr: string): AttesterSession {
    AttesterSession(socket, dev, dev.merkleLeaf, None, addr)
  }

  function Queue(s: State, item: AttesterSession): State {
    s.(pending := s.pending + [item], batchTimerRunning := true)
  }

  function LeavesOf(items: seq<AttesterSession>): (r: seq<Scalar>)
    ensures |r| == |items|
  {
    if items == [] then [] else LeavesOf(items[..|items| - 1]) + [items[|items| - 1].merkleLeaf]
  }

  lemma {:induction false} LeafOf(items: seq<AttesterSession>, i: nat)
    requires i < |items|
    ensures LeavesOf(items)[i] == items[i].merkleLeaf
  {
    if i < |items| - 1 {
      LeafOf(items[..|items| - 1], i);
    }
  }

  /** The root list with the queued leaves: built from scratch by the first batch, grown in place by
      the others. Empty where the source would panic, which `CommittedRoot` excludes. */
  function GrownRoots(h: Hash, s: State): seq<Scalar> {
    if !s.hasCreatedTree then Roots(h, s.oldLeaves + LeavesOf(s.pending))
    else
      match InsertBatch(h, s.root, |s.oldLeaves|, LeavesOf(s.pending))
      case None => []
      case Some(items) => items
  }

  /** The critical section: drain the queue, insert the leaves, extend the active list. */
  function Commit(h: Hash, s: State): State {
    State(GrownRoots(h, s), s.oldLeaves + LeavesOf(s.pending), [], s.active + s.pending, true, false)
  }

  function Signed(env: Env, res: ResponseDeviceInfor, authorizedInfor: Scalar): ResponseDeviceInfor {
    res.(sig := Some(Signature(env.verifierKey, res.verifyingKey, authorizedInfor,
                              res.timestamp.secs, res.period.secs)))
  }

  function PathOption(p: PathTag): Option<seq<Scalar>> {
    if p.NoPath? then None else Some(p.path)
  }

  function TagOption(p: PathTag): Option<seq<bool>> {
    if p.NoPath? then None else Some(p.tag)
  }

  /** The response for an attester: the old one or a new one, with the path searched afresh. */
  function BuildResponse(h: Hash, env: Env, s: State, index: nat): ResponseDeviceInfor
    requires index < |s.active| && s.root != []
  {
    var item := s.active[index];
    var base := if item.response.Some? then item.response.value
                else NewResponse(item.devInfor.verifyingKey, env.Now(index));
    var p := DevicePathTag(h, s.root, s.oldLeaves, item.merkleLeaf);
    var res := base.(attesterAddr := item.attesterAddr, shrubsPath := PathOption(p), shrubsTag := TagOption(p));
    Signed(env, res, DeviceAuthorizedInfor(h, item.devInfor, res))
  }

  function Context(env: Env, s: State): PublicContext {
    PublicContext(s.root, env.verifierKey)
  }

  predicate InRange(indices: seq<nat>, n: nat) {
    forall k :: 0 <= k < |indices| ==> indices[k] < n
  }

  /** `active` after storing the responses built for `indices` from the committed state `s`; later
      batches may have extended it. */
  function Store(h: Hash, env: Env, s: State, active: seq<AttesterSession>,
                 indices: seq<nat>): (r: seq<AttesterSession>)
    requires s.root != [] && |active| >= |s.active| && InRange(indices, |s.active|)
    ensures |r| == |active|
  {
    if indices == [] then active
    else
      var i := indices[|indices| - 1];
      var rest := Store(h, env, s, active, indices[..|indices| - 1]);
      if i in env.buildFails then rest
      else rest[i := rest[i].(response := Some(BuildResponse(h, env, s, i)))]
  }

  /** The full responses sent to `indices`, in order. */
  function FullSends(h: Hash, env: Env, s: State, indices: seq<nat>): seq<Event>
    requires s.root != [] && InRange(indices, |s.active|)
  {
    if indices == [] then []
    else
      var i := indices[|indices| - 1];
      var rest := FullSends(h, env, s, indices[..|indices| - 1]);
      if i in env.buildFails then rest
      else rest + [ToAttester(s.active[i].socket, FullResponse(BuildResponse(h, env, s, i), Context(env, s)))]
  }

  function ContextSends(env: Env, s: State, indices: seq<nat>): seq<Event>
    requires InRange(indices, |s.active|)
  {
    if indices == [] || env.contextFails then []
    else
      ContextSends(env, s, indices[..|indices| - 1])
      + [ToAttester(s.active[indices[|indices| - 1]].socket, ContextRefresh(Context(env, s)))]
  }

  function Publishes(env: Env, s: State, addrs: seq<string>): seq<Event> {
    if addrs == [] || env.contextFails then []
    else
      Publishes(env, s, addrs[..|addrs| - 1])
      + (if addrs[|addrs| - 1] in env.unreachable then [] else [ToRelyingParty(addrs[|addrs| - 1], Context(env, s))])
  }

  /** The old indices below `upTo` whose owner changes (or, with `changes` false, does not). */
  function OldIndices(n: nat, n': nat, upTo: nat, changes: bool): (r: seq<nat>)
    requires upTo <= n <= n'
    ensures InRange(r, upTo)
  {
    if upTo == 0 then []
    else OldIndices(n, n', upTo - 1, changes)
         + (if OwnerChanges(upTo - 1, n, n') == changes then [upTo - 1] else [])
  }

  function NewIndices(n: nat, n': nat): (r: seq<nat>)
    requires n <= n'
    ensures InRange(r, n')
  {
    if n == n' then [] else NewIndices(n, n' - 1) + [n' - 1]
  }

  /** Everything a batch that was committed to `s` sends, when `n` attesters were active before. */
  function BatchSends(h: Hash, env: Env, s: State, n: nat): seq<Event>
    requires n <= |s.active| && s.root != []
  {
    FullSends(h, env, s, OldIndices(n, |s.active|, n, true))
    + ContextSends(env, s, OldIndices(n, |s.active|, n, false))
    + Publishes(env, s, env.relyingParties)
    + FullSends(h, env, s, NewIndices(n, |s.active|))
  }

  /** The active list when the batch is done. */
  function BatchStore(h: Hash, env: Env, s: State, n: nat): (r: seq<AttesterSession>)
    requires n <= |s.active| && s.root != []
    ensures |r| == |s.active|
  {
    var refreshed := Store(h, env, s, s.active, OldIndices(n, |s.active|, n, true));
    Store(h, env, s, refreshed, NewIndices(n, |s.active|))
  }

  /** The fields after a batch. */
  function AfterBatch(h: Hash, env: Env, s: State): State
    requires Commit(h, s).root != []
  {
    var c := Commit(h, s);
    c.(active := BatchStore(h, env, c, |s.active|))
  }

  lemma {:induction false} AffectedAreOldIndices(n: nat, n': nat, upTo: nat)
    requires upTo <= n <= n'
    ensures |Affected(n, n', upTo)| == |OldIndices(n, n', upTo, true)|
    ensures forall k ::
              0 <= k < |Affected(n, n', upTo)| ==> Affected(n, n', upTo)[k] == OldIndices(n, n', upTo, true)[k] + 1
  {
    if upTo > 0 {
      AffectedAreOldIndices(n, n', upTo - 1);
    }
  }

  /** Index `i` of the flags marks whether the owner of old attester `i` changes. */
  lemma FlagsAreOwnerChanges(n: nat, n': nat, i: nat)
    requires i < n <= n'
    ensures i in OldIndices(n, n', n, true) <==> OwnerChanges(i, n, n')
  {
    OldIndicesMembers(n, n', n, true, i);
  }

  lemma {:induction false} OldIndicesMembers(n: nat, n': nat, upTo: nat, changes: bool, i: nat)
    requires upTo <= n <= n'
    ensures i in OldIndices(n, n', upTo, changes) <==> i < upTo && OwnerChanges(i, n, n') == changes
  {
    if upTo > 0 {
      OldIndicesMembers(n, n', upTo - 1, changes, i);
    }
  }

  /** What holds of the fields whenever the lock is free. */
  ghost predicate Consistent(h: Hash, s: State) {
    && s.root == Roots(h, s.oldLeaves)
    && |s.oldLeaves| == |s.active|
    && (s.hasCreatedTree <==> s.active != [])
  }

  /** Growing the list in place gives the list built from scratch, so a commit keeps the fields
      consistent. */
  lemma CommittedRoot(h: Hash, s: State)
    requires Consistent(h, s) && s.pending != []
    ensures Commit(h, s).root == Roots(h, s.oldLeaves + LeavesOf(s.pending)) != []
    ensures Consistent(h, Commit(h, s))
  {
    InsertBatchRebuilds(h, s.oldLeaves, LeavesOf(s.pending));
  }

  class VerifierState {
    const root: RootList
    var oldLeaves: seq<Scalar>
    var pending: seq<AttesterSession>
    var active: seq<AttesterSession>
    var hasCreatedTree: bool
    var batchTimerRunning: bool

    ghost function View(): State
      reads this, root
    {
      State(root.items, oldLeaves, pending, active, hasCreatedTree, batchTimerRunning)
    }

    constructor ()
      ensures View() == INITIAL && fresh(root)
    {
      root := new RootList();
      oldLeaves, pending, active := [], [], [];
      hasCreatedTree, batchTimerRunning := false, false;
    }

    /** Queue an attester; the first of a batch has to start the timer. */
    method QueueAttester(socket: nat, dev: DeviceClientInfor, addr: string) returns (shouldStartTimer: bool)
      modifies this
      ensures View() == Queue(old(View()), NewSession(socket, dev, addr))
      ensures shouldStartTimer == !old(batchTimerRunning)
    {
      pending := pending + [AttesterSession(socket, dev, dev.merkleLeaf, None, addr)];
      if batchTimerRunning {
        shouldStartTimer := false;
      } else {
        batchTimerRunning := true;
        shouldStartTimer := true;
      }
    }

    /** Under the lock: drain the queue, insert its leaves, and split the old attesters into those
        whose owner root changed and the others. */
    method CommitBatch(h: Hash) returns (affected: seq<nat>, unaffected: seq<nat>)
      requires Consistent(h, View()) && pending != []
      modifies this, root
      ensures View() == Commit(h, old(View()))
      ensures affected == OldIndices(|old(active)|, |active|, |old(active)|, true)
      ensures unaffected == OldIndices(|old(active)|, |active|, |old(active)|, false)
    {
      ghost var before := View();
      CommittedRoot(h, before);
      var oldTotal := |active|;
      var drained := pending;
      pending := [];
      batchTimerRunning := false;
      var batchLeaves := CollectLeaves(drained);
      InsertLeaves(h, batchLeaves);
      active := active + drained;
      assert View() == Commit(h, before);
      affected, unaffected := SplitOld(oldTotal, |drained|);
    }

    /** Grow the tree, or build it when this is the first batch. */
    method InsertLeaves(h: Hash, batchLeaves: seq<Scalar>)
      requires root.items == Roots(h, oldLeaves) && (hasCreatedTree <==> oldLeaves != []) && batchLeaves != []
      modifies this`oldLeaves, this`hasCreatedTree, root
      ensures root.items == Roots(h, oldLeaves) && oldLeaves == old(oldLeaves) + batchLeaves && hasCreatedTree
    {
      if hasCreatedTree {
        root.InsertBatchDevices(h, oldLeaves, batchLeaves);
        oldLeaves := oldLeaves + batchLeaves;
      } else {
        oldLeaves := oldLeaves + batchLeaves;
        root.items := [];
        root.CreateBatchDevices(h, oldLeaves);
        hasCreatedTree := true;
      }
    }

    /** Build the responses for `indices` from the committed state, store them, send them. */
    method ComputeStoreAndSend(h: Hash, env: Env, committed: State, indices: seq<nat>) returns (sent: seq<Event>)
      requires Consistent(h, committed) && committed.root != []
      requires |active| >= |committed.active| && InRange(indices, |committed.active|)
      requires LeavesListed(committed)
      modifies this`active
      ensures active == Store(h, env, committed, old(active), indices)
      ensures sent == FullSends(h, env, committed, indices)
    {
      sent := [];
      if indices == [] {
        return;
      }
      var computed := ComputeResponses(h, env, committed, indices);
      assert indices[..0] == [];
      for k := 0 to |indices|
        invariant |active| == |old(active)|
        invariant active == Store(h, env, committed, old(active), indices[..k])
        invariant sent == FullSends(h, env, committed, indices[..k])
      {
        assert indices[..k + 1][..k] == indices[..k];
        var i := indices[k];
        if computed[k].Some? {
          active := active[i := active[i].(response := Some(computed[k].value))];
          sent := sent + [ToAttester(committed.active[i].socket,
                                     FullResponse(computed[k].value, PublicContext(committed.root, env.verifierKey)))];
        }
      }
      assert indices[..|indices|] == indices;
    }

    /** A batch with someone in it, from the commit to the last send. */
    method CarryOutBatch(h: Hash, env: Env) returns (sent: seq<Event>)
      requires Consistent(h, View()) && LeavesListed(View()) && pending != []
      modifies this, root
      ensures Commit(h, old(View())).root != []
      ensures sent == BatchSends(h, env, Commit(h, old(View())), |old(active)|)
      ensures View() == AfterBatch(h, env, old(View()))
    {
      var oldTotal := |active|;
      CommittedRoot(h, View());
      CommitKeepsListed(h, View());
      var affected, unaffected := CommitBatch(h);
      sent := StoreAndSendAll(h, env, oldTotal, affected, unaffected);
    }

    /** What follows the commit: affected attesters, contexts, relying parties, new attesters. */
    method StoreAndSendAll(h: Hash, env: Env, oldTotal: nat, affected: seq<nat>, unaffected: seq<nat>)
      returns (sent: seq<Event>)
      requires Consistent(h, View()) && LeavesListed(View()) && View().root != [] && oldTotal <= |active|
      requires affected == OldIndices(oldTotal, |active|, oldTotal, true)
      requires unaffected == OldIndices(oldTotal, |active|, oldTotal, false)
      modifies this`active
      ensures active == BatchStore(h, env, old(View()), oldTotal)
      ensures sent == BatchSends(h, env, old(View()), oldTotal)
    {
      var committed := State(root.items, oldLeaves, pending, active, hasCreatedTree, batchTimerRunning);
      var sent1 := ComputeStoreAndSend(h, env, committed, affected);
      var sent2 := SendContextOnlyRefreshes(env, committed, unaffected);
      var sent3 := PublishToAll(env, committed);
      var arrived := NewRange(oldTotal, |active|);
      var sent4 := ComputeStoreAndSend(h, env, committed, arrived);
      sent := sent1 + sent2 + sent3 + sent4;
    }

    /** One expired batch timer. The sends are returned in order; a batch is one step here, while
        the source releases the lock before sending. */
    method ProcessBatch(h: Hash, env: Env) returns (sent: seq<Event>)
      requires Consistent(h, View()) && LeavesListed(View())
      modifies this, root
      ensures old(pending) == [] ==> sent == [] && View() == old(View()).(batchTimerRunning := false)
      ensures old(pending) != [] ==> Commit(h, old(View())).root != []
      ensures old(pending) != [] ==> sent == BatchSends(h, env, Commit(h, old(View())), |old(active)|)
      ensures old(pending) != [] ==> View() == AfterBatch(h, env, old(View()))
    {
      if pending == [] {
        batchTimerRunning := false;
        return [];
      }
      sent := CarryOutBatch(h, env);
    }
  }

  /** The leaf of every active attester is listed. */
  ghost predicate LeavesListed(s: State) {
    |s.oldLeaves| == |s.active| && forall i :: 0 <= i < |s.active| ==> s.oldLeaves[i] == s.active[i].merkleLeaf
  }

  lemma CommitKeepsListed(h: Hash, s: State)
    requires LeavesListed(s)
    ensures LeavesListed(Commit(h, s))
  {
    forall i | 0 <= i < |s.pending| ensures LeavesOf(s.pending)[i] == s.pending[i].merkleLeaf {
      LeafOf(s.pending, i);
    }
  }

  method CollectLeaves(items: seq<AttesterSession>) returns (leaves: seq<Scalar>)
    ensures leaves == LeavesOf(items)
  {
    leaves := [];
    for k := 0 to |items|
      invariant leaves == LeavesOf(items[..k])
    {
      assert items[..k + 1][..k] == items[..k];
      leaves := leaves + [items[k].merkleLeaf];
    }
    assert items[..|items|] == items;
  }

  /** Flag the affected old attesters, then list those flagged and those not. */
  method SplitOld(oldTotal: nat, inserted: nat) returns (affected: seq<nat>, unaffected: seq<nat>)
    ensures affected == OldIndices(oldTotal, oldTotal + inserted, oldTotal, true)
    ensures unaffected == OldIndices(oldTotal, oldTotal + inserted, oldTotal, false)
  {
    affected, unaffected := [], [];
    if oldTotal > 0 {
      var oneBased := AffectedIndices(oldTotal, inserted);
      affected := ZeroBased(oldTotal, oldTotal + inserted, oneBased);
      var needsPathRefresh := FlagIndices(oldTotal, affected);
      unaffected := Unflagged(oldTotal, oldTotal + inserted, needsPathRefresh);
    }
  }

  lemma NextOldIndex(n: nat, n': nat, i: nat)
    requires i < n <= n'
    ensures OldIndices(n, n', i + 1, false)
         == if OwnerChanges(i, n, n') then OldIndices(n, n', i, false) else OldIndices(n, n', i, false) + [i]
  {
  }

  method Unflagged(n: nat, n': nat, flags: array<bool>) returns (indices: seq<nat>)
    requires n <= n' && flags.Length == n
    requires forall i :: 0 <= i < n ==> flags[i] == (i in OldIndices(n, n', n, true))
    ensures indices == OldIndices(n, n', n, false)
  {
    indices := [];
    for i := 0 to n
      invariant indices == OldIndices(n, n', i, false)
    {
      FlagsAreOwnerChanges(n, n', i);
      NextOldIndex(n, n', i);
      if !flags[i] {
        indices := indices + [i];
      }
    }
  }

  method ZeroBased(n: nat, n': nat, oneBased: seq<nat>) returns (indices: seq<nat>)
    requires n <= n' && oneBased == Affected(n, n', n)
    ensures indices == OldIndices(n, n', n, true)
  {
    AffectedAreOldIndices(n, n', n);
    ghost var target := OldIndices(n, n', n, true);
    indices := [];
    for k := 0 to |oneBased|
      invariant indices == target[..k]
    {
      indices := indices + [oneBased[k] - 1];
    }
  }

  method FlagIndices(n: nat, indices: seq<nat>) returns (flags: array<bool>)
    requires InRange(indices, n)
    ensures fresh(flags) && flags.Length == n
    ensures forall i :: 0 <= i < n ==> flags[i] == (i in indices)
  {
    flags := new bool[n](_ => false);
    for k := 0 to |indices|
      invariant forall i :: 0 <= i < n ==> flags[i] == (i in indices[..k])
    {
      assert indices[..k + 1] == indices[..k] + [indices[k]];
      assert forall i :: i in indices[..k + 1] <==> i in indices[..k] || i == indices[k];
      flags[indices[k]] := true;
    }
    assert indices[..|indices|] == indices;
  }

  method NewRange(n: nat, n': nat) returns (indices: seq<nat>)
    requires n <= n'
    ensures indices == NewIndices(n, n')
  {
    indices := [];
    for i := n to n'
      invariant indices == NewIndices(n, i)
    {
      indices := indices + [i];
    }
  }

  method ComputeResponses(h: Hash, env: Env, s: State, indices: seq<nat>)
    returns (computed: seq<Option<ResponseDeviceInfor>>)
    requires s.root != [] && InRange(indices, |s.active|)
    ensures |computed| == |indices|
    ensures forall k :: 0 <= k < |indices| ==> computed[k] == Computed(h, env, s, indices[k])
  {
    computed := [];
    for k := 0 to |indices|
      invariant |computed| == k
      invariant forall j :: 0 <= j < k ==> computed[j] == Computed(h, env, s, indices[j])
    {
      var r := Build(h, env, s, indices[k]);
      computed := computed + [r];
    }
  }

  function Computed(h: Hash, env: Env, s: State, index: nat): Option<ResponseDeviceInfor>
    requires index < |s.active| && s.root != []
  {
    if index in env.buildFails then None else Some(BuildResponse(h, env, s, index))
  }

  method Build(h: Hash, env: Env, s: State, index: nat) returns (r: Option<ResponseDeviceInfor>)
    requires index < |s.active| && s.root != []
    ensures r == Computed(h, env, s, index)
  {
    var item := s.active[index];
    var res := if item.response.Some? then item.response.value
               else NewResponse(item.devInfor.verifyingKey, env.Now(index));
    res := res.(attesterAddr := item.attesterAddr);
    var p := FindDeviceShrubsPathTag(h, s.root, s.oldLeaves, item.merkleLeaf);
    res := res.(shrubsPath := PathOption(p), shrubsTag := TagOption(p));
    var authorizedInfor := DeviceAuthorizedInfor(h, item.devInfor, res);
    res := Signed(env, res, authorizedInfor);
    if index in env.buildFails {
      return None;
    }
    return Some(res);
  }

  method SendContextOnlyRefreshes(env: Env, s: State, indices: seq<nat>) returns (sent: seq<Event>)
    requires InRange(indices, |s.active|)
    ensures sent == ContextSends(env, s, indices)
  {
    sent := [];
    if indices == [] || env.contextFails {
      return;
    }
    for k := 0 to |indices|
      invariant sent == ContextSends(env, s, indices[..k])
    {
      assert indices[..k + 1][..k] == indices[..k];
      sent := sent + [ToAttester(s.active[indices[k]].socket, ContextRefresh(Context(env, s)))];
    }
    assert indices[..|indices|] == indices;
  }

  method PublishToAll(env: Env, s: State) returns (sent: seq<Event>)
    ensures sent == Publishes(env, s, env.relyingParties)
  {
    sent := [];
    var addrs := env.relyingParties;
    for k := 0 to |addrs|
      invariant sent == Publishes(env, s, addrs[..k])
    {
      assert addrs[..k + 1][..k] == addrs[..k];
      if addrs[k] !in env.unreachable && !env.contextFails {
        sent := sent + [ToRelyingParty(addrs[k], Context(env, s))];
      }
    }
    assert addrs[..|addrs|] == addrs;
  }
}
