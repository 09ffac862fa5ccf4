/** What one batch sends and stores, attester by attester. */
module HydraDispatch {
  import opened Wrappers
  import opened ShrubsTree
  import opened ShrubsOwner
  import opened HydraTypes
  import opened HydraDaemon

  /** The frames written to one socket, in order. */
  function FramesTo(events: seq<Event>, socket: nat): seq<Frame> {
    if events == [] then []
    else
      var rest, e := FramesTo(events[..|events| - 1], socket), events[|events| - 1];
      if e.ToAttester? && e.socket == socket then rest + [e.frame] else rest
  }

  lemma {:induction false} FramesToConcat(a: seq<Event>, b: seq<Event>, socket: nat)
    ensures FramesTo(a + b, socket) == FramesTo(a, socket) + FramesTo(b, socket)
    decreases |b|
  {
    if b == [] {
      assert a + b == a;
    } else {
      FramesToConcat(a, b[..|b| - 1], socket);
      assert (a + b)[..|a + b| - 1] == a + b[..|b| - 1];
    }
  }

  predicate Ascending(indices: seq<nat>) {
    forall j, k :: 0 <= j < k < |indices| ==> indices[j] < indices[k]
  }

  lemma {:induction false} OldIndicesAscend(n: nat, n': nat, upTo: nat, changes: bool)
    requires upTo <= n <= n'
    ensures Ascending(OldIndices(n, n', upTo, changes))
  {
    if upTo > 0 {
      OldIndicesAscend(n, n', upTo - 1, changes);
    }
  }

  lemma {:induction false} NewIndicesAre(n: nat, n': nat, i: nat)
    requires n <= n'
    ensures Ascending(NewIndices(n, n'))
    ensures i in NewIndices(n, n') <==> n <= i < n'
    decreases n'
  {
    if n < n' {
      NewIndicesAre(n, n' - 1, i);
    }
  }

  /** Sockets are numbered by position. */
  ghost predicate SocketsNumbered(items: seq<AttesterSession>) {
    forall i :: 0 <= i < |items| ==> items[i].socket == i
  }

  lemma LastOrBefore(indices: seq<nat>, i: nat)
    requires Ascending(indices) && indices != []
    ensures Ascending(indices[..|indices| - 1])
    ensures i in indices <==> i == indices[|indices| - 1] || i in indices[..|indices| - 1]
    ensures indices[|indices| - 1] !in indices[..|indices| - 1]
  {
    assert indices == indices[..|indices| - 1] + [indices[|indices| - 1]];
  }

  function FullFrame(h: Hash, env: Env, s: State, i: nat): Frame
    requires i < |s.active| && s.root != []
  {
    FullResponse(BuildResponse(h, env, s, i), Context(env, s))
  }

  lemma {:induction false} FramesOfFullSends(h: Hash, env: Env, s: State, indices: seq<nat>, i: nat)
    requires s.root != [] && InRange(indices, |s.active|) && Ascending(indices)
    requires SocketsNumbered(s.active)
    ensures i >= |s.active| ==> i !in indices
    ensures FramesTo(FullSends(h, env, s, indices), i)
         == if i in indices && i !in env.buildFails then [FullFrame(h, env, s, i)] else []
    decreases |indices|
  {
    if indices != [] {
      LastOrBefore(indices, i);
      FramesOfFullSends(h, env, s, indices[..|indices| - 1], i);
    }
  }

  lemma {:induction false} FramesOfContextSends(env: Env, s: State, indices: seq<nat>, i: nat)
    requires InRange(indices, |s.active|) && Ascending(indices)
    requires SocketsNumbered(s.active)
    ensures FramesTo(ContextSends(env, s, indices), i)
         == if i in indices && !env.contextFails then [ContextRefresh(Context(env, s))] else []
    decreases |indices|
  {
    if indices != [] {
      LastOrBefore(indices, i);
      FramesOfContextSends(env, s, indices[..|indices| - 1], i);
    }
  }

  lemma {:induction false} FramesOfPublishes(env: Env, s: State, addrs: seq<string>, i: nat)
    ensures FramesTo(Publishes(env, s, addrs), i) == []
    decreases |addrs|
  {
    if addrs != [] {
      var rest := Publishes(env, s, addrs[..|addrs| - 1]);
      FramesOfPublishes(env, s, addrs[..|addrs| - 1], i);
      FramesToConcat(rest, [], i);
      FramesToConcat(rest, [ToRelyingParty(addrs[|addrs| - 1], Context(env, s))], i);
    }
  }

  /** The attester needs a full response: it is new, or its owner root changed. */
  predicate NeedsPath(n: nat, n': nat, i: nat)
    requires n <= n' && i < n'
  {
    i >= n || OwnerChanges(i, n, n')
  }

  /** Each batch addresses every active attester exactly once: with a full response if it needs a
      path and the response could be built, with the context alone if it does not and the context
      could be encoded; an attester that is not active is sent nothing. */
  lemma BatchAddressesEachOnce(h: Hash, env: Env, s: State, n: nat, i: nat)
    requires n <= |s.active| && s.root != [] && SocketsNumbered(s.active)
    ensures i >= |s.active| ==> FramesTo(BatchSends(h, env, s, n), i) == []
    ensures i < |s.active| ==>
              FramesTo(BatchSends(h, env, s, n), i)
              == (if NeedsPath(n, |s.active|, i)
                  then if i in env.buildFails then [] else [FullFrame(h, env, s, i)]
                  else if env.contextFails then [] else [ContextRefresh(Context(env, s))])
  {
    var n' := |s.active|;
    OldIndicesMembers(n, n', n, true, i);
    OldIndicesMembers(n, n', n, false, i);
    NewIndicesAre(n, n', i);
    FramesOfBatch(h, env, s, n, i);
    Joined(if i < n' && i !in env.buildFails then [FullFrame(h, env, s, i)] else []);
    Joined(if env.contextFails then [] else [ContextRefresh(Context(env, s))]);
  }

  lemma Joined(frames: seq<Frame>)
    ensures frames + [] + [] == [] + frames + [] == [] + [] + frames == frames
  {
  }

  lemma FramesOfBatch(h: Hash, env: Env, s: State, n: nat, i: nat)
    requires n <= |s.active| && s.root != [] && SocketsNumbered(s.active)
    ensures var n' := |s.active|;
            var full := if i < n' && i !in env.buildFails then [FullFrame(h, env, s, i)] else [];
            FramesTo(BatchSends(h, env, s, n), i)
            == (if i in OldIndices(n, n', n, true) then full else [])
               + (if i !in OldIndices(n, n', n, false) || env.contextFails then []
                  else [ContextRefresh(Context(env, s))])
               + (if i in NewIndices(n, n') then full else [])
  {
    var n' := |s.active|;
    var affected, unaffected, arrived := OldIndices(n, n', n, true), OldIndices(n, n', n, false), NewIndices(n, n');
    OldIndicesAscend(n, n', n, true);
    OldIndicesAscend(n, n', n, false);
    NewIndicesAre(n, n', i);
    FramesOfFullSends(h, env, s, affected, i);
    FramesOfContextSends(env, s, unaffected, i);
    FramesOfPublishes(env, s, env.relyingParties, i);
    FramesOfFullSends(h, env, s, arrived, i);
    FramesToFour(FullSends(h, env, s, affected), ContextSends(env, s, unaffected),
                 Publishes(env, s, env.relyingParties), FullSends(h, env, s, arrived), i);
  }

  lemma FramesToFour(a: seq<Event>, b: seq<Event>, c: seq<Event>, d: seq<Event>, i: nat)
    ensures FramesTo(a + b + c + d, i) == FramesTo(a, i) + FramesTo(b, i) + FramesTo(c, i) + FramesTo(d, i)
  {
    FramesToConcat(a + b + c, d, i);
    FramesToConcat(a + b, c, i);
    FramesToConcat(a, b, i);
  }

  // ----- order of the sends

  lemma {:induction false} FullSendsAddress(h: Hash, env: Env, s: State, indices: seq<nat>, e: Event)
    requires s.root != [] && InRange(indices, |s.active|) && SocketsNumbered(s.active)
    ensures e in FullSends(h, env, s, indices) ==> e.ToAttester? && e.socket in indices
    decreases |indices|
  {
    if indices != [] {
      FullSendsAddress(h, env, s, indices[..|indices| - 1], e);
    }
  }

  lemma {:induction false} ContextSendsAddress(env: Env, s: State, indices: seq<nat>, e: Event)
    requires InRange(indices, |s.active|) && SocketsNumbered(s.active)
    ensures e in ContextSends(env, s, indices) ==> e.ToAttester? && e.socket in indices
    decreases |indices|
  {
    if indices != [] {
      ContextSendsAddress(env, s, indices[..|indices| - 1], e);
    }
  }

  lemma {:induction false} PublishesAddress(env: Env, s: State, addrs: seq<string>, e: Event)
    ensures e in Publishes(env, s, addrs) <==>
              && !env.contextFails && e.ToRelyingParty? && e.context == Context(env, s)
              && e.addr in addrs && e.addr !in env.unreachable
    decreases |addrs|
  {
    if addrs != [] {
      PublishesAddress(env, s, addrs[..|addrs| - 1], e);
      assert addrs == addrs[..|addrs| - 1] + [addrs[|addrs| - 1]];
    }
  }

  predicate SocketsAscend(events: seq<Event>) {
    && (forall k :: 0 <= k < |events| ==> events[k].ToAttester?)
    && (forall j, k :: 0 <= j < k < |events| ==> events[j].socket < events[k].socket)
  }

  /** Responses go out in the order of arrival. */
  lemma {:induction false} FullSendsAscend(h: Hash, env: Env, s: State, indices: seq<nat>)
    requires s.root != [] && InRange(indices, |s.active|) && SocketsNumbered(s.active) && Ascending(indices)
    ensures SocketsAscend(FullSends(h, env, s, indices))
    decreases |indices|
  {
    if indices != [] {
      var m := |indices| - 1;
      var front := FullSends(h, env, s, indices[..m]);
      FullSendsAscend(h, env, s, indices[..m]);
      forall k | 0 <= k < |front| ensures front[k].ToAttester? && front[k].socket < indices[m] {
        FullSendsAddress(h, env, s, indices[..m], front[k]);
      }
    }
  }

  lemma {:induction false} ContextSendsAscend(env: Env, s: State, indices: seq<nat>)
    requires InRange(indices, |s.active|) && SocketsNumbered(s.active) && Ascending(indices)
    ensures SocketsAscend(ContextSends(env, s, indices))
    decreases |indices|
  {
    if indices != [] {
      var m := |indices| - 1;
      var front := ContextSends(env, s, indices[..m]);
      ContextSendsAscend(env, s, indices[..m]);
      forall k | 0 <= k < |front| ensures front[k].ToAttester? && front[k].socket < indices[m] {
        ContextSendsAddress(env, s, indices[..m], front[k]);
      }
    }
  }

  /** If all can be reached, the relying parties are told in the configured order. */
  lemma {:induction false} PublishesInOrder(env: Env, s: State, addrs: seq<string>, k: nat)
    requires !env.contextFails && forall a :: a in addrs ==> a !in env.unreachable
    ensures |Publishes(env, s, addrs)| == |addrs|
    ensures k < |addrs| ==>
              Publishes(env, s, addrs)[k] == ToRelyingParty(addrs[k], PublicContext(s.root, env.verifierKey))
    decreases |addrs|
  {
    if addrs != [] {
      PublishesInOrder(env, s, addrs[..|addrs| - 1], k);
    }
  }

  /** The order within a batch: affected attesters by arrival, then unaffected ones by arrival, then the
      relying parties, then new attesters by arrival. */
  lemma BatchOrder(h: Hash, env: Env, s: State, n: nat)
    requires n <= |s.active| && s.root != [] && SocketsNumbered(s.active)
    ensures var n' := |s.active|;
            && SocketsAscend(FullSends(h, env, s, OldIndices(n, n', n, true)))
            && SocketsAscend(ContextSends(env, s, OldIndices(n, n', n, false)))
            && SocketsAscend(FullSends(h, env, s, NewIndices(n, n')))
  {
    var n' := |s.active|;
    OldIndicesAscend(n, n', n, true);
    OldIndicesAscend(n, n', n, false);
    NewIndicesAre(n, n', 0);
    FullSendsAscend(h, env, s, OldIndices(n, n', n, true));
    ContextSendsAscend(env, s, OldIndices(n, n', n, false));
    FullSendsAscend(h, env, s, NewIndices(n, n'));
  }

  /** Every relying party is told the new root list, and before any new attester is answered. */
  lemma PublishedBeforeNewAttesters(h: Hash, env: Env, s: State, n: nat, p: nat, q: nat)
    requires n <= |s.active| && s.root != [] && SocketsNumbered(s.active)
    requires p < |BatchSends(h, env, s, n)| && q < |BatchSends(h, env, s, n)|
    requires BatchSends(h, env, s, n)[p].ToRelyingParty?
    requires BatchSends(h, env, s, n)[q].ToAttester? && BatchSends(h, env, s, n)[q].socket >= n
    ensures p < q
    ensures BatchSends(h, env, s, n)[p].context == Context(env, s)
  {
    var n' := |s.active|;
    var affected, unaffected, arrived := OldIndices(n, n', n, true), OldIndices(n, n', n, false), NewIndices(n, n');
    var a, b, c, d := FullSends(h, env, s, affected), ContextSends(env, s, unaffected),
                      Publishes(env, s, env.relyingParties), FullSends(h, env, s, arrived);
    forall k | 0 <= k < |a| ensures a[k].ToAttester? && a[k].socket < n {
      FullSendsAddress(h, env, s, affected, a[k]);
      OldIndicesMembers(n, n', n, true, a[k].socket);
    }
    forall k | 0 <= k < |b| ensures b[k].ToAttester? && b[k].socket < n {
      ContextSendsAddress(env, s, unaffected, b[k]);
      OldIndicesMembers(n, n', n, false, b[k].socket);
    }
    forall k | 0 <= k < |c| ensures c[k].ToRelyingParty? && c[k].context == Context(env, s) {
      PublishesAddress(env, s, env.relyingParties, c[k]);
    }
    forall k | 0 <= k < |d| ensures d[k].ToAttester? {
      FullSendsAddress(h, env, s, arrived, d[k]);
    }
    MiddleBeforeEnd(a, b, c, d, n, p, q);
  }

  lemma MiddleBeforeEnd(a: seq<Event>, b: seq<Event>, c: seq<Event>, d: seq<Event>, n: nat, p: nat, q: nat)
    requires p < |a + b + c + d| && q < |a + b + c + d|
    requires forall k :: 0 <= k < |a| ==> a[k].ToAttester? && a[k].socket < n
    requires forall k :: 0 <= k < |b| ==> b[k].ToAttester? && b[k].socket < n
    requires forall k :: 0 <= k < |c| ==> c[k].ToRelyingParty?
    requires forall k :: 0 <= k < |d| ==> d[k].ToAttester?
    requires (a + b + c + d)[p].ToRelyingParty?
    requires (a + b + c + d)[q].ToAttester? && (a + b + c + d)[q].socket >= n
    ensures p < q && (a + b + c + d)[p] in c
  {
    assert |a + b| <= p < |a + b + c|;
    assert |a + b + c| <= q;
    assert (a + b + c + d)[p] == c[p - |a + b|];
  }

  /** Exactly the relying parties that can be reached are told, if the context can be encoded. */
  lemma EveryRelyingPartyPublished(h: Hash, env: Env, s: State, n: nat, addr: string)
    requires n <= |s.active| && s.root != [] && SocketsNumbered(s.active)
    ensures ToRelyingParty(addr, Context(env, s)) in BatchSends(h, env, s, n)
       <==> addr in env.relyingParties && addr !in env.unreachable && !env.contextFails
  {
    var n', e := |s.active|, ToRelyingParty(addr, Context(env, s));
    PublishesAddress(env, s, env.relyingParties, e);
    FullSendsAddress(h, env, s, OldIndices(n, n', n, true), e);
    ContextSendsAddress(env, s, OldIndices(n, n', n, false), e);
    FullSendsAddress(h, env, s, NewIndices(n, n'), e);
  }

  // ----- what the batch stores

  lemma {:induction false} StoreAt(h: Hash, env: Env, s: State, active: seq<AttesterSession>, indices: seq<nat>, i: nat)
    requires s.root != [] && |active| >= |s.active| && InRange(indices, |s.active|) && i < |active|
    ensures Store(h, env, s, active, indices)[i]
         == if i in indices && i !in env.buildFails then active[i].(response := Some(BuildResponse(h, env, s, i)))
            else active[i]
    decreases |indices|
  {
    if indices != [] {
      var m := |indices| - 1;
      StoreAt(h, env, s, active, indices[..m], i);
      assert indices == indices[..m] + [indices[m]];
    }
  }

  /** A batch stores exactly the responses it sends and changes nothing else. */
  lemma BatchStoreAt(h: Hash, env: Env, s: State, n: nat, i: nat)
    requires n <= |s.active| && s.root != [] && i < |s.active|
    ensures BatchStore(h, env, s, n)[i]
         == if NeedsPath(n, |s.active|, i) && i !in env.buildFails
            then s.active[i].(response := Some(BuildResponse(h, env, s, i)))
            else s.active[i]
  {
    var n' := |s.active|;
    var affected, arrived := OldIndices(n, n', n, true), NewIndices(n, n');
    OldIndicesMembers(n, n', n, true, i);
    NewIndicesAre(n, n', i);
    StoreAt(h, env, s, s.active, affected, i);
    StoreAt(h, env, s, Store(h, env, s, s.active, affected), arrived, i);
  }
}
