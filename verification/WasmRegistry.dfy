/** The component registry (verifier/src/wasm_host.rs): concurrent `register` calls over three maps
    and a directory of files. A call is split where the source releases its lock or awaits: the cache
    check, compiling and writing the file, the commit under the write lock, and the removal of a
    duplicate's file. Calls interleave between these steps in any way. */
module WasmRegistry {
  import opened Wrappers
  import opened HydraTypes

  /** A compiled component, by the bytes it was compiled from. */
  datatype Component = Component(bytes: Bytes)

  /** Foreign code and configuration: the hash, whether bytes compile, and the trust settings. */
  datatype Host = Host(sha: Bytes -> string, compiles: Bytes -> bool, allowUnsigned: bool, trustedHashes: set<string>)
  {
    predicate Admits(hash: string) {
      allowUnsigned || hash in trustedHashes
    }
  }

  /** Where a call stands. */
  datatype Call =
    | Refused(bytes: Bytes)
    | Checked(bytes: Bytes)
    | Persisted(bytes: Bytes, id: string)
    | Discarding(bytes: Bytes, id: string, existing: string)
    | Returned(bytes: Bytes, id: string)

  datatype Registry = Registry(
    byId: map<string, string>, byHash: map<string, string>, compiled: map<string, Component>,
    files: map<string, Bytes>, calls: map<nat, Call>)

  const EMPTY := Registry(map[], map[], map[], map[], map[])

  // ----- the atomic steps

  datatype Step =
    | Check(call: nat, bytes: Bytes)
    | Persist(call: nat, id: string)
    | Commit(call: nat)
    | Remove(call: nat)

  /** A step is possible: calls are numbered afresh, and so are ids. */
  predicate Enabled(r: Registry, step: Step) {
    match step
    case Check(c, _) => c !in r.calls
    case Persist(c, id) => c in r.calls && r.calls[c].Checked? && id !in r.files && id !in r.byId
    case Commit(c) => c in r.calls && r.calls[c].Persisted?
    case Remove(c) => c in r.calls && r.calls[c].Discarding?
  }

  function Next(host: Host, r: Registry, step: Step): Registry
    requires Enabled(r, step)
  {
    match step
    case Check(c, bytes) =>
      var hash := host.sha(bytes);
      var call := if !host.Admits(hash) then Refused(bytes)
                  else if hash in r.byHash then Returned(bytes, r.byHash[hash])
                  else Checked(bytes);
      r.(calls := r.calls[c := call])
    case Persist(c, id) =>
      var bytes := r.calls[c].bytes;
      if !host.compiles(bytes) then r.(calls := r.calls[c := Refused(bytes)])
      else r.(files := r.files[id := bytes], calls := r.calls[c := Persisted(bytes, id)])
    case Commit(c) =>
      var bytes, id := r.calls[c].bytes, r.calls[c].id;
      var hash := host.sha(bytes);
      if hash in r.byHash then r.(calls := r.calls[c := Discarding(bytes, id, r.byHash[hash])])
      else Registry(r.byId[id := hash], r.byHash[hash := id], r.compiled[id := Component(bytes)], r.files,
                    r.calls[c := Returned(bytes, id)])
    case Remove(c) =>
      r.(files := r.files - {r.calls[c].id}, calls := r.calls[c := Returned(r.calls[c].bytes, r.calls[c].existing)])
  }

  // ----- the invariant

  /** The call owns a file that is not registered. */
  predicate OwnsFile(r: Registry, c: nat, id: string) {
    c in r.calls && (r.calls[c].Persisted? || r.calls[c].Discarding?) && r.calls[c].id == id
  }

  /** `by_id` and `by_hash` are mutually inverse. */
  predicate MutuallyInverse(r: Registry) {
    && (forall id :: id in r.byId ==> r.byId[id] in r.byHash && r.byHash[r.byId[id]] == id)
    && (forall hash :: hash in r.byHash ==> r.byHash[hash] in r.byId && r.byId[r.byHash[hash]] == hash)
  }

  /** Every registered id is compiled and on disk, from the same bytes, whose hash it is under. */
  predicate Stored(host: Host, r: Registry) {
    && r.compiled.Keys == r.byId.Keys
    && forall id :: id in r.byId ==>
         && host.Admits(r.byId[id])
         && host.compiles(r.compiled[id].bytes) && host.sha(r.compiled[id].bytes) == r.byId[id]
         && id in r.files && r.files[id] == r.compiled[id].bytes
  }

  /** The files are those of registered ids and those of calls under way, each with one owner. */
  ghost predicate FilesOwned(r: Registry) {
    && (forall c, id :: OwnsFile(r, c, id) ==> id in r.files && id !in r.byId && r.files[id] == r.calls[c].bytes)
    && (forall c, c', id :: OwnsFile(r, c, id) && OwnsFile(r, c', id) ==> c == c')
    && (forall id :: id in r.files ==> id in r.byId || exists c :: OwnsFile(r, c, id))
  }

  /** What a call has been promised or is on the way to. */
  predicate CallGood(host: Host, r: Registry, call: Call) {
    match call
    case Refused(bytes) => !host.Admits(host.sha(bytes)) || !host.compiles(bytes)
    case Checked(bytes) => host.Admits(host.sha(bytes))
    case Persisted(bytes, _) => host.Admits(host.sha(bytes)) && host.compiles(bytes)
    case Discarding(bytes, _, existing) => existing in r.byId && r.byId[existing] == host.sha(bytes)
    case Returned(bytes, id) => id in r.byId && r.byId[id] == host.sha(bytes)
  }

  ghost predicate Invariant(host: Host, r: Registry) {
    && MutuallyInverse(r) && Stored(host, r) && FilesOwned(r)
    && forall c :: c in r.calls ==> CallGood(host, r, r.calls[c])
  }

  /** Registered entries are never changed or dropped. */
  predicate Extends(r: Registry, r': Registry) {
    && (forall id :: id in r.byId ==> id in r'.byId && r'.byId[id] == r.byId[id])
    && (forall hash :: hash in r.byHash ==> hash in r'.byHash && r'.byHash[hash] == r.byHash[hash])
    && (forall id :: id in r.compiled ==> id in r'.compiled && r'.compiled[id] == r.compiled[id])
  }

  lemma StepKeepsMaps(host: Host, r: Registry, step: Step)
    requires Invariant(host, r) && Enabled(r, step)
    ensures MutuallyInverse(Next(host, r, step)) && Extends(r, Next(host, r, step))
  {
    if step.Commit? {
      assert OwnsFile(r, step.call, r.calls[step.call].id);
      NewPairKeepsMaps(r, r.calls[step.call].id, host.sha(r.calls[step.call].bytes),
                       Component(r.calls[step.call].bytes));
    }
  }

  /** Registering a new id under a new hash. */
  lemma NewPairKeepsMaps(r: Registry, id: string, hash: string, component: Component)
    requires MutuallyInverse(r) && r.compiled.Keys == r.byId.Keys && id !in r.byId
    ensures hash !in r.byHash ==>
              var r' := r.(byId := r.byId[id := hash], byHash := r.byHash[hash := id],
                           compiled := r.compiled[id := component]);
              MutuallyInverse(r') && Extends(r, r')
  {
  }

  lemma StepKeepsStored(host: Host, r: Registry, step: Step)
    requires Invariant(host, r) && Enabled(r, step)
    ensures Stored(host, Next(host, r, step))
  {
    if step.Commit? || step.Remove? {
      assert OwnsFile(r, step.call, r.calls[step.call].id);
      assert CallGood(host, r, r.calls[step.call]);
    }
  }

  /** Ownership after a step: only the stepping call's own file changes hands. */
  lemma OwnershipStep(host: Host, r: Registry, step: Step, c: nat, id: string)
    requires Enabled(r, step)
    ensures c != step.call ==> (OwnsFile(Next(host, r, step), c, id) <==> OwnsFile(r, c, id))
    ensures OwnsFile(Next(host, r, step), step.call, id) ==>
              (step.Persist? && id == step.id) || (step.Commit? && OwnsFile(r, step.call, id))
  {
  }

  lemma StepKeepsFiles(host: Host, r: Registry, step: Step)
    requires Invariant(host, r) && Enabled(r, step)
    ensures FilesOwned(Next(host, r, step))
  {
    var r' := Next(host, r, step);
    forall c, id | OwnsFile(r', c, id)
      ensures id in r'.files && id !in r'.byId && r'.files[id] == r'.calls[c].bytes
    {
      OwnershipStep(host, r, step, c, id);
      if step.Commit? || step.Remove? {
        assert OwnsFile(r, step.call, r.calls[step.call].id);
      }
    }
    forall c, c', id | OwnsFile(r', c, id) && OwnsFile(r', c', id) ensures c == c' {
      OwnershipStep(host, r, step, c, id);
      OwnershipStep(host, r, step, c', id);
    }
    forall id | id in r'.files ensures id in r'.byId || exists c :: OwnsFile(r', c, id) {
      FileStillOwned(host, r, step, id);
    }
  }

  lemma FileStillOwned(host: Host, r: Registry, step: Step, id: string)
    requires Invariant(host, r) && Enabled(r, step) && id in Next(host, r, step).files
    ensures id in Next(host, r, step).byId || exists c :: OwnsFile(Next(host, r, step), c, id)
  {
    var r' := Next(host, r, step);
    if id in r.files {
      if id !in r.byId {
        var c :| OwnsFile(r, c, id);
        if c != step.call {
          OwnershipStep(host, r, step, c, id);
          assert OwnsFile(r', c, id);
        } else if id !in r'.byId {
          assert step.Commit?;
          assert OwnsFile(r', c, id);
        }
      }
    } else {
      assert OwnsFile(r', step.call, id);
    }
  }

  lemma GoodCallStaysGood(host: Host, r: Registry, r': Registry, call: Call)
    requires Extends(r, r') && CallGood(host, r, call)
    ensures CallGood(host, r', call)
  {
  }

  lemma StepKeepsCalls(host: Host, r: Registry, step: Step)
    requires Invariant(host, r) && Enabled(r, step)
    ensures forall c ::
              c in Next(host, r, step).calls ==> CallGood(host, Next(host, r, step), Next(host, r, step).calls[c])
  {
    var r' := Next(host, r, step);
    StepKeepsMaps(host, r, step);
    forall c | c in r'.calls ensures CallGood(host, r', r'.calls[c]) {
      if c in r.calls {
        assert CallGood(host, r, r.calls[c]);
      }
      if c != step.call {
        GoodCallStaysGood(host, r, r', r'.calls[c]);
      }
    }
  }

  lemma StepKeepsInvariant(host: Host, r: Registry, step: Step)
    requires Invariant(host, r) && Enabled(r, step)
    ensures Invariant(host, Next(host, r, step)) && Extends(r, Next(host, r, step))
  {
    StepKeepsMaps(host, r, step);
    StepKeepsStored(host, r, step);
    StepKeepsFiles(host, r, step);
    StepKeepsCalls(host, r, step);
  }

  // ----- any interleaving

  /** `steps` can be taken one after the other from `r`, leading to `r'`. */
  ghost predicate Leads(host: Host, r: Registry, steps: seq<Step>, r': Registry)
    decreases |steps|
  {
    if steps == [] then r' == r
    else Enabled(r, steps[0]) && Leads(host, Next(host, r, steps[0]), steps[1..], r')
  }

  lemma {:induction false} RunKeepsInvariant(host: Host, r: Registry, steps: seq<Step>, r': Registry)
    requires Invariant(host, r) && Leads(host, r, steps, r')
    ensures Invariant(host, r') && Extends(r, r')
    decreases |steps|
  {
    if steps != [] {
      StepKeepsInvariant(host, r, steps[0]);
      RunKeepsInvariant(host, Next(host, r, steps[0]), steps[1..], r');
    }
  }

  /** The lookup of `evaluate`. */
  function Resolve(r: Registry, id: string): Option<Component> {
    if id in r.compiled then Some(r.compiled[id]) else None
  }

  /** From the empty registry, through any interleaving of any number of calls: calls that return for
      content of the same hash return the same id, and an id once returned resolves, at every later
      point, to a component compiled from trusted content of that hash. */
  lemma RegisteredStaysResolvable(host: Host, steps: seq<Step>, r: Registry, later: seq<Step>, r': Registry, c: nat,
                                  c': nat)
    requires Leads(host, EMPTY, steps, r) && Leads(host, r, later, r')
    requires c in r.calls && r.calls[c].Returned? && c' in r'.calls && r'.calls[c'].Returned?
    ensures host.sha(r.calls[c].bytes) == host.sha(r'.calls[c'].bytes) <==> r.calls[c].id == r'.calls[c'].id
    ensures Resolve(r', r.calls[c].id).Some?
    ensures host.sha(Resolve(r', r.calls[c].id).value.bytes) == host.sha(r.calls[c].bytes)
    ensures host.compiles(Resolve(r', r.calls[c].id).value.bytes)
    ensures host.allowUnsigned || host.sha(r.calls[c].bytes) in host.trustedHashes
  {
    EmptyIsGood(host);
    RunKeepsInvariant(host, EMPTY, steps, r);
    RunKeepsInvariant(host, r, later, r');
    assert CallGood(host, r, r.calls[c]);
    assert CallGood(host, r', r'.calls[c']);
    RegisteredResolves(host, r', r.calls[c].id, r'.calls[c'].id);
  }

  lemma EmptyIsGood(host: Host)
    ensures Invariant(host, EMPTY)
  {
  }

  /** Registered ids resolve, to content of their hash; ids are equal exactly when the hashes are. */
  lemma RegisteredResolves(host: Host, r: Registry, id: string, id': string)
    requires MutuallyInverse(r) && Stored(host, r) && id in r.byId && id' in r.byId
    ensures r.byId[id] == r.byId[id'] <==> id == id'
    ensures Resolve(r, id).Some? && host.sha(Resolve(r, id).value.bytes) == r.byId[id] && host.Admits(r.byId[id])
    ensures host.compiles(Resolve(r, id).value.bytes)
  {
  }

  // ----- how a call ends

  /** The caller's bytes may be registered: they are trusted, or nothing has to be. */
  predicate Trusted(host: Host, bytes: Bytes) {
    host.allowUnsigned || host.sha(bytes) in host.trustedHashes
  }

  /** Where a call for `bytes` can stand, when `known` says whether the hash was registered at its check. */
  predicate OnItsWay(host: Host, bytes: Bytes, known: bool, call: Call) {
    && call.bytes == bytes
    && match call
       case Refused(_) => !Trusted(host, bytes) || (!known && !host.compiles(bytes))
       case Checked(_) => Trusted(host, bytes) && !known
       case Persisted(_, _) => Trusted(host, bytes) && !known && host.compiles(bytes)
       case Discarding(_, _, _) => Trusted(host, bytes) && !known && host.compiles(bytes)
       case Returned(_, _) => Trusted(host, bytes) && (known || host.compiles(bytes))
  }

  lemma {:induction false} StaysOnItsWay(host: Host, r: Registry, steps: seq<Step>, r': Registry, c: nat, bytes: Bytes,
                                         known: bool)
    requires Leads(host, r, steps, r') && c in r.calls && OnItsWay(host, bytes, known, r.calls[c])
    ensures c in r'.calls && OnItsWay(host, bytes, known, r'.calls[c])
    decreases |steps|
  {
    if steps != [] {
      StaysOnItsWay(host, Next(host, r, steps[0]), steps[1..], r', c, bytes, known);
    }
  }

  /** How a call ends, whatever other calls do in between: it returns an id if and only if the bytes are
      trusted and are either registered already at its check or compile. */
  lemma {:induction false} CallReturnsIff(host: Host, r: Registry, c: nat, bytes: Bytes, steps: seq<Step>, r': Registry)
    requires c !in r.calls && Leads(host, Next(host, r, Check(c, bytes)), steps, r')
    ensures c in r'.calls && r'.calls[c].bytes == bytes
    ensures r'.calls[c].Returned? || r'.calls[c].Refused? ==>
              (r'.calls[c].Returned? <==>
               && (host.allowUnsigned || host.sha(bytes) in host.trustedHashes)
               && (host.sha(bytes) in r.byHash || host.compiles(bytes)))
  {
    StaysOnItsWay(host, Next(host, r, Check(c, bytes)), steps, r', c, bytes, host.sha(bytes) in r.byHash);
  }

  /** How far a call is from its end. */
  function StepsLeft(call: Call): nat {
    match call
    case Checked(_) => 3
    case Persisted(_, _) => 2
    case Discarding(_, _, _) => 1
    case _ => 0
  }

  /** The call's next step; `id` is the id it would draw. */
  function OwnStep(call: Call, c: nat, id: string): Step {
    match call
    case Checked(_) => Persist(c, id)
    case Persisted(_, _) => Commit(c)
    case _ => Remove(c)
  }

  /** No call waits for another: one that has not ended has a step of its own, which brings it closer to
      its end. */
  lemma CallCanStep(host: Host, r: Registry, c: nat, id: string)
    requires c in r.calls && StepsLeft(r.calls[c]) > 0 && id !in r.files && id !in r.byId
    ensures Enabled(r, OwnStep(r.calls[c], c, id))
    ensures var r' := Next(host, r, OwnStep(r.calls[c], c, id));
            c in r'.calls && StepsLeft(r'.calls[c]) < StepsLeft(r.calls[c])
  {
  }

  /** The steps of one call, taken to its end. */
  function Finish(host: Host, r: Registry, c: nat, id: string): Registry
    requires c in r.calls && (r.calls[c].Checked? ==> id !in r.files && id !in r.byId)
    decreases StepsLeft(r.calls[c])
  {
    if StepsLeft(r.calls[c]) == 0 then r else Finish(host, Next(host, r, OwnStep(r.calls[c], c, id)), c, id)
  }

  lemma CommitAlone(host: Host, r: Registry, c: nat)
    requires c in r.calls && r.calls[c].Persisted? && host.sha(r.calls[c].bytes) !in r.byHash
    ensures var bytes, id, hash := r.calls[c].bytes, r.calls[c].id, host.sha(r.calls[c].bytes);
            Finish(host, r, c, id)
            == Registry(r.byId[id := hash], r.byHash[hash := id], r.compiled[id := Component(bytes)], r.files,
                        r.calls[c := Returned(bytes, id)])
  {
    var r' := Next(host, r, Commit(c));
    assert Finish(host, r, c, r.calls[c].id) == Finish(host, r', c, r.calls[c].id);
  }

  lemma EndsAtCheck(host: Host, r: Registry, c: nat, bytes: Bytes, id: string)
    requires c !in r.calls && id !in r.files && id !in r.byId
    requires !Trusted(host, bytes) || host.sha(bytes) in r.byHash
    ensures Finish(host, Next(host, r, Check(c, bytes)), c, id)
         == r.(calls := r.calls[c := if Trusted(host, bytes) then Returned(bytes, r.byHash[host.sha(bytes)])
                                     else Refused(bytes)])
  {
  }

  lemma EndsAtCompile(host: Host, r: Registry, c: nat, bytes: Bytes, id: string)
    requires c !in r.calls && id !in r.files && id !in r.byId
    requires Trusted(host, bytes) && host.sha(bytes) !in r.byHash && !host.compiles(bytes)
    ensures Finish(host, Next(host, r, Check(c, bytes)), c, id) == r.(calls := r.calls[c := Refused(bytes)])
  {
    var r1 := Next(host, r, Check(c, bytes));
    var r2 := Next(host, r1, Persist(c, id));
    assert Finish(host, r1, c, id) == Finish(host, r2, c, id);
    assert r2.calls == r.calls[c := Refused(bytes)];
  }

  lemma EndsRegistered(host: Host, r: Registry, c: nat, bytes: Bytes, id: string)
    requires c !in r.calls && id !in r.files && id !in r.byId
    requires Trusted(host, bytes) && host.sha(bytes) !in r.byHash && host.compiles(bytes)
    ensures var hash := host.sha(bytes);
            Finish(host, Next(host, r, Check(c, bytes)), c, id)
            == Registry(r.byId[id := hash], r.byHash[hash := id], r.compiled[id := Component(bytes)],
                        r.files[id := bytes], r.calls[c := Returned(bytes, id)])
  {
    var r1 := Next(host, r, Check(c, bytes));
    var r2 := Next(host, r1, Persist(c, id));
    assert Finish(host, r1, c, id) == Finish(host, r2, c, id);
    CommitAlone(host, r2, c);
    assert r2.calls[c := Returned(bytes, id)] == r.calls[c := Returned(bytes, id)];
  }

  /** A call on its own, from any registry: refused, the known id, or its own id newly registered for its
      bytes. Nothing else changes. */
  lemma RegisterAlone(host: Host, r: Registry, c: nat, bytes: Bytes, id: string)
    requires c !in r.calls && id !in r.files && id !in r.byId
    ensures var hash, r' := host.sha(bytes), Finish(host, Next(host, r, Check(c, bytes)), c, id);
            var trusted := host.allowUnsigned || hash in host.trustedHashes;
            r' == if trusted && hash in r.byHash then r.(calls := r.calls[c := Returned(bytes, r.byHash[hash])])
                  else if trusted && host.compiles(bytes) then
                    Registry(r.byId[id := hash], r.byHash[hash := id], r.compiled[id := Component(bytes)],
                             r.files[id := bytes], r.calls[c := Returned(bytes, id)])
                  else r.(calls := r.calls[c := Refused(bytes)])
  {
    if !Trusted(host, bytes) || host.sha(bytes) in r.byHash {
      EndsAtCheck(host, r, c, bytes, id);
    } else if host.compiles(bytes) {
      EndsRegistered(host, r, c, bytes, id);
    } else {
      EndsAtCompile(host, r, c, bytes, id);
    }
  }

  /** When no call is under way, the files are exactly those of the registered ids. */
  lemma QuiescentFiles(host: Host, steps: seq<Step>, r: Registry)
    requires Leads(host, EMPTY, steps, r)
    requires forall c :: c in r.calls ==> r.calls[c].Refused? || r.calls[c].Returned?
    ensures r.files.Keys == r.byId.Keys == r.compiled.Keys
    ensures |r.byId| == |r.byHash|
  {
    RunKeepsInvariant(host, EMPTY, steps, r);
    OnlyRegisteredFiles(host, r);
    InverseSizes(r.byId, r.byHash);
  }

  lemma OnlyRegisteredFiles(host: Host, r: Registry)
    requires Stored(host, r) && FilesOwned(r)
    requires forall c :: c in r.calls ==> r.calls[c].Refused? || r.calls[c].Returned?
    ensures r.files.Keys == r.byId.Keys == r.compiled.Keys
  {
    forall id | id in r.files ensures id in r.byId {
      assert forall c :: !OwnsFile(r, c, id);
    }
  }

  lemma {:induction false} InverseSizes(f: map<string, string>, g: map<string, string>)
    requires forall x :: x in f ==> f[x] in g && g[f[x]] == x
    requires forall y :: y in g ==> g[y] in f && f[g[y]] == y
    ensures |f| == |g|
    decreases |f|
  {
    if f != map[] {
      var x :| x in f;
      var f', g' := f - {x}, g - {f[x]};
      InverseSizes(f', g');
      assert f == f'[x := f[x]] && g == g'[f[x] := x];
    } else {
      assert g == map[];
    }
  }

  // ----- the maps in place

  class WasmHost {
    var byId: map<string, string>
    var byHash: map<string, string>
    var compiled: map<string, Component>

    /** The fields are the maps of `r`. */
    ghost predicate Holds(r: Registry)
      reads this
    {
      byId == r.byId && byHash == r.byHash && compiled == r.compiled
    }

    constructor ()
      ensures Holds(EMPTY)
    {
      byId, byHash, compiled := map[], map[], map[];
    }

    /** The trust check and the fast path under the read lock. */
    method CheckCache(host: Host, bytes: Bytes, ghost r: Registry, ghost c: nat) returns (call: Call)
      requires Holds(r) && c !in r.calls
      ensures call == Next(host, r, Check(c, bytes)).calls[c] && Holds(Next(host, r, Check(c, bytes)))
    {
      var hash := host.sha(bytes);
      if !host.allowUnsigned && hash !in host.trustedHashes {
        return Refused(bytes);
      }
      if hash in byHash {
        return Returned(bytes, byHash[hash]);
      }
      return Checked(bytes);
    }

    /** The commit under the write lock: look again, then register. */
    method CommitRegistration(host: Host, bytes: Bytes, id: string, ghost r: Registry,
                              ghost c: nat) returns (call: Call)
      requires Holds(r) && c in r.calls && r.calls[c] == Persisted(bytes, id)
      modifies this
      ensures call == Next(host, r, Commit(c)).calls[c] && Holds(Next(host, r, Commit(c)))
    {
      var hash := host.sha(bytes);
      if hash in byHash {
        return Discarding(bytes, id, byHash[hash]);
      }
      byId := byId[id := hash];
      byHash := byHash[hash := id];
      compiled := compiled[id := Component(bytes)];
      return Returned(bytes, id);
    }

    /** The lookup of `evaluate` under the read lock. */
    method Lookup(id: string, ghost r: Registry) returns (component: Option<Component>)
      requires Holds(r)
      ensures component == Resolve(r, id)
    {
      component := if id in compiled then Some(compiled[id]) else None;
    }
  }
}
