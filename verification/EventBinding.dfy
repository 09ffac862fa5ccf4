/** What the register values of an event log bind: with no collisions among the messages hashed, two logs
    that replay to the same value have the same digests in the same order, and so have two printed logs
    that pass the check against the same expected values. */
module EventBinding {
  import opened HydraTypes
  import opened EventLog
  import opened EventReplay

  // ----- the reference: a running hash over digests

  const ZERO_REGISTER: Bytes := seq(32, _ => 0)

  /** Start from 32 zero bytes; for each digest, hash the running value followed by the digest. */
  function Running(sha: Sha, digests: seq<Bytes>): Bytes {
    if digests == [] then ZERO_REGISTER
    else sha(Running(sha, digests[..|digests| - 1]) + digests[|digests| - 1])
  }

  /** The first digests of the entries addressed to register `r`, in log order. */
  function FirstDigests(log: seq<Entry>, r: nat): seq<Bytes>
    requires HaveDigests(log)
  {
    if log == [] then []
    else
      var front, last := FirstDigests(log[..|log| - 1], r), log[|log| - 1];
      if last.registry == r then front + [last.digests[0].digest] else front
  }

  lemma {:induction false} ZerosAreZero(n: nat, k: nat)
    requires k < n
    ensures Zeros(n)[k] == 0
  {
    if k < n - 1 {
      ZerosAreZero(n - 1, k);
    }
  }

  lemma ZeroRegister()
    ensures Zeros(REGISTER_LENGTH) == ZERO_REGISTER
  {
    forall k | 0 <= k < REGISTER_LENGTH ensures Zeros(REGISTER_LENGTH)[k] == 0 {
      ZerosAreZero(REGISTER_LENGTH, k);
    }
  }

  /** Replaying a register is the running hash over its first digests. */
  lemma {:induction false} FoldIsRunning(sha: Sha, log: seq<Entry>, r: nat)
    requires HaveDigests(log)
    ensures FoldFrom(sha, Zeros(REGISTER_LENGTH), log, r) == Running(sha, FirstDigests(log, r))
  {
    if log == [] {
      ZeroRegister();
    } else {
      var front, last := FirstDigests(log[..|log| - 1], r), log[|log| - 1];
      FoldIsRunning(sha, log[..|log| - 1], r);
      assert last.registry == r ==> FirstDigests(log, r)[..|front|] == front;
    }
  }

  /** A register occurs in the log exactly when it has digests. */
  lemma {:induction false} OccursIff(log: seq<Entry>, r: nat)
    requires HaveDigests(log)
    ensures r in Registers(log) <==> FirstDigests(log, r) != []
  {
    if log != [] {
      var m := |log| - 1;
      OccursIff(log[..m], r);
      RegistersSnoc(log, m);
      assert log[..m + 1] == log;
    }
  }

  // ----- binding

  /** The messages hashed on the way, each a running value followed by a digest. */
  function Messages(sha: Sha, digests: seq<Bytes>): (r: seq<Bytes>)
    ensures |r| == |digests|
  {
    if digests == [] then []
    else
      var front := digests[..|digests| - 1];
      Messages(sha, front) + [Running(sha, front) + digests[|digests| - 1]]
  }

  /** On these messages the hash has no collisions and does not give the zero register. */
  ghost predicate NoCollisions(sha: Sha, messages: seq<Bytes>) {
    && (forall x, y :: x in messages && y in messages && sha(x) == sha(y) ==> x == y)
    && (forall x :: x in messages ==> sha(x) != ZERO_REGISTER)
  }

  lemma RunningLength(sha: Sha, digests: seq<Bytes>)
    requires IsSha(sha)
    ensures |Running(sha, digests)| == 32
  {
  }

  /** What is collision-free on some messages is so on fewer. */
  lemma FewerMessages(sha: Sha, a: seq<Bytes>, x: Bytes, b: seq<Bytes>, y: Bytes)
    requires NoCollisions(sha, (a + [x]) + (b + [y]))
    ensures NoCollisions(sha, a + b)
    ensures sha(x) == sha(y) ==> x == y
  {
    var all := (a + [x]) + (b + [y]);
    assert x in all && y in all by {
      assert all[|a|] == x && all[|a| + 1 + |b|] == y;
    }
    forall z | z in a + b ensures z in all {
      assert z in a || z in b;
    }
  }

  /** The running hash determines the digests, their number and their order. */
  lemma {:induction false} RunningBinds(sha: Sha, a: seq<Bytes>, b: seq<Bytes>)
    requires IsSha(sha) && NoCollisions(sha, Messages(sha, a) + Messages(sha, b))
    ensures Running(sha, a) == Running(sha, b) <==> a == b
    decreases |a|
  {
    if a != [] && b != [] {
      var m, n := |a| - 1, |b| - 1;
      var x, y := Running(sha, a[..m]) + a[m], Running(sha, b[..n]) + b[n];
      FewerMessages(sha, Messages(sha, a[..m]), x, Messages(sha, b[..n]), y);
      RunningBinds(sha, a[..m], b[..n]);
      RunningLength(sha, a[..m]);
      RunningLength(sha, b[..n]);
      if x == y {
        assert x[..32] == Running(sha, a[..m]) && y[..32] == Running(sha, b[..n]);
        assert x[32..] == a[m] && y[32..] == b[n];
        assert a == a[..m] + [a[m]] && b == b[..n] + [b[n]];
      }
    } else if a != [] {
      assert Messages(sha, a) + Messages(sha, b) == Messages(sha, a);
      NotZero(sha, a);
    } else if b != [] {
      assert Messages(sha, a) + Messages(sha, b) == Messages(sha, b);
      NotZero(sha, b);
    }
  }

  lemma NotZero(sha: Sha, a: seq<Bytes>)
    requires a != [] && NoCollisions(sha, Messages(sha, a))
    ensures Running(sha, a) != ZERO_REGISTER
  {
    assert Messages(sha, a)[|a| - 1] == Running(sha, a[..|a| - 1]) + a[|a| - 1];
  }

  /** Two logs that replay a register to the same value have the same digests for it. */
  lemma ReplayBinds(sha: Sha, a: seq<Entry>, b: seq<Entry>, r: nat)
    requires IsSha(sha) && HaveDigests(a) && HaveDigests(b)
    requires NoCollisions(sha, Messages(sha, FirstDigests(a, r)) + Messages(sha, FirstDigests(b, r)))
    ensures FoldFrom(sha, Zeros(REGISTER_LENGTH), a, r) == FoldFrom(sha, Zeros(REGISTER_LENGTH), b, r)
       <==> FirstDigests(a, r) == FirstDigests(b, r)
  {
    FoldIsRunning(sha, a, r);
    FoldIsRunning(sha, b, r);
    RunningBinds(sha, FirstDigests(a, r), FirstDigests(b, r));
  }

  // ----- printed logs

  /** Every entry has a first digest, and it is not empty. */
  predicate Usable(log: seq<Entry>) {
    forall k :: 0 <= k < |log| ==> log[k].digests != [] && |log[k].digests[0].digest| > 0
  }

  /** Register `r` occurs in the log, and its running hash is the expected value. */
  predicate RunsTo(sha: Sha, log: seq<Entry>, r: nat, expected: Bytes)
    requires HaveDigests(log)
  {
    FirstDigests(log, r) != [] && Running(sha, FirstDigests(log, r)) == expected
  }

  /** Bytes to digests: a printed log passes the check exactly when every entry has a non-empty first
      digest and, for registers 1, 2 and 3, there are entries and the running hash over their first
      digests is the expected value. The fourth expected value is never looked at. */
  lemma PassesIff(sha: Sha, items: seq<Item>, tail: Bytes, rem: seq<Bytes>)
    requires IsSha(sha) && |rem| == 4 && LogFits(items, map[]) && Terminates(tail)
    ensures Printable(items)
    ensures Passes(sha, PrintAll(items) + tail, rem) <==>
            && Usable(Entries(items))
            && RunsTo(sha, Entries(items), 1, rem[0])
            && RunsTo(sha, Entries(items), 2, rem[1])
            && RunsTo(sha, Entries(items), 3, rem[2])
  {
    var log := Entries(items);
    ParseInvertsPrint(items, tail);
    if Usable(log) {
      UsableIsPresent(log);
      PrintedLogPassesIff(sha, items, tail, rem);
      MatchesIff(sha, log, 1, rem[0]);
      MatchesIff(sha, log, 2, rem[1]);
      MatchesIff(sha, log, 3, rem[2]);
    } else {
      UsableIsPresent(log);
    }
  }

  lemma UsableIsPresent(log: seq<Entry>)
    ensures Usable(log) <==> DigestsPresent(log)
  {
  }

  lemma MatchesIff(sha: Sha, log: seq<Entry>, r: nat, expected: Bytes)
    requires HaveDigests(log)
    ensures FoldMatches(sha, log, r, expected) <==> RunsTo(sha, log, r, expected)
  {
    FoldIsRunning(sha, log, r);
    OccursIff(log, r);
  }

  /** Two printed logs that pass against the same expected values measure the same: for each of the
      registers 1, 2 and 3, the same first digests in the same order. Nothing can have been replaced,
      dropped or reordered. */
  lemma PassingLogsAgree(sha: Sha, a: seq<Item>, tailA: Bytes, b: seq<Item>, tailB: Bytes, rem: seq<Bytes>, r: nat)
    requires IsSha(sha) && |rem| == 4 && 1 <= r <= 3
    requires LogFits(a, map[]) && Terminates(tailA) && LogFits(b, map[]) && Terminates(tailB)
    requires Printable(a) && Passes(sha, PrintAll(a) + tailA, rem)
    requires Printable(b) && Passes(sha, PrintAll(b) + tailB, rem)
    requires HaveDigests(Entries(a)) && HaveDigests(Entries(b)) ==>
               NoCollisions(sha, Messages(sha, FirstDigests(Entries(a), r))
                                 + Messages(sha, FirstDigests(Entries(b), r)))
    ensures HaveDigests(Entries(a)) && HaveDigests(Entries(b))
    ensures FirstDigests(Entries(a), r) == FirstDigests(Entries(b), r) != []
  {
    PassesIff(sha, a, tailA, rem);
    PassesIff(sha, b, tailB, rem);
    SameRun(sha, Entries(a), Entries(b), r, rem[r - 1]);
  }

  lemma SameRun(sha: Sha, a: seq<Entry>, b: seq<Entry>, r: nat, expected: Bytes)
    requires IsSha(sha) && HaveDigests(a) && HaveDigests(b)
    requires RunsTo(sha, a, r, expected) && RunsTo(sha, b, r, expected)
    requires NoCollisions(sha, Messages(sha, FirstDigests(a, r)) + Messages(sha, FirstDigests(b, r)))
    ensures FirstDigests(a, r) == FirstDigests(b, r) != []
  {
    RunningBinds(sha, FirstDigests(a, r), FirstDigests(b, r));
  }
}
