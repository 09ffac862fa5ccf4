/** Replay of the event log into measurement registers, and the VirtCCA event check
    (evidence-verify/src/eventlog_rs/mod.rs and evidence-verify/src/virtcca/event_log.rs). */
module EventReplay {
  import opened Wrappers
  import opened HydraTypes
  import opened EventLog
  import opened EventParser

  /** SHA-256, as any function with 32-byte results. */
  type Sha = Bytes -> Bytes

  const REGISTER_LENGTH: nat := 32

  ghost predicate IsSha(sha: Sha) {
    forall b :: |sha(b)| == REGISTER_LENGTH
  }

  function Zeros(n: nat): (r: Bytes)
    ensures |r| == n
  {
    if n == 0 then [] else Zeros(n - 1) + [0]
  }

  predicate HaveDigests(log: seq<Entry>) {
    forall k :: 0 <= k < |log| ==> log[k].digests != []
  }

  /** One extend operation. */
  function Extend(sha: Sha, value: Bytes, e: Entry): Bytes
    requires e.digests != []
  {
    sha(value + e.digests[0].digest)
  }

  /** The register `r` after the entries addressed to it, in log order, from `init`. */
  function FoldFrom(sha: Sha, init: Bytes, log: seq<Entry>, r: nat): Bytes
    requires HaveDigests(log)
  {
    if log == [] then init
    else
      var before := FoldFrom(sha, init, log[..|log| - 1], r);
      if log[|log| - 1].registry == r then Extend(sha, before, log[|log| - 1]) else before
  }

  function Registers(log: seq<Entry>): set<nat> {
    set k | 0 <= k < |log| :: log[k].registry
  }

  /** The simple replay: for every register that occurs, the fold of its own entries from zero. */
  function Replayed(sha: Sha, log: seq<Entry>): map<nat, Bytes>
    requires HaveDigests(log)
  {
    map r | r in Registers(log) :: FoldFrom(sha, Zeros(REGISTER_LENGTH), log, r)
  }

  /** Replaying a log in two parts is replaying it whole. */
  lemma {:induction false} FoldComposes(sha: Sha, init: Bytes, a: seq<Entry>, b: seq<Entry>, r: nat)
    requires HaveDigests(a) && HaveDigests(b)
    ensures HaveDigests(a + b)
    ensures FoldFrom(sha, init, a + b, r) == FoldFrom(sha, FoldFrom(sha, init, a, r), b, r)
    decreases |b|
  {
    if b == [] {
      assert a + b == a;
    } else {
      FoldComposes(sha, init, a, b[..|b| - 1], r);
      assert (a + b)[..|a + b| - 1] == a + b[..|b| - 1];
    }
  }

  // ----- the grouping replay of the source

  function Filter(log: seq<Entry>, r: nat): seq<Entry> {
    if log == [] then []
    else Filter(log[..|log| - 1], r) + (if log[|log| - 1].registry == r then [log[|log| - 1]] else [])
  }

  lemma {:induction false} FilterKeepsDigests(log: seq<Entry>, r: nat)
    requires HaveDigests(log)
    ensures HaveDigests(Filter(log, r))
    ensures forall k :: 0 <= k < |Filter(log, r)| ==> Filter(log, r)[k].registry == r
  {
    if log != [] {
      FilterKeepsDigests(log[..|log| - 1], r);
    }
  }

  /** Folding the group of a register is folding the log for that register. */
  lemma {:induction false} FoldOfGroup(sha: Sha, init: Bytes, log: seq<Entry>, r: nat)
    requires HaveDigests(log)
    ensures HaveDigests(Filter(log, r))
    ensures FoldFrom(sha, init, Filter(log, r), r) == FoldFrom(sha, init, log, r)
  {
    FilterKeepsDigests(log, r);
    if log != [] {
      var front, last := log[..|log| - 1], log[|log| - 1];
      FilterKeepsDigests(front, r);
      FoldOfGroup(sha, init, front, r);
      if last.registry == r {
        assert Filter(log, r)[..|Filter(log, r)| - 1] == Filter(front, r);
      } else {
        assert Filter(front, r) + [] == Filter(front, r);
      }
    }
  }

  /** First pass: the entries of each register, in log order. */
  method GroupByRegister(log: seq<Entry>) returns (groups: map<nat, seq<Entry>>)
    ensures groups.Keys == Registers(log)
    ensures forall r :: r in groups ==> groups[r] == Filter(log, r)
  {
    groups := map[];
    for k := 0 to |log|
      invariant groups.Keys == Registers(log[..k])
      invariant forall r :: r in groups ==> groups[r] == Filter(log[..k], r)
      invariant forall r: nat :: r !in groups ==> Filter(log[..k], r) == []
    {
      var e := log[k];
      RegistersSnoc(log, k);
      forall r: nat
        ensures Filter(log[..k + 1], r) == Filter(log[..k], r) + (if e.registry == r then [e] else [])
      {
        assert log[..k + 1][..k] == log[..k];
      }
      if e.registry in groups {
        groups := groups[e.registry := groups[e.registry] + [e]];
      } else {
        groups := groups[e.registry := [e]];
      }
    }
    assert log[..|log|] == log;
  }

  lemma RegistersSnoc(log: seq<Entry>, k: nat)
    requires k < |log|
    ensures Registers(log[..k + 1]) == Registers(log[..k]) + {log[k].registry}
  {
    forall r | r in Registers(log[..k]) + {log[k].registry} ensures r in Registers(log[..k + 1]) {
      if r == log[k].registry {
        assert log[..k + 1][k].registry == r;
      } else {
        var j :| 0 <= j < k && log[..k][j].registry == r;
        assert log[..k + 1][j].registry == r;
      }
    }
    forall r | r in Registers(log[..k + 1]) ensures r in Registers(log[..k]) + {log[k].registry} {
      var j :| 0 <= j < k + 1 && log[..k + 1][j].registry == r;
      if j < k {
        assert log[..k][j].registry == r;
      }
    }
  }

  method HashGroup(sha: Sha, group: seq<Entry>, ghost r: nat) returns (value: Bytes)
    requires HaveDigests(group)
    requires forall k :: 0 <= k < |group| ==> group[k].registry == r
    ensures value == FoldFrom(sha, Zeros(REGISTER_LENGTH), group, r)
  {
    value := Zeros(REGISTER_LENGTH);
    for k := 0 to |group|
      invariant value == FoldFrom(sha, Zeros(REGISTER_LENGTH), group[..k], r)
    {
      assert group[..k + 1][..k] == group[..k];
      value := sha(value + group[k].digests[0].digest);
    }
    assert group[..|group|] == group;
  }

  /** Group the entries, then hash each group: in whatever order the groups come, the result is the
      simple replay. The source indexes the first digest of every entry, so each must have one. */
  method ReplayMeasurementRegistry(sha: Sha, log: seq<Entry>) returns (result: map<nat, Bytes>)
    requires HaveDigests(log)
    ensures result == Replayed(sha, log)
  {
    var groups := GroupByRegister(log);
    result := map[];
    var left := groups.Keys;
    while left != {}
      invariant left <= groups.Keys
      invariant result.Keys == groups.Keys - left
      invariant forall r :: r in result ==> result[r] == FoldFrom(sha, Zeros(REGISTER_LENGTH), log, r)
      decreases left
    {
      var r :| r in left;
      FilterKeepsDigests(log, r);
      FoldOfGroup(sha, Zeros(REGISTER_LENGTH), log, r);
      var value := HashGroup(sha, groups[r], r);
      result := result[r := value];
      left := left - {r};
    }
  }

  // ----- the event check

  predicate DigestsPresent(log: seq<Entry>) {
    forall k :: 0 <= k < |log| ==> log[k].digests != [] && log[k].digests[0].digest != []
  }

  /** The index of the first entry without a usable digest, if any. */
  method ValidateEventLogDigests(log: seq<Entry>) returns (bad: Option<nat>)
    ensures bad.None? <==> DigestsPresent(log)
    ensures bad.Some? ==> bad.value < |log| && DigestsPresent(log[..bad.value]) && !DigestsPresent([log[bad.value]])
  {
    for k := 0 to |log|
      invariant DigestsPresent(log[..k])
    {
      if log[k].digests == [] || log[k].digests[0].digest == [] {
        assert [log[k]][0] == log[k];
        return Some(k);
      }
      assert log[..k + 1] == log[..k] + [log[k]];
    }
    assert log[..|log|] == log;
    return None;
  }

  /** Registers 1, 2 and 3 are present and equal the first three expected values. */
  predicate RegistersMatch(replayed: map<nat, Bytes>, rem: seq<Bytes>)
    requires |rem| == 4
  {
    forall i :: 1 <= i < 4 ==> i in replayed && |replayed[i]| == 32 && replayed[i] == rem[i - 1]
  }

  method CompareRtmrWithEventLog(replayed: map<nat, Bytes>, rem: seq<Bytes>) returns (ok: bool)
    requires |rem| == 4
    ensures ok == RegistersMatch(replayed, rem)
  {
    for i := 1 to 4
      invariant forall j :: 1 <= j < i ==> j in replayed && |replayed[j]| == 32 && replayed[j] == rem[j - 1]
    {
      if i !in replayed {
        return false;
      }
      if |replayed[i]| != 32 || |rem[i - 1]| != 32 {
        return false;
      }
      if replayed[i] != rem[i - 1] {
        return false;
      }
    }
    return true;
  }

  datatype Verdict = NoLog | Accepted | ParseFailed | ParsePanicked | BadDigest | Mismatch | NoReferences

  /** The check up to the lookup of reference values: an empty log passes, any other has to parse,
      carry digests and replay to the expected registers. */
  method EventVerify(sha: Sha, data: Bytes, rem: seq<Bytes>, referencesReadable: bool) returns (v: Verdict)
    requires |rem| == 4
    ensures v == NoLog <==> data == []
    ensures v == Accepted <==> referencesReadable && Passes(sha, data, rem)
    ensures v == ParsePanicked <==> data != [] && Parse(data, map[]).Panicked?
    ensures v == ParseFailed <==> data != [] && Parse(data, map[]).UndeclaredAlgorithm?
    ensures v == BadDigest <==> data != [] && Parse(data, map[]).Parsed? && !DigestsPresent(Parse(data, map[]).log)
    ensures v == Mismatch <==>
              && data != [] && Parse(data, map[]).Parsed? && DigestsPresent(Parse(data, map[]).log)
              && !RegistersMatch(Replayed(sha, Parse(data, map[]).log), rem)
    ensures v == NoReferences <==> !referencesReadable && Passes(sha, data, rem)
  {
    if data == [] {
      return NoLog;
    }
    var parsed := TryFrom(data);
    match parsed {
      case Panicked => return ParsePanicked;
      case UndeclaredAlgorithm(_) => return ParseFailed;
      case Parsed(log) =>
        var bad := ValidateEventLogDigests(log);
        if bad.Some? {
          return BadDigest;
        }
        var replayed := ReplayMeasurementRegistry(sha, log);
        var ok := CompareRtmrWithEventLog(replayed, rem);
        if !ok {
          return Mismatch;
        }
        return if referencesReadable then Accepted else NoReferences;
    }
  }

  /** A non-empty log that parses, carries digests and matches. */
  predicate Passes(sha: Sha, data: Bytes, rem: seq<Bytes>)
    requires |rem| == 4
  {
    data != [] &&
    match Parse(data, map[])
    case Parsed(log) => DigestsPresent(log) && RegistersMatch(Replayed(sha, log), rem)
    case _ => false
  }

  /** A register's fold is 32 bytes long. */
  lemma {:induction false} FoldLength(sha: Sha, log: seq<Entry>, r: nat)
    requires HaveDigests(log) && IsSha(sha)
    ensures |FoldFrom(sha, Zeros(REGISTER_LENGTH), log, r)| == REGISTER_LENGTH
  {
    if log != [] {
      FoldLength(sha, log[..|log| - 1], r);
    }
  }

  /** The register occurs and its fold from zero is the expected value. */
  predicate FoldMatches(sha: Sha, log: seq<Entry>, r: nat, expected: Bytes)
    requires HaveDigests(log)
  {
    r in Registers(log) && FoldFrom(sha, Zeros(REGISTER_LENGTH), log, r) == expected
  }

  lemma RegistersMatchIff(sha: Sha, log: seq<Entry>, rem: seq<Bytes>)
    requires IsSha(sha) && |rem| == 4 && HaveDigests(log)
    ensures RegistersMatch(Replayed(sha, log), rem) <==>
            FoldMatches(sha, log, 1, rem[0]) && FoldMatches(sha, log, 2, rem[1]) && FoldMatches(sha, log, 3, rem[2])
  {
    FoldLength(sha, log, 1);
    FoldLength(sha, log, 2);
    FoldLength(sha, log, 3);
    var replayed := Replayed(sha, log);
    assert RegistersMatch(replayed, rem) <==>
      && (1 in replayed && |replayed[1]| == 32 && replayed[1] == rem[0])
      && (2 in replayed && |replayed[2]| == 32 && replayed[2] == rem[1])
      && (3 in replayed && |replayed[3]| == 32 && replayed[3] == rem[2]);
  }

  /** Byte level to register level: a printed log passes the check exactly when it has entries for
      the registers 1, 2 and 3 and, for each, extending its entries in order from zero gives the
      expected value. The fourth expected value is never looked at. */
  lemma PrintedLogPassesIff(sha: Sha, items: seq<Item>, tail: Bytes, rem: seq<Bytes>)
    requires IsSha(sha) && |rem| == 4
    requires LogFits(items, map[]) && Terminates(tail)
    requires DigestsPresent(Entries(items))
    ensures Printable(items)
    ensures Passes(sha, PrintAll(items) + tail, rem) <==>
            && FoldMatches(sha, Entries(items), 1, rem[0])
            && FoldMatches(sha, Entries(items), 2, rem[1])
            && FoldMatches(sha, Entries(items), 3, rem[2])
  {
    ParseInvertsPrint(items, tail);
    RegistersMatchIff(sha, Entries(items), rem);
    if PrintAll(items) + tail == [] {
      assert Parse([], map[]) == Parsed([]);
      assert Entries(items) == [];
      assert 1 !in Registers([]);
    }
  }
}
