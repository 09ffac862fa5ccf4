/** The parsing loop of evidence-verify/src/eventlog_rs/mod.rs: an index that moves over the data, a
    table of digest sizes that fills up, and a growing list of entries. */
module EventParser {
  import opened HydraTypes
  import opened EventLog

  function From(data: Bytes, index: nat): Bytes {
    Skip(data, index)
  }

  lemma FromStep(data: Bytes, index: nat, n: nat)
    requires index + n <= |data|
    ensures From(data, index)[n..] == From(data, index + n)
    ensures From(data, index)[..n] == data[index..index + n]
  {
  }

  /** The inner loop over the algorithm table of a Spec ID header. */
  method ReadAlgorithmTable(data: Bytes, start: nat, count: nat, sizes: map<nat, nat>)
    returns (ok: bool, index: nat, sizes': map<nat, nat>)
    requires start <= |data|
    ensures ReadAlgorithms(From(data, start), count, sizes)
         == if ok then Declared(sizes', From(data, index)) else TableEnds
    ensures ok ==> start <= index <= |data|
  {
    index, sizes', ok := start, sizes, true;
    for k := 0 to count
      invariant start <= index <= |data|
      invariant ReadAlgorithms(From(data, start), count, sizes)
             == ReadAlgorithms(From(data, index), count - k, sizes')
    {
      if index + 4 > |data| {
        return false, index, sizes';
      }
      FromStep(data, index, 4);
      FromStep(data, index, 2);
      assert From(data, index)[2..4] == data[index + 2..index + 4];
      sizes' := sizes'[LittleEndian(data[index..index + 2]) := LittleEndian(data[index + 2..index + 4])];
      index := index + 4;
    }
  }

  function AfterDigests(ds: seq<Digest>, d: Digests): Digests {
    if d.Read? then Read(ds + d.digests, d.rest) else d
  }

  /** One digest, by index. */
  lemma DigestStep(data: Bytes, index: nat, count: nat, sizes: map<nat, nat>)
    requires index <= |data| && count > 0
    ensures index + 2 > |data| ==> ReadDigests(From(data, index), count, sizes) == DigestsEnd
    ensures index + 2 <= |data| ==>
              var alg := LittleEndian(data[index..index + 2]);
              ReadDigests(From(data, index), count, sizes)
              == (if alg !in sizes then Undeclared(alg)
                  else if index + 2 + sizes[alg] > |data| then DigestsEnd
                  else AfterDigests([Digest(alg, data[index + 2..index + 2 + sizes[alg]])],
                                    ReadDigests(From(data, index + 2 + sizes[alg]), count - 1, sizes)))
  {
    if index + 2 <= |data| {
      FromStep(data, index, 2);
      var alg := LittleEndian(data[index..index + 2]);
      if alg in sizes && index + 2 + sizes[alg] <= |data| {
        FromStep(data, index, 2 + sizes[alg]);
        assert From(data, index)[2..2 + sizes[alg]] == data[index + 2..index + 2 + sizes[alg]];
      }
    }
  }

  lemma AfterTwice(a: seq<Digest>, b: seq<Digest>, d: Digests)
    ensures AfterDigests(a, AfterDigests(b, d)) == AfterDigests(a + b, d)
  {
    if d.Read? {
      assert a + (b + d.digests) == a + b + d.digests;
    }
  }

  lemma AfterNone(d: Digests)
    ensures AfterDigests([], d) == d
  {
    if d.Read? {
      assert [] + d.digests == d.digests;
    }
  }

  /** The inner loop over the digests of a record. */
  method ReadDigestList(data: Bytes, start: nat, count: nat, sizes: map<nat, nat>)
    returns (index: nat, r: Digests)
    requires start <= |data|
    ensures r == ReadDigests(From(data, start), count, sizes)
    ensures r.Read? ==> start <= index <= |data| && r.rest == From(data, index)
  {
    var digests: seq<Digest> := [];
    index := start;
    ghost var whole := ReadDigests(From(data, start), count, sizes);
    AfterNone(whole);
    for k := 0 to count
      invariant start <= index <= |data|
      invariant whole == AfterDigests(digests, ReadDigests(From(data, index), count - k, sizes))
    {
      DigestStep(data, index, count - k, sizes);
      if index + 2 > |data| {
        return index, DigestsEnd;
      }
      var alg := LittleEndian(data[index..index + 2]);
      if alg !in sizes {
        return index, Undeclared(alg);
      }
      var next := index + 2 + sizes[alg];
      if next > |data| {
        return index, DigestsEnd;
      }
      var d := Digest(alg, data[index + 2..next]);
      AfterTwice(digests, [d], ReadDigests(From(data, next), count - k - 1, sizes));
      index, digests := next, digests + [d];
    }
    assert digests + [] == digests;
    r := Read(digests, From(data, index));
  }

  lemma HeaderCount(data: Bytes, start: nat)
    requires start <= |data|
    ensures |From(data, start)| >= HEADER_FILLER + 4 <==> start + HEADER_FILLER + 4 <= |data|
    ensures start + HEADER_FILLER + 4 <= |data| ==>
              && From(data, start)[HEADER_FILLER..HEADER_FILLER + 4]
                  == data[start + HEADER_FILLER..start + HEADER_FILLER + 4]
              && From(data, start)[HEADER_FILLER + 4..] == From(data, start + HEADER_FILLER + 4)
  {
  }

  lemma SkipFrom(data: Bytes, index: nat, n: nat)
    requires index <= |data|
    ensures Skip(From(data, index), n) == From(data, index + n)
    ensures index < |data| ==> From(data, index)[0] == data[index]
    ensures From(data, index) == [] <==> index >= |data|
  {
  }

  /** The header, once its table has been read up to `index`. */
  lemma HeaderDone(data: Bytes, start: nat, sizes: map<nat, nat>, table: Table, index: nat)
    requires start + HEADER_FILLER + 4 <= |data| && index <= |data|
    requires table == ReadAlgorithms(From(data, start + HEADER_FILLER + 4),
                                     LittleEndian(data[start + HEADER_FILLER..start + HEADER_FILLER + 4]), sizes)
    requires table.Declared? ==> table.rest == From(data, index)
    ensures table.TableEnds? || index == |data| ==> ReadHeader(From(data, start), sizes) == TableEnds
    ensures table.Declared? && index < |data| ==>
              var vendorSize: nat := data[index];
              ReadHeader(From(data, start), sizes) == Declared(table.sizes, From(data, index + 1 + vendorSize))
  {
    HeaderCount(data, start);
    SkipFrom(data, index, 0);
    if index < |data| {
      var vendorSize: nat := data[index];
      SkipFrom(data, index, 1 + vendorSize);
    }
  }

  /** The Spec ID header from its filler on. Skipping the vendor bytes may run past the end. */
  method ReadSpecId(data: Bytes, start: nat, sizes: map<nat, nat>)
    returns (ok: bool, index: nat, sizes': map<nat, nat>)
    requires start <= |data|
    ensures ReadHeader(From(data, start), sizes) == if ok then Declared(sizes', From(data, index)) else TableEnds
    ensures ok ==> index > start
  {
    HeaderCount(data, start);
    index := start + HEADER_FILLER;
    if index + 4 > |data| {
      return false, index, sizes;
    }
    var algoNumber := LittleEndian(data[index..index + 4]);
    ghost var table := ReadAlgorithms(From(data, index + 4), algoNumber, sizes);
    ok, index, sizes' := ReadAlgorithmTable(data, index + 4, algoNumber, sizes);
    HeaderDone(data, start, sizes, table, if ok then index else |data|);
    if !ok || index >= |data| {
      return false, index, sizes;
    }
    var vendorSize: nat := data[index];
    index := index + vendorSize + 1;
  }

  /** A count read at `index`, and a block of bytes behind it. */
  lemma CountedBlock(data: Bytes, index: nat, size: nat)
    requires index <= |data|
    ensures |From(data, index)| < 4 <==> index + 4 > |data|
    ensures index + 4 <= |data| ==>
              From(data, index)[..4] == data[index..index + 4] && From(data, index)[4..] == From(data, index + 4)
    ensures |From(data, index)| < 4 + size <==> index + 4 + size > |data|
    ensures index + 4 + size <= |data| ==>
              && From(data, index)[4..4 + size] == data[index + 4..index + 4 + size]
              && From(data, index)[4 + size..] == From(data, index + 4 + size)
  {
  }

  /** An event record from its digest count on. */
  method ReadEvent(data: Bytes, start: nat, registry: nat, eventType: nat, sizes: map<nat, nat>)
    returns (index: nat, r: Record)
    requires start <= |data|
    ensures r == ReadRecord(registry, eventType, From(data, start), sizes)
    ensures r.Recorded? ==> start <= index <= |data| && r.rest == From(data, index)
  {
    index := start;
    CountedBlock(data, index, 0);
    if index + 4 > |data| {
      return index, RecordEnds;
    }
    var digestCount := LittleEndian(data[index..index + 4]);
    var ds;
    index, ds := ReadDigestList(data, index + 4, digestCount, sizes);
    if ds.Undeclared? {
      return index, RecordUndeclared(ds.algorithm);
    }
    if ds.DigestsEnd? {
      return index, RecordEnds;
    }
    CountedBlock(data, index, 0);
    if index + 4 > |data| {
      return index, RecordEnds;
    }
    var descSize := LittleEndian(data[index..index + 4]);
    CountedBlock(data, index, descSize);
    if index + 4 + descSize > |data| {
      return index, RecordEnds;
    }
    var entry := Entry(registry, eventType, ds.digests, data[index + 4..index + 4 + descSize]);
    index := index + 4 + descSize;
    r := Recorded(entry, From(data, index));
  }

  /** `Eventlog::try_from`: the index moves forward on every iteration. */
  method TryFrom(data: Bytes) returns (r: Outcome)
    ensures r == Parse(data, map[])
  {
    var index, log: seq<Entry>, sizes: map<nat, nat> := 0, [], map[];
    PrependNothing(Parse(data, map[]));
    while index < |data|
      invariant Parse(data, map[]) == Prepend(log, Parse(From(data, index), sizes))
      decreases |data| - index
    {
      if index + 8 > |data| {
        return Panicked;
      }
      FromStep(data, index, 8);
      FromStep(data, index, 4);
      assert From(data, index)[4..8] == data[index + 4..index + 8];
      var stopFlag := LittleEndian(data[index..index + 8]);
      var registry := LittleEndian(data[index..index + 4]);
      var eventType := LittleEndian(data[index + 4..index + 8]);
      if eventType == EV_NO_ACTION {
        var ok, next, sizes' := ReadSpecId(data, index + 8, sizes);
        if !ok {
          return Panicked;
        }
        index, sizes := next, sizes';
      } else if stopFlag == U64_MAX || stopFlag == 0 {
        NothingMore(log);
        return Parsed(log);
      } else {
        var next, record := ReadEvent(data, index + 8, registry, eventType, sizes);
        if record.RecordEnds? {
          return Panicked;
        }
        if record.RecordUndeclared? {
          return UndeclaredAlgorithm(record.algorithm);
        }
        PrependTwice(log, [record.entry], Parse(From(data, next), sizes));
        index, log := next, log + [record.entry];
      }
    }
    NothingMore(log);
    return Parsed(log);
  }

  lemma NothingMore(log: seq<Entry>)
    ensures Prepend(log, Parsed([])) == Parsed(log)
  {
    assert log + [] == log;
  }
}
