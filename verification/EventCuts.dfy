/** The parser on logs that are not well-formed to the end: cut inside an item, or with a digest of an
    algorithm that was not declared. */
module EventCuts {
  import opened Wrappers
  import opened HydraTypes
  import opened EventLog

  /** `s` is a part of `whole` from its start, but not all of it. */
  predicate IsCut(s: Bytes, whole: Bytes) {
    s <= whole && |s| < |whole|
  }

  lemma CutBehind(s: Bytes, front: Bytes, more: Bytes)
    requires s <= front + more && |s| >= |front|
    ensures s == front + s[|front|..] && s[|front|..] <= more
  {
    assert s[|front|..] == (front + more)[|front|..|s|] == more[..|s| - |front|];
  }

  // ----- a cut record

  /** Digests that are there are read; the reading ends where they are cut. */
  lemma {:induction false} CutDigests(ds: seq<Digest>, sizes: map<nat, nat>, s: Bytes)
    requires DigestsFit(ds, sizes) && IsCut(s, DigestBytes(ds))
    ensures ReadDigests(s, |ds|, sizes) == DigestsEnd
    decreases |ds|
  {
    var head := ToLittleEndian(ds[0].algorithm, 2) + ds[0].digest;
    assert DigestBytes(ds) == head + DigestBytes(ds[1..]);
    if |s| >= |head| {
      CutBehind(s, head, DigestBytes(ds[1..]));
      OneDigest(ds[0], sizes, s[|head|..]);
      CutDigests(ds[1..], sizes, s[|head|..]);
    } else if |s| >= 2 {
      SmallPowers();
      LittleEndianRoundTrip(ds[0].algorithm, 2);
      assert s[..2] == ToLittleEndian(ds[0].algorithm, 2);
    }
  }

  lemma {:induction false} CutRecord(e: Entry, sizes: map<nat, nat>, s: Bytes)
    requires ItemFits(Event(e), sizes) && IsCut(s, RecordBytes(e))
    ensures ReadRecord(e.registry, e.eventType, s, sizes) == RecordEnds
  {
    var count, ds := ToLittleEndian(|e.digests|, 4), DigestBytes(e.digests);
    var size, desc := ToLittleEndian(|e.desc|, 4), e.desc;
    assert RecordBytes(e) == count + (ds + (size + desc));
    if |s| >= 4 {
      SmallPowers();
      CutBehind(s, count, ds + (size + desc));
      ReadInt(|e.digests|, 4, s[4..]);
      CutBody(e, sizes, s[4..]);
    }
  }

  lemma {:induction false} CutBody(e: Entry, sizes: map<nat, nat>, s: Bytes)
    requires ItemFits(Event(e), sizes)
    requires IsCut(s, DigestBytes(e.digests) + (ToLittleEndian(|e.desc|, 4) + e.desc))
    ensures match ReadDigests(s, |e.digests|, sizes)
            case DigestsEnd => true
            case Undeclared(_) => false
            case Read(_, rest) => |rest| < 4 || |rest| < 4 + LittleEndian(rest[..4])
  {
    var ds, more := DigestBytes(e.digests), ToLittleEndian(|e.desc|, 4) + e.desc;
    if |s| < |ds| {
      assert IsCut(s, ds) by {
        assert (ds + more)[..|s|] == ds[..|s|];
      }
      CutDigests(e.digests, sizes, s);
    } else {
      var rest := s[|ds|..];
      CutBehind(s, ds, more);
      ReadDigestsOf(e.digests, sizes, rest);
      if |rest| >= 4 {
        SmallPowers();
        CutBehind(rest, ToLittleEndian(|e.desc|, 4), e.desc);
        ReadInt(|e.desc|, 4, rest[4..]);
      }
    }
  }

  /** A log cut inside an event record makes the parser panic, wherever the cut is. */
  lemma {:induction false} CutEventPanics(items: seq<Item>, e: Entry, cut: Bytes)
    requires LogFits(items, map[]) && ItemFits(Event(e), SizesAfterAll(items, map[]))
    requires cut != [] && IsCut(cut, Print(Event(e)))
    ensures Printable(items)
    ensures Parse(PrintAll(items) + cut, map[]).Panicked?
  {
    ParsePrinted(items, map[], cut);
    if |cut| >= 8 {
      var head := ToLittleEndian(e.registry, 4) + ToLittleEndian(e.eventType, 4);
      CutBehind(cut, head, RecordBytes(e));
      FirstEight(e.registry, e.eventType, cut[8..]);
      NoStop(e.registry, e.eventType);
      CutRecord(e, SizesAfterAll(items, map[]), cut[8..]);
    }
  }

  // ----- a cut header

  lemma {:induction false} AlgorithmBytesLength(algs: seq<(nat, nat)>)
    ensures |AlgorithmBytes(algs)| == 4 * |algs|
  {
    if algs != [] {
      AlgorithmBytesLength(algs[1..]);
    }
  }

  lemma {:induction false} CutAlgorithms(algs: seq<(nat, nat)>, sizes: map<nat, nat>, s: Bytes)
    requires forall k :: 0 <= k < |algs| ==> algs[k].0 < 0x1_0000 && algs[k].1 < 0x1_0000
    requires IsCut(s, AlgorithmBytes(algs))
    ensures ReadAlgorithms(s, |algs|, sizes) == TableEnds
    decreases |algs|
  {
    var head := ToLittleEndian(algs[0].0, 2) + ToLittleEndian(algs[0].1, 2);
    assert AlgorithmBytes(algs) == head + AlgorithmBytes(algs[1..]);
    if |s| >= 4 {
      CutBehind(s, head, AlgorithmBytes(algs[1..]));
      TwoInts(algs[0].0, algs[0].1, s[4..]);
      CutAlgorithms(algs[1..], sizes[algs[0].0 := algs[0].1], s[4..]);
    }
  }

  /** A header is read, with nothing left, as soon as its vendor size is there. */
  lemma {:induction false} CutHeader(filler: Bytes, algs: seq<(nat, nat)>, vendor: Bytes, registry: nat,
                                     sizes: map<nat, nat>, s: Bytes)
    requires ItemFits(SpecId(registry, filler, algs, vendor), sizes) && IsCut(s, HeaderBytes(filler, algs, vendor))
    ensures ReadHeader(s, sizes)
         == if |s| <= HEADER_FILLER + 4 + 4 * |algs| then TableEnds else Declared(Declare(algs, sizes), [])
  {
    AlgorithmBytesLength(algs);
    if |s| >= HEADER_FILLER + 4 {
      SmallPowers();
      var counted := CountBehindFiller(filler, algs, vendor, s);
      ReadInt(|algs|, 4, counted[4..]);
      BehindFiller(filler, counted);
      CutTable(algs, vendor, sizes, counted[4..]);
    }
  }

  lemma {:induction false} CountBehindFiller(filler: Bytes, algs: seq<(nat, nat)>, vendor: Bytes, s: Bytes)
    returns (counted: Bytes)
    requires |filler| == HEADER_FILLER && |vendor| < 256 && |s| >= HEADER_FILLER + 4
    requires IsCut(s, HeaderBytes(filler, algs, vendor))
    ensures s == filler + counted && |counted| >= 4 && counted == ToLittleEndian(|algs|, 4) + counted[4..]
    ensures IsCut(counted[4..], AlgorithmBytes(algs) + ([|vendor|] + vendor))
  {
    var body := AlgorithmBytes(algs) + ([|vendor|] + vendor);
    assert HeaderBytes(filler, algs, vendor) == filler + (ToLittleEndian(|algs|, 4) + body);
    counted := s[HEADER_FILLER..];
    CutBehind(s, filler, ToLittleEndian(|algs|, 4) + body);
    CutBehind(counted, ToLittleEndian(|algs|, 4), body);
  }

  lemma {:induction false} CutTable(algs: seq<(nat, nat)>, vendor: Bytes, sizes: map<nat, nat>, s: Bytes)
    requires forall k :: 0 <= k < |algs| ==> algs[k].0 < 0x1_0000 && algs[k].1 < 0x1_0000
    requires |vendor| < 256 && IsCut(s, AlgorithmBytes(algs) + ([|vendor|] + vendor))
    ensures |s| < 4 * |algs| ==> ReadAlgorithms(s, |algs|, sizes) == TableEnds
    ensures |s| >= 4 * |algs| ==>
              && ReadAlgorithms(s, |algs|, sizes) == Declared(Declare(algs, sizes), s[4 * |algs|..])
              && (|s| > 4 * |algs| ==>
                    s[4 * |algs|] == |vendor| && Skip(s[4 * |algs|..], 1 + |vendor|) == [])
  {
    var table, tail := AlgorithmBytes(algs), [|vendor|] + vendor;
    AlgorithmBytesLength(algs);
    if |s| < |table| {
      assert s == (table + tail)[..|s|] == table[..|s|];
      CutAlgorithms(algs, sizes, s);
    } else {
      CutBehind(s, table, tail);
      ReadAlgorithmsOf(algs, sizes, s[|table|..]);
    }
  }

  /** A log cut inside a Spec ID header makes the parser panic exactly when the cut is at or before its
      vendor size; behind it the entries before the header are returned as if nothing was missing. */
  lemma {:induction false} CutHeaderOutcome(items: seq<Item>, registry: nat, filler: Bytes, algs: seq<(nat, nat)>,
                                            vendor: Bytes, cut: Bytes)
    requires LogFits(items, map[]) && ItemFits(SpecId(registry, filler, algs, vendor), SizesAfterAll(items, map[]))
    requires cut != [] && IsCut(cut, Print(SpecId(registry, filler, algs, vendor)))
    ensures Printable(items)
    ensures Parse(PrintAll(items) + cut, map[])
         == if |cut| <= 8 + HEADER_FILLER + 4 + 4 * |algs| then Panicked else Parsed(Entries(items))
  {
    ParsePrinted(items, map[], cut);
    assert Entries(items) + [] == Entries(items);
    if |cut| >= 8 {
      var head := ToLittleEndian(registry, 4) + ToLittleEndian(EV_NO_ACTION, 4);
      CutBehind(cut, head, HeaderBytes(filler, algs, vendor));
      FirstEight(registry, EV_NO_ACTION, cut[8..]);
      CutHeader(filler, algs, vendor, registry, SizesAfterAll(items, map[]), cut[8..]);
    }
  }

  // ----- an undeclared algorithm

  /** The first digest whose algorithm was not declared ends the reading. */
  lemma {:induction false} UndeclaredDigest(ds: seq<Digest>, k: nat, sizes: map<nat, nat>, rest: Bytes)
    requires k < |ds| && DigestsFit(ds[..k], sizes) && ds[k].algorithm < 0x1_0000 && ds[k].algorithm !in sizes
    ensures ReadDigests(DigestBytes(ds) + rest, |ds|, sizes) == Undeclared(ds[k].algorithm)
    decreases k
  {
    var head := ToLittleEndian(ds[0].algorithm, 2) + ds[0].digest;
    Associate(head, DigestBytes(ds[1..]), rest);
    if k == 0 {
      SmallPowers();
      LittleEndianRoundTrip(ds[0].algorithm, 2);
      assert (head + (DigestBytes(ds[1..]) + rest))[..2] == ToLittleEndian(ds[0].algorithm, 2);
    } else {
      assert DigestsFit([ds[0]], sizes) by {
        assert ds[..k][0] == ds[0];
      }
      OneDigest(ds[0], sizes, DigestBytes(ds[1..]) + rest);
      assert ds[1..][..k - 1] == ds[..k][1..];
      UndeclaredDigest(ds[1..], k - 1, sizes, rest);
    }
  }

  /** The event's numbers fit, it is no header and no stop pattern. */
  predicate HeadFits(e: Entry) {
    && e.registry < 0x1_0000_0000 && e.eventType < 0x1_0000_0000 && e.eventType != EV_NO_ACTION
    && !(e.registry == 0 && e.eventType == 0)
    && !(e.registry == 0xFFFF_FFFF && e.eventType == 0xFFFF_FFFF)
    && |e.digests| < 0x1_0000_0000
  }

  /** A well-formed log followed by an event with an undeclared algorithm fails with that algorithm, the
      first such one, whatever follows. */
  lemma {:induction false} UndeclaredIsReported(items: seq<Item>, e: Entry, k: nat, rest: Bytes)
    requires LogFits(items, map[]) && HeadFits(e) && k < |e.digests|
    requires DigestsFit(e.digests[..k], SizesAfterAll(items, map[]))
    requires e.digests[k].algorithm < 0x1_0000 && e.digests[k].algorithm !in SizesAfterAll(items, map[])
    ensures Printable(items)
    ensures Parse(PrintAll(items) + (Print(Event(e)) + rest), map[]) == UndeclaredAlgorithm(e.digests[k].algorithm)
  {
    var sizes, more := SizesAfterAll(items, map[]), RecordBytes(e) + rest;
    ParsePrinted(items, map[], Print(Event(e)) + rest);
    Associate(ToLittleEndian(e.registry, 4) + ToLittleEndian(e.eventType, 4), RecordBytes(e), rest);
    FirstEight(e.registry, e.eventType, more);
    NoStop(e.registry, e.eventType);
    UndeclaredRecord(e, k, sizes, rest);
  }

  lemma {:induction false} UndeclaredRecord(e: Entry, k: nat, sizes: map<nat, nat>, rest: Bytes)
    requires |e.digests| < 0x1_0000_0000 && k < |e.digests| && DigestsFit(e.digests[..k], sizes)
    requires e.digests[k].algorithm < 0x1_0000 && e.digests[k].algorithm !in sizes
    ensures ReadRecord(e.registry, e.eventType, RecordBytes(e) + rest, sizes)
         == RecordUndeclared(e.digests[k].algorithm)
  {
    var size := ToLittleEndian(|e.desc|, 4);
    Regroup(ToLittleEndian(|e.digests|, 4), DigestBytes(e.digests), size, e.desc, rest);
    SmallPowers();
    ReadInt(|e.digests|, 4, DigestBytes(e.digests) + (size + e.desc + rest));
    UndeclaredDigest(e.digests, k, sizes, size + e.desc + rest);
  }
}
