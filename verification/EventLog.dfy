/** The TCG event log parser (evidence-verify/src/eventlog_rs/mod.rs), against a printer of the
    format: Spec ID headers that declare digest sizes (section 10.4.5.1 of the TCG PC Client Platform
    Firmware Profile Specification v1.05) and TCG_PCR_EVENT2 records (section 10.2.2). Event types
    and algorithms are kept as numbers; the source looks up names for them. */
module EventLog {
  import opened Wrappers
  import opened HydraTypes

  datatype Digest = Digest(algorithm: nat, digest: Bytes)

  datatype Entry = Entry(registry: nat, eventType: nat, digests: seq<Digest>, desc: Bytes)

  /** Parsing ends with the entries, with the error for an undeclared algorithm, or with the panic of
      an index out of range. */
  datatype Outcome = Parsed(log: seq<Entry>) | UndeclaredAlgorithm(algorithm: nat) | Panicked

  const EV_NO_ACTION: nat := 3
  const HEADER_FILLER: nat := 48
  const U64_MAX: nat := 0xFFFF_FFFF_FFFF_FFFF

  // ----- little-endian integers

  function LittleEndian(b: Bytes): nat {
    if b == [] then 0 else b[0] + 256 * LittleEndian(b[1..])
  }

  function ToLittleEndian(n: nat, k: nat): (r: Bytes)
    ensures |r| == k
  {
    if k == 0 then [] else [n % 256] + ToLittleEndian(n / 256, k - 1)
  }

  lemma {:induction false} LittleEndianRoundTrip(n: nat, k: nat)
    requires n < Pow256(k)
    ensures LittleEndian(ToLittleEndian(n, k)) == n
  {
    if k > 0 {
      LittleEndianRoundTrip(n / 256, k - 1);
    }
  }

  lemma {:induction false} LittleEndianConcat(a: Bytes, b: Bytes)
    ensures LittleEndian(a + b) == LittleEndian(a) + Pow256(|a|) * LittleEndian(b)
  {
    if a == [] {
      assert a + b == b;
    } else {
      LittleEndianConcat(a[1..], b);
      assert (a + b)[1..] == a[1..] + b;
      assert 256 * (Pow256(|a| - 1) * LittleEndian(b)) == Pow256(|a|) * LittleEndian(b);
    }
  }

  lemma {:induction false} LittleEndianBound(b: Bytes)
    ensures LittleEndian(b) < Pow256(|b|)
  {
    if b != [] {
      LittleEndianBound(b[1..]);
    }
  }

  lemma SmallPowers()
    ensures Pow256(1) == 0x100 && Pow256(2) == 0x1_0000 && Pow256(4) == 0x1_0000_0000
  {
    assert Pow256(3) == 0x100_0000;
  }

  // ----- the parser, on the bytes left

  /** Skipping is not bounds-checked: past the end, nothing is left. */
  function Skip(s: Bytes, n: nat): Bytes {
    if n <= |s| then s[n..] else []
  }

  datatype Table = Declared(sizes: map<nat, nat>, rest: Bytes) | TableEnds

  function ReadAlgorithms(s: Bytes, count: nat, sizes: map<nat, nat>): Table {
    if count == 0 then Declared(sizes, s)
    else if |s| < 4 then TableEnds
    else ReadAlgorithms(s[4..], count - 1, sizes[LittleEndian(s[..2]) := LittleEndian(s[2..4])])
  }

  datatype Digests = Read(digests: seq<Digest>, rest: Bytes) | Undeclared(algorithm: nat) | DigestsEnd

  function ReadDigests(s: Bytes, count: nat, sizes: map<nat, nat>): Digests {
    if count == 0 then Read([], s)
    else if |s| < 2 then DigestsEnd
    else
      var alg := LittleEndian(s[..2]);
      if alg !in sizes then Undeclared(alg)
      else if |s| < 2 + sizes[alg] then DigestsEnd
      else
        match ReadDigests(s[2 + sizes[alg]..], count - 1, sizes)
        case Read(ds, rest) => Read([Digest(alg, s[2..2 + sizes[alg]])] + ds, rest)
        case other => other
  }

  function Prepend(log: seq<Entry>, o: Outcome): Outcome {
    if o.Parsed? then Parsed(log + o.log) else o
  }

  /** The rest of a Spec ID header, after its registry and type: what is left, and the sizes. */
  function ReadHeader(s: Bytes, sizes: map<nat, nat>): (r: Table)
    ensures r.Declared? ==> |r.rest| <= |s|
  {
    if |s| < HEADER_FILLER + 4 then TableEnds
    else
      var count := LittleEndian(s[HEADER_FILLER..HEADER_FILLER + 4]);
      var t := ReadAlgorithms(s[HEADER_FILLER + 4..], count, sizes);
      TableRestShorter(s[HEADER_FILLER + 4..], count, sizes);
      if t.TableEnds? || t.rest == [] then TableEnds
      else
        var vendorSize: nat := t.rest[0];
        Declared(t.sizes, Skip(t.rest, 1 + vendorSize))
  }

  lemma {:induction false} TableRestShorter(s: Bytes, count: nat, sizes: map<nat, nat>)
    ensures var t := ReadAlgorithms(s, count, sizes); t.Declared? ==> |t.rest| <= |s|
    decreases count
  {
    if count > 0 && |s| >= 4 {
      TableRestShorter(s[4..], count - 1, sizes[LittleEndian(s[..2]) := LittleEndian(s[2..4])]);
    }
  }

  lemma {:induction false} DigestsRestShorter(s: Bytes, count: nat, sizes: map<nat, nat>)
    ensures var d := ReadDigests(s, count, sizes); d.Read? ==> |d.rest| <= |s|
    decreases count
  {
    if count > 0 && |s| >= 2 {
      var alg := LittleEndian(s[..2]);
      if alg in sizes && |s| >= 2 + sizes[alg] {
        DigestsRestShorter(s[2 + sizes[alg]..], count - 1, sizes);
      }
    }
  }

  datatype Record = Recorded(entry: Entry, rest: Bytes) | RecordUndeclared(algorithm: nat) | RecordEnds

  /** The rest of an event record, after its registry and type. */
  function ReadRecord(registry: nat, eventType: nat, s: Bytes, sizes: map<nat, nat>): (r: Record)
    ensures r.Recorded? ==> |r.rest| <= |s|
  {
    if |s| < 4 then RecordEnds
    else
      var count := LittleEndian(s[..4]);
      DigestsRestShorter(s[4..], count, sizes);
      match ReadDigests(s[4..], count, sizes)
      case Undeclared(alg) => RecordUndeclared(alg)
      case DigestsEnd => RecordEnds
      case Read(ds, rest) =>
        if |rest| < 4 then RecordEnds
        else
          var size := LittleEndian(rest[..4]);
          if |rest| < 4 + size then RecordEnds
          else Recorded(Entry(registry, eventType, ds, rest[4..4 + size]), rest[4 + size..])
  }

  predicate IsStop(s: Bytes)
    requires |s| >= 8
  {
    LittleEndian(s[..8]) == U64_MAX || LittleEndian(s[..8]) == 0
  }

  function Parse(s: Bytes, sizes: map<nat, nat>): Outcome
    decreases |s|
  {
    if s == [] then Parsed([])
    else if |s| < 8 then Panicked
    else
      var registry, eventType := LittleEndian(s[..4]), LittleEndian(s[4..8]);
      if eventType == EV_NO_ACTION then
        match ReadHeader(s[8..], sizes)
        case TableEnds => Panicked
        case Declared(sizes', rest) => Parse(rest, sizes')
      else if IsStop(s) then Parsed([])
      else
        match ReadRecord(registry, eventType, s[8..], sizes)
        case RecordEnds => Panicked
        case RecordUndeclared(alg) => UndeclaredAlgorithm(alg)
        case Recorded(entry, rest) => Prepend([entry], Parse(rest, sizes))
  }

  // ----- the printer

  datatype Item =
    | SpecId(registry: nat, filler: Bytes, algorithms: seq<(nat, nat)>, vendor: Bytes)
    | Event(entry: Entry)

  function AlgorithmBytes(algs: seq<(nat, nat)>): Bytes {
    if algs == [] then []
    else ToLittleEndian(algs[0].0, 2) + ToLittleEndian(algs[0].1, 2) + AlgorithmBytes(algs[1..])
  }

  function DigestBytes(ds: seq<Digest>): Bytes {
    if ds == [] then [] else ToLittleEndian(ds[0].algorithm, 2) + ds[0].digest + DigestBytes(ds[1..])
  }

  function RecordBytes(e: Entry): Bytes {
    ToLittleEndian(|e.digests|, 4) + DigestBytes(e.digests) + ToLittleEndian(|e.desc|, 4) + e.desc
  }

  function HeaderBytes(filler: Bytes, algs: seq<(nat, nat)>, vendor: Bytes): Bytes
    requires |vendor| < 256
  {
    filler + ToLittleEndian(|algs|, 4) + AlgorithmBytes(algs) + [|vendor|] + vendor
  }

  function Print(item: Item): Bytes
    requires item.SpecId? ==> |item.vendor| < 256
  {
    match item
    case SpecId(registry, filler, algs, vendor) =>
      ToLittleEndian(registry, 4) + ToLittleEndian(EV_NO_ACTION, 4) + HeaderBytes(filler, algs, vendor)
    case Event(e) =>
      ToLittleEndian(e.registry, 4) + ToLittleEndian(e.eventType, 4) + RecordBytes(e)
  }

  predicate Printable(items: seq<Item>) {
    forall k :: 0 <= k < |items| && items[k].SpecId? ==> |items[k].vendor| < 256
  }

  function PrintAll(items: seq<Item>): Bytes
    requires Printable(items)
  {
    if items == [] then [] else Print(items[0]) + PrintAll(items[1..])
  }

  function Declare(algs: seq<(nat, nat)>, sizes: map<nat, nat>): map<nat, nat> {
    if algs == [] then sizes else Declare(algs[1..], sizes[algs[0].0 := algs[0].1])
  }

  function SizesAfter(item: Item, sizes: map<nat, nat>): map<nat, nat> {
    if item.SpecId? then Declare(item.algorithms, sizes) else sizes
  }

  function SizesAfterAll(items: seq<Item>, sizes: map<nat, nat>): map<nat, nat> {
    if items == [] then sizes else SizesAfterAll(items[1..], SizesAfter(items[0], sizes))
  }

  function Entries(items: seq<Item>): seq<Entry> {
    if items == [] then []
    else (if items[0].Event? then [items[0].entry] else []) + Entries(items[1..])
  }

  predicate DigestsFit(ds: seq<Digest>, sizes: map<nat, nat>) {
    forall k :: 0 <= k < |ds| ==>
      ds[k].algorithm < 0x1_0000 && ds[k].algorithm in sizes && |ds[k].digest| == sizes[ds[k].algorithm]
  }

  /** The fields fit their widths, digests use algorithms declared before with their sizes, and the
      registry and type are no stop pattern. */
  predicate ItemFits(item: Item, sizes: map<nat, nat>) {
    match item
    case SpecId(registry, filler, algs, vendor) =>
      && registry < 0x1_0000_0000 && |filler| == HEADER_FILLER && |algs| < 0x1_0000_0000 && |vendor| < 256
      && forall k :: 0 <= k < |algs| ==> algs[k].0 < 0x1_0000 && algs[k].1 < 0x1_0000
    case Event(e) =>
      && e.registry < 0x1_0000_0000 && e.eventType < 0x1_0000_0000 && e.eventType != EV_NO_ACTION
      && !(e.registry == 0 && e.eventType == 0)
      && !(e.registry == 0xFFFF_FFFF && e.eventType == 0xFFFF_FFFF)
      && |e.digests| < 0x1_0000_0000 && |e.desc| < 0x1_0000_0000
      && DigestsFit(e.digests, sizes)
  }

  predicate LogFits(items: seq<Item>, sizes: map<nat, nat>) {
    items == [] || (ItemFits(items[0], sizes) && LogFits(items[1..], SizesAfter(items[0], sizes)))
  }

  // ----- parsing inverts printing

  lemma ReadInt(n: nat, k: nat, rest: Bytes)
    requires n < Pow256(k)
    ensures |ToLittleEndian(n, k) + rest| == k + |rest|
    ensures LittleEndian((ToLittleEndian(n, k) + rest)[..k]) == n
    ensures (ToLittleEndian(n, k) + rest)[k..] == rest
  {
    var e := ToLittleEndian(n, k);
    LittleEndianRoundTrip(n, k);
    assert (e + rest)[..k] == e;
  }

  lemma {:induction false} ReadAlgorithmsOf(algs: seq<(nat, nat)>, sizes: map<nat, nat>, rest: Bytes)
    requires forall k :: 0 <= k < |algs| ==> algs[k].0 < 0x1_0000 && algs[k].1 < 0x1_0000
    ensures ReadAlgorithms(AlgorithmBytes(algs) + rest, |algs|, sizes) == Declared(Declare(algs, sizes), rest)
    decreases |algs|
  {
    if algs == [] {
      assert [] + rest == rest;
    } else {
      SmallPowers();
      var more := AlgorithmBytes(algs[1..]) + rest;
      var a, b := ToLittleEndian(algs[0].0, 2), ToLittleEndian(algs[0].1, 2);
      Associate(a + b, AlgorithmBytes(algs[1..]), rest);
      TwoInts(algs[0].0, algs[0].1, more);
      ReadAlgorithmsOf(algs[1..], sizes[algs[0].0 := algs[0].1], rest);
    }
  }

  lemma TwoInts(m: nat, n: nat, rest: Bytes)
    requires m < 0x1_0000 && n < 0x1_0000
    ensures var s := ToLittleEndian(m, 2) + ToLittleEndian(n, 2) + rest;
            && |s| >= 4 && LittleEndian(s[..2]) == m && LittleEndian(s[2..4]) == n && s[4..] == rest
  {
    SmallPowers();
    var a, b := ToLittleEndian(m, 2), ToLittleEndian(n, 2);
    LittleEndianRoundTrip(m, 2);
    LittleEndianRoundTrip(n, 2);
    assert (a + b + rest)[..2] == a && (a + b + rest)[2..4] == b;
  }

  lemma {:induction false} ReadDigestsOf(ds: seq<Digest>, sizes: map<nat, nat>, rest: Bytes)
    requires DigestsFit(ds, sizes)
    ensures ReadDigests(DigestBytes(ds) + rest, |ds|, sizes) == Read(ds, rest)
    decreases |ds|
  {
    if ds == [] {
      assert [] + rest == rest;
    } else {
      var more := DigestBytes(ds[1..]) + rest;
      OneDigest(ds[0], sizes, more);
      Associate(ToLittleEndian(ds[0].algorithm, 2) + ds[0].digest, DigestBytes(ds[1..]), rest);
      ReadDigestsOf(ds[1..], sizes, rest);
      assert ds == [ds[0]] + ds[1..];
    }
  }

  lemma OneDigest(d: Digest, sizes: map<nat, nat>, rest: Bytes)
    requires DigestsFit([d], sizes)
    ensures d.algorithm in sizes
    ensures var s := ToLittleEndian(d.algorithm, 2) + d.digest + rest; var size := sizes[d.algorithm];
            && |s| >= 2 + size && LittleEndian(s[..2]) == d.algorithm
            && s[2..2 + size] == d.digest && s[2 + size..] == rest
  {
    assert [d][0] == d;
    SmallPowers();
    var a := ToLittleEndian(d.algorithm, 2);
    LittleEndianRoundTrip(d.algorithm, 2);
    assert (a + d.digest + rest)[..2] == a;
  }

  lemma ReadRecordOf(e: Entry, sizes: map<nat, nat>, rest: Bytes)
    requires ItemFits(Event(e), sizes)
    ensures ReadRecord(e.registry, e.eventType, RecordBytes(e) + rest, sizes) == Recorded(e, rest)
  {
    SmallPowers();
    var mid := ToLittleEndian(|e.desc|, 4) + e.desc + rest;
    var front := DigestBytes(e.digests) + mid;
    Regroup(ToLittleEndian(|e.digests|, 4), DigestBytes(e.digests), ToLittleEndian(|e.desc|, 4), e.desc, rest);
    ReadInt(|e.digests|, 4, front);
    ReadDigestsOf(e.digests, sizes, mid);
    ReadDesc(e.desc, rest);
    RecordParts(e, ToLittleEndian(|e.digests|, 4) + front, sizes, mid, rest);
  }

  lemma RecordParts(e: Entry, s: Bytes, sizes: map<nat, nat>, mid: Bytes, rest: Bytes)
    requires |s| >= 4 && ReadDigests(s[4..], LittleEndian(s[..4]), sizes) == Read(e.digests, mid)
    requires |mid| >= 4 + |e.desc| && LittleEndian(mid[..4]) == |e.desc|
    requires mid[4..4 + |e.desc|] == e.desc && mid[4 + |e.desc|..] == rest
    ensures ReadRecord(e.registry, e.eventType, s, sizes) == Recorded(e, rest)
  {
  }

  lemma Regroup(a: Bytes, b: Bytes, c: Bytes, d: Bytes, rest: Bytes)
    ensures (a + b + c + d) + rest == a + (b + (c + d + rest))
  {
  }

  lemma ReadDesc(desc: Bytes, rest: Bytes)
    requires |desc| < 0x1_0000_0000
    ensures var s := ToLittleEndian(|desc|, 4) + desc + rest;
            && |s| >= 4 + |desc| && LittleEndian(s[..4]) == |desc|
            && s[4..4 + |desc|] == desc && s[4 + |desc|..] == rest
  {
    SmallPowers();
    LittleEndianRoundTrip(|desc|, 4);
    assert (ToLittleEndian(|desc|, 4) + desc + rest)[..4] == ToLittleEndian(|desc|, 4);
  }

  lemma ReadHeaderOf(filler: Bytes, algs: seq<(nat, nat)>, vendor: Bytes, registry: nat, sizes: map<nat, nat>,
                     rest: Bytes)
    requires ItemFits(SpecId(registry, filler, algs, vendor), sizes)
    ensures ReadHeader(HeaderBytes(filler, algs, vendor) + rest, sizes) == Declared(Declare(algs, sizes), rest)
  {
    SmallPowers();
    var tail := [|vendor|] + vendor + rest;
    var table := AlgorithmBytes(algs) + tail;
    var counted := ToLittleEndian(|algs|, 4) + table;
    var s := HeaderBytes(filler, algs, vendor) + rest;
    assert s == filler + counted;
    ReadInt(|algs|, 4, table);
    BehindFiller(filler, counted);
    ReadAlgorithmsOf(algs, sizes, tail);
    assert tail[1 + |vendor|..] == rest;
  }

  lemma BehindFiller(filler: Bytes, counted: Bytes)
    requires |filler| == HEADER_FILLER && |counted| >= 4
    ensures (filler + counted)[HEADER_FILLER..HEADER_FILLER + 4] == counted[..4]
    ensures (filler + counted)[HEADER_FILLER + 4..] == counted[4..]
  {
  }

  /** The first eight bytes of an item, read as one number. */
  lemma FirstEight(registry: nat, eventType: nat, rest: Bytes)
    requires registry < 0x1_0000_0000 && eventType < 0x1_0000_0000
    ensures var s := ToLittleEndian(registry, 4) + ToLittleEndian(eventType, 4) + rest;
            && |s| >= 8 && s[8..] == rest
            && LittleEndian(s[..4]) == registry && LittleEndian(s[4..8]) == eventType
            && LittleEndian(s[..8]) == registry + 0x1_0000_0000 * eventType
  {
    SmallPowers();
    var a, b := ToLittleEndian(registry, 4), ToLittleEndian(eventType, 4);
    LittleEndianRoundTrip(registry, 4);
    LittleEndianRoundTrip(eventType, 4);
    LittleEndianConcat(a, b);
    var s := a + b + rest;
    assert s[..4] == a && s[4..8] == b && s[..8] == a + b;
  }

  lemma NoStop(registry: nat, eventType: nat)
    requires registry < 0x1_0000_0000 && eventType < 0x1_0000_0000
    ensures registry + 0x1_0000_0000 * eventType == 0 <==> registry == 0 && eventType == 0
    ensures registry + 0x1_0000_0000 * eventType == U64_MAX <==> registry == 0xFFFF_FFFF && eventType == 0xFFFF_FFFF
  {
  }

  lemma ParseItem(item: Item, sizes: map<nat, nat>, rest: Bytes)
    requires ItemFits(item, sizes)
    ensures Parse(Print(item) + rest, sizes)
         == Prepend(if item.Event? then [item.entry] else [], Parse(rest, SizesAfter(item, sizes)))
  {
    match item
    case SpecId(registry, filler, algs, vendor) =>
      var more := HeaderBytes(filler, algs, vendor) + rest;
      FirstEight(registry, EV_NO_ACTION, more);
      Associate(ToLittleEndian(registry, 4) + ToLittleEndian(EV_NO_ACTION, 4), HeaderBytes(filler, algs, vendor), rest);
      ReadHeaderOf(filler, algs, vendor, registry, sizes, rest);
      PrependNothing(Parse(rest, Declare(algs, sizes)));
    case Event(e) =>
      var more := RecordBytes(e) + rest;
      FirstEight(e.registry, e.eventType, more);
      NoStop(e.registry, e.eventType);
      Associate(ToLittleEndian(e.registry, 4) + ToLittleEndian(e.eventType, 4), RecordBytes(e), rest);
      ReadRecordOf(e, sizes, rest);
  }

  lemma PrependNothing(o: Outcome)
    ensures Prepend([], o) == o
  {
    if o.Parsed? {
      assert [] + o.log == o.log;
    }
  }

  lemma PrependTwice(a: seq<Entry>, b: seq<Entry>, o: Outcome)
    ensures Prepend(a, Prepend(b, o)) == Prepend(a + b, o)
  {
    if o.Parsed? {
      assert a + (b + o.log) == a + b + o.log;
    }
  }

  lemma {:induction false} FitIsPrintable(items: seq<Item>, sizes: map<nat, nat>)
    requires LogFits(items, sizes)
    ensures Printable(items)
    decreases |items|
  {
    if items != [] {
      FitIsPrintable(items[1..], SizesAfter(items[0], sizes));
      forall k | 0 <= k < |items| && items[k].SpecId? ensures |items[k].vendor| < 256 {
        if k > 0 {
          assert items[k] == items[1..][k - 1];
        }
      }
    }
  }

  /** Parsing a printed log, whatever follows it, yields its entries and goes on with what follows,
      knowing the sizes the log declared. */
  lemma {:induction false} ParsePrinted(items: seq<Item>, sizes: map<nat, nat>, rest: Bytes)
    requires LogFits(items, sizes)
    ensures Printable(items)
    ensures Parse(PrintAll(items) + rest, sizes)
         == Prepend(Entries(items), Parse(rest, SizesAfterAll(items, sizes)))
    decreases |items|
  {
    FitIsPrintable(items, sizes);
    if items == [] {
      assert [] + rest == rest;
      PrependNothing(Parse(rest, sizes));
    } else {
      FitIsPrintable(items[1..], SizesAfter(items[0], sizes));
      var more := PrintAll(items[1..]) + rest;
      Associate(Print(items[0]), PrintAll(items[1..]), rest);
      ParseItem(items[0], sizes, more);
      ParsePrinted(items[1..], SizesAfter(items[0], sizes), rest);
      PrependTwice(if items[0].Event? then [items[0].entry] else [], Entries(items[1..]),
                   Parse(rest, SizesAfterAll(items, sizes)));
    }
  }

  /** The end of the data, or eight equal bytes of a stop pattern before any junk. */
  predicate Terminates(tail: Bytes) {
    tail == [] || (|tail| >= 8 && (AllEqual(tail[..8], 0) || AllEqual(tail[..8], 255)))
  }

  predicate AllEqual(b: Bytes, x: byte) {
    forall k :: 0 <= k < |b| ==> b[k] == x
  }

  lemma {:induction false} SameBytes(b: Bytes, x: byte)
    requires AllEqual(b, x)
    ensures x == 0 ==> LittleEndian(b) == 0
    ensures x == 255 ==> LittleEndian(b) == Pow256(|b|) - 1
  {
    if b != [] {
      SameBytes(b[1..], x);
    }
  }

  lemma TerminatorStops(tail: Bytes, sizes: map<nat, nat>)
    requires Terminates(tail)
    ensures Parse(tail, sizes) == Parsed([])
  {
    if tail != [] {
      SmallPowers();
      var x := tail[0];
      assert Pow256(8) == U64_MAX + 1 by {
        assert Pow256(6) == 0x1_0000_0000_0000;
      }
      SameBytes(tail[..8], x);
      SameBytes(tail[4..8], x);
    }
  }

  /** Parse inverts print: for every well-formed log, ended by the end of the data or by a stop
      pattern and any junk, the parser returns exactly its entries in order. */
  lemma ParseInvertsPrint(items: seq<Item>, tail: Bytes)
    requires LogFits(items, map[]) && Terminates(tail)
    ensures Printable(items)
    ensures Parse(PrintAll(items) + tail, map[]) == Parsed(Entries(items))
  {
    ParsePrinted(items, map[], tail);
    TerminatorStops(tail, SizesAfterAll(items, map[]));
    assert Entries(items) + [] == Entries(items);
  }

  /** A well-formed log with one to seven bytes behind it makes the parser panic: the source reads an
      eight-byte record head whenever any byte is left. */
  lemma ShortTailPanics(items: seq<Item>, tail: Bytes)
    requires LogFits(items, map[]) && 0 < |tail| < 8
    ensures Printable(items)
    ensures Parse(PrintAll(items) + tail, map[]).Panicked?
  {
    ParsePrinted(items, map[], tail);
  }
}
