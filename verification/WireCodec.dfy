/** The length-prefixed binary format (the `append_*` and `read_*` helpers of hydra-toolkit/src/lib.rs
    and attester/src/lib.rs). A message is a list of values; `Decode` is a parser that returns what
    is left of the input. Keys, scalars, signatures, proofs and proving keys are library objects,
    represented by their canonical encoding. */
module WireCodec {
  import opened Wrappers
  import opened HydraTypes

  datatype Kind = ScalarKind | SignatureKind | KeyKind | ProofKind | VkKind

  /** Foreign code: the canonical encoding of the object a library reads from some bytes, if any,
      and UTF-8 validity. */
  datatype Library = Library(decodeObject: (Kind, Bytes) -> Option<Bytes>, isUtf8: Bytes -> bool)

  datatype Value =
    | Blob(bytes: Bytes)
    | Text(bytes: Bytes)
    | Time(duration: Duration)
    | Object(kind: Kind, encoding: Bytes)
    | Objects(kind: Kind, encodings: seq<Bytes>)
    | Flags(flags: seq<bool>)
    | Nothing
    | Just(value: Value)

  datatype Shape =
    | BlobShape
    | TextShape
    | TimeShape
    | ObjectShape(kind: Kind)
    | ObjectsShape(kind: Kind)
    | FlagsShape
    | OptionShape(shape: Shape)

  datatype Parsed<+T> = Got(value: T, rest: Bytes) | Failed

  const U64_LIMIT: nat := 0x1_0000_0000_0000_0000
  const NANOS_PER_SEC: nat := 1_000_000_000

  // ----- big-endian integers

  /** The low `k` bytes of `n`, most significant first. */
  function ToBigEndian(n: nat, k: nat): (r: Bytes)
    ensures |r| == k
  {
    if k == 0 then [] else ToBigEndian(n / 256, k - 1) + [n % 256]
  }

  lemma {:induction false} BigEndianRoundTrip(n: nat, k: nat)
    requires n < Pow256(k)
    ensures BigEndian(ToBigEndian(n, k)) == n
    decreases k
  {
    if k > 0 {
      BigEndianRoundTrip(n / 256, k - 1);
      var r := ToBigEndian(n, k);
      assert r[..|r| - 1] == ToBigEndian(n / 256, k - 1);
    }
  }

  lemma {:induction false} BigEndianBound(b: Bytes)
    ensures BigEndian(b) < Pow256(|b|)
  {
    if b != [] {
      BigEndianBound(b[..|b| - 1]);
    }
  }

  lemma EightBytes()
    ensures Pow256(8) == U64_LIMIT && Pow256(4) == 0x1_0000_0000
  {
    assert Pow256(2) == 0x1_0000;
    assert Pow256(4) == 0x1_0000_0000;
    assert Pow256(6) == 0x1_0000_0000_0000;
  }

  function U64(n: nat): (r: Bytes)
    ensures |r| == 8
  {
    ToBigEndian(n, 8)
  }

  function ReadUint(s: Bytes, k: nat): Parsed<nat> {
    if |s| < k then Failed else Got(BigEndian(s[..k]), s[k..])
  }

  lemma ReadUintOf(n: nat, k: nat, rest: Bytes)
    requires n < Pow256(k)
    ensures ReadUint(ToBigEndian(n, k) + rest, k) == Got(n, rest)
  {
    var e := ToBigEndian(n, k);
    BigEndianRoundTrip(n, k);
    assert (e + rest)[..k] == e && (e + rest)[k..] == rest;
  }

  // ----- length-prefixed bytes and lists

  function LenBytes(b: Bytes): Bytes {
    U64(|b|) + b
  }

  function ReadLenBytes(s: Bytes): Parsed<Bytes> {
    match ReadUint(s, 8)
    case Failed => Failed
    case Got(len, rest) => if |rest| < len then Failed else Got(rest[..len], rest[len..])
  }

  lemma ReadLenBytesOf(b: Bytes, rest: Bytes)
    requires |b| < U64_LIMIT
    ensures ReadLenBytes(LenBytes(b) + rest) == Got(b, rest)
  {
    EightBytes();
    ReadUintOf(|b|, 8, b + rest);
    Associate(U64(|b|), b, rest);
    assert (b + rest)[..|b|] == b && (b + rest)[|b|..] == rest;
  }

  function ItemsBytes(items: seq<Bytes>): Bytes {
    if items == [] then [] else LenBytes(items[0]) + ItemsBytes(items[1..])
  }

  function ReadItems(lib: Library, kind: Kind, s: Bytes, count: nat): Parsed<seq<Bytes>> {
    if count == 0 then Got([], s)
    else
      match ReadObject(lib, kind, s)
      case Failed => Failed
      case Got(item, rest) =>
        match ReadItems(lib, kind, rest, count - 1)
        case Failed => Failed
        case Got(items, rest') => Got([item] + items, rest')
  }

  function ReadObject(lib: Library, kind: Kind, s: Bytes): Parsed<Bytes> {
    match ReadLenBytes(s)
    case Failed => Failed
    case Got(bytes, rest) =>
      match lib.decodeObject(kind, bytes)
      case None => Failed
      case Some(canonical) => Got(canonical, rest)
  }

  /** An encoding that the library reads back as itself. */
  predicate IsObject(lib: Library, kind: Kind, encoding: Bytes) {
    |encoding| < U64_LIMIT && lib.decodeObject(kind, encoding) == Some(encoding)
  }

  lemma {:induction false} ReadItemsOf(lib: Library, kind: Kind, items: seq<Bytes>, rest: Bytes)
    requires forall k :: 0 <= k < |items| ==> IsObject(lib, kind, items[k])
    ensures ReadItems(lib, kind, ItemsBytes(items) + rest, |items|) == Got(items, rest)
  {
    if items == [] {
      assert [] + rest == rest;
    } else {
      var more := ItemsBytes(items[1..]) + rest;
      ReadObjectOf(lib, kind, items[0], more);
      ReadItemsOf(lib, kind, items[1..], rest);
      Associate(LenBytes(items[0]), ItemsBytes(items[1..]), rest);
      assert items == [items[0]] + items[1..];
    }
  }

  lemma ReadObjectOf(lib: Library, kind: Kind, encoding: Bytes, rest: Bytes)
    requires IsObject(lib, kind, encoding)
    ensures ReadObject(lib, kind, LenBytes(encoding) + rest) == Got(encoding, rest)
  {
    ReadLenBytesOf(encoding, rest);
  }

  function FlagBytes(flags: seq<bool>): (r: Bytes)
    ensures |r| == |flags|
  {
    if flags == [] then [] else [if flags[0] then 1 else 0] + FlagBytes(flags[1..])
  }

  function ReadFlags(s: Bytes, count: nat): Parsed<seq<bool>> {
    if count == 0 then Got([], s)
    else if s == [] || s[0] > 1 then Failed
    else
      match ReadFlags(s[1..], count - 1)
      case Failed => Failed
      case Got(flags, rest) => Got([s[0] == 1] + flags, rest)
  }

  lemma {:induction false} ReadFlagsOf(flags: seq<bool>, rest: Bytes)
    ensures ReadFlags(FlagBytes(flags) + rest, |flags|) == Got(flags, rest)
  {
    if flags == [] {
      assert [] + rest == rest;
    } else {
      assert (FlagBytes(flags) + rest)[1..] == FlagBytes(flags[1..]) + rest;
      ReadFlagsOf(flags[1..], rest);
      assert flags == [flags[0]] + flags[1..];
    }
  }

  // ----- durations

  function TimeBytes(d: Duration): Bytes {
    U64(d.secs) + ToBigEndian(d.nanos, 4)
  }

  /** `Duration::new` carries whole seconds out of the nanoseconds, and panics when that overflows. */
  function ReadTime(s: Bytes): Parsed<Duration> {
    match ReadUint(s, 8)
    case Failed => Failed
    case Got(secs, rest) =>
      match ReadUint(rest, 4)
      case Failed => Failed
      case Got(nanos, rest') =>
        if secs + nanos / NANOS_PER_SEC >= U64_LIMIT then Failed
        else Got(Duration(secs + nanos / NANOS_PER_SEC, nanos % NANOS_PER_SEC), rest')
  }

  predicate IsTime(d: Duration) {
    d.secs < U64_LIMIT && d.nanos < NANOS_PER_SEC
  }

  lemma ReadTimeOf(d: Duration, rest: Bytes)
    requires IsTime(d)
    ensures ReadTime(TimeBytes(d) + rest) == Got(d, rest)
  {
    EightBytes();
    ReadUintOf(d.secs, 8, ToBigEndian(d.nanos, 4) + rest);
    ReadUintOf(d.nanos, 4, rest);
    Associate(U64(d.secs), ToBigEndian(d.nanos, 4), rest);
  }

  // ----- values

  function Encode(v: Value): Bytes {
    match v
    case Blob(b) => LenBytes(b)
    case Text(b) => LenBytes(b)
    case Time(d) => TimeBytes(d)
    case Object(_, e) => LenBytes(e)
    case Objects(_, es) => U64(|es|) + ItemsBytes(es)
    case Flags(fs) => U64(|fs|) + FlagBytes(fs)
    case Nothing => [0]
    case Just(w) => [1] + Encode(w)
  }

  function Decode(lib: Library, shape: Shape, s: Bytes): Parsed<Value> {
    match shape
    case BlobShape =>
      (match ReadLenBytes(s)
       case Failed => Failed
       case Got(b, rest) => Got(Blob(b), rest))
    case TextShape =>
      (match ReadLenBytes(s)
       case Failed => Failed
       case Got(b, rest) => if lib.isUtf8(b) then Got(Text(b), rest) else Failed)
    case TimeShape =>
      (match ReadTime(s)
       case Failed => Failed
       case Got(d, rest) => Got(Time(d), rest))
    case ObjectShape(kind) =>
      (match ReadObject(lib, kind, s)
       case Failed => Failed
       case Got(e, rest) => Got(Object(kind, e), rest))
    case ObjectsShape(kind) =>
      (match ReadUint(s, 8)
       case Failed => Failed
       case Got(count, rest) =>
         match ReadItems(lib, kind, rest, count)
         case Failed => Failed
         case Got(es, rest') => Got(Objects(kind, es), rest'))
    case FlagsShape =>
      (match ReadUint(s, 8)
       case Failed => Failed
       case Got(count, rest) =>
         match ReadFlags(rest, count)
         case Failed => Failed
         case Got(fs, rest') => Got(Flags(fs), rest'))
    case OptionShape(inner) =>
      if s == [] then Failed
      else if s[0] == 0 then Got(Nothing, s[1..])
      else if s[0] == 1 then
        (match Decode(lib, inner, s[1..])
         case Failed => Failed
         case Got(v, rest) => Got(Just(v), rest))
      else Failed
  }

  /** The value has the shape, its lengths fit a 64-bit count, and its objects are canonical. */
  predicate Fits(lib: Library, shape: Shape, v: Value) {
    match (shape, v)
    case (BlobShape, Blob(b)) => |b| < U64_LIMIT
    case (TextShape, Text(b)) => |b| < U64_LIMIT && lib.isUtf8(b)
    case (TimeShape, Time(d)) => IsTime(d)
    case (ObjectShape(kind), Object(kind', e)) => kind == kind' && IsObject(lib, kind, e)
    case (ObjectsShape(kind), Objects(kind', es)) =>
      kind == kind' && |es| < U64_LIMIT && forall k :: 0 <= k < |es| ==> IsObject(lib, kind, es[k])
    case (FlagsShape, Flags(fs)) => |fs| < U64_LIMIT
    case (OptionShape(_), Nothing) => true
    case (OptionShape(inner), Just(w)) => Fits(lib, inner, w)
    case _ => false
  }

  /** Decoding inverts encoding, whatever bytes follow. */
  lemma {:induction false} DecodeOf(lib: Library, shape: Shape, v: Value, rest: Bytes)
    requires Fits(lib, shape, v)
    ensures Decode(lib, shape, Encode(v) + rest) == Got(v, rest)
    decreases shape
  {
    match v
    case Blob(b) => ReadLenBytesOf(b, rest);
    case Text(b) => ReadLenBytesOf(b, rest);
    case Time(d) => ReadTimeOf(d, rest);
    case Object(kind, e) => ReadObjectOf(lib, kind, e, rest);
    case Objects(kind, es) => DecodeObjectsOf(lib, kind, es, rest);
    case Flags(fs) => DecodeFlagsOf(lib, fs, rest);
    case Nothing => FirstByte(0, [], rest);
    case Just(w) =>
      FirstByte(1, Encode(w), rest);
      DecodeOf(lib, shape.shape, w, rest);
  }

  lemma FirstByte(tag: byte, body: Bytes, rest: Bytes)
    ensures ([tag] + body) + rest == [tag] + (body + rest)
    ensures (([tag] + body) + rest)[0] == tag
    ensures (([tag] + body) + rest)[1..] == body + rest
    ensures body == [] ==> body + rest == rest && [tag] + body == [tag]
  {
  }

  lemma DecodeObjectsOf(lib: Library, kind: Kind, es: seq<Bytes>, rest: Bytes)
    requires Fits(lib, ObjectsShape(kind), Objects(kind, es))
    ensures Decode(lib, ObjectsShape(kind), Encode(Objects(kind, es)) + rest) == Got(Objects(kind, es), rest)
  {
    EightBytes();
    ReadUintOf(|es|, 8, ItemsBytes(es) + rest);
    Associate(U64(|es|), ItemsBytes(es), rest);
    ReadItemsOf(lib, kind, es, rest);
  }

  lemma DecodeFlagsOf(lib: Library, fs: seq<bool>, rest: Bytes)
    requires |fs| < U64_LIMIT
    ensures Decode(lib, FlagsShape, Encode(Flags(fs)) + rest) == Got(Flags(fs), rest)
  {
    EightBytes();
    ReadUintOf(|fs|, 8, FlagBytes(fs) + rest);
    Associate(U64(|fs|), FlagBytes(fs), rest);
    ReadFlagsOf(fs, rest);
  }

  // ----- messages: lists of values

  function EncodeAll(vs: seq<Value>): Bytes {
    if vs == [] then [] else Encode(vs[0]) + EncodeAll(vs[1..])
  }

  function DecodeAll(lib: Library, shapes: seq<Shape>, s: Bytes): Parsed<seq<Value>> {
    if shapes == [] then Got([], s)
    else
      match Decode(lib, shapes[0], s)
      case Failed => Failed
      case Got(v, rest) =>
        match DecodeAll(lib, shapes[1..], rest)
        case Failed => Failed
        case Got(vs, rest') => Got([v] + vs, rest')
  }

  predicate FitAll(lib: Library, shapes: seq<Shape>, vs: seq<Value>) {
    |shapes| == |vs| && forall k :: 0 <= k < |vs| ==> Fits(lib, shapes[k], vs[k])
  }

  /** The round trip of every message format: any list of shapes, any fitting values, any trailing
      bytes. */
  lemma {:induction false} DecodeAllOf(lib: Library, shapes: seq<Shape>, vs: seq<Value>, rest: Bytes)
    requires FitAll(lib, shapes, vs)
    ensures DecodeAll(lib, shapes, EncodeAll(vs) + rest) == Got(vs, rest)
    decreases |vs|
  {
    if vs == [] {
      assert [] + rest == rest;
    } else {
      Associate(Encode(vs[0]), EncodeAll(vs[1..]), rest);
      DecodeOf(lib, shapes[0], vs[0], EncodeAll(vs[1..]) + rest);
      DecodeAllOf(lib, shapes[1..], vs[1..], rest);
      assert vs == [vs[0]] + vs[1..];
    }
  }

  /** Two messages of one format with the same bytes are the same message. */
  lemma EncodingIsInjective(lib: Library, shapes: seq<Shape>, vs: seq<Value>, ws: seq<Value>)
    requires FitAll(lib, shapes, vs) && FitAll(lib, shapes, ws)
    requires EncodeAll(vs) == EncodeAll(ws)
    ensures vs == ws
  {
    DecodeAllOf(lib, shapes, vs, []);
    DecodeAllOf(lib, shapes, ws, []);
  }
}
