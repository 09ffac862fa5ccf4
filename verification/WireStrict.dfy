/** The other direction of the codec: bytes that are accepted are the encoding of what they decode to.
    Libraries that read only canonical encodings are assumed; the one exception is a duration whose
    nanoseconds exceed a second, which `Duration::new` normalizes. */
module WireStrict {
  import opened Wrappers
  import opened HydraTypes
  import opened WireCodec

  ghost predicate Strict(lib: Library) {
    forall kind, b, e :: lib.decodeObject(kind, b) == Some(e) ==> e == b
  }

  /** A duration read from `s` has less than a second of nanoseconds. */
  predicate NormalTime(shape: Shape, s: Bytes)
    decreases shape
  {
    match shape
    case TimeShape => |s| >= 12 && BigEndian(s[8..12]) < NANOS_PER_SEC
    case OptionShape(inner) => s != [] && s[0] == 1 ==> NormalTime(inner, s[1..])
    case _ => true
  }

  lemma {:induction false} BigEndianBack(b: Bytes)
    ensures ToBigEndian(BigEndian(b), |b|) == b
  {
    if b != [] {
      var m := |b| - 1;
      BigEndianBack(b[..m]);
      assert BigEndian(b) / 256 == BigEndian(b[..m]) && BigEndian(b) % 256 == b[m];
      assert b == b[..m] + [b[m]];
    }
  }

  lemma UintExact(s: Bytes, k: nat)
    requires |s| >= k
    ensures ReadUint(s, k) == Got(BigEndian(s[..k]), s[k..])
    ensures s == ToBigEndian(BigEndian(s[..k]), k) + s[k..]
  {
    BigEndianBack(s[..k]);
  }

  lemma {:induction false} LenBytesExact(s: Bytes)
    ensures ReadLenBytes(s).Got? ==> s == LenBytes(ReadLenBytes(s).value) + ReadLenBytes(s).rest
  {
    if |s| >= 8 {
      UintExact(s, 8);
      var len, rest := BigEndian(s[..8]), s[8..];
      if |rest| >= len {
        assert rest == rest[..len] + rest[len..];
        Associate(U64(len), rest[..len], rest[len..]);
      }
    }
  }

  lemma ObjectExact(lib: Library, kind: Kind, s: Bytes)
    requires Strict(lib)
    ensures var r := ReadObject(lib, kind, s); r.Got? ==> s == LenBytes(r.value) + r.rest
  {
    LenBytesExact(s);
  }

  lemma {:induction false} ConsItems(item: Bytes, items: seq<Bytes>, rest: Bytes)
    ensures ItemsBytes([item] + items) + rest == LenBytes(item) + (ItemsBytes(items) + rest)
  {
    assert ([item] + items)[1..] == items;
    Associate(LenBytes(item), ItemsBytes(items), rest);
  }

  lemma {:induction false} ItemsExact(lib: Library, kind: Kind, s: Bytes, count: nat)
    requires Strict(lib)
    ensures var r := ReadItems(lib, kind, s, count);
            r.Got? ==> |r.value| == count && s == ItemsBytes(r.value) + r.rest
    decreases count
  {
    if count > 0 {
      ObjectExact(lib, kind, s);
      var first := ReadObject(lib, kind, s);
      if first.Got? {
        ItemsExact(lib, kind, first.rest, count - 1);
        var more := ReadItems(lib, kind, first.rest, count - 1);
        if more.Got? {
          assert ReadItems(lib, kind, s, count) == Got([first.value] + more.value, more.rest);
          ConsItems(first.value, more.value, more.rest);
        }
      }
    }
  }

  lemma {:induction false} FlagsExact(s: Bytes, count: nat)
    ensures var r := ReadFlags(s, count);
            r.Got? ==> |r.value| == count && s == FlagBytes(r.value) + r.rest
    decreases count
  {
    if count > 0 && s != [] && s[0] <= 1 {
      FlagsExact(s[1..], count - 1);
      var more := ReadFlags(s[1..], count - 1);
      if more.Got? {
        var flag := s[0] == 1;
        assert ([flag] + more.value)[1..] == more.value;
        assert s == [s[0]] + s[1..];
        Associate([s[0]], FlagBytes(more.value), more.rest);
      }
    }
  }

  lemma {:induction false} TimeExact(s: Bytes)
    ensures var r := ReadTime(s);
            r.Got? ==> |s| >= 12 && (s == TimeBytes(r.value) + r.rest <==> BigEndian(s[8..12]) < NANOS_PER_SEC)
  {
    if ReadTime(s).Got? {
      UintExact(s, 8);
      UintExact(s[8..], 4);
      assert s[8..][..4] == s[8..12] && s[8..][4..] == s[12..];
      if BigEndian(s[8..12]) < NANOS_PER_SEC {
        assert ReadTime(s).value == Duration(BigEndian(s[..8]), BigEndian(s[8..12]));
        Associate(U64(BigEndian(s[..8])), ToBigEndian(BigEndian(s[8..12]), 4), s[12..]);
      } else {
        DifferentSecs(s, ReadTime(s).value);
      }
    }
  }

  /** Normalizing moves a carry into the seconds, so other bytes come back. */
  lemma {:induction false} DifferentSecs(s: Bytes, d: Duration)
    requires |s| >= 12 && d.nanos < NANOS_PER_SEC <= BigEndian(s[8..12])
    ensures s != TimeBytes(d) + s[12..]
  {
    var t := TimeBytes(d) + s[12..];
    if s == t {
      assert t[8..12] == ToBigEndian(d.nanos, 4);
      EightBytes();
      BigEndianRoundTrip(d.nanos, 4);
    }
  }

  /** Bytes that are accepted are exactly the encoding of the value, but for durations that are not
      normal. So no stray flag, option tag or length is let through. */
  lemma {:induction false} DecodeExact(lib: Library, shape: Shape, s: Bytes)
    requires Strict(lib)
    ensures var r := Decode(lib, shape, s);
            r.Got? ==> (s == Encode(r.value) + r.rest <==> NormalTime(shape, s))
    decreases shape, 1
  {
    match shape
    case BlobShape => LenBytesExact(s);
    case TextShape => LenBytesExact(s);
    case TimeShape => TimeExact(s);
    case ObjectShape(kind) => ObjectExact(lib, kind, s);
    case ObjectsShape(kind) => ObjectsExact(lib, kind, s);
    case FlagsShape => FlagListExact(lib, s);
    case OptionShape(inner) => OptionExact(lib, inner, s);
  }

  lemma ObjectsExact(lib: Library, kind: Kind, s: Bytes)
    requires Strict(lib)
    ensures var r := Decode(lib, ObjectsShape(kind), s); r.Got? ==> s == Encode(r.value) + r.rest
  {
    if |s| >= 8 {
      UintExact(s, 8);
      var r := ReadItems(lib, kind, s[8..], BigEndian(s[..8]));
      ItemsExact(lib, kind, s[8..], BigEndian(s[..8]));
      if r.Got? {
        Associate(U64(|r.value|), ItemsBytes(r.value), r.rest);
      }
    }
  }

  lemma FlagListExact(lib: Library, s: Bytes)
    ensures var r := Decode(lib, FlagsShape, s); r.Got? ==> s == Encode(r.value) + r.rest
  {
    if |s| >= 8 {
      UintExact(s, 8);
      var r := ReadFlags(s[8..], BigEndian(s[..8]));
      FlagsExact(s[8..], BigEndian(s[..8]));
      if r.Got? {
        Associate(U64(|r.value|), FlagBytes(r.value), r.rest);
      }
    }
  }

  lemma {:induction false} OptionExact(lib: Library, inner: Shape, s: Bytes)
    requires Strict(lib)
    ensures var r := Decode(lib, OptionShape(inner), s);
            r.Got? ==> (s == Encode(r.value) + r.rest <==> NormalTime(OptionShape(inner), s))
    decreases inner, 2
  {
    if s != [] {
      assert s == [s[0]] + s[1..];
      if s[0] == 1 {
        DecodeExact(lib, inner, s[1..]);
        var r := Decode(lib, inner, s[1..]);
        if r.Got? {
          FirstByte(1, Encode(r.value), r.rest);
        }
      }
    }
  }

  // ----- what is decoded fits the format

  lemma {:induction false} UintBound(s: Bytes)
    requires |s| >= 8
    ensures BigEndian(s[..8]) < U64_LIMIT
  {
    EightBytes();
    BigEndianBound(s[..8]);
  }

  lemma ObjectFits(lib: Library, kind: Kind, s: Bytes)
    requires Strict(lib)
    ensures ReadObject(lib, kind, s).Got? ==> IsObject(lib, kind, ReadObject(lib, kind, s).value)
  {
    if |s| >= 8 {
      UintBound(s);
    }
  }

  lemma {:induction false} ItemsFit(lib: Library, kind: Kind, s: Bytes, count: nat)
    requires Strict(lib)
    ensures var r := ReadItems(lib, kind, s, count);
            r.Got? ==> |r.value| == count && forall k :: 0 <= k < count ==> IsObject(lib, kind, r.value[k])
    decreases count
  {
    if count > 0 {
      ObjectFits(lib, kind, s);
      if ReadObject(lib, kind, s).Got? {
        ItemsFit(lib, kind, ReadObject(lib, kind, s).rest, count - 1);
      }
    }
  }

  /** Whatever the bytes, a decoded value has the shape asked for: text is UTF-8, objects are the
      library's, counts fit, durations are whole seconds of 64 bits and less than a second of nanoseconds. */
  lemma {:induction false} DecodedFits(lib: Library, shape: Shape, s: Bytes)
    requires Strict(lib)
    ensures Decode(lib, shape, s).Got? ==> Fits(lib, shape, Decode(lib, shape, s).value)
    decreases shape
  {
    if |s| >= 8 {
      UintBound(s);
    }
    match shape
    case ObjectShape(kind) => ObjectFits(lib, kind, s);
    case ObjectsShape(kind) =>
      if |s| >= 8 {
        ItemsFit(lib, kind, s[8..], BigEndian(s[..8]));
      }
    case FlagsShape =>
      if |s| >= 8 {
        FlagsExact(s[8..], BigEndian(s[..8]));
      }
    case OptionShape(inner) =>
      if s != [] && s[0] == 1 {
        DecodedFits(lib, inner, s[1..]);
      }
    case _ =>
  }

  // ----- whole messages

  /** All durations of a message are normal. */
  predicate NormalTimes(lib: Library, shapes: seq<Shape>, s: Bytes)
    decreases |shapes|
  {
    shapes != [] && Decode(lib, shapes[0], s).Got? ==>
      NormalTime(shapes[0], s) && NormalTimes(lib, shapes[1..], Decode(lib, shapes[0], s).rest)
  }

  /** A message that decodes, with normal durations, is the encoding of its values, whatever follows. */
  lemma {:induction false} DecodeAllExact(lib: Library, shapes: seq<Shape>, s: Bytes)
    requires Strict(lib) && NormalTimes(lib, shapes, s)
    ensures var r := DecodeAll(lib, shapes, s); r.Got? ==> s == EncodeAll(r.value) + r.rest
    decreases |shapes|
  {
    if shapes == [] {
      assert [] + s == s;
    } else {
      var first := Decode(lib, shapes[0], s);
      if first.Got? {
        DecodeExact(lib, shapes[0], s);
        DecodeAllExact(lib, shapes[1..], first.rest);
        var more := DecodeAll(lib, shapes[1..], first.rest);
        if more.Got? {
          assert ([first.value] + more.value)[1..] == more.value;
          Associate(Encode(first.value), EncodeAll(more.value), more.rest);
        }
      }
    }
  }
}
