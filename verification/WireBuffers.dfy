/** The buffers the codec of hydra-toolkit/src/lib.rs works on: a vector that grows and a cursor that
    advances, proved against the functions of `WireCodec`. */
module WireBuffers {
  import opened Wrappers
  import opened HydraTypes
  import opened WireCodec

  lemma {:induction false} ItemsBytesSnoc(items: seq<Bytes>, item: Bytes)
    ensures ItemsBytes(items + [item]) == ItemsBytes(items) + LenBytes(item)
  {
    if items == [] {
      assert [item][1..] == [] && [] + [item] == [item];
    } else {
      ItemsBytesSnoc(items[1..], item);
      assert (items + [item])[1..] == items[1..] + [item];
    }
  }

  lemma {:induction false} FlagBytesSnoc(flags: seq<bool>, flag: bool)
    ensures FlagBytes(flags + [flag]) == FlagBytes(flags) + [if flag then 1 else 0]
  {
    if flags == [] {
      assert [flag][1..] == [] && [] + [flag] == [flag];
    } else {
      FlagBytesSnoc(flags[1..], flag);
      assert (flags + [flag])[1..] == flags[1..] + [flag];
    }
  }

  lemma ItemsOfPrefix(es: seq<Bytes>, k: nat)
    requires k < |es|
    ensures ItemsBytes(es[..k + 1]) == ItemsBytes(es[..k]) + LenBytes(es[k])
  {
    ItemsBytesSnoc(es[..k], es[k]);
    assert es[..k + 1] == es[..k] + [es[k]];
  }

  /** The growing output vector. */
  class ByteBuffer {
    var out: Bytes

    constructor ()
      ensures out == []
    {
      out := [];
    }

    method AppendLenBytes(b: Bytes)
      modifies this
      ensures out == old(out) + LenBytes(b)
    {
      out := out + U64(|b|);
      out := out + b;
    }

    method AppendObjects(es: seq<Bytes>)
      modifies this
      ensures out == old(out) + U64(|es|) + ItemsBytes(es)
    {
      out := out + U64(|es|);
      for k := 0 to |es|
        invariant out == old(out) + U64(|es|) + ItemsBytes(es[..k])
      {
        ItemsOfPrefix(es, k);
        AppendLenBytes(es[k]);
        Associate(old(out) + U64(|es|), ItemsBytes(es[..k]), LenBytes(es[k]));
      }
      assert es[..|es|] == es;
    }

    method AppendFlags(flags: seq<bool>)
      modifies this
      ensures out == old(out) + U64(|flags|) + FlagBytes(flags)
    {
      out := out + U64(|flags|);
      for k := 0 to |flags|
        invariant out == old(out) + U64(|flags|) + FlagBytes(flags[..k])
      {
        FlagBytesSnoc(flags[..k], flags[k]);
        assert flags[..k + 1] == flags[..k] + [flags[k]];
        out := out + [if flags[k] then 1 else 0];
      }
      assert flags[..|flags|] == flags;
    }

    method Append(v: Value)
      modifies this
      ensures out == old(out) + Encode(v)
      decreases v
    {
      match v {
        case Blob(b) => AppendLenBytes(b);
        case Text(b) => AppendLenBytes(b);
        case Time(d) =>
          out := out + U64(d.secs);
          out := out + ToBigEndian(d.nanos, 4);
          Associate(old(out), U64(d.secs), ToBigEndian(d.nanos, 4));
        case Object(_, e) => AppendLenBytes(e);
        case Objects(_, es) =>
          AppendObjects(es);
          Associate(old(out), U64(|es|), ItemsBytes(es));
        case Flags(fs) =>
          AppendFlags(fs);
          Associate(old(out), U64(|fs|), FlagBytes(fs));
        case Nothing => out := out + [0];
        case Just(w) =>
          out := out + [1];
          Append(w);
          Associate(old(out), [1], Encode(w));
      }
    }

    method AppendAll(vs: seq<Value>)
      modifies this
      ensures out == old(out) + EncodeAll(vs)
    {
      for k := 0 to |vs|
        invariant out + EncodeAll(vs[k..]) == old(out) + EncodeAll(vs)
      {
        assert vs[k..][1..] == vs[k + 1..];
        Append(vs[k]);
      }
    }
  }

  /** `items` read before what `p` still reads. */
  function After<T>(items: seq<T>, p: Parsed<seq<T>>): Parsed<seq<T>> {
    match p
    case Failed => Failed
    case Got(more, rest) => Got(items + more, rest)
  }

  /** `std::io::Cursor` over the input. After a failed read the position is of no interest: every
      caller gives up. */
  class Cursor {
    const data: Bytes
    var pos: nat

    ghost predicate Valid()
      reads this
    {
      pos <= |data|
    }

    ghost function Rest(): Bytes
      requires Valid()
      reads this
    {
      data[pos..]
    }

    constructor (data: Bytes)
      ensures Valid() && Rest() == data
    {
      this.data := data;
      pos := 0;
    }

    method ReadExact(n: nat) returns (r: Option<Bytes>)
      requires Valid()
      modifies this
      ensures Valid()
      ensures r.None? <==> |old(Rest())| < n
      ensures r.Some? ==> r.value == old(Rest())[..n] && Rest() == old(Rest())[n..]
    {
      if |data| - pos < n {
        return None;
      }
      r := Some(data[pos..pos + n]);
      pos := pos + n;
    }

    method ReadInt(k: nat) returns (r: Option<nat>)
      requires Valid()
      modifies this
      ensures Valid()
      ensures ReadUint(old(Rest()), k) == if r.None? then Failed else Got(r.value, Rest())
    {
      var b := ReadExact(k);
      r := if b.None? then None else Some(BigEndian(b.value));
    }

    method ReadPrefixed() returns (r: Option<Bytes>)
      requires Valid()
      modifies this
      ensures Valid()
      ensures ReadLenBytes(old(Rest())) == if r.None? then Failed else Got(r.value, Rest())
    {
      var len := ReadInt(8);
      if len.None? {
        return None;
      }
      r := ReadExact(len.value);
    }

    method ReadCanonical(lib: Library, kind: Kind) returns (r: Option<Bytes>)
      requires Valid()
      modifies this
      ensures Valid()
      ensures ReadObject(lib, kind, old(Rest())) == if r.None? then Failed else Got(r.value, Rest())
    {
      var b := ReadPrefixed();
      if b.None? {
        return None;
      }
      r := lib.decodeObject(kind, b.value);
    }

    method ReadList(lib: Library, kind: Kind, count: nat) returns (r: Option<seq<Bytes>>)
      requires Valid()
      modifies this
      ensures Valid()
      ensures ReadItems(lib, kind, old(Rest()), count) == if r.None? then Failed else Got(r.value, Rest())
    {
      var items: seq<Bytes> := [];
      AfterNothing(ReadItems(lib, kind, Rest(), count));
      for k := 0 to count
        invariant Valid()
        invariant ReadItems(lib, kind, old(Rest()), count) == After(items, ReadItems(lib, kind, Rest(), count - k))
      {
        ghost var p := ReadItems(lib, kind, Rest(), count - k);
        var item := ReadCanonical(lib, kind);
        if item.None? {
          return None;
        }
        AfterSnoc(items, item.value, ReadItems(lib, kind, Rest(), count - k - 1), p);
        items := items + [item.value];
      }
      NothingAfter(items, Rest());
      return Some(items);
    }

    method ReadBools(count: nat) returns (r: Option<seq<bool>>)
      requires Valid()
      modifies this
      ensures Valid()
      ensures ReadFlags(old(Rest()), count) == if r.None? then Failed else Got(r.value, Rest())
    {
      var flags: seq<bool> := [];
      AfterNothing(ReadFlags(Rest(), count));
      for k := 0 to count
        invariant Valid()
        invariant ReadFlags(old(Rest()), count) == After(flags, ReadFlags(Rest(), count - k))
      {
        ghost var p := ReadFlags(Rest(), count - k);
        var b := ReadExact(1);
        if b.None? || b.value[0] > 1 {
          return None;
        }
        AfterSnoc(flags, b.value[0] == 1, ReadFlags(Rest(), count - k - 1), p);
        flags := flags + [b.value[0] == 1];
      }
      NothingAfter(flags, Rest());
      return Some(flags);
    }

    method ReadDuration() returns (r: Option<Duration>)
      requires Valid()
      modifies this
      ensures Valid()
      ensures ReadTime(old(Rest())) == if r.None? then Failed else Got(r.value, Rest())
    {
      var secs := ReadInt(8);
      if secs.None? {
        return None;
      }
      var nanos := ReadInt(4);
      if nanos.None? || secs.value + nanos.value / NANOS_PER_SEC >= U64_LIMIT {
        return None;
      }
      return Some(Duration(secs.value + nanos.value / NANOS_PER_SEC, nanos.value % NANOS_PER_SEC));
    }

    method Read(lib: Library, shape: Shape) returns (r: Option<Value>)
      requires Valid()
      modifies this
      ensures Valid()
      ensures Decode(lib, shape, old(Rest())) == if r.None? then Failed else Got(r.value, Rest())
      decreases shape
    {
      match shape {
        case BlobShape =>
          var b := ReadPrefixed();
          return if b.None? then None else Some(Blob(b.value));
        case TextShape =>
          var b := ReadPrefixed();
          return if b.None? || !lib.isUtf8(b.value) then None else Some(Text(b.value));
        case TimeShape =>
          var d := ReadDuration();
          return if d.None? then None else Some(Time(d.value));
        case ObjectShape(kind) =>
          var e := ReadCanonical(lib, kind);
          return if e.None? then None else Some(Object(kind, e.value));
        case ObjectsShape(kind) =>
          var count := ReadInt(8);
          if count.None? {
            return None;
          }
          var es := ReadList(lib, kind, count.value);
          return if es.None? then None else Some(Objects(kind, es.value));
        case FlagsShape =>
          var count := ReadInt(8);
          if count.None? {
            return None;
          }
          var fs := ReadBools(count.value);
          return if fs.None? then None else Some(Flags(fs.value));
        case OptionShape(inner) =>
          var tag := ReadExact(1);
          if tag.None? || tag.value[0] > 1 {
            return None;
          }
          if tag.value[0] == 0 {
            return Some(Nothing);
          }
          var v := Read(lib, inner);
          return if v.None? then None else Some(Just(v.value));
      }
    }

    method ReadAll(lib: Library, shapes: seq<Shape>) returns (r: Option<seq<Value>>)
      requires Valid()
      modifies this
      ensures Valid()
      ensures DecodeAll(lib, shapes, old(Rest())) == if r.None? then Failed else Got(r.value, Rest())
    {
      var vs: seq<Value> := [];
      AfterNothing(DecodeAll(lib, shapes, Rest()));
      assert shapes[0..] == shapes;
      for k := 0 to |shapes|
        invariant Valid()
        invariant DecodeAll(lib, shapes, old(Rest())) == After(vs, DecodeAll(lib, shapes[k..], Rest()))
      {
        ghost var p := DecodeAll(lib, shapes[k..], Rest());
        assert shapes[k..][1..] == shapes[k + 1..];
        var v := Read(lib, shapes[k]);
        if v.None? {
          return None;
        }
        AfterSnoc(vs, v.value, DecodeAll(lib, shapes[k + 1..], Rest()), p);
        vs := vs + [v.value];
      }
      NothingAfter(vs, Rest());
      return Some(vs);
    }
  }

  lemma AfterNothing<T>(p: Parsed<seq<T>>)
    ensures After([], p) == p
  {
    if p.Got? {
      assert [] + p.value == p.value;
    }
  }

  lemma NothingAfter<T>(items: seq<T>, rest: Bytes)
    ensures After(items, Got([], rest)) == Got(items, rest)
  {
    assert items + [] == items;
  }

  lemma AfterSnoc<T>(items: seq<T>, item: T, later: Parsed<seq<T>>, p: Parsed<seq<T>>)
    requires p == match later case Failed => Failed case Got(more, rest) => Got([item] + more, rest)
    ensures After(items, p) == After(items + [item], later)
  {
    if later.Got? {
      assert items + ([item] + later.value) == items + [item] + later.value;
    }
  }
}
