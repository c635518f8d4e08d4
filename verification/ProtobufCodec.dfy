/** The writer and the reader as objects: a growing buffer, and a place in a fixed one. */
module ProtobufCodec {
  import opened Bits
  import opened Protobuf

  type i32 = x: int | -0x8000_0000 <= x < 0x8000_0000

  /** A 32-bit number as the 64 bits it is written with: its sign extends. */
  function SignExtended(v: i32): (r: u64) {
    if v < 0 then v + MAX64 else v
  }

  /** The number written is congruent to v modulo 2^64, and its upper 33 bits are all v's sign. */
  lemma SignExtension(v: i32)
    ensures (SignExtended(v) - v) % 0x1_0000_0000_0000_0000 == 0
    ensures SignExtended(v) / 0x8000_0000 == if v < 0 then 0x1_ffff_ffff else 0
  {
    if v < 0 {
      DivModUnique(SignExtended(v) - v, 0x1_0000_0000_0000_0000, 1, 0);
      DivModUnique(SignExtended(v), 0x8000_0000, 0x1_ffff_ffff, v + 0x8000_0000);
    }
  }

  class Writer {
    var buf: seq<u8>

    constructor ()
      ensures buf == []
    {
      buf := [];
    }

    method WriteVarint(v: u64)
      modifies this
      ensures buf == old(buf) + Varint(v)
    {
      var rest := v;
      while rest >= 0x80
        invariant 0 <= rest
        invariant buf + Varint(rest) == old(buf) + Varint(v)
      {
        assert Varint(rest) == [rest % 128 + 128] + Varint(rest / 128);
        buf := buf + [rest % 128 + 128];
        rest := rest / 128;
      }
      buf := buf + [rest];
    }

    method WriteTag(field: u32, wire: nat)
      requires wire < 8
      modifies this
      ensures buf == old(buf) + Tag(field, wire)
    {
      WriteVarint(field * 8 + wire);
    }

    method WriteUint64(field: u32, v: u64)
      modifies this
      ensures buf == old(buf) + Encode([Number(field, v)])
    {
      EncodeOne(Number(field, v));
      WriteTag(field, WIRE_VARINT);
      WriteVarint(v);
    }

    /** A negative number takes ten bytes. */
    method WriteInt32(field: u32, v: i32)
      modifies this
      ensures buf == old(buf) + Encode([Number(field, SignExtended(v))])
    {
      EncodeOne(Number(field, SignExtended(v)));
      WriteTag(field, WIRE_VARINT);
      WriteVarint(SignExtended(v));
    }

    method WriteBool(field: u32, v: bool)
      modifies this
      ensures buf == old(buf) + Encode([Number(field, if v then 1 else 0)])
    {
      EncodeOne(Number(field, if v then 1 else 0));
      WriteTag(field, WIRE_VARINT);
      WriteVarint(if v then 1 else 0);
    }

    method WriteBytes(field: u32, data: seq<u8>)
      requires |data| < MAX64
      modifies this
      ensures buf == old(buf) + Tag(field, WIRE_LEN) + Delimited(data)
    {
      WriteTag(field, WIRE_LEN);
      WriteVarint(|data|);
      buf := buf + data;
    }

    method WriteDouble(field: u32, bits: u64)
      modifies this
      ensures buf == old(buf) + Encode([Double(field, bits)])
    {
      hide Varint;
      EncodeOne(Double(field, bits));
      WriteTag(field, WIRE_64BIT);
      var rest: nat := bits;
      assert buf + LittleEndian(rest, 8) == old(buf) + (Tag(field, WIRE_64BIT) + LittleEndian(bits, 8));
      for i := 0 to 8
        invariant buf + LittleEndian(rest, 8 - i) == old(buf) + (Tag(field, WIRE_64BIT) + LittleEndian(bits, 8))
      {
        assert LittleEndian(rest, 8 - i) == [rest % 256] + LittleEndian(rest / 256, 8 - (i + 1));
        buf := buf + [rest % 256];
        rest := rest / 256;
      }
    }

    /** A field of any kind; a message is first written into a writer of its own. */
    method WriteField(f: Field)
      requires |Body(f)| < MAX64
      modifies this
      ensures buf == old(buf) + (Tag(f.field, WireOf(f)) + Body(f))
      decreases f, 0
    {
      hide Tag, Varint, LittleEndian;
      match f
      case Number(n, v) =>
        WriteUint64(n, v);
        EncodeOne(f);
      case Double(n, bits) =>
        WriteDouble(n, bits);
        EncodeOne(f);
      case Bytes(n, data) =>
        WriteBytes(n, data);
      case Message(n, fields) =>
        var inner := new Writer();
        inner.WriteFields(fields);
        WriteBytes(n, inner.buf);
    }

    method WriteFields(fields: seq<Field>)
      requires |Encode(fields)| < MAX64
      modifies this
      ensures buf == old(buf) + Encode(fields)
      decreases fields
    {
      hide Tag, Body;
      for i := 0 to |fields|
        invariant buf + Encode(fields[i..]) == old(buf) + Encode(fields)
        invariant |Encode(fields[i..])| < MAX64
      {
        EncodeNext(fields, i);
        WriteField(fields[i]);
      }
    }
  }

  lemma EncodeNext(fields: seq<Field>, i: nat)
    requires i < |fields|
    ensures Encode(fields[i..]) ==
      (Tag(fields[i].field, WireOf(fields[i])) + Body(fields[i])) + Encode(fields[i + 1..])
  {
  }

  // ---------------------------------------------------------------- reading

  /** What a reading method gives: a value, or the exception it throws. */
  datatype Outcome<T> = Value(value: T) | Thrown(error: Error)

  class Reader {
    const data: seq<u8>
    var p: nat
    const end: nat

    ghost predicate Valid()
      reads this
    {
      p <= end <= |data|
    }

    /** The bytes still to be read. */
    ghost function Rest(): (b: seq<u8>)
      requires Valid()
      reads this
    {
      data[p..end]
    }

    constructor (data: seq<u8>, from: nat, end: nat)
      requires from <= end <= |data|
      ensures Valid() && this.data == data && this.end == end && Rest() == data[from..end]
    {
      this.data, this.p, this.end := data, from, end;
    }

    method ReadVarint() returns (r: Outcome<u64>)
      requires Valid()
      modifies this`p
      ensures Valid() && p >= old(p)
      ensures match Protobuf.ReadVarint(old(Rest()))
        case Ok(v, rest) => r == Value(v) && Rest() == rest
        case Err(e) => r == Thrown(e)
    {
      hide Joined;
      var v: u64, shift: nat := 0, 0;
      while true
        invariant Valid() && p >= old(p)
        invariant VarintFrom(Rest(), v, shift) == VarintFrom(old(Rest()), 0, 0)
        decreases end - p
      {
        if p >= end {
          return Thrown(VarintTruncated);
        }
        var b := data[p];
        assert Rest()[0] == b && Rest()[1..] == data[p + 1..end];
        p := p + 1;
        v := Joined(v, b, shift);
        if b < 128 {
          return Value(v);
        }
        shift := shift + 7;
        if shift >= 70 {
          return Thrown(VarintTooLong);
        }
      }
    }

    method AtEnd() returns (r: bool)
      requires Valid()
      ensures r <==> Rest() == []
    {
      return p >= end;
    }

    /** The next tag, unless this is the end. */
    method ReadTag() returns (more: bool, r: Outcome<FieldTag>)
      requires Valid()
      modifies this`p
      ensures Valid() && p >= old(p)
      ensures more <==> old(Rest()) != []
      ensures !more ==> Rest() == old(Rest())
      ensures more ==> match Protobuf.ReadTag(old(Rest()))
        case Ok(t, rest) => r == Value(t) && Rest() == rest
        case Err(e) => r == Thrown(e)
    {
      hide Protobuf.ReadVarint;
      if p >= end {
        return false, Value(FieldTag(0, 0));
      }
      var t := ReadVarint();
      match t
      case Thrown(e) => return true, Thrown(e);
      case Value(v) => return true, Value(FieldTag(v / 8 % 0x1_0000_0000, v % 8));
    }

    /** A length and that many bytes, as a reader of their own. */
    method ReadLenDelim() returns (r: Outcome<Reader>)
      requires Valid()
      modifies this`p
      ensures Valid() && p >= old(p)
      ensures match ReadBytes(old(Rest()))
        case Ok(bytes, rest) =>
          r.Value? && fresh(r.value) && r.value.Valid() && r.value.Rest() == bytes && Rest() == rest
        case Err(e) => r == Thrown(e)
    {
      hide Protobuf.ReadVarint;
      var len := ReadVarint();
      match len
      case Thrown(e) => return Thrown(e);
      case Value(n) =>
        if n > end - p {
          return Thrown(PastEnd);
        }
        ghost var rest := Rest();
        var sub := new Reader(data, p, p + n);
        p := p + n;
        assert rest[..n] == sub.Rest() && rest[n..] == Rest();
        return Value(sub);
    }

    method ReadByteString() returns (r: Outcome<seq<u8>>)
      requires Valid()
      modifies this`p
      ensures Valid() && p >= old(p)
      ensures match ReadBytes(old(Rest()))
        case Ok(bytes, rest) => r == Value(bytes) && Rest() == rest
        case Err(e) => r == Thrown(e)
    {
      hide Protobuf.ReadVarint;
      var len := ReadVarint();
      match len
      case Thrown(e) => return Thrown(e);
      case Value(n) =>
        if n > end - p {
          return Thrown(PastEnd);
        }
        ghost var rest := Rest();
        var bytes := data[p..p + n];
        p := p + n;
        assert rest[..n] == bytes && rest[n..] == Rest();
        return Value(bytes);
    }

    /** Passes over a field of any wire type. */
    method SkipField(wire: nat) returns (r: Outcome<()>)
      requires Valid()
      modifies this`p
      ensures Valid() && p >= old(p)
      ensures match Protobuf.SkipField(old(Rest()), wire)
        case Ok(_, rest) => r == Value(()) && Rest() == rest
        case Err(e) => r == Thrown(e)
    {
      hide Protobuf.ReadVarint;
      if wire == WIRE_VARINT {
        var v := ReadVarint();
        return if v.Thrown? then Thrown(v.error) else Value(());
      }
      if wire == WIRE_LEN {
        var b := ReadByteString();
        return if b.Thrown? then Thrown(b.error) else Value(());
      }
      if wire != WIRE_64BIT && wire != WIRE_32BIT {
        return Thrown(UnknownWire);
      }
      var n := if wire == WIRE_64BIT then 8 else 4;
      if end - p < n {
        return Thrown(PastEnd);
      }
      ghost var rest := Rest();
      p := p + n;
      assert rest[n..] == Rest();
      return Value(());
    }

    /** Reads one field the way the session's message readers do. */
    method DecodeField(schema: Schema) returns (r: Outcome<seq<Field>>)
      requires Valid() && Rest() != []
      modifies this`p
      ensures Valid() && p >= old(p)
      ensures match Protobuf.DecodeField(old(Rest()), schema)
        case Ok(fs, rest) => r == Value(fs) && Rest() == rest && p > old(p)
        case Err(e) => r == Thrown(e)
      decreases |Rest()|, 0
    {
      hide Protobuf.ReadTag, Protobuf.ReadVarint, Protobuf.SkipField, ReadBytes, Decode;
      var _, tag := ReadTag();
      if tag.Thrown? {
        return Thrown(tag.error);
      }
      var t := tag.value;
      if t.wire == WIRE_VARINT {
        var v := ReadVarint();
        return if v.Thrown? then Thrown(v.error) else Value([Number(t.field, v.value)]);
      }
      if t.wire == WIRE_LEN {
        if t.field in schema.messages {
          var sub := ReadLenDelim();
          if sub.Thrown? {
            return Thrown(sub.error);
          }
          var fields := sub.value.DecodeFields(schema.messages[t.field]);
          return if fields.Thrown? then Thrown(fields.error) else Value([Message(t.field, fields.value)]);
        }
        var bytes := ReadByteString();
        return if bytes.Thrown? then Thrown(bytes.error) else Value([Bytes(t.field, bytes.value)]);
      }
      var skipped := SkipField(t.wire);
      return if skipped.Thrown? then Thrown(skipped.error) else Value([]);
    }

    /** Reads fields until the end. */
    method DecodeFields(schema: Schema) returns (r: Outcome<seq<Field>>)
      requires Valid()
      modifies this`p
      ensures Valid()
      ensures match Decode(old(Rest()), schema)
        case Ok(fs, _) => r == Value(fs)
        case Err(e) => r == Thrown(e)
      decreases |Rest()|, 1
    {
      hide Protobuf.DecodeField;
      var fields: seq<Field> := [];
      ghost var all := Decode(Rest(), schema);
      DecodeNext(fields, Rest(), schema);
      while p < end
        invariant Valid() && p >= old(p)
        invariant all == Prepended(fields, Decode(Rest(), schema))
        decreases end - p
      {
        DecodeNext(fields, Rest(), schema);
        var f := DecodeField(schema);
        if f.Thrown? {
          return Thrown(f.error);
        }
        fields := fields + f.value;
      }
      DecodeNext(fields, Rest(), schema);
      return Value(fields);
    }
  }

  lemma DecodeNext(before: seq<Field>, b: seq<u8>, schema: Schema)
    ensures Prepended([], Decode(b, schema)) == Decode(b, schema)
    ensures b == [] ==> Prepended(before, Decode(b, schema)) == Ok(before, [])
    ensures b != [] ==>
      Prepended(before, Decode(b, schema)) == Continued(before, Protobuf.DecodeField(b, schema), schema)
  {
    hide Protobuf.DecodeField;
    var d := Decode(b, schema);
    if d.Ok? {
      assert [] + d.value == d.value;
    }
    if b == [] {
      assert before + [] == before;
    } else if d.Ok? {
      var r := Protobuf.DecodeField(b, schema);
      var more := Decode(r.rest, schema);
      assert before + (r.value + more.value) == (before + r.value) + more.value;
    }
  }

  /** The outcome when one more field has been read. */
  ghost function Continued(before: seq<Field>, r: Result<seq<Field>>, schema: Schema): Result<seq<Field>> {
    match r
    case Err(e) => Err(e)
    case Ok(fs, rest) => Prepended(before + fs, Decode(rest, schema))
  }

  /** A message's fields with those read before. */
  ghost function Prepended(before: seq<Field>, r: Result<seq<Field>>): Result<seq<Field>> {
    match r
    case Err(e) => Err(e)
    case Ok(fs, rest) => Ok(before + fs, [])
  }
}
