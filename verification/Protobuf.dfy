/** The protobuf wire format as the session writes and reads it. */
module Protobuf {
  import opened Bits

  const WIRE_VARINT: nat := 0
  const WIRE_64BIT: nat := 1
  const WIRE_LEN: nat := 2
  const WIRE_32BIT: nat := 5

  const MAX64: nat := 0x1_0000_0000_0000_0000

  datatype Error = VarintTruncated | VarintTooLong | PastEnd | UnknownWire

  /** A value and the bytes after it, or the exception thrown. */
  datatype Result<T> = Ok(value: T, rest: seq<u8>) | Err(error: Error)

  // ---------------------------------------------------------------- varints

  function Varint(v: nat): (b: seq<u8>)
    ensures |b| >= 1
  {
    if v >= 128 then [v % 128 + 128] + Varint(v / 128) else [v]
  }

  /** The rest of a varint of which the low bits, up to shift, are r. */
  function VarintFrom(b: seq<u8>, r: u64, shift: nat): (result: Result<u64>)
    ensures result.Ok? ==> |result.rest| < |b|
    decreases |b|
  {
    if b == [] then Err(VarintTruncated)
    else
      var next := Joined(r, b[0], shift);
      if b[0] < 128 then Ok(next, b[1..])
      else if shift + 7 >= 70 then Err(VarintTooLong)
      else VarintFrom(b[1..], next, shift + 7)
  }

  /** Seven more bits at their place; what is shifted out of 64 bits is lost. */
  function Joined(r: u64, b: u8, shift: nat): (next: u64) {
    DivMod(r + b % 128 * Pow2(shift), MAX64);
    (r + b % 128 * Pow2(shift)) % MAX64
  }

  function ReadVarint(b: seq<u8>): (result: Result<u64>)
    ensures result.Ok? ==> |result.rest| < |b|
  {
    VarintFrom(b, 0, 0)
  }

  lemma {:induction false} VarintBack(w: nat, r: u64, shift: nat, rest: seq<u8>)
    requires r + w * Pow2(shift) < MAX64
    ensures VarintFrom(Varint(w) + rest, r, shift) == Ok(r + w * Pow2(shift), rest)
    decreases w
  {
    hide Joined;
    var b := Varint(w) + rest;
    Split7(w, shift);
    if w >= 128 {
      assert b[0] == w % 128 + 128 && b[1..] == Varint(w / 128) + rest;
      JoinedFits(r, b[0], shift, w % 128);
      ShiftBound(w / 128, shift);
      VarintBack(w / 128, r + w % 128 * Pow2(shift), shift + 7, rest);
    } else {
      assert b[0] == w && b[1..] == rest;
      JoinedFits(r, b[0], shift, w);
    }
  }

  lemma Split7(w: nat, shift: nat)
    ensures w * Pow2(shift) == w % 128 * Pow2(shift) + w / 128 * Pow2(shift + 7)
    ensures w % 128 * Pow2(shift) >= 0 && w / 128 * Pow2(shift + 7) >= 0
  {
    Pow2Add(7, shift);
    assert Pow2(7) == 128;
    hide Pow2;
    var p := Pow2(shift);
    MulDistribute(w % 128, w / 128 * 128, p);
    MulAssoc(w / 128, 128, p);
    MulMono(0, w % 128, p);
    MulMono(0, w / 128, 128 * p);
  }

  lemma JoinedFits(r: u64, b: u8, shift: nat, low: nat)
    requires b % 128 == low && r + low * Pow2(shift) < MAX64
    ensures Joined(r, b, shift) == r + low * Pow2(shift)
  {
  }

  /** More bits to come means that they still fit. */
  lemma ShiftBound(w: nat, shift: nat)
    requires w >= 1 && w * Pow2(shift + 7) < MAX64
    ensures shift + 7 < 64
  {
    MulMono(1, w, Pow2(shift + 7));
    Pow2Add(32, 32);
    Pow2Values();
    if shift + 7 >= 64 {
      if shift + 7 > 64 {
        Pow2Mono(64, shift + 7);
      }
    }
  }

  /** A varint is read back whatever follows it. */
  lemma VarintRoundTrip(v: u64, rest: seq<u8>)
    ensures ReadVarint(Varint(v) + rest) == Ok(v, rest)
  {
    hide VarintFrom, Varint;
    assert Pow2(0) == 1;
    VarintBack(v, 0, 0, rest);
  }

  /** Byte i holds seven bits of the number, the lowest first; all but the last have their top bit set. */
  lemma {:induction false} VarintDigit(v: nat, i: nat)
    requires i < |Varint(v)|
    ensures Varint(v)[i] % 128 == v / Pow2(7 * i) % 128
    ensures Varint(v)[i] >= 128 <==> i + 1 < |Varint(v)|
    decreases i
  {
    if i == 0 {
      assert Pow2(0) == 1;
    } else {
      VarintDigit(v / 128, i - 1);
      SevenBits(i - 1);
      hide Pow2;
      DivDiv(v, 128, Pow2(7 * (i - 1)));
    }
  }

  lemma SevenBits(i: nat)
    ensures Pow2(7 * (i + 1)) == 128 * Pow2(7 * i)
  {
    Pow2Add(7, 7 * i);
    assert Pow2(7) == 128;
  }

  // ---------------------------------------------------------------- fields

  datatype Field =
    | Number(field: u32, value: u64)
    | Double(field: u32, bits: u64)
    | Bytes(field: u32, data: seq<u8>)
    | Message(field: u32, fields: seq<Field>)

  function Tag(field: u32, wire: nat): (b: seq<u8>)
    requires wire < 8
    ensures |b| >= 1
  {
    Varint(field * 8 + wire)
  }

  function LittleEndian(bits: nat, n: nat): (b: seq<u8>)
    ensures |b| == n
  {
    if n == 0 then [] else [bits % 256] + LittleEndian(bits / 256, n - 1)
  }

  /** Byte i is the number's base-256 digit i. */
  lemma {:induction false} LittleEndianDigit(bits: nat, n: nat, i: nat)
    requires i < n
    ensures LittleEndian(bits, n)[i] == bits / Pow2(8 * i) % 256
  {
    if i == 0 {
      assert Pow2(0) == 1;
    } else {
      LittleEndianDigit(bits / 256, n - 1, i - 1);
      Pow2Add(8, 8 * (i - 1));
      Pow2Values();
      hide Pow2;
      DivDiv(bits, 256, Pow2(8 * (i - 1)));
    }
  }

  function Delimited(data: seq<u8>): (b: seq<u8>) {
    Varint(|data|) + data
  }

  /** What follows a field's tag. */
  function Body(f: Field): (b: seq<u8>)
    decreases f, 0
  {
    match f
    case Number(_, v) => Varint(v)
    case Double(_, bits) => LittleEndian(bits, 8)
    case Bytes(_, data) => Delimited(data)
    case Message(_, fields) => Delimited(Encode(fields))
  }

  function WireOf(f: Field): (wire: nat)
    ensures wire < 8
  {
    match f
    case Number(_, _) => WIRE_VARINT
    case Double(_, _) => WIRE_64BIT
    case _ => WIRE_LEN
  }

  function Encode(fields: seq<Field>): (b: seq<u8>)
    decreases fields
  {
    if fields == [] then []
    else Tag(fields[0].field, WireOf(fields[0])) + Body(fields[0]) + Encode(fields[1..])
  }

  datatype FieldTag = FieldTag(field: u32, wire: nat)

  function ReadTag(b: seq<u8>): (result: Result<FieldTag>)
    ensures result.Ok? ==> |result.rest| < |b|
  {
    match ReadVarint(b)
    case Err(e) => Err(e)
    case Ok(t, rest) => Ok(FieldTag(t / 8 % 0x1_0000_0000, t % 8), rest)
  }

  function ReadBytes(b: seq<u8>): (result: Result<seq<u8>>)
    ensures result.Ok? ==> |result.rest| < |b| && |result.value| < |b|
  {
    match ReadVarint(b)
    case Err(e) => Err(e)
    case Ok(n, rest) => if n > |rest| then Err(PastEnd) else Ok(rest[..n], rest[n..])
  }

  function SkipField(b: seq<u8>, wire: nat): (result: Result<()>)
    ensures result.Ok? ==> |result.rest| <= |b|
  {
    if wire == WIRE_VARINT then
      match ReadVarint(b) { case Err(e) => Err(e) case Ok(_, rest) => Ok((), rest) }
    else if wire == WIRE_64BIT then if |b| < 8 then Err(PastEnd) else Ok((), b[8..])
    else if wire == WIRE_LEN then
      match ReadBytes(b) { case Err(e) => Err(e) case Ok(_, rest) => Ok((), rest) }
    else if wire == WIRE_32BIT then if |b| < 4 then Err(PastEnd) else Ok((), b[4..])
    else Err(UnknownWire)
  }

  /** The widths that are skipped, and the wire types that cannot be. */
  lemma SkipWidths(b: seq<u8>, wire: nat)
    ensures wire == 1 ==> SkipField(b, wire) == if |b| < 8 then Err(PastEnd) else Ok((), b[8..])
    ensures wire == 5 ==> SkipField(b, wire) == if |b| < 4 then Err(PastEnd) else Ok((), b[4..])
    ensures wire != 0 && wire != 1 && wire != 2 && wire != 5 ==> SkipField(b, wire) == Err(UnknownWire)
  {
    hide ReadVarint, ReadBytes;
  }

  /** Fields of each kind as bytes: number 1 of value 150, text 2, eight bytes as 1, and a message as 3. */
  lemma EncodedExamples()
    ensures Encode([Number(1, 150)]) == [0x08, 0x96, 0x01]
    ensures Encode([Bytes(2, [0x68, 0x69])]) == [0x12, 0x02, 0x68, 0x69]
    ensures Encode([Double(1, 258)]) == [0x09, 2, 1, 0, 0, 0, 0, 0, 0]
    ensures Encode([Message(3, [Number(1, 150)])]) == [0x1a, 0x03, 0x08, 0x96, 0x01]
  {
    hide Tag, Varint, LittleEndian;
    EncodeOne(Number(1, 150));
    EncodeOne(Bytes(2, [0x68, 0x69]));
    EncodeOne(Double(1, 258));
    EncodeOne(Message(3, [Number(1, 150)]));
    SmallVarints();
    EightBytesOf258();
  }

  lemma SmallVarints()
    ensures Varint(150) == [0x96, 0x01] && Varint(2) == [2] && Varint(3) == [3]
    ensures Tag(1, 0) == [0x08] && Tag(2, 2) == [0x12] && Tag(1, 1) == [0x09] && Tag(3, 2) == [0x1a]
  {
  }

  lemma EightBytesOf258()
    ensures LittleEndian(258, 8) == [2, 1, 0, 0, 0, 0, 0, 0]
  {
    assert LittleEndian(0, 3) == [0, 0, 0];
    assert LittleEndian(0, 6) == [0, 0, 0, 0, 0, 0];
  }

  lemma EncodeOne(f: Field)
    ensures Encode([f]) == Tag(f.field, WireOf(f)) + Body(f)
  {
    hide Tag, Body;
    assert [f][1..] == [];
  }

  lemma TagRoundTrip(field: u32, wire: nat, rest: seq<u8>)
    requires wire < 8
    ensures ReadTag(Tag(field, wire) + rest) == Ok(FieldTag(field, wire), rest)
  {
    hide ReadVarint, Varint;
    VarintRoundTrip(field * 8 + wire, rest);
  }

  lemma DelimitedRoundTrip(data: seq<u8>, rest: seq<u8>)
    requires |data| < MAX64
    ensures ReadBytes(Delimited(data) + rest) == Ok(data, rest)
  {
    hide ReadVarint, Varint;
    VarintRoundTrip(|data|, data + rest);
    assert Delimited(data) + rest == Varint(|data|) + (data + rest);
    assert (data + rest)[..|data|] == data && (data + rest)[|data|..] == rest;
  }

  /** Skipping any field that can be written lands where the next one begins. */
  lemma SkipLands(f: Field, rest: seq<u8>)
    requires |Body(f)| < MAX64
    ensures SkipField(Body(f) + rest, WireOf(f)) == Ok((), rest)
  {
    hide ReadVarint, Varint, ReadBytes, Encode, LittleEndian;
    match f
    case Number(_, v) => VarintRoundTrip(v, rest);
    case Double(_, bits) => assert (Body(f) + rest)[8..] == rest;
    case Bytes(_, data) => DelimitedRoundTrip(data, rest);
    case Message(_, fields) => DelimitedRoundTrip(Encode(fields), rest);
  }

  // ---------------------------------------------------------------- messages

  /** Which fields of a message are messages themselves; the rest of the length-delimited ones are bytes. */
  datatype Schema = Schema(messages: map<u32, Schema>)

  predicate Conforms(fields: seq<Field>, schema: Schema)
    decreases fields
  {
    forall i :: 0 <= i < |fields| ==> FieldConforms(fields[i], schema)
  }

  predicate FieldConforms(f: Field, schema: Schema)
    decreases f, 0
  {
    match f
    case Message(n, fields) => n in schema.messages && Conforms(fields, schema.messages[n])
    case Bytes(n, _) => n !in schema.messages
    case _ => true
  }

  /** What a reader of the message sees: it has no way to read a double, and skips it. */
  function Seen(fields: seq<Field>): (r: seq<Field>)
    decreases fields
  {
    if fields == [] then [] else SeenField(fields[0]) + Seen(fields[1..])
  }

  function SeenField(f: Field): (r: seq<Field>)
    decreases f, 0
  {
    match f
    case Double(_, _) => []
    case Message(n, fields) => [Message(n, Seen(fields))]
    case _ => [f]
  }

  /** Reading a whole message by its schema. */
  function Decode(b: seq<u8>, schema: Schema): (result: Result<seq<Field>>)
    ensures result.Ok? ==> result.rest == []
    decreases |b|, 1
  {
    if b == [] then Ok([], [])
    else
      match DecodeField(b, schema)
      case Err(e) => Err(e)
      case Ok(fs, rest) =>
        match Decode(rest, schema)
        case Err(e) => Err(e)
        case Ok(more, _) => Ok(fs + more, [])
  }

  /** One field: none or one of what the reader sees. */
  function DecodeField(b: seq<u8>, schema: Schema): (result: Result<seq<Field>>)
    requires b != []
    ensures result.Ok? ==> |result.rest| < |b|
    decreases |b|, 0
  {
    match ReadTag(b)
    case Err(e) => Err(e)
    case Ok(t, rest) =>
      if t.wire == WIRE_VARINT then
        match ReadVarint(rest) { case Err(e) => Err(e) case Ok(v, rest') => Ok([Number(t.field, v)], rest') }
      else if t.wire == WIRE_LEN then
        match ReadBytes(rest)
        case Err(e) => Err(e)
        case Ok(data, rest') =>
          if t.field in schema.messages then
            match Decode(data, schema.messages[t.field])
            case Err(e) => Err(e)
            case Ok(fields, _) => Ok([Message(t.field, fields)], rest')
          else Ok([Bytes(t.field, data)], rest')
      else
        match SkipField(rest, t.wire) { case Err(e) => Err(e) case Ok(_, rest') => Ok([], rest') }
  }

  /** A field that is written is read back, whatever follows it. */
  lemma {:induction false} FieldRoundTrip(f: Field, schema: Schema, rest: seq<u8>)
    requires FieldConforms(f, schema) && |Body(f)| < MAX64
    ensures DecodeField(Tag(f.field, WireOf(f)) + Body(f) + rest, schema) == Ok(SeenField(f), rest)
    decreases f, 0
  {
    hide ReadTag, ReadVarint, ReadBytes, SkipField, Tag, Varint, LittleEndian, Conforms;
    var b := Tag(f.field, WireOf(f)) + (Body(f) + rest);
    assert Tag(f.field, WireOf(f)) + Body(f) + rest == b;
    TagRoundTrip(f.field, WireOf(f), Body(f) + rest);
    match f
    case Number(_, v) => VarintRoundTrip(v, rest);
    case Double(_, _) => SkipLands(f, rest);
    case Bytes(_, data) => DelimitedRoundTrip(data, rest);
    case Message(n, fields) =>
      DelimitedRoundTrip(Encode(fields), rest);
      MessageRoundTrip(fields, schema.messages[n]);
  }

  /** A message that is written is read back field by field, to any depth. */
  lemma {:induction false} MessageRoundTrip(fields: seq<Field>, schema: Schema)
    requires Conforms(fields, schema) && |Encode(fields)| < MAX64
    ensures Decode(Encode(fields), schema) == Ok(Seen(fields), [])
    decreases fields
  {
    hide Tag, Body, DecodeField, FieldConforms;
    if fields != [] {
      var f, rest := fields[0], Encode(fields[1..]);
      FieldRoundTrip(f, schema, rest);
      MessageRoundTrip(fields[1..], schema);
    }
  }

  /** No double at any depth. */
  predicate Plain(fields: seq<Field>)
    decreases fields
  {
    fields == [] || (PlainField(fields[0]) && Plain(fields[1..]))
  }

  predicate PlainField(f: Field)
    decreases f, 0
  {
    !f.Double? && (f.Message? ==> Plain(f.fields))
  }

  /** The reader sees all that was written exactly when there is no double in it. */
  lemma {:induction false} AllSeenIffPlain(fields: seq<Field>)
    ensures Seen(fields) == fields <==> Plain(fields)
    ensures |Seen(fields)| <= |fields|
    decreases fields
  {
    hide SeenField, PlainField;
    if fields != [] {
      var f, rest := fields[0], fields[1..];
      FieldSeenIffPlain(f);
      AllSeenIffPlain(rest);
      assert fields == [f] + rest;
      if SeenField(f) != [] {
        assert (SeenField(f) + Seen(rest))[0] == SeenField(f)[0];
        assert (SeenField(f) + Seen(rest))[1..] == Seen(rest);
      }
    }
  }

  lemma {:induction false} FieldSeenIffPlain(f: Field)
    ensures SeenField(f) == [f] <==> PlainField(f)
    ensures |SeenField(f)| <= 1
    decreases f, 0
  {
    if f.Message? {
      AllSeenIffPlain(f.fields);
    }
  }

  /** A message of one double is read back as an empty one. */
  lemma DoubleIsLost(field: u32, bits: u64, schema: Schema)
    ensures Decode(Encode([Double(field, bits)]), schema) == Ok([], [])
    ensures Seen([Double(field, bits)]) != [Double(field, bits)]
  {
    hide Encode, Decode, Varint;
    var f := Double(field, bits);
    assert FieldConforms(f, schema);
    ShortEncoding(f);
    MessageRoundTrip([f], schema);
  }

  lemma ShortEncoding(f: Field)
    requires f.Double?
    ensures |Encode([f])| < MAX64 && Seen([f]) == []
  {
    hide Varint;
    Pow2Values();
    Pow2Add(32, 10);
    VarintLength(f.field * 8 + WIRE_64BIT, 6);
    assert [f][1..] == [];
  }

  lemma {:induction false} VarintLength(v: nat, n: nat)
    requires n > 0 && v < Pow2(7 * n)
    ensures |Varint(v)| <= n
  {
    if v >= 128 {
      assert n > 1 by {
        assert Pow2(7) == 128;
      }
      Pow2Add(7, 7 * (n - 1));
      assert Pow2(7) == 128;
      VarintLength(v / 128, n - 1);
    }
  }
}
