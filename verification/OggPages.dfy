/** Ogg pages (sections 5 and 6 of RFC 3533) and what the demuxer makes of a buffer of them. */
module OggPages {
  import opened Bits
  import opened Chunks

  const MAGIC: seq<u8> := [0x4f, 0x67, 0x67, 0x53]

  const HEADER_SIZE: nat := 27

  predicate MagicAt(b: seq<u8>, i: nat) {
    i + 4 <= |b| && b[i..i + 4] == MAGIC
  }

  /** The first place from here on where a page may start; too near the end when there is none. */
  function FindMagic(b: seq<u8>, from: nat): (k: nat)
    ensures from <= k
    ensures k + 4 <= |b| ==> MagicAt(b, k)
    ensures forall j :: from <= j < k ==> !MagicAt(b, j)
    decreases |b| - from
  {
    if from + 4 > |b| || MagicAt(b, from) then from else FindMagic(b, from + 1)
  }

  function Sum(table: seq<u8>): (n: nat) {
    if table == [] then 0 else table[0] + Sum(table[1..])
  }

  lemma {:induction false} SumSnoc(table: seq<u8>, x: u8)
    ensures Sum(table + [x]) == Sum(table) + x
  {
    if table != [] {
      SumSnoc(table[1..], x);
      assert (table + [x])[1..] == table[1..] + [x];
    }
  }

  lemma SumTake(table: seq<u8>, i: nat)
    requires i < |table|
    ensures Sum(table[..i + 1]) == Sum(table[..i]) + table[i]
  {
    SumSnoc(table[..i], table[i]);
    assert table[..i] + [table[i]] == table[..i + 1];
  }

  /** What can be done with the bytes at hand: nothing yet, drop some, or take a page. */
  datatype Action = Wait | Skip(to: nat) | Page(size: nat)

  function Next(b: seq<u8>): (a: Action)
    ensures a.Skip? ==> 0 < a.to <= |b|
    ensures a.Page? ==> HEADER_SIZE <= a.size <= |b|
  {
    if |b| < HEADER_SIZE then Wait
    else if !MagicAt(b, 0) then
      var k := FindMagic(b, 1);
      if k + 4 > |b| then Wait else Skip(k)
    else
      var header := HEADER_SIZE + b[26];
      if |b| < header then Wait
      else
        var size := header + Sum(b[HEADER_SIZE..header]);
        if |b| < size then Wait else Page(size)
  }

  // ---------------------------------------------------------------- what comes out

  /** What the demuxer tells its owner. */
  datatype Event =
    | Headers(data: seq<u8>, rate: u32, channels: u8, bitrate: u32)
    | Packet(data: seq<u8>, pts: u64)

  /** Everything the demuxer knows but the bytes it has not parsed. */
  datatype Stream = Stream(current: seq<u8>, headers: seq<u8>, emitted: nat,
    rate: u32, channels: u8, bitrate: u32, out: seq<Event>)

  function Fresh(): Stream {
    Stream([], [], 0, 44100, 2, 0, [])
  }

  function ReadU32Le(b: seq<u8>, i: nat): (v: u32)
    requires i + 4 <= |b|
  {
    var b0: int, b1: int, b2: int, b3: int := b[i], b[i + 1], b[i + 2], b[i + 3];
    b0 + 0x100 * b1 + 0x1_0000 * b2 + 0x100_0000 * b3
  }

  /** Bytes as a number, least significant first. */
  function LeVal(b: seq<u8>): nat {
    if b == [] then 0 else b[0] + 256 * LeVal(b[1..])
  }

  lemma {:induction false} LeBound(b: seq<u8>)
    ensures LeVal(b) < Pow2(8 * |b|)
  {
    if b != [] {
      LeBound(b[1..]);
      Pow2Add(8, 8 * (|b| - 1));
      Pow2Values();
    }
  }

  lemma LeBound8(b: seq<u8>)
    requires |b| == 8
    ensures LeVal(b) < 0x1_0000_0000_0000_0000
  {
    hide LeVal;
    LeBound(b);
    Pow2Add(32, 32);
    Pow2Values();
  }

  /** The identification header of Vorbis: "vorbis" after packet type 1. */
  predicate Identifies(packet: seq<u8>) {
    |packet| >= 30 && packet[0] == 0x01 && packet[1..7] == [0x76, 0x6f, 0x72, 0x62, 0x69, 0x73]
  }

  /** The format that the first packet announces, if it does. */
  function Announce(s: Stream, packet: seq<u8>): Stream {
    if s.emitted == 0 && Identifies(packet) then
      s.(rate := ReadU32Le(packet, 12), channels := packet[11], bitrate := ReadU32Le(packet, 20))
    else s
  }

  /** The identification header, field by field (section 4.2.2 of Vorbis I). */
  datatype Identification = Identification(version: u32, channels: u8, rate: u32, maximum: u32, nominal: u32,
    minimum: u32, blockSizes: u8, framing: u8)

  /** A 32-bit field, least significant byte first. */
  function Le32(x: u32): (b: seq<u8>)
    ensures |b| == 4
  {
    [x % 0x100, x / 0x100 % 0x100, x / 0x1_0000 % 0x100, x / 0x100_0000]
  }

  lemma Le32Read(x: u32, b: seq<u8>, i: nat)
    requires i + 4 <= |b| && b[i..i + 4] == Le32(x)
    ensures ReadU32Le(b, i) == x
  {
    var f := b[i..i + 4];
    assert f[0] == b[i] && f[1] == b[i + 1] && f[2] == b[i + 2] && f[3] == b[i + 3];
    FourDigits(x, f[0], f[1], f[2], f[3]);
  }

  /** Packet type, name, version, channels, rate, three bitrates, block sizes and framing bit. */
  function HeaderBytes(h: Identification): (b: seq<u8>)
    ensures |b| == 30
  {
    [1] + [0x76, 0x6f, 0x72, 0x62, 0x69, 0x73] + Le32(h.version) + [h.channels] + Le32(h.rate)
    + Le32(h.maximum) + Le32(h.nominal) + Le32(h.minimum) + [h.blockSizes] + [h.framing]
  }

  predicate BeginsWith(packet: seq<u8>, h: Identification) {
    HeaderBytes(h) <= packet
  }

  /** The format of a packet that begins with an identification header is the one in it; else the default one. */
  ghost predicate Announces(packet: seq<u8>, rate: u32, channels: u8, bitrate: u32) {
    && (forall h :: BeginsWith(packet, h) ==> rate == h.rate && channels == h.channels && bitrate == h.nominal)
    && ((forall h :: !BeginsWith(packet, h)) ==> rate == 44100 && channels == 2 && bitrate == 0)
  }

  lemma HeaderSlices(packet: seq<u8>, h: Identification)
    requires BeginsWith(packet, h)
    ensures Identifies(packet) && packet[11] == h.channels
    ensures packet[12..16] == Le32(h.rate) && packet[20..24] == Le32(h.nominal)
  {
    hide Le32;
    var b := HeaderBytes(h);
    assert b[1..7] == [0x76, 0x6f, 0x72, 0x62, 0x69, 0x73];
    assert b[12..16] == Le32(h.rate) && b[20..24] == Le32(h.nominal);
    assert packet[..30] == b;
    assert packet[1..7] == b[1..7] && packet[12..16] == b[12..16] && packet[20..24] == b[20..24];
  }

  /** A header assembled field by field announces just its rate, its channels and its nominal bitrate. */
  lemma AnnouncedAsWritten(s: Stream, packet: seq<u8>, h: Identification)
    requires s.emitted == 0 && BeginsWith(packet, h)
    ensures Announce(s, packet) == s.(rate := h.rate, channels := h.channels, bitrate := h.nominal)
  {
    hide HeaderBytes, Le32, ReadU32Le;
    HeaderSlices(packet, h);
    Le32Read(h.rate, packet, 12);
    Le32Read(h.nominal, packet, 20);
  }

  /** Four bytes are the field they read as. */
  lemma Le32Written(b: seq<u8>, i: nat)
    requires i + 4 <= |b|
    ensures b[i..i + 4] == Le32(ReadU32Le(b, i))
  {
    FourDigits(ReadU32Le(b, i), b[i], b[i + 1], b[i + 2], b[i + 3]);
    assert Le32(ReadU32Le(b, i)) == [b[i], b[i + 1], b[i + 2], b[i + 3]];
  }

  /** Only packets that begin with such a header are taken for one. */
  lemma IdentifiesOnly(packet: seq<u8>)
    ensures Identifies(packet) <==> exists h :: BeginsWith(packet, h)
  {
    if h :| BeginsWith(packet, h) {
      HeaderSlices(packet, h);
    }
    if Identifies(packet) {
      hide Le32, ReadU32Le;
      var h := Identification(ReadU32Le(packet, 7), packet[11], ReadU32Le(packet, 12), ReadU32Le(packet, 16),
        ReadU32Le(packet, 20), ReadU32Le(packet, 24), packet[28], packet[29]);
      Le32Written(packet, 7);
      Le32Written(packet, 12);
      Le32Written(packet, 16);
      Le32Written(packet, 20);
      Le32Written(packet, 24);
      HeaderAssembled(packet, h);
    }
  }

  lemma HeaderAssembled(packet: seq<u8>, h: Identification)
    requires |packet| >= 30 && packet[0] == 1 && packet[1..7] == [0x76, 0x6f, 0x72, 0x62, 0x69, 0x73]
    requires packet[7..11] == Le32(h.version) && packet[11] == h.channels && packet[12..16] == Le32(h.rate)
    requires packet[16..20] == Le32(h.maximum) && packet[20..24] == Le32(h.nominal)
    requires packet[24..28] == Le32(h.minimum) && packet[28] == h.blockSizes && packet[29] == h.framing
    ensures BeginsWith(packet, h)
  {
    hide Le32;
    assert packet[..30] == packet[..1] + packet[1..7] + packet[7..11] + packet[11..12] + packet[12..16]
      + packet[16..20] + packet[20..24] + packet[24..28] + packet[28..29] + packet[29..30];
    assert packet[..30] == HeaderBytes(h);
  }

  /** The demuxer's format is the announced one, whatever the packet. */
  lemma FormatAnnounced(packet: seq<u8>)
    ensures var t := Announce(Fresh(), packet);
      Announces(packet, t.rate, t.channels, t.bitrate)
  {
    hide BeginsWith;
    IdentifiesOnly(packet);
    forall h | BeginsWith(packet, h)
      ensures var t := Announce(Fresh(), packet);
        t.rate == h.rate && t.channels == h.channels && t.bitrate == h.nominal
    {
      AnnouncedAsWritten(Fresh(), packet, h);
    }
  }

  /** A whole packet: one of three headers, which go out together, or audio. */
  function Emit(s: Stream, packet: seq<u8>, pts: u64): Stream {
    if s.emitted >= 3 then s.(out := s.out + [Packet(packet, pts)])
    else
      var t := Announce(s, packet);
      var headers := t.headers + packet;
      t.(headers := headers, emitted := t.emitted + 1,
         out := if t.emitted == 2 then t.out + [Headers(headers, t.rate, t.channels, t.bitrate)] else t.out)
  }

  /** One segment: a short one ends the packet. */
  function AddSegment(s: Stream, body: seq<u8>, pts: u64): Stream {
    var t := s.(current := s.current + body);
    if |body| < 255 then Emit(t.(current := []), t.current, pts) else t
  }

  /** The segments of a page; only a packet that ends with the page gets the page's time. */
  function Lace(s: Stream, table: seq<u8>, data: seq<u8>, pts: u64): Stream
    requires Sum(table) == |data|
    decreases |table|
  {
    if table == [] then s
    else
      var n := table[0];
      Lace(AddSegment(s, data[..n], if |table| == 1 then pts else 0), table[1..], data[n..], pts)
  }

  /** A granule position in milliseconds; the product wraps at 64 bits. */
  function Milliseconds(granule: u64, rate: u32): (ms: u64) {
    if rate == 0 then 0
    else
      var product := (granule * 1000) % 0x1_0000_0000_0000_0000;
      MulMono(1, rate, product + 1);
      QuotientFits(product, rate, product + 1);
      product / rate
  }

  /** Rounded down; the count of samples times 1000 loses what is beyond 64 bits, if anything. */
  lemma MillisecondsBounds(granule: u64, rate: u32)
    ensures rate == 0 ==> Milliseconds(granule, rate) == 0
    ensures rate > 0 ==>
      var ms, product := Milliseconds(granule, rate), granule * 1000 % 0x1_0000_0000_0000_0000;
      && ms * rate <= product < (ms + 1) * rate
      && (granule * 1000 < 0x1_0000_0000_0000_0000 ==> product == granule * 1000)
  {
    if rate > 0 {
      var product := granule * 1000 % 0x1_0000_0000_0000_0000;
      DivMod(product, rate);
      MulDistribute(product / rate, 1, rate);
    }
  }

  /** Byte i is the number's base-256 digit i, the first byte the lowest. */
  lemma {:induction false} LeDigit(b: seq<u8>, i: nat)
    requires i < |b|
    ensures LeVal(b) / Pow2(8 * i) % 256 == b[i]
  {
    if i == 0 {
      assert Pow2(0) == 1;
    } else {
      LeDigit(b[1..], i - 1);
      Pow2Add(8, 8 * (i - 1));
      Pow2Values();
      hide Pow2;
      assert LeVal(b) / 256 == LeVal(b[1..]);
      DivDiv(LeVal(b), 256, Pow2(8 * (i - 1)));
    }
  }

  function Granule(page: seq<u8>): (g: u64)
    requires |page| >= HEADER_SIZE
  {
    LeBound8(page[6..14]);
    LeVal(page[6..14])
  }

  function AddPage(s: Stream, page: seq<u8>): Stream
    requires |page| >= HEADER_SIZE && |page| >= HEADER_SIZE + page[26]
    requires |page| == HEADER_SIZE + page[26] + Sum(page[HEADER_SIZE..HEADER_SIZE + page[26]])
  {
    var header := HEADER_SIZE + page[26];
    Lace(s, page[HEADER_SIZE..header], page[header..], Milliseconds(Granule(page), s.rate))
  }

  lemma PageOf(b: seq<u8>)
    requires Next(b).Page?
    ensures var page := b[..Next(b).size];
      |page| >= HEADER_SIZE && |page| >= HEADER_SIZE + page[26]
      && |page| == HEADER_SIZE + page[26] + Sum(page[HEADER_SIZE..HEADER_SIZE + page[26]])
  {
    var page := b[..Next(b).size];
    var header := HEADER_SIZE + b[26];
    assert page[26] == b[26];
    assert page[HEADER_SIZE..header] == b[HEADER_SIZE..header];
  }

  /** Takes all the pages it can, and keeps the rest. */
  function Drain(s: Stream, b: seq<u8>): (r: (Stream, seq<u8>))
    decreases |b|
  {
    match Next(b)
    case Wait => (s, b)
    case Skip(k) => Drain(s, b[k..])
    case Page(n) =>
      PageOf(b);
      Drain(AddPage(s, b[..n]), b[n..])
  }

  // ---------------------------------------------------------------- boundaries do not matter

  lemma {:induction false} FindMagicLonger(a: seq<u8>, b: seq<u8>, from: nat)
    requires FindMagic(a, from) + 4 <= |a|
    ensures FindMagic(a + b, from) == FindMagic(a, from)
    decreases |a| - from
  {
    assert (a + b)[from..from + 4] == a[from..from + 4];
    if !MagicAt(a, from) {
      FindMagicLonger(a, b, from + 1);
    }
  }

  /** What can be done is still the thing to do when more bytes come. */
  lemma NextLonger(a: seq<u8>, b: seq<u8>)
    requires !Next(a).Wait?
    ensures Next(a + b) == Next(a)
  {
    hide Sum, FindMagic;
    assert (a + b)[0..4] == a[0..4];
    if !MagicAt(a, 0) {
      FindMagicLonger(a, b, 1);
    } else {
      var header := HEADER_SIZE + a[26];
      assert (a + b)[HEADER_SIZE..header] == a[HEADER_SIZE..header];
    }
  }

  /** Draining what has come and then what comes next is draining it all. */
  lemma {:induction false} DrainSplit(s: Stream, a: seq<u8>, b: seq<u8>)
    ensures var (t, rest) := Drain(s, a);
      Drain(s, a + b) == Drain(t, rest + b)
    decreases |a|
  {
    hide Next, AddPage;
    match Next(a)
    case Wait =>
    case Skip(k) =>
      NextLonger(a, b);
      DrainSplit(s, a[k..], b);
      assert (a + b)[k..] == a[k..] + b;
    case Page(n) =>
      NextLonger(a, b);
      PageOf(a);
      assert (a + b)[..n] == a[..n];
      DrainSplit(AddPage(s, a[..n]), a[n..], b);
      assert (a + b)[n..] == a[n..] + b;
  }

  /** Pushing pieces one after another, from a state and the bytes it has kept. */
  function PushAll(s: Stream, kept: seq<u8>, pieces: seq<seq<u8>>): (r: (Stream, seq<u8>))
    decreases |pieces|
  {
    if pieces == [] then (s, kept)
    else
      var (t, rest) := Drain(s, kept + pieces[0]);
      PushAll(t, rest, pieces[1..])
  }

  /** However a stream is cut, pushing the pieces ends as pushing the whole does. */
  lemma {:induction false} PiecesAreWhole(s: Stream, kept: seq<u8>, pieces: seq<seq<u8>>)
    requires pieces != [] || Next(kept).Wait?
    ensures PushAll(s, kept, pieces) == Drain(s, kept + Concat(pieces))
    decreases |pieces|
  {
    hide Next;
    if pieces == [] {
      assert kept + Concat(pieces) == kept;
      return;
    }
    hide Drain;
    var (t, rest) := Drain(s, kept + pieces[0]);
    assert kept + Concat(pieces) == (kept + pieces[0]) + Concat(pieces[1..]);
    DrainSplit(s, kept + pieces[0], Concat(pieces[1..]));
    DrainStops(s, kept + pieces[0]);
    PiecesAreWhole(t, rest, pieces[1..]);
  }

  /** What is kept is too little for another step. */
  lemma {:induction false} DrainStops(s: Stream, b: seq<u8>)
    ensures var (t, rest) := Drain(s, b);
      Next(rest).Wait? && Drain(t, rest) == (t, rest)
    decreases |b|
  {
    hide Next, AddPage;
    match Next(b)
    case Wait =>
    case Skip(k) => DrainStops(s, b[k..]);
    case Page(n) =>
      PageOf(b);
      DrainStops(AddPage(s, b[..n]), b[n..]);
  }
}
