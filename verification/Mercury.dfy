/** Replies that arrive in parts, cut over packets and mixed with those to other requests. */
module Mercury {
  import opened Bits
  import opened BigEndian
  import opened Chunks
  import Protobuf

  const MAX64: nat := 0x1_0000_0000_0000_0000
  const FINAL: u8 := 1
  const CONTINUED: u8 := 2

  /** What the header, the first part of a reply, says. */
  datatype Info = Info(uri: seq<u8>, status: int)

  const NO_INFO: Info := Info([], 0)

  /** What has come of a reply: whole parts, and the beginning of one that goes on in the next packet. */
  datatype Reply = Reply(parts: seq<seq<u8>>, partial: seq<u8>, done: bool, info: Info)

  const NOTHING: Reply := Reply([], [], false, NO_INFO)

  /** The requests under way, the next sequence number, the replies delivered, and whether the program has ended. */
  datatype Table = Table(pending: map<u64, Reply>, next: u64, completed: seq<(u64, Reply)>, stopped: bool)

  /** What a packet comes to; it fails when it is the last and the header cannot be read. */
  datatype Effect =
    | Ignored
    | Updated(seqNo: u64, reply: Reply)
    | Completed(seqNo: u64, reply: Reply)
    | Failed(seqNo: u64, reply: Reply)

  // ---------------------------------------------------------------- the header part

  const URI_FIELD: nat := 1
  const STATUS_FIELD: nat := 4

  /** A zigzag number as a 32-bit one. */
  function ZigZag(v: u64): (s: int) {
    var w := if v % 2 == 0 then v / 2 else MAX64 - 1 - v / 2;
    var low := w % 0x1_0000_0000;
    if low >= 0x8000_0000 then low - 0x1_0000_0000 else low
  }

  /** Every 32-bit number is read back from its zigzag form. */
  lemma ZigZagBack(s: int)
    requires -0x8000_0000 <= s < 0x8000_0000
    ensures ZigZag(if s >= 0 then 2 * s else -2 * s - 1) == s
  {
  }

  /** Reading the header: the last URI and the last status in it stand; other fields are passed over. */
  function ReadInfo(b: seq<u8>, info: Info): (r: Protobuf.Result<Info>)
    decreases |b|
  {
    if b == [] then Protobuf.Ok(info, [])
    else
      match Protobuf.ReadTag(b)
      case Err(e) => Protobuf.Err(e)
      case Ok(t, rest) =>
        match ReadInfoField(t, rest, info)
        case Err(e) => Protobuf.Err(e)
        case Ok(next, rest') => ReadInfo(rest', next)
  }

  function ReadInfoField(t: Protobuf.FieldTag, b: seq<u8>, info: Info): (r: Protobuf.Result<Info>)
    ensures r.Ok? ==> |r.rest| <= |b|
  {
    if t.field == URI_FIELD && t.wire == Protobuf.WIRE_LEN then
      match Protobuf.ReadBytes(b)
      case Err(e) => Protobuf.Err(e)
      case Ok(data, rest) => Protobuf.Ok(info.(uri := data), rest)
    else if t.field == STATUS_FIELD && t.wire == Protobuf.WIRE_VARINT then
      match Protobuf.ReadVarint(b)
      case Err(e) => Protobuf.Err(e)
      case Ok(v, rest) => Protobuf.Ok(info.(status := ZigZag(v)), rest)
    else
      match Protobuf.SkipField(b, t.wire)
      case Err(e) => Protobuf.Err(e)
      case Ok(_, rest) => Protobuf.Ok(info, rest)
  }

  /** What a written header says. */
  function InfoOf(fields: seq<Protobuf.Field>, info: Info): (r: Info)
    decreases |fields|
  {
    if fields == [] then info
    else
      var next := match fields[0]
        case Bytes(n, data) => if n == URI_FIELD then info.(uri := data) else info
        case Message(n, inner) => if n == URI_FIELD then info.(uri := Protobuf.Encode(inner)) else info
        case Number(n, v) => if n == STATUS_FIELD then info.(status := ZigZag(v)) else info
        case Double(_, _) => info;
      InfoOf(fields[1..], next)
  }

  /** Any header that was written is read, whatever other fields it has. */
  lemma {:induction false} HeaderRead(fields: seq<Protobuf.Field>, info: Info)
    requires |Protobuf.Encode(fields)| < Protobuf.MAX64
    ensures ReadInfo(Protobuf.Encode(fields), info) == Protobuf.Ok(InfoOf(fields, info), [])
    decreases |fields|
  {
    hide Protobuf.Body, Protobuf.Tag, Protobuf.ReadTag, ReadInfoField;
    if fields != [] {
      var f, rest := fields[0], Protobuf.Encode(fields[1..]);
      var b := Protobuf.Tag(f.field, Protobuf.WireOf(f)) + (Protobuf.Body(f) + rest);
      assert Protobuf.Encode(fields) == b;
      Protobuf.TagRoundTrip(f.field, Protobuf.WireOf(f), Protobuf.Body(f) + rest);
      HeaderFieldRead(f, info, rest);
      HeaderRead(fields[1..], InfoOf([f], info));
    }
  }

  lemma HeaderFieldRead(f: Protobuf.Field, info: Info, rest: seq<u8>)
    requires |Protobuf.Body(f)| < Protobuf.MAX64
    ensures ReadInfoField(Protobuf.FieldTag(f.field, Protobuf.WireOf(f)), Protobuf.Body(f) + rest, info)
      == Protobuf.Ok(InfoOf([f], info), rest)
  {
    hide Protobuf.ReadVarint, Protobuf.ReadBytes, Protobuf.Varint, Protobuf.Delimited, Protobuf.Encode, ZigZag;
    Protobuf.SkipLands(f, rest);
    match f
    case Number(_, v) => Protobuf.VarintRoundTrip(v, rest);
    case Double(_, _) =>
    case Bytes(_, data) => DelimitedRead(f, data, rest);
    case Message(_, fields) => DelimitedRead(f, Protobuf.Encode(fields), rest);
  }

  lemma DelimitedRead(f: Protobuf.Field, data: seq<u8>, rest: seq<u8>)
    requires |Protobuf.Body(f)| < Protobuf.MAX64 && Protobuf.Body(f) == Protobuf.Delimited(data)
    ensures Protobuf.ReadBytes(Protobuf.Body(f) + rest) == Protobuf.Ok(data, rest)
  {
    Protobuf.DelimitedRoundTrip(data, rest);
  }

  // ---------------------------------------------------------------- one packet

  datatype Option<T> = None | Some(value: T)

  datatype Head = Head(seqNo: u64, flags: u8, parts: nat, at: nat)

  function Low64(x: nat): (r: u64) {
    x % MAX64
  }

  function ReadHead(data: seq<u8>): (h: Option<Head>)
    ensures h.Some? ==> h.value.at <= |data|
  {
    if |data| < 5 then None
    else
      var p := 2 + BeVal(data[..2]);
      if p > |data| || p + 3 > |data| then None
      else Some(Head(Low64(BeVal(data[2..p])), data[p], BeVal(data[p + 1..p + 3]), p + 3))
  }

  function AddPiece(r: Reply, piece: seq<u8>, goesOn: bool): (q: Reply) {
    if goesOn then r.(partial := r.partial + piece)
    else r.(parts := r.parts + [r.partial + piece], partial := [])
  }

  /** Takes so many pieces from the data; false when the data ends before they do. */
  function TakePieces(r: Reply, data: seq<u8>, left: nat, flags: u8): (q: (Reply, bool))
    decreases left
  {
    if left == 0 then (r, true)
    else if |data| < 2 then (r, false)
    else
      var end := 2 + BeVal(data[..2]);
      if end > |data| then (r, false)
      else TakePieces(AddPiece(r, data[2..end], left == 1 && flags == CONTINUED), data[end..], left - 1, flags)
  }

  /** What the last packet of a reply comes to. */
  function Finish(k: u64, r: Reply): (o: Effect)
    ensures (o.Completed? || o.Failed?) && o.seqNo == k
  {
    if r.parts == [] then Completed(k, r.(done := true))
    else
      match ReadInfo(r.parts[0], NO_INFO)
      case Err(_) => Failed(k, r)
      case Ok(info, _) => Completed(k, r.(done := true, info := info))
  }

  function Handle(pending: map<u64, Reply>, data: seq<u8>): (o: Effect)
    ensures !o.Ignored? ==> o.seqNo in pending
  {
    match ReadHead(data)
    case None => Ignored
    case Some(h) =>
      if h.seqNo !in pending then Ignored
      else
        var (r, whole) := TakePieces(pending[h.seqNo], data[h.at..], h.parts, h.flags);
        if whole && h.flags == FINAL then Finish(h.seqNo, r) else Updated(h.seqNo, r)
  }

  /** The exception of an unreadable header leaves the thread that reads packets, and ends the program. */
  function Apply(t: Table, o: Effect): (u: Table) {
    match o
    case Ignored => t
    case Updated(k, r) => t.(pending := t.pending[k := r])
    case Completed(k, r) => t.(pending := t.pending - {k}, completed := t.completed + [(k, r)])
    case Failed(k, r) => t.(pending := t.pending[k := r], stopped := true)
  }

  // ---------------------------------------------------------------- packets as they are made

  datatype Packet = Packet(seqNo: u64, flags: u8, pieces: seq<seq<u8>>)

  predicate WellFormed(p: Packet) {
    |p.pieces| < 0x1_0000 && forall i :: 0 <= i < |p.pieces| ==> |p.pieces[i]| < 0x1_0000
  }

  function PieceBytes(pieces: seq<seq<u8>>): (b: seq<u8>) {
    if pieces == [] then [] else BeBytes(|pieces[0]|, 2) + pieces[0] + PieceBytes(pieces[1..])
  }

  /** Sequence length and number, flags, number of pieces, and each piece after its length. */
  function PacketBytes(p: Packet): (b: seq<u8>) {
    BeBytes(8, 2) + BeBytes(p.seqNo, 8) + [p.flags] + BeBytes(|p.pieces|, 2) + PieceBytes(p.pieces)
  }

  function AddPieces(r: Reply, pieces: seq<seq<u8>>, flags: u8): (q: Reply)
    decreases |pieces|
  {
    if pieces == [] then r
    else AddPieces(AddPiece(r, pieces[0], |pieces| == 1 && flags == CONTINUED), pieces[1..], flags)
  }

  lemma {:induction false} TakesAllPieces(r: Reply, pieces: seq<seq<u8>>, flags: u8, tail: seq<u8>)
    requires forall i :: 0 <= i < |pieces| ==> |pieces[i]| < 0x1_0000
    ensures TakePieces(r, PieceBytes(pieces) + tail, |pieces|, flags) == (AddPieces(r, pieces, flags), true)
    decreases |pieces|
  {
    hide AddPiece, BeVal, BeBytes;
    if pieces != [] {
      var piece, rest := pieces[0], PieceBytes(pieces[1..]) + tail;
      var data := PieceBytes(pieces) + tail;
      TwoBytes(|piece|);
      assert data == BeBytes(|piece|, 2) + (piece + rest);
      PieceSlices(BeBytes(|piece|, 2), piece, rest, data);
      TakesAllPieces(AddPiece(r, piece, |pieces| == 1 && flags == CONTINUED), pieces[1..], flags, tail);
    }
  }

  lemma PieceSlices(size: seq<u8>, piece: seq<u8>, rest: seq<u8>, data: seq<u8>)
    requires |size| == 2 && data == size + (piece + rest)
    ensures data[..2] == size && data[2..2 + |piece|] == piece && data[2 + |piece|..] == rest
  {
  }

  lemma TwoBytes(n: nat)
    requires n < 0x1_0000
    ensures BeVal(BeBytes(n, 2)) == n
  {
    Pow2Values();
    BeBytesVal(n, 2);
  }

  lemma HeadOfPacket(p: Packet, tail: seq<u8>)
    requires WellFormed(p)
    ensures var data := PacketBytes(p) + tail;
      && ReadHead(data) == Some(Head(p.seqNo, p.flags, |p.pieces|, 13))
      && data[13..] == PieceBytes(p.pieces) + tail
  {
    hide BeVal, BeBytes, PieceBytes;
    var data := PacketBytes(p) + tail;
    TwoBytes(8);
    TwoBytes(|p.pieces|);
    EightBytes(p.seqNo);
    assert data[..2] == BeBytes(8, 2) && data[2..10] == BeBytes(p.seqNo, 8);
    assert data[11..13] == BeBytes(|p.pieces|, 2);
  }

  lemma EightBytes(k: u64)
    ensures BeVal(BeBytes(k, 8)) == k && Low64(k) == k
  {
    hide BeVal, BeBytes;
    Pow2Add(32, 32);
    Pow2Values();
    assert k < Pow2(8 * 8);
    hide Pow2;
    BeBytesVal(k, 8);
    DivModUnique(k, MAX64, 0, k);
  }

  /** What a packet does, said without its bytes. */
  function Receive(pending: map<u64, Reply>, p: Packet): (o: Effect)
    ensures !o.Ignored? ==> o.seqNo in pending
  {
    if p.seqNo !in pending then Ignored
    else
      var r := AddPieces(pending[p.seqNo], p.pieces, p.flags);
      if p.flags == FINAL then Finish(p.seqNo, r) else Updated(p.seqNo, r)
  }

  lemma PacketReceived(pending: map<u64, Reply>, p: Packet, tail: seq<u8>)
    requires WellFormed(p)
    ensures Handle(pending, PacketBytes(p) + tail) == Receive(pending, p)
  {
    hide ReadHead, PacketBytes, AddPieces, TakePieces, PieceBytes, Finish;
    HeadOfPacket(p, tail);
    if p.seqNo in pending {
      TakesAllPieces(pending[p.seqNo], p.pieces, p.flags, tail);
    }
  }

  // ---------------------------------------------------------------- parts cut over packets

  /** A stretch of a part, and whether the part goes on in the next one. */
  datatype Stretch = Stretch(data: seq<u8>, goesOn: bool)

  /** The pieces of a packet; only its last can go on. */
  function Stretches(pieces: seq<seq<u8>>, flags: u8): (s: seq<Stretch>)
    ensures |s| == |pieces|
  {
    if pieces == [] then []
    else [Stretch(pieces[0], |pieces| == 1 && flags == CONTINUED)] + Stretches(pieces[1..], flags)
  }

  function AllStretches(packets: seq<Packet>): (s: seq<Stretch>) {
    if packets == [] then [] else Stretches(packets[0].pieces, packets[0].flags) + AllStretches(packets[1..])
  }

  /** One part cut into stretches, of any lengths. */
  predicate CutOf(cut: seq<Stretch>, part: seq<u8>)
    decreases |cut|
  {
    cut != [] && cut[0].data <= part &&
    if |cut| == 1 then !cut[0].goesOn && cut[0].data == part
    else cut[0].goesOn && CutOf(cut[1..], part[|cut[0].data|..])
  }

  /** The packets carry just these parts, cut anywhere. */
  predicate Carries(packets: seq<Packet>, cuts: seq<seq<Stretch>>, parts: seq<seq<u8>>) {
    && |cuts| == |parts| && (forall i :: 0 <= i < |cuts| ==> CutOf(cuts[i], parts[i]))
    && AllStretches(packets) == Concat(cuts)
  }

  function AddStretches(r: Reply, s: seq<Stretch>): (q: Reply)
    decreases |s|
  {
    if s == [] then r else AddStretches(AddPiece(r, s[0].data, s[0].goesOn), s[1..])
  }

  function AddPackets(r: Reply, packets: seq<Packet>): (q: Reply)
    decreases |packets|
  {
    if packets == [] then r else AddPackets(AddPieces(r, packets[0].pieces, packets[0].flags), packets[1..])
  }

  lemma {:induction false} AddStretchesSplit(r: Reply, a: seq<Stretch>, b: seq<Stretch>)
    ensures AddStretches(r, a + b) == AddStretches(AddStretches(r, a), b)
    decreases |a|
  {
    hide AddPiece;
    if a == [] {
      assert a + b == b;
    } else {
      assert (a + b)[0] == a[0] && (a + b)[1..] == a[1..] + b;
      AddStretchesSplit(AddPiece(r, a[0].data, a[0].goesOn), a[1..], b);
    }
  }

  lemma {:induction false} PiecesAreStretches(r: Reply, pieces: seq<seq<u8>>, flags: u8)
    ensures AddPieces(r, pieces, flags) == AddStretches(r, Stretches(pieces, flags))
    decreases |pieces|
  {
    hide AddPiece;
    if pieces != [] {
      PiecesAreStretches(AddPiece(r, pieces[0], |pieces| == 1 && flags == CONTINUED), pieces[1..], flags);
      assert Stretches(pieces, flags)[1..] == Stretches(pieces[1..], flags);
    }
  }

  lemma {:induction false} PacketsAreStretches(r: Reply, packets: seq<Packet>)
    ensures AddPackets(r, packets) == AddStretches(r, AllStretches(packets))
    decreases |packets|
  {
    hide AddPieces, Stretches;
    if packets != [] {
      var p := packets[0];
      PiecesAreStretches(r, p.pieces, p.flags);
      AddStretchesSplit(r, Stretches(p.pieces, p.flags), AllStretches(packets[1..]));
      PacketsAreStretches(AddPieces(r, p.pieces, p.flags), packets[1..]);
    }
  }

  lemma {:induction false} PartRestored(r: Reply, cut: seq<Stretch>, part: seq<u8>)
    requires CutOf(cut, part)
    ensures AddStretches(r, cut) == r.(parts := r.parts + [r.partial + part], partial := [])
    decreases |cut|
  {
    var next := AddPiece(r, cut[0].data, cut[0].goesOn);
    if |cut| == 1 {
      assert cut[1..] == [];
    } else {
      var rest := part[|cut[0].data|..];
      PartRestored(next, cut[1..], rest);
      assert r.partial + part == (r.partial + cut[0].data) + rest;
    }
  }

  lemma {:induction false} PartsRestored(r: Reply, cuts: seq<seq<Stretch>>, parts: seq<seq<u8>>)
    requires |cuts| == |parts| && r.partial == []
    requires forall i :: 0 <= i < |cuts| ==> CutOf(cuts[i], parts[i])
    ensures AddStretches(r, Concat(cuts)) == r.(parts := r.parts + parts)
    decreases |cuts|
  {
    hide CutOf;
    if cuts == [] {
      assert r.parts + parts == r.parts;
    } else {
      PartRestored(r, cuts[0], parts[0]);
      assert [] + parts[0] == parts[0];
      AddStretchesSplit(r, cuts[0], Concat(cuts[1..]));
      var next := r.(parts := r.parts + [parts[0]]);
      PartsRestored(next, cuts[1..], parts[1..]);
      assert (r.parts + [parts[0]]) + parts[1..] == r.parts + parts;
    }
  }

  /** However the parts are cut over packets, they are put together again. */
  lemma CutsRestored(packets: seq<Packet>, cuts: seq<seq<Stretch>>, parts: seq<seq<u8>>)
    requires Carries(packets, cuts, parts)
    ensures AddPackets(NOTHING, packets) == NOTHING.(parts := parts)
  {
    hide CutOf, AllStretches, AddPackets, AddStretches;
    PacketsAreStretches(NOTHING, packets);
    PartsRestored(NOTHING, cuts, parts);
  }

  /** The header, if there is one, can be read. */
  predicate Readable(parts: seq<seq<u8>>) {
    parts == [] || ReadInfo(parts[0], NO_INFO).Ok?
  }

  /** The reply as it is delivered. */
  function Answer(parts: seq<seq<u8>>): (r: Reply)
    requires Readable(parts)
  {
    Reply(parts, [], true, if parts == [] then NO_INFO else ReadInfo(parts[0], NO_INFO).value)
  }

  // ---------------------------------------------------------------- a reply written out

  /** The header of URI "u" and status 200, as six bytes: field 1, one byte, and field 4, 400 in zigzag form. */
  lemma HeaderExample()
    ensures ReadInfo([0x0a, 1, 0x75, 0x20, 0x90, 0x03], Info([], 0)) == Protobuf.Ok(Info([0x75], 200), [])
  {
    hide Protobuf.Encode, ReadInfo, ZigZag;
    var uri, status := Protobuf.Bytes(1, [0x75]), Protobuf.Number(4, 400);
    HeaderExampleBytes();
    HeaderRead([uri, status], Info([], 0));
    InfoSteps(uri, status);
    ZigZagBack(200);
  }

  lemma InfoSteps(f: Protobuf.Field, g: Protobuf.Field)
    ensures InfoOf([f, g], Info([], 0)) == InfoOf([g], InfoOf([f], Info([], 0)))
  {
    hide ZigZag, Protobuf.Encode;
    assert [f, g][1..] == [g];
  }

  lemma HeaderExampleBytes()
    ensures Protobuf.Encode([Protobuf.Bytes(1, [0x75]), Protobuf.Number(4, 400)]) == [0x0a, 1, 0x75, 0x20, 0x90, 0x03]
  {
    assert Protobuf.Varint(400) == [0x90, 0x03];
    assert [Protobuf.Bytes(1, [0x75]), Protobuf.Number(4, 400)][1..] == [Protobuf.Number(4, 400)];
    Protobuf.EncodeOne(Protobuf.Number(4, 400));
  }

  lemma SeqSeven()
    ensures BeBytes(7, 8) == [0, 0, 0, 0, 0, 0, 0, 7] && BeBytes(8, 2) == [0, 8]
  {
    assert BeBytes(0, 3) == [0, 0, 0];
    assert BeBytes(0, 7) == [0, 0, 0, 0, 0, 0, 0];
  }

  /** A first packet, whose one piece goes on in the next. */
  lemma FirstPacketExample()
    ensures Handle(map[7 := Reply([], [], false, Info([], 0))],
                   [0, 8, 0, 0, 0, 0, 0, 0, 0, 7, 2, 0, 1, 0, 3, 0x0a, 1, 0x75])
      == Updated(7, Reply([], [0x0a, 1, 0x75], false, Info([], 0)))
  {
    var p := Packet(7, 2, [[0x0a, 1, 0x75]]);
    FirstPacketBytes();
    PacketReceived(map[7 := Reply([], [], false, Info([], 0))], p, []);
    var r := Reply([], [], false, Info([], 0));
    assert AddPieces(r, p.pieces, 2) == Reply([], [0x0a, 1, 0x75], false, Info([], 0)) by {
      assert p.pieces[1..] == [];
    }
  }

  lemma FirstPacketBytes()
    ensures PacketBytes(Packet(7, 2, [[0x0a, 1, 0x75]])) + [] ==
      [0, 8, 0, 0, 0, 0, 0, 0, 0, 7, 2, 0, 1, 0, 3, 0x0a, 1, 0x75]
  {
    hide BeBytes, PieceBytes;
    SeqSeven();
    SmallCounts();
    OnePieceBytes([0x0a, 1, 0x75]);
  }

  lemma SmallCounts()
    ensures BeBytes(1, 2) == [0, 1] && BeBytes(2, 2) == [0, 2] && BeBytes(3, 2) == [0, 3]
  {
  }

  lemma OnePieceBytes(piece: seq<u8>)
    ensures PieceBytes([piece]) == BeBytes(|piece|, 2) + piece
  {
    hide BeBytes;
    assert [piece][1..] == [];
  }

  lemma TwoPieceBytes(a: seq<u8>, b: seq<u8>)
    ensures PieceBytes([a, b]) == BeBytes(|a|, 2) + a + (BeBytes(|b|, 2) + b)
  {
    hide BeBytes;
    OnePieceBytes(b);
    assert [a, b][1..] == [b];
  }

  /** The last packet, with the rest of that part and one more: the reply is complete. */
  lemma LastPacketExample()
    ensures Handle(map[7 := Reply([], [0x0a, 1, 0x75], false, Info([], 0))],
                   [0, 8, 0, 0, 0, 0, 0, 0, 0, 7, 1, 0, 2, 0, 3, 0x20, 0x90, 0x03, 0, 2, 0x68, 0x69])
      == Completed(7, Reply([[0x0a, 1, 0x75, 0x20, 0x90, 0x03], [0x68, 0x69]], [], true, Info([0x75], 200)))
  {
    hide ReadInfo;
    var r, p := Reply([], [0x0a, 1, 0x75], false, Info([], 0)), Packet(7, 1, [[0x20, 0x90, 0x03], [0x68, 0x69]]);
    LastPacketBytes();
    PacketReceived(map[7 := r], p, []);
    LastPieces();
    HeaderExample();
  }

  lemma LastPieces()
    ensures AddPieces(Reply([], [0x0a, 1, 0x75], false, Info([], 0)), [[0x20, 0x90, 0x03], [0x68, 0x69]], 1)
      == Reply([[0x0a, 1, 0x75, 0x20, 0x90, 0x03], [0x68, 0x69]], [], false, Info([], 0))
  {
    var r, a: seq<u8>, b: seq<u8> := Reply([], [0x0a, 1, 0x75], false, Info([], 0)), [0x20, 0x90, 0x03], [0x68, 0x69];
    assert [a, b][1..] == [b];
    assert |[b][1..]| == 0;
    var q := AddPiece(r, a, false);
    assert r.partial + a == [0x0a, 1, 0x75, 0x20, 0x90, 0x03];
    assert q == Reply([[0x0a, 1, 0x75, 0x20, 0x90, 0x03]], [], false, Info([], 0));
    assert AddPieces(r, [a, b], 1) == AddPieces(q, [b], 1);
    assert AddPieces(q, [b], 1) == AddPiece(q, b, false);
    assert q.partial + b == b;
    assert q.parts + [b] == [[0x0a, 1, 0x75, 0x20, 0x90, 0x03], [0x68, 0x69]];
  }

  lemma LastPacketBytes()
    ensures PacketBytes(Packet(7, 1, [[0x20, 0x90, 0x03], [0x68, 0x69]])) + [] ==
      [0, 8, 0, 0, 0, 0, 0, 0, 0, 7, 1, 0, 2, 0, 3, 0x20, 0x90, 0x03, 0, 2, 0x68, 0x69]
  {
    hide BeBytes, PieceBytes;
    SeqSeven();
    SmallCounts();
    TwoPieceBytes([0x20, 0x90, 0x03], [0x68, 0x69]);
  }

  /** A header that cannot be read: its only field has a wire type that no writer uses. */
  lemma UnreadableHeader(k: u64)
    ensures Receive(map[k := NOTHING], Packet(k, FINAL, [[0x0b]])).Failed?
  {
    hide Protobuf.SkipField;
    var b: seq<u8> := [0x0b];
    assert Protobuf.Tag(1, 3) + [] == b;
    Protobuf.TagRoundTrip(1, 3, []);
    assert ReadInfoField(Protobuf.FieldTag(1, 3), [], NO_INFO).Err? by {
      UnknownWireFails();
    }
    assert AddPieces(NOTHING, [b], FINAL).parts == [b] by {
      OnePiece(b);
    }
  }

  lemma UnknownWireFails()
    ensures Protobuf.SkipField([], 3).Err?
  {
  }

  lemma OnePiece(b: seq<u8>)
    ensures AddPieces(NOTHING, [b], FINAL).parts == [b]
  {
    assert [b][1..] == [];
    assert [] + b == b;
  }

  lemma NothingHappens(t: Table)
    ensures Apply(t, Ignored) == t
  {
  }
}
