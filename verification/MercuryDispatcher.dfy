/** The dispatcher's table of requests under way, as objects that packets add to. */
module MercuryDispatcher {
  import opened Bits
  import opened BigEndian
  import opened Mercury
  import opened MercuryRuns
  import Protobuf
  import opened ProtobufCodec

  class Pending {
    var parts: seq<seq<u8>>
    var partial: seq<u8>
    var done: bool
    var uri: seq<u8>
    var statusCode: int

    ghost function Now(): (r: Reply)
      reads this
    {
      Reply(parts, partial, done, Info(uri, statusCode))
    }

    constructor ()
      ensures Now() == NOTHING
    {
      parts, partial, done, uri, statusCode := [], [], false, [], 0;
    }

    /** The pieces of one packet, from p on; false when the packet is cut short. */
    method AddPieces(data: seq<u8>, at: nat, count: nat, flags: u8) returns (whole: bool)
      requires at <= |data|
      modifies this
      ensures (Now(), whole) == TakePieces(old(Now()), data[at..], count, flags)
    {
      hide BeVal, AddPiece;
      var p := at;
      for i := 0 to count
        invariant at <= p <= |data|
        invariant TakePieces(Now(), data[p..], count - i, flags) == TakePieces(old(Now()), data[at..], count, flags)
      {
        if p + 2 > |data| {
          return false;
        }
        assert data[p..][..2] == data[p..p + 2];
        var size := BeVal(data[p..p + 2]);
        if p + 2 + size > |data| {
          return false;
        }
        var part := data[p + 2..p + 2 + size];
        assert data[p..][2..2 + size] == part && data[p..][2 + size..] == data[p + 2 + size..];
        p := p + 2 + size;
        AddOne(part, i + 1 == count && flags == CONTINUED);
      }
      return true;
    }

    method AddOne(piece: seq<u8>, goesOn: bool)
      modifies this
      ensures Now() == AddPiece(old(Now()), piece, goesOn)
    {
      var part := piece;
      assert [] + piece == piece;
      if partial != [] {
        part := partial + piece;
        partial := [];
      }
      if goesOn {
        partial := part;
      } else {
        parts := parts + [part];
      }
    }
  }

  class Dispatcher {
    var mercury: map<u64, Pending>
    var mercurySeq: u64
    /** The replies that were delivered, in order. */
    ghost var completed: seq<(u64, Reply)>
    /** An exception has left the thread that reads packets, and nothing runs any more. */
    ghost var stopped: bool

    /** No two requests share an object. */
    ghost predicate Valid()
      reads this
    {
      forall j, k :: j in mercury && k in mercury && j != k ==> mercury[j] != mercury[k]
    }

    ghost function Awaited(): (m: map<u64, Reply>)
      reads this, mercury.Values
      ensures m.Keys == mercury.Keys
    {
      map k | k in mercury :: mercury[k].Now()
    }

    ghost function Now(): (t: Table)
      reads this, mercury.Values
    {
      Table(Awaited(), mercurySeq, completed, stopped)
    }

    constructor ()
      ensures Valid() && Now() == Table(map[], 1, [], false)
    {
      mercury, mercurySeq, completed, stopped := map[], 1, [], false;
    }

    /** Takes the next number and waits under it. */
    method Request() returns (k: u64, pen: Pending)
      requires Valid() && !stopped
      modifies this
      ensures Valid() && fresh(pen) && k == old(mercurySeq)
      ensures mercury == old(mercury)[k := pen]
      ensures Now() == Step(old(Now()), Event.Request)
    {
      pen := new Pending();
      k := mercurySeq;
      mercurySeq := Low64(mercurySeq + 1);
      mercury := mercury[k := pen];
      assert Awaited() == old(Awaited())[k := NOTHING];
    }

    /** Stops waiting: the packet could not be sent, or time is up. */
    method GiveUp(k: u64)
      requires Valid() && !stopped
      modifies this
      ensures Valid() && Now() == Step(old(Now()), Event.GiveUp(k))
    {
      mercury := mercury - {k};
      assert Awaited() == old(Awaited()) - {k};
    }

    /** One packet: its pieces go to the request with its number, if there is one. */
    method HandleMercury(data: seq<u8>) returns (thrown: bool)
      requires Valid() && !stopped
      modifies this, mercury.Values
      ensures Valid() && Now() == Step(old(Now()), Arrive(data))
      ensures thrown == stopped
    {
      hide ReadHead, TakePieces, Apply, Finish;
      var head := ParseHead(data);
      if head.None? {
        NothingHappens(Now());
        return false;
      }
      var h := head.value;
      if h.seqNo !in mercury {
        NothingHappens(Now());
        return false;
      }
      ghost var before := Now();
      var pen := mercury[h.seqNo];
      var whole := pen.AddPieces(data, h.at, h.parts, h.flags);
      assert Awaited() == before.pending[h.seqNo := pen.Now()];
      Added(before, h.seqNo, pen.Now());
      thrown := false;
      if whole && h.flags == FINAL {
        ghost var r := pen.Now();
        LaterDecides(before, h.seqNo, r);
        thrown := FinishReply(h.seqNo, pen);
      }
    }

    /** After the last packet: the header is read, and the request is answered. */
    method FinishReply(seqNo: u64, pen: Pending) returns (thrown: bool)
      requires Valid() && !stopped && seqNo in mercury && mercury[seqNo] == pen
      modifies this, pen
      ensures Valid()
      ensures Now() == Apply(old(Now()), Finish(seqNo, old(pen.Now())))
      ensures thrown == stopped
    {
      hide ReadInfo, Apply;
      ghost var before, r := Now(), pen.Now();
      assert before.pending[seqNo] == r;
      thrown := false;
      if |pen.parts| > 0 {
        var info := ReadHeader(pen.parts[0]);
        if info.Thrown? {
          stopped := true;
          OnlyStops(before, seqNo);
          return true;
        }
        Deliver(seqNo, pen, info.value);
      } else {
        Deliver(seqNo, pen, Info(pen.uri, pen.statusCode));
      }
    }

    /** Hands the reply to the one who waits, and waits no longer. */
    method Deliver(seqNo: u64, pen: Pending, info: Info)
      requires Valid() && seqNo in mercury && mercury[seqNo] == pen
      modifies this, pen
      ensures Valid() && stopped == old(stopped)
      ensures Now() == Apply(old(Now()), Effect.Completed(seqNo, old(pen.Now()).(done := true, info := info)))
    {
      pen.uri, pen.statusCode := info.uri, info.status;
      pen.done := true;
      completed := completed + [(seqNo, pen.Now())];
      mercury := mercury - {seqNo};
      assert Awaited() == old(Awaited()) - {seqNo};
    }
  }

  /** URI and status out of a header. */
  method ReadHeader(b: seq<u8>) returns (r: Outcome<Info>)
    ensures match ReadInfo(b, NO_INFO)
      case Ok(info, _) => r == Value(info)
      case Err(e) => r == Thrown(e)
  {
    hide Protobuf.ReadTag, ReadInfoField;
    var reader := new Reader(b, 0, |b|);
    var info := NO_INFO;
    assert b[0..|b|] == b;
    while true
      invariant fresh(reader) && reader.Valid() && reader.data == b && reader.end == |b|
      invariant ReadInfo(reader.Rest(), info) == ReadInfo(b, NO_INFO)
      decreases |reader.Rest()|
    {
      var more, tag := reader.ReadTag();
      if !more {
        return Value(info);
      }
      if tag.Thrown? {
        return Thrown(tag.error);
      }
      var next := ReadHeaderField(reader, tag.value, info);
      if next.Thrown? {
        return Thrown(next.error);
      }
      info := next.value;
    }
  }

  method ReadHeaderField(reader: Reader, t: Protobuf.FieldTag, info: Info) returns (r: Outcome<Info>)
    requires reader.Valid()
    modifies reader
    ensures reader.Valid()
    ensures match ReadInfoField(t, old(reader.Rest()), info)
      case Ok(next, rest) => r == Value(next) && reader.Rest() == rest
      case Err(e) => r == Thrown(e)
  {
    hide Protobuf.ReadBytes, Protobuf.ReadVarint, Protobuf.SkipField, ZigZag;
    if t.field == URI_FIELD && t.wire == Protobuf.WIRE_LEN {
      var uri := reader.ReadByteString();
      return if uri.Thrown? then Thrown(uri.error) else Value(info.(uri := uri.value));
    }
    if t.field == STATUS_FIELD && t.wire == Protobuf.WIRE_VARINT {
      var v := reader.ReadVarint();
      return if v.Thrown? then Thrown(v.error) else Value(info.(status := ZigZag(v.value)));
    }
    var skipped := reader.SkipField(t.wire);
    return if skipped.Thrown? then Thrown(skipped.error) else Value(info);
  }

  /** Sequence number, flags and number of pieces. */
  method ParseHead(data: seq<u8>) returns (h: Option<Head>)
    ensures h == ReadHead(data)
  {
    hide BeVal;
    if |data| < 5 {
      return None;
    }
    var seqLen := BeVal(data[..2]);
    var p := 2;
    if p + seqLen > |data| {
      return None;
    }
    var seqNo := ReadSeq(data[p..p + seqLen]);
    p := p + seqLen;
    if p + 3 > |data| {
      return None;
    }
    return Some(Head(seqNo, data[p], BeVal(data[p + 1..p + 3]), p + 3));
  }

  lemma OnlyStops(t: Table, k: u64)
    requires k in t.pending
    ensures Apply(t, Failed(k, t.pending[k])) == t.(stopped := true)
  {
  }

  lemma Added(t: Table, k: u64, r: Reply)
    ensures Apply(t, Updated(k, r)) == t.(pending := t.pending[k := r])
  {
  }

  /** Of two things that happen to one request, the later stands. */
  lemma LaterDecides(t: Table, k: u64, r: Reply)
    requires k in t.pending
    ensures Apply(t.(pending := t.pending[k := r]), Finish(k, r)) == Apply(t, Finish(k, r))
  {
  }

  /** A number of any width, of which 64 bits are kept. */
  method ReadSeq(b: seq<u8>) returns (k: u64)
    ensures k == Low64(BeVal(b))
  {
    hide BeVal;
    k := 0;
    BeNothing(b);
    for i := 0 to |b|
      invariant k == Low64(BeVal(b[..i]))
    {
      BeTake(b, i);
      Low64Step(BeVal(b[..i]), b[i]);
      k := Low64(k * 256 + b[i]);
    }
    assert b[..|b|] == b;
  }

  lemma BeNothing(b: seq<u8>)
    ensures BeVal(b[..0]) == 0 && Low64(0) == 0
  {
  }

  lemma Low64Step(x: nat, b: u8)
    ensures Low64(Low64(x) * 256 + b) == Low64(x * 256 + b)
  {
    var low := x % MAX64;
    DivMod(x, MAX64);
    var y := low * 256 + b;
    DivMod(y, MAX64);
    DivModUnique(x * 256 + b, MAX64, 256 * (x / MAX64) + y / MAX64, y % MAX64);
  }
}
