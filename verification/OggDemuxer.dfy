/** The streaming demuxer as an object, in front of a sink that may refuse packets. */
module OggDemuxer {
  import opened Bits
  import opened OggPages
  import opened OggRefusal

  class Demuxer {
    /** Unparsed bytes. */
    var buf: seq<u8>
    /** The packet being put together across pages. */
    var currentPacket: seq<u8>
    var headersConcat: seq<u8>
    var headersEmitted: nat
    var headersFired: bool
    var sampleRate: u32
    var channels: u8
    var bitrateNominal: u32
    /** The packet that the sink refused, with its time. */
    var pendingPacket: seq<u8>
    var pendingPts: u64
    var hasPending: bool
    /** The sink's answers, and how many it has given. */
    const sink: Sink
    var offers: nat
    /** The headers that went out and the packets that were taken, in order. */
    var out: seq<Event>

    ghost predicate Valid()
      reads this
    {
      headersEmitted <= 3 && (headersFired <==> headersEmitted == 3)
    }

    ghost function Now(): (s: Stream)
      reads this
    {
      Stream(currentPacket, headersConcat, headersEmitted, sampleRate, channels, bitrateNominal, out)
    }

    ghost function InFlow(): (f: Flow)
      reads this
    {
      Flow(Now(), if hasPending then Some(Packet(pendingPacket, pendingPts)) else None, offers)
    }

    constructor (sink: Sink)
      ensures Valid() && InFlow() == Flow(Fresh(), None, 0) && buf == [] && this.sink == sink
    {
      this.sink := sink;
      buf, currentPacket, headersConcat, headersEmitted, headersFired := [], [], [], 0, false;
      pendingPacket, pendingPts, hasPending, offers := [], 0, false, 0;
      sampleRate, channels, bitrateNominal := 44100, 2, 0;
      out := [];
    }

    method EmitPacket(packet: seq<u8>, pts: u64) returns (ok: bool)
      requires Valid()
      modifies this
      ensures Valid() && buf == old(buf)
      ensures (InFlow(), ok) == Offer(sink, old(InFlow()), packet, pts)
    {
      if headersEmitted < 3 {
        AddHeader(packet, pts);
        return true;
      }
      ok := sink(offers);
      offers := offers + 1;
      if !ok {
        pendingPacket := packet;
        pendingPts := pts;
        hasPending := true;
        return false;
      }
      out := out + [Packet(packet, pts)];
    }

    /** One of the first three packets. */
    method AddHeader(packet: seq<u8>, ghost pts: u64)
      requires Valid() && headersEmitted < 3
      modifies this
      ensures Valid() && buf == old(buf)
      ensures InFlow() == old(InFlow()).(stream := Emit(old(Now()), packet, pts))
    {
      if headersEmitted == 0 && Identifies(packet) {
        channels := packet[11];
        sampleRate := ReadU32Le(packet, 12);
        bitrateNominal := ReadU32Le(packet, 20);
      }
      headersConcat := headersConcat + packet;
      headersEmitted := headersEmitted + 1;
      if headersEmitted == 3 && !headersFired {
        out := out + [Headers(headersConcat, sampleRate, channels, bitrateNominal)];
        headersFired := true;
      }
    }

    /** Appends what has come, offers a held packet again, and parses every whole page unless that is refused. */
    method Push(data: seq<u8>) returns (ok: bool)
      requires Valid()
      modifies this
      ensures Valid()
      ensures (InFlow(), buf, ok) == Pushed(sink, old(InFlow()), old(buf) + data)
      ensures Accepting(sink) && !old(hasPending) ==>
        ok && !hasPending && (Now(), buf) == Drain(old(Now()), old(buf) + data)
    {
      hide OfferAll, Drain;
      if Accepting(sink) {
        AcceptedAll(sink, InFlow(), buf + data);
      }
      if |data| > 0 {
        buf := buf + data;
      }
      assert old(buf) + data == buf;
      if hasPending {
        ok := sink(offers);
        offers := offers + 1;
        if !ok {
          return false;
        }
        out := out + [Packet(pendingPacket, pendingPts)];
        hasPending := false;
        pendingPacket := [];
      }
      TryParsePages();
      ok := true;
    }

    method TryParsePages()
      requires Valid()
      modifies this
      ensures Valid()
      ensures (InFlow(), buf) == OfferAll(sink, old(InFlow()), old(buf))
    {
      hide Sum, FindMagic, OfferPage, Next, OfferAll;
      ghost var all := OfferAll(sink, InFlow(), buf);
      var pos := 0;
      assert buf[0..] == buf;
      while true
        invariant 0 <= pos <= |buf| && Valid() && buf == old(buf)
        invariant OfferAll(sink, InFlow(), buf[pos..]) == all
        decreases |buf| - pos
      {
        NextAt(buf, pos);
        OfferAt(sink, InFlow(), buf, pos);
        if |buf| - pos < HEADER_SIZE {
          break;
        }
        if !MagicAt(buf, pos) {
          var scan := FindNext(pos + 1);
          if scan + 4 > |buf| {
            break;
          }
          pos := scan;
          continue;
        }
        var nSegments := buf[pos + 26];
        var headerSize := HEADER_SIZE + nSegments;
        if |buf| - pos < headerSize {
          break;
        }
        var table := buf[pos + HEADER_SIZE..pos + headerSize];
        var dataSize := TableSum(table);
        if |buf| - pos < headerSize + dataSize {
          break;
        }
        var ok := TakePage(pos, nSegments, table, dataSize);
        pos := pos + headerSize + dataSize;
        if !ok {
          buf := buf[pos..];
          return;
        }
      }
      if pos > 0 {
        buf := buf[pos..];
      }
    }

    method FindNext(from: nat) returns (scan: nat)
      ensures scan == FindMagic(buf, from)
    {
      scan := from;
      while scan + 4 <= |buf| && !MagicAt(buf, scan)
        invariant FindMagic(buf, scan) == FindMagic(buf, from)
        decreases |buf| - scan
      {
        scan := scan + 1;
      }
    }

    /** One whole page that stands at pos in the buffer. */
    method TakePage(pos: nat, nSegments: u8, table: seq<u8>, dataSize: nat) returns (ok: bool)
      requires Valid()
      requires pos + HEADER_SIZE + nSegments + dataSize <= |buf|
      requires nSegments == buf[pos + 26] && table == buf[pos + HEADER_SIZE..pos + HEADER_SIZE + nSegments]
      requires dataSize == Sum(table)
      modifies this
      ensures Valid() && buf == old(buf)
      ensures var page := buf[pos..pos + HEADER_SIZE + nSegments + dataSize];
        page[HEADER_SIZE..HEADER_SIZE + page[26]] == table && (InFlow(), ok) == OfferPage(sink, old(InFlow()), page)
    {
      hide Sum, Milliseconds, LeVal, OfferLace;
      var headerSize := HEADER_SIZE + nSegments;
      ghost var page := buf[pos..pos + headerSize + dataSize];
      SubSlice(buf, pos, pos + headerSize + dataSize, HEADER_SIZE, headerSize);
      assert page[26] == nSegments;
      SubSlice(buf, pos, pos + headerSize + dataSize, 6, 14);
      LeBound8(buf[pos + 6..pos + 14]);
      var granule := ReadU64Le(buf[pos + 6..pos + 14]);
      var pageData := buf[pos + headerSize..pos + headerSize + dataSize];
      assert page[headerSize..] == pageData;
      ok := AddSegments(table, pageData, Milliseconds(granule, sampleRate));
    }

    /** Walks the segment table, up to a refused packet. */
    method AddSegments(table: seq<u8>, data: seq<u8>, pts: u64) returns (ok: bool)
      requires Valid() && Sum(table) == |data|
      modifies this
      ensures Valid() && buf == old(buf)
      ensures (InFlow(), ok) == OfferLace(sink, old(InFlow()), table, data, pts)
    {
      hide Offer;
      ghost var all := OfferLace(sink, InFlow(), table, data, pts);
      var off := 0;
      assert table[0..] == table && data[0..] == data;
      for i := 0 to |table|
        invariant Valid() && buf == old(buf)
        invariant 0 <= off <= |data| && Sum(table[i..]) == |data[off..]|
        invariant OfferLace(sink, InFlow(), table[i..], data[off..], pts) == all
      {
        var n := table[i];
        assert table[i..][0] == n && table[i..][1..] == table[i + 1..];
        assert data[off..][..n] == data[off..off + n] && data[off..][n..] == data[off + n..];
        currentPacket := currentPacket + data[off..off + n];
        off := off + n;
        if n < 255 {
          var packet := currentPacket;
          currentPacket := [];
          ok := EmitPacket(packet, if i + 1 == |table| then pts else 0);
          if !ok {
            return;
          }
        }
      }
      ok := true;
    }
  }

  lemma SubSlice<T>(b: seq<T>, from: nat, to: nat, i: nat, j: nat)
    requires i <= j && from + j <= to <= |b|
    ensures b[from..to][i..j] == b[from + i..from + j]
  {
    var c := b[from..to];
    forall k | 0 <= k < j - i
      ensures c[i..j][k] == b[from + i..from + j][k]
    {
      assert c[i..j][k] == c[i + k] == b[from + (i + k)];
    }
  }

  /** What to do next, said of places in the whole buffer. */
  lemma NextAt(b: seq<u8>, pos: nat)
    requires pos <= |b|
    ensures |b| - pos < HEADER_SIZE ==> Next(b[pos..]) == Wait
    ensures |b| - pos >= HEADER_SIZE && !MagicAt(b, pos) ==>
      Next(b[pos..]) == if FindMagic(b, pos + 1) + 4 > |b| then Wait else Skip(FindMagic(b, pos + 1) - pos)
    ensures |b| - pos >= HEADER_SIZE && MagicAt(b, pos) && |b| - pos < HEADER_SIZE + b[pos + 26] ==>
      Next(b[pos..]) == Wait
    ensures |b| - pos >= HEADER_SIZE && MagicAt(b, pos) && |b| - pos >= HEADER_SIZE + b[pos + 26] ==>
      var size := HEADER_SIZE + b[pos + 26] + Sum(b[pos + HEADER_SIZE..pos + HEADER_SIZE + b[pos + 26]]);
      Next(b[pos..]) == if |b| - pos < size then Wait else Page(size)
  {
    hide Sum, FindMagic, MagicAt;
    MagicShift(b, pos, 0);
    FindMagicShift(b, pos, 1);
    if |b| - pos >= HEADER_SIZE && |b| - pos >= HEADER_SIZE + b[pos + 26] {
      assert b[pos..][HEADER_SIZE..HEADER_SIZE + b[pos + 26]] == b[pos + HEADER_SIZE..pos + HEADER_SIZE + b[pos + 26]];
    }
  }

  lemma OfferAt(sink: Sink, f: Flow, b: seq<u8>, pos: nat)
    requires pos <= |b|
    ensures Next(b[pos..]).Wait? ==> OfferAll(sink, f, b[pos..]) == (f, b[pos..])
    ensures Next(b[pos..]).Skip? ==> OfferAll(sink, f, b[pos..]) == OfferAll(sink, f, b[pos + Next(b[pos..]).to..])
    ensures Next(b[pos..]).Page? ==>
      var n := Next(b[pos..]).size;
      var page := b[pos..pos + n];
      && |page| >= HEADER_SIZE + page[26]
      && |page| == HEADER_SIZE + page[26] + Sum(page[HEADER_SIZE..HEADER_SIZE + page[26]])
      && var (g, ok) := OfferPage(sink, f, page);
      OfferAll(sink, f, b[pos..]) == if ok then OfferAll(sink, g, b[pos + n..]) else (g, b[pos + n..])
  {
    hide Next, OfferPage, Sum;
    match Next(b[pos..])
    case Wait =>
    case Skip(k) =>
      assert b[pos..][k..] == b[pos + k..];
    case Page(n) =>
      PageOf(b[pos..]);
      assert b[pos..][..n] == b[pos..pos + n] && b[pos..][n..] == b[pos + n..];
  }

  method TableSum(table: seq<u8>) returns (n: nat)
    ensures n == Sum(table)
  {
    n := 0;
    for i := 0 to |table|
      invariant n == Sum(table[..i])
    {
      SumTake(table, i);
      n := n + table[i];
    }
    assert table[..|table|] == table;
  }

  /** Eight bytes, least significant first, read from the last. */
  method ReadU64Le(b: seq<u8>) returns (v: nat)
    requires |b| == 8
    ensures v == LeVal(b)
  {
    hide LeVal;
    v := 0;
    var i := 7;
    LeEnds(b);
    while i >= 0
      invariant -1 <= i <= 7
      invariant v == LeVal(b[i + 1..])
    {
      LeAt(b, i);
      v := v * 256 + b[i];
      i := i - 1;
    }
  }

  lemma LeEnds(b: seq<u8>)
    ensures LeVal(b[|b|..]) == 0 && b[0..] == b
  {
  }

  lemma LeAt(b: seq<u8>, i: nat)
    requires i < |b|
    ensures LeVal(b[i..]) == LeVal(b[i + 1..]) * 256 + b[i]
  {
  }

  lemma MagicShift(b: seq<u8>, pos: nat, i: nat)
    requires pos <= |b|
    ensures MagicAt(b[pos..], i) == MagicAt(b, pos + i)
  {
  }

  lemma {:induction false} FindMagicShift(b: seq<u8>, pos: nat, from: nat)
    requires pos <= |b|
    ensures FindMagic(b[pos..], from) + pos == FindMagic(b, pos + from)
    decreases |b| - from
  {
    MagicShift(b, pos, from);
    if pos + from + 4 <= |b| && !MagicAt(b, pos + from) {
      FindMagicShift(b, pos, from + 1);
    }
  }
}
