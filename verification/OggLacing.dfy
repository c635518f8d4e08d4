/** Packets laced into segments and segments gathered into pages: what the demuxer must give back. */
module OggLacing {
  import opened Bits
  import opened Chunks
  import opened OggPages

  type Segment = s: seq<u8> | |s| <= 255 witness []

  /** A packet as segments: full ones, then one short one, which is empty after an exact multiple of 255. */
  function Segments(packet: seq<u8>): (segments: seq<Segment>)
    ensures |segments| == |packet| / 255 + 1
    decreases |packet|
  {
    if |packet| < 255 then [packet] else [packet[..255]] + Segments(packet[255..])
  }

  function AllSegments(packets: seq<seq<u8>>): (segments: seq<Segment>)
  {
    if packets == [] then [] else Segments(packets[0]) + AllSegments(packets[1..])
  }

  /** A page: fields the demuxer does not check, a granule position, and up to 255 segments. */
  datatype Page = Page(version: u8, kind: u8, granule: seq<u8>, fields: seq<u8>, segments: seq<Segment>)

  predicate WellFormed(p: Page) {
    |p.granule| == 8 && |p.fields| == 12 && |p.segments| <= 255
  }

  function Lengths(segments: seq<Segment>): (table: seq<u8>)
    ensures |table| == |segments|
  {
    if segments == [] then [] else [|segments[0]|] + Lengths(segments[1..])
  }

  function PageBytes(p: Page): (b: seq<u8>)
    requires WellFormed(p)
  {
    MAGIC + [p.version, p.kind] + p.granule + p.fields + [|p.segments|]
      + Lengths(p.segments) + Concat(p.segments)
  }

  /** Where the fields of a page stand (section 6 of RFC 3533). */
  lemma PageLayout(p: Page, i: nat)
    requires WellFormed(p) && i < |p.segments|
    ensures var b := PageBytes(p);
      && b[0] == 'O' as int && b[1] == 'g' as int && b[2] == 'g' as int && b[3] == 'S' as int
      && b[4] == p.version && b[5] == p.kind && b[6..14] == p.granule && b[14..26] == p.fields
      && b[26] == |p.segments| && |b| > 27 + i && b[27 + i] == |p.segments[i]|
  {
    hide Concat;
    LengthAt(p.segments, i);
    var fixed := MAGIC + [p.version, p.kind] + p.granule + p.fields + [|p.segments|];
    assert fixed[6..14] == p.granule && fixed[14..26] == p.fields && fixed[26] == |p.segments|;
    assert PageBytes(p)[6..14] == fixed[6..14] && PageBytes(p)[14..26] == fixed[14..26];
    assert PageBytes(p)[..27] == fixed;
    assert PageBytes(p)[27 + i] == Lengths(p.segments)[i];
  }

  lemma {:induction false} LengthAt(segments: seq<Segment>, i: nat)
    requires i < |segments|
    ensures Lengths(segments)[i] == |segments[i]|
  {
    if i > 0 {
      LengthAt(segments[1..], i - 1);
    }
  }

  function StreamBytes(pages: seq<Page>): (b: seq<u8>)
    requires forall i :: 0 <= i < |pages| ==> WellFormed(pages[i])
  {
    if pages == [] then [] else PageBytes(pages[0]) + StreamBytes(pages[1..])
  }

  /** The segments of a run of pages, in order. */
  function Gathered(pages: seq<Page>): (segments: seq<Segment>) {
    if pages == [] then [] else pages[0].segments + Gathered(pages[1..])
  }

  /** The pages carry just these packets, cut anywhere between segments. */
  predicate Carries(pages: seq<Page>, packets: seq<seq<u8>>) {
    (forall i :: 0 <= i < |pages| ==> WellFormed(pages[i])) && Gathered(pages) == AllSegments(packets)
  }

  // ---------------------------------------------------------------- segments to packets

  function AddSegments(s: Stream, segments: seq<Segment>, stamps: seq<u64>): Stream
    requires |stamps| == |segments|
    decreases |segments|
  {
    if segments == [] then s
    else AddSegments(AddSegment(s, segments[0], stamps[0]), segments[1..], stamps[1..])
  }

  lemma {:induction false} AddSegmentsSplit(s: Stream, a: seq<Segment>, b: seq<Segment>, stamps: seq<u64>)
    requires |stamps| == |a| + |b|
    ensures AddSegments(s, a + b, stamps) == AddSegments(AddSegments(s, a, stamps[..|a|]), b, stamps[|a|..])
    decreases |a|
  {
    hide AddSegment;
    if a == [] {
      assert a + b == b && stamps[0..] == stamps;
    } else {
      var t := AddSegment(s, a[0], stamps[0]);
      AddSegmentsSplit(t, a[1..], b, stamps[1..]);
      assert (a + b)[0] == a[0] && (a + b)[1..] == a[1..] + b;
      assert stamps[1..][..|a| - 1] == stamps[..|a|][1..] && stamps[1..][|a| - 1..] == stamps[|a|..];
    }
  }

  /** Lacing a page's table and data is adding its segments; only the last carries the page's time. */
  lemma {:induction false} LaceIsAddSegments(s: Stream, segments: seq<Segment>, pts: u64)
    ensures Sum(Lengths(segments)) == |Concat(segments)|
    ensures Lace(s, Lengths(segments), Concat(segments), pts) == AddSegments(s, segments, PageStamps(|segments|, pts))
    decreases |segments|
  {
    hide AddSegment;
    if segments != [] {
      var table, data := Lengths(segments), Concat(segments);
      var stamps := PageStamps(|segments|, pts);
      var t := AddSegment(s, segments[0], stamps[0]);
      LaceIsAddSegments(t, segments[1..], pts);
      assert data[..table[0]] == segments[0] && data[table[0]..] == Concat(segments[1..]);
      assert table[1..] == Lengths(segments[1..]);
      assert stamps[1..] == PageStamps(|segments| - 1, pts);
    }
  }

  /** The times of a page's segments: the page's own for the last, none for the others. */
  function PageStamps(n: nat, pts: u64): (stamps: seq<u64>)
    ensures |stamps| == n
  {
    seq(n, i requires 0 <= i < n => if i + 1 == n then pts else 0)
  }

  /** A packet's segments make up the packet. */
  lemma {:induction false} PacketWhole(s: Stream, packet: seq<u8>, stamps: seq<u64>)
    requires |stamps| == |Segments(packet)|
    ensures AddSegments(s, Segments(packet), stamps)
      == Emit(s.(current := []), s.current + packet, stamps[|stamps| - 1])
    decreases |packet|
  {
    hide Emit;
    if |packet| < 255 {
      assert Segments(packet) == [packet];
      assert AddSegments(s, [packet], stamps) == AddSegment(s, packet, stamps[0]);
    } else {
      var t := AddSegment(s, packet[..255], stamps[0]);
      assert t == s.(current := s.current + packet[..255]);
      PacketWhole(t, packet[255..], stamps[1..]);
      assert Segments(packet)[1..] == Segments(packet[255..]);
      assert s.current + packet == t.current + packet[255..];
    }
  }

  // ---------------------------------------------------------------- whole streams

  /** The time given with each packet: that of its last segment. */
  function PacketTimes(packets: seq<seq<u8>>, stamps: seq<u64>): (times: seq<u64>)
    requires |stamps| == |AllSegments(packets)|
    ensures |times| == |packets|
    decreases |packets|
  {
    if packets == [] then []
    else
      var n := |packets[0]| / 255 + 1;
      [stamps[n - 1]] + PacketTimes(packets[1..], stamps[n..])
  }

  function EmitAll(s: Stream, packets: seq<seq<u8>>, times: seq<u64>): Stream
    requires |times| == |packets|
    decreases |packets|
  {
    if packets == [] then s else EmitAll(Emit(s, packets[0], times[0]), packets[1..], times[1..])
  }

  lemma {:induction false} PacketsWhole(s: Stream, packets: seq<seq<u8>>, stamps: seq<u64>)
    requires |stamps| == |AllSegments(packets)| && s.current == []
    ensures AddSegments(s, AllSegments(packets), stamps) == EmitAll(s, packets, PacketTimes(packets, stamps))
    decreases |packets|
  {
    hide Segments, Emit;
    if packets != [] {
      var p := packets[0];
      var n := |Segments(p)|;
      AddSegmentsSplit(s, Segments(p), AllSegments(packets[1..]), stamps);
      PacketWhole(s, p, stamps[..n]);
      assert s.current + p == p;
      assert s.(current := []) == s;
      EmitKeepsCurrent(s, p, stamps[n - 1]);
      PacketsWhole(Emit(s, p, stamps[n - 1]), packets[1..], stamps[n..]);
    }
  }

  lemma EmitKeepsCurrent(s: Stream, packet: seq<u8>, pts: u64)
    ensures Emit(s, packet, pts).current == s.current
  {
  }

  /** Audio packets as they are told to the owner. */
  function Audio(packets: seq<seq<u8>>, times: seq<u64>): (events: seq<Event>)
    requires |packets| == |times|
    ensures |events| == |packets|
  {
    seq(|packets|, i requires 0 <= i < |packets| => Packet(packets[i], times[i]))
  }

  lemma {:induction false} AudioAfterHeaders(s: Stream, packets: seq<seq<u8>>, times: seq<u64>)
    requires |times| == |packets| && s.emitted == 3
    ensures EmitAll(s, packets, times) == s.(out := s.out + Audio(packets, times))
    decreases |packets|
  {
    if packets == [] {
      assert s.out + Audio(packets, times) == s.out;
    } else {
      var t := Emit(s, packets[0], times[0]);
      AudioAfterHeaders(t, packets[1..], times[1..]);
      assert t.out + Audio(packets[1..], times[1..]) == s.out + Audio(packets, times);
    }
  }

  /** From a fresh demuxer: three headers as one event, then each audio packet once, in order. */
  lemma FromFresh(packets: seq<seq<u8>>, times: seq<u64>)
    requires |times| == |packets| >= 3
    ensures var announced := Announce(Fresh(), packets[0]);
      EmitAll(Fresh(), packets, times).out ==
      [Headers(packets[0] + packets[1] + packets[2], announced.rate, announced.channels, announced.bitrate)]
      + Audio(packets[3..], times[3..])
      && Announces(packets[0], announced.rate, announced.channels, announced.bitrate)
  {
    hide Announce, Announces;
    FormatAnnounced(packets[0]);
    var s0 := Fresh();
    var s1 := Emit(s0, packets[0], times[0]);
    AnnounceOnly(s0, packets[0]);
    assert s1.emitted == 1 && s1.out == [] && s1.headers == packets[0];
    var s2 := Emit(s1, packets[1], times[1]);
    AnnounceOnly(s1, packets[1]);
    assert s2.headers == packets[0] + packets[1];
    var s3 := Emit(s2, packets[2], times[2]);
    AnnounceOnly(s2, packets[2]);
    UnfoldThree(s0, packets, times);
    AudioAfterHeaders(s3, packets[3..], times[3..]);
  }

  lemma AnnounceOnly(s: Stream, packet: seq<u8>)
    ensures var t := Announce(s, packet);
      t == s.(rate := t.rate, channels := t.channels, bitrate := t.bitrate)
    ensures s.emitted > 0 ==> Announce(s, packet) == s
  {
  }

  lemma UnfoldThree(s: Stream, packets: seq<seq<u8>>, times: seq<u64>)
    requires |times| == |packets| >= 3
    ensures EmitAll(s, packets, times)
      == EmitAll(Emit(Emit(Emit(s, packets[0], times[0]), packets[1], times[1]), packets[2], times[2]),
                 packets[3..], times[3..])
  {
    hide Emit;
    var p1, t1 := packets[1..], times[1..];
    var p2, t2 := p1[1..], t1[1..];
    assert p2[1..] == packets[3..] && t2[1..] == times[3..];
  }

  // ---------------------------------------------------------------- pages to segments

  lemma HeaderFields(p: Page, rest: seq<u8>)
    requires WellFormed(p)
    ensures var b := PageBytes(p) + rest;
      var n := |p.segments|;
      && |PageBytes(p)| == HEADER_SIZE + n + |Concat(p.segments)|
      && b[0..4] == MAGIC && b[6..14] == p.granule && b[26] == n
      && b[HEADER_SIZE..HEADER_SIZE + n] == Lengths(p.segments)
      && b[HEADER_SIZE + n..HEADER_SIZE + n + |Concat(p.segments)|] == Concat(p.segments)
  {
    hide Concat, Lengths;
  }

  /** A page at the front of the buffer is taken whole, whatever follows. */
  lemma PageTaken(s: Stream, p: Page, rest: seq<u8>)
    requires WellFormed(p)
    ensures Drain(s, PageBytes(p) + rest)
      == Drain(AddSegments(s, p.segments, PageStamps(|p.segments|, PageTime(p, s.rate))), rest)
  {
    hide Sum, PageBytes, Lengths, Concat, AddSegments, Lace, PageTime;
    var page := PageBytes(p);
    var b := page + rest;
    HeaderFields(p, rest);
    HeaderFields(p, []);
    assert page + [] == page;
    LaceIsAddSegments(s, p.segments, PageTime(p, s.rate));
    assert b[..|page|] == page && b[|page|..] == rest;
    PageTimeOf(p, page, s.rate);
  }

  function PageTime(p: Page, rate: u32): (pts: u64)
    requires WellFormed(p)
  {
    LeBound8(p.granule);
    Milliseconds(LeVal(p.granule), rate)
  }

  lemma PageTimeOf(p: Page, page: seq<u8>, rate: u32)
    requires WellFormed(p) && |page| >= HEADER_SIZE && page[6..14] == p.granule
    ensures PageTime(p, rate) == Milliseconds(Granule(page), rate)
  {
    hide LeVal, Milliseconds;
  }

  /** The times of the segments of a run of pages, each page's taken at the rate known when it is reached. */
  function Stamps(s: Stream, pages: seq<Page>): (stamps: seq<u64>)
    requires forall i :: 0 <= i < |pages| ==> WellFormed(pages[i])
    ensures |stamps| == |Gathered(pages)|
    decreases |pages|
  {
    if pages == [] then []
    else
      var stamps := PageStamps(|pages[0].segments|, PageTime(pages[0], s.rate));
      stamps + Stamps(AddSegments(s, pages[0].segments, stamps), pages[1..])
  }

  lemma {:induction false} PagesTaken(s: Stream, pages: seq<Page>, rest: seq<u8>)
    requires forall i :: 0 <= i < |pages| ==> WellFormed(pages[i])
    ensures Drain(s, StreamBytes(pages) + rest) == Drain(AddSegments(s, Gathered(pages), Stamps(s, pages)), rest)
    decreases |pages|
  {
    hide Drain, AddSegments, PageBytes, PageTime, PageStamps;
    if pages == [] {
      assert StreamBytes(pages) + rest == rest;
      AddNothing(s);
    } else {
      var p, tail := pages[0], StreamBytes(pages[1..]);
      var stamps := PageStamps(|p.segments|, PageTime(p, s.rate));
      var t := AddSegments(s, p.segments, stamps);
      assert StreamBytes(pages) + rest == PageBytes(p) + (tail + rest);
      PageTaken(s, p, tail + rest);
      PagesTaken(t, pages[1..], rest);
      var all := Stamps(s, pages);
      assert all[..|p.segments|] == stamps && all[|p.segments|..] == Stamps(t, pages[1..]);
      AddSegmentsSplit(s, p.segments, Gathered(pages[1..]), all);
    }
  }

  /** The times of segments when the rate is known beforehand. */
  function SettledStamps(pages: seq<Page>, rate: u32): (stamps: seq<u64>)
    requires forall i :: 0 <= i < |pages| ==> WellFormed(pages[i])
  {
    if pages == [] then []
    else PageStamps(|pages[0].segments|, PageTime(pages[0], rate)) + SettledStamps(pages[1..], rate)
  }

  /** Once the first packet is out, every later page's time is taken at the rate it announced. */
  lemma {:induction false} StampsSettled(s: Stream, pages: seq<Page>)
    requires s.emitted > 0 && forall i :: 0 <= i < |pages| ==> WellFormed(pages[i])
    ensures Stamps(s, pages) == SettledStamps(pages, s.rate)
    decreases |pages|
  {
    hide AddSegments, PageTime, PageStamps;
    if pages != [] {
      var stamps := PageStamps(|pages[0].segments|, PageTime(pages[0], s.rate));
      RateKept(s, pages[0].segments, stamps);
      StampsSettled(AddSegments(s, pages[0].segments, stamps), pages[1..]);
    }
  }

  lemma {:induction false} RateKept(s: Stream, segments: seq<Segment>, stamps: seq<u64>)
    requires s.emitted > 0 && |stamps| == |segments|
    ensures AddSegments(s, segments, stamps).rate == s.rate && AddSegments(s, segments, stamps).emitted > 0
    decreases |segments|
  {
    if segments != [] {
      RateKept(AddSegment(s, segments[0], stamps[0]), segments[1..], stamps[1..]);
    }
  }

  lemma AddNothing(s: Stream)
    ensures AddSegments(s, [], []) == s
  {
  }

  /** The central result: any packets, laced and paged in any way, come out of a fresh demuxer as they went in. */
  lemma PacketsDelivered(pages: seq<Page>, packets: seq<seq<u8>>)
    requires Carries(pages, packets) && |packets| >= 3
    ensures var announced := Announce(Fresh(), packets[0]);
      var (s, rest) := Drain(Fresh(), StreamBytes(pages));
      && rest == [] && s.current == []
      && Announces(packets[0], announced.rate, announced.channels, announced.bitrate)
      && s.out ==
         [Headers(packets[0] + packets[1] + packets[2], announced.rate, announced.channels, announced.bitrate)]
         + Audio(packets[3..], PacketTimes(packets, Stamps(Fresh(), pages))[3..])
  {
    hide AllSegments, Gathered, Stamps, Announce, Announces, EmitAll;
    var stamps := Stamps(Fresh(), pages);
    assert StreamBytes(pages) + [] == StreamBytes(pages);
    PagesTaken(Fresh(), pages, []);
    PacketsWhole(Fresh(), packets, stamps);
    FromFresh(packets, PacketTimes(packets, stamps));
    EmitAllCurrent(Fresh(), packets, PacketTimes(packets, stamps));
  }

  lemma {:induction false} EmitAllCurrent(s: Stream, packets: seq<seq<u8>>, times: seq<u64>)
    requires |times| == |packets|
    ensures EmitAll(s, packets, times).current == s.current
    decreases |packets|
  {
    hide Announce;
    if packets != [] {
      EmitKeepsCurrent(s, packets[0], times[0]);
      EmitAllCurrent(Emit(s, packets[0], times[0]), packets[1..], times[1..]);
    }
  }

  // ---------------------------------------------------------------- which page's time a packet gets

  /** The place of packet k's last segment among all segments. */
  function EndSegment(packets: seq<seq<u8>>, k: nat): (i: nat)
    requires k < |packets|
    ensures i < |AllSegments(packets)|
    decreases k
  {
    var n := |packets[0]| / 255 + 1;
    if k == 0 then n - 1 else n + EndSegment(packets[1..], k - 1)
  }

  /** The page that segment i lies on. */
  function PageOfSegment(pages: seq<Page>, i: nat): (q: nat)
    requires i < |Gathered(pages)|
    ensures q < |pages|
  {
    var n := |pages[0].segments|;
    if i < n then 0 else 1 + PageOfSegment(pages[1..], i - n)
  }

  predicate LastOnPage(pages: seq<Page>, i: nat)
    requires i < |Gathered(pages)|
  {
    var n := |pages[0].segments|;
    if i < n then i + 1 == n else LastOnPage(pages[1..], i - n)
  }

  /** The time of page q, at the rate known when the demuxer reaches it. */
  function TimeOfPage(s: Stream, pages: seq<Page>, q: nat): (pts: u64)
    requires q < |pages| && forall i :: 0 <= i < |pages| ==> WellFormed(pages[i])
    decreases q
  {
    var pts := PageTime(pages[0], s.rate);
    if q == 0 then pts
    else TimeOfPage(AddSegments(s, pages[0].segments, PageStamps(|pages[0].segments|, pts)), pages[1..], q - 1)
  }

  lemma {:induction false} StampAt(s: Stream, pages: seq<Page>, i: nat)
    requires i < |Gathered(pages)| && forall j :: 0 <= j < |pages| ==> WellFormed(pages[j])
    ensures Stamps(s, pages)[i] == if LastOnPage(pages, i) then TimeOfPage(s, pages, PageOfSegment(pages, i)) else 0
    decreases |pages|
  {
    hide AddSegments, PageTime;
    var n := |pages[0].segments|;
    if i >= n {
      var stamps := PageStamps(n, PageTime(pages[0], s.rate));
      StampAt(AddSegments(s, pages[0].segments, stamps), pages[1..], i - n);
    }
  }

  lemma {:induction false} PacketTimeAt(packets: seq<seq<u8>>, stamps: seq<u64>, k: nat)
    requires |stamps| == |AllSegments(packets)| && k < |packets|
    ensures PacketTimes(packets, stamps)[k] == stamps[EndSegment(packets, k)]
    decreases k
  {
    if k > 0 {
      PacketTimeAt(packets[1..], stamps[|packets[0]| / 255 + 1..], k - 1);
    }
  }

  /** A packet gets the time of the page that holds its end exactly when it ends with that page, or that time is 0. */
  lemma EndPageTime(s: Stream, pages: seq<Page>, packets: seq<seq<u8>>, k: nat)
    requires Carries(pages, packets) && k < |packets|
    ensures var i := EndSegment(packets, k);
      var time := PacketTimes(packets, Stamps(s, pages))[k];
      var pageTime := TimeOfPage(s, pages, PageOfSegment(pages, i));
      && (time == pageTime <==> LastOnPage(pages, i) || pageTime == 0)
      && (time == pageTime || time == 0)
  {
    hide Stamps, TimeOfPage, AllSegments, Gathered, LastOnPage, PageOfSegment, EndSegment;
    PacketTimeAt(packets, Stamps(s, pages), k);
    StampAt(s, pages, EndSegment(packets, k));
  }

  /** Two short packets on one page: the second gets the page's time, and the first gets none. */
  lemma FirstOfTwoUntimed(s: Stream, p: Page, rest: seq<u8>)
    requires s.emitted == 3 && s.current == [] && WellFormed(p)
    requires |p.segments| == 2 && |p.segments[0]| < 255 && |p.segments[1]| < 255
    ensures Drain(s, PageBytes(p) + rest) == Drain(s.(out := s.out
      + [Packet(p.segments[0], 0), Packet(p.segments[1], PageTime(p, s.rate))]), rest)
  {
    hide Drain, PageBytes, PageTime;
    var a, b, pts := p.segments[0], p.segments[1], PageTime(p, s.rate);
    PageTaken(s, p, rest);
    assert p.segments == [a, b] && PageStamps(2, pts) == [0, pts];
    assert [a, b][1..] == [b] && [0, pts][1..] == [pts];
    assert [] + a == a && [] + b == b;
    var t := s.(out := s.out + [Packet(a, 0)]);
    assert AddSegment(s, a, 0) == t;
    assert t.out + [Packet(b, pts)] == s.out + [Packet(a, 0), Packet(b, pts)];
    assert AddSegments(t, [b], [pts]) == AddSegment(t, b, pts);
  }

  /** Bytes in front of the first page that hold no start of a page are skipped. */
  lemma JunkSkipped(s: Stream, junk: seq<u8>, stream: seq<u8>)
    requires |stream| >= HEADER_SIZE && MagicAt(stream, 0)
    requires forall i :: 0 <= i < |junk| ==> !MagicAt(junk + stream, i)
    ensures Drain(s, junk + stream) == Drain(s, stream)
  {
    hide AddPage, Sum;
    if junk == [] {
      assert junk + stream == stream;
    } else {
      var b := junk + stream;
      assert MagicAt(b, |junk|) by {
        assert b[|junk|..|junk| + 4] == stream[0..4];
      }
      var k := FindMagic(b, 1);
      assert k == |junk|;
      assert b[k..] == stream;
    }
  }
}
