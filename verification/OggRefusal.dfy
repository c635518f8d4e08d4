/** The demuxer in front of a sink that may refuse packets. */
module OggRefusal {
  import opened Bits
  import opened OggPages

  /** The sink's answer to each offer, by its number. */
  type Sink = nat -> bool

  datatype Option<T> = None | Some(value: T)

  /** What the demuxer knows, the packet that is held back, and how many packets have been offered. */
  datatype Flow = Flow(stream: Stream, held: Option<Event>, offers: nat)

  ghost predicate Accepting(sink: Sink) {
    forall n :: sink(n)
  }

  /** One packet; false when the sink refuses it. */
  function Offer(sink: Sink, f: Flow, packet: seq<u8>, pts: u64): (r: (Flow, bool)) {
    if f.stream.emitted < 3 then (f.(stream := Emit(f.stream, packet, pts)), true)
    else if sink(f.offers) then (f.(stream := Emit(f.stream, packet, pts), offers := f.offers + 1), true)
    else (f.(held := Some(Packet(packet, pts)), offers := f.offers + 1), false)
  }

  function OfferSegment(sink: Sink, f: Flow, body: seq<u8>, pts: u64): (r: (Flow, bool)) {
    var t := f.stream.(current := f.stream.current + body);
    if |body| < 255 then Offer(sink, f.(stream := t.(current := [])), t.current, pts) else (f.(stream := t), true)
  }

  /** The segments of a page; those behind a refused packet are not looked at. */
  function OfferLace(sink: Sink, f: Flow, table: seq<u8>, data: seq<u8>, pts: u64): (r: (Flow, bool))
    requires Sum(table) == |data|
    decreases |table|
  {
    if table == [] then (f, true)
    else
      var n := table[0];
      var (g, ok) := OfferSegment(sink, f, data[..n], if |table| == 1 then pts else 0);
      if ok then OfferLace(sink, g, table[1..], data[n..], pts) else (g, false)
  }

  function OfferPage(sink: Sink, f: Flow, page: seq<u8>): (r: (Flow, bool))
    requires |page| >= HEADER_SIZE && |page| >= HEADER_SIZE + page[26]
    requires |page| == HEADER_SIZE + page[26] + Sum(page[HEADER_SIZE..HEADER_SIZE + page[26]])
  {
    var header := HEADER_SIZE + page[26];
    OfferLace(sink, f, page[HEADER_SIZE..header], page[header..], Milliseconds(Granule(page), f.stream.rate))
  }

  /** Takes all the pages it can, up to the first in which a packet is refused. */
  function OfferAll(sink: Sink, f: Flow, b: seq<u8>): (r: (Flow, seq<u8>))
    decreases |b|
  {
    match Next(b)
    case Wait => (f, b)
    case Skip(k) => OfferAll(sink, f, b[k..])
    case Page(n) =>
      PageOf(b);
      var (g, ok) := OfferPage(sink, f, b[..n]);
      if ok then OfferAll(sink, g, b[n..]) else (g, b[n..])
  }

  /** The held packet, offered again. */
  function Retried(sink: Sink, f: Flow): (r: (Flow, bool)) {
    if f.held.None? then (f, true)
    else if sink(f.offers) then
      (Flow(f.stream.(out := f.stream.out + [f.held.value]), None, f.offers + 1), true)
    else (f.(offers := f.offers + 1), false)
  }

  /** A push: first the held packet, and while that is refused nothing else. */
  function Pushed(sink: Sink, f: Flow, b: seq<u8>): (r: (Flow, seq<u8>, bool)) {
    var (g, ok) := Retried(sink, f);
    if ok then
      var (h, rest) := OfferAll(sink, g, b);
      (h, rest, true)
    else (g, b, false)
  }

  // ---------------------------------------------------------------- a sink that accepts everything

  lemma {:induction false} AcceptedLace(sink: Sink, f: Flow, table: seq<u8>, data: seq<u8>, pts: u64)
    requires Accepting(sink) && Sum(table) == |data|
    ensures var (g, ok) := OfferLace(sink, f, table, data, pts);
      ok && g.stream == Lace(f.stream, table, data, pts) && g.held == f.held
    decreases |table|
  {
    hide Emit;
    if table != [] {
      var n := table[0];
      var (g, ok) := OfferSegment(sink, f, data[..n], if |table| == 1 then pts else 0);
      AcceptedLace(sink, g, table[1..], data[n..], pts);
    }
  }

  /** The general demuxer is the plain one when nothing is refused. */
  lemma {:induction false} AcceptedAll(sink: Sink, f: Flow, b: seq<u8>)
    requires Accepting(sink)
    ensures var (g, rest) := OfferAll(sink, f, b);
      (g.stream, rest) == Drain(f.stream, b) && g.held == f.held
    decreases |b|
  {
    hide Next, OfferLace, Lace, Milliseconds, Granule;
    match Next(b)
    case Wait =>
    case Skip(k) => AcceptedAll(sink, f, b[k..]);
    case Page(n) =>
      PageOf(b);
      var page := b[..n];
      var header := HEADER_SIZE + page[26];
      AcceptedLace(sink, f, page[HEADER_SIZE..header], page[header..], Milliseconds(Granule(page), f.stream.rate));
      AcceptedAll(sink, OfferPage(sink, f, page).0, b[n..]);
  }

  // ---------------------------------------------------------------- a refused packet

  /** A refused packet is the one that is held; it is offered before anything else, as often as it takes. */
  lemma HeldComesFirst(sink: Sink, f: Flow, b: seq<u8>)
    requires f.held.Some?
    ensures var (g, rest, ok) := Pushed(sink, f, b);
      && ok == sink(f.offers)
      && (!ok ==> g == f.(offers := f.offers + 1) && rest == b)
      && (ok ==>
        (g, rest) == OfferAll(sink, Flow(f.stream.(out := f.stream.out + [f.held.value]), None, f.offers + 1), b))
  {
    hide OfferAll;
  }

  /** The stream once the held packet has been taken after all. */
  function Recovered(f: Flow): (s: Stream) {
    if f.held.Some? then f.stream.(out := f.stream.out + [f.held.value]) else f.stream
  }

  /** Bytes and packets that have been seen, counted together. */
  function Weight(s: Stream): (w: nat) {
    |s.out| + OutBytes(s.out) + |s.headers| + s.emitted + |s.current|
  }

  function OutBytes(out: seq<Event>): (n: nat) {
    if out == [] then 0
    else OutBytes(out[..|out| - 1]) + (if out[|out| - 1].Packet? then |out[|out| - 1].data| else 0)
  }

  lemma OutBytesSnoc(out: seq<Event>, e: Event)
    ensures OutBytes(out + [e]) == OutBytes(out) + if e.Packet? then |e.data| else 0
  {
    assert (out + [e])[..|out|] == out;
  }

  lemma EmitWeighs(s: Stream, packet: seq<u8>, pts: u64)
    ensures Weight(Emit(s, packet, pts)) > Weight(s) + |packet|
  {
    hide OutBytes;
    if s.emitted >= 3 {
      OutBytesSnoc(s.out, Packet(packet, pts));
    } else {
      var t := Emit(s, packet, pts);
      OutBytesSnoc(s.out, Headers(t.headers, t.rate, t.channels, t.bitrate));
    }
  }

  lemma {:induction false} LaceWeighs(s: Stream, table: seq<u8>, data: seq<u8>, pts: u64)
    requires Sum(table) == |data|
    ensures table != [] ==> Weight(Lace(s, table, data, pts)) > Weight(s)
    ensures table == [] ==> Lace(s, table, data, pts) == s
    decreases |table|
  {
    hide Emit, Weight;
    if table != [] {
      var n := table[0];
      var stamp := if |table| == 1 then pts else 0;
      var t := s.(current := s.current + data[..n]);
      CurrentWeighs(s, t.current);
      CurrentWeighs(t, []);
      EmitWeighs(t.(current := []), t.current, stamp);
      LaceWeighs(AddSegment(s, data[..n], stamp), table[1..], data[n..], pts);
    }
  }

  lemma CurrentWeighs(s: Stream, current: seq<u8>)
    ensures Weight(s.(current := current)) == Weight(s) - |s.current| + |current|
  {
  }

  /** How many segments of a page are looked at. */
  function Seen(sink: Sink, f: Flow, table: seq<u8>, data: seq<u8>, pts: u64): (n: nat)
    requires Sum(table) == |data|
    ensures n <= |table|
    decreases |table|
  {
    if table == [] then 0
    else
      var n := table[0];
      var (g, ok) := OfferSegment(sink, f, data[..n], if |table| == 1 then pts else 0);
      1 + if ok then Seen(sink, g, table[1..], data[n..], pts) else 0
  }

  /** A refusal loses nothing exactly when the refused packet ends the page: what stands behind it there is dropped. */
  lemma {:induction false} NothingLostIff(sink: Sink, f: Flow, table: seq<u8>, data: seq<u8>, pts: u64)
    requires Sum(table) == |data| && f.held.None?
    ensures Recovered(OfferLace(sink, f, table, data, pts).0) == Lace(f.stream, table, data, pts)
      <==> Seen(sink, f, table, data, pts) == |table|
    decreases |table|
  {
    hide Emit;
    if table != [] {
      var n := table[0];
      var stamp := if |table| == 1 then pts else 0;
      var (g, ok) := OfferSegment(sink, f, data[..n], stamp);
      if ok {
        OfferedIsAdded(sink, f, data[..n], stamp);
        NothingLostIff(sink, g, table[1..], data[n..], pts);
      } else {
        RefusedIsHeld(sink, f, data[..n], stamp);
        LaceWeighs(Recovered(g), table[1..], data[n..], pts);
      }
    }
  }

  lemma OfferedIsAdded(sink: Sink, f: Flow, body: seq<u8>, pts: u64)
    requires OfferSegment(sink, f, body, pts).1 && f.held.None?
    ensures OfferSegment(sink, f, body, pts).0.stream == AddSegment(f.stream, body, pts)
    ensures OfferSegment(sink, f, body, pts).0.held.None?
  {
    hide Emit;
  }

  /** With a refused packet taken after all, the stream is as if it had been accepted at once. */
  lemma RefusedIsHeld(sink: Sink, f: Flow, body: seq<u8>, pts: u64)
    requires !OfferSegment(sink, f, body, pts).1
    ensures Recovered(OfferSegment(sink, f, body, pts).0) == AddSegment(f.stream, body, pts)
  {
  }

  /** Two packets on one page, the first refused: the second is never offered. */
  lemma SecondIsLost(f: Flow)
    requires f.stream.emitted == 3 && f.stream.current == [] && f.held.None?
    ensures var (g, ok) := OfferLace(n => false, f, [1, 1], [0x61, 0x62], 0);
      !ok && g.held == Some(Packet([0x61], 0)) && g.stream == f.stream && g.offers == f.offers + 1
  {
    var data: seq<u8> := [0x61, 0x62];
    assert data[..1] == [0x61];
    assert f.stream.current + data[..1] == [0x61];
    assert Sum([1, 1]) == 2 by {
      TwoOnes();
    }
  }

  lemma TwoOnes()
    ensures Sum([1, 1]) == 2
  {
    assert [1, 1][1..] == [1] && [1][1..] == [];
  }
}
