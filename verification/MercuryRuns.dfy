/** Whole runs of the dispatcher: any requests, any bytes from the network, any requests given up. */
module MercuryRuns {
  import opened Bits
  import BigEndian
  import opened Mercury

  /** A request is sent, the body of a packet comes, or a request is given up. */
  datatype Event = Request | Arrive(data: seq<u8>) | GiveUp(seqNo: u64)

  function Step(t: Table, e: Event): (u: Table) {
    if t.stopped then t
    else
      match e
      case Request => t.(pending := t.pending[t.next := NOTHING], next := Low64(t.next + 1))
      case Arrive(data) => Apply(t, Handle(t.pending, data))
      case GiveUp(k) => t.(pending := t.pending - {k})
  }

  function Before(events: seq<Event>): seq<Event>
    requires events != []
  {
    events[..|events| - 1]
  }

  function Last(events: seq<Event>): Event
    requires events != []
  {
    events[|events| - 1]
  }

  function Run(t: Table, events: seq<Event>): (u: Table)
    decreases |events|
  {
    if events == [] then t else Step(Run(t, Before(events)), Last(events))
  }

  /** Numbers in use are below the next, and none is delivered twice or still awaited after delivery. */
  ghost predicate Sound(t: Table) {
    && (forall k :: k in t.pending ==> k < t.next)
    && (forall i :: 0 <= i < |t.completed| ==> t.completed[i].0 < t.next && t.completed[i].0 !in t.pending)
    && (forall i, j :: 0 <= i < j < |t.completed| ==> t.completed[i].0 != t.completed[j].0)
  }

  lemma StepSound(t: Table, e: Event)
    requires Sound(t) && t.next + 1 < MAX64
    ensures Sound(Step(t, e)) && t.next <= Step(t, e).next <= t.next + 1
  {
    hide Handle;
  }

  /** Until the numbers run out, no request is answered twice. */
  lemma {:induction false} RunSound(t: Table, events: seq<Event>)
    requires Sound(t) && t.next + |events| < MAX64
    ensures Sound(Run(t, events)) && Run(t, events).next <= t.next + |events|
    decreases |events|
  {
    hide Sound, Step;
    if events != [] {
      RunSound(t, Before(events));
      StepSound(Run(t, Before(events)), Last(events));
    }
  }

  // ---------------------------------------------------------------- one request's own traffic

  /** The request that a packet is for, by the number it bears. */
  predicate IsFor(data: seq<u8>, k: u64) {
    ReadHead(data).Some? && ReadHead(data).value.seqNo == k
  }

  function Taken(r: Reply, data: seq<u8>): (q: Reply)
    requires ReadHead(data).Some?
  {
    var h := ReadHead(data).value;
    TakePieces(r, data[h.at..], h.parts, h.flags).0
  }

  /** A final packet that is not cut short. */
  predicate Finishes(data: seq<u8>)
    requires ReadHead(data).Some?
  {
    var h := ReadHead(data).value;
    h.flags == FINAL && TakePieces(NOTHING, data[h.at..], h.parts, h.flags).1
  }

  /** Whether a packet is cut short does not depend on what came before it. */
  lemma {:induction false} WholeAlways(r: Reply, q: Reply, data: seq<u8>, left: nat, flags: u8)
    ensures TakePieces(r, data, left, flags).1 == TakePieces(q, data, left, flags).1
    decreases left
  {
    hide AddPiece;
    if left > 0 && |data| >= 2 && 2 + BigEndian.BeVal(data[..2]) <= |data| {
      var end := 2 + BigEndian.BeVal(data[..2]);
      var goesOn := left == 1 && flags == CONTINUED;
      WholeAlways(AddPiece(r, data[2..end], goesOn), AddPiece(q, data[2..end], goesOn), data[end..], left - 1, flags);
    }
  }

  lemma HandleOwn(pending: map<u64, Reply>, data: seq<u8>, k: u64)
    requires IsFor(data, k)
    ensures Handle(pending, data) ==
      if k !in pending then Ignored
      else if Finishes(data) then Finish(k, Taken(pending[k], data))
      else Updated(k, Taken(pending[k], data))
  {
    hide TakePieces, ReadHead, Finish;
    if k in pending {
      var h := ReadHead(data).value;
      WholeAlways(pending[k], NOTHING, data[h.at..], h.parts, h.flags);
    }
  }

  lemma HandleForeign(pending: map<u64, Reply>, data: seq<u8>, k: u64)
    requires !IsFor(data, k)
    ensures Handle(pending, data).Ignored? || Handle(pending, data).seqNo != k
  {
    hide TakePieces, ReadHead, Finish;
  }

  /** The number that the next request takes. */
  function NextNo(t: Table, events: seq<Event>): (n: nat)
    ensures t.next <= n <= t.next + |events|
    decreases |events|
  {
    if events == [] then t.next
    else NextNo(t, Before(events)) + if Last(events) == Request then 1 else 0
  }

  /** One request followed through its own traffic, as if nothing else had come: what it has, while it is awaited. */
  function Follow(t: Table, events: seq<Event>, k: u64): (r: Option<Reply>)
    decreases |events|
  {
    if events == [] then if k in t.pending then Some(t.pending[k]) else None
    else
      var r := Follow(t, Before(events), k);
      match Last(events)
      case Request => if NextNo(t, Before(events)) == k then Some(NOTHING) else r
      case GiveUp(j) => if j == k then None else r
      case Arrive(data) =>
        if !IsFor(data, k) || r.None? then r
        else if Finishes(data) then None
        else Some(Taken(r.value, data))
  }

  /** What an event settles for a request, after others. */
  function Settles(t: Table, before: seq<Event>, e: Event, k: u64): (o: Option<Effect>)
    ensures o.Some? ==> (o.value.Completed? || o.value.Failed?) && o.value.seqNo == k
  {
    var r := Follow(t, before, k);
    if r.Some? && e.Arrive? && IsFor(e.data, k) && Finishes(e.data) then Some(Finish(k, Taken(r.value, e.data)))
    else None
  }

  /** The event is the last packet of an awaited request, and brings a header that cannot be read. */
  predicate Kills(t: Table, before: seq<Event>, e: Event) {
    && e.Arrive? && ReadHead(e.data).Some?
    && var o := Settles(t, before, e, ReadHead(e.data).value.seqNo);
    o.Some? && o.value.Failed?
  }

  /** No event ends the program. */
  predicate Safe(t: Table, events: seq<Event>)
    decreases |events|
  {
    events == [] || (Safe(t, Before(events)) && !Kills(t, Before(events), Last(events)))
  }

  /** While no event ends the program, each request stands where its own traffic has brought it. */
  lemma {:induction false} RunFollows(t: Table, events: seq<Event>, k: u64)
    requires !t.stopped && t.next + |events| < MAX64 && Safe(t, events)
    ensures var u := Run(t, events);
      && !u.stopped && u.next == NextNo(t, events)
      && Follow(t, events, k) == if k in u.pending then Some(u.pending[k]) else None
    decreases |events|
  {
    hide Handle, ReadHead, Taken, Finishes, Finish;
    if events != [] {
      var before, e := Before(events), Last(events);
      var u := Run(t, before);
      RunFollows(t, before, k);
      match e
      case Request =>
      case GiveUp(j) =>
      case Arrive(data) =>
        if ReadHead(data).Some? {
          var j := ReadHead(data).value.seqNo;
          RunFollows(t, before, j);
          HandleOwn(u.pending, data, j);
        } else {
          HandleForeign(u.pending, data, k);
          NothingRead(u.pending, data);
        }
    }
  }

  lemma NothingRead(pending: map<u64, Reply>, data: seq<u8>)
    requires ReadHead(data).None?
    ensures Handle(pending, data) == Ignored
  {
  }

  /** The program ends exactly at the first event that kills it, and nothing happens afterwards. */
  lemma {:induction false} StopsExactly(t: Table, events: seq<Event>)
    requires !t.stopped && t.next + |events| < MAX64
    ensures Run(t, events).stopped <==> !Safe(t, events)
    decreases |events|
  {
    hide Handle, ReadHead, Taken, Finishes, Finish;
    if events != [] {
      var before, e := Before(events), Last(events);
      StopsExactly(t, before);
      if Safe(t, before) && e.Arrive? {
        var u := Run(t, before);
        if ReadHead(e.data).Some? {
          var j := ReadHead(e.data).value.seqNo;
          RunFollows(t, before, j);
          HandleOwn(u.pending, e.data, j);
        } else {
          NothingRead(u.pending, e.data);
        }
      }
    }
  }

  // ---------------------------------------------------------------- what is delivered

  /** The replies delivered for one request. */
  function Delivered(completed: seq<(u64, Reply)>, k: u64): (replies: seq<Reply>) {
    if completed == [] then []
    else
      var n := |completed| - 1;
      Delivered(completed[..n], k) + if completed[n].0 == k then [completed[n].1] else []
  }

  lemma DeliveredSnoc(completed: seq<(u64, Reply)>, last: (u64, Reply), k: u64)
    ensures Delivered(completed + [last], k) == Delivered(completed, k) + if last.0 == k then [last.1] else []
  {
    assert (completed + [last])[..|completed|] == completed;
  }

  /** What a request is owed: the reply that its own traffic completes, if the program is still there. */
  function Owed(t: Table, events: seq<Event>, k: u64): (replies: seq<Reply>)
    decreases |events|
  {
    if events == [] then []
    else
      var o := Settles(t, Before(events), Last(events), k);
      Owed(t, Before(events), k)
        + if Safe(t, Before(events)) && o.Some? && o.value.Completed? then [o.value.reply] else []
  }

  /** Over any traffic whatever, each request gets exactly what its own packets make up before the program ends. */
  lemma {:induction false} DeliveredAsOwed(t: Table, events: seq<Event>, k: u64)
    requires !t.stopped && t.next + |events| < MAX64
    ensures Delivered(Run(t, events).completed, k) == Delivered(t.completed, k) + Owed(t, events, k)
    decreases |events|
  {
    hide Handle, ReadHead, Taken, Finishes, Finish, Delivered, Safe, Follow;
    if events == [] {
      assert Delivered(t.completed, k) + [] == Delivered(t.completed, k);
    } else {
      var before, e := Before(events), Last(events);
      var u := Run(t, before);
      DeliveredAsOwed(t, before, k);
      StopsExactly(t, before);
      if Safe(t, before) {
        StepDelivers(t, before, e, k);
      }
    }
  }

  lemma StepDelivers(t: Table, before: seq<Event>, e: Event, k: u64)
    requires !t.stopped && t.next + |before| + 1 < MAX64 && Safe(t, before)
    ensures var o := Settles(t, before, e, k);
      Delivered(Step(Run(t, before), e).completed, k) == Delivered(Run(t, before).completed, k)
        + if o.Some? && o.value.Completed? then [o.value.reply] else []
  {
    hide Handle, ReadHead, Taken, Finishes, Finish, Delivered, Safe, Follow, Run;
    var u := Run(t, before);
    RunFollows(t, before, k);
    if e.Arrive? {
      if IsFor(e.data, k) {
        HandleOwn(u.pending, e.data, k);
      } else {
        HandleForeign(u.pending, e.data, k);
      }
      var o := Handle(u.pending, e.data);
      if o.Completed? {
        DeliveredSnoc(u.completed, (o.seqNo, o.reply), k);
      }
    }
  }

  // ---------------------------------------------------------------- replies as they are made

  /** The packets for one request among all that comes. */
  function Own(events: seq<Event>, k: u64): (own: seq<seq<u8>>)
    decreases |events|
  {
    if events == [] then []
    else
      Own(Before(events), k) + if Last(events).Arrive? && IsFor(Last(events).data, k) then [Last(events).data] else []
  }

  /** These are just those packets, each with any bytes behind it. */
  predicate Sent(own: seq<seq<u8>>, packets: seq<Packet>, tails: seq<seq<u8>>, k: u64) {
    && |own| == |packets| == |tails|
    && forall i :: 0 <= i < |own| ==>
      WellFormed(packets[i]) && packets[i].seqNo == k && own[i] == PacketBytes(packets[i]) + tails[i]
  }

  lemma TakenPacket(r: Reply, p: Packet, tail: seq<u8>)
    requires WellFormed(p)
    ensures var data := PacketBytes(p) + tail;
      && IsFor(data, p.seqNo) && Taken(r, data) == AddPieces(r, p.pieces, p.flags)
      && (Finishes(data) <==> p.flags == FINAL)
  {
    hide ReadHead, PacketBytes, PieceBytes, TakePieces, AddPieces;
    HeadOfPacket(p, tail);
    TakesAllPieces(r, p.pieces, p.flags, tail);
    TakesAllPieces(NOTHING, p.pieces, p.flags, tail);
  }

  /** Only the last packet of the reply is marked as final. */
  predicate EndsOnce(packets: seq<Packet>) {
    packets != [] && forall i :: 0 <= i < |packets| ==> (packets[i].flags == FINAL <==> i == |packets| - 1)
  }

  lemma {:induction false} AddPacketsSnoc(r: Reply, packets: seq<Packet>, p: Packet)
    ensures AddPackets(r, packets + [p]) == AddPieces(AddPackets(r, packets), p.pieces, p.flags)
    decreases |packets|
  {
    hide AddPieces;
    if packets == [] {
      assert [p][1..] == [];
      assert [] + [p] == [p];
    } else {
      assert (packets + [p])[0] == packets[0] && (packets + [p])[1..] == packets[1..] + [p];
      AddPacketsSnoc(AddPieces(r, packets[0].pieces, packets[0].flags), packets[1..], p);
    }
  }

  /** The events before the last packet for k. */
  function Until(events: seq<Event>, k: u64): (before: seq<Event>)
    requires Own(events, k) != []
    ensures before < events && Own(before, k) == Own(events, k)[..|Own(events, k)| - 1]
    decreases |events|
  {
    if Last(events).Arrive? && IsFor(Last(events).data, k) then Before(events) else Until(Before(events), k)
  }

  /** Until its last packet comes, a request has what the packets so far make up. */
  lemma {:induction false} FollowsPackets(t: Table, events: seq<Event>, k: u64, packets: seq<Packet>,
                                           tails: seq<seq<u8>>)
    requires k in t.pending && k < t.next && GiveUp(k) !in events
    requires Sent(Own(events, k), packets, tails, k) && forall i :: 0 <= i < |packets| ==> packets[i].flags != FINAL
    ensures Follow(t, events, k) == Some(AddPackets(t.pending[k], packets))
    decreases |events|
  {
    hide AddPieces, AddPackets, Taken, Finishes, IsFor, PacketBytes, WellFormed;
    if events == [] {
      NoPackets(t.pending[k]);
    } else {
      var before, e, n := Before(events), Last(events), |packets| - 1;
      assert GiveUp(k) !in before;
      assert e in events;
      if e.Arrive? && IsFor(e.data, k) {
        assert Own(before, k) == Own(events, k)[..n];
        FollowsPackets(t, before, k, packets[..n], tails[..n]);
        TakenPacket(AddPackets(t.pending[k], packets[..n]), packets[n], tails[n]);
        AddPacketsSnoc(t.pending[k], packets[..n], packets[n]);
        assert packets[..n] + [packets[n]] == packets;
      } else {
        assert Own(before, k) == Own(events, k);
        FollowsPackets(t, before, k, packets, tails);
      }
    }
  }

  lemma NoPackets(r: Reply)
    ensures AddPackets(r, []) == r
  {
  }

  /** Nothing is owed before the last packet. */
  lemma {:induction false} NothingOwedYet(t: Table, events: seq<Event>, k: u64, packets: seq<Packet>,
                                           tails: seq<seq<u8>>)
    requires Sent(Own(events, k), packets, tails, k) && forall i :: 0 <= i < |packets| ==> packets[i].flags != FINAL
    ensures Owed(t, events, k) == []
    decreases |events|
  {
    hide Follow, Taken, Finishes, IsFor, PacketBytes, WellFormed, Finish, Safe;
    if events != [] {
      var before, e, n := Before(events), Last(events), |packets| - 1;
      if e.Arrive? && IsFor(e.data, k) {
        assert Own(before, k) == Own(events, k)[..n];
        NothingOwedYet(t, before, k, packets[..n], tails[..n]);
        TakenPacket(NOTHING, packets[n], tails[n]);
      } else {
        assert Own(before, k) == Own(events, k);
        NothingOwedYet(t, before, k, packets, tails);
      }
    }
  }

  /** After its last packet nothing more is owed: what is owed is what that packet completes. */
  lemma {:induction false} OwedAtLast(t: Table, events: seq<Event>, k: u64, before: seq<Event>)
    requires Own(events, k) != [] && before == Until(events, k)
    ensures var data := Own(events, k)[|Own(events, k)| - 1];
      var o := Settles(t, before, Arrive(data), k);
      Owed(t, events, k) == Owed(t, before, k)
        + if Safe(t, before) && o.Some? && o.value.Completed? then [o.value.reply] else []
    decreases |events|
  {
    hide Follow, Taken, Finishes, IsFor, Finish, Safe;
    var e := Last(events);
    if !(e.Arrive? && IsFor(e.data, k)) {
      OwedAtLast(t, Before(events), k, before);
    }
  }

  /**
   * A reply cut over packets in any way, among any other traffic, is delivered exactly when its own header can be
   * read and, before its last packet, no last packet for an awaited request brought one that cannot; and then once,
   * with its own parts.
   */
  lemma ReplyDelivered(t: Table, events: seq<Event>, k: u64, packets: seq<Packet>, tails: seq<seq<u8>>,
                       cuts: seq<seq<Stretch>>, parts: seq<seq<u8>>)
    requires Sound(t) && !t.stopped && t.next + |events| < MAX64
    requires k in t.pending && t.pending[k] == NOTHING && GiveUp(k) !in events
    requires Sent(Own(events, k), packets, tails, k) && EndsOnce(packets) && Carries(packets, cuts, parts)
    ensures Delivered(Run(t, events).completed, k) ==
      if Readable(parts) && Safe(t, Until(events, k)) then [Answer(parts)] else []
  {
    hide Run, Own, Carries, AddPackets, Safe, Settles, IsFor, PacketBytes, WellFormed, Readable, Answer;
    var n, before := |packets| - 1, Until(events, k);
    NotYetDelivered(t.completed, k);
    DeliveredAsOwed(t, events, k);
    OwedAtLast(t, events, k, before);
    NothingOwedYet(t, before, k, packets[..n], tails[..n]);
    LastSettles(t, before, k, packets, tails, cuts, parts);
    FinishAnswers(k, parts);
  }

  lemma LastSettles(t: Table, before: seq<Event>, k: u64, packets: seq<Packet>, tails: seq<seq<u8>>,
                    cuts: seq<seq<Stretch>>, parts: seq<seq<u8>>)
    requires k in t.pending && t.pending[k] == NOTHING && k < t.next && GiveUp(k) !in before
    requires EndsOnce(packets) && Carries(packets, cuts, parts) && |tails| == |packets|
    requires var n := |packets| - 1; Sent(Own(before, k), packets[..n], tails[..n], k)
    requires var p := packets[|packets| - 1]; WellFormed(p) && p.seqNo == k
    ensures var n := |packets| - 1;
      Settles(t, before, Arrive(PacketBytes(packets[n]) + tails[n]), k) == Some(Finish(k, NOTHING.(parts := parts)))
  {
    hide Own, Carries, AddPackets, AddPieces, Finish, Follow, Taken, Finishes, IsFor, PacketBytes, WellFormed;
    var n := |packets| - 1;
    FollowsPackets(t, before, k, packets[..n], tails[..n]);
    TakenPacket(AddPackets(NOTHING, packets[..n]), packets[n], tails[n]);
    AddPacketsSnoc(NOTHING, packets[..n], packets[n]);
    assert packets[..n] + [packets[n]] == packets;
    CutsRestored(packets, cuts, parts);
  }

  lemma FinishAnswers(k: u64, parts: seq<seq<u8>>)
    ensures var o := Finish(k, NOTHING.(parts := parts));
      if Readable(parts) then o == Effect.Completed(k, Answer(parts)) else o.Failed?
  {
    hide ReadInfo;
  }

  lemma {:induction false} NotYetDelivered(completed: seq<(u64, Reply)>, k: u64)
    requires forall i :: 0 <= i < |completed| ==> completed[i].0 != k
    ensures Delivered(completed, k) == []
  {
    if completed != [] {
      NotYetDelivered(completed[..|completed| - 1], k);
    }
  }

  /** Two requests are awaited, and the first one's header cannot be read: the second one's reply is never delivered. */
  lemma OneBadHeaderEndsAll()
    ensures var t := Table(map[1 := NOTHING, 2 := NOTHING], 3, [], false);
      var bad, good := Arrive(PacketBytes(Packet(1, FINAL, [[0x0b]]))), Arrive(PacketBytes(Packet(2, FINAL, [])));
      && Delivered(Run(t, [good]).completed, 2) == [Answer([])]
      && Run(t, [bad, good]).stopped && Delivered(Run(t, [bad, good]).completed, 2) == []
  {
    hide PacketBytes, Handle, Receive;
    var t := Table(map[1 := NOTHING, 2 := NOTHING], 3, [], false);
    var p, q := Packet(1, FINAL, [[0x0b]]), Packet(2, FINAL, []);
    var bad, good := Arrive(PacketBytes(p)), Arrive(PacketBytes(q));
    assert PacketBytes(p) + [] == PacketBytes(p) && PacketBytes(q) + [] == PacketBytes(q);
    PacketReceived(t.pending, p, []);
    PacketReceived(t.pending, q, []);
    BadReceived(t.pending);
    EmptyReceived(t.pending);
    assert Before([good]) == [] && Before([bad]) == [] && Before([bad, good]) == [bad];
    assert Run(t, []) == t;
    assert Run(t, [bad]) == Step(t, bad) && Run(t, [bad, good]) == Step(Step(t, bad), good);
    assert Run(t, [good]) == Step(t, good);
    DeliveredSnoc([], (2, Answer([])), 2);
    assert [] + [(2, Answer([]))] == [(2, Answer([]))];
  }

  lemma BadReceived(pending: map<u64, Reply>)
    requires 1 in pending && pending[1] == NOTHING
    ensures Receive(pending, Packet(1, FINAL, [[0x0b]])).Failed?
  {
    hide AddPieces, ReadInfo;
    UnreadableHeader(1);
  }

  lemma EmptyReceived(pending: map<u64, Reply>)
    requires 2 in pending && pending[2] == NOTHING
    ensures Receive(pending, Packet(2, FINAL, [])) == Effect.Completed(2, Answer([]))
  {
  }
}
