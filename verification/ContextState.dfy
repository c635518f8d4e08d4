/** The playing context: its tracks, where playback is, and the order it follows. */
module ContextState {
  import opened Bits
  import opened PlaybackOrder
  import QueueRevision

  datatype Track = Track(uri: string, uid: string, provider: string, albumUri: string, artistUri: string,
    metadataContextUri: string, metadataEntityUri: string)

  /** Where a playback was started, kept to be given back as it came. */
  datatype PlayOrigin = PlayOrigin(feature: string, version: string, viewUri: string, referrer: string, device: string)

  const NO_ORIGIN: PlayOrigin := PlayOrigin("", "", "", "", "")

  datatype Options = Options(shuffling: bool, repeatingContext: bool, repeatingTrack: bool)

  // ---------------------------------------------------------------- finding tracks

  /** The first track with this URI; the number of tracks when there is none. */
  function FirstUri(tracks: seq<Track>, uri: string, from: nat): (k: nat)
    requires from <= |tracks|
    ensures from <= k <= |tracks| && (k < |tracks| ==> tracks[k].uri == uri)
    ensures forall j :: from <= j < k ==> tracks[j].uri != uri
    decreases |tracks| - from
  {
    if from == |tracks| || tracks[from].uri == uri then from else FirstUri(tracks, uri, from + 1)
  }

  function FirstUid(tracks: seq<Track>, uid: string, from: nat): (k: nat)
    requires from <= |tracks|
    ensures from <= k <= |tracks| && (k < |tracks| ==> tracks[k].uid == uid)
    ensures forall j :: from <= j < k ==> tracks[j].uid != uid
    decreases |tracks| - from
  {
    if from == |tracks| || tracks[from].uid == uid then from else FirstUid(tracks, uid, from + 1)
  }

  predicate DistinctUris(tracks: seq<Track>) {
    forall i, j :: 0 <= i < j < |tracks| ==> tracks[i].uri != tracks[j].uri
  }

  // ---------------------------------------------------------------- shuffling

  /** The generator of the shuffle: multiply and add, modulo 2^64. */
  function NextSeed(seed: u64): (r: u64) {
    (seed * 6364136223846793005 + 1442695040888963407) % 0x1_0000_0000_0000_0000
  }

  function Draw(seed: u64, bound: nat): (r: nat)
    requires bound > 0
    ensures r < bound
  {
    seed % bound
  }

  /** Places from i down to first each exchanged with a place drawn from first up to it. */
  function Shuffled(order: seq<nat>, first: nat, i: nat, seed: u64): (r: seq<nat>)
    requires i < |order|
    ensures |r| == |order|
    decreases i
  {
    if i <= first then order
    else
      var next := NextSeed(seed);
      Shuffled(Swap(order, i, first + Draw(next, i - first + 1)), first, i - 1, next)
  }

  /** Whatever is drawn, the same numbers stay, and none before first moves. */
  lemma {:induction false} ShuffledPermutes(order: seq<nat>, first: nat, i: nat, seed: u64, lo: nat, hi: nat)
    requires i < |order| && first <= |order| && Permutes(order, lo, hi)
    ensures Permutes(Shuffled(order, first, i, seed), lo, hi)
    ensures Shuffled(order, first, i, seed)[..first] == order[..first]
    decreases i
  {
    hide Permutes, NextSeed, Draw;
    if i > first {
      var next := NextSeed(seed);
      var j := first + Draw(next, i - first + 1);
      SwapPermutes(order, i, j, lo, hi);
      ShuffledPermutes(Swap(order, i, j), first, i - 1, next, lo, hi);
      assert Swap(order, i, j)[..first] == order[..first];
    }
  }

  /** A shuffle of all tracks; the current one, if there is one, stays in front. */
  function NewOrder(n: nat, pinned: Option<nat>, seed: u64): (order: seq<nat>)
    requires pinned.Some? ==> pinned.value < n
    ensures |order| == n
  {
    if n == 0 then []
    else
      match pinned
      case None => Shuffled(Natural(n), 0, n - 1, seed)
      case Some(v) => Shuffled(Swap(Natural(n), 0, v), 1, n - 1, seed)
  }

  lemma NewOrderPermutes(n: nat, pinned: Option<nat>, seed: u64)
    requires pinned.Some? ==> pinned.value < n
    ensures Permutes(NewOrder(n, pinned, seed), 0, n)
    ensures pinned.Some? ==> NewOrder(n, pinned, seed)[0] == pinned.value
  {
    hide Shuffled;
    NaturalIsPermuted(n);
    if n > 0 {
      match pinned
      case None => ShuffledPermutes(Natural(n), 0, n - 1, seed, 0, n);
      case Some(v) =>
        var pinnedFirst := Swap(Natural(n), 0, v);
        SwapPermutes(Natural(n), 0, v, 0, n);
        ShuffledPermutes(pinnedFirst, 1, n - 1, seed, 0, n);
        FirstKept(pinnedFirst, Shuffled(pinnedFirst, 1, n - 1, seed));
    }
  }

  lemma FirstKept(a: seq<nat>, b: seq<nat>)
    requires |a| >= 1 && |b| >= 1 && a[..1] == b[..1]
    ensures a[0] == b[0]
  {
  }

  lemma NaturalIsPermuted(n: nat)
    ensures Permutes(Natural(n), 0, n)
  {
    NaturalPermutes(0, n);
    assert Natural(n) == seq(n, i requires 0 <= i < n => 0 + i);
  }

  /** The order with the places of new tracks, shuffled among themselves, at its end. */
  function Extended(order: seq<nat>, first: nat, count: nat, seed: u64): (r: seq<nat>)
  {
    if count == 0 then order
    else order + Shuffled(seq(count, i requires 0 <= i < count => first + i), 0, count - 1, seed)
  }

  lemma ExtendedPermutes(order: seq<nat>, first: nat, count: nat, seed: u64)
    requires Permutes(order, 0, first)
    ensures Permutes(Extended(order, first, count, seed), 0, first + count)
    ensures order <= Extended(order, first, count, seed)
  {
    hide Shuffled, Permutes;
    if count > 0 {
      var add := seq(count, i requires 0 <= i < count => first + i);
      NaturalPermutes(first, count);
      ShuffledPermutes(add, 0, count - 1, seed, first, first + count);
      AppendPermutes(order, Shuffled(add, 0, count - 1, seed), 0, first, first + count);
    }
  }

  /** The order that a start leaves: its first two tracks change places when the first is to be avoided. */
  function StartOrder(order: seq<nat>, shuffling: bool, avoid: nat): (r: seq<nat>)
    ensures |r| == |order|
  {
    if shuffling && |order| > 1 && order[0] == avoid then Swap(order, 0, 1) else order
  }

  // ---------------------------------------------------------------- appending tracks

  predicate Fits(tracks: seq<Track>, t: Track) {
    t.uri != "" && FirstUri(tracks, t.uri, 0) == |tracks|
  }

  /** The tracks with those of more that have a URI not there yet. */
  function Grown(tracks: seq<Track>, more: seq<Track>): (r: seq<Track>)
    ensures tracks <= r
    decreases |more|
  {
    if more == [] then tracks
    else Grown(if Fits(tracks, more[0]) then tracks + [more[0]] else tracks, more[1..])
  }

  /** Nothing is added twice, and nothing that was not offered. */
  lemma {:induction false} GrownAddsOnce(tracks: seq<Track>, more: seq<Track>, i: nat, j: nat)
    requires i < j && |tracks| <= j < |Grown(tracks, more)|
    ensures var r := Grown(tracks, more);
      r[i].uri != r[j].uri && r[j].uri != "" && r[j] in more
    decreases |more|
  {
    hide FirstUri;
    var next := if Fits(tracks, more[0]) then tracks + [more[0]] else tracks;
    var r := Grown(next, more[1..]);
    if |next| <= j {
      GrownAddsOnce(next, more[1..], i, j);
    } else {
      assert r[j] == next[j] == more[0] && r[i] == next[i] == tracks[i];
    }
  }

  /** Every URI that is offered is there afterwards. */
  lemma {:induction false} GrownHasAll(tracks: seq<Track>, more: seq<Track>, t: Track)
    requires t in more && t.uri != ""
    ensures FirstUri(Grown(tracks, more), t.uri, 0) < |Grown(tracks, more)|
    decreases |more|
  {
    hide FirstUri;
    var next := if Fits(tracks, more[0]) then tracks + [more[0]] else tracks;
    var r := Grown(next, more[1..]);
    if t in more[1..] {
      GrownHasAll(next, more[1..], t);
    } else {
      var k := if Fits(tracks, t) then |tracks| else FirstUri(tracks, t.uri, 0);
      assert r[k] == next[k] && next[k].uri == t.uri;
    }
  }

  /** Every track that was added was offered. */
  lemma {:induction false} GrownOffered(tracks: seq<Track>, more: seq<Track>, j: nat) returns (a: nat)
    requires |tracks| <= j < |Grown(tracks, more)|
    ensures a < |more| && more[a] == Grown(tracks, more)[j]
    decreases |more|
  {
    hide Fits;
    var next := if Fits(tracks, more[0]) then tracks + [more[0]] else tracks;
    if |next| <= j {
      var b := GrownOffered(next, more[1..], j);
      a := b + 1;
    } else {
      a := 0;
      assert Grown(next, more[1..])[j] == next[j];
    }
  }

  /** What is added keeps the order in which it was offered. */
  lemma {:induction false} GrownKeepsOrder(tracks: seq<Track>, more: seq<Track>, j: nat, k: nat)
    returns (a: nat, b: nat)
    requires |tracks| <= j < k < |Grown(tracks, more)|
    ensures a < b < |more| && more[a] == Grown(tracks, more)[j] && more[b] == Grown(tracks, more)[k]
    decreases |more|
  {
    hide Fits;
    var next := if Fits(tracks, more[0]) then tracks + [more[0]] else tracks;
    if |next| <= j {
      var c, d := GrownKeepsOrder(next, more[1..], j, k);
      a, b := c + 1, d + 1;
    } else {
      var d := GrownOffered(next, more[1..], k);
      a, b := 0, d + 1;
      assert Grown(next, more[1..])[j] == next[j];
    }
  }

  /** When nothing offered is without a URI, known, or offered twice, all of it is added. */
  lemma {:induction false} GrownAll(tracks: seq<Track>, more: seq<Track>)
    requires DistinctUris(more) && forall i :: 0 <= i < |more| ==> Fits(tracks, more[i])
    ensures Grown(tracks, more) == tracks + more
    decreases |more|
  {
    if more == [] {
      assert tracks + more == tracks;
    } else {
      var next := tracks + [more[0]];
      forall i | 0 <= i < |more[1..]|
        ensures Fits(next, more[1..][i])
      {
        assert Fits(tracks, more[i + 1]) && more[0].uri != more[i + 1].uri;
        StillFits(tracks, more[0], more[i + 1]);
      }
      GrownAll(next, more[1..]);
      assert next + more[1..] == tracks + more;
    }
  }

  lemma StillFits(tracks: seq<Track>, added: Track, t: Track)
    requires Fits(tracks, t) && added.uri != t.uri
    ensures Fits(tracks + [added], t)
  {
    hide FirstUri;
    assert FirstUri(tracks + [added], t.uri, 0) > |tracks|;
  }

  // ---------------------------------------------------------------- adopting an observed order

  /** The order so far, extended by the known tracks of uris that come after the current one, each once. */
  function Adopted(tracks: seq<Track>, order: seq<nat>, uris: seq<string>, seen: bool): (r: seq<nat>)
    requires order != []
    ensures order <= r
    decreases |uris|
  {
    if uris == [] then order
    else
      var k := FirstUri(tracks, uris[0], 0);
      if k == order[0] then Adopted(tracks, order, uris[1..], true)
      else if k == |tracks| || !seen || k in order then Adopted(tracks, order, uris[1..], seen)
      else Adopted(tracks, order + [k], uris[1..], seen)
  }

  /** Some listed URI, after one that names the current track, names another known track. */
  ghost predicate NamesAnother(tracks: seq<Track>, current: nat, uris: seq<string>) {
    exists i, j :: 0 <= i < j < |uris| && FirstUri(tracks, uris[i], 0) == current && Other(tracks, current, uris[j])
  }

  predicate Other(tracks: seq<Track>, current: nat, uri: string) {
    FirstUri(tracks, uri, 0) != current && FirstUri(tracks, uri, 0) < |tracks|
  }

  ghost predicate SomeOther(tracks: seq<Track>, current: nat, uris: seq<string>) {
    exists j :: 0 <= j < |uris| && Other(tracks, current, uris[j])
  }

  /** Anything is adopted exactly when another known track is listed behind the current one. */
  lemma {:induction false} AdoptsIffNamed(tracks: seq<Track>, current: nat, uris: seq<string>, seen: bool)
    requires current < |tracks|
    ensures Adopted(tracks, [current], uris, seen) == [current] <==>
      !NamesAnother(tracks, current, uris) && !(seen && SomeOther(tracks, current, uris))
    decreases |uris|
  {
    hide FirstUri;
    if uris != [] {
      var k, rest := FirstUri(tracks, uris[0], 0), uris[1..];
      AdoptsIffNamed(tracks, current, rest, seen || k == current);
      OtherRest(tracks, current, uris);
      NamesRest(tracks, current, uris);
    }
  }

  lemma OtherRest(tracks: seq<Track>, current: nat, uris: seq<string>)
    requires uris != []
    ensures SomeOther(tracks, current, uris) <==>
      Other(tracks, current, uris[0]) || SomeOther(tracks, current, uris[1..])
  {
    hide Other;
    var rest := uris[1..];
    if j :| 0 <= j < |uris| && Other(tracks, current, uris[j]) {
      assert j > 0 ==> Other(tracks, current, rest[j - 1]);
    }
    if j :| 0 <= j < |rest| && Other(tracks, current, rest[j]) {
      assert Other(tracks, current, uris[j + 1]);
    }
  }

  lemma NamesRest(tracks: seq<Track>, current: nat, uris: seq<string>)
    requires uris != []
    ensures NamesAnother(tracks, current, uris) <==>
      || (FirstUri(tracks, uris[0], 0) == current && SomeOther(tracks, current, uris[1..]))
      || NamesAnother(tracks, current, uris[1..])
  {
    hide Other, FirstUri;
    var rest := uris[1..];
    if NamesAnother(tracks, current, uris) {
      var i, j :| 0 <= i < j < |uris| && FirstUri(tracks, uris[i], 0) == current && Other(tracks, current, uris[j]);
      assert Other(tracks, current, rest[j - 1]);
      assert i > 0 ==> FirstUri(tracks, rest[i - 1], 0) == current;
    }
    if FirstUri(tracks, uris[0], 0) == current && SomeOther(tracks, current, rest) {
      var j :| 0 <= j < |rest| && Other(tracks, current, rest[j]);
      assert Other(tracks, current, uris[j + 1]);
    }
    if NamesAnother(tracks, current, rest) {
      var i, j :| 0 <= i < j < |rest| && FirstUri(tracks, rest[i], 0) == current && Other(tracks, current, rest[j]);
      assert Other(tracks, current, uris[j + 1]) && FirstUri(tracks, uris[i + 1], 0) == current;
    }
  }

  /** The tracks from i on that an order leaves out. */
  function Unused(order: seq<nat>, i: nat, n: nat): (r: seq<nat>)
    requires i <= n
    decreases n - i
  {
    if i == n then [] else (if i in order then [] else [i]) + Unused(order, i + 1, n)
  }

  predicate PartialOrder(order: seq<nat>, n: nat) {
    order != [] && Distinct(order) && forall v :: v in order ==> v < n
  }

  lemma {:induction false} AdoptedPartial(tracks: seq<Track>, order: seq<nat>, uris: seq<string>, seen: bool)
    requires PartialOrder(order, |tracks|)
    ensures PartialOrder(Adopted(tracks, order, uris, seen), |tracks|)
    decreases |uris|
  {
    if uris != [] {
      var k := FirstUri(tracks, uris[0], 0);
      if k == order[0] {
        AdoptedPartial(tracks, order, uris[1..], true);
      } else if k == |tracks| || !seen || k in order {
        AdoptedPartial(tracks, order, uris[1..], seen);
      } else {
        AdoptedPartial(tracks, order + [k], uris[1..], seen);
      }
    }
  }

  lemma {:induction false} UnusedMembers(order: seq<nat>, i: nat, n: nat)
    requires i <= n
    ensures Distinct(Unused(order, i, n))
    ensures forall v :: v in Unused(order, i, n) <==> i <= v < n && v !in order
    decreases n - i
  {
    if i < n {
      UnusedMembers(order, i + 1, n);
      var rest := Unused(order, i + 1, n);
      assert i !in rest;
      PrependDistinct(i, rest);
      hide Distinct;
      assert Unused(order, i, n) == if i in order then rest else [i] + rest;
    }
  }

  /** They are in list order. */
  lemma {:induction false} UnusedAscends(order: seq<nat>, i: nat, n: nat, a: nat, b: nat)
    requires i <= n && a < b < |Unused(order, i, n)|
    ensures i <= Unused(order, i, n)[a] < Unused(order, i, n)[b]
    decreases n - i
  {
    var rest := Unused(order, i + 1, n);
    if i in order {
      UnusedAscends(order, i + 1, n, a, b);
    } else if a > 0 {
      UnusedAscends(order, i + 1, n, a - 1, b - 1);
    } else {
      UnusedMembers(order, i + 1, n);
      assert rest[b - 1] in rest;
    }
  }

  lemma PrependDistinct(x: nat, s: seq<nat>)
    requires Distinct(s) && x !in s
    ensures Distinct([x] + s)
  {
  }

  lemma CompletedPermutes(order: seq<nat>, n: nat)
    requires PartialOrder(order, n)
    ensures Permutes(order + Unused(order, 0, n), 0, n)
  {
    var rest := Unused(order, 0, n);
    UnusedMembers(order, 0, n);
    forall i, j | 0 <= i < j < |order + rest|
      ensures (order + rest)[i] != (order + rest)[j]
    {
      if i < |order| <= j {
        assert order[i] in order && rest[j - |order|] in rest;
      }
    }
  }

  function Uris(tracks: seq<Track>, order: seq<nat>): (uris: seq<string>)
    requires forall v :: v in order ==> v < |tracks|
    ensures |uris| == |order|
  {
    seq(|order|, i requires 0 <= i < |order| => var v := order[i]; assert v in order; tracks[v].uri)
  }

  lemma FirstUriOf(tracks: seq<Track>, v: nat)
    requires DistinctUris(tracks) && v < |tracks|
    ensures FirstUri(tracks, tracks[v].uri, 0) == v
  {
    hide FirstUri;
  }

  lemma NotEarlier(order: seq<nat>, p: nat, k: nat)
    requires Distinct(order) && p < |order| && k < |order|
    ensures order[k] == order[p] <==> k == p
    ensures k > p ==> order[k] !in order[p..k] && order[p..k] + [order[k]] == order[p..k + 1]
  {
  }

  lemma UriAt(tracks: seq<Track>, order: seq<nat>, k: nat)
    requires (forall v :: v in order ==> v < |tracks|) && k < |order|
    ensures order[k] in order && Uris(tracks, order)[k..][0] == tracks[order[k]].uri
    ensures Uris(tracks, order)[k..][1..] == Uris(tracks, order)[k + 1..]
  {
  }

  /** An order observed from elsewhere, as the URIs it plays, is taken over from the current track on. */
  lemma {:induction false} OrderAdopted(tracks: seq<Track>, order: seq<nat>, p: nat, k: nat)
    requires DistinctUris(tracks) && PartialOrder(order, |tracks|) && p < |order| && k <= |order|
    ensures Adopted(tracks, order[p..if k > p then k else p + 1], Uris(tracks, order)[k..], k > p) == order[p..]
    decreases |order| - k
  {
    hide FirstUri, DistinctUris, Uris, Distinct;
    if k == |order| {
      assert order[p..k] == order[p..];
    } else {
      UriAt(tracks, order, k);
      NotEarlier(order, p, k);
      FirstUriOf(tracks, order[k]);
      OrderAdopted(tracks, order, p, k + 1);
    }
  }

  // ---------------------------------------------------------------- the state

  /** What the state shows of itself: the current track and those around it in playing order. */
  datatype Snapshot = Snapshot(contextUri: string, contextUrl: string, playOrigin: PlayOrigin, options: Options,
    trackCount: nat, hasTracks: bool, indexTrack: nat, current: Option<Track>, prevTracks: seq<Track>,
    nextTracks: seq<Track>, queueRevision: string)

  predicate InRange(order: seq<nat>, n: nat) {
    forall i :: 0 <= i < |order| ==> order[i] < n
  }

  function TracksAt(tracks: seq<Track>, order: seq<nat>): (r: seq<Track>)
    requires InRange(order, |tracks|)
    ensures |r| == |order|
  {
    seq(|order|, i requires 0 <= i < |order| => tracks[order[i]])
  }

  function UrisOf(tracks: seq<Track>): (uris: seq<string>)
    ensures |uris| == |tracks|
  {
    seq(|tracks|, i requires 0 <= i < |tracks| => tracks[i].uri)
  }

  /** Up to so many tracks just before v. */
  function TracksBefore(tracks: seq<Track>, order: seq<nat>, v: nat, size: nat): (r: seq<Track>)
    requires InRange(order, |tracks|) && v in order
  {
    var pos := Pos(order, v);
    TracksAt(tracks, order[if pos < size then 0 else pos - size..pos])
  }

  /** Up to so many tracks just after v. */
  function TracksAfter(tracks: seq<Track>, order: seq<nat>, v: nat, size: nat): (r: seq<Track>)
    requires InRange(order, |tracks|) && v in order
  {
    var pos := Pos(order, v);
    TracksAt(tracks, order[pos + 1..if pos + 1 + size > |order| then |order| else pos + 1 + size])
  }

  class State {
    var contextUri: string
    var contextUrl: string
    var playOrigin: PlayOrigin
    var tracks: seq<Track>
    var currentIndex: nat
    var hasIndex: bool
    var options: Options
    var shuffleOrder: seq<nat>

    ghost predicate Valid()
      reads this
    {
      && (hasIndex ==> currentIndex < |tracks|)
      && (options.shuffling ==> Permutes(shuffleOrder, 0, |tracks|))
    }

    /** What is said of the order where it is declared: that it is empty while shuffle is off. */
    ghost predicate EmptyWhenOff()
      reads this
    {
      !options.shuffling ==> shuffleOrder == []
    }

    /** The order that playback follows. */
    ghost function Order(): (order: seq<nat>)
      requires Valid()
      reads this
      ensures Permutes(order, 0, |tracks|) && InRange(order, |tracks|) && |order| == |tracks|
      ensures hasIndex ==> currentIndex in order
    {
      NaturalIsPermuted(|tracks|);
      var order := if options.shuffling then shuffleOrder else Natural(|tracks|);
      OrderFacts(order, |tracks|, currentIndex);
      order
    }

    constructor ()
      ensures Valid() && EmptyWhenOff() && tracks == [] && !hasIndex && !options.shuffling
    {
      contextUri, contextUrl, tracks, currentIndex, hasIndex := "", "", [], 0, false;
      options, shuffleOrder, playOrigin := Options(false, false, false), [], NO_ORIGIN;
    }

    method SetPlayOrigin(origin: PlayOrigin)
      modifies this`playOrigin
      ensures playOrigin == origin
    {
      playOrigin := origin;
    }

    /** A different context loses its tracks until they are resolved again. */
    method SetContext(uri: string, url: string)
      requires Valid()
      modifies this
      ensures Valid() && contextUri == uri && contextUrl == (if url == "" then uri else url)
      ensures options == old(options) && playOrigin == old(playOrigin)
      ensures if uri == old(contextUri)
              then tracks == old(tracks) && hasIndex == old(hasIndex) && currentIndex == old(currentIndex)
                && shuffleOrder == old(shuffleOrder)
              else tracks == [] && !hasIndex && shuffleOrder == []
      ensures old(EmptyWhenOff()) ==> EmptyWhenOff()
    {
      if uri != contextUri {
        tracks := [];
        currentIndex := 0;
        hasIndex := false;
        shuffleOrder := [];
      }
      contextUri := uri;
      contextUrl := if url == "" then uri else url;
    }

    method Clear()
      modifies this
      ensures Valid() && tracks == [] && !hasIndex && options == Options(false, false, false)
      ensures contextUri == "" && contextUrl == "" && shuffleOrder == [] && EmptyWhenOff()
      ensures playOrigin == NO_ORIGIN
    {
      playOrigin := NO_ORIGIN;
      contextUri := "";
      contextUrl := "";
      tracks := [];
      currentIndex := 0;
      hasIndex := false;
      options := Options(false, false, false);
      shuffleOrder := [];
    }

    /** A new shuffle of all tracks, from any seed. */
    method RebuildShuffleOrder(seed: u64)
      requires hasIndex ==> currentIndex < |tracks|
      modifies this`shuffleOrder
      ensures shuffleOrder == NewOrder(|tracks|, if hasIndex then Some(currentIndex) else None, seed)
    {
      hide Permutes, Distinct, NextSeed, Draw;
      shuffleOrder := Natural(|tracks|);
      if |shuffleOrder| == 0 {
        return;
      }
      var first := 0;
      if hasIndex {
        var i := FindShufflePos(shuffleOrder, currentIndex);
        assert shuffleOrder[currentIndex] in shuffleOrder;
        shuffleOrder := Swap(shuffleOrder, 0, i);
        first := 1;
      }
      shuffleOrder := Shuffle(shuffleOrder, first, seed);
    }

    method SetTracks(newTracks: seq<Track>, seed: u64)
      requires Valid()
      modifies this
      ensures Valid() && tracks == newTracks && !hasIndex
      ensures shuffleOrder == if options.shuffling then NewOrder(|tracks|, None, seed) else []
      ensures options == old(options) && contextUri == old(contextUri) && contextUrl == old(contextUrl)
      ensures playOrigin == old(playOrigin)
      ensures old(EmptyWhenOff()) ==> EmptyWhenOff()
    {
      hide Permutes, NewOrder;
      tracks := newTracks;
      currentIndex := 0;
      hasIndex := false;
      shuffleOrder := [];
      if options.shuffling {
        RebuildShuffleOrder(seed);
        NewOrderPermutes(|tracks|, None, seed);
      }
    }

    method SetCurrentTrackUri(uri: string) returns (found: bool)
      requires Valid()
      modifies this`currentIndex, this`hasIndex
      ensures Valid() && (found <==> FirstUri(tracks, uri, 0) < |tracks|)
      ensures found ==> hasIndex && currentIndex == FirstUri(tracks, uri, 0)
      ensures !found ==> hasIndex == old(hasIndex) && currentIndex == old(currentIndex)
      ensures old(EmptyWhenOff()) ==> EmptyWhenOff()
    {
      hide Permutes;
      for i := 0 to |tracks|
        invariant FirstUri(tracks, uri, i) == FirstUri(tracks, uri, 0)
        invariant hasIndex == old(hasIndex) && currentIndex == old(currentIndex)
      {
        if tracks[i].uri == uri {
          currentIndex := i;
          hasIndex := true;
          return true;
        }
      }
      return false;
    }

    method SetCurrentByUid(uid: string) returns (found: bool)
      requires Valid()
      modifies this`currentIndex, this`hasIndex
      ensures Valid() && (found <==> uid != "" && FirstUid(tracks, uid, 0) < |tracks|)
      ensures found ==> hasIndex && currentIndex == FirstUid(tracks, uid, 0)
      ensures !found ==> hasIndex == old(hasIndex) && currentIndex == old(currentIndex)
      ensures old(EmptyWhenOff()) ==> EmptyWhenOff()
    {
      hide Permutes;
      if uid == "" {
        return false;
      }
      for i := 0 to |tracks|
        invariant FirstUid(tracks, uid, i) == FirstUid(tracks, uid, 0)
        invariant hasIndex == old(hasIndex) && currentIndex == old(currentIndex)
      {
        if tracks[i].uid == uid {
          currentIndex := i;
          hasIndex := true;
          return true;
        }
      }
      return false;
    }

    method SetCurrentByIndex(idx: nat) returns (ok: bool)
      requires Valid()
      modifies this`currentIndex, this`hasIndex
      ensures Valid() && (ok <==> idx < |tracks|)
      ensures ok ==> hasIndex && currentIndex == idx
      ensures !ok ==> hasIndex == old(hasIndex) && currentIndex == old(currentIndex)
      ensures old(EmptyWhenOff()) ==> EmptyWhenOff()
    {
      hide Permutes;
      if idx >= |tracks| {
        return false;
      }
      currentIndex := idx;
      hasIndex := true;
      return true;
    }

    /** The first of three hints that names a track decides; "" when none does. */
    method ResolveSkipTo(uri: string, uid: string, index: int) returns (r: string)
      requires Valid()
      modifies this`currentIndex, this`hasIndex
      ensures Valid()
      ensures var byUri := uri != "" && FirstUri(tracks, uri, 0) < |tracks|;
        var byUid := uid != "" && FirstUid(tracks, uid, 0) < |tracks|;
        var byIndex := 0 <= index < |tracks|;
        if byUri || byUid || byIndex then
          && hasIndex && r == tracks[currentIndex].uri
          && currentIndex ==
            if byUri then FirstUri(tracks, uri, 0) else if byUid then FirstUid(tracks, uid, 0) else index
        else r == "" && hasIndex == old(hasIndex) && currentIndex == old(currentIndex)
      ensures old(EmptyWhenOff()) ==> EmptyWhenOff()
    {
      hide Permutes;
      if uri != "" {
        var found := SetCurrentTrackUri(uri);
        if found {
          return uri;
        }
      }
      if uid != "" {
        var found := SetCurrentByUid(uid);
        if found {
          return tracks[currentIndex].uri;
        }
      }
      if index >= 0 {
        var found := SetCurrentByIndex(index);
        if found {
          return tracks[currentIndex].uri;
        }
      }
      return "";
    }

    /** Starts at the head of the playing order; a shuffled start is not at the track to avoid if there is another. */
    method StartContextPlayback(avoid: nat, seed: u64) returns (r: string)
      requires Valid()
      modifies this`currentIndex, this`hasIndex, this`shuffleOrder
      ensures Valid() && tracks == old(tracks) && options == old(options)
      ensures if tracks == [] then r == "" && hasIndex == old(hasIndex)
              else hasIndex && currentIndex == Order()[0] && r == tracks[currentIndex].uri
      ensures options.shuffling && |tracks| > 1 ==> currentIndex != avoid
      ensures old(shuffleOrder) != [] ==> shuffleOrder == StartOrder(old(shuffleOrder), options.shuffling, avoid)
      ensures old(EmptyWhenOff()) ==> EmptyWhenOff()
    {
      if |tracks| == 0 {
        if options.shuffling {
          PermutesLength(shuffleOrder, 0, 0);
        }
        return "";
      }
      if options.shuffling {
        hide Permutes, NewOrder;
        if |shuffleOrder| == 0 {
          RebuildShuffleOrder(seed);
          NewOrderPermutes(|tracks|, if hasIndex then Some(currentIndex) else None, seed);
        }
        PermutesLength(shuffleOrder, 0, |tracks|);
        OrderFacts(shuffleOrder, |tracks|, avoid);
        StartOrderPermutes(shuffleOrder, |tracks|, avoid);
        shuffleOrder := AvoidFirst(shuffleOrder, |tracks|, avoid);
        currentIndex := shuffleOrder[0];
        HeadInRange(shuffleOrder, |tracks|);
      } else {
        currentIndex := 0;
      }
      hasIndex := true;
      return tracks[currentIndex].uri;
    }

    /** One track on: the next in the order, or round to its start, or nowhere. */
    method AdvanceNext(forceWrap: bool, ignoreRepeatTrack: bool) returns (ok: bool)
      requires Valid()
      modifies this`currentIndex
      ensures Valid()
      ensures if !hasIndex then !ok && currentIndex == old(currentIndex)
        else if options.repeatingTrack && !ignoreRepeatTrack then ok && currentIndex == old(currentIndex)
        else var next := After(old(Order()), old(currentIndex), options.repeatingContext || forceWrap);
          ok == next.Some? && currentIndex == if ok then next.value else old(currentIndex)
      ensures old(EmptyWhenOff()) ==> EmptyWhenOff()
    {
      hide Permutes;
      if !hasIndex || |tracks| == 0 {
        return false;
      }
      if options.repeatingTrack && !ignoreRepeatTrack {
        return true;
      }
      ghost var order := Order();
      OrderFacts(order, |tracks|, currentIndex);
      if options.shuffling && |shuffleOrder| > 0 {
        var pos := FindShufflePos(shuffleOrder, currentIndex);
        if pos + 1 >= |shuffleOrder| {
          if !options.repeatingContext && !forceWrap {
            return false;
          }
          currentIndex := shuffleOrder[0];
        } else {
          currentIndex := shuffleOrder[pos + 1];
        }
        OrderFacts(order, |tracks|, currentIndex);
        return true;
      }
      NaturalPos(|tracks|, currentIndex);
      if currentIndex + 1 >= |tracks| {
        if !options.repeatingContext && !forceWrap {
          return false;
        }
        currentIndex := 0;
        return true;
      }
      currentIndex := currentIndex + 1;
      return true;
    }

    /** Skipping on k times with the context on repeat. */
    method AdvanceMany(k: nat)
      requires Valid() && hasIndex && options.repeatingContext
      modifies this`currentIndex
      ensures Valid() && currentIndex == Reached(old(Order()), old(currentIndex), k)
    {
      hide Permutes, After, Reached;
      ghost var order, start := Order(), currentIndex;
      ReachedStep(order, start, 0);
      for i := 0 to k
        invariant Valid() && currentIndex == Reached(order, start, i)
      {
        ReachedStep(order, start, i + 1);
        var _ := AdvanceNext(false, true);
      }
    }

    /** One track back. */
    method AdvancePrev(ignoreRepeatTrack: bool) returns (ok: bool)
      requires Valid()
      modifies this`currentIndex
      ensures Valid()
      ensures if !hasIndex then !ok && currentIndex == old(currentIndex)
        else if options.repeatingTrack && !ignoreRepeatTrack then ok && currentIndex == old(currentIndex)
        else var previous := Before(old(Order()), old(currentIndex), options.repeatingContext);
          ok == previous.Some? && currentIndex == if ok then previous.value else old(currentIndex)
      ensures old(EmptyWhenOff()) ==> EmptyWhenOff()
    {
      hide Permutes;
      if !hasIndex || |tracks| == 0 {
        return false;
      }
      if options.repeatingTrack && !ignoreRepeatTrack {
        return true;
      }
      ghost var order := Order();
      OrderFacts(order, |tracks|, currentIndex);
      if options.shuffling && |shuffleOrder| > 0 {
        var pos := FindShufflePos(shuffleOrder, currentIndex);
        if pos == 0 {
          if !options.repeatingContext {
            return false;
          }
          currentIndex := shuffleOrder[|shuffleOrder| - 1];
        } else {
          currentIndex := shuffleOrder[pos - 1];
        }
        OrderFacts(order, |tracks|, currentIndex);
        return true;
      }
      NaturalPos(|tracks|, currentIndex);
      if currentIndex == 0 {
        if !options.repeatingContext {
          return false;
        }
        currentIndex := |tracks| - 1;
        return true;
      }
      currentIndex := currentIndex - 1;
      return true;
    }

    /** Turning shuffle on keeps the current track and puts it in front of the new order. */
    method SetOptions(o: Options, seed: u64)
      requires Valid()
      modifies this`options, this`shuffleOrder
      ensures Valid() && options == o
      ensures o.shuffling && !old(options).shuffling && hasIndex ==>
        shuffleOrder != [] && shuffleOrder[0] == currentIndex
      ensures shuffleOrder ==
        if o.shuffling == old(options).shuffling then old(shuffleOrder)
        else if o.shuffling then NewOrder(|tracks|, if hasIndex then Some(currentIndex) else None, seed)
        else []
      ensures old(EmptyWhenOff()) ==> EmptyWhenOff()
    {
      hide Permutes, NewOrder;
      var changed := o.shuffling != options.shuffling;
      options := o;
      if changed {
        if options.shuffling {
          RebuildShuffleOrder(seed);
          NewOrderPermutes(|tracks|, if hasIndex then Some(currentIndex) else None, seed);
        } else {
          shuffleOrder := [];
        }
      }
    }

    /** Whether at most threshold tracks are left to play. */
    method TracksNearEnd(threshold: nat) returns (near: bool)
      requires Valid()
      ensures near <==> hasIndex && |Order()| - 1 - Pos(Order(), currentIndex) <= threshold
    {
      hide Permutes;
      if !hasIndex || |tracks| == 0 {
        return false;
      }
      ghost var order := Order();
      OrderFacts(order, |tracks|, currentIndex);
      if options.shuffling && |shuffleOrder| > 0 {
        var pos := FindShufflePos(shuffleOrder, currentIndex);
        return |shuffleOrder| - pos - 1 <= threshold;
      }
      NaturalPos(|tracks|, currentIndex);
      return |tracks| - currentIndex - 1 <= threshold;
    }

    /** Adds the tracks not there yet; what was to be played, in its order, is still to be played first. */
    method AppendTracks(more: seq<Track>, seed: u64) returns (count: nat)
      requires Valid()
      modifies this`tracks, this`shuffleOrder
      ensures Valid() && tracks == Grown(old(tracks), more) && count == |tracks| - |old(tracks)|
      ensures old(tracks) != [] ==> old(Order()) <= Order()
      ensures shuffleOrder ==
        if !options.shuffling then old(shuffleOrder)
        else if old(tracks) == [] then NewOrder(|tracks|, None, seed)
        else Extended(old(shuffleOrder), |old(tracks)|, count, seed)
      ensures old(EmptyWhenOff()) ==> EmptyWhenOff()
    {
      hide Permutes, Shuffled, FirstUri;
      ghost var start := tracks;
      var firstNew := |tracks|;
      count := 0;
      for i := 0 to |more|
        invariant Grown(tracks, more[i..]) == Grown(start, more)
        invariant start <= tracks && |tracks| == firstNew + count && shuffleOrder == old(shuffleOrder)
      {
        var track := more[i];
        assert more[i..][0] == track && more[i..][1..] == more[i + 1..];
        if track.uri == "" {
          continue;
        }
        var k := FindTrackIndex(tracks, track.uri);
        if k < |tracks| {
          continue;
        }
        tracks := tracks + [track];
        count := count + 1;
      }
      NaturalGrows(firstNew, |tracks|);
      if options.shuffling {
        PermutesLength(shuffleOrder, 0, firstNew);
        if |shuffleOrder| == 0 {
          RebuildShuffleOrder(seed);
          NewOrderPermutes(|tracks|, if hasIndex then Some(currentIndex) else None, seed);
        } else {
          AppendShuffleIndices(firstNew, count, seed);
        }
      }
    }

    method AppendShuffleIndices(first: nat, count: nat, seed: u64)
      requires Permutes(shuffleOrder, 0, first)
      modifies this`shuffleOrder
      ensures shuffleOrder == Extended(old(shuffleOrder), first, count, seed)
      ensures Permutes(shuffleOrder, 0, first + count) && old(shuffleOrder) <= shuffleOrder
    {
      hide Permutes, NextSeed, Draw;
      ExtendedPermutes(shuffleOrder, first, count, seed);
      if count == 0 {
        return;
      }
      var add := seq(count, i requires 0 <= i < count => first + i);
      add := Shuffle(add, 0, seed);
      shuffleOrder := shuffleOrder + add;
    }

    /** Takes over an observed order from the current track on; the tracks it leaves out follow in list order. */
    method ApplyPlaybackOrder(uri: string, uris: seq<string>) returns (applied: nat)
      requires Valid()
      modifies this`currentIndex, this`hasIndex, this`shuffleOrder
      ensures Valid()
      ensures var current := FirstUri(tracks, uri, 0);
        if uri == "" || current == |tracks| then
          && applied == 0 && shuffleOrder == old(shuffleOrder)
          && hasIndex == old(hasIndex) && currentIndex == old(currentIndex)
        else
          var order := Adopted(tracks, [current], uris, false);
          && hasIndex && currentIndex == current && applied == |order| - 1
          && shuffleOrder == if applied == 0 then old(shuffleOrder) else order + Unused(order, 0, |tracks|)
      ensures old(EmptyWhenOff()) ==>
        (EmptyWhenOff() <==> options.shuffling || uri == "" || FirstUri(tracks, uri, 0) == |tracks|
                             || !NamesAnother(tracks, FirstUri(tracks, uri, 0), uris))
    {
      hide Permutes, FirstUri;
      if |tracks| == 0 || uri == "" {
        return 0;
      }
      var current := FindTrackIndex(tracks, uri);
      if current >= |tracks| {
        return 0;
      }
      currentIndex := current;
      hasIndex := true;
      AdoptsIffNamed(tracks, current, uris, false);
      hide NamesAnother;
      var order: seq<nat>, used: seq<bool>;
      order, used, applied := ObservedOrder(tracks, current, uris);
      if applied == 0 {
        return;
      }
      CompletedPermutes(order, |tracks|);
      shuffleOrder := Complete(order, used);
    }

    /** The state with up to so many tracks before and after the current one. */
    method TakeSnapshot(prevWindow: nat, nextWindow: nat) returns (s: Snapshot)
      requires Valid()
      ensures s.contextUri == contextUri && s.contextUrl == contextUrl && s.options == options
      ensures s.playOrigin == playOrigin && s.queueRevision == QueueRevision.Revision(UrisOf(s.nextTracks))
      ensures s.trackCount == |tracks| && s.hasTracks == hasIndex
      ensures !hasIndex ==> s.current == None && s.prevTracks == [] && s.nextTracks == []
      ensures hasIndex ==>
        && s.current == Some(tracks[currentIndex]) && s.indexTrack == currentIndex
        && s.prevTracks == TracksBefore(tracks, Order(), currentIndex, prevWindow)
        && s.nextTracks == TracksAfter(tracks, Order(), currentIndex, nextWindow)
    {
      hide Permutes;
      var prev, next := [], [];
      var shown := hasIndex && |tracks| > 0;
      if shown {
        ghost var order := Order();
        OrderFacts(order, |tracks|, currentIndex);
        if options.shuffling && |shuffleOrder| > 0 {
          prev, next := ShuffledWindows(tracks, shuffleOrder, currentIndex, prevWindow, nextWindow);
        } else {
          NaturalPos(|tracks|, currentIndex);
          prev, next := NaturalWindows(tracks, currentIndex, prevWindow, nextWindow);
        }
      }
      var revision := QueueRevision.ComputeQueueRevision(UrisOf(next));
      s := Snapshot(contextUri, contextUrl, playOrigin, options, |tracks|, shown, if shown then currentIndex else 0,
        if shown then Some(tracks[currentIndex]) else None, prev, next, revision);
    }
  }

  /** An observed order is kept with shuffle off: two tracks, the first of them current, both observed. */
  method OrderWithShuffleOff() returns (s: State)
    ensures fresh(s) && s.Valid() && !s.options.shuffling && s.shuffleOrder == [0, 1]
  {
    var a := Track("a", "", "", "", "", "", "");
    var b := a.(uri := "b");
    s := new State();
    s.SetTracks([a, b], 0);
    TwoAdopted([a, b]);
    var _ := s.ApplyPlaybackOrder("a", ["a", "b"]);
  }

  lemma TwoAdopted(tracks: seq<Track>)
    requires |tracks| == 2 && tracks[0].uri == "a" && tracks[1].uri == "b"
    ensures FirstUri(tracks, "a", 0) == 0 && FirstUri(tracks, "b", 0) == 1
    ensures Adopted(tracks, [0], ["a", "b"], false) == [0, 1] && Unused([0, 1], 0, 2) == []
  {
    var uris := ["a", "b"];
    assert "a" != "b" by {
      assert "a"[0] != "b"[0];
    }
    assert uris[1..] == ["b"] && ["b"][1..] == [];
    assert Adopted(tracks, [0, 1], [], true) == [0, 1];
    assert Adopted(tracks, [0], ["b"], true) == [0] + [1];
  }

  // ---------------------------------------------------------------- loops over lists

  /** Exchanges the first track with the next one that is not to be avoided. */
  method AvoidFirst(order: seq<nat>, n: nat, avoid: nat) returns (r: seq<nat>)
    requires order != [] && Distinct(order) && InRange(order, n)
    ensures r == StartOrder(order, true, avoid)
  {
    r := order;
    if avoid < n && r[0] == avoid && |r| > 1 {
      assert r[0] != r[1];
      for i := 1 to |r|
        invariant i == 1 && r == order
      {
        if r[i] != avoid {
          return Swap(r, 0, i);
        }
      }
    }
  }

  lemma StartOrderPermutes(order: seq<nat>, n: nat, avoid: nat)
    requires Permutes(order, 0, n) && order != []
    ensures Permutes(StartOrder(order, true, avoid), 0, n) && Distinct(order)
    ensures n > 1 ==> StartOrder(order, true, avoid)[0] != avoid
  {
    PermutesLength(order, 0, n);
    if |order| > 1 {
      SwapPermutes(order, 0, 1, 0, n);
    }
  }

  method ShuffledWindows(tracks: seq<Track>, order: seq<nat>, current: nat, prevWindow: nat, nextWindow: nat)
    returns (prev: seq<Track>, next: seq<Track>)
    requires InRange(order, |tracks|) && current in order
    ensures prev == TracksBefore(tracks, order, current, prevWindow)
    ensures next == TracksAfter(tracks, order, current, nextWindow)
  {
    var pos := FindShufflePos(order, current);
    var prevStart := if pos < prevWindow then 0 else pos - prevWindow;
    prev := CollectOrder(tracks, order, prevStart, pos);
    var nextEnd := pos + 1 + nextWindow;
    if nextEnd > |order| {
      nextEnd := |order|;
    }
    next := CollectOrder(tracks, order, pos + 1, nextEnd);
  }

  method NaturalWindows(tracks: seq<Track>, current: nat, prevWindow: nat, nextWindow: nat)
    returns (prev: seq<Track>, next: seq<Track>)
    requires current < |tracks|
    ensures current in Natural(|tracks|)
    ensures prev == TracksBefore(tracks, Natural(|tracks|), current, prevWindow)
    ensures next == TracksAfter(tracks, Natural(|tracks|), current, nextWindow)
  {
    hide Pos, PosFrom;
    NaturalPos(|tracks|, current);
    var prevCount := if current < prevWindow then current else prevWindow;
    prev := CollectNatural(tracks, current - prevCount, current);
    var end := current + 1 + nextWindow;
    if end > |tracks| {
      end := |tracks|;
    }
    next := CollectNatural(tracks, current + 1, end);
  }

  method FindTrackIndex(tracks: seq<Track>, uri: string) returns (k: nat)
    ensures k == FirstUri(tracks, uri, 0)
  {
    for i := 0 to |tracks|
      invariant FirstUri(tracks, uri, i) == FirstUri(tracks, uri, 0)
    {
      if tracks[i].uri == uri {
        return i;
      }
    }
    return |tracks|;
  }

  method FindShufflePos(order: seq<nat>, v: nat) returns (p: nat)
    ensures p == Pos(order, v)
  {
    for i := 0 to |order|
      invariant PosFrom(order, v, i) == PosFrom(order, v, 0)
    {
      if order[i] == v {
        return i;
      }
    }
    return |order|;
  }

  /** The exchanges, from the last place down. */
  method Shuffle(order: seq<nat>, first: nat, start: u64) returns (r: seq<nat>)
    requires order != []
    ensures r == Shuffled(order, first, |order| - 1, start)
  {
    hide NextSeed, Draw;
    r := order;
    var seed := start;
    var i := |order| - 1;
    while i > first
      invariant 0 <= i < |r| == |order|
      invariant Shuffled(r, first, i, seed) == Shuffled(order, first, |order| - 1, start)
    {
      seed := NextSeed(seed);
      var j := first + Draw(seed, i - first + 1);
      r := Swap(r, i, j);
      i := i - 1;
    }
  }

  /** The current track and the observed ones after it, and which tracks these are. */
  method ObservedOrder(tracks: seq<Track>, current: nat, uris: seq<string>)
    returns (order: seq<nat>, used: seq<bool>, applied: nat)
    requires current < |tracks|
    ensures applied == |order| - 1
    ensures order == Adopted(tracks, [current], uris, false) && PartialOrder(order, |tracks|)
    ensures |used| == |tracks| && forall i :: 0 <= i < |used| ==> (used[i] <==> i in order)
  {
    hide FirstUri, Distinct;
    AdoptedIsPartial(tracks, current, uris);
    used := seq(|tracks|, _ => false)[current := true];
    order := [current];
    var seenCurrent := false;
    applied := 0;
    for n := 0 to |uris|
      invariant |order| == applied + 1 && order[0] == current && |used| == |tracks|
      invariant Adopted(tracks, order, uris[n..], seenCurrent) == Adopted(tracks, [current], uris, false)
      invariant forall i :: 0 <= i < |used| ==> (used[i] <==> i in order)
    {
      assert uris[n..][0] == uris[n] && uris[n..][1..] == uris[n + 1..];
      var idx := FindTrackIndex(tracks, uris[n]);
      if idx >= |tracks| {
        KnownOnly(tracks, order, uris[n..], seenCurrent);
        continue;
      }
      if idx == current {
        seenCurrent := true;
        continue;
      }
      if !seenCurrent {
        continue;
      }
      if used[idx] {
        continue;
      }
      order := order + [idx];
      used := used[idx := true];
      applied := applied + 1;
    }
  }

  /** Every track not used yet, in list order. */
  method Complete(order: seq<nat>, used: seq<bool>) returns (r: seq<nat>)
    requires forall i :: 0 <= i < |used| ==> (used[i] <==> i in order)
    ensures r == order + Unused(order, 0, |used|)
  {
    r := order;
    for i := 0 to |used|
      invariant r + Unused(order, i, |used|) == order + Unused(order, 0, |used|)
    {
      if !used[i] {
        assert [i] + Unused(order, i + 1, |used|) == Unused(order, i, |used|);
        r := r + [i];
      }
    }
  }

  lemma AdoptedIsPartial(tracks: seq<Track>, current: nat, uris: seq<string>)
    requires current < |tracks|
    ensures PartialOrder(Adopted(tracks, [current], uris, false), |tracks|)
  {
    AdoptedPartial(tracks, [current], uris, false);
  }

  lemma KnownOnly(tracks: seq<Track>, order: seq<nat>, uris: seq<string>, seen: bool)
    requires order != [] && order[0] < |tracks| && uris != [] && FirstUri(tracks, uris[0], 0) == |tracks|
    ensures Adopted(tracks, order, uris, seen) == Adopted(tracks, order, uris[1..], seen)
  {
    hide FirstUri;
  }

  method CollectOrder(tracks: seq<Track>, order: seq<nat>, from: nat, to: nat) returns (r: seq<Track>)
    requires from <= to <= |order| && InRange(order, |tracks|)
    ensures r == TracksAt(tracks, order[from..to])
  {
    r := [];
    for i := from to to
      invariant r == TracksAt(tracks, order[from..i])
    {
      assert order[from..i + 1] == order[from..i] + [order[i]];
      r := r + [tracks[order[i]]];
    }
  }

  method CollectNatural(tracks: seq<Track>, from: nat, to: nat) returns (r: seq<Track>)
    requires from <= to <= |tracks|
    ensures r == TracksAt(tracks, Natural(|tracks|)[from..to])
  {
    r := [];
    for i := from to to
      invariant r == TracksAt(tracks, Natural(|tracks|)[from..i])
    {
      assert Natural(|tracks|)[from..i + 1] == Natural(|tracks|)[from..i] + [i];
      r := r + [tracks[i]];
    }
  }

  // ---------------------------------------------------------------- facts about orders

  lemma OrderFacts(order: seq<nat>, n: nat, v: nat)
    requires Permutes(order, 0, n)
    ensures |order| == n && (v in order <==> v < n)
    ensures InRange(order, n)
  {
    PermutesLength(order, 0, n);
    assert forall i :: 0 <= i < |order| ==> order[i] in order;
  }

  lemma ReachedStep(order: seq<nat>, v: nat, k: nat)
    requires v in order
    ensures k == 0 ==> Reached(order, v, k) == v
    ensures k > 0 ==> After(order, Reached(order, v, k - 1), true) == Some(Reached(order, v, k))
  {
  }

  lemma NaturalPos(n: nat, v: nat)
    requires v < n
    ensures Pos(Natural(n), v) == v
  {
    assert Natural(n)[v] in Natural(n);
  }

  lemma NaturalGrows(m: nat, n: nat)
    requires m <= n
    ensures Natural(m) <= Natural(n)
  {
  }

  lemma HeadInRange(order: seq<nat>, n: nat)
    requires Permutes(order, 0, n) && order != []
    ensures order[0] < n
  {
    assert order[0] in order;
  }

  /** What a snapshot shows next is what going on without wrapping selects, and then what comes after that. */
  lemma SnapshotShowsNext(tracks: seq<Track>, order: seq<nat>, v: nat, window: nat, i: nat)
    requires InRange(order, |tracks|) && Distinct(order) && v in order && window > 0
    ensures var next, left := TracksAfter(tracks, order, v, window), |order| - 1 - Pos(order, v);
      && |next| == (if left < window then left else window)
      && (After(order, v, false).None? <==> next == [])
      && (i < |next| ==> Reached(order, v, i + 1) < |tracks| && next[i] == tracks[Reached(order, v, i + 1)])
  {
    hide Pos, PosFrom, Reached, Distinct;
    if i + 1 <= |order| {
      ReachedAt(order, v, i + 1);
    }
  }

  /** What it shows before is, from its end backwards, what going back without wrapping selects. */
  lemma SnapshotShowsPrevious(tracks: seq<Track>, order: seq<nat>, v: nat, window: nat, i: nat)
    requires InRange(order, |tracks|) && Distinct(order) && v in order
    ensures var prev, left := TracksBefore(tracks, order, v, window), Pos(order, v);
      && |prev| == (if left < window then left else window)
      && (i < |prev| ==>
          GoneBack(order, v, i + 1).Some? && GoneBack(order, v, i + 1).value < |tracks|
          && prev[|prev| - 1 - i] == tracks[GoneBack(order, v, i + 1).value])
  {
    hide Pos, PosFrom, GoneBack, Distinct;
    GoneBackAt(order, v, i + 1);
  }
}
