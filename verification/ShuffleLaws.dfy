/** What the shuffle can come to: its generator reaches every number, and its exchanges every order. */
module ShuffleLaws {
  import opened Bits
  import opened PlaybackOrder
  import opened ContextState

  const SEEDS: nat := 0x1_0000_0000_0000_0000

  // ---------------------------------------------------------------- the generator

  /** The seed that the generator takes to r: 13877824140714322085 inverts the multiplier modulo 2^64. */
  function PreviousSeed(r: u64): (seed: u64) {
    (r + 17004049032820588209) * 13877824140714322085 % SEEDS
  }

  lemma ScaledBack(seed: int, k: int, r: int)
    requires seed * 6364136223846793005 + 1442695040888963407 == k * SEEDS + r
    ensures (r + 17004049032820588209) * 13877824140714322085
      == (seed * 4787856489426250814 - (k - 1) * 13877824140714322085) * SEEDS + seed
  {
    assert r + 17004049032820588209 == seed * 6364136223846793005 - (k - 1) * SEEDS;
  }

  lemma ScaledOn(r: int, k: int, seed: int)
    requires (r + 17004049032820588209) * 13877824140714322085 == k * SEEDS + seed
    ensures seed * 6364136223846793005 + 1442695040888963407
      == ((r + 17004049032820588209) * 4787856489426250814 - k * 6364136223846793005 + 1) * SEEDS + r
  {
  }

  /** The generator never takes two seeds to one number, and leaves none out. */
  lemma SeedsMatch(seed: u64)
    ensures PreviousSeed(NextSeed(seed)) == seed && NextSeed(PreviousSeed(seed)) == seed
  {
    var next := seed * 6364136223846793005 + 1442695040888963407;
    DivMod(next, SEEDS);
    ScaledBack(seed, next / SEEDS, next % SEEDS);
    DivModUnique((next % SEEDS + 17004049032820588209) * 13877824140714322085, SEEDS,
                 seed * 4787856489426250814 - (next / SEEDS - 1) * 13877824140714322085, seed);
    var back := (seed + 17004049032820588209) * 13877824140714322085;
    DivMod(back, SEEDS);
    ScaledOn(seed, back / SEEDS, back % SEEDS);
    DivModUnique((back % SEEDS) * 6364136223846793005 + 1442695040888963407, SEEDS,
                 (seed + 17004049032820588209) * 4787856489426250814 - back / SEEDS * 6364136223846793005 + 1, seed);
  }

  /** Any number below the bound can be the next one drawn. */
  lemma AnyDraw(bound: nat, v: nat) returns (seed: u64)
    requires v < bound <= SEEDS
    ensures Draw(NextSeed(seed), bound) == v
  {
    hide NextSeed, PreviousSeed;
    seed := PreviousSeed(v);
    SeedsMatch(v);
    DivModUnique(v, bound, 0, v);
  }

  // ---------------------------------------------------------------- the exchanges

  /** The numbers drawn for the places from i down to behind first. */
  function Draws(first: nat, i: nat, seed: u64): (draws: seq<nat>)
    ensures |draws| == if i <= first then 0 else i - first
    ensures forall t :: 0 <= t < |draws| ==> draws[t] <= i - first - t
    decreases i
  {
    if i <= first then []
    else
      var next := NextSeed(seed);
      [next % (i - first + 1)] + Draws(first, i - 1, next)
  }

  /** Places from i down to behind first, each exchanged with the place drawn for it. */
  function Exchanged(order: seq<nat>, first: nat, i: nat, draws: seq<nat>): (r: seq<nat>)
    requires i < |order| && |draws| == if i <= first then 0 else i - first
    requires forall t :: 0 <= t < |draws| ==> draws[t] <= i - first - t
    ensures |r| == |order|
    decreases i
  {
    if i <= first then order
    else Exchanged(Swap(order, i, first + draws[0]), first, i - 1, draws[1..])
  }

  lemma {:induction false} ShuffleExchanges(order: seq<nat>, first: nat, i: nat, seed: u64)
    requires i < |order|
    ensures Shuffled(order, first, i, seed) == Exchanged(order, first, i, Draws(first, i, seed))
    decreases i
  {
    hide NextSeed, Swap;
    if i > first {
      var next := NextSeed(seed);
      ShuffleExchanges(Swap(order, i, first + Draw(next, i - first + 1)), first, i - 1, next);
    }
  }

  /** Every order that keeps the places before first comes from some draws. */
  lemma {:induction false} AnyOrder(order: seq<nat>, target: seq<nat>, first: nat, i: nat, n: nat)
    returns (draws: seq<nat>)
    requires Permutes(order, 0, n) && Permutes(target, 0, n) && i < |order| == |target|
    requires order[i + 1..] == target[i + 1..]
    requires first <= |order| && order[..first] == target[..first]
    ensures |draws| == if i <= first then 0 else i - first
    ensures forall t :: 0 <= t < |draws| ==> draws[t] <= i - first - t
    ensures Exchanged(order, first, i, draws) == target
    decreases i
  {
    if i <= first {
      draws := [];
      LastPlace(order, target, i, n);
    } else {
      var j := Pos(order, target[i]);
      PlaceOfTarget(order, target, first, i, n);
      SwapPermutes(order, i, j, 0, n);
      var next := Swap(order, i, j);
      SwapAgrees(order, target, first, i, j);
      var more := AnyOrder(next, target, first, i - 1, n);
      draws := [j - first] + more;
      assert draws[1..] == more;
    }
  }

  /** Orders of the same numbers that agree in all places but one agree in that one. */
  lemma LastPlace(order: seq<nat>, target: seq<nat>, i: nat, n: nat)
    requires Permutes(order, 0, n) && Permutes(target, 0, n) && i < |order| == |target|
    requires order[i + 1..] == target[i + 1..] && order[..i] == target[..i]
    ensures order == target
  {
    assert target[i] in target;
    assert target[i] in order;
    var j := Pos(order, target[i]);
    assert j == i;
    assert order == order[..i] + [order[i]] + order[i + 1..];
    assert target == target[..i] + [target[i]] + target[i + 1..];
  }

  lemma PlaceOfTarget(order: seq<nat>, target: seq<nat>, first: nat, i: nat, n: nat)
    requires Permutes(order, 0, n) && Permutes(target, 0, n) && first < i < |order| == |target|
    requires order[i + 1..] == target[i + 1..] && order[..first] == target[..first]
    ensures first <= Pos(order, target[i]) <= i
  {
    assert target[i] in target;
    assert target[i] in order;
  }

  lemma SwapAgrees(order: seq<nat>, target: seq<nat>, first: nat, i: nat, j: nat)
    requires first <= j <= i < |order| == |target| && order[j] == target[i]
    requires order[i + 1..] == target[i + 1..] && order[..first] == target[..first]
    ensures Swap(order, i, j)[i..] == target[i..] && Swap(order, i, j)[..first] == target[..first]
  {
    var r := Swap(order, i, j);
    assert r[i] == target[i];
    assert r[i + 1..] == order[i + 1..];
    assert r[i..] == [r[i]] + r[i + 1..] && target[i..] == [target[i]] + target[i + 1..];
    assert r[..first] == order[..first];
  }

  // ---------------------------------------------------------------- new orders

  /** A new order shuffles every place, or every place but that of the current track, which goes to the front. */
  lemma NewOrderDrawn(n: nat, pinned: Option<nat>, seed: u64)
    requires n > 0 && (pinned.Some? ==> pinned.value < n)
    ensures NewOrder(n, pinned, seed) ==
      match pinned
      case None => Exchanged(Natural(n), 0, n - 1, Draws(0, n - 1, seed))
      case Some(v) => Exchanged(Swap(Natural(n), 0, v), 1, n - 1, Draws(1, n - 1, seed))
  {
    hide Draws, Exchanged, Shuffled, Swap;
    match pinned
    case None => ShuffleExchanges(Natural(n), 0, n - 1, seed);
    case Some(v) => ShuffleExchanges(Swap(Natural(n), 0, v), 1, n - 1, seed);
  }

  /** Every order of all tracks is a new order for some draws; with a current track, every one that begins with it. */
  lemma AnyNewOrder(n: nat, target: seq<nat>) returns (free: seq<nat>, pinned: seq<nat>)
    requires n > 0 && Permutes(target, 0, n)
    ensures |target| == n && target[0] < n
    ensures |free| == n - 1 && forall t :: 0 <= t < |free| ==> free[t] <= n - 1 - t
    ensures Exchanged(Natural(n), 0, n - 1, free) == target
    ensures |pinned| == (if n == 1 then 0 else n - 2) && forall t :: 0 <= t < |pinned| ==> pinned[t] <= n - 2 - t
    ensures Exchanged(Swap(Natural(n), 0, target[0]), 1, n - 1, pinned) == target
  {
    hide Exchanged;
    PermutesLength(target, 0, n);
    HeadInRange(target, n);
    NaturalIsPermuted(n);
    free := AnyOrder(Natural(n), target, 0, n - 1, n);
    SwapPermutes(Natural(n), 0, target[0], 0, n);
    var front := Swap(Natural(n), 0, target[0]);
    assert front[..1] == [target[0]] == target[..1];
    pinned := AnyOrder(front, target, 1, n - 1, n);
  }

  /** New tracks come behind the order, in the order of their own draws. */
  lemma ExtendedDrawn(order: seq<nat>, first: nat, count: nat, seed: u64)
    requires count > 0
    ensures Extended(order, first, count, seed) ==
      order + Exchanged(seq(count, i requires 0 <= i < count => first + i), 0, count - 1, Draws(0, count - 1, seed))
  {
    hide Draws, Exchanged, Shuffled;
    ShuffleExchanges(seq(count, i requires 0 <= i < count => first + i), 0, count - 1, seed);
  }
}
