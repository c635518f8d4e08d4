/** Orders in which a list of tracks is played, and moving through them. */
module PlaybackOrder {
  datatype Option<T> = None | Some(value: T)

  predicate Distinct<T(==)>(s: seq<T>) {
    forall i, j :: 0 <= i < j < |s| ==> s[i] != s[j]
  }

  /** Each number from lo up to hi, once. */
  ghost predicate Permutes(order: seq<nat>, lo: nat, hi: nat) {
    Distinct(order) && forall v :: v in order <==> lo <= v < hi
  }

  function Natural(n: nat): (order: seq<nat>)
    ensures |order| == n && forall i :: 0 <= i < n ==> order[i] == i
  {
    seq(n, i => i)
  }

  lemma NaturalPermutes(lo: nat, n: nat)
    ensures Permutes(seq(n, i requires 0 <= i < n => lo + i), lo, lo + n)
  {
    var s := seq(n, i requires 0 <= i < n => lo + i);
    forall v | lo <= v < lo + n
      ensures v in s
    {
      assert s[v - lo] == v;
    }
  }

  function Swap<T>(s: seq<T>, i: nat, j: nat): (r: seq<T>)
    requires i < |s| && j < |s|
    ensures |r| == |s|
  {
    s[i := s[j]][j := s[i]]
  }

  lemma SwapPermutes(s: seq<nat>, i: nat, j: nat, lo: nat, hi: nat)
    requires i < |s| && j < |s| && Permutes(s, lo, hi)
    ensures Permutes(Swap(s, i, j), lo, hi)
  {
    var r := Swap(s, i, j);
    forall v | v in s
      ensures v in r
    {
      var k :| 0 <= k < |s| && s[k] == v;
      var m := if k == i then j else if k == j then i else k;
      assert r[m] == v;
    }
  }

  lemma AppendPermutes(a: seq<nat>, b: seq<nat>, lo: nat, mid: nat, hi: nat)
    requires lo <= mid <= hi && Permutes(a, lo, mid) && Permutes(b, mid, hi)
    ensures Permutes(a + b, lo, hi)
  {
    forall i, j | 0 <= i < j < |a + b|
      ensures (a + b)[i] != (a + b)[j]
    {
      if i < |a| <= j {
        assert a[i] in a && b[j - |a|] in b;
      }
    }
  }

  /** Where a track stands in an order; the length when it is not there. */
  function PosFrom(order: seq<nat>, v: nat, from: nat): (p: nat)
    requires from <= |order|
    ensures from <= p <= |order| && (p < |order| ==> order[p] == v)
    ensures forall j :: from <= j < p ==> order[j] != v
    decreases |order| - from
  {
    if from == |order| || order[from] == v then from else PosFrom(order, v, from + 1)
  }

  function Pos(order: seq<nat>, v: nat): (p: nat)
    ensures p < |order| <==> v in order
    ensures p < |order| ==> order[p] == v
  {
    PosFrom(order, v, 0)
  }

  lemma PosOf(order: seq<nat>, p: nat)
    requires Distinct(order) && p < |order|
    ensures Pos(order, order[p]) == p
  {
  }

  /** Such an order has as many entries as there are numbers. */
  lemma {:induction false} PermutesLength(order: seq<nat>, lo: nat, hi: nat)
    requires lo <= hi && Permutes(order, lo, hi)
    ensures |order| == hi - lo
    decreases hi
  {
    assert order != [] ==> order[0] in order;
    if lo < hi {
      assert hi - 1 in order;
      var k := Pos(order, hi - 1);
      var rest := order[..k] + order[k + 1..];
      forall v
        ensures v in rest <==> lo <= v < hi - 1
      {
        if lo <= v < hi - 1 {
          assert v in order;
          var m := Pos(order, v);
          assert rest[if m < k then m else m - 1] == v;
        }
        if v in rest {
          var m := Pos(rest, v);
          assert order[if m < k then m else m + 1] == v;
          assert v in order;
        }
      }
      PermutesLength(rest, lo, hi - 1);
    }
  }

  // ---------------------------------------------------------------- one step

  /** The track after v; past the end, the first one if the order wraps. */
  function After(order: seq<nat>, v: nat, wrap: bool): (next: Option<nat>)
    requires v in order
  {
    var p := Pos(order, v);
    if p + 1 < |order| then Some(order[p + 1]) else if wrap then Some(order[0]) else None
  }

  function Before(order: seq<nat>, v: nat, wrap: bool): (previous: Option<nat>)
    requires v in order
  {
    var p := Pos(order, v);
    if p > 0 then Some(order[p - 1]) else if wrap then Some(order[|order| - 1]) else None
  }

  /** Going back undoes going on, and the other way round. */
  lemma BackUndoesOn(order: seq<nat>, v: nat, wrap: bool)
    requires Distinct(order) && v in order
    ensures After(order, v, wrap).Some? ==> Before(order, After(order, v, wrap).value, wrap) == Some(v)
    ensures Before(order, v, wrap).Some? ==> After(order, Before(order, v, wrap).value, wrap) == Some(v)
  {
  }

  /** In the natural order the next track is the one after, and the previous one the one before. */
  lemma NaturalSteps(n: nat, v: nat, wrap: bool)
    requires v < n
    ensures v in Natural(n)
    ensures After(Natural(n), v, wrap) ==
      if v + 1 < n then Some(v + 1) else if wrap then Some(0) else None
    ensures Before(Natural(n), v, wrap) ==
      if v > 0 then Some(v - 1) else if wrap then Some(n - 1) else None
  {
    assert Natural(n)[v] == v;
    PosOf(Natural(n), v);
  }

  /** The track that k steps back without wrapping lead to. */
  function GoneBack(order: seq<nat>, v: nat, k: nat): (w: Option<nat>)
    requires v in order
    ensures w.Some? ==> w.value in order
  {
    if k == 0 then Some(v)
    else
      match GoneBack(order, v, k - 1)
      case None => None
      case Some(u) => Before(order, u, false)
  }

  /** They lead k places back, if there are so many. */
  lemma {:induction false} GoneBackAt(order: seq<nat>, v: nat, k: nat)
    requires Distinct(order) && v in order
    ensures GoneBack(order, v, k) == if k <= Pos(order, v) then Some(order[Pos(order, v) - k]) else None
  {
    hide Pos, Distinct;
    if k > 0 {
      GoneBackAt(order, v, k - 1);
      if k - 1 <= Pos(order, v) {
        PosOf(order, Pos(order, v) - (k - 1));
      }
    }
  }

  // ---------------------------------------------------------------- whole rounds

  /** The track reached by going on k times in an order that wraps. */
  function Reached(order: seq<nat>, v: nat, k: nat): (w: nat)
    requires v in order
    ensures w in order
  {
    if k == 0 then v else After(order, Reached(order, v, k - 1), true).value
  }

  /** Within a round the place is found by counting, starting over once at the end. */
  lemma {:induction false} ReachedAt(order: seq<nat>, v: nat, k: nat)
    requires Distinct(order) && v in order && k <= |order|
    ensures Reached(order, v, k) == order[Place(Pos(order, v), k, |order|)]
  {
    hide Pos, Distinct;
    if k > 0 {
      ReachedAt(order, v, k - 1);
      PosOf(order, Place(Pos(order, v), k - 1, |order|));
    }
  }

  function Place(p: nat, k: nat, n: nat): (q: nat)
    requires p < n && k <= n
    ensures q < n
  {
    if p + k < n then p + k else p + k - n
  }

  /** How far on from v the order has w. */
  function Turns(order: seq<nat>, v: nat, w: nat): (k: nat)
    requires v in order && w in order
    ensures k < |order|
  {
    var p, q := Pos(order, v), Pos(order, w);
    if q >= p then q - p else q + |order| - p
  }

  /** From anywhere, a round plays every track once and comes back to where it began. */
  lemma RoundPlaysAll(order: seq<nat>, v: nat)
    requires Distinct(order) && v in order
    ensures Reached(order, v, |order|) == v
    ensures forall i, j :: 0 <= i < j < |order| ==> Reached(order, v, i) != Reached(order, v, j)
    ensures forall w :: w in order ==> Reached(order, v, Turns(order, v, w)) == w
  {
    hide Reached;
    var n, p := |order|, Pos(order, v);
    ReachedAt(order, v, n);
    forall i, j | 0 <= i < j < n
      ensures Reached(order, v, i) != Reached(order, v, j)
    {
      ReachedAt(order, v, i);
      ReachedAt(order, v, j);
    }
    forall w | w in order
      ensures Reached(order, v, Turns(order, v, w)) == w
    {
      ReachedAt(order, v, Turns(order, v, w));
    }
  }
}
