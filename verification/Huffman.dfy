/** The codeword allocation of the Vorbis setup header (Vorbis I, section 3.2.1). */
module Huffman {
  import opened Bits

  const NO_CODE: nat := 255

  /** The 2^32 left-justified codes: a codeword of length l owns the Size(l) codes it is a prefix of. */
  const SPACE: nat := 0x1_0000_0000

  predicate ValidLength(l: nat) {
    1 <= l <= 31 || l == NO_CODE
  }

  predicate ValidLengths(lengths: seq<nat>) {
    forall i :: 0 <= i < |lengths| ==> ValidLength(lengths[i])
  }

  predicate Used(lengths: seq<nat>, i: int) {
    0 <= i < |lengths| && lengths[i] != NO_CODE
  }

  function Size(l: nat): (s: nat)
    requires l <= 32
    ensures s >= 1
  {
    Pow2(32 - l)
  }

  lemma SizeHalves(l: nat)
    requires l < 32
    ensures Size(l) == 2 * Size(l + 1)
  {
  }

  lemma SizeMono(a: nat, b: nat)
    requires a < b <= 32
    ensures 2 * Size(b) <= Size(a)
  {
    Pow2Mono(32 - b, 32 - a);
  }

  lemma SizeDivides(a: nat, b: nat)
    requires a <= b <= 32
    ensures Size(a) == Pow2(b - a) * Size(b)
  {
    Pow2Add(b - a, 32 - b);
  }

  /** Code c, kept left-justified in 32 bits, is a node at depth l of the binary tree of codes. */
  predicate IsNode(c: int, l: nat) {
    l <= 32 && 0 <= c && c + Size(l) <= SPACE && c % Size(l) == 0
  }

  predicate Owns(c: int, l: nat, p: int)
    requires l <= 32
  {
    c <= p < c + Size(l)
  }

  predicate Disjoint(c: int, l: nat, c': int, l': nat)
    requires l <= 32 && l' <= 32
  {
    c + Size(l) <= c' || c' + Size(l') <= c
  }

  /** Nodes nest or are disjoint: a node that shares a code with a shallower one lies inside it. */
  lemma NodesNest(c: int, l: nat, c': int, l': nat)
    requires IsNode(c, l) && IsNode(c', l') && l <= l'
    requires !Disjoint(c, l, c', l')
    ensures c <= c' && c' + Size(l') <= c + Size(l)
  {
    SizeDivides(l, l');
    hide Pow2, Size;
    var k, s := Pow2(l' - l), Size(l');
    var q, q' := c / Size(l), c' / s;
    DivMod(c, Size(l));
    DivMod(c', s);
    MulAssoc(q, k, s);
    MultiplesNest(q * k, k, q', s);
  }

  lemma MultiplesNest(a: int, k: int, b: int, s: nat)
    requires a * s + k * s > b * s && b * s + s > a * s
    ensures a * s <= b * s && b * s + s <= a * s + k * s
  {
    MulDistribute(a, k, s);
    MulDistribute(b, 1, s);
    if a + k <= b {
      MulMono(a + k, b, s);
    } else if b + 1 <= a {
      MulMono(b + 1, a, s);
    } else {
      MulMono(a, b, s);
      MulMono(b + 1, a + k, s);
    }
  }

  // ---------------------------------------------------------------- what an allocation is

  /** How much of the code space the first n lengths ask for; Kraft's sum times 2^32. */
  function Kraft(lengths: seq<nat>): nat
    requires ValidLengths(lengths)
  {
    if lengths == [] then 0
    else
      var k := |lengths| - 1;
      Kraft(lengths[..k]) + if lengths[k] == NO_CODE then 0 else Size(lengths[k])
  }

  /** Symbols i and j own no code in common. */
  predicate Apart(lengths: seq<nat>, code: seq<nat>, i: nat, j: nat)
    requires ValidLengths(lengths) && |code| == |lengths| && i < |lengths| && j < |lengths|
    requires Used(lengths, i) && Used(lengths, j)
  {
    Disjoint(code[i], lengths[i], code[j], lengths[j])
  }

  /** Every used symbol has a node of its own length, and no two of them overlap. */
  ghost predicate PrefixFree(lengths: seq<nat>, code: seq<nat>) {
    && ValidLengths(lengths) && |code| == |lengths|
    && (forall i :: Used(lengths, i) ==> IsNode(code[i], lengths[i]))
    && (forall i: nat, j: nat :: i < j && Used(lengths, i) && Used(lengths, j) ==> Apart(lengths, code, i, j))
  }

  /** Node (c, l) meets none of the nodes of the first n symbols. */
  ghost predicate FreeOf(lengths: seq<nat>, code: seq<nat>, n: nat, c: int, l: nat)
    requires ValidLengths(lengths) && |code| == |lengths| && n <= |lengths| && l <= 32
  {
    forall j :: 0 <= j < n && Used(lengths, j) ==> Disjoint(c, l, code[j], lengths[j])
  }

  /** The standard's rule: symbol i takes the lowest codeword of its length that is still free. */
  ghost predicate LowestFree(lengths: seq<nat>, code: seq<nat>, i: nat)
    requires ValidLengths(lengths) && |code| == |lengths| && Used(lengths, i)
  {
    && IsNode(code[i], lengths[i])
    && FreeOf(lengths, code, i, code[i], lengths[i])
    && forall c: nat :: c < code[i] && IsNode(c, lengths[i]) ==> !FreeOf(lengths, code, i, c, lengths[i])
  }

  ghost predicate Standard(lengths: seq<nat>, code: seq<nat>) {
    && ValidLengths(lengths) && |code| == |lengths|
    && forall i: nat :: Used(lengths, i) ==> LowestFree(lengths, code, i)
  }

  /** The standard's rule leaves no choice. */
  lemma {:induction false} StandardUnique(lengths: seq<nat>, code: seq<nat>, code': seq<nat>, n: nat)
    requires Standard(lengths, code) && Standard(lengths, code') && n <= |lengths|
    ensures forall i: nat :: i < n && Used(lengths, i) ==> code[i] == code'[i]
  {
    if n > 0 {
      var i := n - 1;
      StandardUnique(lengths, code, code', i);
      if Used(lengths, i) {
        assert LowestFree(lengths, code, i) && LowestFree(lengths, code', i);
        var l := lengths[i];
        assert FreeOf(lengths, code', i, code[i], l);
        assert FreeOf(lengths, code, i, code'[i], l);
      }
    }
  }

  lemma StandardIsPrefixFree(lengths: seq<nat>, code: seq<nat>)
    requires Standard(lengths, code)
    ensures PrefixFree(lengths, code)
  {
  }

  // ---------------------------------------------------------------- the standard's example

  const EXAMPLE_LENGTHS: seq<nat> := [2, 4, 4, 4, 4, 2, 3, 3]

  const EXAMPLE_CODE: seq<nat> :=
    [0, 0x4000_0000, 0x5000_0000, 0x6000_0000, 0x7000_0000, 0x8000_0000, 0xc000_0000, 0xe000_0000]

  lemma ExampleSizes()
    ensures Size(2) == 0x4000_0000 && Size(3) == 0x2000_0000 && Size(4) == 0x1000_0000
  {
    Pow2Values();
    assert Pow2(31) == 2 * Pow2(30) && Pow2(30) == 2 * Pow2(29) && Pow2(29) == 2 * Pow2(28);
  }

  /** The codes are nodes of their lengths, each behind the one before it. */
  lemma ExampleNode(i: nat)
    requires i < 8
    ensures IsNode(EXAMPLE_CODE[i], EXAMPLE_LENGTHS[i])
    ensures i < 7 ==> EXAMPLE_CODE[i] + Size(EXAMPLE_LENGTHS[i]) == EXAMPLE_CODE[i + 1]
  {
    ExampleSizes();
    hide Size;
    match i
    case 0 => case 1 => case 2 => case 3 => case 4 => case 5 => case 6 => case 7 =>
  }

  lemma {:induction false} ExampleBehind(j: nat, i: nat)
    requires j < i < 8
    ensures EXAMPLE_CODE[j] + Size(EXAMPLE_LENGTHS[j]) <= EXAMPLE_CODE[i]
    decreases i - j
  {
    hide Size, IsNode;
    ExampleNode(j);
    if j + 1 < i {
      ExampleBehind(j + 1, i);
    }
  }

  /** Every code before that of symbol i belongs to an earlier symbol. */
  lemma ExampleTaken(i: nat, p: nat)
    requires i < 8 && p < EXAMPLE_CODE[i]
    ensures exists j :: 0 <= j < i && Owns(EXAMPLE_CODE[j], EXAMPLE_LENGTHS[j], p)
  {
    ExampleSizes();
    hide Size;
    var j := if p < 0x4000_0000 then 0 else if p < 0x5000_0000 then 1 else if p < 0x6000_0000 then 2
      else if p < 0x7000_0000 then 3 else if p < 0x8000_0000 then 4 else if p < 0xc000_0000 then 5 else 6;
    assert Owns(EXAMPLE_CODE[j], EXAMPLE_LENGTHS[j], p);
  }

  lemma ExampleLowest(i: nat)
    requires i < 8
    ensures LowestFree(EXAMPLE_LENGTHS, EXAMPLE_CODE, i)
  {
    var l := EXAMPLE_LENGTHS[i];
    hide Size, IsNode, Owns;
    ExampleNode(i);
    forall j | 0 <= j < i
      ensures Disjoint(EXAMPLE_CODE[i], l, EXAMPLE_CODE[j], EXAMPLE_LENGTHS[j])
    {
      ExampleBehind(j, i);
    }
    forall c: nat | c < EXAMPLE_CODE[i] && IsNode(c, l)
      ensures !FreeOf(EXAMPLE_LENGTHS, EXAMPLE_CODE, i, c, l)
    {
      ExampleMet(i, c, l);
    }
  }

  lemma ExampleMet(i: nat, c: nat, l: nat)
    requires i < 8 && c < EXAMPLE_CODE[i] && l <= 32
    ensures !FreeOf(EXAMPLE_LENGTHS, EXAMPLE_CODE, i, c, l)
  {
    hide Size;
    ExampleTaken(i, c);
    var j :| 0 <= j < i && Owns(EXAMPLE_CODE[j], EXAMPLE_LENGTHS[j], c);
    assert !Disjoint(c, l, EXAMPLE_CODE[j], EXAMPLE_LENGTHS[j]);
  }

  /** The example of the standard: codewords 00, 0100, 0101, 0110, 0111, 10, 110 and 111. */
  lemma StandardExample(code: seq<nat>)
    requires Standard([2, 4, 4, 4, 4, 2, 3, 3], code)
    ensures code == [0, 0x4000_0000, 0x5000_0000, 0x6000_0000, 0x7000_0000, 0x8000_0000, 0xc000_0000, 0xe000_0000]
  {
    hide LowestFree;
    forall i: nat | i < 8
      ensures LowestFree(EXAMPLE_LENGTHS, EXAMPLE_CODE, i)
    {
      ExampleLowest(i);
    }
    StandardUnique(EXAMPLE_LENGTHS, code, EXAMPLE_CODE, 8);
  }

  // ---------------------------------------------------------------- the free subtrees

  /** At most one free subtree per depth: its code, by depth. */
  type Free = map<nat, nat>

  /** Free subtrees are nodes, and the deeper ones lie below the shallower ones. */
  ghost predicate Ordered(free: Free) {
    && (forall l :: l in free ==> l <= 31 && IsNode(free[l], l))
    && (forall l, l' :: l in free && l' in free && l < l' ==> free[l'] + Size(l') <= free[l])
  }

  /** Some free subtree owns code p. */
  ghost predicate FreeAt(free: Free, p: int) {
    exists l :: l in free && l <= 32 && Owns(free[l], l, p)
  }

  ghost predicate UsedAt(lengths: seq<nat>, code: seq<nat>, p: int)
    requires ValidLengths(lengths) && |code| == |lengths|
  {
    exists i: nat :: Used(lengths, i) && Owns(code[i], lengths[i], p)
  }

  /** Used and free subtrees partition the code space. */
  ghost predicate Partition(lengths: seq<nat>, code: seq<nat>, free: Free) {
    && PrefixFree(lengths, code)
    && Ordered(free)
    && (forall i: nat, l :: Used(lengths, i) && l in free ==> Disjoint(code[i], lengths[i], free[l], l))
    && (forall p :: 0 <= p < SPACE ==> UsedAt(lengths, code, p) || FreeAt(free, p))
  }

  /** The deepest free level that is at most l, searched upwards as the source does; 0 if there is none. */
  function Deepest(free: Free, l: nat): (z: nat)
    ensures z <= l
    ensures forall k :: z < k <= l ==> k !in free
    ensures z > 0 ==> z in free
  {
    if l == 0 || l in free then l else Deepest(free, l - 1)
  }

  /** The levels z + 1 to l. */
  function Levels(z: nat, l: nat): (s: set<nat>)
    ensures forall y :: y in s <==> z < y <= l
  {
    if l <= z then {} else Levels(z, l - 1) + {l}
  }

  /** Taking the first leaf of length l out of the free subtree at depth z. */
  function Take(free: Free, z: nat, l: nat): Free
    requires z in free && z <= l <= 32
  {
    map k | k in (free.Keys - {z}) + Levels(z, l) ::
      if z < k <= l then free[z] + Size(k) else free[k]
  }

  lemma {:induction false} SplitCovers(res: int, z: nat, l: nat, p: int) returns (y: nat)
    requires z <= l <= 32 && Owns(res, z, p)
    ensures z <= y <= l
    ensures y == z ==> Owns(res, l, p)
    ensures y > z ==> Owns(res + Size(y), y, p)
    decreases l
  {
    if z == l || Owns(res, l, p) {
      y := z;
    } else {
      SizeHalves(l - 1);
      if Owns(res, l - 1, p) {
        y := l;
      } else {
        y := SplitCovers(res, z, l - 1, p);
      }
    }
  }

  lemma TakeNodes(free: Free, z: nat, l: nat)
    requires Ordered(free) && z in free && z <= l <= 31
    requires forall k :: z < k <= l ==> k !in free
    ensures forall k :: k in Take(free, z, l) ==> k <= 31 && IsNode(Take(free, z, l)[k], k)
    ensures IsNode(free[z], l)
    ensures forall k :: k in Take(free, z, l) && k in free && k != z ==> Take(free, z, l)[k] == free[k]
    ensures forall k :: z < k <= l ==>
      Take(free, z, l)[k] == free[z] + Size(k) && free[z] + 2 * Size(k) <= free[z] + Size(z)
  {
    hide IsNode, Size;
    var res := free[z];
    assert IsNode(res, z);
    forall k | z <= k <= l
      ensures IsNode(res, k) && (z < k ==> IsNode(res + Size(k), k) && 2 * Size(k) <= Size(z))
    {
      InnerNodes(res, z, k);
    }
  }

  /** The free subtrees left by Take are ordered nodes inside the one that was split. */
  lemma TakeOrdered(free: Free, z: nat, l: nat)
    requires Ordered(free) && z in free && z <= l <= 31
    requires forall k :: z < k <= l ==> k !in free
    ensures Ordered(Take(free, z, l))
  {
    TakeNodes(free, z, l);
    hide IsNode, Size;
    var free' := Take(free, z, l);
    forall k, k' | k in free' && k' in free' && k < k'
      ensures free'[k'] + Size(k') <= free'[k]
    {
      SizeMono(k, k');
    }
  }

  lemma InnerNodes(res: int, z: nat, k: nat)
    requires IsNode(res, z) && z <= k <= 32
    ensures IsNode(res, k)
    ensures z < k ==> IsNode(res + Size(k), k) && 2 * Size(k) <= Size(z)
  {
    SizeDivides(z, k);
    if z < k {
      SizeMono(z, k);
    } else {
      assert Pow2(0) == 1;
    }
    hide Pow2, Size;
    var q, m, s := res / Size(z), Pow2(k - z), Size(k);
    DivMod(res, Size(z));
    MulAssoc(q, m, s);
    DivModUnique(res, s, q * m, 0);
    MulDistribute(q * m, 1, s);
    DivModUnique(res + s, s, q * m + 1, 0);
  }

  /** The codes of the free subtrees at depths below n, counted. */
  function FreeSum(free: Free, n: nat): nat
    requires n <= 32
  {
    if n == 0 then 0 else FreeSum(free, n - 1) + if n - 1 in free then Size(n - 1) else 0
  }

  lemma {:induction false} TakeSum(free: Free, z: nat, l: nat, n: nat)
    requires z in free && z <= l <= 31 && n <= 32
    requires forall k :: z < k <= l ==> k !in free
    ensures n <= z ==> FreeSum(Take(free, z, l), n) == FreeSum(free, n)
    ensures z < n <= l + 1 ==> FreeSum(Take(free, z, l), n) == FreeSum(free, n) - Size(n - 1)
    ensures l + 1 < n ==> FreeSum(Take(free, z, l), n) == FreeSum(free, n) - Size(l)
  {
    if n > 0 {
      TakeSum(free, z, l, n - 1);
      if n > 1 {
        SizeHalves(n - 2);
      }
    }
  }

  /** When every free subtree is deeper than l, together they are smaller than a node at depth l. */
  lemma {:induction false} DeepFreeIsSmall(free: Free, l: nat, n: nat)
    requires l <= 31 && n <= 32
    requires forall k :: k <= l ==> k !in free
    ensures n <= l + 1 ==> FreeSum(free, n) == 0
    ensures l + 1 < n ==> FreeSum(free, n) <= Size(l) - Size(n - 1)
  {
    if n > 0 {
      DeepFreeIsSmall(free, l, n - 1);
      if n > 1 {
        SizeHalves(n - 2);
      }
    }
  }

  lemma {:induction false} KraftMono(lengths: seq<nat>, n: nat)
    requires ValidLengths(lengths) && n <= |lengths|
    ensures Kraft(lengths[..n]) <= Kraft(lengths)
  {
    if n < |lengths| {
      var k := |lengths| - 1;
      KraftMono(lengths[..k], n);
      assert lengths[..k][..n] == lengths[..n];
    } else {
      assert lengths[..n] == lengths;
    }
  }

  // ---------------------------------------------------------------- the lowest free leaf

  lemma NotUsedIsFree(ls: seq<nat>, code: seq<nat>, free: Free, c: int, l: nat, p: int)
    requires Partition(ls, code, free)
    requires IsNode(c, l) && FreeOf(ls, code, |ls|, c, l) && Owns(c, l, p)
    ensures FreeAt(free, p)
  {
  }

  /** Free subtrees deeper than l cannot fill a node at depth l: each one leaves a gap its own size below it. */
  lemma {:induction false} Descend(ls: seq<nat>, code: seq<nat>, free: Free, c: int, l: nat, k: nat)
    requires Partition(ls, code, free)
    requires IsNode(c, l) && FreeOf(ls, code, |ls|, c, l)
    requires k in free && l < k && c + Size(k) <= free[k] < c + Size(l)
    ensures false
    decreases 32 - k
  {
    var p := free[k] - 1;
    NotUsedIsFree(ls, code, free, c, l, p);
    var j :| j in free && j <= 32 && Owns(free[j], j, p);
    if j < k {
      assert false;
    }
    SizeMono(k, j);
    Descend(ls, code, free, c, l, j);
  }

  /** A node that meets no used node lies inside one free subtree. */
  lemma FreeNodeInside(ls: seq<nat>, code: seq<nat>, free: Free, c: int, l: nat) returns (k: nat)
    requires Partition(ls, code, free)
    requires IsNode(c, l) && FreeOf(ls, code, |ls|, c, l)
    ensures k <= l && k in free && free[k] <= c < free[k] + Size(k)
  {
    var p := c + Size(l) - 1;
    NotUsedIsFree(ls, code, free, c, l, p);
    k :| k in free && k <= 32 && Owns(free[k], k, p);
    if k <= l {
      NodesNest(free[k], k, c, l);
    } else {
      NodesNest(c, l, free[k], k);
      SizeMono(l, k);
      Descend(ls, code, free, c, l, k);
    }
  }

  // ---------------------------------------------------------------- one step of the allocation

  /** What holds after each symbol. */
  ghost predicate Allocated(ls: seq<nat>, code: seq<nat>, free: Free) {
    && Partition(ls, code, free)
    && Standard(ls, code)
    && FreeSum(free, 32) + Kraft(ls) == SPACE
  }

  lemma AllocateNone()
    ensures Allocated([], [], map[0 := 0])
  {
    Pow2Values();
    hide Pow2;
    var free: Free := map[0 := 0];
    assert forall p :: 0 <= p < SPACE ==> Owns(free[0], 0, p);
    OnlyRoot(free, 32);
  }

  lemma {:induction false} OnlyRoot(free: Free, n: nat)
    requires free == map[0 := 0] && 1 <= n <= 32
    ensures FreeSum(free, n) == Size(0)
  {
    if n > 1 {
      OnlyRoot(free, n - 1);
    } else {
      assert FreeSum(free, 0) == 0;
    }
  }

  lemma FreeOfPrefix(ls: seq<nat>, code: seq<nat>, l: nat, res: nat, n: nat, c: int, d: nat)
    requires ValidLengths(ls + [l]) && |code| == |ls| && n <= |ls| && d <= 32
    ensures ValidLengths(ls)
    ensures FreeOf(ls + [l], code + [res], n, c, d) <==> FreeOf(ls, code, n, c, d)
  {
    assert forall j :: 0 <= j < |ls| ==> (ls + [l])[j] == ls[j] && (code + [res])[j] == code[j];
    assert forall j :: 0 <= j < |ls| ==> Used(ls + [l], j) == Used(ls, j);
  }

  /** Unused symbols take nothing. */
  lemma {:induction false} AllocateNothing(lengths: seq<nat>, k: nat)
    requires ValidLengths(lengths) && k <= |lengths| && forall i :: 0 <= i < k ==> !Used(lengths, i)
    ensures Allocated(lengths[..k], seq(k, _ => 0), map[0 := 0])
  {
    if k == 0 {
      AllocateNone();
    } else {
      AllocateNothing(lengths, k - 1);
      AllocateSkip(lengths[..k - 1], seq(k - 1, _ => 0), map[0 := 0]);
      assert !Used(lengths, k - 1);
      TakeSnoc(lengths, k - 1);
      assert seq(k - 1, _ => 0) + [0] == seq(k, _ => 0);
    }
  }

  lemma AllocateFirst(lengths: seq<nat>, k: nat)
    requires ValidLengths(lengths) && Used(lengths, k) && forall i :: 0 <= i < k ==> !Used(lengths, i)
    ensures Allocated(lengths[..k + 1], seq(k, _ => 0) + [0], Take(map[0 := 0], 0, lengths[k]))
  {
    hide Allocated, Take;
    AllocateNothing(lengths, k);
    AllocateTake(lengths[..k], seq(k, _ => 0), map[0 := 0], lengths[k], 0);
    TakeSnoc(lengths, k);
  }

  lemma AllocatedIsOrdered(ls: seq<nat>, code: seq<nat>, free: Free)
    requires Allocated(ls, code, free)
    ensures Ordered(free) && forall l :: l in free ==> free[l] < SPACE
  {
  }

  lemma AllocatedIsStandard(ls: seq<nat>, code: seq<nat>, free: Free)
    requires Allocated(ls, code, free)
    ensures Standard(ls, code) && Kraft(ls) <= SPACE
  {
  }

  lemma StandardAppend(ls: seq<nat>, code: seq<nat>, l: nat, res: nat)
    requires Standard(ls, code) && ValidLength(l)
    requires l != NO_CODE ==> IsNode(res, l) && FreeOf(ls, code, |ls|, res, l)
    requires l != NO_CODE ==> forall c: nat :: c < res && IsNode(c, l) ==> !FreeOf(ls, code, |ls|, c, l)
    ensures Standard(ls + [l], code + [res])
  {
    var ls', code' := ls + [l], code + [res];
    forall i: nat | Used(ls', i)
      ensures LowestFree(ls', code', i)
    {
      FreeOfPrefix(ls, code, l, res, i, code'[i], ls'[i]);
      forall c: nat | c < code'[i] && IsNode(c, ls'[i])
        ensures !FreeOf(ls', code', i, c, ls'[i])
      {
        FreeOfPrefix(ls, code, l, res, i, c, ls'[i]);
        assert i < |ls| ==> LowestFree(ls, code, i);
      }
      assert i < |ls| ==> LowestFree(ls, code, i);
    }
  }

  lemma AllocateSkip(ls: seq<nat>, code: seq<nat>, free: Free)
    requires Allocated(ls, code, free)
    ensures Allocated(ls + [NO_CODE], code + [0], free)
  {
    var ls', code' := ls + [NO_CODE], code + [0];
    StandardAppend(ls, code, NO_CODE, 0);
    StandardIsPrefixFree(ls', code');
    assert forall i: nat :: Used(ls', i) <==> Used(ls, i);
    forall p | 0 <= p < SPACE && UsedAt(ls, code, p)
      ensures UsedAt(ls', code', p)
    {
      var i: nat :| Used(ls, i) && Owns(code[i], ls[i], p);
      assert Used(ls', i) && Owns(code'[i], ls'[i], p);
    }
    assert ls'[..|ls|] == ls;
  }

  lemma AllocateTake(ls: seq<nat>, code: seq<nat>, free: Free, l: nat, z: nat)
    requires Allocated(ls, code, free) && 1 <= l <= 31
    requires z in free && z <= l && forall k :: z < k <= l ==> k !in free
    ensures Allocated(ls + [l], code + [free[z]], Take(free, z, l))
  {
    var res, free' := free[z], Take(free, z, l);
    var ls', code' := ls + [l], code + [res];
    TakeOrdered(free, z, l);
    TakeNodes(free, z, l);
    TakeIsLowest(ls, code, free, l, z);
    StandardAppend(ls, code, l, res);
    StandardIsPrefixFree(ls', code');
    TakeKeepsApart(ls, code, free, l, z);
    forall p | 0 <= p < SPACE
      ensures UsedAt(ls', code', p) || FreeAt(free', p)
    {
      TakeCovers(ls, code, free, l, z, p);
    }
    TakeSum(free, z, l, 32);
    assert ls'[..|ls|] == ls;
    if l == 31 {
      assert 31 + 1 == 32;
    }
  }

  lemma TakeIsLowest(ls: seq<nat>, code: seq<nat>, free: Free, l: nat, z: nat)
    requires Partition(ls, code, free) && 1 <= l <= 31
    requires z in free && z <= l && forall k :: z < k <= l ==> k !in free
    ensures IsNode(free[z], l) && FreeOf(ls, code, |ls|, free[z], l)
    ensures forall c: nat :: c < free[z] && IsNode(c, l) ==> !FreeOf(ls, code, |ls|, c, l)
  {
    InnerNodes(free[z], z, l);
    if z < l {
      SizeMono(z, l);
    }
    forall c: nat | c < free[z] && IsNode(c, l) && FreeOf(ls, code, |ls|, c, l)
      ensures false
    {
      var k := FreeNodeInside(ls, code, free, c, l);
      assert false;
    }
  }

  lemma TakeKeepsApart(ls: seq<nat>, code: seq<nat>, free: Free, l: nat, z: nat)
    requires Partition(ls, code, free) && 1 <= l <= 31
    requires z in free && z <= l && forall k :: z < k <= l ==> k !in free
    ensures forall i: nat, k :: Used(ls + [l], i) && k in Take(free, z, l) && k <= 32 ==>
      Disjoint((code + [free[z]])[i], (ls + [l])[i], Take(free, z, l)[k], k)
  {
    var res, free' := free[z], Take(free, z, l);
    var ls', code' := ls + [l], code + [res];
    TakeOrdered(free, z, l);
    TakeNodes(free, z, l);
    forall i: nat, k | Used(ls', i) && k in free' && k <= 32
      ensures Disjoint(code'[i], ls'[i], free'[k], k)
    {
      if i < |ls| {
        assert Used(ls, i) && Disjoint(code[i], ls[i], free[z], z);
        if !(z < k <= l) {
          assert Disjoint(code[i], ls[i], free[k], k);
        }
      } else if z < k < l {
        SizeMono(k, l);
      } else if z < l {
        SizeMono(z, l);
      }
    }
  }

  lemma TakeCovers(ls: seq<nat>, code: seq<nat>, free: Free, l: nat, z: nat, p: int)
    requires Partition(ls, code, free) && 1 <= l <= 31 && 0 <= p < SPACE
    requires z in free && z <= l && forall k :: z < k <= l ==> k !in free
    ensures ValidLengths(ls + [l])
    ensures UsedAt(ls + [l], code + [free[z]], p) || FreeAt(Take(free, z, l), p)
  {
    var res, free' := free[z], Take(free, z, l);
    var ls', code' := ls + [l], code + [res];
    if UsedAt(ls, code, p) {
      var i: nat :| Used(ls, i) && Owns(code[i], ls[i], p);
      assert Used(ls', i) && Owns(code'[i], ls'[i], p);
    } else {
      var k :| k in free && k <= 32 && Owns(free[k], k, p);
      if k != z {
        assert k in free' && Owns(free'[k], k, p);
      } else {
        var y := SplitCovers(res, z, l, p);
        if y == z {
          assert Used(ls', |ls|) && Owns(code'[|ls|], ls'[|ls|], p);
        } else {
          assert y in free' && Owns(free'[y], y, p);
        }
      }
    }
  }

  /** Without a free subtree at depth l or above, symbol |ls| overruns the code space, whatever follows. */
  lemma AllocateFails(lengths: seq<nat>, n: nat, code: seq<nat>, free: Free)
    requires ValidLengths(lengths) && n < |lengths| && Used(lengths, n)
    requires Allocated(lengths[..n], code, free)
    requires forall k :: k <= lengths[n] ==> k !in free
    ensures Kraft(lengths) > SPACE
  {
    DeepFreeIsSmall(free, lengths[n], 32);
    assert lengths[..n + 1][..n] == lengths[..n];
    KraftMono(lengths, n + 1);
  }

  /** The number of used symbols among the first n: the place of symbol n in a sparse codebook. */
  function Rank(lengths: seq<nat>, n: nat): (r: nat)
    requires n <= |lengths|
    ensures r <= n
  {
    if n == 0 then 0 else Rank(lengths, n - 1) + if Used(lengths, n - 1) then 1 else 0
  }

  lemma {:induction false} RankMono(lengths: seq<nat>, m: nat, n: nat)
    requires m < n <= |lengths|
    ensures Rank(lengths, m) <= Rank(lengths, n)
    ensures Used(lengths, m) ==> Rank(lengths, m) < Rank(lengths, n)
  {
    if m < n - 1 {
      RankMono(lengths, m, n - 1);
    }
  }

  /** The lengths of the codeword, length and symbol arrays of a codebook under construction. */
  predicate Room(sparse: bool, lengths: seq<nat>, codewords: nat, codewordLengths: nat, values: nat) {
    if sparse then codewords == codewordLengths == values == Rank(lengths, |lengths|)
    else codewords == |lengths|
  }

  /** The codeword of symbol i is stored, bit-reversed, with its length and symbol if the codebook is sparse. */
  ghost predicate StoredAt(sparse: bool, lengths: seq<nat>, i: nat, c: nat,
                           codewords: seq<u32>, codewordLengths: seq<nat>, values: seq<nat>)
    requires Room(sparse, lengths, |codewords|, |codewordLengths|, |values|) && Used(lengths, i)
  {
    var r := Rank(lengths, i);
    RankMono(lengths, i, |lengths|);
    && c < SPACE
    && (!sparse ==> codewords[i] == Reverse32(c))
    && (sparse ==> codewords[r] == Reverse32(c) && codewordLengths[r] == lengths[i] && values[r] == i)
  }

  ghost predicate Stored(sparse: bool, lengths: seq<nat>, code: seq<nat>,
                         codewords: seq<u32>, codewordLengths: seq<nat>, values: seq<nat>)
    requires Room(sparse, lengths, |codewords|, |codewordLengths|, |values|) && |code| <= |lengths|
  {
    forall i: nat :: i < |code| && Used(lengths, i) ==>
      StoredAt(sparse, lengths, i, code[i], codewords, codewordLengths, values)
  }

  lemma StoredNone(sparse: bool, lengths: seq<nat>, code: seq<nat>,
                   codewords: seq<u32>, codewordLengths: seq<nat>, values: seq<nat>)
    requires Room(sparse, lengths, |codewords|, |codewordLengths|, |values|) && |code| <= |lengths|
    requires forall i :: 0 <= i < |code| ==> !Used(lengths, i)
    ensures Stored(sparse, lengths, code, codewords, codewordLengths, values)
  {
  }

  lemma StoredSkip(sparse: bool, lengths: seq<nat>, code: seq<nat>,
                   codewords: seq<u32>, codewordLengths: seq<nat>, values: seq<nat>)
    requires Room(sparse, lengths, |codewords|, |codewordLengths|, |values|) && |code| < |lengths|
    requires Stored(sparse, lengths, code, codewords, codewordLengths, values) && !Used(lengths, |code|)
    ensures Stored(sparse, lengths, code + [0], codewords, codewordLengths, values)
  {
    hide StoredAt, Rank;
  }

  /** Storing one more codeword leaves the earlier ones alone. */
  lemma AddKeepsStored(sparse: bool, lengths: seq<nat>, code: seq<nat>,
                       codewords: seq<u32>, codewordLengths: seq<nat>, values: seq<nat>)
    requires Room(sparse, lengths, |codewords|, |codewordLengths|, |values|) && 0 < |code| <= |lengths|
    requires Stored(sparse, lengths, code[..|code| - 1], codewords, codewordLengths, values)
    requires Used(lengths, |code| - 1) && code[|code| - 1] < SPACE
    ensures var n := |code| - 1; var w := Reverse32(code[n]); var r := Rank(lengths, n);
      if sparse
      then
        && r < |values|
        && Stored(sparse, lengths, code, codewords[r := w], codewordLengths[r := lengths[n]], values[r := n])
      else Stored(sparse, lengths, code, codewords[n := w], codewordLengths, values)
  {
    hide Rank, Reverse32;
    var n := |code| - 1;
    RankMono(lengths, n, |lengths|);
    forall i: nat | i < n && Used(lengths, i)
      ensures StoredAt(sparse, lengths, i, code[i], codewords, codewordLengths, values)
      ensures Rank(lengths, i) < Rank(lengths, n)
    {
      assert StoredAt(sparse, lengths, i, code[..n][i], codewords, codewordLengths, values);
      RankMono(lengths, i, n);
    }
  }

  class Codebook {
    const sparse: bool
    const entries: nat
    var sortedEntries: nat
    var codewords: array?<u32>
    var codewordLengths: array<nat>
    var fastHuffman: array<int>
    var sortedCodewords: array?<u32>
    var sortedValues: array?<nat>

    /** A codebook with room for its codewords, and without lookup tables. */
    constructor (lengths: seq<nat>, sparse: bool, sortedEntries: nat)
      ensures fresh(codewords) && fresh(codewordLengths) && fresh(fastHuffman)
      ensures this.sparse == sparse && entries == |lengths| && this.sortedEntries == sortedEntries
      ensures codewords != null && codewords.Length == if sparse then sortedEntries else |lengths|
      ensures if sparse then codewordLengths.Length == sortedEntries else codewordLengths[..] == lengths
      ensures fastHuffman.Length == 1024 && fastHuffman != codewordLengths as object
      ensures sortedCodewords == null && sortedValues == null
    {
      this.sparse, this.entries, this.sortedEntries := sparse, |lengths|, sortedEntries;
      sortedCodewords, sortedValues := null, null;
      codewords := new u32[if sparse then sortedEntries else |lengths|];
      fastHuffman := new int[1024];
      if sparse {
        codewordLengths := new nat[sortedEntries];
      } else {
        codewordLengths := new nat[|lengths|](i requires 0 <= i < |lengths| => lengths[i]);
      }
    }

    /** A codeword goes to its symbol's slot, or to the next slot of a sparse codebook. */
    method AddEntry(huffCode: u32, symbol: nat, count: nat, len: nat, values: array<nat>)
      requires codewords != null
      requires !sparse ==> symbol < codewords.Length
      requires sparse ==> count < codewords.Length == codewordLengths.Length == values.Length
      requires values != codewordLengths
      modifies codewords, codewordLengths, values
      ensures !sparse ==> codewords[..] == old(codewords[..])[symbol := huffCode]
      ensures !sparse ==> codewordLengths[..] == old(codewordLengths[..]) && values[..] == old(values[..])
      ensures sparse ==> codewords[..] == old(codewords[..])[count := huffCode]
      ensures sparse ==> codewordLengths[..] == old(codewordLengths[..])[count := len]
      ensures sparse ==> values[..] == old(values[..])[count := symbol]
    {
      if !sparse {
        codewords[symbol] := huffCode;
      } else {
        codewords[count] := huffCode;
        codewordLengths[count] := len;
        values[count] := symbol;
      }
    }

    /** The arrays ComputeCodewords fills have room for its results. */
    ghost predicate RoomFor(lengths: seq<nat>, values: array<nat>)
      reads this
    {
      && codewords != null && values != codewordLengths
      && |lengths| == entries
      && Room(sparse, lengths, codewords.Length, codewordLengths.Length, values.Length)
    }

    ghost predicate Filled(lengths: seq<nat>, code: seq<nat>, n: nat, values: array<nat>)
      requires RoomFor(lengths, values) && n <= |lengths| && |code| == n
      reads this, codewords, codewordLengths, values
    {
      Stored(sparse, lengths, code, codewords[..], codewordLengths[..], values[..])
    }

    /** AddEntry for the codeword of symbol n, the next in order. */
    method AddCodeword(lengths: seq<nat>, ghost code: seq<nat>, n: nat, count: nat, huffCode: u32, values: array<nat>)
      requires RoomFor(lengths, values) && n < |lengths| && |code| == n + 1
      requires Used(lengths, n) && code[n] < SPACE && huffCode == Reverse32(code[n]) && count == Rank(lengths, n)
      requires Filled(lengths, code[..n], n, values)
      modifies codewords, codewordLengths, values
      ensures Filled(lengths, code, n + 1, values)
      ensures !sparse ==> codewordLengths[..] == old(codewordLengths[..])
    {
      RankMono(lengths, n, |lengths|);
      AddKeepsStored(sparse, lengths, code, codewords[..], codewordLengths[..], values[..]);
      AddEntry(huffCode, n, count, lengths[n], values);
    }

    /** The loop body for a used symbol: takes the deepest free subtree that is not below its length. */
    method AllocateNext(available: array<u32>, len: seq<nat>, i: nat, m: nat, values: array<nat>,
                        ghost code: seq<nat>, ghost free: Free)
      returns (ok: bool, ghost code': seq<nat>, ghost free': Free)
      requires ValidLengths(len) && RoomFor(len, values) && i < |len| && Used(len, i)
      requires available !in {codewords as object, codewordLengths, values}
      requires |code| == i && m == Rank(len, i)
      requires Allocated(len[..i], code, free) && Represents(available[..], free) && Filled(len, code, i, values)
      modifies available, codewords, codewordLengths, values
      ensures !ok ==> Kraft(len) > SPACE
      ensures ok ==> |code'| == i + 1
      ensures ok ==> Allocated(len[..i + 1], code', free') && Represents(available[..], free')
      ensures ok ==> Filled(len, code', i + 1, values)
      ensures !sparse ==> codewordLengths[..] == old(codewordLengths[..])
    {
      hide Standard, Stored, Kraft, Pow2, FreeSum;
      AllocatedIsOrdered(len[..i], code, free);
      hide Allocated, Ordered, Partition;
      code', free' := code, free;
      var z := FindLeaf(available, len[i], free);
      if z == 0 {
        AllocateFails(len, i, code, free);
        return false, code', free';
      }
      var res := available[z];
      ghost var before := available[..];
      available[z] := 0;
      code', free' := code + [res], Take(free, z, len[i]);
      AllocateTake(len[..i], code, free, len[i], z);
      TakeSnoc(len, i);
      assert code'[..i] == code;
      AddCodeword(len, code', i, m, BitReverse(res), values);
      Propagate(available, res, z, len[i], before, free);
      return true, code', free';
    }

    /** The loop over the symbols after the first used one. */
    method AllocateRest(available: array<u32>, len: seq<nat>, first: nat, values: array<nat>,
                        ghost code0: seq<nat>, ghost free0: Free)
      returns (ok: bool, ghost code: seq<nat>)
      requires ValidLengths(len) && RoomFor(len, values) && first <= |len|
      requires available !in {codewords as object, codewordLengths, values}
      requires |code0| == first && Rank(len, first) == 1
      requires Allocated(len[..first], code0, free0) && Represents(available[..], free0)
      requires Filled(len, code0, first, values)
      modifies available, codewords, codewordLengths, values
      ensures ok <==> Kraft(len) <= SPACE
      ensures ok ==> Standard(len, code) && |code| == |len| && Filled(len, code, |len|, values)
      ensures !sparse ==> codewordLengths[..] == old(codewordLengths[..])
    {
      hide Allocated, Standard, Partition, Stored, Kraft, Pow2, FreeSum, Take, Represents, Size, Room, Reverse32;
      var m := 1;
      code := code0;
      ghost var free := free0;
      for i := first to |len|
        invariant |code| == i && m == Rank(len, i)
        invariant Allocated(len[..i], code, free)
        invariant Represents(available[..], free)
        invariant Filled(len, code, i, values)
        invariant !sparse ==> codewordLengths[..] == old(codewordLengths[..])
      {
        if len[i] == NO_CODE {
          AllocateSkip(len[..i], code, free);
          TakeSnoc(len, i);
          StoredSkip(sparse, len, code, codewords[..], codewordLengths[..], values[..]);
          code := code + [0];
        } else {
          ok, code, free := AllocateNext(available, len, i, m, values, code, free);
          if !ok {
            return;
          }
          m := m + 1;
        }
      }
      assert len[..|len|] == len;
      AllocatedIsStandard(len, code, free);
      ok := true;
    }

    /**
     * Allocates a codeword to every used symbol, in symbol order, each from the deepest free subtree
     * that is not below its length; fails when there is none.
     */
    method ComputeCodewords(len: seq<nat>, values: array<nat>) returns (ok: bool, ghost code: seq<nat>)
      requires ValidLengths(len) && RoomFor(len, values)
      modifies codewords, codewordLengths, values
      ensures ok <==> Kraft(len) <= SPACE
      ensures ok ==> Standard(len, code) && |code| == |len| && Filled(len, code, |len|, values)
      ensures !sparse ==> codewordLengths[..] == old(codewordLengths[..])
    {
      hide Allocated, Standard, Partition, Stored, Kraft, Pow2, FreeSum, Take, Represents, Size, Room, Reverse32;
      var n := |len|;
      var available := new u32[32](_ => 0);
      var k := 0;
      while k < n && len[k] == NO_CODE
        invariant k <= n && Rank(len, k) == 0
        invariant forall i :: 0 <= i < k ==> !Used(len, i)
      {
        k := k + 1;
      }
      ghost var free: Free := map[0 := 0];
      code := seq(k, _ => 0);
      AllocateNothing(len, k);
      StoredNone(sparse, len, code, codewords[..], codewordLengths[..], values[..]);
      if k == n {
        assert len[..n] == len;
        AllocatedIsStandard(len, code, free);
        return true, code;
      }
      Reverse32Zero();
      AllocateFirst(len, k);
      assert (code + [0])[..k] == code;
      code := code + [0];
      AddCodeword(len, code, k, 0, 0, values);
      free := Take(free, 0, len[k]);
      FirstLeaves(available, len[k]);
      ok, code := AllocateRest(available, len, k + 1, values, code, free);
    }
  }

  lemma TakeSnoc(s: seq<nat>, i: nat)
    requires i < |s|
    ensures s[..i] + [s[i]] == s[..i + 1]
  {
  }

  /** All the leaves beside the code 0 of length l. */
  method FirstLeaves(available: array<u32>, l: nat)
    requires available.Length == 32 && 1 <= l <= 31
    requires forall j :: 0 <= j < 32 ==> available[j] == 0
    modifies available
    ensures Represents(available[..], Take(map[0 := 0], 0, l))
  {
    for i := 1 to l + 1
      invariant forall j: nat :: 1 <= j <= 31 ==> available[j] == if j < i then Size(j) else 0
    {
      SizeMono(0, i);
      Pow2Values();
      available[i] := Pow2(32 - i);
    }
  }

  /** Searches upwards from depth l for a free subtree; 0 means there is none. */
  method FindLeaf(available: array<u32>, l: nat, ghost free: Free) returns (z: nat)
    requires Represents(available[..], free) && l <= 31
    ensures z <= l && (forall y :: z < y <= l ==> y !in free) && 0 !in free
    ensures z > 0 ==> z in free && available[z] == free[z]
  {
    z := l;
    while z > 0 && available[z] == 0
      invariant z <= l
      invariant forall y :: z < y <= l ==> y !in free
    {
      z := z - 1;
    }
  }

  lemma LeafFits(free: Free, z: nat, y: nat)
    requires Ordered(free) && z in free && z < y <= 32
    ensures free[z] + Pow2(32 - y) < SPACE
  {
    assert IsNode(free[z], z);
    SizeMono(z, y);
  }

  /** The subtree at depth z has been emptied; its remains become available at the depths below it. */
  method Propagate(available: array<u32>, res: u32, z: nat, l: nat, ghost before: seq<u32>, ghost free: Free)
    requires Represents(before, free) && Ordered(free)
    requires z in free && free[z] == res && z <= l <= 31
    requires forall y :: z < y <= l ==> y !in free
    requires available[..] == before[z := 0]
    modifies available
    ensures Represents(available[..], Take(free, z, l))
  {
    hide IsNode, Pow2, Ordered, Take;
    if z != l {
      var y := l;
      while y > z
        invariant z <= y <= l
        invariant forall j: nat :: j <= 31 ==> available[j] == if y < j <= l then res + Size(j) else before[z := 0][j]
      {
        assert available[y] == 0;
        assert res + Pow2(32 - y) < SPACE by {
          LeafFits(free, z, y);
        }
        available[y] := res + Pow2(32 - y);
        y := y - 1;
      }
    }
    PropagatedRepresents(available[..], z, l, before, free);
  }

  lemma PropagatedRepresents(after: seq<u32>, z: nat, l: nat, before: seq<u32>, free: Free)
    requires Represents(before, free) && Ordered(free) && |after| == 32
    requires z in free && z <= l <= 31
    requires forall y :: z < y <= l ==> y !in free
    requires forall j: nat :: j <= 31 ==> after[j] == if z < j <= l then free[z] + Size(j) else before[z := 0][j]
    ensures Represents(after, Take(free, z, l))
  {
    TakeOrdered(free, z, l);
    TakeNodes(free, z, l);
    hide IsNode, Pow2, Ordered, Size;
    var free' := Take(free, z, l);
    forall j: nat | 1 <= j <= 31
      ensures after[j] == if j in free' then free'[j] else 0
    {
      assert after[j] == if z < j <= l then free[z] + Size(j) else before[z := 0][j];
    }
    forall j | j in free'
      ensures 1 <= j <= 31 && free'[j] > 0
    {
    }
  }

  /** The array of the source: available[l] is the code of the free subtree at depth l, 0 if there is none. */
  ghost predicate Represents(available: seq<u32>, free: Free) {
    && |available| == 32
    && (forall l :: l in free ==> 1 <= l <= 31 && free[l] > 0)
    && (forall l: nat :: 1 <= l <= 31 ==> available[l] == if l in free then free[l] else 0)
  }
}
