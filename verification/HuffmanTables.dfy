/** The lookup tables of a Vorbis codebook: the sorted codewords and the fast table. */
module HuffmanTables {
  import opened Bits
  import opened Huffman

  const FAST_BITS: nat := 10
  const FAST_SIZE: nat := 1024
  /** The fast table holds 16-bit signed entries. */
  const FAST_LIMIT: nat := 32767

  // ---------------------------------------------------------------- codes and accumulators

  lemma NodeQuotient(c: int, l: nat, p: int)
    requires IsNode(c, l) && 0 <= p
    ensures Owns(c, l, p) <==> p / Size(l) == c / Size(l)
  {
    hide Size;
    var s := Size(l);
    DivMod(c, s);
    DivMod(p, s);
    var q := c / s;
    if Owns(c, l, p) {
      DivModUnique(p, s, q, p - c);
    }
  }

  /** A left-justified code of l bits, reversed, is a number of l bits. */
  lemma ReversedCodeFits(c: u32, l: nat)
    requires IsNode(c, l)
    ensures Reverse32(c) % Pow2(l) == Reverse32(c) < Pow2(l)
  {
    hide ToBits, Reverse32, Pow2;
    var w := Reverse32(c);
    DivModUnique(0, Pow2(32 - l), 0, 0);
    MaskEq(c, 0, 32 - l);
    hide IsNode, Size;
    Reverse32Bits(c);
    ZeroBits(32);
    ZeroTail(ToBits(c, 32), ToBits(w, 32), ToBits(0, 32), l);
    ShiftEq(w, 0, l);
    DivMod(w, Pow2(l));
    DivModUnique(0, Pow2(l), 0, 0);
    DivModUnique(w, Pow2(l), 0, w % Pow2(l));
  }

  lemma ZeroTail(c: seq<bool>, w: seq<bool>, zero: seq<bool>, l: nat)
    requires |c| == |w| == |zero| == 32 && l <= 32
    requires w == Reversed(c) && forall i :: 0 <= i < 32 ==> !zero[i]
    requires c[..32 - l] == zero[..32 - l]
    ensures w[l..] == zero[l..]
  {
    forall i | l <= i < 32
      ensures !w[i]
    {
      assert c[..32 - l][31 - i] == zero[..32 - l][31 - i];
    }
  }

  /** An accumulator begins with a codeword exactly when the codeword's node owns its reversal. */
  lemma OwnsIffBegins(c: u32, l: nat, acc: u32)
    requires IsNode(c, l)
    ensures Owns(c, l, Reverse32(acc)) <==> acc % Pow2(l) == Reverse32(c)
  {
    hide ToBits, Reverse32, Pow2;
    NodeQuotient(c, l, Reverse32(acc));
    ReversePrefix(acc, Reverse32(c), l);
    Reverse32Involutive(c);
    ReversedCodeFits(c, l);
  }

  lemma AreApart(lengths: seq<nat>, code: seq<nat>, i: nat, j: nat)
    requires PrefixFree(lengths, code) && Used(lengths, i) && Used(lengths, j) && i != j
    ensures Disjoint(code[i], lengths[i], code[j], lengths[j])
    ensures code[i] != code[j]
  {
  }

  /** Two codewords never begin the same accumulator. */
  lemma OwnerUnique(lengths: seq<nat>, code: seq<nat>, i: nat, j: nat, p: int)
    requires PrefixFree(lengths, code) && Used(lengths, i) && Used(lengths, j)
    requires Owns(code[i], lengths[i], p) && Owns(code[j], lengths[j], p)
    ensures i == j
  {
    hide PrefixFree, Size;
    if i != j {
      AreApart(lengths, code, i, j);
    }
  }

  /** No codeword, read least significant bit first, is a prefix of another. */
  lemma NoPrefix(lengths: seq<nat>, code: seq<nat>, i: nat, j: nat)
    requires PrefixFree(lengths, code) && Used(lengths, i) && Used(lengths, j) && i != j
    requires lengths[i] <= lengths[j]
    ensures code[i] < SPACE && code[j] < SPACE
    ensures Reverse32(code[j]) % Pow2(lengths[i]) != Reverse32(code[i])
  {
    hide Reverse32;
    assert IsNode(code[i], lengths[i]) && IsNode(code[j], lengths[j]);
    hide IsNode, Pow2, Size;
    OwnsIffBegins(code[i], lengths[i], Reverse32(code[j]));
    Reverse32Involutive(code[j]);
    if Owns(code[i], lengths[i], code[j]) {
      OwnerUnique(lengths, code, i, j, code[j]);
    }
  }

  // ---------------------------------------------------------------- the sorted table

  /** Which symbols are binary-searched: all of a sparse codebook, else those the fast table does not hold. */
  predicate Included(sparse: bool, lengths: seq<nat>, i: int) {
    Used(lengths, i) && (sparse || lengths[i] > FAST_BITS)
  }

  /** The included symbols among the first m, in order. */
  function Listed(sparse: bool, lengths: seq<nat>, m: nat): (r: seq<nat>)
    requires m <= |lengths|
    ensures forall k :: 0 <= k < |r| ==> r[k] < m && Included(sparse, lengths, r[k])
  {
    if m == 0 then []
    else if Included(sparse, lengths, m - 1) then Listed(sparse, lengths, m - 1) + [m - 1]
    else Listed(sparse, lengths, m - 1)
  }

  lemma {:induction false} ListedOrdered(sparse: bool, lengths: seq<nat>, m: nat)
    requires m <= |lengths|
    ensures forall j, k :: 0 <= j < k < |Listed(sparse, lengths, m)| ==>
      Listed(sparse, lengths, m)[j] < Listed(sparse, lengths, m)[k]
  {
    if m > 0 {
      ListedOrdered(sparse, lengths, m - 1);
    }
  }

  /** An included symbol is listed right after the included symbols before it. */
  lemma ListedAt(sparse: bool, lengths: seq<nat>, i: nat, n: nat)
    requires i < n <= |lengths| && Included(sparse, lengths, i)
    ensures var k := |Listed(sparse, lengths, i)|;
      k < |Listed(sparse, lengths, n)| && Listed(sparse, lengths, n)[k] == i
  {
  }

  lemma {:induction false} ListedMono(sparse: bool, lengths: seq<nat>, m: nat, n: nat)
    requires m <= n <= |lengths|
    ensures Listed(sparse, lengths, m) <= Listed(sparse, lengths, n)
    decreases n
  {
    hide Included;
    if m < n {
      ListedMono(sparse, lengths, m, n - 1);
    }
  }

  lemma {:induction false} ListedRank(lengths: seq<nat>, m: nat)
    requires m <= |lengths|
    ensures |Listed(true, lengths, m)| == Rank(lengths, m)
  {
    if m > 0 {
      ListedRank(lengths, m - 1);
    }
  }

  /** Symbol owner[x] owns sorted codeword x, for every included symbol and place. */
  ghost predicate SortedOwners(sparse: bool, lengths: seq<nat>, code: seq<nat>, sorted: seq<nat>, owner: seq<nat>) {
    && |code| == |lengths| && |owner| == |sorted|
    && (forall x, y :: 0 <= x < y < |sorted| ==> sorted[x] < sorted[y])
    && (forall x :: 0 <= x < |sorted| ==> Included(sparse, lengths, owner[x]) && sorted[x] == code[owner[x]])
    && (forall i :: Included(sparse, lengths, i) ==> i in owner)
  }

  /** Distinct values stay distinct when sorted. */
  lemma {:induction false} DistinctCount(s: seq<nat>, v: nat)
    requires forall j, k :: 0 <= j < k < |s| ==> s[j] != s[k]
    ensures multiset(s)[v] <= 1
  {
    if s != [] {
      var last := |s| - 1;
      assert s == s[..last] + [s[last]];
      DistinctCount(s[..last], v);
    }
  }

  lemma RepeatedCount(s: seq<nat>, x: nat, y: nat)
    requires x < y < |s| && s[x] == s[y]
    ensures multiset(s)[s[x]] >= 2
  {
    assert s == s[..y] + s[y..];
    assert s[..y][x] in multiset(s[..y]);
    assert s[y..][0] in multiset(s[y..]);
  }

  predicate Nondecreasing(s: seq<nat>) {
    forall x, y :: 0 <= x < y < |s| ==> s[x] <= s[y]
  }

  /** Sorting the codes of the listed symbols gives strictly increasing codes with unique owners. */
  lemma SortedHasOwners(sparse: bool, lengths: seq<nat>, code: seq<nat>, sorted: seq<nat>) returns (owner: seq<nat>)
    requires PrefixFree(lengths, code)
    requires Nondecreasing(sorted)
    requires multiset(sorted) == multiset(CodesOf(code, Listed(sparse, lengths, |lengths|)))
    ensures SortedOwners(sparse, lengths, code, sorted, owner)
  {
    var listed := Listed(sparse, lengths, |lengths|);
    var codes := CodesOf(code, listed);
    ListedDistinct(sparse, lengths, code);
    StrictlySorted(sorted, codes);
    SameElements(sorted, codes);
    hide PrefixFree, Included, IndexOf, Listed, CodesOf, Nondecreasing;
    owner := seq(|sorted|, x requires 0 <= x < |sorted| => listed[IndexOf(codes, sorted[x])]);
    forall x | 0 <= x < |sorted|
      ensures Included(sparse, lengths, owner[x]) && sorted[x] == code[owner[x]]
    {
      ListedCode(code, listed, sorted[x]);
    }
    forall i | Included(sparse, lengths, i)
      ensures i in owner
    {
      ListedAt(sparse, lengths, i, |lengths|);
      OwnersCover(sorted, codes, listed, owner, |Listed(sparse, lengths, i)|);
    }
  }

  lemma ListedCode(code: seq<nat>, listed: seq<nat>, c: nat)
    requires (forall k :: 0 <= k < |listed| ==> listed[k] < |code|) && c in CodesOf(code, listed)
    ensures IndexOf(CodesOf(code, listed), c) < |listed|
    ensures code[listed[IndexOf(CodesOf(code, listed), c)]] == c
  {
  }

  lemma OwnersCover(sorted: seq<nat>, codes: seq<nat>, listed: seq<nat>, owner: seq<nat>, k: nat)
    requires |owner| == |sorted| && |listed| == |codes| && k < |codes| && codes[k] in sorted
    requires forall i, j :: 0 <= i < j < |codes| ==> codes[i] != codes[j]
    requires forall x :: 0 <= x < |sorted| ==> sorted[x] in codes && owner[x] == listed[IndexOf(codes, sorted[x])]
    ensures listed[k] in owner
  {
  }

  lemma ListedDistinct(sparse: bool, lengths: seq<nat>, code: seq<nat>)
    requires PrefixFree(lengths, code)
    ensures var codes := CodesOf(code, Listed(sparse, lengths, |lengths|));
      forall j, k :: 0 <= j < k < |codes| ==> codes[j] != codes[k]
  {
    var listed := Listed(sparse, lengths, |lengths|);
    ListedOrdered(sparse, lengths, |lengths|);
    forall j, k | 0 <= j < k < |listed|
      ensures code[listed[j]] != code[listed[k]]
    {
      AreApart(lengths, code, listed[j], listed[k]);
    }
  }

  lemma StrictlySorted(sorted: seq<nat>, codes: seq<nat>)
    requires Nondecreasing(sorted) && multiset(sorted) == multiset(codes)
    requires forall j, k :: 0 <= j < k < |codes| ==> codes[j] != codes[k]
    ensures forall x, y :: 0 <= x < y < |sorted| ==> sorted[x] < sorted[y]
  {
    forall x, y | 0 <= x < y < |sorted|
      ensures sorted[x] < sorted[y]
    {
      DistinctCount(codes, sorted[x]);
      if sorted[x] == sorted[y] {
        RepeatedCount(sorted, x, y);
      }
    }
  }

  lemma SameElements(s: seq<nat>, t: seq<nat>)
    requires multiset(s) == multiset(t)
    ensures |s| == |t|
    ensures forall x :: 0 <= x < |s| ==> s[x] in t
    ensures forall x :: 0 <= x < |t| ==> t[x] in s
  {
    assert |s| == |multiset(s)| == |multiset(t)| == |t|;
    assert forall x :: 0 <= x < |s| ==> s[x] in multiset(s);
    assert forall x :: 0 <= x < |t| ==> t[x] in multiset(t);
  }

  function CodesOf(code: seq<nat>, symbols: seq<nat>): (r: seq<nat>)
    requires forall k :: 0 <= k < |symbols| ==> symbols[k] < |code|
    ensures |r| == |symbols|
    ensures forall k :: 0 <= k < |symbols| ==> r[k] == code[symbols[k]]
  {
    seq(|symbols|, k requires 0 <= k < |symbols| => code[symbols[k]])
  }

  function IndexOf(s: seq<nat>, v: nat): (k: nat)
    requires v in s
    ensures k < |s| && s[k] == v
  {
    if s[0] == v then 0 else 1 + IndexOf(s[1..], v)
  }

  function InsertSorted(s: seq<nat>, v: nat): (r: seq<nat>)
    ensures multiset(r) == multiset(s) + multiset{v}
  {
    if s == [] || v <= s[0] then [v] + s
    else
      assert s == [s[0]] + s[1..];
      [s[0]] + InsertSorted(s[1..], v)
  }

  lemma {:induction false} InsertKeepsOrder(s: seq<nat>, v: nat)
    requires Nondecreasing(s)
    ensures Nondecreasing(InsertSorted(s, v))
  {
    if s != [] && v > s[0] {
      var t := InsertSorted(s[1..], v);
      InsertKeepsOrder(s[1..], v);
      assert multiset(t) == multiset(s[1..] + [v]);
      SameElements(t, s[1..] + [v]);
      forall x | 0 <= x < |t|
        ensures s[0] <= t[x]
      {
        assert t[x] in s[1..] + [v];
      }
      PrependInOrder(s[0], t);
    }
  }

  lemma PrependInOrder(x: nat, t: seq<nat>)
    requires Nondecreasing(t) && forall y :: 0 <= y < |t| ==> x <= t[y]
    ensures Nondecreasing([x] + t)
  {
  }

  function SortedSeq(s: seq<nat>): (r: seq<nat>)
    ensures multiset(r) == multiset(s)
  {
    if s == [] then []
    else
      assert s == [s[0]] + s[1..];
      InsertSorted(SortedSeq(s[1..]), s[0])
  }

  lemma {:induction false} SortedSeqInOrder(s: seq<nat>)
    ensures Nondecreasing(SortedSeq(s))
  {
    if s != [] {
      SortedSeqInOrder(s[1..]);
      InsertKeepsOrder(SortedSeq(s[1..]), s[0]);
    }
  }

  /** The C library's sort, on the first n elements. */
  method Qsort(a: array<u32>, n: nat)
    requires n <= a.Length
    modifies a
    ensures Nondecreasing(a[..n]) && multiset(a[..n]) == multiset(old(a[..n]))
    ensures a[n..] == old(a[n..])
  {
    var s := SortedSeq(a[..n]);
    SortedSeqInOrder(a[..n]);
    SameElements(s, a[..n]);
    hide SortedSeq;
    assert forall x :: 0 <= x < n ==> s[x] < SPACE;
    for i := 0 to n
      invariant forall x :: 0 <= x < i ==> a[x] == s[x]
      invariant a[n..] == old(a[n..])
    {
      a[i] := s[i];
    }
    assert a[..n] == s;
  }

  /** Binary search: the last place whose codeword is at most code, or place 0. */
  method FindSorted(sorted: array<u32>, count: nat, code: u32) returns (x: nat)
    requires 0 < count <= sorted.Length && Nondecreasing(sorted[..count])
    ensures x < count
    ensures x > 0 ==> sorted[x] <= code
    ensures forall y :: x < y < count ==> code < sorted[y]
  {
    x := 0;
    var n := count;
    while n > 1
      invariant n > 0 && x + n <= count
      invariant x > 0 ==> sorted[x] <= code
      invariant forall y :: x + n <= y < count ==> code < sorted[y]
    {
      var m := x + n / 2;
      if sorted[m] <= code {
        x := m;
        n := n - n / 2;
      } else {
        assert forall y :: m <= y < count ==> sorted[..count][m] <= sorted[..count][y];
        n := n / 2;
      }
    }
  }

  /** In a sorted table the search finds the owner of a code, if it has one. */
  lemma SearchFindsOwner(lengths: seq<nat>, code: seq<nat>, sparse: bool, sorted: seq<nat>, owner: seq<nat>,
                         x: nat, p: int, s: nat)
    requires PrefixFree(lengths, code) && SortedOwners(sparse, lengths, code, sorted, owner)
    requires x < |sorted|
    requires x > 0 ==> sorted[x] <= p
    requires forall y :: x < y < |sorted| ==> p < sorted[y]
    requires Included(sparse, lengths, s) && Owns(code[s], lengths[s], p)
    ensures owner[x] == s
  {
  }
}
