/** Filling a codebook's lookup tables once its codewords are known. */
module HuffmanSetup {
  import opened Bits
  import opened Huffman
  import opened HuffmanTables

  /** The lookup arrays are allocated, large enough, and none is another's storage. */
  ghost predicate Allotted(c: Codebook, lengths: seq<nat>, values: array<nat>)
    reads c
  {
    && c.RoomFor(lengths, values)
    && c.sortedCodewords != null && c.sortedValues != null
    && c.sortedEntries == |Listed(c.sparse, lengths, |lengths|)| > 0
    && c.sortedCodewords.Length == c.sortedEntries + 1
    && c.sortedValues.Length == c.sortedEntries
    && c.sortedCodewords != c.codewords
    && c.sortedValues != values && c.sortedValues != c.codewordLengths
  }

  /** In a sparse codebook, slot r holds the r-th used symbol. */
  lemma SlotOfRank(lengths: seq<nat>, code: seq<nat>, codewords: seq<u32>, codewordLengths: seq<nat>,
                   values: seq<nat>, r: nat)
    requires Room(true, lengths, |codewords|, |codewordLengths|, |values|) && |code| == |lengths|
    requires Stored(true, lengths, code, codewords, codewordLengths, values)
    requires r < |Listed(true, lengths, |lengths|)|
    ensures var i := Listed(true, lengths, |lengths|)[r];
      r < |values| && Rank(lengths, i) == r && code[i] < SPACE && values[r] == i && codewords[r] == Reverse32(code[i])
  {
    var listed := Listed(true, lengths, |lengths|);
    var i := listed[r];
    ListedRank(lengths, |lengths|);
    ListedRank(lengths, i);
    ListedAt(true, lengths, i, |lengths|);
    ListedOrdered(true, lengths, |lengths|);
    assert listed[Rank(lengths, i)] == i;
    assert StoredAt(true, lengths, i, code[i], codewords, codewordLengths, values);
  }

  /** In a non-sparse codebook, slot i holds symbol i. */
  lemma SlotOfSymbol(lengths: seq<nat>, code: seq<nat>, codewords: seq<u32>, codewordLengths: seq<nat>,
                     values: seq<nat>, i: nat)
    requires Room(false, lengths, |codewords|, |codewordLengths|, |values|) && |code| == |lengths|
    requires Stored(false, lengths, code, codewords, codewordLengths, values) && Used(lengths, i)
    ensures code[i] < SPACE && codewords[i] == Reverse32(code[i]) && Reverse32(codewords[i]) == code[i]
  {
    assert StoredAt(false, lengths, i, code[i], codewords, codewordLengths, values);
    Reverse32Involutive(code[i]);
  }

  lemma CodesSnoc(code: seq<nat>, symbols: seq<nat>, i: nat)
    requires forall k :: 0 <= k < |symbols| ==> symbols[k] < |code|
    requires i < |code|
    ensures CodesOf(code, symbols + [i]) == CodesOf(code, symbols) + [code[i]]
  {
  }

  /** The codes to be sorted, back in their most-significant-first form. */
  method ListCodewords(c: Codebook, lengths: seq<nat>, values: array<nat>, ghost code: seq<nat>)
    requires Allotted(c, lengths, values) && |code| == |lengths| && PrefixFree(lengths, code)
    requires c.Filled(lengths, code, |lengths|, values)
    modifies c.sortedCodewords
    ensures c.sortedCodewords[..c.sortedEntries] == CodesOf(code, Listed(c.sparse, lengths, |lengths|))
  {
    hide PrefixFree, Stored;
    if !c.sparse {
      ListLongCodewords(c, lengths, values, code);
    } else {
      ghost var all := Listed(true, lengths, |lengths|);
      ListedRank(lengths, |lengths|);
      for i := 0 to c.sortedEntries
        invariant c.sortedCodewords[..i] == CodesOf(code, all[..i])
        invariant c.codewords[..] == old(c.codewords[..])
      {
        SlotOfRank(lengths, code, c.codewords[..], c.codewordLengths[..], values[..], i);
        Reverse32Involutive(code[all[i]]);
        assert all[..i] + [all[i]] == all[..i + 1];
        CodesSnoc(code, all[..i], all[i]);
        c.sortedCodewords[i] := BitReverse(c.codewords[i]);
      }
      assert all[..c.sortedEntries] == all;
    }
  }

  method ListLongCodewords(c: Codebook, lengths: seq<nat>, values: array<nat>, ghost code: seq<nat>)
    requires Allotted(c, lengths, values) && |code| == |lengths| && !c.sparse
    requires c.Filled(lengths, code, |lengths|, values)
    modifies c.sortedCodewords
    ensures c.sortedCodewords[..c.sortedEntries] == CodesOf(code, Listed(false, lengths, |lengths|))
  {
    hide Stored;
    var k := 0;
    for i := 0 to c.entries
      invariant k == |Listed(false, lengths, i)|
      invariant k <= c.sortedEntries
      invariant c.sortedCodewords[..k] == CodesOf(code, Listed(false, lengths, i))
      invariant c.codewords[..] == old(c.codewords[..])
    {
      ListedMono(false, lengths, i + 1, |lengths|);
      if lengths[i] != NO_CODE && lengths[i] > FAST_BITS {
        SlotOfSymbol(lengths, code, c.codewords[..], c.codewordLengths[..], values[..], i);
        CodesSnoc(code, Listed(false, lengths, i), i);
        c.sortedCodewords[k] := BitReverse(c.codewords[i]);
        k := k + 1;
      }
    }
  }

  ghost function LengthsOf(lengths: seq<nat>, owner: seq<nat>): seq<nat> {
    seq(|owner|, x requires 0 <= x < |owner| => if owner[x] < |lengths| then lengths[owner[x]] else NO_CODE)
  }

  /** Sorts the codewords and records, by binary search, which symbol each place belongs to. */
  method ComputeSortedHuffman(c: Codebook, lengths: seq<nat>, values: array<nat>, ghost code: seq<nat>)
    returns (ghost owner: seq<nat>)
    requires Allotted(c, lengths, values) && |code| == |lengths| && PrefixFree(lengths, code)
    requires c.Filled(lengths, code, |lengths|, values)
    modifies c.sortedCodewords, c.sortedValues, c.codewordLengths
    ensures SortedOwners(c.sparse, lengths, code, c.sortedCodewords[..c.sortedEntries], owner)
    ensures c.sortedValues[..] == owner
    ensures c.sparse ==> c.codewordLengths[..] == LengthsOf(lengths, owner)
    ensures !c.sparse ==> c.codewordLengths[..] == old(c.codewordLengths[..])
  {
    ListedRank(lengths, |lengths|);
    hide Stored, PrefixFree, Listed;
    var n := c.sortedEntries;
    ListCodewords(c, lengths, values, code);
    Qsort(c.sortedCodewords, n);
    ghost var sorted: seq<nat> := c.sortedCodewords[..n];
    owner := SortedHasOwners(c.sparse, lengths, code, sorted);
    c.sortedCodewords[n] := 0xffffffff;
    assert c.sortedCodewords[..n] == sorted;
    PlaceSymbols(c, lengths, values, code, owner);
  }

  /** The entry of the codeword array that symbol s comes from. */
  function EntryOf(sparse: bool, lengths: seq<nat>, s: nat): nat
    requires s < |lengths|
  {
    if sparse then Rank(lengths, s) else s
  }

  /** The places of the first i entries' symbols have been filled in. */
  ghost predicate Placed(sparse: bool, lengths: seq<nat>, owner: seq<nat>, symbols: seq<nat>, places: seq<nat>, i: nat)
    requires forall x :: 0 <= x < |owner| ==> owner[x] < |lengths| && Included(sparse, lengths, owner[x])
    requires |symbols| == |owner| && (sparse ==> |places| == |owner|)
  {
    forall x :: 0 <= x < |owner| && EntryOf(sparse, lengths, owner[x]) < i ==>
      symbols[x] == owner[x] && (sparse ==> places[x] == lengths[owner[x]])
  }

  /** Filling in the place whose codeword is that of symbol s. */
  lemma PlaceStep(sparse: bool, lengths: seq<nat>, code: seq<nat>, sorted: seq<nat>, owner: seq<nat>,
                  symbols: seq<nat>, places: seq<nat>, s: nat, x: nat)
    requires PrefixFree(lengths, code) && SortedOwners(sparse, lengths, code, sorted, owner)
    requires |symbols| == |owner| && (sparse ==> |places| == |owner|)
    requires Included(sparse, lengths, s) && x < |owner| && owner[x] == s
    requires Placed(sparse, lengths, owner, symbols, places, EntryOf(sparse, lengths, s))
    ensures Placed(sparse, lengths, owner, symbols[x := s], if sparse then places[x := lengths[s]] else places,
              EntryOf(sparse, lengths, s) + 1)
  {
    forall y | 0 <= y < |owner| && y != x
      ensures EntryOf(sparse, lengths, owner[y]) != EntryOf(sparse, lengths, s)
    {
      assert owner[y] != s;
      if owner[y] < s {
        RankMono(lengths, owner[y], s);
      } else {
        RankMono(lengths, s, owner[y]);
      }
    }
  }

  lemma PlaceSkip(sparse: bool, lengths: seq<nat>, owner: seq<nat>, symbols: seq<nat>, places: seq<nat>, i: nat)
    requires forall x :: 0 <= x < |owner| ==> owner[x] < |lengths| && Included(sparse, lengths, owner[x])
    requires |symbols| == |owner| && (sparse ==> |places| == |owner|)
    requires Placed(sparse, lengths, owner, symbols, places, i)
    requires !sparse && i < |lengths| && !Included(sparse, lengths, i)
    ensures Placed(sparse, lengths, owner, symbols, places, i + 1)
  {
  }

  /** The search of an entry's own codeword ends at its own place. */
  lemma OwnPlace(sparse: bool, lengths: seq<nat>, code: seq<nat>, sorted: seq<nat>, owner: seq<nat>, x: nat, s: nat)
    requires PrefixFree(lengths, code) && SortedOwners(sparse, lengths, code, sorted, owner)
    requires Included(sparse, lengths, s) && x < |sorted|
    requires x > 0 ==> sorted[x] <= code[s]
    requires forall y :: x < y < |sorted| ==> code[s] < sorted[y]
    ensures owner[x] == s && sorted[x] == code[s]
  {
  }

  /** Symbol and reversed codeword of entry i. */
  lemma EntryFacts(sparse: bool, lengths: seq<nat>, code: seq<nat>, codewords: seq<u32>, codewordLengths: seq<nat>,
                   values: seq<nat>, i: nat)
    requires Room(sparse, lengths, |codewords|, |codewordLengths|, |values|) && |code| == |lengths|
    requires Stored(sparse, lengths, code, codewords, codewordLengths, values)
    requires if sparse then i < |Listed(true, lengths, |lengths|)| else Included(false, lengths, i)
    ensures sparse ==> i < |values|
    ensures var s := if sparse then values[i] else i;
      && Included(sparse, lengths, s) && EntryOf(sparse, lengths, s) == i
      && i < |codewords| && Reverse32(codewords[i]) == code[s]
  {
    if sparse {
      SlotOfRank(lengths, code, codewords, codewordLengths, values, i);
      Reverse32Involutive(code[values[i]]);
    } else {
      SlotOfSymbol(lengths, code, codewords, codewordLengths, values, i);
    }
  }

  lemma PlacedAll(sparse: bool, lengths: seq<nat>, code: seq<nat>, sorted: seq<nat>, owner: seq<nat>,
                  symbols: seq<nat>, places: seq<nat>)
    requires SortedOwners(sparse, lengths, code, sorted, owner)
    requires |symbols| == |owner| && (sparse ==> |places| == |owner|)
    requires Placed(sparse, lengths, owner, symbols, places, if sparse then Rank(lengths, |lengths|) else |lengths|)
    ensures symbols == owner
    ensures sparse ==> places == LengthsOf(lengths, owner)
  {
    forall x | 0 <= x < |owner|
      ensures symbols[x] == owner[x] && (sparse ==> places[x] == lengths[owner[x]])
    {
      RankMono(lengths, owner[x], |lengths|);
    }
  }

  /** What the placing loop works on and does not change. */
  ghost predicate Placing(c: Codebook, lengths: seq<nat>, values: array<nat>, code: seq<nat>, owner: seq<nat>,
                          before: seq<nat>)
    reads c, c.codewords, values, c.sortedCodewords
  {
    && Allotted(c, lengths, values) && |code| == |lengths| && PrefixFree(lengths, code)
    && |before| == c.codewordLengths.Length
    && |owner| == c.sortedEntries && (c.sparse ==> |before| == |owner|)
    && Stored(c.sparse, lengths, code, c.codewords[..], before, values[..])
    && SortedOwners(c.sparse, lengths, code, c.sortedCodewords[..c.sortedEntries], owner)
  }

  /** The place of entry i's codeword among the sorted ones. */
  method FindPlace(c: Codebook, lengths: seq<nat>, values: array<nat>, i: nat, symbol: nat,
                   ghost code: seq<nat>, ghost owner: seq<nat>, ghost before: seq<nat>)
    returns (x: nat)
    requires Placing(c, lengths, values, code, owner, before)
    requires if c.sparse then i < c.sortedEntries else Included(false, lengths, i)
    requires c.sparse ==> i < values.Length
    requires symbol == if c.sparse then values[i] else i
    ensures x < |owner| && owner[x] == symbol && c.sortedCodewords[x] == code[symbol]
    ensures Included(c.sparse, lengths, symbol) && EntryOf(c.sparse, lengths, symbol) == i
  {
    EntryFacts(c.sparse, lengths, code, c.codewords[..], before, values[..], i);
    hide Stored, EntryOf, Room, PrefixFree;
    var word := BitReverse(c.codewords[i]);
    x := FindSorted(c.sortedCodewords, c.sortedEntries, word);
    OwnPlace(c.sparse, lengths, code, c.sortedCodewords[..c.sortedEntries], owner, x, symbol);
  }

  /** The loop body for an included entry. */
  method PlaceEntry(c: Codebook, lengths: seq<nat>, values: array<nat>, i: nat, symbol: nat,
                    ghost code: seq<nat>, ghost owner: seq<nat>, ghost before: seq<nat>)
    requires Placing(c, lengths, values, code, owner, before)
    requires if c.sparse then i < c.sortedEntries else Included(false, lengths, i)
    requires c.sparse ==> i < values.Length
    requires symbol == if c.sparse then values[i] else i
    requires Placed(c.sparse, lengths, owner, c.sortedValues[..], c.codewordLengths[..], i)
    modifies c.sortedValues, c.codewordLengths
    ensures Placed(c.sparse, lengths, owner, c.sortedValues[..], c.codewordLengths[..], i + 1)
    ensures !c.sparse ==> c.codewordLengths[..] == old(c.codewordLengths[..])
  {
    hide Stored, Placed, EntryOf, Room, PrefixFree, SortedOwners;
    var x := FindPlace(c, lengths, values, i, symbol, code, owner, before);
    var huffLen := lengths[symbol];
    PlaceStep(c.sparse, lengths, code, c.sortedCodewords[..c.sortedEntries], owner,
              c.sortedValues[..], c.codewordLengths[..], symbol, x);
    c.sortedValues[x] := symbol;
    if c.sparse {
      c.codewordLengths[x] := huffLen;
    }
  }

  /** Finds every included entry's place by binary search and records its symbol there. */
  method PlaceSymbols(c: Codebook, lengths: seq<nat>, values: array<nat>, ghost code: seq<nat>, ghost owner: seq<nat>)
    requires Placing(c, lengths, values, code, owner, c.codewordLengths[..])
    modifies c.sortedValues, c.codewordLengths
    ensures c.sortedValues[..] == owner
    ensures c.sparse ==> c.codewordLengths[..] == LengthsOf(lengths, owner)
    ensures !c.sparse ==> c.codewordLengths[..] == old(c.codewordLengths[..])
  {
    ListedRank(lengths, |lengths|);
    hide Stored, PrefixFree, EntryOf;
    ghost var before := c.codewordLengths[..];
    var len := if c.sparse then c.sortedEntries else c.entries;
    for i := 0 to len
      invariant Placed(c.sparse, lengths, owner, c.sortedValues[..], c.codewordLengths[..], i)
      invariant !c.sparse ==> c.codewordLengths[..] == before
    {
      var symbol := if c.sparse then values[i] else i;
      if c.sparse || (lengths[symbol] != NO_CODE && lengths[symbol] > FAST_BITS) {
        PlaceEntry(c, lengths, values, i, symbol, code, owner, before);
      } else {
        PlaceSkip(c.sparse, lengths, owner, c.sortedValues[..], c.codewordLengths[..], i);
      }
    }
    PlacedAll(c.sparse, lengths, code, c.sortedCodewords[..c.sortedEntries], owner, c.sortedValues[..],
              c.codewordLengths[..]);
  }

  // ---------------------------------------------------------------- the fast table

  /** Slot i is short, and its codeword begins every accumulator that ends in the bits z. */
  predicate Matches(lens: seq<nat>, words: seq<u32>, i: nat, z: nat)
    requires i < |lens| && i < |words|
  {
    lens[i] <= FAST_BITS && Hits(words[i], Pow2(lens[i]), z)
  }

  /** The last of the first n slots that matches z, or -1. */
  function LastMatch(lens: seq<nat>, words: seq<u32>, n: nat, z: nat): (r: int)
    requires n <= |lens| && n <= |words|
    ensures -1 <= r < n
    ensures r >= 0 ==> Matches(lens, words, r, z)
    ensures forall i :: r < i < n ==> !Matches(lens, words, i, z)
  {
    if n == 0 then -1 else if Matches(lens, words, n - 1, z) then n - 1 else LastMatch(lens, words, n - 1, z)
  }

  lemma LastMatchStep(lens: seq<nat>, words: seq<u32>, n: nat)
    requires n < |lens| && n < |words|
    ensures forall z: nat ::
      LastMatch(lens, words, n + 1, z) ==
      if lens[n] <= FAST_BITS && Hits(words[n], Pow2(lens[n]), z) then n else LastMatch(lens, words, n, z)
  {
    hide Hits, Pow2;
  }

  /** Short slots hold numbers of as many bits as their length. */
  predicate ShortWordsFit(lens: seq<nat>, words: seq<u32>) {
    |lens| == |words| && forall i :: 0 <= i < |lens| && lens[i] <= FAST_BITS ==> words[i] < Pow2(lens[i])
  }

  predicate Hits(w: nat, m: nat, y: nat)
    requires m > 0
  {
    y % m == w
  }

  /** Stepping by m goes from one number whose remainder is w to the next. */
  lemma StepToNext(w: nat, m: nat, z: nat)
    requires w < m && Hits(w, m, z)
    ensures Hits(w, m, z + m)
    ensures forall y: nat :: z < y < z + m ==> !Hits(w, m, y)
  {
    DivMod(z, m);
    MulDistribute(z / m, 1, m);
    DivModUnique(z + m, m, z / m + 1, w);
    forall y: nat | z < y < z + m && y % m == w
      ensures false
    {
      DivMod(y, m);
      var d := z / m - y / m;
      MulDistribute(y / m, d, m);
      if d >= 1 {
        MulMono(1, d, m);
      } else if d <= -1 {
        MulMono(d, -1, m);
      }
    }
  }

  lemma FirstHit(w: nat, m: nat)
    requires w < m
    ensures Hits(w, m, w)
    ensures forall y: nat :: y < w ==> !Hits(w, m, y)
  {
  }

  /** Writes i at every place of the table whose low bits are the codeword. */
  method FillMatches(fast: array<int>, word: u32, len: nat, i: int)
    requires fast.Length == FAST_SIZE && word < Pow2(len)
    modifies fast
    ensures forall y: nat :: y < FAST_SIZE ==> fast[y] == if Hits(word, Pow2(len), y) then i else old(fast[y])
  {
    var step := Pow2(len);
    FirstHit(word, step);
    hide Pow2, Hits;
    var z := word;
    while z < FAST_SIZE
      invariant z >= 0 && step == Pow2(len) && Hits(word, step, z)
      invariant forall y: nat :: y < FAST_SIZE ==> fast[y] == if Hits(word, step, y) && y < z then i else old(fast[y])
      decreases FAST_SIZE - z
    {
      fast[z] := i;
      StepToNext(word, step, z);
      z := z + step;
    }
  }

  /** The codewords by slot, least significant bit first. */
  ghost function SlotWords(sparse: bool, codewords: seq<u32>, sorted: seq<u32>): seq<u32> {
    if !sparse then codewords else seq(|sorted|, i requires 0 <= i < |sorted| => Reverse32(sorted[i]))
  }

  function FastCount(n: nat): nat {
    if n > FAST_LIMIT then FAST_LIMIT else n
  }

  /** The codebook's arrays as the fast table's builder finds them. */
  ghost predicate Tabled(c: Codebook, words: seq<u32>)
    reads c, c.codewords, c.codewordLengths, c.sortedCodewords
  {
    && c.fastHuffman.Length == FAST_SIZE
    && (!c.sparse ==> c.codewords != null && c.codewords.Length == c.entries && words == c.codewords[..])
    && (c.sparse && c.sortedEntries > 0 ==>
        c.sortedCodewords != null && c.sortedEntries <= c.sortedCodewords.Length
        && words == SlotWords(true, [], c.sortedCodewords[..c.sortedEntries]))
    && (c.sparse && c.sortedEntries == 0 ==> words == [])
    && |words| == c.codewordLengths.Length
    && ShortWordsFit(c.codewordLengths[..], words)
    && c.fastHuffman != c.codewordLengths as object
  }

  /** For every value of the next FAST_BITS bits, the slot whose short codeword they begin with, or -1. */
  method ComputeAcceleratedHuffman(c: Codebook, ghost words: seq<u32>)
    requires Tabled(c, words)
    modifies c.fastHuffman
    ensures forall z: nat :: z < FAST_SIZE ==>
      c.fastHuffman[z] == LastMatch(c.codewordLengths[..], words, FastCount(|words|), z)
  {
    hide LastMatch, Hits, Pow2, Reverse32;
    for i := 0 to FAST_SIZE
      invariant forall z :: 0 <= z < i ==> c.fastHuffman[z] == -1
    {
      c.fastHuffman[i] := -1;
    }
    ghost var lens := c.codewordLengths[..];
    var len := if c.sparse then c.sortedEntries else c.entries;
    if len > FAST_LIMIT {
      len := FAST_LIMIT;
    }
    LastMatchNone(lens, words);
    for i := 0 to len
      invariant c.codewordLengths[..] == lens
      invariant Tabled(c, words)
      invariant forall z: nat :: z < FAST_SIZE ==> c.fastHuffman[z] == LastMatch(lens, words, i, z)
    {
      LastMatchStep(lens, words, i);
      if c.codewordLengths[i] <= FAST_BITS {
        var z := if c.sparse then BitReverse(c.sortedCodewords[i]) else c.codewords[i];
        FillMatches(c.fastHuffman, z, c.codewordLengths[i], i);
      }
    }
  }

  lemma LastMatchNone(lens: seq<nat>, words: seq<u32>)
    ensures forall z: nat :: LastMatch(lens, words, 0, z) == -1
  {
  }
}
