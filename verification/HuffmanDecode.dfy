/** Reading symbols off a packet with a codebook's lookup tables. */
module HuffmanDecode {
  import opened Bits
  import opened Huffman
  import opened HuffmanTables
  import opened HuffmanSetup

  /** The codewords are stored and the sorted tables are those of an allocation of codewords to lengths. */
  ghost predicate Prepared(c: Codebook, lengths: seq<nat>, code: seq<nat>)
    reads c, c.codewords, c.codewordLengths, c.sortedCodewords, c.sortedValues
  {
    && PrefixFree(lengths, code) && |lengths| == c.entries
    && c.sortedEntries == |Listed(c.sparse, lengths, |lengths|)|
    && (c.sortedEntries == 0 ==> c.sortedCodewords == null && c.sortedValues == null)
    && (c.sortedEntries > 0 ==>
        && c.sortedCodewords != null && c.sortedValues != null
        && c.sortedEntries < c.sortedCodewords.Length && c.sortedValues.Length == c.sortedEntries
        && SortedOwners(c.sparse, lengths, code, c.sortedCodewords[..c.sortedEntries], c.sortedValues[..]))
    && (!c.sparse ==>
        && c.codewords != null && c.codewords.Length == c.entries && c.codewordLengths[..] == lengths
        && WordsStored(lengths, code, c.codewords[..]))
    && (c.sparse ==> c.codewordLengths[..] == LengthsOf(lengths, Symbols(c)))
  }

  /** The fast table answers with the last short slot that matches. */
  ghost predicate FastBuilt(c: Codebook, words: seq<u32>)
    requires c.codewordLengths.Length == |words|
    reads c, c.codewordLengths, c.fastHuffman
  {
    && c.fastHuffman.Length == FAST_SIZE
    && forall z: nat :: z < FAST_SIZE ==>
      c.fastHuffman[z] == LastMatch(c.codewordLengths[..], words, FastCount(|words|), z)
  }

  /** A codebook ready for decoding. */
  ghost predicate Built(c: Codebook, lengths: seq<nat>, code: seq<nat>)
    reads c, c.codewords, c.codewordLengths, c.fastHuffman, c.sortedCodewords, c.sortedValues
  {
    && Prepared(c, lengths, code)
    && (c.sparse ==> c.codewords == null)
    && FastBuilt(c, Words(c, lengths))
  }

  ghost predicate WordsStored(lengths: seq<nat>, code: seq<nat>, words: seq<u32>)
    requires |lengths| == |code| == |words|
  {
    forall i: nat :: Used(lengths, i) ==> code[i] < SPACE && words[i] == Reverse32(code[i])
  }

  /** The symbols in sorted order. */
  ghost function Symbols(c: Codebook): seq<nat>
    reads c, c.sortedValues
  {
    if c.sortedValues == null then [] else c.sortedValues[..]
  }

  /** The codeword of every slot, least significant bit first. */
  ghost function Words(c: Codebook, lengths: seq<nat>): (w: seq<u32>)
    requires c.sortedEntries > 0 ==> c.sortedCodewords != null && c.sortedEntries < c.sortedCodewords.Length
    requires !c.sparse ==> c.codewords != null
    reads c, c.codewords, c.sortedCodewords
  {
    if !c.sparse then c.codewords[..]
    else if c.sortedEntries == 0 then []
    else SlotWords(true, [], c.sortedCodewords[..c.sortedEntries])
  }

  /** The symbol that a slot, the result of the raw decoders, stands for. */
  function SymbolOf(c: Codebook, slot: nat): nat
    requires c.sparse ==> c.sortedValues != null && slot < c.sortedValues.Length
    reads c, c.sortedValues
  {
    if c.sparse then c.sortedValues[slot] else slot
  }

  /** A slot of the codebook that stands for a used symbol. */
  ghost predicate IsSlot(c: Codebook, lengths: seq<nat>, slot: nat)
    reads c, c.sortedValues
  {
    && (c.sparse ==> c.sortedValues != null && slot < c.sortedValues.Length)
    && Used(lengths, SymbolOf(c, slot))
  }

  /** A slot holds its symbol's length and codeword. */
  lemma SlotFacts(c: Codebook, lengths: seq<nat>, code: seq<nat>, slot: nat)
    requires Built(c, lengths, code) && IsSlot(c, lengths, slot)
    ensures slot < c.codewordLengths.Length == |Words(c, lengths)|
    ensures var s := SymbolOf(c, slot);
      && c.codewordLengths[slot] == lengths[s] && code[s] < SPACE
      && Words(c, lengths)[slot] == Reverse32(code[s])
  {
  }

  /** Every used symbol of a sparse codebook, and every symbol of another, has its slot. */
  lemma HasSlot(c: Codebook, lengths: seq<nat>, code: seq<nat>, s: nat) returns (slot: nat)
    requires Built(c, lengths, code) && Used(lengths, s)
    ensures IsSlot(c, lengths, slot) && SymbolOf(c, slot) == s
  {
    hide PrefixFree, Reverse32;
    if c.sparse {
      ListedAt(true, lengths, s, |lengths|);
      assert Included(true, lengths, s);
      slot :| 0 <= slot < c.sortedValues.Length && c.sortedValues[..][slot] == s;
    } else {
      slot := s;
    }
  }

  /** The codeword of a symbol, in the order its bits are read. */
  ghost function CodeBits(lengths: seq<nat>, code: seq<nat>, s: nat): (b: seq<bool>)
    requires PrefixFree(lengths, code) && Used(lengths, s)
    ensures |b| == lengths[s]
  {
    assert IsNode(code[s], lengths[s]);
    ToBits(Reverse32(code[s]), lengths[s])
  }

  function PacketBits(packet: seq<u8>): (b: seq<bool>)
    ensures |b| == 8 * |packet|
  {
    if packet == [] then [] else ToBits(packet[0], 8) + PacketBits(packet[1..])
  }

  /** Bit k of a packet is bit k % 8 of byte k / 8, least significant first. */
  lemma {:induction false} PacketBit(packet: seq<u8>, k: nat)
    requires k < 8 * |packet|
    ensures PacketBits(packet)[k] <==> packet[k / 8] / Pow2(k % 8) % 2 == 1
  {
    hide ToBits, Pow2;
    if k < 8 {
      ToBitsAt(packet[0], 8, k);
    } else {
      PacketBit(packet[1..], k - 8);
      assert (k - 8) / 8 == k / 8 - 1 && (k - 8) % 8 == k % 8;
    }
  }

  /** A codeword is read from its most significant bit down; codes are left-justified in 32 bits. */
  lemma CodeBitAt(lengths: seq<nat>, code: seq<nat>, s: nat, i: nat)
    requires PrefixFree(lengths, code) && Used(lengths, s) && i < lengths[s]
    ensures CodeBits(lengths, code, s)[i] <==> code[s] / Pow2(31 - i) % 2 == 1
  {
    assert IsNode(code[s], lengths[s]);
    assert lengths[s] <= 32;
    hide ToBits, Pow2, Reverse32, PrefixFree;
    var w := Reverse32(code[s]);
    ToBitsAt(w, lengths[s], i);
    ToBitsAt(w, 32, i);
    Reverse32Bits(code[s]);
    ToBitsAt(code[s], 32, 31 - i);
  }

  /** How many bits a refill leaves in the accumulator, of v bits there and n bytes in the packet. */
  function Refilled(v: nat, n: nat): (r: nat)
    ensures r >= v
    ensures r <= 24 ==> r == v + 8 * n
    ensures r <= v + 8 * n
    decreases n
  {
    if v <= 24 && n > 0 then Refilled(v + 8, n - 1) else v
  }

  /** The bit accumulator in front of the rest of a packet. */
  class BitReader {
    var acc: u32
    var validBits: int
    var packet: seq<u8>

    constructor (packet: seq<u8>)
      ensures Valid() && Bits() == PacketBits(packet) && validBits == 0 && this.packet == packet
      ensures forall k :: 0 <= k < 8 * |packet| ==> (Bits()[k] <==> packet[k / 8] / Pow2(k % 8) % 2 == 1)
    {
      this.acc := 0;
      this.validBits := 0;
      this.packet := packet;
      forall k | 0 <= k < 8 * |packet|
        ensures PacketBits(packet)[k] <==> packet[k / 8] / Pow2(k % 8) % 2 == 1
      {
        PacketBit(packet, k);
      }
    }

    /** Whatever is left in an empty accumulator is ignored. */
    ghost predicate Valid()
      reads this
    {
      0 <= validBits <= 32 && (validBits > 0 ==> acc < Pow2(validBits))
    }

    /** The bits still to be read, in order. */
    ghost function Bits(): (b: seq<bool>)
      requires Valid()
      reads this
      ensures |b| == validBits + 8 * |packet|
    {
      ToBits(acc, validBits) + PacketBits(packet)
    }

    /** Refills the accumulator to more than 24 bits, or until the packet ends. */
    method PrepHuffman()
      requires Valid()
      modifies this
      ensures Valid() && Bits() == old(Bits())
      ensures validBits == Refilled(old(validBits), |old(packet)|)
      ensures validBits <= 24 ==> packet == []
      ensures acc < Pow2(validBits)
    {
      hide ToBits;
      assert Pow2(0) == 1;
      if validBits <= 24 {
        if validBits == 0 {
          acc := 0;
        }
        while validBits <= 24
          invariant Valid() && acc < Pow2(validBits)
          invariant Bits() == old(Bits())
          invariant Refilled(validBits, |packet|) == Refilled(old(validBits), |old(packet)|)
          decreases |packet|
        {
          if packet == [] {
            return;
          }
          PushByte();
        }
      }
    }

    /** Moves the packet's next byte to the accumulator. */
    method PushByte()
      requires Valid() && acc < Pow2(validBits) && validBits <= 24 && packet != []
      modifies this
      ensures Valid() && acc < Pow2(validBits) && Bits() == old(Bits())
      ensures validBits == old(validBits) + 8 && packet == old(packet)[1..]
    {
      hide ToBits, Pow2;
      var z := packet[0];
      AppendByte(acc, validBits, z);
      assert ToBits(acc, validBits) + (ToBits(z, 8) + PacketBits(packet[1..])) ==
             (ToBits(acc, validBits) + ToBits(z, 8)) + PacketBits(packet[1..]);
      packet := packet[1..];
      acc := acc + z * Pow2(validBits);
      validBits := validBits + 8;
    }

    /** Drops the first n bits of the accumulator. */
    method Consume(n: nat)
      requires Valid() && n <= validBits && acc < Pow2(validBits)
      modifies this
      ensures Valid() && Bits() == old(Bits())[n..]
      ensures validBits == old(validBits) - n && packet == old(packet)
    {
      DropBits(acc, n, validBits);
      acc := acc / Pow2(n);
      validBits := validBits - n;
    }
  }

  lemma AppendByte(acc: u32, v: nat, z: u8)
    requires v <= 24 && acc < Pow2(v)
    ensures 0 <= acc + z * Pow2(v) < Pow2(v + 8) <= SPACE
    ensures ToBits(acc + z * Pow2(v), v + 8) == ToBits(acc, v) + ToBits(z, 8)
  {
    Pow2Values();
    hide Pow2, ToBits;
    BitsSplit(acc, z, v, 8);
    Pow2Add(v, 8);
    if v < 24 {
      Pow2Mono(v + 8, 32);
    }
    var p := Pow2(v);
    MulMono(z + 1, 256, p);
    MulDistribute(z, 1, p);
    MulMono(0, z, p);
  }

  lemma DropBits(acc: u32, n: nat, v: nat)
    requires n <= v <= 32 && acc < Pow2(v)
    ensures 0 <= acc / Pow2(n) <= acc && acc / Pow2(n) < Pow2(v - n)
    ensures ToBits(acc / Pow2(n), v - n) == ToBits(acc, v)[n..]
  {
    hide Pow2, ToBits;
    MaskAndShift(acc, n, v - n);
    Pow2Add(n, v - n);
    assert n + (v - n) == v;
    QuotientFits(acc, Pow2(n), Pow2(v - n));
  }

  // ---------------------------------------------------------------- what an accumulator begins with

  /** The accumulator's first bits are the codeword of symbol s, and it holds all of them. */
  ghost predicate Begins(lengths: seq<nat>, code: seq<nat>, s: nat, acc: u32, v: int)
    requires PrefixFree(lengths, code) && Used(lengths, s)
  {
    && lengths[s] <= v
    && code[s] < SPACE
    && acc % Pow2(lengths[s]) == Reverse32(code[s])
  }

  lemma PrefixBegins(lengths: seq<nat>, code: seq<nat>, s: nat, f: BitReader)
    requires PrefixFree(lengths, code) && Used(lengths, s)
    requires f.Valid() && f.acc < Pow2(f.validBits)
    requires CodeBits(lengths, code, s) <= f.Bits()
    ensures lengths[s] <= f.validBits ==> Begins(lengths, code, s, f.acc, f.validBits)
    ensures f.packet == [] ==> lengths[s] <= f.validBits
  {
    assert IsNode(code[s], lengths[s]);
    var l, w, v := lengths[s], Reverse32(code[s]), f.validBits;
    ReversedCodeFits(code[s], l);
    if l <= v {
      hide ToBits, Pow2, Reverse32, IsNode, PrefixFree;
      MaskAndShift(f.acc, l, v - l);
      assert l + (v - l) == v;
      assert ToBits(f.acc, v)[..l] == f.Bits()[..l] == ToBits(w, l);
      DivMod(f.acc, Pow2(l));
      BitsInjective(f.acc % Pow2(l), w, l);
    }
  }

  /** An accumulator begins with one codeword at most. */
  lemma BeginsUnique(lengths: seq<nat>, code: seq<nat>, s: nat, t: nat, acc: u32)
    requires PrefixFree(lengths, code) && Used(lengths, s) && Used(lengths, t)
    requires code[s] < SPACE && acc % Pow2(lengths[s]) == Reverse32(code[s])
    requires code[t] < SPACE && acc % Pow2(lengths[t]) == Reverse32(code[t])
    ensures s == t
  {
    hide Reverse32, Pow2;
    assert IsNode(code[s], lengths[s]) && IsNode(code[t], lengths[t]);
    OwnsIffBegins(code[s], lengths[s], acc);
    OwnsIffBegins(code[t], lengths[t], acc);
    OwnerUnique(lengths, code, s, t, Reverse32(acc));
  }

  // ---------------------------------------------------------------- the slow decoders

  /** Whether the binary search is used rather than the linear one. */
  predicate Searched(c: Codebook)
    reads c
  {
    if c.entries > 8 then c.sortedCodewords != null else c.codewords == null
  }

  /** The next bits of the stream are the codeword of symbol s. */
  ghost predicate Next(f: BitReader, lengths: seq<nat>, code: seq<nat>, s: nat)
    requires f.Valid() && PrefixFree(lengths, code)
    reads f
  {
    Used(lengths, s) && CodeBits(lengths, code, s) <= f.Bits()
  }

  /** A raw decoder's result r stands for symbol s. */
  ghost predicate Decoded(c: Codebook, lengths: seq<nat>, s: nat, r: int)
    reads c, c.sortedValues
  {
    r >= 0 && IsSlot(c, lengths, r) && SymbolOf(c, r) == s
  }

  /** The binary search; next says that the stream goes on with the codeword of symbol s. */
  method BinaryDecode(f: BitReader, c: Codebook, lengths: seq<nat>, ghost code: seq<nat>, ghost next: bool,
                      ghost s: nat)
    returns (r: int)
    requires f.Valid() && f.acc < Pow2(f.validBits) && Built(c, lengths, code)
    requires c.sortedCodewords != null && c.sortedValues != null
    requires next ==> Used(lengths, s)
    requires next && lengths[s] <= f.validBits ==> Begins(lengths, code, s, f.acc, f.validBits)
    modifies f
    ensures f.Valid() && (r == -1 || (r >= 0 && IsSlot(c, lengths, r)))
    ensures next ==>
      (Decoded(c, lengths, s, r) <==> lengths[s] <= old(f.validBits) && Included(c.sparse, lengths, s))
    ensures next && Decoded(c, lengths, s, r) ==> f.Bits() == old(f.Bits())[lengths[s]..]
  {
    hide ToBits, Pow2, Reverse32, Listed;
    var word := BitReverse(f.acc);
    var x := FindSorted(c.sortedCodewords, c.sortedEntries, word);
    ghost var sorted: seq<nat> := c.sortedCodewords[..c.sortedEntries];
    ghost var t := c.sortedValues[..][x];
    assert Included(c.sparse, lengths, t);
    if next && Included(c.sparse, lengths, s) && lengths[s] <= f.validBits {
      assert IsNode(code[s], lengths[s]);
      OwnsIffBegins(code[s], lengths[s], f.acc);
      SearchFindsOwner(lengths, code, c.sparse, sorted, c.sortedValues[..], x, word, s);
    }
    hide PrefixFree;
    var slot := if c.sparse then x else c.sortedValues[x];
    SlotFacts(c, lengths, code, slot);
    var len := c.codewordLengths[slot];
    if f.validBits >= len {
      f.Consume(len);
      return slot;
    }
    f.validBits := 0;
    return -1;
  }

  /** The linear search of a small codebook. */
  method LinearDecode(f: BitReader, c: Codebook, lengths: seq<nat>, ghost code: seq<nat>, ghost next: bool,
                      ghost s: nat)
    returns (r: int)
    requires f.Valid() && f.acc < Pow2(f.validBits) && Built(c, lengths, code) && !c.sparse
    requires next ==> Used(lengths, s)
    requires next && lengths[s] <= f.validBits ==> Begins(lengths, code, s, f.acc, f.validBits)
    modifies f
    ensures f.Valid() && (r == -1 || (r >= 0 && IsSlot(c, lengths, r)))
    ensures next ==> (Decoded(c, lengths, s, r) <==> lengths[s] <= old(f.validBits))
    ensures next && Decoded(c, lengths, s, r) ==> f.Bits() == old(f.Bits())[lengths[s]..]
  {
    hide ToBits, Pow2, Reverse32, Listed, PrefixFree;
    for i := 0 to c.entries
      invariant f.acc == old(f.acc) && f.validBits == old(f.validBits) && f.packet == old(f.packet)
      invariant next && lengths[s] <= f.validBits ==> i <= s
    {
      if c.codewordLengths[i] != NO_CODE {
        assert c.codewordLengths[..][i] == lengths[i];
        SlotFacts(c, lengths, code, i);
        if c.codewords[i] == f.acc % Pow2(c.codewordLengths[i]) {
          if next && lengths[s] <= f.validBits {
            BeginsUnique(lengths, code, s, i, f.acc);
          }
          if f.validBits >= c.codewordLengths[i] {
            f.Consume(c.codewordLengths[i]);
            return i;
          }
          f.validBits := 0;
          return -1;
        }
      }
    }
    f.validBits := 0;
    return -1;
  }

  /** The slow path finds symbol s: it is searched among all symbols, or its table is. */
  ghost predicate SlowFinds(c: Codebook, lengths: seq<nat>, s: nat)
    reads c
  {
    Searched(c) ==> Included(c.sparse, lengths, s)
  }

  /** A second refill changes nothing. */
  lemma RefilledOnce(v: nat, n: nat)
    ensures var r := Refilled(v, n); r > 24 || r == v + 8 * n
  {
  }

  /** The slow path: a search of the sorted codewords, or of all of them. */
  method CodebookDecodeScalarRaw(f: BitReader, c: Codebook, lengths: seq<nat>, ghost code: seq<nat>, ghost s: nat)
    returns (r: int)
    requires f.Valid() && Built(c, lengths, code)
    modifies f
    ensures f.Valid() && (r == -1 || (r >= 0 && IsSlot(c, lengths, r)))
    ensures old(Next(f, lengths, code, s)) ==>
      (Decoded(c, lengths, s, r) <==>
       lengths[s] <= Refilled(old(f.validBits), |old(f.packet)|) && SlowFinds(c, lengths, s))
    ensures old(Next(f, lengths, code, s)) && Decoded(c, lengths, s, r) ==> f.Bits() == old(f.Bits())[lengths[s]..]
  {
    f.PrepHuffman();
    ghost var next := Next(f, lengths, code, s);
    if c.codewords == null && c.sortedCodewords == null {
      if next {
        ListedAt(c.sparse, lengths, s, |lengths|);
      }
      return -1;
    }
    if next {
      PrefixBegins(lengths, code, s, f);
    }
    hide PrefixFree, Listed, SortedOwners, CodeBits;
    if Searched(c) {
      r := BinaryDecode(f, c, lengths, code, next, s);
    } else {
      r := LinearDecode(f, c, lengths, code, next, s);
    }
  }

  /** Symbol s is in the fast table, or the slow path finds it. */
  ghost predicate Reachable(c: Codebook, lengths: seq<nat>, s: nat)
    requires s < |lengths|
    reads c
  {
    c.sparse || s < FAST_LIMIT || lengths[s] > FAST_BITS || c.sortedEntries == 0
  }

  lemma ModMod(x: nat, j: nat, k: nat)
    requires j <= k
    ensures x % Pow2(k) % Pow2(j) == x % Pow2(j)
  {
    Pow2Add(k - j, j);
    ModProduct(x, Pow2(k - j), Pow2(j));
  }

  lemma ModProduct(x: nat, m: nat, p: nat)
    requires m > 0 && p > 0 && m * p > 0
    ensures x % (m * p) % p == x % p
  {
    var n := m * p;
    var y, q := x % n, x / n;
    DivMod(x, n);
    DivMod(y, p);
    MulAssoc(q, m, p);
    MulDistribute(q * m, y / p, p);
    DivModUnique(x, p, q * m + y / p, y % p);
  }

  /** What the fast table answers for an accumulator. */
  lemma FastSlot(c: Codebook, lengths: seq<nat>, code: seq<nat>, acc: u32)
    requires Built(c, lengths, code)
    ensures 0 <= acc % FAST_SIZE < FAST_SIZE
    ensures var slot := c.fastHuffman[acc % FAST_SIZE]; slot >= 0 ==>
      && IsSlot(c, lengths, slot) && slot < c.codewordLengths.Length && c.codewordLengths[slot] <= FAST_BITS
      && slot < FAST_LIMIT
      && lengths[SymbolOf(c, slot)] == c.codewordLengths[slot]
      && code[SymbolOf(c, slot)] < SPACE
      && acc % Pow2(lengths[SymbolOf(c, slot)]) == Reverse32(code[SymbolOf(c, slot)])
  {
    hide Reverse32, PrefixFree, Listed;
    var slot := c.fastHuffman[acc % FAST_SIZE];
    if slot >= 0 {
      assert Matches(c.codewordLengths[..], Words(c, lengths), slot, acc % FAST_SIZE);
      assert c.codewordLengths[..][slot] == c.codewordLengths[slot];
      if c.sparse {
        assert Included(true, lengths, c.sortedValues[..][slot]);
      }
      SlotFacts(c, lengths, code, slot);
      Pow2Values();
      ModMod(acc, c.codewordLengths[slot], FAST_BITS);
    }
  }

  /** A short codeword at the front of an accumulator is in the fast table, unless its slot is beyond the table's. */
  lemma FastFinds(c: Codebook, lengths: seq<nat>, code: seq<nat>, slot: nat, acc: u32)
    requires Built(c, lengths, code) && IsSlot(c, lengths, slot) && slot < FAST_LIMIT
    requires var s := SymbolOf(c, slot);
      lengths[s] <= FAST_BITS && code[s] < SPACE && acc % Pow2(lengths[s]) == Reverse32(code[s])
    ensures c.fastHuffman[acc % FAST_SIZE] >= 0
  {
    hide Reverse32, PrefixFree, Listed;
    SlotFacts(c, lengths, code, slot);
    Pow2Values();
    ModMod(acc, c.codewordLengths[slot], FAST_BITS);
    assert c.codewordLengths[..][slot] == c.codewordLengths[slot];
    assert Matches(c.codewordLengths[..], Words(c, lengths), slot, acc % FAST_SIZE);
  }

  /** A codeword that the accumulator holds in full is the one the stream begins with. */
  lemma NoShorterCodeword(lengths: seq<nat>, code: seq<nat>, s: nat, t: nat, f: BitReader)
    requires PrefixFree(lengths, code) && Used(lengths, s) && Used(lengths, t)
    requires f.Valid() && f.acc < Pow2(f.validBits) && CodeBits(lengths, code, s) <= f.Bits()
    requires code[t] < SPACE && f.acc % Pow2(lengths[t]) == Reverse32(code[t])
    requires lengths[t] <= f.validBits
    ensures lengths[s] <= f.validBits && s == t
  {
    PrefixBegins(lengths, code, s, f);
    if lengths[s] <= f.validBits {
      BeginsUnique(lengths, code, s, t, f.acc);
      return;
    }
    assert IsNode(code[s], lengths[s]);
    var k, v, w := lengths[t], f.validBits, Reverse32(code[s]);
    NoPrefix(lengths, code, t, s);
    ReversedCodeFits(code[s], lengths[s]);
    hide ToBits, Pow2, Reverse32, IsNode, PrefixFree;
    MaskAndShift(f.acc, k, v - k);
    MaskAndShift(w, k, lengths[s] - k);
    assert k + (v - k) == v && k + (lengths[s] - k) == lengths[s];
    assert ToBits(f.acc, v)[..k] == f.Bits()[..k] == ToBits(w, lengths[s])[..k];
    DivMod(f.acc, Pow2(k));
    DivMod(w, Pow2(k));
    BitsInjective(f.acc % Pow2(k), w % Pow2(k), k);
  }

  /** The slow path and the fast table between them find a symbol the fast table did not answer for. */
  lemma SlowAfterFast(c: Codebook, lengths: seq<nat>, code: seq<nat>, s: nat, acc: u32, v: int)
    requires Built(c, lengths, code) && Used(lengths, s)
    requires lengths[s] <= FAST_BITS ==> Begins(lengths, code, s, acc, v)
    requires c.fastHuffman[acc % FAST_SIZE] < 0
    ensures SlowFinds(c, lengths, s) <==> Reachable(c, lengths, s)
  {
    if lengths[s] <= FAST_BITS && !c.sparse && s < FAST_LIMIT {
      FastFinds(c, lengths, code, s, acc);
    }
  }

  /** Takes the fast table's answer r. */
  method TakeFast(f: BitReader, c: Codebook, lengths: seq<nat>, ghost code: seq<nat>, ghost next: bool,
                  ghost s: nat, slot: nat)
    returns (r: int)
    requires f.Valid() && f.acc < Pow2(f.validBits) && Built(c, lengths, code)
    requires slot == c.fastHuffman[f.acc % FAST_SIZE]
    requires next ==> Next(f, lengths, code, s)
    requires f.validBits >= FAST_BITS || f.packet == []
    modifies f
    ensures f.Valid() && (r == -1 || (r >= 0 && IsSlot(c, lengths, r)))
    ensures next ==> Decoded(c, lengths, s, r) && lengths[s] <= old(f.validBits) && Reachable(c, lengths, s)
    ensures next ==> f.Bits() == old(f.Bits())[lengths[s]..]
  {
    FastSlot(c, lengths, code, f.acc);
    hide Built, PrefixFree, CodeBits, Pow2, ToBits;
    r := slot;
    if next {
      ghost var t := SymbolOf(c, slot);
      PrefixBegins(lengths, code, s, f);
      if f.validBits >= FAST_BITS {
        NoShorterCodeword(lengths, code, s, t, f);
      }
      BeginsUnique(lengths, code, s, t, f.acc);
    }
    var n := c.codewordLengths[slot];
    if n <= f.validBits {
      f.Consume(n);
    } else {
      f.validBits := 0;
      r := -1;
    }
  }

  /** Table lookup first; the slow path when it has no answer. */
  method DecodeRaw(f: BitReader, c: Codebook, lengths: seq<nat>, ghost code: seq<nat>, ghost s: nat)
    returns (r: int)
    requires f.Valid() && Built(c, lengths, code)
    modifies f
    ensures f.Valid() && (r == -1 || (r >= 0 && IsSlot(c, lengths, r)))
    ensures old(Next(f, lengths, code, s)) ==>
      (Decoded(c, lengths, s, r) <==>
       lengths[s] <= Refilled(old(f.validBits), |old(f.packet)|) && Reachable(c, lengths, s))
    ensures old(Next(f, lengths, code, s)) && Decoded(c, lengths, s, r) ==> f.Bits() == old(f.Bits())[lengths[s]..]
  {
    RefilledOnce(f.validBits, |f.packet|);
    if f.validBits < FAST_BITS {
      f.PrepHuffman();
    }
    ghost var next := Next(f, lengths, code, s);
    if next {
      PrefixBegins(lengths, code, s, f);
    }
    FastSlot(c, lengths, code, f.acc);
    r := c.fastHuffman[f.acc % FAST_SIZE];
    hide Built, PrefixFree, CodeBits, Pow2, ToBits;
    if r >= 0 {
      r := TakeFast(f, c, lengths, code, next, s, r);
    } else {
      if next {
        SlowAfterFast(c, lengths, code, s, f.acc, f.validBits);
      }
      r := CodebookDecodeScalarRaw(f, c, lengths, code, s);
    }
  }

  /** DecodeRaw, with the slots of a sparse codebook turned into symbols. */
  method Decode(f: BitReader, c: Codebook, lengths: seq<nat>, ghost code: seq<nat>, ghost s: nat) returns (r: int)
    requires f.Valid() && Built(c, lengths, code)
    modifies f
    ensures f.Valid() && (r == -1 || Used(lengths, r))
    ensures old(Next(f, lengths, code, s)) ==>
      (r == s <==> lengths[s] <= Refilled(old(f.validBits), |old(f.packet)|) && Reachable(c, lengths, s))
    ensures old(Next(f, lengths, code, s)) && r == s ==> f.Bits() == old(f.Bits())[lengths[s]..]
  {
    r := DecodeRaw(f, c, lengths, code, s);
    if c.sparse && r >= 0 {
      r := c.sortedValues[r];
    }
  }

  // ---------------------------------------------------------------- a run of symbols

  predicate AllUsed(lengths: seq<nat>, symbols: seq<nat>) {
    forall k :: 0 <= k < |symbols| ==> Used(lengths, symbols[k])
  }

  /** The encoding of a list of symbols. */
  ghost function Encoded(lengths: seq<nat>, code: seq<nat>, symbols: seq<nat>): seq<bool>
    requires PrefixFree(lengths, code) && AllUsed(lengths, symbols)
  {
    if symbols == [] then []
    else CodeBits(lengths, code, symbols[0]) + Encoded(lengths, code, symbols[1..])
  }

  /** How many of so many remaining bits a refill holds: all up to 24, else 25 to 32, by whole bytes. */
  function Held(total: int): (v: int) {
    if total <= 24 then total else 25 + (total - 25) % 8
  }

  /** What a refill holds depends only on how many bits are left, not on where they are. */
  lemma {:induction false} RefilledIsHeld(v: nat, n: nat)
    requires v <= 32
    ensures Refilled(v, n) == Held(v + 8 * n)
    decreases n
  {
    if v <= 24 && n > 0 {
      RefilledIsHeld(v + 8, n - 1);
    }
  }

  /** Each codeword of a list fits the refill at its place in a stream of so many bits, and the tables reach it. */
  ghost predicate ReadsBack(c: Codebook, lengths: seq<nat>, symbols: seq<nat>, total: int)
    requires AllUsed(lengths, symbols)
    reads c
    decreases |symbols|
  {
    symbols == []
    || (lengths[symbols[0]] <= Held(total) && Reachable(c, lengths, symbols[0])
        && ReadsBack(c, lengths, symbols[1..], total - lengths[symbols[0]]))
  }

  /** The bits begin with the encoding of what is left of a list; all tells whether that reads back. */
  ghost predicate OnTrack(c: Codebook, lengths: seq<nat>, code: seq<nat>, rest: seq<nat>, all: bool, bits: seq<bool>)
    reads c
  {
    && PrefixFree(lengths, code) && AllUsed(lengths, rest)
    && Encoded(lengths, code, rest) <= bits
    && (all <==> ReadsBack(c, lengths, rest, |bits|))
  }

  lemma TrackStep(c: Codebook, lengths: seq<nat>, code: seq<nat>, rest: seq<nat>, all: bool, bits: seq<bool>)
    requires OnTrack(c, lengths, code, rest, all, bits) && rest != []
    ensures PrefixFree(lengths, code) && Used(lengths, rest[0]) && CodeBits(lengths, code, rest[0]) <= bits
    ensures lengths[rest[0]] <= |bits|
    ensures if lengths[rest[0]] <= Held(|bits|) && Reachable(c, lengths, rest[0])
            then OnTrack(c, lengths, code, rest[1..], all, bits[lengths[rest[0]]..])
            else !all
  {
    hide PrefixFree, CodeBits, Held, Reachable;
    var word := CodeBits(lengths, code, rest[0]);
    assert Encoded(lengths, code, rest) == word + Encoded(lengths, code, rest[1..]);
    assert (word + Encoded(lengths, code, rest[1..]))[|word|..] == Encoded(lengths, code, rest[1..]);
  }

  /** One decode; while the list is on track it stays so exactly as long as the decodes are right. */
  method DecodeNext(f: BitReader, c: Codebook, lengths: seq<nat>, ghost code: seq<nat>, ghost right: bool,
                    ghost rest: seq<nat>, ghost all: bool)
    returns (r: int)
    requires f.Valid() && Built(c, lengths, code) && rest != []
    requires right ==> OnTrack(c, lengths, code, rest, all, f.Bits())
    modifies f
    ensures f.Valid()
    ensures right && r == rest[0] ==> OnTrack(c, lengths, code, rest[1..], all, f.Bits())
    ensures right && r != rest[0] ==> !all
  {
    hide Built, PrefixFree, Refilled, CodeBits, Held, OnTrack, Reachable, BitReader.Bits;
    if right {
      TrackStep(c, lengths, code, rest, all, f.Bits());
    }
    RefilledIsHeld(f.validBits, |f.packet|);
    r := Decode(f, c, lengths, code, rest[0]);
  }

  /**
   * As many decodes as there are symbols give back the symbols a packet encodes exactly when each codeword
   * fits the refill at its place and the codebook's tables reach it.
   */
  method DecodeRun(f: BitReader, c: Codebook, lengths: seq<nat>, ghost code: seq<nat>, ghost symbols: seq<nat>, n: nat)
    returns (out: seq<int>)
    requires f.Valid() && Built(c, lengths, code)
    requires AllUsed(lengths, symbols) && n == |symbols|
    requires Encoded(lengths, code, symbols) <= f.Bits()
    modifies f
    ensures f.Valid() && |out| == n
    ensures out == symbols <==> ReadsBack(c, lengths, symbols, |old(f.Bits())|)
  {
    hide Built, PrefixFree, Encoded, ReadsBack, OnTrack, AllUsed, BitReader.Bits, BitReader.Valid;
    ghost var all := ReadsBack(c, lengths, symbols, |f.Bits()|);
    TrackStarts(c, lengths, code, symbols, f.Bits());
    out := [];
    assert symbols[0..] == symbols;
    ghost var right, bad := true, 0;
    for i := 0 to n
      invariant f.Valid() && |out| == i
      invariant right ==> out == symbols[..i] && OnTrack(c, lengths, code, symbols[i..], all, f.Bits())
      invariant !right ==> !all && bad < i && out[bad] != symbols[bad]
    {
      assert symbols[i..][1..] == symbols[i + 1..];
      var r := DecodeNext(f, c, lengths, code, right, symbols[i..], all);
      out := out + [r];
      if right && r != symbols[i] {
        right, bad := false, i;
      }
    }
    if right {
      TrackEnds(c, lengths, code, symbols[n..], all, f.Bits());
    }
  }

  lemma TrackStarts(c: Codebook, lengths: seq<nat>, code: seq<nat>, symbols: seq<nat>, bits: seq<bool>)
    requires Built(c, lengths, code) && AllUsed(lengths, symbols)
    requires Encoded(lengths, code, symbols) <= bits
    ensures OnTrack(c, lengths, code, symbols, ReadsBack(c, lengths, symbols, |bits|), bits)
  {
    hide Encoded, ReadsBack;
  }

  lemma TrackEnds(c: Codebook, lengths: seq<nat>, code: seq<nat>, rest: seq<nat>, all: bool, bits: seq<bool>)
    requires OnTrack(c, lengths, code, rest, all, bits) && rest == []
    ensures all
  {
  }

  /** The packet's bits, least significant first in each byte, begin with these. */
  ghost predicate Holds(packet: seq<u8>, bits: seq<bool>) {
    && |bits| <= 8 * |packet|
    && forall k :: 0 <= k < |bits| ==> (bits[k] <==> packet[k / 8] / Pow2(k % 8) % 2 == 1)
  }

  lemma HeldAreFirst(packet: seq<u8>, c: Codebook, lengths: seq<nat>, code: seq<nat>, symbols: seq<nat>)
    requires Built(c, lengths, code) && AllUsed(lengths, symbols)
    requires Holds(packet, Encoded(lengths, code, symbols))
    ensures Encoded(lengths, code, symbols) <= PacketBits(packet)
  {
    hide PacketBits, Pow2, PrefixFree, Encoded;
    var bits := Encoded(lengths, code, symbols);
    forall k | 0 <= k < |bits|
      ensures bits[k] == PacketBits(packet)[k]
    {
      PacketBit(packet, k);
    }
  }

  /** The decoding of a whole packet: the two-way statement, from the packet's bytes. */
  method DecodePacket(packet: seq<u8>, c: Codebook, lengths: seq<nat>, ghost code: seq<nat>, ghost symbols: seq<nat>,
                      n: nat)
    returns (out: seq<int>)
    requires Built(c, lengths, code) && AllUsed(lengths, symbols) && n == |symbols|
    requires Holds(packet, Encoded(lengths, code, symbols))
    ensures |out| == n && (out == symbols <==> ReadsBack(c, lengths, symbols, 8 * |packet|))
  {
    hide Built, PrefixFree, Encoded, ReadsBack, AllUsed, PacketBits, Holds, Pow2;
    HeldAreFirst(packet, c, lengths, code, symbols);
    var f := new BitReader(packet);
    hide BitReader.Bits, BitReader.Valid;
    out := DecodeRun(f, c, lengths, code, symbols, n);
  }

  /** Codewords of at most 25 bits always fit. */
  lemma {:induction false} ShortReadBack(c: Codebook, lengths: seq<nat>, code: seq<nat>, symbols: seq<nat>, total: int)
    requires PrefixFree(lengths, code) && AllUsed(lengths, symbols) && |Encoded(lengths, code, symbols)| <= total
    requires forall k :: 0 <= k < |symbols| ==> lengths[symbols[k]] <= 25 && Reachable(c, lengths, symbols[k])
    ensures ReadsBack(c, lengths, symbols, total)
    decreases |symbols|
  {
    hide PrefixFree, CodeBits, Reachable;
    if symbols != [] {
      ShortReadBack(c, lengths, code, symbols[1..], total - lengths[symbols[0]]);
    }
  }

  /** Of 40 bits, a codeword of 7 leaves 33, and a refill then holds 25 of them: one of 26 bits is not read. */
  method LongCodewordUnread(f: BitReader, c: Codebook, ghost code: seq<nat>) returns (out: seq<int>)
    requires f.Valid() && Built(c, [7, 26], code) && |f.Bits()| == 40
    requires Encoded([7, 26], code, [0, 1]) <= f.Bits()
    modifies f
    ensures out != [0, 1]
  {
    hide Built, PrefixFree, Encoded, Reachable;
    assert [0, 1][1..] == [1];
    assert !ReadsBack(c, [7, 26], [1], 33);
    assert !ReadsBack(c, [7, 26], [0, 1], 40);
    out := DecodeRun(f, c, [7, 26], code, [0, 1], 2);
  }

  // ---------------------------------------------------------------- building a codebook

  /** The number of symbols a sparse codebook stores, or that the fast table does not hold. */
  method CountListed(sparse: bool, lengths: seq<nat>) returns (k: nat)
    ensures k == |Listed(sparse, lengths, |lengths|)|
  {
    k := 0;
    for i := 0 to |lengths|
      invariant k == |Listed(sparse, lengths, i)|
    {
      if lengths[i] != NO_CODE && (sparse || lengths[i] > FAST_BITS) {
        k := k + 1;
      }
    }
  }

  /** The slots of a finished codebook satisfy what the fast table's builder needs. */
  lemma ShortSlotsFit(lengths: seq<nat>, code: seq<nat>, lens: seq<nat>, words: seq<u32>, symbols: seq<nat>)
    requires PrefixFree(lengths, code) && |lens| == |words| == |symbols|
    requires forall i :: 0 <= i < |lens| && lens[i] <= FAST_BITS ==>
      Used(lengths, symbols[i]) && lens[i] == lengths[symbols[i]] && code[symbols[i]] < SPACE
      && words[i] == Reverse32(code[symbols[i]])
    ensures ShortWordsFit(lens, words)
  {
    hide Reverse32, Pow2;
    forall i | 0 <= i < |lens| && lens[i] <= FAST_BITS
      ensures words[i] < Pow2(lens[i])
    {
      assert IsNode(code[symbols[i]], lengths[symbols[i]]);
      ReversedCodeFits(code[symbols[i]], lens[i]);
    }
  }

  lemma PreparedIsTabled(c: Codebook, lengths: seq<nat>, code: seq<nat>)
    requires Prepared(c, lengths, code) && c.fastHuffman.Length == FAST_SIZE
    requires c.fastHuffman != c.codewordLengths as object
    ensures Tabled(c, Words(c, lengths))
  {
    assert |code| == |lengths|;
    hide PrefixFree, Listed, Reverse32, Pow2;
    var symbols := if c.sparse then Symbols(c) else seq(c.entries, i => i);
    var lens, words := c.codewordLengths[..], Words(c, lengths);
    forall i | 0 <= i < |lens| && lens[i] <= FAST_BITS
      ensures Used(lengths, symbols[i]) && lens[i] == lengths[symbols[i]]
      ensures code[symbols[i]] < SPACE && words[i] == Reverse32(code[symbols[i]])
    {
      if c.sparse {
        assert Included(true, lengths, c.sortedValues[..][i]);
      }
    }
    ShortSlotsFit(lengths, code, lens, words, symbols);
  }

  /** The codewords stored in a non-sparse codebook. */
  lemma WordsOfStored(lengths: seq<nat>, code: seq<nat>, codewords: seq<u32>, codewordLengths: seq<nat>,
                      values: seq<nat>)
    requires Room(false, lengths, |codewords|, |codewordLengths|, |values|) && |code| == |lengths|
    requires Stored(false, lengths, code, codewords, codewordLengths, values)
    ensures WordsStored(lengths, code, codewords)
  {
  }

  /** The sorted tables, when there is anything to sort. */
  method BuildSorted(c: Codebook, lengths: seq<nat>, values: array<nat>, ghost code: seq<nat>)
    requires c.RoomFor(lengths, values) && PrefixFree(lengths, code) && c.Filled(lengths, code, |lengths|, values)
    requires c.sortedEntries == |Listed(c.sparse, lengths, |lengths|)|
    requires c.sortedCodewords == null && c.sortedValues == null
    modifies c, c.codewordLengths
    ensures c.sortedEntries == old(c.sortedEntries)
    ensures c.codewords == old(c.codewords) && c.codewords[..] == old(c.codewords[..])
    ensures c.codewordLengths == old(c.codewordLengths) && c.fastHuffman == old(c.fastHuffman)
    ensures !c.sparse ==> c.codewordLengths[..] == old(c.codewordLengths[..])
    ensures c.sparse ==> c.codewordLengths[..] == LengthsOf(lengths, Symbols(c))
    ensures c.sortedEntries == 0 ==> c.sortedCodewords == null && c.sortedValues == null
    ensures c.sortedEntries > 0 ==>
      && c.sortedCodewords != null && c.sortedValues != null
      && fresh(c.sortedCodewords) && fresh(c.sortedValues)
      && c.sortedEntries < c.sortedCodewords.Length && c.sortedValues.Length == c.sortedEntries
      && SortedOwners(c.sparse, lengths, code, c.sortedCodewords[..c.sortedEntries], c.sortedValues[..])
  {
    ListedRank(lengths, |lengths|);
    hide Stored, PrefixFree, Listed, Reverse32;
    if c.sortedEntries > 0 {
      c.sortedCodewords := new u32[c.sortedEntries + 1];
      c.sortedValues := new nat[c.sortedEntries];
      ghost var owner := ComputeSortedHuffman(c, lengths, values, code);
    }
  }

  /** The tables of a codebook whose codewords are computed. */
  method FinishCodebook(c: Codebook, lengths: seq<nat>, values: array<nat>, ghost code: seq<nat>)
    requires c.RoomFor(lengths, values) && PrefixFree(lengths, code) && c.Filled(lengths, code, |lengths|, values)
    requires c.sortedEntries == |Listed(c.sparse, lengths, |lengths|)|
    requires c.sortedCodewords == null && c.sortedValues == null
    requires c.fastHuffman.Length == FAST_SIZE && c.fastHuffman != c.codewordLengths as object
    requires c.fastHuffman != c.codewords as object?
    requires !c.sparse ==> c.codewordLengths[..] == lengths
    modifies c, c.codewordLengths, c.fastHuffman
    ensures Built(c, lengths, code)
  {
    assert |code| == |lengths|;
    hide PrefixFree, Listed, Reverse32, Stored;
    if !c.sparse {
      WordsOfStored(lengths, code, c.codewords[..], c.codewordLengths[..], values[..]);
    }
    BuildSorted(c, lengths, values, code);
    if c.sparse {
      c.codewords := null;
    }
    PreparedIsTabled(c, lengths, code);
    ghost var words := Words(c, lengths);
    ComputeAcceleratedHuffman(c, words);
  }

  /** From codeword lengths to a finished codebook, as the setup header's reader builds it. */
  method BuildCodebook(lengths: seq<nat>, sparse: bool) returns (ok: bool, c: Codebook, ghost code: seq<nat>)
    requires ValidLengths(lengths)
    ensures ok <==> Kraft(lengths) <= SPACE
    ensures ok ==> Standard(lengths, code) && Built(c, lengths, code)
    ensures ok ==> (c.sparse <==> sparse && |Listed(true, lengths, |lengths|)| < |lengths| / 4)
  {
    hide Kraft, Reverse32, Standard, PrefixFree, Stored;
    var total := CountListed(true, lengths);
    var isSparse := sparse && total < |lengths| / 4;
    var sortedCount := CountListed(isSparse, lengths);
    c := new Codebook(lengths, isSparse, sortedCount);
    ListedRank(lengths, |lengths|);
    var values := new nat[if isSparse then sortedCount else 0];
    ok, code := c.ComputeCodewords(lengths, values);
    if !ok {
      return;
    }
    StandardIsPrefixFree(lengths, code);
    FinishCodebook(c, lengths, values, code);
  }

  lemma TwoOneBitCodewords(lengths: seq<nat>, code: seq<nat>)
    requires lengths == [1, 1] && Standard(lengths, code)
    ensures PrefixFree(lengths, code) && AllUsed(lengths, [1]) && Encoded(lengths, code, [1]) == [true]
  {
    hide CodeBits, Standard, PrefixFree, Pow2, Encoded, AllUsed;
    StandardIsPrefixFree(lengths, code);
    SecondOfTwo(lengths, code);
    EncodedOne(lengths, code, 1);
    SecondIsSet(lengths, code);
  }

  lemma SecondIsSet(lengths: seq<nat>, code: seq<nat>)
    requires lengths == [1, 1] && PrefixFree(lengths, code) && code[1] == 0x8000_0000
    ensures CodeBits(lengths, code, 1) == [true]
  {
    hide CodeBits, PrefixFree, Pow2;
    HalfAndHalf();
    CodeBitAt(lengths, code, 1, 0);
    TrueAlone(CodeBits(lengths, code, 1));
  }

  lemma TrueAlone(b: seq<bool>)
    requires |b| == 1 && b[0]
    ensures b == [true]
  {
  }

  lemma EncodedOne(lengths: seq<nat>, code: seq<nat>, s: nat)
    requires PrefixFree(lengths, code) && Used(lengths, s)
    ensures AllUsed(lengths, [s]) && Encoded(lengths, code, [s]) == CodeBits(lengths, code, s)
  {
    hide PrefixFree, CodeBits;
    assert [s][1..] == [];
  }

  /** The second half of the code space is what the first symbol leaves. */
  lemma SecondOfTwo(lengths: seq<nat>, code: seq<nat>)
    requires lengths == [1, 1] && Standard(lengths, code)
    ensures code[1] == 0x8000_0000
  {
    HalfAndHalf();
    hide Pow2, Size, Kraft, FreeOf;
    assert LowestFree(lengths, code, 0) && LowestFree(lengths, code, 1);
    NothingTaken(lengths, code);
    FirstTaken(lengths, code);
  }

  lemma NothingTaken(lengths: seq<nat>, code: seq<nat>)
    requires lengths == [1, 1] && |code| == 2
    ensures FreeOf(lengths, code, 0, 0, 1)
  {
  }

  lemma FirstTaken(lengths: seq<nat>, code: seq<nat>)
    requires lengths == [1, 1] && |code| == 2 && FreeOf(lengths, code, 1, code[1], 1)
    ensures Disjoint(code[1], 1, code[0], 1)
  {
  }

  lemma HalfAndHalf()
    ensures Size(1) == 0x8000_0000 == Pow2(31) && Kraft([1, 1]) == SPACE
  {
    Pow2Values();
    hide Pow2;
    assert [1, 1][..1] == [1] && [1][..0] == [];
  }

  lemma OneHolds()
    ensures Holds([1], [true])
  {
    assert Pow2(0) == 1;
  }

  /** The byte 1 under two codewords of one bit: its lowest bit comes first, so this is the second symbol. */
  method LowestBitFirst() returns (out: seq<int>)
    ensures out == [1]
  {
    HalfAndHalf();
    hide Kraft, Built, PrefixFree, Encoded, Standard, Pow2;
    var ok, c, code := BuildCodebook([1, 1], false);
    TwoOneBitCodewords([1, 1], code);
    OneHolds();
    assert [1][1..] == [];
    out := DecodePacket([1], c, [1, 1], code, [1], 1);
  }
}
