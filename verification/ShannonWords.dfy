/** The word operations of the cipher, said bit by bit. */
module ShannonWords {
  import opened Bits
  import opened Shannon

  // ---------------------------------------------------------------- the bits of bytes and words

  /** The byte of which only bit i is set. */
  function ByteMask(i: nat): (m: byte)
    requires i < 8
  {
    if i == 0 then 1 else ByteMask(i - 1) << 1
  }

  /** The word of which only bit i is set. */
  function Mask(i: nat): (m: word)
    requires i < 32
  {
    if i == 0 then 1 else Mask(i - 1) << 1
  }

  function And(a: word, b: word): word {
    a & b
  }

  predicate Meets(w: word, m: word) {
    And(w, m) != 0
  }

  /** The bits of a word, least significant first. */
  function WordBits(w: word): (bits: seq<bool>)
    ensures |bits| == 32
  {
    seq(32, i requires 0 <= i < 32 => Meets(w, Mask(i)))
  }

  lemma ByteMaskValues()
    ensures ByteMask(0) == 0x01 && ByteMask(1) == 0x02 && ByteMask(2) == 0x04 && ByteMask(3) == 0x08
    ensures ByteMask(4) == 0x10 && ByteMask(5) == 0x20 && ByteMask(6) == 0x40 && ByteMask(7) == 0x80
  {
  }

  lemma NextByteMask(r: nat)
    requires r < 7
    ensures ByteMask(r + 1) == ByteMask(r) << 1 && ByteMask(r) & 0x80 == 0
  {
    ByteMaskValues();
    hide ByteMask;
    match r
    case 0 => case 1 => case 2 => case 3 => case 4 => case 5 => case 6 =>
  }

  /** Masking a byte selects the bits of its number. */
  lemma ByteBitAt(b: byte, i: nat)
    requires i < 8
    ensures ByteBits(b)[i] <==> BitSet(b, ByteMask(i))
    ensures ByteBits(b)[i] <==> FromByte(b) / Pow2(i) % 2 == 1
  {
    ByteMaskValues();
    hide BitSet, ByteMask, Value, Pow2;
    ValueAt(ByteBits(b), i);
    match i
    case 0 => case 1 => case 2 => case 3 => case 4 => case 5 => case 6 => case 7 =>
  }

  // ---------------------------------------------------------------- where the masks stand

  /** A byte as byte q of a word, the others zero. */
  function Placed(b: byte, q: nat): (w: word)
    requires q < 4
  {
    if q == 0 then b as word
    else if q == 1 then (b as word) << 8
    else if q == 2 then (b as word) << 16
    else (b as word) << 24
  }

  function Doubled(w: word): word {
    w << 1
  }

  lemma PlacedNext(b: byte, q: nat)
    requires q < 4
    ensures b & 0x80 == 0 ==> Placed(b << 1, q) == Doubled(Placed(b, q))
    ensures q < 3 ==> Placed(1, q + 1) == Doubled(Placed(0x80, q))
    ensures Placed(1, 0) == 1
  {
  }

  lemma MaskNext(i: nat)
    requires i < 31
    ensures Mask(0) == 1 && Mask(i + 1) == Doubled(Mask(i))
  {
  }

  lemma PlacedMask(q: nat, r: nat)
    requires q < 4 && r < 8
    ensures r < 7 ==> Placed(ByteMask(r + 1), q) == Doubled(Placed(ByteMask(r), q))
    ensures q < 3 ==> Placed(ByteMask(0), q + 1) == Doubled(Placed(ByteMask(7), q))
    ensures Placed(ByteMask(0), 0) == 1
  {
    ByteMaskValues();
    PlacedNext(ByteMask(r), q);
    hide ByteMask, Placed, Doubled;
    if r < 7 {
      NextByteMask(r);
    }
  }

  lemma {:induction false} MaskAt(q: nat, r: nat)
    requires q < 4 && r < 8
    ensures Mask(8 * q + r) == Placed(ByteMask(r), q)
    decreases q, r
  {
    hide ByteMask, Placed, Mask, Doubled;
    MaskNext(if r > 0 then 8 * q + (r - 1) else if q > 0 then 8 * (q - 1) + 7 else 0);
    if r > 0 {
      MaskAt(q, r - 1);
      PlacedMask(q, r - 1);
    } else if q > 0 {
      MaskAt(q - 1, 7);
      PlacedMask(q - 1, 7);
    } else {
      PlacedMask(0, 0);
    }
  }

  // ---------------------------------------------------------------- bytes in words

  /** Byte q of four. */
  function Pick<T>(q: nat, a: T, b: T, c: T, d: T): T
    requires q < 4
  {
    if q == 0 then a else if q == 1 then b else if q == 2 then c else d
  }

  lemma ReadLeMeets0(b0: byte, b1: byte, b2: byte, b3: byte, m: byte)
    ensures Meets(ReadLe(b0, b1, b2, b3), Placed(m, 0)) <==> BitSet(b0, m)
  {
  }

  lemma ReadLeMeets1(b0: byte, b1: byte, b2: byte, b3: byte, m: byte)
    ensures Meets(ReadLe(b0, b1, b2, b3), Placed(m, 1)) <==> BitSet(b1, m)
  {
  }

  lemma ReadLeMeets2(b0: byte, b1: byte, b2: byte, b3: byte, m: byte)
    ensures Meets(ReadLe(b0, b1, b2, b3), Placed(m, 2)) <==> BitSet(b2, m)
  {
  }

  lemma ReadLeMeets3(b0: byte, b1: byte, b2: byte, b3: byte, m: byte)
    ensures Meets(ReadLe(b0, b1, b2, b3), Placed(m, 3)) <==> BitSet(b3, m)
  {
  }

  lemma ReadLeMeets(b0: byte, b1: byte, b2: byte, b3: byte, q: nat, m: byte)
    requires q < 4
    ensures Meets(ReadLe(b0, b1, b2, b3), Placed(m, q)) <==> BitSet(Pick(q, b0, b1, b2, b3), m)
  {
    hide ReadLe, Placed, Meets, BitSet;
    match q
    case 0 => ReadLeMeets0(b0, b1, b2, b3, m);
    case 1 => ReadLeMeets1(b0, b1, b2, b3, m);
    case 2 => ReadLeMeets2(b0, b1, b2, b3, m);
    case 3 => ReadLeMeets3(b0, b1, b2, b3, m);
  }

  lemma ReadLeBitAt(b0: byte, b1: byte, b2: byte, b3: byte, q: nat, r: nat)
    requires q < 4 && r < 8
    ensures WordBits(ReadLe(b0, b1, b2, b3))[8 * q + r] == ByteBits(Pick(q, b0, b1, b2, b3))[r]
  {
    hide ReadLe, Mask, ByteBits, Placed, ByteMask, Meets, BitSet, Pick;
    MaskAt(q, r);
    ReadLeMeets(b0, b1, b2, b3, q, ByteMask(r));
    ByteBitAt(Pick(q, b0, b1, b2, b3), r);
  }

  /** A word read from four bytes has the bits of the first lowest, and of the last highest. */
  lemma ReadLeBits(b0: byte, b1: byte, b2: byte, b3: byte)
    ensures WordBits(ReadLe(b0, b1, b2, b3)) == ByteBits(b0) + ByteBits(b1) + ByteBits(b2) + ByteBits(b3)
  {
    hide ReadLe, WordBits, ByteBits;
    var w := WordBits(ReadLe(b0, b1, b2, b3));
    forall r: nat | r < 8
      ensures w[r] == ByteBits(b0)[r] && w[8 + r] == ByteBits(b1)[r]
      ensures w[16 + r] == ByteBits(b2)[r] && w[24 + r] == ByteBits(b3)[r]
    {
      ReadLeBitAt(b0, b1, b2, b3, 0, r);
      ReadLeBitAt(b0, b1, b2, b3, 1, r);
      ReadLeBitAt(b0, b1, b2, b3, 2, r);
      ReadLeBitAt(b0, b1, b2, b3, 3, r);
    }
    FourGroups(w, ByteBits(b0), ByteBits(b1), ByteBits(b2), ByteBits(b3));
  }

  lemma FourGroups(w: seq<bool>, a: seq<bool>, b: seq<bool>, c: seq<bool>, d: seq<bool>)
    requires |w| == 32 && |a| == |b| == |c| == |d| == 8
    requires forall r: nat :: r < 8 ==> w[r] == a[r] && w[8 + r] == b[r] && w[16 + r] == c[r] && w[24 + r] == d[r]
    ensures w == a + b + c + d
  {
    assert w[..8] == a && w[8..16] == b && w[16..24] == c && w[24..] == d;
  }

  /** Writing a word gives its bits eight at a time, the lowest first. */
  lemma WriteLeBits(w: word, q: nat)
    requires q < 4
    ensures ByteBits(WriteLe(w)[q]) == WordBits(w)[8 * q..8 * q + 8]
  {
    hide ReadLe, WordBits, ByteBits, ByteAt;
    ReadWrite(w);
    ReadLeBits(ByteAt(w, 0), ByteAt(w, 8), ByteAt(w, 16), ByteAt(w, 24));
  }

  // ---------------------------------------------------------------- exclusive or, turning, and the S-boxes

  predicate Single(m: word) {
    m != 0 && m & (m - 1) == 0
  }

  lemma PlacedSingle(r: nat, q: nat)
    requires r < 8 && q < 4
    ensures Single(Placed(ByteMask(r), q))
  {
    ByteMaskValues();
    hide ByteMask;
    match r
    case 0 => case 1 => case 2 => case 3 => case 4 => case 5 => case 6 => case 7 =>
  }

  lemma MaskSingle(i: nat)
    requires i < 32
    ensures Single(Mask(i))
  {
    hide Mask, Single, Placed, ByteMask;
    var q, r := i / 8, i % 8;
    assert i == 8 * q + r;
    MaskAt(q, r);
    PlacedSingle(r, q);
  }

  function XorEach(a: seq<bool>, b: seq<bool>): (c: seq<bool>)
    requires |a| == |b|
    ensures |c| == |a|
  {
    seq(|a|, i requires 0 <= i < |a| => a[i] != b[i])
  }

  function OrEach(a: seq<bool>, b: seq<bool>): (c: seq<bool>)
    requires |a| == |b|
    ensures |c| == |a|
  {
    seq(|a|, i requires 0 <= i < |a| => a[i] || b[i])
  }

  /** The bits d places further up, those at the top coming round to the bottom. */
  function Turned(b: seq<bool>, d: nat): (c: seq<bool>)
    requires d <= |b|
    ensures |c| == |b|
  {
    b[|b| - d..] + b[..|b| - d]
  }

  lemma AndSingle(a: word, m: word)
    requires Single(m)
    ensures And(a, m) == 0 || And(a, m) == m
  {
  }

  lemma AndXor(a: word, b: word, m: word)
    ensures And(a ^ b, m) == And(a, m) ^ And(b, m)
  {
  }

  lemma AndOr(a: word, b: word, m: word)
    ensures And(a | b, m) == And(a, m) | And(b, m)
  {
  }

  lemma ZeroOrOne(x: word, y: word, m: word)
    requires m != 0 && (x == 0 || x == m) && (y == 0 || y == m)
    ensures x ^ y != 0 <==> ((x != 0) != (y != 0))
  {
  }

  lemma XorMeets(a: word, b: word, m: word)
    requires Single(m)
    ensures Meets(Shannon.Xor(a, b), m) <==> (Meets(a, m) != Meets(b, m))
  {
    hide And;
    AndXor(a, b, m);
    AndSingle(a, m);
    AndSingle(b, m);
    ZeroOrOne(And(a, m), And(b, m), m);
  }

  lemma OrMeets(a: word, b: word, m: word)
    ensures Meets(OrWord(a, b), m) <==> Meets(a, m) || Meets(b, m)
  {
    hide And;
    AndOr(a, b, m);
  }

  /** A bit of an exclusive or is set when those of the two words differ. */
  lemma XorWordBits(a: word, b: word)
    ensures WordBits(Shannon.Xor(a, b)) == XorEach(WordBits(a), WordBits(b))
  {
    hide Shannon.Xor, Meets, Mask, Single;
    forall i | 0 <= i < 32
      ensures Meets(Shannon.Xor(a, b), Mask(i)) <==> (Meets(a, Mask(i)) != Meets(b, Mask(i)))
    {
      MaskSingle(i);
      XorMeets(a, b, Mask(i));
    }
  }

  lemma OrWordBits(a: word, b: word)
    ensures WordBits(OrWord(a, b)) == OrEach(WordBits(a), WordBits(b))
  {
    hide OrWord, Meets, Mask;
    forall i | 0 <= i < 32
      ensures Meets(OrWord(a, b), Mask(i)) <==> Meets(a, Mask(i)) || Meets(b, Mask(i))
    {
      OrMeets(a, b, Mask(i));
    }
  }

  lemma TurnMeets(w: word, m: word)
    ensures Meets(Rotl(w, 1), Rotl(m, 1)) <==> Meets(w, m)
  {
  }

  lemma DoubledIsTurned(b: byte, q: nat)
    requires q < 4 && (q < 3 || b & 0x80 == 0)
    ensures Rotl(Placed(b, q), 1) == Doubled(Placed(b, q))
    ensures Rotl(Placed(0x80, 3), 1) == 1
  {
  }

  lemma MaskTurns(i: nat)
    requires i < 32
    ensures Rotl(Mask(i), 1) == Mask(if i == 31 then 0 else i + 1)
  {
    hide Mask, Placed, ByteMask, Rotl, Doubled;
    var q, r := i / 8, i % 8;
    assert i == 8 * q + r;
    MaskAt(q, r);
    ByteMaskValues();
    if i < 31 {
      if q == 3 {
        NextByteMask(r);
      }
      DoubledIsTurned(ByteMask(r), q);
      MaskNext(i);
    } else {
      DoubledIsTurned(0, 0);
      MaskNext(0);
    }
  }

  lemma TurnOneAt(w: word, i: nat)
    requires i < 32
    ensures WordBits(Rotl(w, 1))[if i == 31 then 0 else i + 1] == WordBits(w)[i]
  {
    hide Mask, Meets, Rotl;
    MaskTurns(i);
    TurnMeets(w, Mask(i));
  }

  lemma TurnOne(w: word)
    ensures WordBits(Rotl(w, 1)) == Turned(WordBits(w), 1)
  {
    hide WordBits, Rotl;
    var b, t := WordBits(w), WordBits(Rotl(w, 1));
    TurnOneAt(w, 31);
    forall i | 1 <= i < 32
      ensures t[i] == b[i - 1]
    {
      TurnOneAt(w, i - 1);
    }
  }

  /** Turning again goes on from where the last turn ended. */
  lemma TurnedTwice(b: seq<bool>, d: nat, e: nat)
    requires |b| == 32 && d + e <= 32
    ensures Turned(Turned(b, d), e) == Turned(b, d + e)
  {
    var t := Turned(b, d);
    forall i | 0 <= i < 32
      ensures Turned(t, e)[i] == Turned(b, d + e)[i]
    {
    }
  }

  lemma RotlTo4(w: word)
    ensures Rotl(Rotl(w, 1), 1) == Rotl(w, 2) && Rotl(Rotl(w, 2), 2) == Rotl(w, 4)
  {
  }

  lemma RotlTo7(w: word)
    ensures Rotl(Rotl(w, 4), 1) == Rotl(w, 5) && Rotl(Rotl(w, 5), 2) == Rotl(w, 7)
  {
  }

  lemma RotlTo19(w: word)
    ensures Rotl(Rotl(w, 7), 7) == Rotl(w, 14) && Rotl(Rotl(w, 14), 5) == Rotl(w, 19)
  {
  }

  lemma RotlTo22(w: word)
    ensures Rotl(Rotl(w, 19), 2) == Rotl(w, 21) && Rotl(Rotl(w, 21), 1) == Rotl(w, 22)
  {
  }

  lemma Turn2(w: word)
    ensures WordBits(Rotl(w, 2)) == Turned(WordBits(w), 2)
  {
    hide Rotl, WordBits, Turned;
    RotlTo4(w);
    TurnOne(w);
    TurnOne(Rotl(w, 1));
    TurnedTwice(WordBits(w), 1, 1);
  }

  lemma Turn5(w: word)
    ensures WordBits(Rotl(w, 5)) == Turned(WordBits(w), 5)
  {
    hide Rotl, WordBits, Turned;
    RotlTo4(w);
    RotlTo7(w);
    Turn2(w);
    Turn2(Rotl(w, 2));
    TurnOne(Rotl(w, 4));
    TurnedTwice(WordBits(w), 2, 2);
    TurnedTwice(WordBits(w), 4, 1);
  }

  lemma Turn7(w: word)
    ensures WordBits(Rotl(w, 7)) == Turned(WordBits(w), 7)
  {
    hide Rotl, WordBits, Turned;
    RotlTo7(w);
    Turn5(w);
    Turn2(Rotl(w, 5));
    TurnedTwice(WordBits(w), 5, 2);
  }

  lemma Turn19(w: word)
    ensures WordBits(Rotl(w, 19)) == Turned(WordBits(w), 19)
  {
    hide Rotl, WordBits, Turned;
    RotlTo19(w);
    Turn7(w);
    Turn7(Rotl(w, 7));
    Turn5(Rotl(w, 14));
    TurnedTwice(WordBits(w), 7, 7);
    TurnedTwice(WordBits(w), 14, 5);
  }

  lemma Turn22(w: word)
    ensures WordBits(Rotl(w, 22)) == Turned(WordBits(w), 22)
  {
    hide Rotl, WordBits, Turned;
    RotlTo22(w);
    Turn19(w);
    Turn2(Rotl(w, 19));
    TurnOne(Rotl(w, 21));
    TurnedTwice(WordBits(w), 19, 2);
    TurnedTwice(WordBits(w), 21, 1);
  }

  /** Each bit is changed where either of two turned copies has one; and the result once more with two other turns. */
  function SboxBits(b: seq<bool>, p: nat, q: nat, r: nat, s: nat): (c: seq<bool>)
    requires |b| == 32 && p <= 32 && q <= 32 && r <= 32 && s <= 32
    ensures |c| == 32
  {
    var m := XorEach(b, OrEach(Turned(b, p), Turned(b, q)));
    XorEach(m, OrEach(Turned(m, r), Turned(m, s)))
  }

  lemma HalfSbox(w: word, x: word, y: word)
    ensures WordBits(Shannon.Xor(w, OrWord(x, y))) == XorEach(WordBits(w), OrEach(WordBits(x), WordBits(y)))
  {
    hide Shannon.Xor, OrWord, WordBits;
    XorWordBits(w, OrWord(x, y));
    OrWordBits(x, y);
  }

  /** The first S-box turns by 5 and 7, then by 19 and 22. */
  lemma Sbox1Bits(w: word)
    ensures WordBits(Sbox1(w)) == SboxBits(WordBits(w), 5, 7, 19, 22)
  {
    hide Shannon.Xor, OrWord, Rotl, WordBits, XorEach, OrEach, Turned;
    var m := Shannon.Xor(w, OrWord(Rotl(w, 5), Rotl(w, 7)));
    Turn5(w);
    Turn7(w);
    HalfSbox(w, Rotl(w, 5), Rotl(w, 7));
    Turn19(m);
    Turn22(m);
    HalfSbox(m, Rotl(m, 19), Rotl(m, 22));
  }

  /** The second turns by 7 and 22, then by 5 and 19. */
  lemma Sbox2Bits(w: word)
    ensures WordBits(Sbox2(w)) == SboxBits(WordBits(w), 7, 22, 5, 19)
  {
    hide Shannon.Xor, OrWord, Rotl, WordBits, XorEach, OrEach, Turned;
    var m := Shannon.Xor(w, OrWord(Rotl(w, 7), Rotl(w, 22)));
    Turn7(w);
    Turn22(w);
    HalfSbox(w, Rotl(w, 7), Rotl(w, 22));
    Turn5(m);
    Turn19(m);
    HalfSbox(m, Rotl(m, 5), Rotl(m, 19));
  }

  // ---------------------------------------------------------------- bytes

  /** A byte is deciphered or enciphered bit by bit. */
  lemma XorByteBits(a: byte, b: byte)
    ensures ByteBits(XorByte(a, b)) == XorEach(ByteBits(a), ByteBits(b))
  {
    hide ByteBits, XorByte, BitSet, ByteMask;
    forall i | 0 <= i < 8
      ensures ByteBits(XorByte(a, b))[i] == (ByteBits(a)[i] != ByteBits(b)[i])
    {
      ByteBitAt(a, i);
      ByteBitAt(b, i);
      ByteBitAt(XorByte(a, b), i);
      XorBitSet(a, b, i);
    }
  }

  lemma XorBitSet(a: byte, b: byte, i: nat)
    requires i < 8
    ensures BitSet(XorByte(a, b), ByteMask(i)) <==> (BitSet(a, ByteMask(i)) != BitSet(b, ByteMask(i)))
  {
    ByteMaskValues();
    hide ByteMask;
    match i
    case 0 => case 1 => case 2 => case 3 => case 4 => case 5 => case 6 => case 7 =>
  }

  /** A length's word has the low 32 bits of the length. */
  lemma Low32Bits(n: nat)
    ensures WordBits(Low32(n)) == ToBits(n, 32)
  {
    hide ReadLe, WordBits, ToByte, ByteBits, ToBits;
    ReadLeBits(ToByte(n), ToByte(n / 0x100), ToByte(n / 0x1_0000), ToByte(n / 0x100_0000));
    LowByte(n, 24);
    LowByte(n / 0x100, 16);
    LowByte(n / 0x1_0000, 8);
    LowByte(n / 0x100_0000, 0);
    assert n / 0x100 / 0x100 == n / 0x1_0000 && n / 0x1_0000 / 0x100 == n / 0x100_0000;
    EmptyBits(n / 0x100_0000 / 0x100);
  }

  lemma LowByte(n: nat, k: nat)
    ensures ToBits(n, 8 + k) == ByteBits(ToByte(n)) + ToBits(n / 0x100, k)
  {
    hide ToBits, ToByte, ByteBits, Pow2;
    Pow2Values();
    MaskAndShift(n, 8, k);
    LowBits(n);
    BitsOfToByte(n);
  }

  lemma EmptyBits(n: nat)
    ensures ToBits(n, 0) == []
  {
  }
}
