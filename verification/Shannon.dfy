/** The Shannon stream cipher with its message authentication code. */
module Shannon {
  import opened Bits
  import opened Chunks

  type byte = bv8
  type word = bv32

  const INITKONST: word := 0x6996c53a
  const N: nat := 16
  const KEYP: nat := 13

  // ---------------------------------------------------------------- words and bytes

  function Rotl(w: word, x: word): word
    requires 0 < x < 32
  {
    (w << x) | (w >> (32 - x))
  }

  function Xor(a: word, b: word): word {
    a ^ b
  }

  function XorByte(a: byte, b: byte): byte {
    a ^ b
  }

  /** A byte from its eight bits, least significant first. */
  function FromBits(b0: bool, b1: bool, b2: bool, b3: bool, b4: bool, b5: bool, b6: bool, b7: bool): byte {
    (if b0 then 0x01 else 0) | (if b1 then 0x02 else 0) | (if b2 then 0x04 else 0) | (if b3 then 0x08 else 0) |
    (if b4 then 0x10 else 0) | (if b5 then 0x20 else 0) | (if b6 then 0x40 else 0) | (if b7 then 0x80 else 0)
  }

  predicate BitSet(b: byte, mask: byte) {
    b & mask != 0
  }

  lemma BitsOfByte(b0: bool, b1: bool, b2: bool, b3: bool, b4: bool, b5: bool, b6: bool, b7: bool)
    ensures var b := FromBits(b0, b1, b2, b3, b4, b5, b6, b7);
      && BitSet(b, 0x01) == b0 && BitSet(b, 0x02) == b1 && BitSet(b, 0x04) == b2 && BitSet(b, 0x08) == b3
      && BitSet(b, 0x10) == b4 && BitSet(b, 0x20) == b5 && BitSet(b, 0x40) == b6 && BitSet(b, 0x80) == b7
  {
  }

  /** The low eight bits of a number, as a byte. */
  function ToByte(x: nat): byte {
    var b := ToBits(x, 8);
    FromBits(b[0], b[1], b[2], b[3], b[4], b[5], b[6], b[7])
  }

  /** The bits of a byte, least significant first. */
  function ByteBits(b: byte): (bits: seq<bool>)
    ensures |bits| == 8
  {
    [BitSet(b, 0x01), BitSet(b, 0x02), BitSet(b, 0x04), BitSet(b, 0x08),
     BitSet(b, 0x10), BitSet(b, 0x20), BitSet(b, 0x40), BitSet(b, 0x80)]
  }

  /** A byte's number. */
  function FromByte(b: byte): (x: nat)
    ensures x < 256
  {
    ValueBound(ByteBits(b));
    Pow2Values();
    Value(ByteBits(b))
  }

  lemma BitsOfToByte(x: nat)
    ensures ByteBits(ToByte(x)) == ToBits(x, 8)
  {
    hide ToBits, FromBits, BitSet;
    var b := ToBits(x, 8);
    BitsOfByte(b[0], b[1], b[2], b[3], b[4], b[5], b[6], b[7]);
    EightElements(b);
  }

  lemma EightElements<T>(b: seq<T>)
    requires |b| == 8
    ensures b == [b[0], b[1], b[2], b[3], b[4], b[5], b[6], b[7]]
  {
  }

  lemma LowBits(x: nat)
    ensures ToBits(x, 8) == ToBits(x % 256, 8)
  {
    hide ToBits, Pow2;
    Pow2Values();
    MaskAndShift(x, 8, 0);
    assert ToBits(x, 8 + 0)[..8] == ToBits(x, 8);
  }

  lemma ByteRoundTrip(x: nat)
    ensures FromByte(ToByte(x)) == x % 256
  {
    hide ToBits, Value, Pow2, ToByte, ByteBits;
    BitsOfToByte(x);
    Pow2Values();
    LowBits(x);
    ValueOfBits(x % 256, 8);
  }

  /** A plaintext byte, k bits up, joins the buffered word. */
  function Buffered(mbuf: word, p: byte, k: word): word
    requires k < 32
  {
    mbuf ^ ((p as word) << k)
  }

  function OrWord(a: word, b: word): word {
    a | b
  }

  function Sbox1(w: word): word {
    var w := Xor(w, OrWord(Rotl(w, 5), Rotl(w, 7)));
    Xor(w, OrWord(Rotl(w, 19), Rotl(w, 22)))
  }

  function Sbox2(w: word): word {
    var w := Xor(w, OrWord(Rotl(w, 7), Rotl(w, 22)));
    Xor(w, OrWord(Rotl(w, 5), Rotl(w, 19)))
  }

  function ReadLe(b0: byte, b1: byte, b2: byte, b3: byte): word {
    (b0 as word) | ((b1 as word) << 8) | ((b2 as word) << 16) | ((b3 as word) << 24)
  }

  /** The byte of w that starts k bits up. */
  function ByteAt(w: word, k: word): byte
    requires k < 32
  {
    ((w >> k) & 0xff) as byte
  }

  function WriteLe(w: word): (b: seq<byte>)
    ensures |b| == 4
  {
    [ByteAt(w, 0), ByteAt(w, 8), ByteAt(w, 16), ByteAt(w, 24)]
  }

  /** Xoring a word is xoring its bytes. */
  lemma XorByte0(b0: byte, b1: byte, b2: byte, b3: byte, s: word)
    ensures ByteAt(Xor(ReadLe(b0, b1, b2, b3), s), 0) == XorByte(b0, ByteAt(s, 0))
  {
  }

  lemma XorByte1(b0: byte, b1: byte, b2: byte, b3: byte, s: word)
    ensures ByteAt(Xor(ReadLe(b0, b1, b2, b3), s), 8) == XorByte(b1, ByteAt(s, 8))
  {
  }

  lemma XorByte2(b0: byte, b1: byte, b2: byte, b3: byte, s: word)
    ensures ByteAt(Xor(ReadLe(b0, b1, b2, b3), s), 16) == XorByte(b2, ByteAt(s, 16))
  {
  }

  lemma XorByte3(b0: byte, b1: byte, b2: byte, b3: byte, s: word)
    ensures ByteAt(Xor(ReadLe(b0, b1, b2, b3), s), 24) == XorByte(b3, ByteAt(s, 24))
  {
  }

  lemma ReadWrite(w: word)
    ensures ReadLe(ByteAt(w, 0), ByteAt(w, 8), ByteAt(w, 16), ByteAt(w, 24)) == w
  {
  }

  lemma Displays<T>(a: T, b: T, c: T, d: T)
    ensures [a] + [b] == [a, b] && [a, b] + [c] == [a, b, c] && [a, b, c] + [d] == [a, b, c, d]
  {
  }

  /** Four bytes xored into an empty word, eight bits apart, are the word read from them. */
  lemma GatherBytes(b0: byte, b1: byte, b2: byte, b3: byte)
    ensures ((((0 as word) ^ ((b0 as word) << 0)) ^ ((b1 as word) << 8)) ^ ((b2 as word) << 16)) ^ ((b3 as word) << 24)
            == ReadLe(b0, b1, b2, b3)
  {
  }

  lemma XorTwice(b: byte, k: byte)
    ensures XorByte(XorByte(b, k), k) == b
  {
  }

  // ---------------------------------------------------------------- the cipher as a function of its state

  /** The register after one clock of the cipher. */
  function CycleR(r: seq<word>, konst: word): (r': seq<word>)
    requires |r| == N
    ensures |r'| == N
  {
    var t := Xor(Sbox1(Xor(Xor(r[12], r[13]), konst)), Rotl(r[0], 1));
    var s := r[1..] + [t];
    s[0 := Xor(s[0], Sbox2(Xor(s[2], s[15])))]
  }

  /** The keystream word of a register that has just been clocked. */
  function Output(r: seq<word>): word
    requires |r| == N
  {
    Xor(Xor(Sbox2(Xor(r[2], r[15])), r[8]), r[12])
  }

  function Diffuse(r: seq<word>, konst: word, n: nat): (r': seq<word>)
    requires |r| == N
    ensures |r'| == N
  {
    if n == 0 then r else CycleR(Diffuse(r, konst, n - 1), konst)
  }

  function Mix(r: seq<word>, i: word): (r': seq<word>)
    requires |r| == N
    ensures |r'| == N
  {
    r[KEYP := Xor(r[KEYP], i)]
  }

  function CrcStep(crc: seq<word>, i: word): (crc': seq<word>)
    requires |crc| == N
    ensures |crc'| == N
  {
    crc[1..] + [Xor(Xor(Xor(crc[0], crc[2]), crc[15]), i)]
  }

  function XorAll(r: seq<word>, c: seq<word>): (x: seq<word>)
    requires |r| == |c| == N
    ensures |x| == N
  {
    seq(N, i requires 0 <= i < N => Xor(r[i], c[i]))
  }

  /** Everything a packet's bytes depend on; bits of an unfinished word are buffered in mbuf, nbuf to go. */
  datatype State = State(r: seq<word>, crc: seq<word>, konst: word, sbuf: word, mbuf: word, nbuf: word) {
    predicate Valid() {
      |r| == N && |crc| == N && (nbuf == 0 || nbuf == 8 || nbuf == 16 || nbuf == 24)
    }

    /** The state with the byte buffer cleared when it holds nothing: no operation looks at it then. */
    function Normal(): State {
      if nbuf == 0 then this.(mbuf := 0) else this
    }
  }

  function Cycle(s: State): (s': State)
    requires |s.r| == N
    ensures |s'.r| == N && s'.crc == s.crc && s'.nbuf == s.nbuf
  {
    var r := CycleR(s.r, s.konst);
    s.(r := r, sbuf := Output(r))
  }

  function MacFunc(s: State, i: word): (s': State)
    requires |s.r| == |s.crc| == N
    ensures |s'.r| == |s'.crc| == N && s'.nbuf == s.nbuf
  {
    s.(crc := CrcStep(s.crc, i), r := Mix(s.r, i))
  }

  /** A new keystream word when the last is used up. */
  function Ready(s: State): (s': State)
    requires s.Valid()
    ensures |s'.r| == |s'.crc| == N && (s'.nbuf == 8 || s'.nbuf == 16 || s'.nbuf == 24 || s'.nbuf == 32)
  {
    if s.nbuf == 0 then Cycle(s).(mbuf := 0, nbuf := 32) else s
  }

  function KeyByte(s: State): byte
    requires 0 < s.nbuf <= 32
  {
    ByteAt(s.sbuf, 32 - s.nbuf)
  }

  /** The MAC takes a plaintext byte, and works on it when it completes a word. */
  function Feed(s: State, p: byte): (s': State)
    requires |s.r| == |s.crc| == N && (s.nbuf == 8 || s.nbuf == 16 || s.nbuf == 24 || s.nbuf == 32)
    ensures s'.Valid()
  {
    var s1 := s.(mbuf := Buffered(s.mbuf, p, 32 - s.nbuf), nbuf := s.nbuf - 8);
    if s1.nbuf == 0 then MacFunc(s1, s1.mbuf).(mbuf := 0) else s1
  }

  function StepByte(enc: bool, s: State, b: byte): (o: (State, byte))
    requires s.Valid()
    ensures o.0.Valid()
  {
    var s1 := Ready(s);
    var c := XorByte(b, KeyByte(s1));
    (Feed(s1, if enc then b else c), c)
  }

  function Run(enc: bool, s: State, b: seq<byte>): (o: (State, seq<byte>))
    requires s.Valid()
    ensures o.0.Valid() && |o.1| == |b|
  {
    if b == [] then (s, [])
    else
      var k := |b| - 1;
      var (s1, out) := Run(enc, s, b[..k]);
      var (s2, c) := StepByte(enc, s1, b[k]);
      (s2, out + [c])
  }

  /** Splitting the bytes does not matter. */
  lemma {:induction false} RunSplit(enc: bool, s: State, a: seq<byte>, b: seq<byte>)
    requires s.Valid()
    ensures var (s1, o1) := Run(enc, s, a);
      var (s2, o2) := Run(enc, s1, b);
      Run(enc, s, a + b) == (s2, o1 + o2)
  {
    hide StepByte;
    var o1 := Run(enc, s, a).1;
    if b == [] {
      assert a + b == a;
      assert o1 + [] == o1;
    } else {
      var k := |b| - 1;
      RunSplit(enc, s, a, b[..k]);
      assert (a + b)[..|a + b| - 1] == a + b[..k];
      var (s1, o) := Run(enc, Run(enc, s, a).0, b[..k]);
      var c := StepByte(enc, s1, b[k]).1;
      assert (o1 + o) + [c] == o1 + (o + [c]);
    }
  }

  /** One call after another on the pieces of a buffer. */
  function RunEach(enc: bool, s: State, pieces: seq<seq<byte>>): (o: (State, seq<byte>))
    requires s.Valid()
    decreases |pieces|
  {
    hide Run;
    if pieces == [] then (s, [])
    else
      var (s1, out) := Run(enc, s, pieces[0]);
      var (s2, more) := RunEach(enc, s1, pieces[1..]);
      (s2, out + more)
  }

  /** Any number of calls on any pieces do what one call on the whole does. */
  lemma {:induction false} PiecesAreWhole(enc: bool, s: State, pieces: seq<seq<byte>>)
    requires s.Valid()
    ensures RunEach(enc, s, pieces) == Run(enc, s, Concat(pieces))
    decreases |pieces|
  {
    hide StepByte;
    if pieces != [] {
      hide Run;
      var (s1, out) := Run(enc, s, pieces[0]);
      PiecesAreWhole(enc, s1, pieces[1..]);
      RunSplit(enc, s, pieces[0], Concat(pieces[1..]));
    }
  }

  lemma RunSnoc(enc: bool, s: State, a: seq<byte>, b: byte)
    requires s.Valid()
    ensures var (s1, o1) := Run(enc, s, a);
      var (s2, c) := StepByte(enc, s1, b);
      Run(enc, s, a + [b]) == (s2, o1 + [c])
  {
  }

  /** Decryption undoes encryption and follows the same states. */
  lemma {:induction false} RunInverse(s: State, b: seq<byte>)
    requires s.Valid()
    ensures Run(false, s, Run(true, s, b).1) == (Run(true, s, b).0, b)
  {
    hide StepByte;
    if b != [] {
      var k := |b| - 1;
      RunInverse(s, b[..k]);
      var (s1, out) := Run(true, s, b[..k]);
      StepInverse(s1, b[k]);
      var c := StepByte(true, s1, b[k]).1;
      RunSnoc(false, s, out, c);
      assert b[..k] + [b[k]] == b;
    }
  }

  /** And encryption undoes decryption. */
  lemma {:induction false} RunInverseBack(s: State, c: seq<byte>)
    requires s.Valid()
    ensures Run(true, s, Run(false, s, c).1) == (Run(false, s, c).0, c)
  {
    hide StepByte;
    if c != [] {
      var k := |c| - 1;
      RunInverseBack(s, c[..k]);
      var (s1, out) := Run(false, s, c[..k]);
      StepInverse(s1, c[k]);
      var b := StepByte(false, s1, c[k]).1;
      RunSnoc(true, s, out, b);
      assert c[..k] + [c[k]] == c;
    }
  }

  lemma StepInverse(s: State, b: byte)
    requires s.Valid()
    ensures StepByte(false, s, StepByte(true, s, b).1) == (StepByte(true, s, b).0, b)
    ensures StepByte(true, s, StepByte(false, s, b).1) == (StepByte(false, s, b).0, b)
  {
  }

  lemma RunOne(enc: bool, s: State, b: byte)
    requires s.Valid()
    ensures Run(enc, s, [b]) == (StepByte(enc, s, b).0, [StepByte(enc, s, b).1])
  {
    hide StepByte;
    RunSnoc(enc, s, [], b);
    var c := StepByte(enc, s, b).1;
    assert [] + [b] == [b] && [] + [c] == [c];
  }

  /** Four bytes, one after the other. */
  lemma RunFour(enc: bool, s: State, s1: State, s2: State, s3: State, s4: State,
                b0: byte, b1: byte, b2: byte, b3: byte, c0: byte, c1: byte, c2: byte, c3: byte)
    requires s.Valid() && s1.Valid() && s2.Valid() && s3.Valid()
    requires StepByte(enc, s, b0) == (s1, c0) && StepByte(enc, s1, b1) == (s2, c1)
    requires StepByte(enc, s2, b2) == (s3, c2) && StepByte(enc, s3, b3) == (s4, c3)
    ensures Run(enc, s, [b0, b1, b2, b3]) == (s4, [c0, c1, c2, c3])
  {
    hide StepByte, Run;
    Displays(c0, c1, c2, c3);
    Displays(b0, b1, b2, b3);
    RunOne(enc, s, b0);
    RunSnoc(enc, s, [b0], b1);
    RunSnoc(enc, s, [b0, b1], b2);
    RunSnoc(enc, s, [b0, b1, b2], b3);
  }

  /** The MAC of four plaintext bytes is the MAC of their word. */
  lemma FeedFour(s: State, p0: byte, p1: byte, p2: byte, p3: byte)
    requires |s.r| == |s.crc| == N && s.mbuf == 0 && s.nbuf == 32
    ensures
      var f1 := Feed(s, p0);
      var f2 := Feed(f1, p1);
      var f3 := Feed(f2, p2);
      && f1.nbuf == 24 && f2.nbuf == 16 && f3.nbuf == 8
      && f1.sbuf == f2.sbuf == f3.sbuf == s.sbuf
      && Feed(f3, p3) == MacFunc(s, ReadLe(p0, p1, p2, p3)).(mbuf := 0, nbuf := 0)
  {
    hide ReadLe;
    GatherBytes(p0, p1, p2, p3);
  }

  /** Input byte b, under the keystream byte k bits up in ks, has output c and plaintext p. */
  predicate Ciphers(enc: bool, ks: word, k: word, b: byte, c: byte, p: byte)
    requires k < 32
  {
    c == XorByte(b, ByteAt(ks, k)) && p == if enc then b else c
  }

  /** A byte in the middle of a word. */
  lemma StepInWord(enc: bool, s: State, k: word, b: byte, c: byte, p: byte)
    requires s.Valid() && s.nbuf != 0 && k == 32 - s.nbuf
    requires Ciphers(enc, s.sbuf, k, b, c, p)
    ensures StepByte(enc, s, b) == (Feed(s, p), c)
  {
    hide Feed, ByteAt;
  }

  lemma StepAtWord(enc: bool, s: State, b: byte, c: byte, p: byte)
    requires s.Valid() && s.nbuf == 0
    requires Ciphers(enc, Cycle(s).sbuf, 0, b, c, p)
    ensures StepByte(enc, s, b) == (Feed(Cycle(s).(mbuf := 0, nbuf := 32), p), c)
  {
    hide Feed, Cycle, ByteAt;
  }

  /** The outputs and the plaintext of a word's four bytes, and the words they make. */
  lemma PlainWord(enc: bool, b0: byte, b1: byte, b2: byte, b3: byte, ks: word)
    returns (c0: byte, c1: byte, c2: byte, c3: byte, p0: byte, p1: byte, p2: byte, p3: byte)
    ensures Ciphers(enc, ks, 0, b0, c0, p0) && Ciphers(enc, ks, 8, b1, c1, p1)
    ensures Ciphers(enc, ks, 16, b2, c2, p2) && Ciphers(enc, ks, 24, b3, c3, p3)
    ensures WriteLe(Xor(ReadLe(b0, b1, b2, b3), ks)) == [c0, c1, c2, c3]
    ensures ReadLe(p0, p1, p2, p3) == if enc then ReadLe(b0, b1, b2, b3) else Xor(ReadLe(b0, b1, b2, b3), ks)
  {
    hide ReadLe, ByteAt, Ciphers, Xor;
    var w := Xor(ReadLe(b0, b1, b2, b3), ks);
    c0, c1, c2, c3 := ByteAt(w, 0), ByteAt(w, 8), ByteAt(w, 16), ByteAt(w, 24);
    p0, p1, p2, p3 := if enc then b0 else c0, if enc then b1 else c1, if enc then b2 else c2, if enc then b3 else c3;
    CiphersWord(enc, b0, b1, b2, b3, ks);
    ReadWrite(w);
  }

  lemma CiphersWord(enc: bool, b0: byte, b1: byte, b2: byte, b3: byte, ks: word)
    ensures var w := Xor(ReadLe(b0, b1, b2, b3), ks);
      && Ciphers(enc, ks, 0, b0, ByteAt(w, 0), if enc then b0 else ByteAt(w, 0))
      && Ciphers(enc, ks, 8, b1, ByteAt(w, 8), if enc then b1 else ByteAt(w, 8))
      && Ciphers(enc, ks, 16, b2, ByteAt(w, 16), if enc then b2 else ByteAt(w, 16))
      && Ciphers(enc, ks, 24, b3, ByteAt(w, 24), if enc then b3 else ByteAt(w, 24))
  {
    hide ReadLe, ByteAt, Xor, XorByte;
    XorByte0(b0, b1, b2, b3, ks);
    XorByte1(b0, b1, b2, b3, ks);
    XorByte2(b0, b1, b2, b3, ks);
    XorByte3(b0, b1, b2, b3, ks);
  }

  /** The MAC does not look at the byte buffer. */
  lemma MacFuncOnly(s: State, w: word)
    requires |s.r| == |s.crc| == N
    ensures MacFunc(s.(mbuf := 0, nbuf := 32), w).(mbuf := 0, nbuf := 0) == MacFunc(s, w).(mbuf := 0, nbuf := 0)
  {
    hide CrcStep, Mix;
  }

  /** Four bytes from a word boundary: outputs c, plaintext p. */
  lemma FourSteps(enc: bool, s: State, b0: byte, b1: byte, b2: byte, b3: byte,
                  c0: byte, c1: byte, c2: byte, c3: byte, p0: byte, p1: byte, p2: byte, p3: byte)
    requires s.Valid() && s.nbuf == 0
    requires Ciphers(enc, Cycle(s).sbuf, 0, b0, c0, p0) && Ciphers(enc, Cycle(s).sbuf, 8, b1, c1, p1)
    requires Ciphers(enc, Cycle(s).sbuf, 16, b2, c2, p2) && Ciphers(enc, Cycle(s).sbuf, 24, b3, c3, p3)
    ensures Run(enc, s, [b0, b1, b2, b3]) ==
      (MacFunc(Cycle(s), ReadLe(p0, p1, p2, p3)).(mbuf := 0, nbuf := 0), [c0, c1, c2, c3])
  {
    hide Cycle, Run, ReadLe, Ciphers, Feed, StepByte, MacFunc;
    var s1 := Cycle(s).(mbuf := 0, nbuf := 32);
    FeedFour(s1, p0, p1, p2, p3);
    var f1 := Feed(s1, p0);
    var f2 := Feed(f1, p1);
    var f3 := Feed(f2, p2);
    StepAtWord(enc, s, b0, c0, p0);
    StepInWord(enc, f1, 8, b1, c1, p1);
    StepInWord(enc, f2, 16, b2, c2, p2);
    StepInWord(enc, f3, 24, b3, c3, p3);
    RunFour(enc, s, f1, f2, f3, Feed(f3, p3), b0, b1, b2, b3, c0, c1, c2, c3);
    MacFuncOnly(Cycle(s), ReadLe(p0, p1, p2, p3));
  }

  /** A whole word at once. */
  lemma RunWord(enc: bool, s: State, b0: byte, b1: byte, b2: byte, b3: byte)
    requires s.Valid() && s.nbuf == 0
    ensures var s1 := Cycle(s);
      var t := ReadLe(b0, b1, b2, b3);
      Run(enc, s, [b0, b1, b2, b3]) ==
      (MacFunc(s1, if enc then t else Xor(t, s1.sbuf)).(mbuf := 0, nbuf := 0), WriteLe(Xor(t, s1.sbuf)))
  {
    hide Cycle, Run, ReadLe, WriteLe, MacFunc, Ciphers;
    var c0, c1, c2, c3, p0, p1, p2, p3 := PlainWord(enc, b0, b1, b2, b3, Cycle(s).sbuf);
    FourSteps(enc, s, b0, b1, b2, b3, c0, c1, c2, c3, p0, p1, p2, p3);
  }

  // ---------------------------------------------------------------- keys, nonces and MACs

  /** The registers after absorbing a key four bytes at a time, the last word padded with zeros. */
  function Absorb(r: seq<word>, konst: word, key: seq<byte>): (r': seq<word>)
    requires |r| == N
    ensures |r'| == N
    decreases |key|
  {
    if |key| == 0 then r
    else if |key| < 4 then
      CycleR(Mix(r, ReadLe(key[0], if |key| > 1 then key[1] else 0, if |key| > 2 then key[2] else 0, 0)), konst)
    else Absorb(CycleR(Mix(r, ReadLe(key[0], key[1], key[2], key[3])), konst), konst, key[4..])
  }

  /** The low 32 bits of a length. */
  function Low32(n: nat): word {
    ReadLe(ToByte(n), ToByte(n / 0x100), ToByte(n / 0x1_0000), ToByte(n / 0x100_0000))
  }

  /** The registers that start the CRC, once the key and its length are absorbed. */
  function KeyCrc(r: seq<word>, konst: word, key: seq<byte>): (c: seq<word>)
    requires |r| == N
    ensures |c| == N
  {
    CycleR(Mix(Absorb(r, konst, key), Low32(|key|)), konst)
  }

  function KeyMixed(r: seq<word>, konst: word, key: seq<byte>): (r': seq<word>)
    requires |r| == N
    ensures |r'| == N
  {
    Diffuse(KeyCrc(r, konst, key), konst, N)
  }

  function KeyLoaded(r: seq<word>, konst: word, key: seq<byte>): (r': seq<word>)
    requires |r| == N
    ensures |r'| == N
  {
    XorAll(KeyMixed(r, konst, key), KeyCrc(r, konst, key))
  }

  /** The state at the start of a packet: it depends on the keyed registers and the nonce, and nothing else. */
  function NonceState(init: seq<word>, nonce: seq<byte>): (s: State)
    requires |init| == N
    ensures s.Valid() && s.nbuf == 0 && s.mbuf == 0
  {
    var r := KeyLoaded(init, INITKONST, nonce);
    State(r, KeyCrc(init, INITKONST, nonce), r[0], Output(KeyMixed(init, INITKONST, nonce)), 0, 0)
  }

  /** What marks the end of a packet, by the number of unused bits. */
  function EndMark(nbuf: word): word {
    INITKONST ^ (nbuf << 3)
  }

  /** The registers that the MAC is drawn from. */
  function MacRegisters(s: State): (r: seq<word>)
    requires s.Valid()
    ensures |r| == N
  {
    var s1 := if s.nbuf != 0 then MacFunc(s, s.mbuf) else s;
    var r := Mix(CycleR(s1.r, s1.konst), EndMark(s.nbuf));
    Diffuse(XorAll(r, s1.crc), s1.konst, N)
  }

  /** The first n keystream bytes, a word a cycle. */
  function Draw(r: seq<word>, konst: word, n: nat): (b: seq<byte>)
    requires |r| == N
    ensures |b| == n
    decreases n
  {
    if n == 0 then []
    else
      var r1 := CycleR(r, konst);
      if n < 4 then WriteLe(Output(r1))[..n] else WriteLe(Output(r1)) + Draw(r1, konst, n - 4)
  }

  function Mac(s: State, n: nat): (b: seq<byte>)
    requires s.Valid()
    ensures |b| == n
  {
    Draw(MacRegisters(s), s.konst, n)
  }

  function Add(a: word, b: word): word {
    a + b
  }

  /** The initial registers: Fibonacci numbers. */
  function Fib(n: nat): word {
    if n < 2 then 1 else Add(Fib(n - 1), Fib(n - 2))
  }

  lemma FibStep(n: nat)
    ensures Fib(0) == 1 && Fib(1) == 1
    ensures n >= 2 ==> Fib(n) == Add(Fib(n - 1), Fib(n - 2))
  {
    hide Add;
  }

  function FibRegisters(): (r: seq<word>)
    ensures |r| == N
  {
    seq(N, i requires 0 <= i < N => Fib(i))
  }

  /** The registers a key leaves for every nonce to start from. */
  function KeyRegisters(key: seq<byte>): (r: seq<word>)
    ensures |r| == N
  {
    KeyLoaded(FibRegisters(), INITKONST, key)
  }

  /** Clearing an empty byte buffer changes nothing. */
  lemma {:induction false} RunFromNormal(enc: bool, s: State, b: seq<byte>)
    requires s.Valid()
    ensures Run(enc, s.Normal(), b).1 == Run(enc, s, b).1
    ensures Run(enc, s.Normal(), b).0.Normal() == Run(enc, s, b).0.Normal()
  {
    if b != [] {
      var k := |b| - 1;
      RunFromNormal(enc, s, b[..k]);
      StepFromNormal(enc, Run(enc, s.Normal(), b[..k]).0, Run(enc, s, b[..k]).0, b[k]);
    }
  }

  lemma StepFromNormal(enc: bool, s: State, t: State, b: byte)
    requires s.Valid() && t.Valid() && s.Normal() == t.Normal()
    ensures StepByte(enc, s, b) == StepByte(enc, t, b)
  {
    hide CycleR, Output, KeyByte, Feed;
  }

  /** Where an in-place run over orig has got to: s is its state, b its buffer, pos bytes of it done. */
  ghost predicate Progress(enc: bool, s0: State, orig: seq<byte>, s: State, b: seq<byte>, pos: nat) {
    && s0.Valid() && pos <= |orig| == |b|
    && Run(enc, s0, orig[..pos]) == (s, b[..pos])
    && b[pos..] == orig[pos..]
  }

  lemma ProgressByte(enc: bool, s0: State, orig: seq<byte>, s: State, b: seq<byte>, pos: nat)
    requires Progress(enc, s0, orig, s, b, pos) && pos < |b|
    ensures var (s', c) := StepByte(enc, s, b[pos]);
      Progress(enc, s0, orig, s', b[pos := c], pos + 1)
  {
    hide StepByte, Run;
    var (s', c) := StepByte(enc, s, b[pos]);
    assert b[pos..][0] == orig[pos..][0];
    assert orig[..pos] + [b[pos]] == orig[..pos + 1];
    RunSnoc(enc, s0, orig[..pos], b[pos]);
    assert b[pos := c][..pos + 1] == b[..pos] + [c];
    assert b[pos := c][pos + 1..] == b[pos..][1..] == orig[pos..][1..] == orig[pos + 1..];
  }

  /** Feeding a byte leaves nothing in an empty buffer. */
  lemma FeedNormal(s: State, p: byte)
    requires |s.r| == |s.crc| == N && (s.nbuf == 8 || s.nbuf == 16 || s.nbuf == 24 || s.nbuf == 32)
    ensures Feed(s, p).Normal() == Feed(s, p)
    ensures (Feed(s, p).nbuf == 0 <==> s.nbuf == 8) && (s.nbuf == 32 ==> Feed(s, p).nbuf == 24)
    ensures (s.nbuf == 24 ==> Feed(s, p).nbuf == 16) && (s.nbuf == 16 ==> Feed(s, p).nbuf == 8)
  {
    hide MacFunc, Buffered;
  }

  lemma StepIsFeed(enc: bool, s: State, b: byte)
    requires s.Valid()
    ensures StepByte(enc, s, b) ==
      (Feed(Ready(s), if enc then b else XorByte(b, KeyByte(Ready(s)))), XorByte(b, KeyByte(Ready(s))))
    ensures s.nbuf != 0 ==> Ready(s) == s
  {
    hide Cycle, Feed, KeyByte, XorByte;
  }

  function SetFour<T>(b: seq<T>, pos: nat, o: seq<T>): (r: seq<T>)
    requires pos + 4 <= |b| && |o| == 4
  {
    b[..pos] + o + b[pos + 4..]
  }

  lemma FourOf<T>(b: seq<T>, pos: nat)
    requires pos + 4 <= |b|
    ensures b[pos..pos + 4] == [b[pos], b[pos + 1], b[pos + 2], b[pos + 3]]
  {
  }

  lemma SetFourSlices<T>(b: seq<T>, orig: seq<T>, pos: nat, o: seq<T>)
    requires pos + 4 <= |b| == |orig| && |o| == 4 && b[pos..] == orig[pos..]
    ensures orig[..pos] + b[pos..pos + 4] == orig[..pos + 4]
    ensures SetFour(b, pos, o)[..pos + 4] == b[..pos] + o
    ensures SetFour(b, pos, o)[pos + 4..] == orig[pos + 4..]
  {
  }

  lemma ProgressWord(enc: bool, s0: State, orig: seq<byte>, s: State, b: seq<byte>, pos: nat)
    requires Progress(enc, s0, orig, s, b, pos) && pos + 4 <= |b| && s.Valid() && s.nbuf == 0
    ensures var s1 := Cycle(s);
      var t := ReadLe(b[pos], b[pos + 1], b[pos + 2], b[pos + 3]);
      Progress(enc, s0, orig, MacFunc(s1, if enc then t else Xor(t, s1.sbuf)).(mbuf := 0, nbuf := 0),
        SetFour(b, pos, WriteLe(Xor(t, s1.sbuf))), pos + 4)
  {
    hide Cycle, MacFunc, ReadLe, WriteLe, Run, Xor;
    var t := ReadLe(b[pos], b[pos + 1], b[pos + 2], b[pos + 3]);
    RunWord(enc, s, b[pos], b[pos + 1], b[pos + 2], b[pos + 3]);
    FourOf(b, pos);
    SetFourSlices(b, orig, pos, WriteLe(Xor(t, Cycle(s).sbuf)));
    RunSplit(enc, s0, orig[..pos], b[pos..pos + 4]);
  }

  /** The word path on a state whose byte buffer is stale. */
  lemma WordFromStale(s: State, w: word)
    requires s.Valid() && s.nbuf == 0
    ensures Cycle(s.Normal()).sbuf == Cycle(s).sbuf
    ensures MacFunc(Cycle(s), w).Normal() == MacFunc(Cycle(s.Normal()), w).(mbuf := 0, nbuf := 0)
  {
    hide CycleR, Output, CrcStep, Mix;
  }

  /** A new word is started when the last is finished; the buffer says how far it has got. */
  lemma ReadyFacts(s: State)
    requires s.Valid()
    ensures s.nbuf == 0 ==> Ready(s) == Cycle(s).(mbuf := 0, nbuf := 32)
    ensures Ready(s).nbuf != 32 ==> s == Ready(s) && s.nbuf != 0
  {
    hide CycleR, Output;
  }

  lemma DrawTail(r: seq<word>, konst: word, n: nat)
    requires |r| == N && 0 < n < 4
    ensures Draw(r, konst, n) == WriteLe(Output(CycleR(r, konst)))[..n]
  {
    hide CycleR, Output, ByteAt;
  }

  lemma DrawWord(r: seq<word>, konst: word, n: nat, before: seq<byte>)
    requires |r| == N && n >= 4
    ensures before + Draw(r, konst, n) ==
      (before + WriteLe(Output(CycleR(r, konst)))) + Draw(CycleR(r, konst), konst, n - 4)
  {
    hide CycleR, Output, ByteAt;
  }
}
