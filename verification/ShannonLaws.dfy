/**
 * The whole cipher as recurrences: what stands in its registers, on its keystream and in its MAC, said without
 * running it.
 */
module ShannonLaws {
  import opened Shannon

  // ---------------------------------------------------------------- the register as a sequence of words

  /** What is xored in before clock n; nothing when the inputs have run out. */
  function InputAt(k: seq<word>, n: nat): word {
    if n < |k| then k[n] else 0
  }

  /** Word n of the register's sequence; the first 16 are what it starts with. */
  function Word(r: seq<word>, konst: word, k: seq<word>, n: nat): word
    requires |r| == 16
    decreases n, 0
  {
    if n < 16 then r[n]
    else
      var left, right := Fed(r, konst, k, n - 4), Fed(r, konst, k, n - 3);
      Xor(Sbox1(Xor(Xor(left, right), konst)), Rotl(Front(r, konst, k, n - 16), 1))
  }

  /** Word n once it has passed the place where inputs are xored in. */
  function Fed(r: seq<word>, konst: word, k: seq<word>, n: nat): word
    requires |r| == 16
    decreases n, 1
  {
    if n < 13 then Word(r, konst, k, n) else Xor(Word(r, konst, k, n), InputAt(k, n - 13))
  }

  /** Word n once it has come to the front. */
  function Front(r: seq<word>, konst: word, k: seq<word>, n: nat): word
    requires |r| == 16
    decreases n + 15, 2
  {
    if n == 0 then r[0]
    else Xor(Fed(r, konst, k, n), Sbox2(Xor(Fed(r, konst, k, n + 2), Word(r, konst, k, n + 15))))
  }

  /** The register after n clocks. */
  function RegisterAt(r: seq<word>, konst: word, k: seq<word>, n: nat): (now: seq<word>)
    requires |r| == 16
    ensures |now| == 16
  {
    seq(16, j requires 0 <= j < 16 =>
      if j == 0 then Front(r, konst, k, n)
      else if j < 13 then Fed(r, konst, k, n + j)
      else Word(r, konst, k, n + j))
  }

  /** The keystream word of clock n. */
  function KeystreamWord(r: seq<word>, konst: word, k: seq<word>, n: nat): word
    requires |r| == 16
  {
    Xor(Xor(Sbox2(Xor(Fed(r, konst, k, n + 2), Word(r, konst, k, n + 15))), Fed(r, konst, k, n + 8)),
        Fed(r, konst, k, n + 12))
  }

  lemma StartsAsGiven(r: seq<word>, konst: word, k: seq<word>)
    requires |r| == 16
    ensures RegisterAt(r, konst, k, 0) == r
  {
    hide Xor, Sbox1, Sbox2, Rotl;
    assert forall j :: 0 < j < 13 ==> Fed(r, konst, k, j) == r[j];
  }

  lemma Unfolded(r: seq<word>, konst: word, k: seq<word>, n: nat)
    requires |r| == 16
    ensures Word(r, konst, k, n + 16) ==
      Xor(Sbox1(Xor(Xor(Fed(r, konst, k, n + 12), Fed(r, konst, k, n + 13)), konst)), Rotl(Front(r, konst, k, n), 1))
    ensures Front(r, konst, k, n + 1) ==
      Xor(Fed(r, konst, k, n + 1), Sbox2(Xor(Fed(r, konst, k, n + 3), Word(r, konst, k, n + 16))))
    ensures Fed(r, konst, k, n + 13) == Xor(Word(r, konst, k, n + 13), InputAt(k, n))
  {
    hide Xor, Sbox1, Sbox2, Rotl, InputAt;
  }

  /** What a clock does, place by place. */
  lemma CycleIs(r: seq<word>, konst: word, next: seq<word>)
    requires |r| == |next| == 16
    requires next[15] == Xor(Sbox1(Xor(Xor(r[12], r[13]), konst)), Rotl(r[0], 1))
    requires forall j :: 1 <= j < 15 ==> next[j] == r[j + 1]
    requires next[0] == Xor(r[1], Sbox2(Xor(r[3], next[15])))
    ensures CycleR(r, konst) == next
  {
    hide Xor, Sbox1, Sbox2, Rotl;
    var s := r[1..] + [next[15]];
    assert s[2] == r[3] && s[0] == r[1];
  }

  /** A clock takes the register one word on. */
  lemma ClockMovesOn(r: seq<word>, konst: word, k: seq<word>, n: nat)
    requires |r| == 16
    ensures CycleR(Mix(RegisterAt(r, konst, k, n), InputAt(k, n)), konst) == RegisterAt(r, konst, k, n + 1)
  {
    hide Xor, Sbox1, Sbox2, Rotl, InputAt, Word, Fed, Front, CycleR;
    var now, next := RegisterAt(r, konst, k, n), RegisterAt(r, konst, k, n + 1);
    var mixed := Mix(now, InputAt(k, n));
    Unfolded(r, konst, k, n);
    assert mixed[13] == Fed(r, konst, k, n + 13);
    CycleIs(mixed, konst, next);
  }

  /** And its keystream word is that of the sequence. */
  lemma ClockOutput(r: seq<word>, konst: word, k: seq<word>, n: nat)
    requires |r| == 16
    ensures Output(RegisterAt(r, konst, k, n)) == KeystreamWord(r, konst, k, n)
  {
    hide Xor, Sbox1, Sbox2, Rotl, InputAt, Word, Fed, Front;
  }

  // ---------------------------------------------------------------- the MAC's second register

  /** Word n of the CRC's sequence. */
  function CrcWord(c: seq<word>, w: seq<word>, n: nat): word
    requires |c| == 16
  {
    if n < 16 then c[n]
    else
      Xor(Xor(Xor(CrcWord(c, w, n - 16), CrcWord(c, w, n - 14)), CrcWord(c, w, n - 1)), InputAt(w, n - 16))
  }

  /** The CRC register after n words. */
  function CrcAt(c: seq<word>, w: seq<word>, n: nat): (now: seq<word>)
    requires |c| == 16
    ensures |now| == 16
  {
    seq(16, j requires 0 <= j < 16 => CrcWord(c, w, n + j))
  }

  lemma CrcMovesOn(c: seq<word>, w: seq<word>, n: nat)
    requires |c| == 16
    ensures CrcStep(CrcAt(c, w, n), InputAt(w, n)) == CrcAt(c, w, n + 1)
  {
    hide Xor, InputAt;
    CrcUnfolded(c, w, n);
    hide CrcWord;
    var now, next := CrcAt(c, w, n), CrcAt(c, w, n + 1);
    assert now[0] == CrcWord(c, w, n) && now[2] == CrcWord(c, w, n + 2) && now[15] == CrcWord(c, w, n + 15);
    assert next[15] == CrcWord(c, w, n + 16);
    assert forall j :: 0 <= j < 15 ==> next[j] == now[j + 1];
  }

  lemma CrcUnfolded(c: seq<word>, w: seq<word>, n: nat)
    requires |c| == 16
    ensures CrcWord(c, w, n + 16) ==
      Xor(Xor(Xor(CrcWord(c, w, n), CrcWord(c, w, n + 2)), CrcWord(c, w, n + 15)), InputAt(w, n))
  {
    hide Xor, InputAt;
  }

  // ---------------------------------------------------------------- bytes as words

  function ByteOrZero(b: seq<byte>, i: nat): byte {
    if i < |b| then b[i] else 0
  }

  /** Bytes 4j to 4j + 3, least significant first; zeros stand where there are no more. */
  function LeWord(b: seq<byte>, j: nat): word {
    ReadLe(ByteOrZero(b, 4 * j), ByteOrZero(b, 4 * j + 1), ByteOrZero(b, 4 * j + 2), ByteOrZero(b, 4 * j + 3))
  }

  /** A byte string as words, the last one filled up with zeros. */
  function LeWords(b: seq<byte>): (w: seq<word>)
    ensures |w| == (|b| + 3) / 4
  {
    seq((|b| + 3) / 4, j requires 0 <= j < (|b| + 3) / 4 => LeWord(b, j))
  }

  // ---------------------------------------------------------------- keys and nonces

  /** Absorbing what is left of a key. */
  lemma {:induction false} AbsorbMovesOn(r: seq<word>, konst: word, k: seq<word>, key: seq<byte>, n: nat)
    requires |r| == 16 && LeWords(key) <= k && n <= |LeWords(key)| && 4 * n <= |key| + 3
    ensures Absorb(RegisterAt(r, konst, k, n), konst, if 4 * n <= |key| then key[4 * n..] else [])
      == RegisterAt(r, konst, k, |LeWords(key)|)
    decreases |key| - 4 * n
  {
    hide RegisterAt, CycleR, Mix, ReadLe;
    var m := |LeWords(key)|;
    if 4 * n < |key| {
      assert n < m && InputAt(k, n) == LeWords(key)[n] == LeWord(key, n);
      ClockMovesOn(r, konst, k, n);
      var rest := key[4 * n..];
      if |rest| >= 4 {
        assert rest[4..] == key[4 * (n + 1)..];
        AbsorbMovesOn(r, konst, k, key, n + 1);
      }
    }
  }

  lemma XorZero(a: word)
    ensures Xor(a, 0) == a
  {
  }

  /** Clocks without input. */
  lemma {:induction false} DiffuseMovesOn(r: seq<word>, konst: word, k: seq<word>, n: nat, d: nat)
    requires |r| == 16 && |k| <= n
    ensures Diffuse(RegisterAt(r, konst, k, n), konst, d) == RegisterAt(r, konst, k, n + d)
  {
    hide RegisterAt, CycleR, Xor;
    if d > 0 {
      DiffuseMovesOn(r, konst, k, n, d - 1);
      var now := RegisterAt(r, konst, k, n + d - 1);
      XorZero(now[13]);
      assert Mix(now, 0) == now;
      ClockMovesOn(r, konst, k, n + d - 1);
    }
  }

  /** What a key feeds to the register: its words and then its length. */
  function KeyInputs(key: seq<byte>): (k: seq<word>)
    ensures |k| == (|key| + 3) / 4 + 1
  {
    LeWords(key) + [Low32(|key|)]
  }

  /** Loading a key: the CRC register is the one after its length, and the cipher's adds 16 clocks to it. */
  lemma KeyLaw(r: seq<word>, konst: word, key: seq<byte>)
    requires |r| == 16
    ensures var k, m := KeyInputs(key), (|key| + 3) / 4;
      && KeyCrc(r, konst, key) == RegisterAt(r, konst, k, m + 1)
      && KeyLoaded(r, konst, key) == XorAll(RegisterAt(r, konst, k, m + 17), RegisterAt(r, konst, k, m + 1))
  {
    hide RegisterAt, CycleR, Mix, Absorb, Low32, Diffuse, Xor;
    var k, m := KeyInputs(key), (|key| + 3) / 4;
    hide LeWords;
    AbsorbMovesOn(r, konst, k, key, 0);
    assert key[0..] == key;
    StartsAsGiven(r, konst, k);
    assert InputAt(k, m) == Low32(|key|);
    ClockMovesOn(r, konst, k, m);
    DiffuseMovesOn(r, konst, k, m + 1, 16);
  }

  /** A nonce: loaded under the fixed constant, it leaves a new constant, and no keystream in hand. */
  lemma NonceLaw(init: seq<word>, nonce: seq<byte>)
    requires |init| == 16
    ensures var s, k, m := NonceState(init, nonce), KeyInputs(nonce), (|nonce| + 3) / 4;
      var a, c := RegisterAt(init, 0x6996c53a, k, m + 17), RegisterAt(init, 0x6996c53a, k, m + 1);
      && (forall i :: 0 <= i < 16 ==> s.r[i] == Xor(a[i], c[i]))
      && s.crc == c && s.konst == s.r[0] && s.nbuf == 0
  {
    hide RegisterAt, KeyLoaded, KeyCrc, KeyMixed, KeyInputs, Xor, Output;
    KeyLaw(init, INITKONST, nonce);
  }

  const FIBONACCI: seq<word> := [1, 1, 2, 3, 5, 8, 13, 21, 34, 55, 89, 144, 233, 377, 610, 987]

  lemma FibValues()
    ensures Fib(0) == 1 && Fib(1) == 1 && Fib(2) == 2 && Fib(3) == 3 && Fib(4) == 5 && Fib(5) == 8
    ensures Fib(6) == 13 && Fib(7) == 21 && Fib(8) == 34 && Fib(9) == 55 && Fib(10) == 89 && Fib(11) == 144
    ensures Fib(12) == 233 && Fib(13) == 377 && Fib(14) == 610 && Fib(15) == 987
  {
    hide Fib;
    FibStep(2);
    FibStep(3);
    FibStep(4);
    FibStep(5);
    FibStep(6);
    FibStep(7);
    FibStep(8);
    FibStep(9);
    FibStep(10);
    FibStep(11);
    FibStep(12);
    FibStep(13);
    FibStep(14);
    FibStep(15);
  }

  /** A key: loaded in the same way into a register of Fibonacci numbers. */
  lemma KeyRegistersLaw(key: seq<byte>)
    ensures var k, m := KeyInputs(key), (|key| + 3) / 4;
      var a, c := RegisterAt(FIBONACCI, 0x6996c53a, k, m + 17), RegisterAt(FIBONACCI, 0x6996c53a, k, m + 1);
      forall i :: 0 <= i < 16 ==> KeyRegisters(key)[i] == Xor(a[i], c[i])
  {
    hide RegisterAt, KeyLoaded, KeyCrc, KeyMixed, KeyInputs, Xor, Fib;
    FibValues();
    assert FibRegisters() == FIBONACCI;
    KeyLaw(FIBONACCI, INITKONST, key);
  }

  // ---------------------------------------------------------------- a message

  /** What a message feeds to the register: nothing before the first clock, then its words. */
  function MessageInputs(b: seq<byte>): (k: seq<word>)
    ensures |k| == 1 + (|b| + 3) / 4
  {
    [0] + LeWords(b)
  }

  /** How many bits of a word are left when so many bytes of it are used. */
  function Left(t: nat): word {
    if t == 0 then 0 else if t == 1 then 24 else if t == 2 then 16 else 8
  }

  /** The bytes of word j that are among the first p. */
  function Part(b: seq<byte>, p: nat): word
    requires p <= |b|
  {
    LeWord(b[..p], p / 4)
  }

  /** Where the cipher stands when the first p bytes of b have been enciphered from state s. */
  ghost predicate Stands(s: State, b: seq<byte>, p: nat, now: State)
    requires |s.r| == |s.crc| == 16 && p <= |b|
  {
    var k, j, t := MessageInputs(b), p / 4, p % 4;
    && now.Valid() && now.konst == s.konst && now.nbuf == Left(t) && now.crc == CrcAt(s.crc, LeWords(b), j)
    && (t == 0 ==> now.r == Mix(RegisterAt(s.r, s.konst, k, j), InputAt(k, j)))
    && (t > 0 ==> now.r == RegisterAt(s.r, s.konst, k, j + 1) && now.sbuf == Output(now.r) && now.mbuf == Part(b, p))
  }

  lemma StandsAtStart(s: State, b: seq<byte>)
    requires s.Valid() && s.nbuf == 0
    ensures Stands(s, b, 0, s)
  {
    hide RegisterAt, CrcAt, Xor, LeWords;
    var k := MessageInputs(b);
    StartsAsGiven(s.r, s.konst, k);
    CrcStarts(s.crc, LeWords(b));
    XorZero(s.r[13]);
    assert Mix(s.r, 0) == s.r;
  }

  lemma CrcStarts(c: seq<word>, w: seq<word>)
    requires |c| == 16
    ensures CrcAt(c, w, 0) == c
  {
  }

  /** The first byte of a word. */
  lemma FirstByte(s: State, b: seq<byte>, p: nat, now: State)
    requires s.Valid() && p < |b| && p % 4 == 0 && Stands(s, b, p, now)
    ensures var (next, c) := StepByte(true, now, b[p]);
      && Stands(s, b, p + 1, next)
      && c == XorByte(b[p], ByteAt(KeystreamWord(s.r, s.konst, MessageInputs(b), p / 4 + 1), 0))
  {
    hide RegisterAt, CycleR, Mix, Output, CrcAt, KeystreamWord, LeWords, ByteAt, XorByte, Buffered, LeWord;
    var k, j := MessageInputs(b), p / 4;
    ClockMovesOn(s.r, s.konst, k, j);
    ClockOutput(s.r, s.konst, k, j + 1);
    PartFirst(b, p);
  }

  /** Bytes buffered one by one are the word read from them. */
  lemma BufferedOne(b0: byte)
    ensures Buffered(0, b0, 0) == ReadLe(b0, 0, 0, 0)
  {
  }

  lemma BufferedTwo(b0: byte, b1: byte)
    ensures Buffered(ReadLe(b0, 0, 0, 0), b1, 8) == ReadLe(b0, b1, 0, 0)
  {
  }

  lemma BufferedThree(b0: byte, b1: byte, b2: byte)
    ensures Buffered(ReadLe(b0, b1, 0, 0), b2, 16) == ReadLe(b0, b1, b2, 0)
  {
  }

  lemma BufferedFour(b0: byte, b1: byte, b2: byte, b3: byte)
    ensures Buffered(ReadLe(b0, b1, b2, 0), b3, 24) == ReadLe(b0, b1, b2, b3)
  {
  }

  lemma PartFirst(b: seq<byte>, p: nat)
    requires p < |b| && p % 4 == 0
    ensures Buffered(0, b[p], 0) == Part(b, p + 1)
  {
    hide ReadLe, Buffered;
    BufferedOne(b[p]);
  }

  lemma PartNext(b: seq<byte>, p: nat)
    requires p < |b| && p % 4 > 0
    ensures Buffered(Part(b, p), b[p], 32 - Left(p % 4)) ==
      if p % 4 < 3 then Part(b, p + 1) else LeWord(b, p / 4)
  {
    hide ReadLe, Buffered;
    var i := 4 * (p / 4);
    if p % 4 == 1 {
      BufferedTwo(b[i], b[p]);
    } else if p % 4 == 2 {
      BufferedThree(b[i], b[i + 1], b[p]);
    } else {
      BufferedFour(b[i], b[i + 1], b[i + 2], b[p]);
    }
  }

  /** A byte in the middle of a word. */
  lemma MiddleByte(s: State, b: seq<byte>, p: nat, now: State)
    requires s.Valid() && p < |b| && 0 < p % 4 < 3 && Stands(s, b, p, now)
    ensures var (next, c) := StepByte(true, now, b[p]);
      && Stands(s, b, p + 1, next)
      && c == XorByte(b[p], ByteAt(KeystreamWord(s.r, s.konst, MessageInputs(b), p / 4 + 1), 32 - Left(p % 4)))
  {
    hide RegisterAt, CycleR, Mix, Output, CrcAt, KeystreamWord, LeWords, ByteAt, XorByte, Buffered, LeWord;
    ClockOutput(s.r, s.konst, MessageInputs(b), p / 4 + 1);
    PartNext(b, p);
    assert (p + 1) / 4 == p / 4 && (p + 1) % 4 == p % 4 + 1;
  }

  /** The last byte of a word, which goes to the MAC. */
  lemma LastByte(s: State, b: seq<byte>, p: nat, now: State)
    requires s.Valid() && p < |b| && p % 4 == 3 && Stands(s, b, p, now)
    ensures var (next, c) := StepByte(true, now, b[p]);
      && Stands(s, b, p + 1, next)
      && c == XorByte(b[p], ByteAt(KeystreamWord(s.r, s.konst, MessageInputs(b), p / 4 + 1), 32 - Left(p % 4)))
  {
    hide RegisterAt, CycleR, Mix, Output, CrcAt, KeystreamWord, ByteAt, XorByte, Buffered, LeWord, CrcStep;
    var k, j := MessageInputs(b), p / 4;
    ClockOutput(s.r, s.konst, k, j + 1);
    PartNext(b, p);
    CrcMovesOn(s.crc, LeWords(b), j);
    assert InputAt(k, j + 1) == InputAt(LeWords(b), j) == LeWord(b, j);
    assert (p + 1) / 4 == j + 1 && (p + 1) % 4 == 0;
  }

  /** Enciphering leaves the cipher where the sequences say. */
  lemma {:induction false} StandsAfter(s: State, b: seq<byte>, p: nat)
    requires s.Valid() && s.nbuf == 0 && p <= |b|
    ensures Stands(s, b, p, Run(true, s, b[..p]).0)
  {
    hide StepByte, Stands;
    if p == 0 {
      StandsAtStart(s, b);
    } else {
      StandsAfter(s, b, p - 1);
      assert b[..p - 1] + [b[p - 1]] == b[..p];
      RunSnoc(true, s, b[..p - 1], b[p - 1]);
      ByteStep(s, b, p - 1, Run(true, s, b[..p - 1]).0);
    }
  }

  lemma ByteStep(s: State, b: seq<byte>, p: nat, now: State)
    requires s.Valid() && p < |b| && Stands(s, b, p, now)
    ensures var (next, c) := StepByte(true, now, b[p]);
      && Stands(s, b, p + 1, next)
      && c == XorByte(b[p], WriteLe(KeystreamWord(s.r, s.konst, MessageInputs(b), p / 4 + 1))[p % 4])
  {
    hide StepByte, Stands, KeystreamWord, ByteAt, XorByte;
    var t := p % 4;
    assert Stands(s, b, p, now);
    if t == 0 {
      FirstByte(s, b, p, now);
    } else if t == 3 {
      LastByte(s, b, p, now);
    } else {
      MiddleByte(s, b, p, now);
    }
  }

  /** Each byte of a message is xored with its own byte of the keystream, four to a word. */
  lemma StreamLaw(s: State, b: seq<byte>, p: nat)
    requires s.Valid() && s.nbuf == 0 && p < |b|
    ensures Run(true, s, b).1[p] ==
      XorByte(b[p], WriteLe(KeystreamWord(s.r, s.konst, MessageInputs(b), p / 4 + 1))[p % 4])
  {
    hide StepByte, Stands, KeystreamWord, WriteLe, XorByte, Run;
    StandsAfter(s, b, p);
    var now := Run(true, s, b[..p]).0;
    ByteStep(s, b, p, now);
    RunSnoc(true, s, b[..p], b[p]);
    assert b[..p] + [b[p]] == b[..p + 1];
    assert b[..p + 1] + b[p + 1..] == b;
    RunSplit(true, s, b[..p + 1], b[p + 1..]);
  }

  /** Text c is text b enciphered from a word boundary in state s. */
  ghost predicate Enciphered(s: State, b: seq<byte>, c: seq<byte>)
    requires |s.r| == |s.crc| == 16
  {
    && |b| == |c|
    && forall p :: 0 <= p < |b| ==>
      c[p] == XorByte(b[p], WriteLe(KeystreamWord(s.r, s.konst, MessageInputs(b), p / 4 + 1))[p % 4])
  }

  /** Both ways: what enciphering gives, and what deciphering takes. */
  lemma RunEnciphers(s: State, b: seq<byte>)
    requires s.Valid() && s.nbuf == 0
    ensures Enciphered(s, b, Run(true, s, b).1) && Enciphered(s, Run(false, s, b).1, b)
  {
    hide KeystreamWord, WriteLe, XorByte, Run, MessageInputs;
    var plain := Run(false, s, b).1;
    RunInverseBack(s, b);
    forall p | 0 <= p < |b|
      ensures Run(true, s, b).1[p] ==
        XorByte(b[p], WriteLe(KeystreamWord(s.r, s.konst, MessageInputs(b), p / 4 + 1))[p % 4])
      ensures b[p] == XorByte(plain[p], WriteLe(KeystreamWord(s.r, s.konst, MessageInputs(plain), p / 4 + 1))[p % 4])
    {
      StreamLaw(s, b, p);
      StreamLaw(s, plain, p);
    }
  }

  // ---------------------------------------------------------------- the MAC

  /** What is xored in at the end of a message whose last word has so many bytes in it. */
  function Mark(t: nat): word {
    if t == 0 then 0x6996c53a else if t == 1 then 0x6996c5fa else if t == 2 then 0x6996c5ba else 0x6996c57a
  }

  lemma MarkIs(t: nat)
    requires t < 4
    ensures EndMark(Left(t)) == Mark(t)
  {
    match t
    case 0 => case 1 => case 2 => case 3 =>
  }

  /** What the MAC of a message starts from: the register a clock after its last word, the mark, and the CRC. */
  function MacStart(s: State, b: seq<byte>): (r: seq<word>)
    requires |s.r| == |s.crc| == 16
    ensures |r| == 16
  {
    var m := (|b| + 3) / 4;
    var now, c := RegisterAt(s.r, s.konst, MessageInputs(b), m + 1), CrcAt(s.crc, LeWords(b), m);
    seq(16, i requires 0 <= i < 16 => Xor(if i == 13 then Xor(now[i], Mark(|b| % 4)) else now[i], c[i]))
  }

  /** The state in which the last word, whole or not, has been fed to the MAC. */
  lemma LastWordFed(s: State, b: seq<byte>, now: State)
    requires s.Valid() && Stands(s, b, |b|, now)
    ensures var k, m := MessageInputs(b), (|b| + 3) / 4;
      var fed := if now.nbuf != 0 then MacFunc(now, now.mbuf) else now;
      && fed.r == Mix(RegisterAt(s.r, s.konst, k, m), InputAt(k, m)) && fed.crc == CrcAt(s.crc, LeWords(b), m)
      && fed.konst == s.konst && now.nbuf == Left(|b| % 4)
  {
    hide RegisterAt, Mix, Output, CrcAt, CrcStep, LeWord;
    var k, j := MessageInputs(b), |b| / 4;
    assert b[..|b|] == b;
    if |b| % 4 > 0 {
      CrcMovesOn(s.crc, LeWords(b), j);
      assert InputAt(k, j + 1) == InputAt(LeWords(b), j) == LeWord(b, j);
    }
  }

  lemma MacRegistersLaw(s: State, b: seq<byte>, now: State)
    requires s.Valid() && Stands(s, b, |b|, now)
    ensures MacRegisters(now) == RegisterAt(MacStart(s, b), s.konst, [], 16)
  {
    hide RegisterAt, CycleR, CrcAt, Stands, MacFunc, Diffuse, EndMark, Mark, Xor, MessageInputs, LeWords, Left;
    var k, m := MessageInputs(b), (|b| + 3) / 4;
    LastWordFed(s, b, now);
    assert now.Valid() by {
      StandsValid(s, b, now);
    }
    ClockMovesOn(s.r, s.konst, k, m);
    MarkIs(|b| % 4);
    var start := MacStart(s, b);
    assert XorAll(Mix(RegisterAt(s.r, s.konst, k, m + 1), Mark(|b| % 4)), CrcAt(s.crc, LeWords(b), m)) == start;
    StartsAsGiven(start, s.konst, []);
    DiffuseMovesOn(start, s.konst, [], 0, 16);
  }

  lemma StandsValid(s: State, b: seq<byte>, now: State)
    requires s.Valid() && Stands(s, b, |b|, now)
    ensures now.Valid() && now.konst == s.konst
  {
  }

  lemma {:induction false} DrawMovesOn(r: seq<word>, konst: word, q: nat, n: nat, p: nat)
    requires |r| == 16 && p < n
    ensures Draw(RegisterAt(r, konst, [], q), konst, n)[p] ==
      WriteLe(KeystreamWord(r, konst, [], q + p / 4 + 1))[p % 4]
    decreases p
  {
    hide RegisterAt, CycleR, Output, KeystreamWord, WriteLe;
    DiffuseMovesOn(r, konst, [], q, 1);
    DiffuseOne(RegisterAt(r, konst, [], q), konst);
    ClockOutput(r, konst, [], q + 1);
    if p >= 4 {
      DrawMovesOn(r, konst, q + 1, n - 4, p - 4);
      assert (p - 4) / 4 == p / 4 - 1 && (p - 4) % 4 == p % 4;
    }
  }

  lemma DiffuseOne(r: seq<word>, konst: word)
    requires |r| == 16
    ensures Diffuse(r, konst, 1) == CycleR(r, konst)
  {
    hide CycleR;
    assert Diffuse(r, konst, 0) == r;
  }

  /** The MAC of a message: the keystream, from the 17th clock on, of the register it starts from. */
  lemma MacLaw(s: State, b: seq<byte>, n: nat, p: nat)
    requires s.Valid() && s.nbuf == 0 && p < n
    ensures Mac(Run(true, s, b).0, n)[p] ==
      WriteLe(KeystreamWord(MacStart(s, b), s.konst, [], 17 + p / 4))[p % 4]
  {
    hide RegisterAt, CycleR, KeystreamWord, WriteLe, MacRegisters, MacStart, Stands, Draw, Run;
    StandsAfter(s, b, |b|);
    assert b[..|b|] == b;
    var now := Run(true, s, b).0;
    StandsValid(s, b, now);
    MacRegistersLaw(s, b, now);
    DrawMovesOn(MacStart(s, b), s.konst, 16, n, p);
  }
}
