/** The cipher as an object whose registers change in place. */
module ShannonCipher {
  import opened Shannon
  import ShannonLaws

  class Cipher {
    const R: array<word>
    const CRC: array<word>
    const initR: array<word>
    var konst: word
    var sbuf: word
    var mbuf: word
    /** How many bits of the current keystream word are unused. */
    var nbuf: word

    ghost predicate Valid()
      reads this
    {
      R.Length == CRC.Length == initR.Length == N && R != CRC && R != initR && CRC != initR
      && (nbuf == 0 || nbuf == 8 || nbuf == 16 || nbuf == 24)
    }

    ghost function Raw(): (s: State)
      requires R.Length == CRC.Length == N
      reads this, R, CRC
      ensures |s.r| == |s.crc| == N
    {
      State(R[..], CRC[..], konst, sbuf, mbuf, nbuf)
    }

    ghost function Current(): (s: State)
      requires Valid()
      reads this, R, CRC
      ensures s.Valid() && s.Normal() == s
    {
      Raw().Normal()
    }

    method Clock()
      requires R.Length == N && R != CRC
      modifies this`sbuf, R
      ensures R[..] == CycleR(old(R[..]), konst) && sbuf == Output(R[..])
    {
      hide Sbox1, Sbox2, Rotl, Xor;
      ghost var r := R[..];
      var t := Xor(Xor(R[12], R[13]), konst);
      t := Xor(Sbox1(t), Rotl(R[0], 1));
      for i := 1 to N
        invariant forall j :: 0 <= j < i - 1 ==> R[j] == r[j + 1]
        invariant forall j :: i - 1 <= j < N ==> R[j] == r[j]
      {
        R[i - 1] := R[i];
      }
      R[N - 1] := t;
      assert R[..] == r[1..] + [t];
      t := Sbox2(Xor(R[2], R[15]));
      R[0] := Xor(R[0], t);
      sbuf := Xor(Xor(t, R[8]), R[12]);
    }

    method Scramble()
      requires R.Length == N && R != CRC
      modifies this`sbuf, R
      ensures R[..] == Diffuse(old(R[..]), konst, N) && sbuf == Output(R[..])
    {
      hide CycleR, Output;
      for i := 0 to N
        invariant R[..] == Diffuse(old(R[..]), konst, i)
        invariant i > 0 ==> sbuf == Output(R[..])
      {
        Clock();
      }
    }

    method MixKey(w: word)
      requires R.Length == N && R != CRC
      modifies R
      ensures R[..] == Mix(old(R[..]), w)
    {
      hide Xor;
      R[KEYP] := Xor(R[KEYP], w);
    }

    /** Folds the CRC registers into the cipher's. */
    method FoldCrc()
      requires R.Length == CRC.Length == N && R != CRC
      modifies R
      ensures R[..] == XorAll(old(R[..]), CRC[..])
    {
      hide Xor;
      for j := 0 to N
        invariant forall i :: 0 <= i < j ==> R[i] == Xor(old(R[i]), CRC[i])
        invariant forall i :: j <= i < N ==> R[i] == old(R[i])
      {
        R[j] := Xor(R[j], CRC[j]);
      }
    }

    method AbsorbKey(key: seq<byte>)
      requires R.Length == N && R != CRC
      modifies this`sbuf, R
      ensures R[..] == Absorb(old(R[..]), konst, key)
    {
      hide CycleR, Output, Mix, ReadLe;
      ghost var r := R[..];
      var i := 0;
      assert key[0..] == key;
      while i + 4 <= |key|
        invariant 0 <= i <= |key|
        invariant Absorb(R[..], konst, key[i..]) == Absorb(r, konst, key)
      {
        assert key[i..][4..] == key[i + 4..];
        MixKey(ReadLe(key[i], key[i + 1], key[i + 2], key[i + 3]));
        Clock();
        i := i + 4;
      }
      if i < |key| {
        var rest := key[i..];
        MixKey(ReadLe(rest[0], if |rest| > 1 then rest[1] else 0, if |rest| > 2 then rest[2] else 0, 0));
        Clock();
      }
    }

    method CopyToCrc()
      requires R.Length == CRC.Length == N && R != CRC
      modifies CRC
      ensures CRC[..] == R[..]
    {
      for j := 0 to N
        invariant forall i :: 0 <= i < j ==> CRC[i] == R[i]
      {
        CRC[j] := R[j];
      }
    }

    method LoadKey(key: seq<byte>)
      requires R.Length == CRC.Length == N && R != CRC
      modifies this`sbuf, R, CRC
      ensures R[..] == KeyLoaded(old(R[..]), konst, key)
      ensures CRC[..] == KeyCrc(old(R[..]), konst, key)
      ensures sbuf == Output(KeyMixed(old(R[..]), konst, key))
    {
      hide CycleR, Output, Mix, Absorb, Diffuse, XorAll, Low32;
      AbsorbKey(key);
      MixKey(Low32(|key|));
      Clock();
      CopyToCrc();
      Scramble();
      FoldCrc();
    }

    /** Keys the cipher: the registers it leaves are where every nonce starts from. */
    constructor (key: seq<byte>)
      ensures Valid() && fresh(R) && fresh(CRC) && fresh(initR)
      ensures initR[..] == KeyRegisters(key)
    {
      R := new word[N](_ => 1);
      CRC := new word[N](_ => 0);
      initR := new word[N](_ => 0);
      konst, sbuf, mbuf, nbuf := INITKONST, 0, 0, 0;
      new;
      SetKey(key);
    }

    method SetKey(key: seq<byte>)
      requires R.Length == CRC.Length == initR.Length == N && R != CRC && R != initR && CRC != initR
      requires konst == INITKONST
      modifies this`sbuf, this`konst, R, CRC, initR
      ensures initR[..] == KeyRegisters(key)
    {
      hide KeyLoaded, KeyMixed, KeyCrc, Output, FibRegisters;
      FibInit();
      LoadKey(key);
      konst := R[0];
      SaveState();
    }

    /** The initial registers: Fibonacci numbers. */
    method FibInit()
      requires R.Length == N
      modifies R
      ensures R[..] == FibRegisters()
    {
      hide Fib, Add;
      FibStep(0);
      R[0] := 1;
      R[1] := 1;
      for i := 2 to N
        invariant forall j: nat :: j < i ==> R[j] == Fib(j)
      {
        FibStep(i);
        R[i] := Add(R[i - 1], R[i - 2]);
      }
      assert R[..] == FibRegisters();
    }

    method SaveState()
      requires R.Length == initR.Length == N && R != initR
      modifies initR
      ensures initR[..] == R[..]
    {
      for j := 0 to N
        invariant forall i :: 0 <= i < j ==> initR[i] == R[i]
      {
        initR[j] := R[j];
      }
    }

    method Nonce(nonce: seq<byte>)
      requires Valid()
      modifies this`konst, this`sbuf, this`nbuf, R, CRC
      ensures Valid() && initR[..] == old(initR[..])
      ensures Current() == NonceState(initR[..], nonce)
    {
      hide KeyLoaded, KeyMixed, KeyCrc, Output;
      for j := 0 to N
        invariant forall i :: 0 <= i < j ==> R[i] == initR[i]
        modifies R
      {
        R[j] := initR[j];
      }
      assert R[..] == initR[..];
      konst := INITKONST;
      LoadKey(nonce);
      konst := R[0];
      nbuf := 0;
    }

    method TakeMac(i: word)
      requires R.Length == CRC.Length == N && R != CRC
      modifies R, CRC
      ensures Raw() == MacFunc(old(Raw()), i)
    {
      hide Xor;
      var t := Xor(Xor(Xor(CRC[0], CRC[2]), CRC[15]), i);
      ghost var crc := CRC[..];
      for j := 1 to N
        invariant forall k :: 0 <= k < j - 1 ==> CRC[k] == crc[k + 1]
        invariant forall k :: j - 1 <= k < N ==> CRC[k] == crc[k]
        invariant R[..] == old(R[..])
      {
        CRC[j - 1] := CRC[j];
      }
      CRC[N - 1] := t;
      assert CRC[..] == CrcStep(crc, i);
      R[KEYP] := Xor(R[KEYP], i);
      assert R[..] == Mix(old(R[..]), i);
    }

    /** The byte-wise path: xor with the keystream, feed the MAC, and work on a word that is complete. */
    method CipherByte(enc: bool, b: byte) returns (c: byte)
      requires R.Length == CRC.Length == N && R != CRC
      requires nbuf == 8 || nbuf == 16 || nbuf == 24 || nbuf == 32
      modifies this`mbuf, this`nbuf, R, CRC
      ensures c == XorByte(b, KeyByte(old(Raw())))
      ensures Raw() == Feed(old(Raw()), if enc then b else c)
    {
      hide MacFunc, ByteAt, Buffered, XorByte;
      var k := 32 - nbuf;
      if enc {
        mbuf := Buffered(mbuf, b, k);
        c := XorByte(b, ByteAt(sbuf, k));
      } else {
        c := XorByte(b, ByteAt(sbuf, k));
        mbuf := Buffered(mbuf, c, k);
      }
      nbuf := nbuf - 8;
      if nbuf == 0 {
        var m := mbuf;
        TakeMac(m);
        mbuf := 0;
      }
    }

    /** Finishes the word that an earlier call left incomplete, as far as the bytes go. */
    method BufferedBytes(enc: bool, buf: array<byte>, ghost s0: State, ghost orig: seq<byte>) returns (pos: nat)
      requires Valid() && Progress(enc, s0, orig, Current(), buf[..], 0)
      modifies this`mbuf, this`nbuf, R, CRC, buf
      ensures Valid() && pos <= buf.Length && Progress(enc, s0, orig, Current(), buf[..], pos)
      ensures nbuf == 0 || pos == buf.Length
    {
      hide Progress, Feed, KeyByte, StepByte, XorByte, Ready;
      pos := 0;
      while nbuf > 0 && pos < buf.Length
        invariant Valid() && pos <= buf.Length && Progress(enc, s0, orig, Current(), buf[..], pos)
        decreases buf.Length - pos
      {
        ProgressByte(enc, s0, orig, Current(), buf[..], pos);
        StepIsFeed(enc, Current(), buf[pos]);
        FeedNormal(Current(), if enc then buf[pos] else XorByte(buf[pos], KeyByte(Current())));
        buf[pos] := CipherByte(enc, buf[pos]);
        pos := pos + 1;
      }
    }

    method WriteWord(buf: array<byte>, pos: nat, t: word)
      requires pos + 4 <= buf.Length
      modifies buf
      ensures buf[..] == SetFour(old(buf[..]), pos, WriteLe(t))
    {
      hide ByteAt;
      buf[pos] := ByteAt(t, 0);
      buf[pos + 1] := ByteAt(t, 8);
      buf[pos + 2] := ByteAt(t, 16);
      buf[pos + 3] := ByteAt(t, 24);
    }

    /** One whole word, ciphered and fed to the MAC at once. */
    method WholeWord(enc: bool, buf: array<byte>, pos: nat, ghost s0: State, ghost orig: seq<byte>)
      requires Valid() && nbuf == 0 && pos + 4 <= buf.Length
      requires Progress(enc, s0, orig, Current(), buf[..], pos)
      modifies this`sbuf, R, CRC, buf
      ensures Valid() && Progress(enc, s0, orig, Current(), buf[..], pos + 4)
    {
      hide Progress, ReadLe, WriteLe, Xor, CycleR, Output, Mix, CrcStep;
      ProgressWord(enc, s0, orig, Current(), buf[..], pos);
      ghost var raw := Raw();
      Clock();
      var t := ReadLe(buf[pos], buf[pos + 1], buf[pos + 2], buf[pos + 3]);
      assert Raw() == Cycle(raw);
      hide Cycle, MacFunc;
      WordFromStale(raw, if enc then t else Xor(t, sbuf));
      if enc {
        TakeMac(t);
        t := Xor(t, sbuf);
      } else {
        t := Xor(t, sbuf);
        TakeMac(t);
      }
      WriteWord(buf, pos, t);
    }

    /** The bytes of an incomplete last word. */
    method TrailingBytes(enc: bool, buf: array<byte>, start: nat, ghost s0: State, ghost orig: seq<byte>)
      requires Valid() && nbuf == 0 && start < buf.Length < start + 4
      requires Progress(enc, s0, orig, Current(), buf[..], start)
      modifies this`sbuf, this`mbuf, this`nbuf, R, CRC, buf
      ensures Valid() && Progress(enc, s0, orig, Current(), buf[..], buf.Length)
    {
      hide Progress, Feed, KeyByte, StepByte, XorByte, CycleR, Output;
      ghost var s := Current();
      var pos := start;
      Clock();
      mbuf := 0;
      nbuf := 32;
      assert Raw() == Ready(s);
      hide Ready;
      while pos < buf.Length
        invariant R.Length == CRC.Length == N && start <= pos <= buf.Length
        invariant s.Valid() && Raw() == Ready(s) && Progress(enc, s0, orig, s, buf[..], pos)
        invariant nbuf ==
          if pos == start then 32 else if pos == start + 1 then 24 else if pos == start + 2 then 16 else 8
        decreases buf.Length - pos
      {
        ProgressByte(enc, s0, orig, s, buf[..], pos);
        StepIsFeed(enc, s, buf[pos]);
        ghost var next := StepByte(enc, s, buf[pos]).0;
        FeedNormal(Ready(s), if enc then buf[pos] else XorByte(buf[pos], KeyByte(Ready(s))));
        buf[pos] := CipherByte(enc, buf[pos]);
        s := next;
        ReadyFacts(s);
        StepIsFeed(enc, s, 0);
        pos := pos + 1;
      }
      ReadyFacts(s);
    }

    /** As many whole words as there are. */
    method WholeWords(enc: bool, buf: array<byte>, start: nat, ghost s0: State, ghost orig: seq<byte>)
      returns (pos: nat)
      requires Valid() && nbuf == 0 && start <= buf.Length
      requires Progress(enc, s0, orig, Current(), buf[..], start)
      modifies this`sbuf, R, CRC, buf
      ensures Valid() && pos <= buf.Length < pos + 4 && Progress(enc, s0, orig, Current(), buf[..], pos)
    {
      hide Progress, Cycle, MacFunc;
      pos := start;
      while pos + 4 <= buf.Length
        invariant Valid() && pos <= buf.Length && Progress(enc, s0, orig, Current(), buf[..], pos)
        decreases buf.Length - pos
      {
        WholeWord(enc, buf, pos, s0, orig);
        pos := pos + 4;
      }
    }

    /** Enciphers or deciphers a buffer in place, feeding the plaintext to the MAC. */
    method Process(enc: bool, buf: array<byte>)
      requires Valid()
      modifies this`sbuf, this`mbuf, this`nbuf, R, CRC, buf
      ensures Valid()
      ensures (Current(), buf[..]) == Run(enc, old(Current()), old(buf[..]))
      ensures old(nbuf) == 0 ==>
        if enc then ShannonLaws.Enciphered(old(Current()), old(buf[..]), buf[..])
        else ShannonLaws.Enciphered(old(Current()), buf[..], old(buf[..]))
    {
      hide ShannonLaws.Enciphered;
      ghost var s0, orig := Current(), buf[..];
      if nbuf == 0 {
        ShannonLaws.RunEnciphers(s0, orig);
      }
      StartProgress(enc, s0, orig);
      hide Progress, Run;
      var pos := BufferedBytes(enc, buf, s0, orig);
      if nbuf == 0 {
        pos := WholeWords(enc, buf, pos, s0, orig);
        if pos < buf.Length {
          TrailingBytes(enc, buf, pos, s0, orig);
        }
      }
      EndProgress(enc, s0, orig, Current(), buf[..]);
    }

    /** Ends a packet: writes its MAC and leaves the cipher to be given a new nonce. */
    method Finish(macOut: array<byte>)
      requires Valid()
      modifies this`sbuf, this`nbuf, R, CRC, macOut
      ensures Valid() && nbuf == 0
      ensures macOut[..] == Mac(old(Current()), macOut.Length)
    {
      hide MacFunc, XorAll, Diffuse, CycleR, Output, Mix, Draw, EndMark;
      ghost var s := Current();
      if nbuf != 0 {
        var m := mbuf;
        TakeMac(m);
      }
      MacFuncKeeps(s);
      Clock();
      MixKey(EndMark(nbuf));
      nbuf := 0;
      FoldCrc();
      Scramble();
      DrawBytes(macOut);
    }

    /** Fills the buffer with keystream. */
    method DrawBytes(out: array<byte>)
      requires Valid()
      modifies this`sbuf, R, out
      ensures out[..] == Draw(old(R[..]), konst, out.Length)
    {
      hide CycleR, Output, WriteLe, Draw;
      var n := out.Length;
      var pos := 0;
      ghost var goal := Draw(R[..], konst, n);
      assert out[..0] == [];
      while pos + 4 <= n
        invariant Valid() && 0 <= pos <= n
        invariant out[..pos] + Draw(R[..], konst, n - pos) == goal
        decreases n - pos
      {
        DrawWord(R[..], konst, n - pos, out[..pos]);
        ghost var before := out[..pos];
        Clock();
        WriteWord(out, pos, sbuf);
        assert out[..pos + 4] == before + WriteLe(sbuf);
        pos := pos + 4;
      }
      if pos < n {
        DrawTail(R[..], konst, n - pos);
        Clock();
        TailBytes(out, pos);
      } else {
        assert Draw(R[..], konst, 0) == [];
      }
      assert out[..n] == out[..];
    }

    /** The last, incomplete word of a MAC. */
    method TailBytes(out: array<byte>, start: nat)
      requires start < out.Length < start + 4
      modifies out
      ensures out[..] == old(out[..start]) + WriteLe(sbuf)[..out.Length - start]
    {
      hide ByteAt;
      ghost var before, w := out[..start], WriteLe(sbuf);
      var pos := start;
      var i: word := 0;
      while pos < out.Length
        invariant start <= pos <= out.Length
        invariant i == if pos == start then 0 else if pos == start + 1 then 1 else if pos == start + 2 then 2 else 3
        invariant out[..pos] == before + w[..pos - start]
        decreases out.Length - pos
      {
        out[pos] := ByteAt(sbuf, 8 * i);
        assert out[pos] == w[pos - start];
        pos := pos + 1;
        i := i + 1;
      }
      assert out[..out.Length] == out[..];
    }

    /** Ends a packet and compares its MAC with the one expected. */
    method CheckMac(expected: seq<byte>) returns (ok: bool)
      requires Valid()
      modifies this`sbuf, this`nbuf, R, CRC
      ensures Valid()
      ensures |expected| > 64 ==> !ok && Current() == old(Current())
      ensures |expected| <= 64 ==> (ok <==> expected == Mac(old(Current()), |expected|))
    {
      if |expected| > 64 {
        return false;
      }
      var actual := new byte[|expected|];
      Finish(actual);
      ok := SameBytes(actual, expected);
    }
  }

  /** Compares without stopping at the first difference. */
  method SameBytes(actual: array<byte>, expected: seq<byte>) returns (ok: bool)
    requires actual.Length == |expected|
    ensures ok <==> expected == actual[..]
  {
    hide Or, XorByte;
    var diff: byte := 0;
    for i := 0 to |expected|
      invariant diff == 0 <==> forall j :: 0 <= j < i ==> actual[j] == expected[j]
    {
      OrDiff(diff, actual[i], expected[i]);
      diff := Or(diff, XorByte(actual[i], expected[i]));
    }
    ok := diff == 0;
  }

  function Or(a: byte, b: byte): byte {
    a | b
  }

  /** The accumulated difference stays zero exactly while the bytes agree. */
  lemma OrDiff(d: byte, a: byte, b: byte)
    ensures Or(d, XorByte(a, b)) == 0 <==> d == 0 && a == b
  {
  }

  lemma MacFuncKeeps(s: State)
    requires s.Valid()
    ensures MacFunc(s, s.mbuf).konst == s.konst && MacFunc(s, s.mbuf).nbuf == s.nbuf
  {
  }

  lemma StartProgress(enc: bool, s0: State, orig: seq<byte>)
    requires s0.Valid()
    ensures Progress(enc, s0, orig, s0, orig, 0)
  {
  }

  lemma EndProgress(enc: bool, s0: State, orig: seq<byte>, s: State, b: seq<byte>)
    requires Progress(enc, s0, orig, s, b, |b|)
    ensures s0.Valid() && Run(enc, s0, orig) == (s, b)
  {
    assert orig[..|b|] == orig && b[..|b|] == b;
  }
}
