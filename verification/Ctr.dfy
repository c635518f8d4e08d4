/** AES-128 in counter mode (section 6.5 of NIST SP 800-38A), over any block function. */
module Ctr {
  import opened Bits
  import opened BigEndian

  type Block = b: seq<u8> | |b| == 16 witness seq(16, _ => 0)

  /** The forward cipher under one key. */
  type BlockCipher = Block -> Block

  // ---------------------------------------------------------------- exclusive or of bytes

  function XorBits(a: nat, b: nat, k: nat): (r: nat)
    ensures r < Pow2(k)
  {
    if k == 0 then 0 else (if a % 2 != b % 2 then 1 else 0) + 2 * XorBits(a / 2, b / 2, k - 1)
  }

  function Xor(a: u8, b: u8): (r: u8) {
    Pow2Values();
    XorBits(a, b, 8)
  }

  lemma XorBitsHalved(a: nat, b: nat, k: nat)
    requires k > 0
    ensures XorBits(a, b, k) / 2 == XorBits(a / 2, b / 2, k - 1)
    ensures XorBits(a, b, k) % 2 == if a % 2 != b % 2 then 1 else 0
  {
  }

  lemma {:induction false} XorBitsTwice(a: nat, b: nat, k: nat)
    requires a < Pow2(k)
    ensures XorBits(XorBits(a, b, k), b, k) == a
  {
    if k > 0 {
      XorBitsTwice(a / 2, b / 2, k - 1);
      var x := XorBits(a, b, k);
      hide XorBits;
      XorBitsHalved(a, b, k);
      XorBitsHalved(x, b, k);
    }
  }

  /** Bit j of an exclusive or is set when the bits of the two numbers differ. */
  lemma {:induction false} XorBitsAt(a: nat, b: nat, k: nat, j: nat)
    requires j < k
    ensures XorBits(a, b, k) / Pow2(j) % 2 == 1 <==> a / Pow2(j) % 2 != b / Pow2(j) % 2
  {
    if j == 0 {
      assert Pow2(0) == 1;
    } else {
      hide Pow2, XorBits;
      XorBitsAt(a / 2, b / 2, k - 1, j - 1);
      XorBitsHalved(a, b, k);
      HalfThenShift(a, j);
      HalfThenShift(b, j);
      HalfThenShift(XorBits(a, b, k), j);
    }
  }

  /** Numbers below 2^k are not changed by zero, and cancel themselves. */
  lemma {:induction false} XorBitsZero(a: nat, k: nat)
    requires a < Pow2(k)
    ensures XorBits(a, 0, k) == a && XorBits(a, a, k) == 0
  {
    if k > 0 {
      XorBitsZero(a / 2, k - 1);
    }
  }

  /** Exclusive or of bytes, bit by bit. */
  lemma XorAt(a: u8, b: u8, j: nat)
    requires j < 8
    ensures Xor(a, b) / Pow2(j) % 2 == 1 <==> a / Pow2(j) % 2 != b / Pow2(j) % 2
    ensures Xor(a, 0) == a && Xor(a, a) == 0
  {
    hide XorBits, Pow2;
    Pow2Values();
    XorBitsAt(a, b, 8, j);
    XorBitsZero(a, 8);
  }

  lemma XorTwice(a: u8, b: u8)
    ensures Xor(Xor(a, b), b) == a
  {
    hide XorBits, Pow2;
    Pow2Values();
    XorBitsTwice(a, b, 8);
  }

  // ---------------------------------------------------------------- what counter mode is

  /** What 16 bytes keep of a number. */
  function Low128(x: nat): (r: nat)
    ensures r < Pow2(128)
  {
    DivMod(x, Pow2(128));
    x % Pow2(128)
  }

  /** The counter n blocks on, modulo 2^128. */
  function Ahead(counter: Block, n: nat): (c: Block) {
    BeBytes(Low128(BeVal(counter) + n), 16)
  }

  /** The standard's definition: a block of input against the cipher of each counter, the last block cut short. */
  function Encrypt(aes: BlockCipher, counter: Block, data: seq<u8>): (out: seq<u8>)
    ensures |out| == |data|
    decreases |data|
  {
    if |data| <= 16 then XorWith(data, aes(counter))
    else XorWith(data[..16], aes(counter)) + Encrypt(aes, Ahead(counter, 1), data[16..])
  }

  function XorWith(data: seq<u8>, keystream: Block): (out: seq<u8>)
    requires |data| <= 16
    ensures |out| == |data|
  {
    seq(|data|, i requires 0 <= i < |data| => Xor(data[i], keystream[i]))
  }

  /** Byte k of the keystream. */
  function KeyByte(aes: BlockCipher, iv: Block, k: nat): u8 {
    aes(Ahead(iv, k / 16))[k % 16]
  }

  /** Bytes that stand at an offset in the stream, each against its own keystream byte. */
  function EncryptAt(aes: BlockCipher, iv: Block, offset: nat, data: seq<u8>): (out: seq<u8>)
    ensures |out| == |data|
  {
    seq(|data|, i requires 0 <= i < |data| => Xor(data[i], KeyByte(aes, iv, offset + i)))
  }

  lemma AheadValue(counter: Block, n: nat)
    ensures BeVal(Ahead(counter, n)) == Low128(BeVal(counter) + n)
  {
    hide BeVal, BeBytes, Pow2, Low128;
    BeBytesVal(Low128(BeVal(counter) + n), 16);
  }

  lemma AheadTwice(counter: Block, m: nat, n: nat)
    ensures Ahead(Ahead(counter, m), n) == Ahead(counter, m + n)
  {
    hide BeVal, BeBytes, Pow2, Ahead, Low128;
    var v := BeVal(counter);
    AheadValue(counter, m);
    AheadValue(Ahead(counter, m), n);
    AheadValue(counter, m + n);
    Low128Add(v + m, n);
    assert v + (m + n) == v + m + n;
    BeUnique(Ahead(Ahead(counter, m), n), Ahead(counter, m + n));
  }

  lemma Low128Add(a: nat, b: nat)
    ensures Low128(Low128(a) + b) == Low128(a + b)
  {
    hide Pow2;
    var p := Pow2(128);
    DivMod(a, p);
    DivMod(a % p + b, p);
    var q, r := (a % p + b) / p, (a % p + b) % p;
    MulDistribute(q, a / p, p);
    DivModUnique(a + b, p, q + a / p, r);
  }

  lemma AheadZero(counter: Block)
    ensures Ahead(counter, 0) == counter
  {
    BeBound(counter);
    assert |counter| == 16;
    hide Pow2, BeVal, BeBytes;
    DivModUnique(BeVal(counter), Pow2(128), 0, BeVal(counter));
    BeBytesOfVal(counter);
  }

  /** The block-by-block definition is the byte-by-byte one. */
  lemma {:induction false} EncryptIsAtZero(aes: BlockCipher, iv: Block, n: nat, data: seq<u8>)
    ensures Encrypt(aes, Ahead(iv, n), data) == EncryptAt(aes, iv, 16 * n, data)
    decreases |data|
  {
    hide Ahead, Xor;
    if |data| > 16 {
      var rest := data[16..];
      AheadTwice(iv, n, 1);
      EncryptIsAtZero(aes, iv, n + 1, rest);
      forall i | 16 <= i < |data|
        ensures EncryptAt(aes, iv, 16 * (n + 1), rest)[i - 16] == EncryptAt(aes, iv, 16 * n, data)[i]
      {
        assert 16 * (n + 1) + (i - 16) == 16 * n + i;
      }
    }
  }

  /** Reading at an offset gives the slice of the whole stream that lies there. */
  lemma SeekIsSlice(aes: BlockCipher, iv: Block, data: seq<u8>, from: nat, to: nat)
    requires from <= to <= |data|
    ensures EncryptAt(aes, iv, from, data[from..to]) == Encrypt(aes, iv, data)[from..to]
  {
    hide Ahead, Xor, Encrypt;
    AheadZero(iv);
    EncryptIsAtZero(aes, iv, 0, data);
  }

  /**
   * The byte at place k of a stream is its exclusive or with byte k % 16 of the enciphered counter block whose
   * number is k / 16 more than that of the first, modulo 2^128.
   */
  lemma StreamByte(aes: BlockCipher, iv: Block, data: seq<u8>, k: nat, counter: Block)
    requires k < |data| && BeVal(counter) == (BeVal(iv) + k / 16) % Pow2(128)
    ensures Encrypt(aes, iv, data)[k] == Xor(data[k], aes(counter)[k % 16])
  {
    hide Ahead, Xor, Encrypt, BeVal, Pow2;
    AheadZero(iv);
    EncryptIsAtZero(aes, iv, 0, data);
    AheadValue(iv, k / 16);
    BeUnique(counter, Ahead(iv, k / 16));
  }

  /** Two neighbouring stretches are one. */
  lemma EncryptSplit(aes: BlockCipher, iv: Block, offset: nat, a: seq<u8>, b: seq<u8>)
    ensures EncryptAt(aes, iv, offset, a + b) ==
      EncryptAt(aes, iv, offset, a) + EncryptAt(aes, iv, offset + |a|, b)
  {
    hide Xor, KeyByte;
    forall i | |a| <= i < |a| + |b|
      ensures EncryptAt(aes, iv, offset, a + b)[i] == EncryptAt(aes, iv, offset + |a|, b)[i - |a|]
    {
      assert offset + i == offset + |a| + (i - |a|);
    }
  }

  /** What was enciphered as a whole is deciphered from any offset on. */
  lemma DecryptUndoes(aes: BlockCipher, iv: Block, data: seq<u8>, from: nat, to: nat)
    requires from <= to <= |data|
    ensures EncryptAt(aes, iv, from, Encrypt(aes, iv, data)[from..to]) == data[from..to]
  {
    hide Encrypt, Xor, KeyByte;
    SeekIsSlice(aes, iv, data, from, to);
    forall i | from <= i < to
      ensures Xor(Xor(data[i], KeyByte(aes, iv, i)), KeyByte(aes, iv, i)) == data[i]
    {
      XorTwice(data[i], KeyByte(aes, iv, i));
    }
  }

  // ---------------------------------------------------------------- the counter in place

  /** Adds one, byte by byte from the last, stopping at the first that does not wrap. */
  method Increment(counter: array<u8>)
    requires counter.Length == 16
    modifies counter
    ensures counter[..] == Ahead(old(counter[..]), 1)
  {
    hide BeVal, BeBytes, Pow2, Ahead;
    ghost var start := counter[..];
    Pow2Zero();
    var i := 15;
    while i >= 0
      invariant -1 <= i <= 15
      invariant BeVal(counter[..]) + Pow2(8 * (15 - i)) == BeVal(start) + 1
    {
      ghost var now := counter[..];
      var x: int := counter[i];
      x := (x + 1) % 256;
      counter[i] := x;
      assert counter[..] == now[i := x];
      BeUpdate(now, i, x);
      CarryOut(now[i], x, 15 - i);
      if counter[i] != 0 {
        CounterIs(start, counter[..], 1, 0);
        return;
      }
      i := i - 1;
    }
    CounterIs(start, counter[..], 1, 1);
  }

  /** A byte that wraps to zero passes its weight times 256 on. */
  lemma CarryOut(b: u8, x: u8, i: nat)
    requires x == (b + 1) % 256
    ensures (x - b) * Pow2(8 * i) == Pow2(8 * i) - (if x == 0 then Pow2(8 * (i + 1)) else 0)
  {
    Pow2Add(8, 8 * i);
    Pow2Values();
    hide Pow2;
    var w := Pow2(8 * i);
    assert Pow2(8 * (i + 1)) == 256 * w;
    if x == 0 {
      assert x - b == -255;
    } else {
      assert x - b == 1;
    }
  }

  /** What is left of a sum in 16 bytes when multiples of 2^128 are dropped. */
  lemma CounterIs(start: Block, now: Block, n: nat, carry: nat)
    requires BeVal(now) + carry * Pow2(128) == BeVal(start) + n
    ensures now == Ahead(start, n)
  {
    hide BeVal, BeBytes, Pow2, Ahead;
    BeBound(now);
    assert |now| == 16;
    DivModUnique(BeVal(start) + n, Pow2(128), carry, BeVal(now));
    AheadValue(start, n);
    BeUnique(now, Ahead(start, n));
  }

  /** Adds a 64-bit number of blocks, from the last byte, while anything is carried. */
  method AddBlocks(counter: array<u8>, blocks: u64)
    requires counter.Length == 16
    modifies counter
    ensures counter[..] == Ahead(old(counter[..]), blocks)
  {
    hide BeVal, BeBytes, Pow2, Ahead;
    ghost var start := counter[..];
    var carry: u64 := blocks;
    var i := 15;
    Pow2Zero();
    while i >= 0 && carry != 0
      invariant -1 <= i <= 15
      invariant BeVal(counter[..]) + carry * Pow2(8 * (15 - i)) == BeVal(start) + blocks
    {
      var sum: u64 := counter[i] + carry % 256;
      ghost var now, x := counter[..], sum % 256;
      counter[i] := sum % 256;
      assert counter[..] == now[i := x];
      BeUpdate(now, i, x);
      CarryOn(now[i], carry, 15 - i);
      carry := carry / 256 + sum / 256;
      i := i - 1;
    }
    CounterSettled(start, counter[..], blocks, carry, i);
  }

  lemma Pow2Zero()
    ensures Pow2(0) == 1
  {
  }

  lemma CarryOn(b: u8, carry: nat, i: nat)
    ensures var sum := b + carry % 256;
      (sum % 256 - b) * Pow2(8 * i) + (carry / 256 + sum / 256) * Pow2(8 * (i + 1)) == carry * Pow2(8 * i)
  {
    Pow2Add(8, 8 * i);
    Pow2Values();
    hide Pow2;
    var w, sum := Pow2(8 * i), b + carry % 256;
    var q := carry / 256 + sum / 256;
    assert Pow2(8 * (i + 1)) == 256 * w;
    MulAssoc(q, 256, w);
    MulDistribute(sum % 256 - b, 256 * q, w);
    assert sum % 256 - b + 256 * q == carry;
  }

  lemma CounterSettled(start: Block, now: Block, n: nat, carry: nat, i: int)
    requires -1 <= i <= 15 && (i >= 0 ==> carry == 0)
    requires BeVal(now) + carry * Pow2(8 * (15 - i)) == BeVal(start) + n
    ensures now == Ahead(start, n)
  {
    hide BeVal, Pow2, Ahead;
    CounterIs(start, now, n, carry);
  }

  // ---------------------------------------------------------------- the two entry points

  /** The keystream bytes of one block. */
  lemma KeyBytesOf(aes: BlockCipher, iv: Block, block: nat)
    ensures forall j :: 16 * block <= j < 16 * block + 16 ==>
      KeyByte(aes, iv, j) == aes(Ahead(iv, block))[j - 16 * block]
  {
    hide Ahead;
    forall j | 16 * block <= j < 16 * block + 16
      ensures KeyByte(aes, iv, j) == aes(Ahead(iv, block))[j - 16 * block]
    {
      DivModUnique(j, 16, block, j - 16 * block);
    }
  }

  /** One block of keystream over the next bytes: what the inner loops do. */
  method XorInto(buf: array<u8>, pos: nat, n: nat, keystream: Block, skip: nat)
    requires pos + n <= buf.Length && skip + n <= 16
    modifies buf
    ensures forall k :: 0 <= k < buf.Length ==>
      buf[k] == if pos <= k < pos + n then Xor(old(buf[k]), keystream[skip + k - pos]) else old(buf[k])
  {
    hide Xor;
    for i := 0 to n
      invariant forall k :: 0 <= k < buf.Length ==>
        buf[k] == if pos <= k < pos + i then Xor(old(buf[k]), keystream[skip + k - pos]) else old(buf[k])
    {
      buf[pos + i] := Xor(buf[pos + i], keystream[skip + i]);
    }
  }

  /** Enciphers or deciphers a stream from its start. */
  method Aes128Ctr(aes: BlockCipher, iv: Block, buf: array<u8>)
    modifies buf
    ensures buf[..] == Encrypt(aes, iv, old(buf[..]))
  {
    hide Xor, Ahead, Encrypt, KeyByte;
    AheadZero(iv);
    ghost var start := buf[..];
    var counter := new u8[16](i requires 0 <= i < 16 => iv[i]);
    assert counter[..] == iv;
    var pos: nat, blocks: nat := 0, 0;
    while pos < buf.Length
      invariant pos <= buf.Length && (pos < buf.Length ==> pos == 16 * blocks)
      invariant counter[..] == Ahead(iv, blocks)
      invariant forall k :: 0 <= k < buf.Length ==>
        buf[k] == if k < pos then Xor(old(buf[k]), KeyByte(aes, iv, k)) else old(buf[k])
    {
      var keystream := aes(counter[..]);
      KeyBytesOf(aes, iv, blocks);
      var chunk := if buf.Length - pos > 16 then 16 else buf.Length - pos;
      XorInto(buf, pos, chunk, keystream, 0);
      pos := pos + chunk;
      Increment(counter);
      AheadTwice(iv, blocks, 1);
      blocks := blocks + 1;
    }
    EncryptIsAtZero(aes, iv, 0, start);
  }

  /** Enciphers or deciphers bytes that stand at any 64-bit offset in the stream. */
  method Aes128CtrAt(aes: BlockCipher, iv: Block, offset: u64, buf: array<u8>)
    modifies buf
    ensures buf[..] == EncryptAt(aes, iv, offset, old(buf[..]))
  {
    hide Xor, Ahead, KeyByte;
    if buf.Length == 0 {
      return;
    }
    var counter := new u8[16](i requires 0 <= i < 16 => iv[i]);
    assert counter[..] == iv;
    AddBlocks(counter, offset / 16);
    var skip := offset % 16;
    var pos: nat, block: nat := 0, offset / 16;
    while pos < buf.Length
      invariant pos <= buf.Length && 0 <= skip < 16
      invariant pos < buf.Length ==> 16 * block + skip == offset + pos
      invariant counter[..] == Ahead(iv, block)
      invariant forall k :: 0 <= k < buf.Length ==>
        buf[k] == if k < pos then Xor(old(buf[k]), KeyByte(aes, iv, offset + k)) else old(buf[k])
    {
      var keystream := aes(counter[..]);
      KeyBytesOf(aes, iv, block);
      var take := 16 - skip;
      if take > buf.Length - pos {
        take := buf.Length - pos;
      }
      XorInto(buf, pos, take, keystream, skip);
      pos := pos + take;
      skip := 0;
      Increment(counter);
      AheadTwice(iv, block, 1);
      block := block + 1;
    }
  }
}
