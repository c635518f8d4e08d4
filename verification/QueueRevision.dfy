/** The revision of a queue: a 64-bit FNV-1a hash of its URIs, in hexadecimal. */
module QueueRevision {
  import opened Bits
  import opened Chunks
  import opened Ctr

  const MAX64: nat := 0x1_0000_0000_0000_0000
  const OFFSET_BASIS: u64 := 0xcbf2_9ce4_8422_2325
  const PRIME: u64 := 0x100_0000_01b3

  /** The number that undoes a multiplication by the prime, modulo 2^64. */
  const INVERSE: u64 := 0xce96_5057_aff6_957b

  /** Exclusive or with a byte changes the low eight bits only. */
  function XorLow(h: u64, c: u8): (r: u64) {
    var high: int := h / 256;
    high * 256 + Xor(h % 256, c)
  }

  function Mix(h: u64, c: u8): (r: u64) {
    Times(XorLow(h, c))
  }

  function Times(x: u64): (r: u64) {
    x * PRIME % MAX64
  }

  function MixAll(h: u64, bytes: seq<u8>): (r: u64)
    decreases |bytes|
  {
    if bytes == [] then h else Mix(MixAll(h, bytes[..|bytes| - 1]), bytes[|bytes| - 1])
  }

  function ByteOf(c: char): u8 {
    c as int % 256
  }

  function UriBytes(uri: string): (b: seq<u8>)
    ensures |b| == |uri|
  {
    seq(|uri|, i requires 0 <= i < |uri| => ByteOf(uri[i]))
  }

  /** Each URI and a byte that ends it. */
  function Terminated(uris: seq<string>): (pieces: seq<seq<u8>>)
    ensures |pieces| == |uris|
  {
    seq(|uris|, i requires 0 <= i < |uris| => UriBytes(uris[i]) + [0xff])
  }

  /** A number as hexadecimal digits, most significant first. */
  function Hex(v: nat, n: nat): (s: string)
    ensures |s| == n
  {
    if n == 0 then [] else Hex(v / 16, n - 1) + [HexDigit(v % 16)]
  }

  function HexDigit(v: nat): char
    requires v < 16
  {
    if v < 10 then (v + '0' as int) as char else (v - 10 + 'a' as int) as char
  }

  /** Character i stands for the number's base-16 digit, the last character for the lowest. */
  lemma {:induction false} HexAt(v: nat, n: nat, i: nat)
    requires i < n
    ensures Hex(v, n)[i] == HexDigit(v / Pow2(4 * (n - 1 - i)) % 16)
  {
    hide HexDigit;
    if i == n - 1 {
      assert Pow2(0) == 1;
    } else {
      HexAt(v / 16, n - 1, i);
      FourBits(n - 2 - i);
      hide Pow2;
      DivDiv(v, 16, Pow2(4 * (n - 2 - i)));
    }
  }

  lemma FourBits(i: nat)
    ensures Pow2(4 * (i + 1)) == 16 * Pow2(4 * i)
  {
    Pow2Add(4, 4 * i);
    assert Pow2(4) == 16;
  }

  lemma HexDigits(v: nat)
    requires v < 16
    ensures HexDigit(v) == "0123456789abcdef"[v]
  {
  }

  function Revision(uris: seq<string>): (s: string) {
    Hex(MixAll(OFFSET_BASIS, Concat(Terminated(uris))), 16)
  }

  method ComputeQueueRevision(uris: seq<string>) returns (s: string)
    ensures s == Revision(uris)
  {
    hide Mix, Hex;
    var h := OFFSET_BASIS;
    assert Terminated(uris)[..0] == [];
    for n := 0 to |uris|
      invariant h == MixAll(OFFSET_BASIS, Concat(Terminated(uris)[..n]))
    {
      ghost var before := Concat(Terminated(uris)[..n]);
      var uri := uris[n];
      assert before + UriBytes(uri)[..0] == before;
      for i := 0 to |uri|
        invariant h == MixAll(OFFSET_BASIS, before + UriBytes(uri)[..i])
      {
        MixSnoc(OFFSET_BASIS, before + UriBytes(uri)[..i], ByteOf(uri[i]));
        OneMoreByte(before, uri, i);
        h := Mix(h, ByteOf(uri[i]));
      }
      assert UriBytes(uri)[..|uri|] == UriBytes(uri);
      MixSnoc(OFFSET_BASIS, before + UriBytes(uri), 0xff);
      h := Mix(h, 0xff);
      OneMore(uris, n);
    }
    assert Terminated(uris)[..|uris|] == Terminated(uris);
    s := Hex(h, 16);
  }

  /** FNV-1a, exclusive or before multiplication: the published hash of the letter a. */
  lemma HashOfA()
    ensures MixAll(OFFSET_BASIS, [0x61]) == 0xaf63_dc4c_8601_ec8c
  {
    hide Xor;
    assert [0x61][..0] == [];
    XorOf25And61();
  }

  /** What is hashed of one URI: its bytes, and the byte that ends it. */
  lemma TerminatedA()
    ensures Concat(Terminated(["a"])) == [0x61, 0xff]
  {
    var pieces := Terminated(["a"]);
    assert pieces[0] == UriBytes("a") + [0xff] && UriBytes("a")[0] == 0x61;
    assert pieces[1..] == [];
  }

  lemma XorOf25And61()
    ensures Xor(0x25, 0x61) == 0x44
  {
    assert XorBits(2, 6, 4) == 4;
    assert XorBits(0x25, 0x61, 8) == 0x44;
  }

  lemma OneMoreByte(before: seq<u8>, uri: string, i: nat)
    requires i < |uri|
    ensures before + UriBytes(uri)[..i] + [ByteOf(uri[i])] == before + UriBytes(uri)[..i + 1]
  {
    assert UriBytes(uri)[..i] + [UriBytes(uri)[i]] == UriBytes(uri)[..i + 1];
  }

  lemma MixSnoc(h: u64, b: seq<u8>, c: u8)
    ensures MixAll(h, b + [c]) == Mix(MixAll(h, b), c)
  {
    assert (b + [c])[..|b|] == b;
  }

  lemma OneMore(uris: seq<string>, n: nat)
    requires n < |uris|
    ensures Concat(Terminated(uris)[..n + 1]) == Concat(Terminated(uris)[..n]) + UriBytes(uris[n]) + [0xff]
  {
    var pieces := Terminated(uris);
    ConcatSnoc(pieces[..n], pieces[n]);
    assert pieces[..n] + [pieces[n]] == pieces[..n + 1];
  }

  // ---------------------------------------------------------------- the revision tells queues apart

  lemma TimesUndone(x: u64)
    ensures Times(x) * INVERSE % MAX64 == x
  {
    var p := x * PRIME;
    DivMod(p, MAX64);
    var q, r := p / MAX64, p % MAX64;
    assert PRIME * INVERSE == 1 + MAX64 * 887285111055;
    MulAssoc(x, PRIME, INVERSE);
    MulDistribute(r, MAX64 * q, INVERSE);
    MulAssoc(MAX64, q, INVERSE);
    DivModUnique(r * INVERSE, MAX64, x * 887285111055 - q * INVERSE, x);
  }

  lemma {:induction false} XorBitsCommute(a: nat, b: nat, k: nat)
    ensures XorBits(a, b, k) == XorBits(b, a, k)
  {
    if k > 0 {
      XorBitsCommute(a / 2, b / 2, k - 1);
    }
  }

  /** Another byte, or another hash before it, gives another hash. */
  lemma MixInjective(h: u64, g: u64, c: u8, d: u8)
    ensures c != d ==> Mix(h, c) != Mix(h, d)
    ensures h != g ==> Mix(h, c) != Mix(g, c)
  {
    hide XorLow, Times;
    TimesUndone(XorLow(h, c));
    TimesUndone(XorLow(h, d));
    TimesUndone(XorLow(g, c));
    XorLowInjective(h, g, c, d);
  }

  lemma XorLowInjective(h: u64, g: u64, c: u8, d: u8)
    ensures c != d ==> XorLow(h, c) != XorLow(h, d)
    ensures h != g ==> XorLow(h, c) != XorLow(g, c)
  {
    hide Xor;
    XorInjective(h % 256, g % 256, c, d);
    XorLowParts(h, c);
    XorLowParts(h, d);
    XorLowParts(g, c);
  }

  lemma XorLowParts(h: u64, c: u8)
    ensures XorLow(h, c) / 256 == h / 256 && XorLow(h, c) % 256 == Xor(h % 256, c)
  {
    hide Xor;
  }

  lemma XorInjective(x: u8, y: u8, c: u8, d: u8)
    ensures c != d ==> Xor(x, c) != Xor(x, d)
    ensures x != y ==> Xor(x, c) != Xor(y, c)
  {
    hide XorBits, Pow2;
    XorBitsCommute(x, c, 8);
    XorBitsCommute(x, d, 8);
    XorTwice(c, x);
    XorTwice(d, x);
    XorTwice(x, c);
    XorTwice(y, c);
  }

  lemma {:induction false} MixAllInjective(h: u64, a: seq<u8>, b: seq<u8>, i: nat)
    requires |a| == |b| && i < |a| && a[i] != b[i] && forall j :: 0 <= j < |a| && j != i ==> a[j] == b[j]
    ensures MixAll(h, a) != MixAll(h, b)
    decreases |a|
  {
    hide Mix;
    var n := |a| - 1;
    if i == n {
      assert a[..n] == b[..n];
    } else {
      MixAllInjective(h, a[..n], b[..n], i);
    }
    MixInjective(MixAll(h, a[..n]), MixAll(h, b[..n]), a[n], b[n]);
  }

  lemma {:induction false} HexInjective(v: nat, w: nat, n: nat)
    requires v < Pow2(4 * n) && w < Pow2(4 * n) && v != w
    ensures Hex(v, n) != Hex(w, n)
  {
    if n > 0 {
      FourBits(n - 1);
      hide Pow2, HexDigit;
      if v / 16 != w / 16 {
        HexInjective(v / 16, w / 16, n - 1);
        assert Hex(v, n)[..n - 1] == Hex(v / 16, n - 1) && Hex(w, n)[..n - 1] == Hex(w / 16, n - 1);
      } else {
        DigitsDiffer(v % 16, w % 16);
        assert Hex(v, n)[n - 1] == HexDigit(v % 16) && Hex(w, n)[n - 1] == HexDigit(w % 16);
      }
    }
  }

  lemma DigitsDiffer(a: nat, b: nat)
    requires a < 16 && b < 16 && a != b
    ensures HexDigit(a) != HexDigit(b)
  {
  }

  /** A queue in which one character of one URI is another byte has another revision. */
  lemma RevisionChanges(uris: seq<string>, n: nat, i: nat, c: char)
    requires n < |uris| && i < |uris[n]| && ByteOf(c) != ByteOf(uris[n][i])
    ensures Revision(uris[n := uris[n][i := c]]) != Revision(uris)
  {
    hide MixAll, Hex, Terminated, Concat;
    var changed := uris[n := uris[n][i := c]];
    var x, y := Concat(Terminated(uris)), Concat(Terminated(changed));
    var p := OneByteDiffers(uris, n, i, c);
    MixAllInjective(OFFSET_BASIS, y, x, p);
    HashesDiffer(MixAll(OFFSET_BASIS, y), MixAll(OFFSET_BASIS, x));
  }

  lemma HashesDiffer(h: u64, g: u64)
    requires h != g
    ensures Hex(h, 16) != Hex(g, 16)
  {
    hide Hex;
    Pow2Values();
    Pow2Add(32, 32);
    hide Pow2;
    HexInjective(h, g, 16);
  }

  lemma OneByteDiffers(uris: seq<string>, n: nat, i: nat, c: char) returns (p: nat)
    requires n < |uris| && i < |uris[n]| && ByteOf(c) != ByteOf(uris[n][i])
    ensures var x, y := Concat(Terminated(uris)), Concat(Terminated(uris[n := uris[n][i := c]]));
      && |x| == |y| && p < |x| && x[p] != y[p]
      && forall j :: 0 <= j < |x| && j != p ==> x[j] == y[j]
  {
    hide ByteOf, Concat;
    var a, b := Terminated(uris), Terminated(uris[n := uris[n][i := c]]);
    assert a[..n] == b[..n] && a[n + 1..] == b[n + 1..];
    Around(a, n);
    Around(b, n);
    p := |Concat(a[..n])| + i;
  }

  lemma Around<T>(pieces: seq<seq<T>>, n: nat)
    requires n < |pieces|
    ensures Concat(pieces) == Concat(pieces[..n]) + pieces[n] + Concat(pieces[n + 1..])
  {
    hide Concat;
    ConcatAppend(pieces[..n], pieces[n..]);
    assert pieces[..n] + pieces[n..] == pieces;
    FirstOf(pieces[n..]);
    assert pieces[n..][1..] == pieces[n + 1..];
    Assoc(Concat(pieces[..n]), pieces[n], Concat(pieces[n + 1..]));
  }

  lemma FirstOf<T>(pieces: seq<seq<T>>)
    requires pieces != []
    ensures Concat(pieces) == pieces[0] + Concat(pieces[1..])
  {
  }
}
