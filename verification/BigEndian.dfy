/** Byte strings as numbers, most significant byte first. */
module BigEndian {
  import opened Bits

  function BeVal(b: seq<u8>): nat {
    if b == [] then 0 else BeVal(b[..|b| - 1]) * 256 + b[|b| - 1]
  }

  lemma BeSnoc(b: seq<u8>, x: u8)
    ensures BeVal(b + [x]) == BeVal(b) * 256 + x
  {
  }

  lemma BeTake(b: seq<u8>, i: nat)
    requires i < |b|
    ensures BeVal(b[..i + 1]) == BeVal(b[..i]) * 256 + b[i]
  {
    assert b[..i] + [b[i]] == b[..i + 1];
    BeSnoc(b[..i], b[i]);
  }

  lemma {:induction false} BeAppend(a: seq<u8>, b: seq<u8>)
    ensures BeVal(a + b) == BeVal(a) * Pow2(8 * |b|) + BeVal(b)
  {
    if b == [] {
      assert a + b == a;
    } else {
      var k := |b| - 1;
      var x := b[k];
      assert a + b == (a + b[..k]) + [x];
      BeAppend(a, b[..k]);
      BeSnoc(a + b[..k], x);
      Pow2Add(8, 8 * k);
      Pow2Values();
      hide BeVal, Pow2;
      MulAssoc(BeVal(a), Pow2(8 * k), 256);
    }
  }

  lemma {:induction false} BeBound(b: seq<u8>)
    ensures BeVal(b) < Pow2(8 * |b|)
  {
    if b != [] {
      var k := |b| - 1;
      BeBound(b[..k]);
      Pow2Add(8, 8 * k);
      Pow2Values();
    }
  }

  lemma {:induction false} BeZeros(n: nat)
    ensures BeVal(seq(n, _ => 0)) == 0
  {
    if n > 0 {
      BeZeros(n - 1);
      assert seq(n, _ => 0)[..n - 1] == seq(n - 1, _ => 0);
    }
  }

  /** The n bytes of v. */
  function BeBytes(v: nat, n: nat): (b: seq<u8>)
    ensures |b| == n
  {
    if n == 0 then [] else BeBytes(v / 256, n - 1) + [v % 256]
  }

  lemma {:induction false} BeBytesVal(v: nat, n: nat)
    requires v < Pow2(8 * n)
    ensures BeVal(BeBytes(v, n)) == v
  {
    if n > 0 {
      Pow2Add(8, 8 * (n - 1));
      Pow2Values();
      hide BeVal, Pow2;
      BeBytesVal(v / 256, n - 1);
      BeSnoc(BeBytes(v / 256, n - 1), v % 256);
    } else {
      assert Pow2(0) == 1;
    }
  }

  lemma {:induction false} BeBytesOfVal(b: seq<u8>)
    ensures BeBytes(BeVal(b), |b|) == b
  {
    if b != [] {
      var k := |b| - 1;
      BeBytesOfVal(b[..k]);
      assert b == b[..k] + [b[k]];
      assert BeVal(b) / 256 == BeVal(b[..k]) && BeVal(b) % 256 == b[k];
    }
  }

  /** Byte strings of one length are determined by their value. */
  lemma BeUnique(a: seq<u8>, b: seq<u8>)
    requires |a| == |b| && BeVal(a) == BeVal(b)
    ensures a == b
  {
  }

  /** Byte i of a number's bytes is its base-256 digit, the last byte the lowest. */
  lemma {:induction false} BeDigit(b: seq<u8>, i: nat)
    requires i < |b|
    ensures BeVal(b) / Pow2(8 * (|b| - 1 - i)) % 256 == b[i]
  {
    var k := |b| - 1;
    if i == k {
      assert Pow2(0) == 1;
    } else {
      hide Pow2;
      BeDigit(b[..k], i);
      assert BeVal(b) / 256 == BeVal(b[..k]);
      DivDiv(BeVal(b), 256, Pow2(8 * (k - 1 - i)));
      Pow2Add(8, 8 * (k - 1 - i));
      Pow2Values();
    }
  }

  /** Setting byte i to x. */
  lemma BeUpdate(b: seq<u8>, i: nat, x: u8)
    requires i < |b|
    ensures BeVal(b[i := x]) == BeVal(b) + (x - b[i]) * Pow2(8 * (|b| - 1 - i))
  {
    hide BeVal, Pow2;
    var p, q := b[..i], b[i + 1..];
    var before, after := p + [b[i]], p + [x];
    assert b == before + q;
    assert b[i := x] == after + q;
    BeAppend(before, q);
    BeAppend(after, q);
    BeSnoc(p, b[i]);
    BeSnoc(p, x);
    var e, m, w := BeVal(before), x - b[i], Pow2(8 * |q|);
    assert BeVal(after) == e + m;
    MulDistribute(e, m, w);
    assert |q| == |b| - 1 - i;
  }
}
