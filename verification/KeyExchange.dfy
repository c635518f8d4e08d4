/** Byte forms of big integers, and the Diffie-Hellman exchange built on them. */
module KeyExchange {
  import opened Bits
  import opened BigNat
  import opened BigEndian
  import opened Modular
  import opened BigUint

  /** Byte position r is worth 256^r: a limb position and a shift within the limb. */
  lemma BytePlace(r: nat)
    ensures Pow2(r % 4 * 8) * BasePow(r / 4) == Pow2(8 * r)
  {
    BasePowIsPow2(r / 4);
    Pow2Add(r % 4 * 8, 32 * (r / 4));
    assert r % 4 * 8 + 32 * (r / 4) == 8 * r;
  }

  /** The bytes above position m are in their limbs: limb m / 4 has room below its byte m % 4. */
  ghost predicate RoomBelow(l: seq<u32>, m: nat) {
    && (forall k :: 0 <= k < |l| && k < m / 4 ==> l[k] == 0)
    && (m / 4 < |l| ==> l[m / 4] % Pow2(m % 4 * 8) == 0)
  }

  /** Or-ing byte x into place r, just below the bytes that are there, adds its worth. */
  lemma OrByte(l: seq<u32>, r: nat, x: u8)
    requires r / 4 < |l| && RoomBelow(l, r + 1)
    ensures 0 <= l[r / 4] + x * Pow2(r % 4 * 8) < BASE
    ensures RoomBelow(l[r / 4 := l[r / 4] + x * Pow2(r % 4 * 8)], r)
    ensures Val(l[r / 4 := l[r / 4] + x * Pow2(r % 4 * 8)]) == Val(l) + x * Pow2(8 * r)
  {
    var k, s := r / 4, Pow2(r % 4 * 8);
    var v := x * s;
    ByteFits(l, r, x);
    ValUpdate(l, k, l[k] + v);
    MulAssoc(x, s, BasePow(k));
    BytePlace(r);
  }

  lemma ByteFits(l: seq<u32>, r: nat, x: u8)
    requires r / 4 < |l| && RoomBelow(l, r + 1)
    ensures 0 <= l[r / 4] + x * Pow2(r % 4 * 8) < BASE
    ensures (l[r / 4] + x * Pow2(r % 4 * 8)) % Pow2(r % 4 * 8) == 0
  {
    var v, j := l[r / 4], r % 4;
    BytePowers();
    if j == 3 {
      assert (r + 1) / 4 == r / 4 + 1 && v == 0;
      hide Pow2;
      ByteFitsAt(v, x, j, Pow2(24));
    } else {
      assert (r + 1) / 4 == r / 4 && (r + 1) % 4 == j + 1;
      hide Pow2;
      assert v % Pow2((j + 1) * 8) == 0;
      ByteFitsAt(v, x, j, Pow2(j * 8));
    }
  }

  lemma BytePowers()
    ensures Pow2(0) == 1 && Pow2(8) == 0x100 && Pow2(16) == 0x1_0000 && Pow2(24) == 0x100_0000
  {
  }

  lemma ByteFitsAt(v: u32, x: u8, j: nat, s: nat)
    requires || (j == 0 && s == 1 && v % 0x100 == 0)
             || (j == 1 && s == 0x100 && v % 0x1_0000 == 0)
             || (j == 2 && s == 0x1_0000 && v % 0x100_0000 == 0)
             || (j == 3 && s == 0x100_0000 && v == 0)
    ensures 0 <= v + x * s < BASE && (v + x * s) % s == 0
  {
  }

  lemma WorthOfPrefix(data: seq<u8>, i: nat)
    requires i < |data|
    ensures BeVal(data[..i + 1]) * Pow2(8 * (|data| - i - 1)) ==
            BeVal(data[..i]) * Pow2(8 * (|data| - i)) + data[i] * Pow2(8 * (|data| - i - 1))
  {
    var m := |data| - i - 1;
    BeTake(data, i);
    Pow2Add(8, 8 * m);
    Pow2Values();
    hide Pow2, BeVal;
    MulDistribute(BeVal(data[..i]) * 256, data[i], Pow2(8 * m));
    MulAssoc(BeVal(data[..i]), 256, Pow2(8 * m));
  }

  lemma NothingRead(data: seq<u8>)
    ensures BeVal(data[..0]) * Pow2(8 * |data|) == 0
  {
  }

  /** Big-endian bytes, most significant first, into limbs. */
  method FromBe(data: seq<u8>) returns (r: BigUint)
    ensures fresh(r) && r.Valid() && r.Value() == BeVal(data)
  {
    hide Pow2, Val, BeVal;
    r := new BigUint();
    var len := |data|;
    r.limbs := seq((len + 3) / 4, _ => 0);
    ValZeros((len + 3) / 4);
    NothingRead(data);
    for i := 0 to len
      invariant |r.limbs| == (len + 3) / 4
      invariant RoomBelow(r.limbs, len - i)
      invariant Val(r.limbs) == BeVal(data[..i]) * Pow2(8 * (len - i))
    {
      var rev := len - 1 - i;
      OrByte(r.limbs, rev, data[i]);
      WorthOfPrefix(data, i);
      r.limbs := r.limbs[rev / 4 := r.limbs[rev / 4] + data[i] * Pow2(rev % 4 * 8)];
    }
    assert data[..len] == data;
    Pow2Zero();
    r.Trim();
  }

  /** The shortest big-endian form. */
  predicate Canonical(b: seq<u8>) {
    b == [] || b[0] != 0
  }

  /** The four bytes of a limb, most significant first. */
  function LimbBytes(v: u32): (b: seq<u8>)
    ensures |b| == 4
  {
    [v / 0x100_0000 % 256, v / 0x1_0000 % 256, v / 0x100 % 256, v % 256]
  }

  lemma FourBytes(a: u8, b: u8, c: u8, d: u8)
    ensures BeVal([a, b, c, d]) == ((a * 256 + b) * 256 + c) * 256 + d
  {
    assert [] + [a] == [a] && [a] + [b] == [a, b] && [a, b] + [c] == [a, b, c] && [a, b, c] + [d] == [a, b, c, d];
    BeSnoc([], a);
    BeSnoc([a], b);
    BeSnoc([a, b], c);
    BeSnoc([a, b, c], d);
  }

  lemma LimbBytesVal(v: u32)
    ensures BeVal(LimbBytes(v)) == v
  {
    FourBytes(v / 0x100_0000 % 256, v / 0x1_0000 % 256, v / 0x100 % 256, v % 256);
    hide BeVal;
    assert v / 0x100 == v / 0x1_0000 * 256 + v / 0x100 % 256;
    assert v / 0x1_0000 == v / 0x100_0000 * 256 + v / 0x1_0000 % 256;
  }

  lemma LimbBytesFirst(l: seq<u32>, i: nat, rest: seq<u8>)
    requires i < |l| && |rest| == 4 * i && BeVal(rest) == Val(l[..i])
    ensures BeVal(LimbBytes(l[i]) + rest) == Val(l[..i + 1])
  {
    hide BeVal, LimbBytes, BasePow, Val;
    LimbBytesVal(l[i]);
    BeAppend(LimbBytes(l[i]), rest);
    ValTake(l, i);
    BasePowIsPow2(i);
  }

  lemma LeadingZero(b: seq<u8>)
    requires b != [] && b[0] == 0
    ensures BeVal(b) == BeVal(b[1..])
  {
    assert b == [0] + b[1..];
    BeSnoc([], 0);
    assert [] + [0] == [0];
    BeAppend([0], b[1..]);
  }

  /** The four bytes of a limb, the least significant one just before end. */
  method WriteLimb(b: seq<u8>, end: nat, v: u32) returns (r: seq<u8>)
    requires 4 <= end <= |b|
    ensures |r| == |b| && r[end - 4..] == LimbBytes(v) + b[end..]
  {
    r := b[end - 1 := v % 256];
    r := r[end - 1 - 1 := v / 0x100 % 256];
    r := r[end - 1 - 2 := v / 0x1_0000 % 256];
    r := r[end - 1 - 3 := v / 0x100_0000 % 256];
    FourSet(b, r, end, LimbBytes(v));
  }

  lemma FourSet(b: seq<u8>, r: seq<u8>, end: nat, o: seq<u8>)
    requires 4 <= end <= |b| == |r| && |o| == 4
    requires r == b[end - 1 := o[3]][end - 2 := o[2]][end - 3 := o[1]][end - 4 := o[0]]
    ensures r[end - 4..] == o + b[end..]
  {
    assert r[end - 4..][..4] == o;
    assert r[end..] == b[end..];
    assert r[end - 4..] == r[end - 4..][..4] + r[end..];
  }

  /** Big-endian bytes without leading zeros; none at all for zero. */
  method ToBe(a: BigUint) returns (bytes: seq<u8>)
    requires a.Valid()
    ensures BeVal(bytes) == a.Value() && Canonical(bytes)
  {
    hide LimbBytes;
    if a.limbs == [] {
      return [];
    }
    var total := |a.limbs| * 4;
    var tmp: seq<u8> := seq(total, _ => 0);
    for i := 0 to |a.limbs|
      invariant |tmp| == total
      invariant BeVal(tmp[total - 4 * i..]) == Val(a.limbs[..i])
    {
      var v := a.limbs[i];
      LimbBytesFirst(a.limbs, i, tmp[total - 4 * i..]);
      tmp := WriteLimb(tmp, total - i * 4, v);
    }
    assert tmp[0..] == tmp && a.limbs[..|a.limbs|] == a.limbs;
    var lead := 0;
    while lead < |tmp| - 1 && tmp[lead] == 0
      invariant lead < |tmp| && BeVal(tmp[lead..]) == BeVal(tmp)
    {
      LeadingZero(tmp[lead..]);
      assert tmp[lead..][1..] == tmp[lead + 1..];
      lead := lead + 1;
    }
    bytes := tmp[lead..];
    if tmp[lead] == 0 {
      LeadingZero(bytes);
      TrimmedBound(a.limbs);
      assert false;
    }
  }

  /** A number has one canonical form. */
  lemma {:induction false} CanonicalUnique(a: seq<u8>, b: seq<u8>)
    requires Canonical(a) && Canonical(b) && BeVal(a) == BeVal(b)
    ensures a == b
  {
    if |a| < |b| {
      CanonicalBound(b);
      BeBound(a);
      Pow2Le(8 * |a|, 8 * (|b| - 1));
    } else if |b| < |a| {
      CanonicalBound(a);
      BeBound(b);
      Pow2Le(8 * |b|, 8 * (|a| - 1));
    } else {
      BeUnique(a, b);
    }
  }

  lemma Pow2Le(a: nat, b: nat)
    requires a <= b
    ensures Pow2(a) <= Pow2(b)
  {
  }

  lemma CanonicalBound(b: seq<u8>)
    requires Canonical(b) && b != []
    ensures BeVal(b) >= Pow2(8 * (|b| - 1))
  {
    assert b == [b[0]] + b[1..];
    BeSnoc([], b[0]);
    assert [] + [b[0]] == [b[0]];
    BeAppend([b[0]], b[1..]);
    MulMono(1, b[0], Pow2(8 * (|b| - 1)));
  }

  // ---------------------------------------------------------------- the exchange

  /** The public half of a private key. */
  method PublicKey(generator: BigUint, privateKey: BigUint, prime: BigUint) returns (gc: seq<u8>)
    requires generator.Valid() && privateKey.Valid() && prime.Valid() && prime.Value() > 0
    ensures BeVal(gc) == Power(generator.Value(), privateKey.Value()) % prime.Value() && Canonical(gc)
  {
    var publicKey := BigUint.ModExp(generator, privateKey, prime);
    gc := ToBe(publicKey);
  }

  /** The secret made of the other end's public bytes and one's own private key. */
  method SharedSecret(remote: seq<u8>, privateKey: BigUint, prime: BigUint) returns (secret: seq<u8>)
    requires privateKey.Valid() && prime.Valid() && prime.Value() > 0
    ensures BeVal(secret) == Power(BeVal(remote), privateKey.Value()) % prime.Value() && Canonical(secret)
  {
    var remotePub := FromBe(remote);
    var shared := BigUint.ModExp(remotePub, privateKey, prime);
    secret := ToBe(shared);
  }

  lemma PowersCommute(g: nat, a: nat, b: nat, p: nat)
    requires p > 0
    ensures Power(Power(g, a) % p, b) % p == Power(g, a * b) % p
  {
    CongruentMod(Power(g, a), p);
    CongruentPower(Power(g, a) % p, Power(g, a), b, p);
    PowerTimes(g, a, b);
  }

  /** Each end's secret, made from the other's public bytes, is the same byte string. */
  lemma SecretsAgree(g: nat, a: nat, b: nat, p: nat, publicA: seq<u8>, publicB: seq<u8>, secretA: seq<u8>,
                     secretB: seq<u8>)
    requires p > 0
    requires BeVal(publicA) == Power(g, a) % p && BeVal(publicB) == Power(g, b) % p
    requires BeVal(secretA) == Power(BeVal(publicB), a) % p && Canonical(secretA)
    requires BeVal(secretB) == Power(BeVal(publicA), b) % p && Canonical(secretB)
    ensures secretA == secretB
  {
    PowersCommute(g, a, b, p);
    PowersCommute(g, b, a, p);
    assert a * b == b * a;
    CanonicalUnique(secretA, secretB);
  }

  /** A whole exchange: two private keys, two public keys over the wire, one secret. */
  method Exchange(generator: BigUint, prime: BigUint, keyA: BigUint, keyB: BigUint)
    returns (secretA: seq<u8>, secretB: seq<u8>)
    requires generator.Valid() && prime.Valid() && keyA.Valid() && keyB.Valid() && prime.Value() > 0
    ensures secretA == secretB
    ensures BeVal(secretA) == Power(generator.Value(), keyA.Value() * keyB.Value()) % prime.Value()
  {
    var publicA := PublicKey(generator, keyA, prime);
    var publicB := PublicKey(generator, keyB, prime);
    secretA := SharedSecret(publicB, keyA, prime);
    secretB := SharedSecret(publicA, keyB, prime);
    SecretsAgree(generator.Value(), keyA.Value(), keyB.Value(), prime.Value(), publicA, publicB, secretA, secretB);
    PowersCommute(generator.Value(), keyA.Value(), keyB.Value(), prime.Value());
  }
}
