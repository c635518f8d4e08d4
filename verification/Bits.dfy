/** Powers of two, little-endian bit strings, and the word reversal of the Vorbis decoder. */
module Bits {

  type u8 = x: int | 0 <= x < 0x100
  type u32 = x: int | 0 <= x < 0x1_0000_0000
  type u64 = x: int | 0 <= x < 0x1_0000_0000_0000_0000

  function Pow2(n: nat): (p: nat)
    ensures p >= 1
  {
    if n == 0 then 1 else 2 * Pow2(n - 1)
  }

  lemma Pow2Values()
    ensures Pow2(8) == 0x100 && Pow2(10) == 0x400
    ensures Pow2(16) == 0x1_0000 && Pow2(31) == 0x8000_0000
    ensures Pow2(32) == 0x1_0000_0000
  {
    assert Pow2(8) == 0x100;
    assert Pow2(10) == 0x400;
    assert Pow2(16) == 0x1_0000;
    assert Pow2(24) == 0x100_0000;
    assert Pow2(31) == 0x8000_0000;
  }

  lemma MulAssoc(a: int, b: int, c: int)
    ensures (a * b) * c == a * (b * c)
  {
  }

  lemma MulDistribute(a: int, b: int, c: int)
    ensures (a + b) * c == a * c + b * c
  {
  }

  lemma {:induction false} Pow2Add(a: nat, b: nat)
    ensures Pow2(a + b) == Pow2(a) * Pow2(b)
  {
    if a == 0 {
    } else {
      Pow2Add(a - 1, b);
      MulAssoc(2, Pow2(a - 1), Pow2(b));
    }
  }

  lemma {:induction false} Pow2Mono(a: nat, b: nat)
    requires a < b
    ensures 2 * Pow2(a) <= Pow2(b)
    decreases b
  {
    if a + 1 < b {
      Pow2Mono(a, b - 1);
    }
  }

  lemma DivMod(x: nat, p: nat)
    requires p > 0
    ensures x == x % p + p * (x / p) && 0 <= x % p < p && 0 <= x / p
  {
  }

  lemma MulMono(a: int, b: int, d: nat)
    requires a <= b
    ensures a * d <= b * d
  {
  }

  /** Division is determined by a quotient and a remainder in range. */
  lemma DivModUnique(n: int, d: int, q: int, r: int)
    requires 0 < d && 0 <= r < d && n == q * d + r
    ensures n / d == q && n % d == r
  {
    var e := n / d - q;
    assert e * d == r - n % d;
    if e <= -1 {
      MulMono(e, -1, d);
    } else if e >= 1 {
      MulMono(1, e, d);
    }
  }

  // ---------------------------------------------------------------- bit strings

  /** The low k bits of x, least significant first. */
  function ToBits(x: nat, k: nat): (b: seq<bool>)
    ensures |b| == k
  {
    if k == 0 then [] else [x % 2 == 1] + ToBits(x / 2, k - 1)
  }

  function Value(b: seq<bool>): nat {
    if b == [] then 0 else (if b[0] then 1 else 0) + 2 * Value(b[1..])
  }

  lemma {:induction false} ValueBound(b: seq<bool>)
    ensures Value(b) < Pow2(|b|)
  {
    if b != [] {
      ValueBound(b[1..]);
    }
  }

  lemma {:induction false} ValueAppend(a: seq<bool>, b: seq<bool>)
    ensures Value(a + b) == Value(a) + Pow2(|a|) * Value(b)
  {
    if a == [] {
      assert a + b == b;
    } else {
      assert (a + b)[1..] == a[1..] + b;
      ValueAppend(a[1..], b);
      MulAssoc(2, Pow2(|a| - 1), Value(b));
    }
  }

  lemma {:induction false} BitsOfValue(b: seq<bool>)
    ensures ToBits(Value(b), |b|) == b
  {
    if b != [] {
      BitsOfValue(b[1..]);
      assert [b[0]] + b[1..] == b;
    }
  }

  lemma {:induction false} ValueOfBits(x: nat, k: nat)
    requires x < Pow2(k)
    ensures Value(ToBits(x, k)) == x
  {
    if k != 0 {
      ValueOfBits(x / 2, k - 1);
      assert ToBits(x, k)[1..] == ToBits(x / 2, k - 1);
    }
  }

  /** The bits of a number written as lo + 2^j * hi are those of lo followed by those of hi. */
  lemma {:induction false} BitsSplit(lo: nat, hi: nat, j: nat, k: nat)
    requires lo < Pow2(j)
    ensures ToBits(lo + Pow2(j) * hi, j + k) == ToBits(lo, j) + ToBits(hi, k)
  {
    if j == 0 {
      assert ToBits(lo, 0) == [] && lo == 0;
    } else {
      var p, h := Pow2(j - 1), Pow2(j - 1) * hi;
      assert Pow2(j) == 2 * p;
      hide ToBits, Pow2;
      MulAssoc(2, p, hi);
      var x := lo + 2 * h;
      assert x / 2 == lo / 2 + h && x % 2 == lo % 2 && lo / 2 < p;
      BitsSplit(lo / 2, hi, j - 1, k);
      ToBitsUnfold(lo, j);
      ToBitsUnfold(x, j + k);
    }
  }

  lemma ToBitsUnfold(x: nat, k: nat)
    requires k > 0
    ensures ToBits(x, k) == [x % 2 == 1] + ToBits(x / 2, k - 1)
  {
  }

  /** Masking keeps, and shifting drops, the first bits. */
  lemma MaskAndShift(x: nat, j: nat, k: nat)
    ensures ToBits(x, j + k)[..j] == ToBits(x % Pow2(j), j)
    ensures ToBits(x, j + k)[j..] == ToBits(x / Pow2(j), k)
  {
    hide ToBits, Pow2;
    var p := Pow2(j);
    DivMod(x, p);
    var lo, hi := x % p, x / p;
    BitsSplit(lo, hi, j, k);
    assert lo + p * hi == x;
  }

  /** Four digits to the base 256 and the number that they make up determine each other. */
  lemma FourDigits(x: int, b0: u8, b1: u8, b2: u8, b3: u8)
    ensures x == b0 + 0x100 * b1 + 0x1_0000 * b2 + 0x100_0000 * b3 <==>
      x % 0x100 == b0 && x / 0x100 % 0x100 == b1 && x / 0x1_0000 % 0x100 == b2 && x / 0x100_0000 == b3
  {
    var y, z := x / 0x100, x / 0x1_0000;
    assert y / 0x100 == z && z / 0x100 == x / 0x100_0000;
    assert x == x % 0x100 + 0x100 * (y % 0x100 + 0x100 * (z % 0x100 + 0x100 * (z / 0x100)));
  }

  /** Dividing twice is dividing by the product. */
  lemma DivDiv(x: nat, a: nat, b: nat)
    requires a > 0 && b > 0
    ensures a * b > 0 && x / a / b == x / (a * b)
  {
    MulMono(1, a, b);
    DivMod(x, a);
    DivMod(x / a, b);
    SplitTwice(x, a, b, x % a, x / a % b, x / a / b);
    DivModUnique(x, a * b, x / a / b, x % a + a * (x / a % b));
  }

  lemma SplitTwice(x: nat, a: nat, b: nat, r: nat, s: nat, q: nat)
    requires r < a && s < b && x == r + a * (s + b * q)
    ensures 0 <= r + a * s < a * b && x == q * (a * b) + (r + a * s)
  {
    MulMono(s + 1, b, a);
    MulMono(0, s, a);
    MulDistribute(s, 1, a);
    MulDistribute(s, b * q, a);
    MulAssoc(a, b, q);
  }

  lemma HalfThenShift(x: nat, i: nat)
    requires i > 0
    ensures x / 2 / Pow2(i - 1) == x / Pow2(i)
  {
    DivDiv(x, 2, Pow2(i - 1));
  }

  /** Bit i of a number is the parity of its quotient by 2^i. */
  lemma {:induction false} ToBitsAt(x: nat, n: nat, i: nat)
    requires i < n
    ensures ToBits(x, n)[i] <==> x / Pow2(i) % 2 == 1
  {
    if i == 0 {
      assert Pow2(0) == 1;
    } else {
      ToBitsAt(x / 2, n - 1, i - 1);
      HalfThenShift(x, i);
    }
  }

  /** Place i of a bit string is bit i of its number. */
  lemma ValueAt(b: seq<bool>, i: nat)
    requires i < |b|
    ensures b[i] <==> Value(b) / Pow2(i) % 2 == 1
  {
    BitsOfValue(b);
    ToBitsAt(Value(b), |b|, i);
  }

  /** Numbers below 2^k are equal exactly when their k bits are. */
  lemma BitsInjective(x: nat, y: nat, k: nat)
    requires x < Pow2(k) && y < Pow2(k)
    ensures ToBits(x, k) == ToBits(y, k) <==> x == y
  {
    ValueOfBits(x, k);
    ValueOfBits(y, k);
  }

  // ---------------------------------------------------------------- word reversal

  function Reversed(b: seq<bool>): (r: seq<bool>)
    ensures |r| == |b|
    ensures forall i :: 0 <= i < |b| ==> r[i] == b[|b| - 1 - i]
  {
    seq(|b|, i requires 0 <= i < |b| => b[|b| - 1 - i])
  }

  /** The 32-bit word whose bits are those of x in the opposite order. */
  function Reverse32(x: u32): (r: u32) {
    ValueBound(Reversed(ToBits(x, 32)));
    Pow2Values();
    Value(Reversed(ToBits(x, 32)))
  }

  lemma Reverse32Bits(x: u32)
    ensures ToBits(Reverse32(x), 32) == Reversed(ToBits(x, 32))
  {
    BitsOfValue(Reversed(ToBits(x, 32)));
  }

  lemma {:induction false} ZeroBits(k: nat)
    ensures forall i :: 0 <= i < k ==> !ToBits(0, k)[i]
  {
    if k > 0 {
      ZeroBits(k - 1);
    }
  }

  lemma Reverse32Zero()
    ensures Reverse32(0) == 0
  {
    ZeroBits(32);
    assert Reversed(ToBits(0, 32)) == ToBits(0, 32);
    Pow2Values();
    ValueOfBits(0, 32);
  }

  lemma Reverse32Involutive(x: u32)
    ensures Reverse32(Reverse32(x)) == x
  {
    Reverse32Bits(x);
    assert Reversed(Reversed(ToBits(x, 32))) == ToBits(x, 32);
    Pow2Values();
    ValueOfBits(x, 32);
  }

  /** A 32-bit machine word as the function that gives its bits, least significant first. */
  type Word = int -> bool

  function WordOf(x: u32): Word {
    i => 0 <= i < 32 && ToBits(x, 32)[i]
  }

  function And(a: Word, b: Word): Word {
    i => a(i) && b(i)
  }

  function Or(a: Word, b: Word): Word {
    i => a(i) || b(i)
  }

  function ShiftRight(a: Word, k: nat): Word {
    i => i + k < 32 && a(i + k)
  }

  function ShiftLeft(a: Word, k: nat): Word {
    i => k <= i && a(i - k)
  }

  /** Selects the upper k bits of every group of 2k: 0xAAAAAAAA, 0xCCCCCCCC, 0xF0F0F0F0, 0xFF00FF00. */
  function Upper(k: nat): Word
    requires k > 0
  {
    i => i % (2 * k) >= k
  }

  /** Selects the lower k bits of every group of 2k: 0x55555555, 0x33333333, 0x0F0F0F0F, 0x00FF00FF. */
  function Lower(k: nat): Word
    requires k > 0
  {
    i => i % (2 * k) < k
  }

  /** Exchanges the upper and the lower bits of every group of 2k. */
  function SwapGroups(n: Word, k: nat): Word
    requires k > 0
  {
    Or(ShiftRight(And(n, Upper(k)), k), ShiftLeft(And(n, Lower(k)), k))
  }

  /** Five rounds of swapping neighbouring groups of 1, 2, 4, 8 and 16 bits. */
  function MaskedReverse(n: Word): Word {
    var n := SwapGroups(SwapGroups(SwapGroups(SwapGroups(n, 1), 2), 4), 8);
    Or(ShiftRight(n, 16), ShiftLeft(n, 16))
  }

  lemma Swap1(n: Word, i: nat, q: nat, b: nat, r: nat)
    requires i < 32 && i == 2 * q + 1 * b + r && b <= 1 && r < 1
    ensures SwapGroups(n, 1)(i) == n(i + 1 - 2 * b)
  {
  }

  lemma Swap2(n: Word, i: nat, q: nat, b: nat, r: nat)
    requires i < 32 && i == 4 * q + 2 * b + r && b <= 1 && r < 2
    ensures SwapGroups(n, 2)(i) == n(i + 2 - 4 * b)
  {
  }

  lemma Swap4(n: Word, i: nat, q: nat, b: nat, r: nat)
    requires i < 32 && i == 8 * q + 4 * b + r && b <= 1 && r < 4
    ensures SwapGroups(n, 4)(i) == n(i + 4 - 8 * b)
  {
  }

  lemma Swap8(n: Word, i: nat, q: nat, b: nat, r: nat)
    requires i < 32 && i == 16 * q + 8 * b + r && b <= 1 && r < 8
    ensures SwapGroups(n, 8)(i) == n(i + 8 - 16 * b)
  {
  }

  lemma MaskedReverseAt(n: Word, a: nat, b: nat, c: nat, d: nat, e: nat)
    requires a <= 1 && b <= 1 && c <= 1 && d <= 1 && e <= 1
    ensures MaskedReverse(n)(16 * a + 8 * b + 4 * c + 2 * d + e) == n(31 - (16 * a + 8 * b + 4 * c + 2 * d + e))
  {
    hide SwapGroups;
    var n1 := SwapGroups(n, 1);
    var n2 := SwapGroups(n1, 2);
    var n3 := SwapGroups(n2, 4);
    var a', b', c', d' := 1 - a, 1 - b, 1 - c, 1 - d;
    Swap8(n3, 16 * a' + 8 * b + 4 * c + 2 * d + e, a', b, 4 * c + 2 * d + e);
    Swap4(n2, 16 * a' + 8 * b' + 4 * c + 2 * d + e, 2 * a' + b', c, 2 * d + e);
    Swap2(n1, 16 * a' + 8 * b' + 4 * c' + 2 * d + e, 4 * a' + 2 * b' + c', d, e);
    Swap1(n, 16 * a' + 8 * b' + 4 * c' + 2 * d' + e, 8 * a' + 4 * b' + 2 * c' + d', e, 0);
  }

  lemma MaskedReverseIsReversed(x: u32, bits: seq<bool>)
    requires bits == seq(32, i => MaskedReverse(WordOf(x))(i))
    ensures bits == Reversed(ToBits(x, 32))
  {
    hide MaskedReverse;
    var n := WordOf(x);
    forall i: nat | i < 32
      ensures bits[i] == ToBits(x, 32)[31 - i]
    {
      var a := if i < 16 then 0 else 1;
      var b := if i - 16 * a < 8 then 0 else 1;
      var c := if i - 16 * a - 8 * b < 4 then 0 else 1;
      var d := if i - 16 * a - 8 * b - 4 * c < 2 then 0 else 1;
      MaskedReverseAt(n, a, b, c, d, i - 16 * a - 8 * b - 4 * c - 2 * d);
    }
  }

  /** The mask-and-shift reversal of the source, on a word held as a number. */
  function BitReverse(n: u32): (r: u32)
    ensures r == Reverse32(n)
  {
    var bits := seq(32, i => MaskedReverse(WordOf(n))(i));
    assert bits == Reversed(ToBits(n, 32)) by {
      MaskedReverseIsReversed(n, bits);
    }
    ValueBound(bits);
    Pow2Values();
    Value(bits)
  }

  /** Two words agree modulo 2^j exactly when their first j bits do. */
  lemma MaskEq(x: u32, y: u32, j: nat)
    requires j <= 32
    ensures x % Pow2(j) == y % Pow2(j) <==> ToBits(x, 32)[..j] == ToBits(y, 32)[..j]
  {
    hide ToBits, Pow2;
    MaskAndShift(x, j, 32 - j);
    MaskAndShift(y, j, 32 - j);
    assert j + (32 - j) == 32;
    DivMod(x, Pow2(j));
    DivMod(y, Pow2(j));
    BitsInjective(x % Pow2(j), y % Pow2(j), j);
  }

  lemma QuotientBound(x: u32, j: nat)
    requires j <= 32
    ensures 0 <= x / Pow2(j) < Pow2(32 - j)
  {
    Pow2Values();
    hide Pow2;
    Pow2Add(j, 32 - j);
    QuotientFits(x, Pow2(j), Pow2(32 - j));
  }

  lemma QuotientFits(x: nat, p: nat, b: nat)
    requires p > 0 && x < p * b
    ensures 0 <= x / p <= x && x / p < b
  {
    DivMod(x, p);
    var q := x / p;
    if q >= b {
      MulMono(b, q, p);
    }
    MulMono(1, p, q);
  }

  /** Two words have the same quotient by 2^j exactly when their last 32 - j bits agree. */
  lemma ShiftEq(x: u32, y: u32, j: nat)
    requires j <= 32
    ensures x / Pow2(j) == y / Pow2(j) <==> ToBits(x, 32)[j..] == ToBits(y, 32)[j..]
  {
    hide ToBits, Pow2;
    MaskAndShift(x, j, 32 - j);
    MaskAndShift(y, j, 32 - j);
    assert j + (32 - j) == 32;
    QuotientBound(x, j);
    QuotientBound(y, j);
    BitsInjective(x / Pow2(j), y / Pow2(j), 32 - j);
  }

  lemma ReversedSlices(a: seq<bool>, b: seq<bool>, j: nat)
    requires |a| == |b| == 32 && j <= 32
    ensures Reversed(a)[32 - j..] == Reversed(b)[32 - j..] <==> a[..j] == b[..j]
  {
    var x, y := Reversed(a)[32 - j..], Reversed(b)[32 - j..];
    assert forall i :: 0 <= i < j ==> x[i] == a[..j][j - 1 - i] && y[i] == b[..j][j - 1 - i];
    if x == y {
      forall i | 0 <= i < j
        ensures a[..j][i] == b[..j][i]
      {
        assert x[j - 1 - i] == y[j - 1 - i];
      }
    }
  }

  /** Words that agree in their first j bits are words whose reversals agree in their last j. */
  lemma ReversePrefix(x: u32, y: u32, j: nat)
    requires j <= 32
    ensures x % Pow2(j) == y % Pow2(j) <==> Reverse32(x) / Pow2(32 - j) == Reverse32(y) / Pow2(32 - j)
  {
    hide ToBits, Pow2, Reverse32, Reversed;
    MaskEq(x, y, j);
    ShiftEq(Reverse32(x), Reverse32(y), 32 - j);
    Reverse32Bits(x);
    Reverse32Bits(y);
    ReversedSlices(ToBits(x, 32), ToBits(y, 32), j);
  }
}
