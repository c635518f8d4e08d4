/** The unsigned big integers of the key exchange. */
module BigUint {
  import opened Bits
  import opened BigNat
  import opened BigEndian
  import opened Modular

  // ---------------------------------------------------------------- limb arithmetic, step by step

  /** Dropping a zero top limb does not change the number. */
  lemma TrimStep(l: seq<u32>)
    requires l != [] && l[|l| - 1] == 0
    ensures Val(l[..|l| - 1]) == Val(l)
  {
    ValTake(l, |l| - 1);
    assert l[..|l|] == l;
  }

  /** One multiply-accumulate: the limb keeps the low half, the carry takes the high half. */
  lemma MulStep(r: seq<u32>, k: nat, x: u32, y: u32, carry: u32)
    requires k < |r|
    ensures var cur := r[k] + x * y + carry;
      && 0 <= cur < 0x1_0000_0000_0000_0000 && 0 <= cur / BASE < BASE
      && Val(r[k := cur % BASE]) + (cur / BASE) * BasePow(k + 1) == Val(r) + carry * BasePow(k) + x * y * BasePow(k)
  {
    var p, b := x * y, BasePow(k);
    var cur := r[k] + p + carry;
    assert 0 <= p <= 0xFFFF_FFFE_0000_0001 by {
      ProductBound(x, y);
    }
    ValUpdate(r, k, cur % BASE);
    assert BasePow(k + 1) == BASE * b;
    hide Val, BasePow;
    var lo, hi := cur % BASE, cur / BASE;
    assert cur == hi * BASE + lo;
    MulAssoc(hi, BASE, b);
    MulDistribute(hi * BASE, lo, b);
    MulDistribute(lo - r[k], r[k], b);
    MulDistribute(r[k] + p, carry, b);
    MulDistribute(r[k], p, b);
  }

  lemma ProductBound(x: u32, y: u32)
    ensures 0 <= x * y <= 0xFFFF_FFFE_0000_0001
  {
    MulMono(0, x, y);
    MulMono(x, 0xFFFF_FFFF, y);
    MulMono(y, 0xFFFF_FFFF, 0xFFFF_FFFF);
  }

  /** What a borrow into limb i is worth. */
  function Borrowed(borrow: int, i: nat): nat {
    if borrow == 0 then 0 else BasePow(i)
  }

  /** One limb of a subtraction. */
  lemma SubStep(a: seq<u32>, i: nat, y: u32, borrow: int, cur: int, borrow': int)
    requires i < |a| && 0 <= borrow <= 1
    requires borrow' == (if a[i] - y - borrow < 0 then 1 else 0) && cur == a[i] - y - borrow + borrow' * BASE
    ensures 0 <= cur < BASE
    ensures Val(a[i := cur]) - Borrowed(borrow', i + 1) == Val(a) - y * BasePow(i) - Borrowed(borrow, i)
  {
    ValUpdate(a, i, cur);
    var b := BasePow(i);
    assert BasePow(i + 1) == BASE * b;
    hide Val, BasePow;
    SubTerms(a[i], y, borrow, cur, borrow', b);
  }

  lemma SubTerms(x: int, y: int, borrow: int, cur: int, borrow': int, b: int)
    requires cur == x - y - borrow + borrow' * BASE
    ensures (cur - x) * b - borrow' * (BASE * b) == -(y * b) - borrow * b
  {
  }

  /** A limb shifted left by s bits: what stays in it, and what is carried out. */
  lemma ShlLimb(v: u32, s: nat, carry: u32)
    requires 0 < s < 32 && carry < Pow2(s)
    ensures 0 <= v * Pow2(s) % BASE + carry < BASE
    ensures 0 <= v / Pow2(32 - s) < Pow2(s)
    ensures v * Pow2(s) == v / Pow2(32 - s) * BASE + v * Pow2(s) % BASE
  {
    Pow2Add(s, 32 - s);
    Pow2Values();
    hide Pow2;
    ShlHalves(v, Pow2(s), Pow2(32 - s), carry);
  }

  lemma ShlHalves(v: u32, p: nat, q: nat, carry: nat)
    requires p * q == BASE && p > 0 && q > 0 && carry < p
    ensures 0 <= v * p % BASE + carry < BASE
    ensures 0 <= v / q < p
    ensures v * p == v / q * BASE + v * p % BASE
  {
    var hi, lo := v / q, v % q;
    DivMod(v, q);
    assert q * p == p * q;
    QuotientFits(v, q, p);
    ShiftOut(v, p, q, hi, lo);
    MultiplesLeaveRoom(lo, q, p, 0);
    MultiplesLeaveRoom(lo, q, p, carry);
    MulMono(0, lo, p);
    DivModUnique(v * p, BASE, hi, lo * p);
  }

  /** One limb of a left shift by s bits, carrying out the high bits. */
  lemma ShlStep(a: seq<u32>, i: nat, s: nat, carry: u32)
    requires i < |a| && 0 < s < 32 && carry < Pow2(s)
    ensures 0 <= a[i] * Pow2(s) % BASE + carry < BASE
    ensures 0 <= a[i] / Pow2(32 - s) < Pow2(s)
    ensures Val(a[i := a[i] * Pow2(s) % BASE + carry]) + a[i] / Pow2(32 - s) * BasePow(i + 1) ==
            Val(a) + (Pow2(s) - 1) * (a[i] * BasePow(i)) + carry * BasePow(i)
  {
    assert BasePow(i + 1) == BASE * BasePow(i);
    hide Val, BasePow, Pow2;
    var v: int := a[i];
    ShlLimb(v, s, carry);
    var hi, lo := v / Pow2(32 - s), v * Pow2(s) % BASE;
    ValUpdate(a, i, lo + carry);
    ShlTerms(v, Pow2(s), hi, lo, carry, BasePow(i));
  }

  lemma ShiftOut(v: nat, p: nat, q: nat, hi: nat, lo: nat)
    requires v == lo + q * hi && p * q == BASE
    ensures v * p == hi * BASE + lo * p
  {
  }

  lemma MultiplesLeaveRoom(lo: nat, q: nat, p: nat, carry: nat)
    requires lo < q && carry < p
    ensures lo * p + carry < q * p
  {
    MulMono(lo + 1, q, p);
    MulDistribute(lo, 1, p);
  }

  lemma ShlTerms(v: int, p: int, hi: int, lo: int, carry: int, b: int)
    requires v * p == hi * BASE + lo
    ensures (lo + carry - v) * b + hi * (BASE * b) == (p - 1) * (v * b) + carry * b
  {
  }

  /** Halving limb by limb: the low bit of each limb moves to the one below. */
  function Halved(l: seq<u32>): (h: seq<u32>)
    ensures |h| == |l|
  {
    if l == [] then []
    else [l[0] / 2 + (if |l| > 1 then l[1] % 2 * 0x8000_0000 else 0)] + Halved(l[1..])
  }

  lemma {:induction false} HalvedVal(l: seq<u32>)
    ensures Val(Halved(l)) == Val(l) / 2
  {
    if l != [] {
      HalvedVal(l[1..]);
      ValParity(l[1..]);
      var rest := l[1..];
      assert |l| > 1 ==> rest[0] == l[1];
      ValCons(l[0] / 2 + (if |l| > 1 then l[1] % 2 * 0x8000_0000 else 0), Halved(rest));
    }
  }

  lemma ValParity(l: seq<u32>)
    ensures Val(l) % 2 == if l == [] then 0 else l[0] % 2
  {
  }

  lemma {:induction false} HalvedAt(l: seq<u32>, i: nat)
    requires i < |l|
    ensures Halved(l)[i] == l[i] / 2 + (if i + 1 < |l| then l[i + 1] % 2 * 0x8000_0000 else 0)
  {
    if i > 0 {
      HalvedAt(l[1..], i - 1);
    }
  }

  class BigUint {
    /** Least significant first. */
    var limbs: seq<u32>

    ghost predicate Valid()
      reads this
    {
      Trimmed(limbs)
    }

    ghost function Value(): nat
      reads this
    {
      Val(limbs)
    }

    constructor ()
      ensures Valid() && Value() == 0
    {
      limbs := [];
    }

    constructor FromU32(v: u32)
      ensures Valid() && Value() == v
    {
      limbs := if v != 0 then [v] else [];
      ValSingle(v);
    }

    constructor Copy(o: BigUint)
      ensures limbs == o.limbs
    {
      limbs := o.limbs;
    }

    method Trim()
      modifies this
      ensures Valid() && Value() == old(Value())
    {
      while limbs != [] && limbs[|limbs| - 1] == 0
        invariant Value() == old(Value())
        decreases |limbs|
      {
        TrimStep(limbs);
        limbs := limbs[..|limbs| - 1];
      }
    }

    predicate IsZero()
      requires Valid()
      reads this
      ensures IsZero() <==> Value() == 0
    {
      assert limbs != [] ==> Value() > 0 by {
        if limbs != [] {
          TrimmedBound(limbs);
        }
      }
      limbs == []
    }

    predicate IsOdd()
      reads this
      ensures IsOdd() <==> Value() % 2 == 1
    {
      ValParity(limbs);
      limbs != [] && limbs[0] % 2 == 1
    }

    method BitLength() returns (bits: nat)
      requires Valid()
      ensures Value() == 0 ==> bits == 0
      ensures Value() > 0 ==> bits > 0 && Pow2(bits - 1) <= Value() < Pow2(bits)
    {
      if limbs == [] {
        return 0;
      }
      var k := |limbs| - 1;
      var top := limbs[k];
      bits := k * 32;
      ghost var n: nat := 0;
      while top != 0
        invariant bits == k * 32 + n
        invariant 0 <= top
        invariant if n == 0 then top == limbs[k] else top * Pow2(n) <= limbs[k] < (top + 1) * Pow2(n)
        invariant n > 0 && top == 0 ==> Pow2(n - 1) <= limbs[k]
        decreases top
      {
        HalveTop(limbs[k], top, n);
        bits := bits + 1;
        top := top / 2;
        n := n + 1;
      }
      TopBits(limbs, n);
    }

    method Rshift1()
      requires Valid()
      modifies this
      ensures Valid() && Value() == old(Value()) / 2
    {
      if limbs == [] {
        return;
      }
      ghost var before := limbs;
      var n := |limbs|;
      for i := 0 to n - 1
        invariant |limbs| == n && limbs[i..] == before[i..]
        invariant forall j :: 0 <= j < i ==> limbs[j] == Halved(before)[j]
      {
        HalvedAt(before, i);
        assert limbs[i..][0] == before[i] && limbs[i..][1] == before[i + 1];
        limbs := limbs[i := limbs[i] / 2 + limbs[i + 1] % 2 * 0x8000_0000];
      }
      HalvedAt(before, n - 1);
      assert limbs[n - 1..][0] == before[n - 1];
      limbs := limbs[n - 1 := limbs[n - 1] / 2];
      assert limbs == Halved(before);
      HalvedVal(before);
      Trim();
    }

    method Cmp(o: BigUint) returns (c: int)
      requires Valid() && o.Valid()
      ensures c == if Value() < o.Value() then -1 else if Value() > o.Value() then 1 else 0
    {
      if |limbs| != |o.limbs| {
        if |limbs| < |o.limbs| {
          FewerLimbs(limbs, o.limbs);
          return -1;
        } else {
          FewerLimbs(o.limbs, limbs);
          return 1;
        }
      }
      var i := |limbs|;
      while i > 0
        invariant 0 <= i <= |limbs| && limbs[i..] == o.limbs[i..]
      {
        i := i - 1;
        if limbs[i] != o.limbs[i] {
          if limbs[i] < o.limbs[i] {
            MostSignificant(limbs, o.limbs, i);
            return -1;
          } else {
            MostSignificant(o.limbs, limbs, i);
            return 1;
          }
        }
        assert limbs[i..] == [limbs[i]] + limbs[i + 1..] == o.limbs[i..];
      }
      assert limbs == limbs[0..] == o.limbs[0..] == o.limbs;
      return 0;
    }

    /** Schoolbook multiplication with 64-bit accumulators. */
    static method Mul(a: BigUint, b: BigUint) returns (r: BigUint)
      ensures fresh(r) && r.Valid() && r.Value() == a.Value() * b.Value()
    {
      hide BasePow;
      r := new BigUint();
      if a.limbs == [] || b.limbs == [] {
        return;
      }
      var n := |b.limbs|;
      r.limbs := seq(|a.limbs| + n, _ => 0);
      ValZeros(|a.limbs| + n);
      for i := 0 to |a.limbs|
        invariant |r.limbs| == |a.limbs| + n
        invariant Val(r.limbs) == Val(a.limbs[..i]) * Val(b.limbs)
        invariant forall k :: i + n <= k < |r.limbs| ==> r.limbs[k] == 0
      {
        MulRow(r, a, b, i);
        ValTake(a.limbs, i);
        RowDone(Val(a.limbs[..i]), a.limbs[i], Val(b.limbs), BasePow(i));
      }
      assert a.limbs[..|a.limbs|] == a.limbs;
      r.Trim();
    }

    /** Adds limb i of a, times b, into the accumulator; every 64-bit sum fits. */
    static method MulRow(r: BigUint, a: BigUint, b: BigUint, i: nat)
      requires r != a && r != b && i < |a.limbs| && b.limbs != []
      requires |r.limbs| == |a.limbs| + |b.limbs|
      requires forall k :: i + |b.limbs| <= k < |r.limbs| ==> r.limbs[k] == 0
      modifies r
      ensures |r.limbs| == |a.limbs| + |b.limbs|
      ensures Val(r.limbs) == old(Val(r.limbs)) + a.limbs[i] * Val(b.limbs) * BasePow(i)
      ensures forall k :: i + 1 + |b.limbs| <= k < |r.limbs| ==> r.limbs[k] == 0
    {
      hide BasePow, Val;
      ghost var before := Val(r.limbs);
      var n := |b.limbs|;
      var carry: u64 := 0;
      var ai: u64 := a.limbs[i];
      RowStart(b.limbs, ai, BasePow(i));
      for j := 0 to n
        invariant |r.limbs| == |a.limbs| + n && 0 <= carry < BASE
        invariant Val(r.limbs) + carry * BasePow(i + j) == before + ai * Val(b.limbs[..j]) * BasePow(i)
        invariant forall k :: i + n <= k < |r.limbs| ==> r.limbs[k] == 0
      {
        MulStep(r.limbs, i + j, ai, b.limbs[j], carry);
        ValTake(b.limbs, j);
        RowStep(ai, b.limbs[j], Val(b.limbs[..j]), i, j);
        var cur: u64 := r.limbs[i + j] + ai * b.limbs[j] + carry;
        r.limbs := r.limbs[i + j := cur % BASE];
        carry := cur / BASE;
      }
      assert b.limbs[..n] == b.limbs;
      ValUpdate(r.limbs, i + n, carry);
      r.limbs := r.limbs[i + n := (r.limbs[i + n] + carry) % BASE];
    }

    /** Subtraction with a 64-bit borrow; the caller sees to it that a >= b. */
    static method SubInplace(a: BigUint, b: BigUint)
      requires a != b && a.Valid() && b.Valid() && a.Value() >= b.Value()
      modifies a
      ensures a.Valid() && a.Value() == old(a.Value()) - b.Value()
    {
      if |a.limbs| < |b.limbs| {
        FewerLimbs(a.limbs, b.limbs);
      }
      hide BasePow, Val;
      SubLimbs(a, b);
      a.Trim();
    }

    static method SubLimbs(a: BigUint, b: BigUint)
      requires a != b && |a.limbs| >= |b.limbs| && a.Value() >= b.Value()
      modifies a
      ensures a.Value() == old(a.Value()) - b.Value()
    {
      hide BasePow, Val;
      var borrow := 0;
      ghost var start := Val(a.limbs);
      var n := |a.limbs|;
      SubStart(b.limbs);
      for i := 0 to n
        invariant |a.limbs| == n && (borrow == 0 || borrow == 1)
        invariant Val(a.limbs) - Borrowed(borrow, i) == start - Val(b.limbs[..if i < |b.limbs| then i else |b.limbs|])
      {
        var bv := if i < |b.limbs| then b.limbs[i] else 0;
        SubLimb(b.limbs, i);
        var cur: int := a.limbs[i] as int - bv - borrow;
        ghost var borrow' := if cur < 0 then 1 else 0;
        SubStep(a.limbs, i, bv, borrow, cur + borrow' * BASE, borrow');
        if cur < 0 {
          cur := cur + BASE;
          borrow := 1;
        } else {
          borrow := 0;
        }
        a.limbs := a.limbs[i := cur];
      }
      assert b.limbs[..|b.limbs|] == b.limbs;
      ValBound(a.limbs);
    }

    static method ShlInplace(a: BigUint, bits: nat)
      requires a.Valid()
      modifies a
      ensures a.Valid() && a.Value() == Shifted(old(a.Value()), bits)
    {
      if a.IsZero() || bits == 0 {
        assert Pow2(0) == 1;
        return;
      }
      hide BasePow, Val, Pow2;
      var wordShift := bits / 32;
      var bitShift := bits % 32;
      ghost var v := Val(a.limbs);
      if wordShift > 0 {
        ShiftWords(a.limbs, wordShift);
        a.limbs := seq(wordShift, _ => 0) + a.limbs;
      } else {
        BasePowIsPow2(0);
        assert Pow2(0) == 1 by {
          Pow2Zero();
        }
      }
      BasePowIsPow2(wordShift);
      Pow2Add(32 * wordShift, bitShift);
      assert Val(a.limbs) == v * Pow2(32 * wordShift);
      MulAssoc(v, Pow2(32 * wordShift), Pow2(bitShift));
      if bitShift > 0 {
        ShlBits(a, wordShift, bitShift);
      } else {
        Pow2Zero();
      }
      a.Trim();
    }

    /** Shifts the limbs from w on by fewer than 32 bits; the limbs below are zero. */
    static method ShlBits(a: BigUint, w: nat, s: nat)
      requires 0 < s < 32 && w <= |a.limbs| && forall k :: 0 <= k < w ==> a.limbs[k] == 0
      modifies a
      ensures a.Value() == old(a.Value()) * Pow2(s)
    {
      hide BasePow, Val, Pow2;
      ghost var before := a.limbs;
      ghost var p := Pow2(s);
      var n := |a.limbs|;
      var carry: u32 := 0;
      PrefixZero(before, w);
      for i := w to n
        invariant |a.limbs| == n && a.limbs[i..] == before[i..] && 0 <= carry < p
        invariant Val(a.limbs) + carry * BasePow(i) == Val(before) + (p - 1) * Val(before[..i])
      {
        var v := a.limbs[i];
        assert v == a.limbs[i..][0] == before[i];
        ShlStep(a.limbs, i, s, carry);
        ValTake(before, i);
        MulDistributeLeft(p - 1, Val(before[..i]), v * BasePow(i));
        a.limbs := a.limbs[i := v * Pow2(s) % BASE + carry];
        carry := v / Pow2(32 - s);
        assert a.limbs[i + 1..] == before[i..][1..];
      }
      assert before[..n] == before;
      MulDistribute(p - 1, 1, Val(before));
      if carry != 0 {
        ValSnoc(a.limbs, carry);
        a.limbs := a.limbs + [carry];
      }
    }

    /** Remainder by repeated shift and subtract. */
    static method Mod(a0: BigUint, m: BigUint) returns (a: BigUint)
      requires a0.Valid() && m.Valid()
      ensures fresh(a) && a.Valid()
      ensures a.Value() == if m.Value() == 0 then 0 else a0.Value() % m.Value()
    {
      a := new BigUint();
      if m.IsZero() {
        return;
      }
      a := new BigUint.Copy(a0);
      var c := a.Cmp(m);
      if c < 0 {
        DivModUnique(a.Value(), m.Value(), 0, a.Value());
        return;
      }
      var aBits := a.BitLength();
      var mBits := m.BitLength();
      if aBits < mBits {
        FewerBits(a.Value(), m.Value(), aBits, mBits);
        assert false;
        return;
      }
      var mshift := new BigUint.Copy(m);
      var shift := aBits - mBits;
      ShlInplace(mshift, shift);
      ShiftCovers(a.Value(), m.Value(), aBits, mBits);
      Reduce(a, mshift, shift, m.Value());
    }

    /** The subtractions of Mod, from the divisor shifted by shift down to the divisor itself. */
    static method Reduce(a: BigUint, mshift: BigUint, shift0: nat, ghost d: nat)
      requires a.Valid() && mshift.Valid() && a != mshift && d > 0
      requires mshift.Value() == Shifted(d, shift0) && a.Value() < 2 * mshift.Value()
      modifies a, mshift
      ensures a.Valid() && a.Value() == old(a.Value()) % d
    {
      hide Pow2, Shifted, Congruent, Val;
      ghost var start := a.Value();
      var shift := shift0;
      CongruentRefl(start, d);
      while true
        invariant a.Valid() && mshift.Valid()
        invariant mshift.Value() == Shifted(d, shift)
        invariant a.Value() < 2 * mshift.Value()
        invariant Congruent(a.Value(), start, d)
        decreases shift
      {
        var c := a.Cmp(mshift);
        if c >= 0 {
          SubKeepsRemainder(a.Value(), d, shift);
          CongruentChain(a.Value() - Shifted(d, shift), a.Value(), start, d);
          SubInplace(a, mshift);
        }
        if shift == 0 {
          break;
        }
        HalfShift(d, shift);
        mshift.Rshift1();
        shift := shift - 1;
      }
      UnshiftedIsSame(d);
      CongruentSmall(a.Value(), start, d);
    }

    /** Modular power; a zero modulus makes every product zero. */
    static method ModExp(base: BigUint, exp: BigUint, m: BigUint) returns (result: BigUint)
      requires base.Valid() && exp.Valid() && m.Valid()
      ensures fresh(result) && result.Valid()
      ensures m.Value() > 0 ==> result.Value() == Power(base.Value(), exp.Value()) % m.Value()
      ensures m.Value() == 0 ==> result.Value() == if exp.Value() == 0 then 1 else 0
    {
      result := new BigUint.FromU32(1);
      var c := m.Cmp(result);
      if c == 0 {
        result := new BigUint();
        return;
      }
      var b := Mod(base, m);
      StartPower(base.Value(), exp.Value(), m.Value());
      hide Power, Congruent, Val, Trimmed;
      result := SquareAndMultiply(result, b, exp, m, Power(base.Value(), exp.Value()));
    }

    /** The loop of ModExp, lowest exponent bit first. */
    static method SquareAndMultiply(one: BigUint, base: BigUint, exp: BigUint, m: BigUint, ghost goal: nat)
      returns (result: BigUint)
      requires one.Valid() && base.Valid() && exp.Valid() && m.Valid() && one.Value() == 1 && m.Value() != 1
      requires m.Value() > 0 ==> Congruent(1 * Power(base.Value(), exp.Value()), goal, m.Value())
      ensures result == one || fresh(result)
      ensures result.Valid()
      ensures m.Value() > 0 ==> result.Value() == goal % m.Value()
      ensures m.Value() == 0 ==> result.Value() == if exp.Value() == 0 then 1 else 0
    {
      hide Power, Congruent, Val, Trimmed;
      ghost var d := m.Value();
      var b := base;
      result := one;
      var e := new BigUint.Copy(exp);
      while !e.IsZero()
        invariant result.Valid() && b.Valid() && e.Valid()
        invariant fresh(e) && e != b && e != result && e != m && (result == one || fresh(result))
        invariant d > 0 ==> result.Value() < d
        invariant d > 0 ==> Congruent(result.Value() * Power(b.Value(), e.Value()), goal, d)
        invariant d == 0 && exp.Value() == 0 ==> result.Value() == 1 && e.Value() == 0
        invariant exp.Value() > 0 ==> e.Value() > 0
        decreases e.Value()
      {
        PowerStep(result.Value(), b.Value(), e.Value(), goal, d);
        if e.IsOdd() {
          var product := Mul(result, b);
          result := Mod(product, m);
        }
        e.Rshift1();
        if e.IsZero() {
          break;
        }
        var square := Mul(b, b);
        b := Mod(square, m);
      }
      PowerZero(b.Value());
      if d > 0 {
        CongruentSmall(result.Value(), goal, d);
      }
    }
  }

  lemma HalveTop(v: nat, top: nat, n: nat)
    requires top > 0
    requires if n == 0 then top == v else top * Pow2(n) <= v < (top + 1) * Pow2(n)
    ensures top / 2 * Pow2(n + 1) <= v < (top / 2 + 1) * Pow2(n + 1)
    ensures top / 2 == 0 ==> Pow2(n) <= v
  {
    var p := Pow2(n);
    assert Pow2(n + 1) == 2 * p && (n == 0 ==> p == 1);
    hide Pow2;
    assert top * p <= v < (top + 1) * p;
    MulAssoc(top / 2, 2, p);
    MulAssoc(top / 2 + 1, 2, p);
    MulMono(top / 2 * 2, top, p);
    MulMono(top + 1, (top / 2 + 1) * 2, p);
    MulMono(1, top, p);
  }

  /** The number of bits of a number whose top limb has n bits. */
  lemma TopBits(l: seq<u32>, n: nat)
    requires Trimmed(l) && l != []
    requires n > 0 && Pow2(n - 1) <= l[|l| - 1] < Pow2(n)
    ensures Pow2((|l| - 1) * 32 + n - 1) <= Val(l) < Pow2((|l| - 1) * 32 + n)
  {
    hide Pow2, BasePow, Val;
    var k := |l| - 1;
    var top: int := l[k];
    var lo := l[..k];
    assert l[..k + 1] == l;
    ValTake(l, k);
    ValBound(lo);
    BasePowIsPow2(k);
    Pow2Add(32 * k, n - 1);
    Pow2Add(32 * k, n);
    var b := BasePow(k);
    assert k * 32 + n - 1 == 32 * k + (n - 1);
    MulMono(Pow2(n - 1), top, b);
    MulMono(top + 1, Pow2(n), b);
    MulDistribute(top, 1, b);
  }

  lemma RowDone(p: int, ai: int, b: int, w: int)
    ensures (p + ai * w) * b == p * b + ai * b * w
  {
  }

  lemma RowStart(b: seq<u32>, ai: int, w: int)
    ensures 0 * BasePow(0) == 0 && ai * Val(b[..0]) * w == 0
  {
  }

  lemma RowStep(ai: int, bj: int, v: int, i: nat, j: nat)
    ensures ai * (v + bj * BasePow(j)) * BasePow(i) == ai * v * BasePow(i) + ai * bj * BasePow(i + j)
  {
    BasePowAdd(j, i);
    hide BasePow;
    var x, y := BasePow(i), BasePow(j);
    MulDistributeLeft(ai, v, bj * y);
    MulDistribute(ai * v, ai * (bj * y), x);
    MulAssoc(ai, bj, y);
    MulAssoc(ai * bj, y, x);
  }

  lemma MulDistributeLeft(a: int, b: int, c: int)
    ensures a * (b + c) == a * b + a * c
  {
  }

  lemma SubStart(b: seq<u32>)
    ensures Val(b[..0]) == 0
  {
  }

  /** The number of the limbs below i, and the one at i, of a number that may be shorter. */
  lemma SubLimb(b: seq<u32>, i: nat)
    ensures var k := if i < |b| then i else |b|; var k' := if i + 1 < |b| then i + 1 else |b|;
      Val(b[..k']) == Val(b[..k]) + (if i < |b| then b[i] else 0) * BasePow(i)
  {
    if i < |b| {
      ValTake(b, i);
    }
  }

  lemma Pow2Zero()
    ensures Pow2(0) == 1
  {
  }

  lemma ShiftWords(l: seq<u32>, w: nat)
    ensures Val(seq(w, _ => 0) + l) == Val(l) * BasePow(w)
  {
    ValZeros(w);
    ValAppend(seq(w, _ => 0), l);
  }

  lemma PrefixZero(l: seq<u32>, w: nat)
    requires w <= |l| && forall k :: 0 <= k < w ==> l[k] == 0
    ensures Val(l[..w]) == 0
  {
    ValZeros(w);
    assert l[..w] == seq(w, _ => 0);
  }

  /** v, shifted left by k bits. */
  function Shifted(v: nat, k: nat): nat {
    v * Pow2(k)
  }

  lemma FewerBits(a: nat, m: nat, aBits: nat, mBits: nat)
    requires a < Pow2(aBits) && 0 < mBits && Pow2(mBits - 1) <= m && aBits < mBits
    ensures a < m
  {
    if aBits < mBits - 1 {
      Pow2Mono(aBits, mBits - 1);
    }
  }

  /** The divisor, shifted to the dividend's length, is more than half of it. */
  lemma ShiftCovers(a: nat, m: nat, aBits: nat, mBits: nat)
    requires a < Pow2(aBits) && 0 < mBits <= aBits && Pow2(mBits - 1) <= m
    ensures a < 2 * Shifted(m, aBits - mBits)
  {
    Pow2Add(mBits, aBits - mBits);
    assert Pow2(mBits) == 2 * Pow2(mBits - 1);
    hide Pow2;
    MulMono(Pow2(mBits), 2 * m, Pow2(aBits - mBits));
    MulAssoc(2, m, Pow2(aBits - mBits));
  }

  lemma SubKeepsRemainder(a: int, d: nat, shift: nat)
    requires d > 0
    ensures Congruent(a - Shifted(d, shift), a, d)
  {
    var k: int := Pow2(shift);
    AddMultiple(a, -k, d);
    assert (-k) * d == -(d * k);
  }

  lemma UnshiftedIsSame(d: nat)
    ensures Shifted(d, 0) == d
  {
  }

  lemma HalfShift(d: nat, shift: nat)
    requires shift > 0
    ensures Shifted(d, shift) / 2 == Shifted(d, shift - 1)
    ensures Shifted(d, shift) == 2 * Shifted(d, shift - 1)
  {
  }

  lemma StartPower(base: nat, exp: nat, d: nat)
    ensures d > 0 ==> Congruent(1 * Power(base % d, exp), Power(base, exp), d)
  {
    if d > 0 {
      CongruentMod(base, d);
      CongruentPower(base % d, base, exp, d);
    }
  }

  lemma PowerZero(b: nat)
    ensures Power(b, 0) == 1
  {
  }

  /** What one round of square-and-multiply keeps. */
  lemma PowerStep(r: nat, b: nat, e: nat, goal: nat, d: nat)
    requires d > 0 ==> Congruent(r * Power(b, e), goal, d)
    ensures d > 0 ==> var r' := if e % 2 == 1 then r * b % d else r;
      && Congruent(r' * Power(b * b % d, e / 2), goal, d)
      && (e / 2 == 0 ==> Congruent(r', goal, d))
  {
    if d > 0 {
      PowerHalve(b, e);
      var h := e / 2;
      var f := if e % 2 == 1 then b else 1;
      var r' := if e % 2 == 1 then r * b % d else r;
      MulAssoc(r, f, Power(b * b, h));
      CongruentMod(r * b, d);
      assert Congruent(r', r * f, d);
      CongruentTimes(r', r * f, Power(b * b, h), d);
      CongruentMod(b * b, d);
      CongruentPower(b * b % d, b * b, h, d);
      CongruentTimes(Power(b * b % d, h), Power(b * b, h), r', d);
      if h == 0 {
        assert Power(b * b, 0) == 1;
      }
    }
  }

  lemma CongruentRefl(x: int, m: nat)
    requires m > 0
    ensures Congruent(x, x, m)
  {
  }

  lemma CongruentChain(x: int, y: int, z: int, m: nat)
    requires m > 0 && Congruent(x, y, m) && Congruent(y, z, m)
    ensures Congruent(x, z, m)
  {
  }

  lemma CongruentSmall(x: nat, y: int, m: nat)
    requires m > 0 && x < m && Congruent(x, y, m)
    ensures x == y % m
  {
  }
}
