/** Numbers as little-endian 32-bit limbs. */
module BigNat {
  import opened Bits

  const BASE: nat := 0x1_0000_0000

  function Val(l: seq<u32>): nat {
    if l == [] then 0 else l[0] + BASE * Val(l[1..])
  }

  function BasePow(k: nat): (p: nat)
    ensures p >= 1
  {
    if k == 0 then 1 else BASE * BasePow(k - 1)
  }

  /** No leading zero limb: the form every operation keeps. */
  predicate Trimmed(l: seq<u32>) {
    l == [] || l[|l| - 1] != 0
  }

  lemma {:induction false} BasePowAdd(a: nat, b: nat)
    ensures BasePow(a + b) == BasePow(a) * BasePow(b)
  {
    if a > 0 {
      BasePowAdd(a - 1, b);
      MulAssoc(BASE, BasePow(a - 1), BasePow(b));
    }
  }

  lemma {:induction false} BasePowIsPow2(k: nat)
    ensures BasePow(k) == Pow2(32 * k)
  {
    if k > 0 {
      BasePowIsPow2(k - 1);
      Pow2Add(32, 32 * (k - 1));
      Pow2Values();
    }
  }

  lemma {:induction false} ValAppend(a: seq<u32>, b: seq<u32>)
    ensures Val(a + b) == Val(a) + BasePow(|a|) * Val(b)
  {
    if a == [] {
      assert a + b == b;
    } else {
      assert (a + b)[1..] == a[1..] + b;
      ValAppend(a[1..], b);
      MulAssoc(BASE, BasePow(|a| - 1), Val(b));
    }
  }

  lemma ValSingle(x: u32)
    ensures Val([x]) == x
  {
  }

  lemma ValSnoc(a: seq<u32>, x: u32)
    ensures Val(a + [x]) == Val(a) + x * BasePow(|a|)
  {
    hide Val, BasePow;
    ValAppend(a, [x]);
    ValSingle(x);
  }

  lemma ValTake(a: seq<u32>, k: nat)
    requires k < |a|
    ensures Val(a[..k + 1]) == Val(a[..k]) + a[k] * BasePow(k)
  {
    assert a[..k] + [a[k]] == a[..k + 1];
    ValSnoc(a[..k], a[k]);
  }

  lemma ValUpdate(a: seq<u32>, k: nat, x: u32)
    requires k < |a|
    ensures Val(a[k := x]) == Val(a) + (x - a[k]) * BasePow(k)
  {
    hide Val, BasePow;
    var p, q := a[..k], a[k + 1..];
    assert a == p + ([a[k]] + q) && a[k := x] == p + ([x] + q);
    ValAppend(p, [a[k]] + q);
    ValAppend(p, [x] + q);
    ValCons(a[k], q);
    ValCons(x, q);
    MulDistribute(Val([a[k]] + q), x - a[k], BasePow(k));
  }

  lemma ValCons(x: u32, q: seq<u32>)
    ensures Val([x] + q) == x + BASE * Val(q)
  {
  }

  lemma {:induction false} ValBound(a: seq<u32>)
    ensures Val(a) < BasePow(|a|)
  {
    if a != [] {
      ValBound(a[1..]);
    }
  }

  lemma {:induction false} ValZeros(n: nat)
    ensures Val(seq(n, _ => 0)) == 0
  {
    if n > 0 {
      ValZeros(n - 1);
      assert seq(n, _ => 0)[1..] == seq(n - 1, _ => 0);
    }
  }

  /** A trimmed number fills its limbs. */
  lemma TrimmedBound(a: seq<u32>)
    requires Trimmed(a) && a != []
    ensures BasePow(|a| - 1) <= Val(a) < BasePow(|a|)
  {
  }

  lemma {:induction false} BasePowMono(a: nat, b: nat)
    requires a <= b
    ensures BasePow(a) <= BasePow(b)
  {
    if a < b {
      BasePowMono(a, b - 1);
    }
  }

  /** Fewer limbs, smaller number. */
  lemma FewerLimbs(a: seq<u32>, b: seq<u32>)
    requires Trimmed(b) && |a| < |b|
    ensures Val(a) < Val(b)
  {
  }

  /** The most significant limb that differs decides. */
  lemma MostSignificant(a: seq<u32>, b: seq<u32>, i: nat)
    requires |a| == |b| && i < |a| && a[i + 1..] == b[i + 1..] && a[i] < b[i]
    ensures Val(a) < Val(b)
  {
    hide Val, BasePow;
    var hi := a[i + 1..];
    assert a == a[..i + 1] + hi && b == b[..i + 1] + hi;
    ValAppend(a[..i + 1], hi);
    ValAppend(b[..i + 1], hi);
    ValTake(a, i);
    ValTake(b, i);
    ValBound(a[..i]);
    MulMono(a[i] + 1, b[i], BasePow(i));
    MulDistribute(a[i], 1, BasePow(i));
  }

  /** A number has one trimmed form. */
  lemma TrimmedUnique(a: seq<u32>, b: seq<u32>)
    requires Trimmed(a) && Trimmed(b) && Val(a) == Val(b)
    ensures a == b
  {
  }

  lemma {:induction false} LastDifference(a: seq<u32>, b: seq<u32>) returns (i: nat)
    requires |a| == |b| && a != b
    ensures i < |a| && a[i] != b[i] && a[i + 1..] == b[i + 1..]
  {
    var k := |a| - 1;
    if a[k] != b[k] {
      i := k;
    } else {
      assert a == a[..k] + [a[k]] && b == b[..k] + [b[k]];
      i := LastDifference(a[..k], b[..k]);
      assert a[i + 1..] == a[..k][i + 1..] + [a[k]];
      assert b[i + 1..] == b[..k][i + 1..] + [b[k]];
    }
  }
}
