/** Powers and congruences of natural numbers. */
module Modular {
  import opened Bits

  function Power(b: nat, e: nat): nat {
    if e == 0 then 1 else b * Power(b, e - 1)
  }

  ghost predicate Congruent(x: int, y: int, m: nat)
    requires m > 0
  {
    x % m == y % m
  }

  lemma AddMultiple(x: int, k: int, m: nat)
    requires m > 0
    ensures Congruent(x + k * m, x, m)
  {
    var q, r := x / m, x % m;
    assert x == q * m + r;
    MulDistribute(q, k, m);
    DivModUnique(x + k * m, m, q + k, r);
  }

  lemma CongruentDifference(x: int, y: int, m: nat) returns (k: int)
    requires m > 0 && Congruent(x, y, m)
    ensures x == y + k * m
  {
    k := x / m - y / m;
    MulDistribute(x / m, -(y / m), m);
    assert (-(y / m)) * m == -(y / m * m);
  }

  lemma CongruentMod(x: int, m: nat)
    requires m > 0
    ensures Congruent(x % m, x, m)
  {
  }

  lemma CongruentTimes(x: int, y: int, z: int, m: nat)
    requires m > 0 && Congruent(x, y, m)
    ensures Congruent(x * z, y * z, m) && Congruent(z * x, z * y, m)
  {
    var k := CongruentDifference(x, y, m);
    MulDistribute(y, k * m, z);
    assert (k * m) * z == (k * z) * m;
    AddMultiple(y * z, k * z, m);
    assert x * z == z * x && y * z == z * y;
  }

  lemma {:induction false} CongruentPower(x: nat, y: nat, e: nat, m: nat)
    requires m > 0 && Congruent(x, y, m)
    ensures Congruent(Power(x, e), Power(y, e), m)
  {
    if e > 0 {
      CongruentPower(x, y, e - 1, m);
      CongruentTimes(x, y, Power(x, e - 1), m);
      CongruentTimes(Power(x, e - 1), Power(y, e - 1), y, m);
    }
  }

  lemma {:induction false} PowerAdd(b: nat, d: nat, e: nat)
    ensures Power(b, d + e) == Power(b, d) * Power(b, e)
  {
    if d > 0 {
      PowerAdd(b, d - 1, e);
      MulAssoc(b, Power(b, d - 1), Power(b, e));
    }
  }

  lemma {:induction false} PowerTimes(b: nat, d: nat, e: nat)
    ensures Power(b, d * e) == Power(Power(b, d), e)
  {
    if e > 0 {
      PowerTimes(b, d, e - 1);
      MulDistribute(e - 1, 1, d);
      assert d * e == d + d * (e - 1);
      PowerAdd(b, d, d * (e - 1));
    } else {
      assert d * 0 == 0;
    }
  }

  /** The square-and-multiply step. */
  lemma PowerHalve(b: nat, e: nat)
    ensures Power(b, e) == (if e % 2 == 1 then b else 1) * Power(b * b, e / 2)
  {
    var h := e / 2;
    PowerTimes(b, 2, h);
    assert Power(b, 1) == b * Power(b, 0);
    assert Power(b, 2) == b * b;
    PowerAdd(b, e % 2, 2 * h);
  }
}
