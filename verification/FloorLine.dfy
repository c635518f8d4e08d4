/** The lines of a Vorbis type 1 floor (Vorbis I, sections 9.2.6 and 9.2.7). */
module FloorLine {
  import opened Bits

  function Abs(x: int): (a: int)
    ensures a >= 0
  {
    if x < 0 then -x else x
  }

  /** Division as C does it, towards zero. */
  function Quotient(a: int, b: int): (q: int)
    requires b > 0
  {
    if a < 0 then -(-a / b) else a / b
  }

  /** The value at x of the line from (x0, y0) to (x1, y1), by division. */
  function PredictPoint(x: int, x0: int, x1: int, y0: int, y1: int): int
    requires x0 < x1
  {
    var dy := y1 - y0;
    var adx := x1 - x0;
    var err := Abs(dy) * (x - x0);
    var off := Quotient(err, adx);
    if dy < 0 then y0 - off else y0 + off
  }

  /** The line's value from a quotient and remainder of the division. */
  lemma PredictAt(x: int, x0: int, x1: int, y0: int, y1: int, off: nat, err: nat)
    requires x0 < x1 && x0 <= x && err < x1 - x0
    requires Abs(y1 - y0) * (x - x0) == off * (x1 - x0) + err
    ensures PredictPoint(x, x0, x1, y0, y1) == if y1 - y0 < 0 then y0 - off else y0 + off
  {
    DivModUnique(Abs(y1 - y0) * (x - x0), x1 - x0, off, err);
  }

  /** The point is the last one at or before the line, counted from y0 towards y1; both ends are on it. */
  lemma PredictIsNearest(x: int, x0: int, x1: int, y0: int, y1: int)
    requires x0 < x1 && x0 <= x <= x1
    ensures var off := Abs(PredictPoint(x, x0, x1, y0, y1) - y0);
      off * (x1 - x0) <= Abs(y1 - y0) * (x - x0) < (off + 1) * (x1 - x0)
    ensures PredictPoint(x0, x0, x1, y0, y1) == y0 && PredictPoint(x1, x0, x1, y0, y1) == y1
  {
    var n, d := Abs(y1 - y0) * (x - x0), x1 - x0;
    MulMono(0, Abs(y1 - y0), x - x0);
    DivMod(n, d);
    MulDistribute(n / d, 1, d);
    PredictAt(x, x0, x1, y0, y1, n / d, n % d);
    PredictAt(x0, x0, x1, y0, y1, 0, 0);
    PredictAt(x1, x0, x1, y0, y1, Abs(y1 - y0), 0);
  }

  /** One step right raises the quotient by the whole slope, and by one more when the remainder carries. */
  lemma StepQuotient(ady: nat, adx: nat, k: nat, slope: nat, rest: nat, off: nat, err: nat)
    requires ady == slope * adx + rest && ady * k == off * adx + err
    ensures ady * (k + 1) == (off + slope) * adx + (err + rest)
    ensures ady * (k + 1) == (off + slope + 1) * adx + (err + rest - adx)
  {
  }

  lemma WholeSlope(dy: int, adx: nat)
    requires adx > 0
    ensures Quotient(dy, adx) == if dy < 0 then -Abs(Quotient(dy, adx)) else Abs(Quotient(dy, adx))
    ensures 0 <= Abs(dy) - Abs(Quotient(dy, adx)) * adx < adx
  {
    DivMod(Abs(dy), adx);
  }

  /**
   * Draws the line from (x0, y0) up to, not including, x1 or n, stepping an error term instead of dividing.
   * The output holds the y of each x; the source writes the table entry that y selects.
   */
  method DrawLine(output: array<int>, x0: int, y0: int, x1: int, y1: int, n: int)
    requires 0 <= x0 < x1 && n <= output.Length
    modifies output
    ensures forall x :: x0 <= x < x1 && x < n ==> output[x] == PredictPoint(x, x0, x1, y0, y1)
    ensures forall x :: 0 <= x < output.Length && !(x0 <= x < x1 && x < n) ==> output[x] == old(output[x])
  {
    var dy := y1 - y0;
    var adx := x1 - x0;
    var ady: int := Abs(dy);
    var x, y := x0, y0;
    var err: int := 0;
    var base := Quotient(dy, adx);
    var sy := if dy < 0 then base - 1 else base + 1;
    ghost var slope: nat := Abs(base);
    WholeSlope(dy, adx);
    hide PredictPoint, Quotient;
    ady := ady - Abs(base) * adx;
    var end := if x1 > n then n else x1;
    if x < end {
      ghost var off: nat := 0;
      PredictAt(x, x0, x1, y0, y1, off, err);
      output[x] := y;
      x := x + 1;
      while x < end
        invariant x0 < x <= end
        invariant 0 <= err < adx && Abs(dy) * (x - 1 - x0) == off * adx + err
        invariant y == if dy < 0 then y0 - off else y0 + off
        invariant forall j :: x0 <= j < x ==> output[j] == PredictPoint(j, x0, x1, y0, y1)
        invariant forall j :: 0 <= j < output.Length && !(x0 <= j < x) ==> output[j] == old(output[j])
      {
        StepQuotient(Abs(dy), adx, x - 1 - x0, slope, ady, off, err);
        err := err + ady;
        if err >= adx {
          err := err - adx;
          y := y + sy;
          off := off + slope + 1;
        } else {
          y := y + base;
          off := off + slope;
        }
        assert x - 1 - x0 + 1 == x - x0;
        PredictAt(x, x0, x1, y0, y1, off, err);
        output[x] := y;
        x := x + 1;
      }
    }
  }
}
