/** Integers as float64: what a RawValue keeps of a wide field (encoding.go, decode.go). */
module Floats {
  import opened Bytes

  /** A float64 significand holds 53 bits. */
  const PRECISION: nat := 0x20_0000_0000_0000

  /** Distance between neighbouring floats around n, as an exponent of two. */
  function Exponent(n: nat): nat {
    if n < PRECISION then 0 else 1 + Exponent(n / 2)
  }

  /** To the nearest multiple of unit, ties to the even one. */
  function RoundTo(n: nat, unit: nat): nat
    requires unit > 0
  {
    var q, r := n / unit, n % unit;
    (if 2 * r > unit || (2 * r == unit && q % 2 == 1) then q + 1 else q) * unit
  }

  function RoundNat(n: nat): nat { RoundTo(n, Pow(2, Exponent(n))) }

  /** The conversion of an integer to float64: nearest, ties to even. */
  function Float64(v: int): int {
    if v < 0 then -(RoundNat(-v) as int) else RoundNat(v)
  }

  // ---------------------------------------------------------------- what the conversion keeps

  function Scaled(c: nat, e: nat): nat { c * Pow(2, e) }

  /** The natural numbers a float64 can hold: a significand of 53 bits, scaled. */
  ghost predicate IsFloat(m: nat) {
    exists c: nat, e: nat :: c <= PRECISION && m == Scaled(c, e)
  }

  ghost predicate IsFloatInt(v: int) { IsFloat(if v < 0 then -v else v) }

  lemma {:induction false} ExponentFits(n: nat)
    ensures n < PRECISION * Pow(2, Exponent(n))
    ensures Exponent(n) > 0 ==> PRECISION * Pow(2, Exponent(n) - 1) <= n
  {
    if n >= PRECISION {
      ExponentFits(n / 2);
      var p := Pow(2, Exponent(n / 2));
      assert Pow(2, Exponent(n)) == 2 * p;
      MulAssociative(PRECISION, 2, p);
      if Exponent(n / 2) > 0 {
        var h := Pow(2, Exponent(n / 2) - 1);
        MulAssociative(PRECISION, 2, h);
      }
    }
  }

  /** Every float is below the top of n's bracket or a multiple of its unit. */
  lemma FloatsAreCoarse(n: nat, c: nat, e: nat)
    requires c <= PRECISION && Exponent(n) > 0
    ensures var unit := Pow(2, Exponent(n));
      c * Pow(2, e) <= n / unit * unit || c * Pow(2, e) % unit == 0
  {
    var k := Exponent(n);
    var unit := Pow(2, k);
    if e >= k {
      PowAdd(2, e - k, k);
      MulAssociative(c, Pow(2, e - k), unit);
      MultipleOf(c * Pow(2, e - k), unit);
    } else {
      PowAdd(2, k - 1 - e, e);
      var low := Pow(2, k - 1);
      assert Pow(2, e) <= low by { Grows(Pow(2, k - 1 - e), Pow(2, e)); }
      Below(c, Pow(2, e), PRECISION, low);
      ExponentFits(n);
      var half := PRECISION / 2;
      assert half * unit == PRECISION * low by { MulAssociative(half, 2, low); }
      Floor(n, half, unit);
    }
  }

  lemma MultipleOf(a: nat, d: nat)
    requires d > 0
    ensures a * d % d == 0 && a * d / d == a
  {
    Quotient(a * d, a, 0, d);
  }

  lemma Quotient(n: nat, q: nat, r: nat, d: nat)
    requires d > 0 && r < d && n == q * d + r
    ensures n / d == q && n % d == r
  {
    var q', r' := n / d, n % d;
    assert n == q' * d + r';
    assert q' >= q + 1 ==> q' * d >= (q + 1) * d;
    assert q' <= q - 1 ==> q' * d <= (q - 1) * d;
  }

  lemma Grows(a: nat, b: nat)
    requires a >= 1
    ensures b <= a * b
  {
  }

  lemma Below(a: nat, b: nat, c: nat, d: nat)
    requires a <= c && b <= d
    ensures a * b <= c * d
  {
  }

  lemma Floor(n: nat, h: nat, unit: nat)
    requires unit > 0 && h * unit <= n
    ensures h * unit <= n / unit * unit
  {
    var q := n / unit;
    assert n == q * unit + n % unit;
    assert q <= h - 1 ==> q * unit <= (h - 1) * unit;
    if q >= h { Below(h, unit, q, unit); }
  }

  function Distance(a: int, b: int): nat { if a < b then b - a else a - b }

  /** No multiple of unit, and nothing below n's bracket, is nearer than the rounded one. */
  lemma RoundIsNearest(n: nat, unit: nat, m: nat)
    requires unit > 0 && (m <= n / unit * unit || m % unit == 0)
    ensures Distance(RoundTo(n, unit), n) <= Distance(m, n)
  {
    hide RoundTo;
    RoundCases(n, unit);
    if m > n / unit * unit { NextMultiple(m, n / unit, unit); }
  }

  lemma RoundCases(n: nat, unit: nat)
    requires unit > 0
    ensures var low := n / unit * unit;
      && low <= n < low + unit
      && (RoundTo(n, unit) == low ==> 2 * (n - low) <= unit)
      && (RoundTo(n, unit) != low ==> RoundTo(n, unit) == low + unit && 2 * (n - low) >= unit)
  {
    var q := n / unit;
    assert (q + 1) * unit == q * unit + unit;
  }

  lemma NextMultiple(m: nat, q: nat, unit: nat)
    requires unit > 0 && m % unit == 0 && m > q * unit
    ensures m >= q * unit + unit
  {
    var j := m / unit;
    assert m == j * unit;
    if j <= q { Below(j, unit, q, unit); }
    Below(q + 1, unit, j, unit);
  }

  lemma RoundIsFloat(n: nat)
    ensures IsFloat(RoundNat(n))
  {
    var unit := Pow(2, Exponent(n));
    var q := n / unit;
    ExponentFits(n);
    assert n == q * unit + n % unit;
    assert q < PRECISION by {
      if q >= PRECISION { Below(PRECISION, unit, q, unit); }
    }
    assert Scaled(q, Exponent(n)) == q * unit && Scaled(q + 1, Exponent(n)) == (q + 1) * unit;
  }

  lemma RoundNatNearest(n: nat, m: nat)
    requires IsFloat(m)
    ensures Distance(RoundNat(n), n) <= Distance(m, n)
  {
    if Exponent(n) == 0 {
      assert RoundTo(n, 1) == n;
    } else {
      var c: nat, e: nat :| c <= PRECISION && m == Scaled(c, e);
      FloatsAreCoarse(n, c, e);
      RoundIsNearest(n, Pow(2, Exponent(n)), m);
    }
  }

  /** The value kept is a float, and no float is nearer to the integer read. */
  lemma NearestFloat(v: int, m: int)
    requires IsFloatInt(m)
    ensures IsFloatInt(Float64(v)) && Distance(Float64(v), v) <= Distance(m, v)
  {
    hide IsFloat, RoundNat;
    var n: nat := if v < 0 then -v else v;
    RoundIsFloat(n);
    RoundNatNearest(n, if m < 0 then -m else m);
  }

  /** So the value is kept exactly when it is a float; every integer up to 2^53 in magnitude is. */
  lemma ExactFloat(v: int)
    ensures Float64(v) == v <==> IsFloatInt(v)
    ensures -(PRECISION as int) <= v <= PRECISION ==> Float64(v) == v
  {
    hide RoundNat;
    if IsFloatInt(v) { NearestFloat(v, v); }
    assert IsFloatInt(0) by { assert Scaled(0, 0) == 0; }
    NearestFloat(v, 0);
    if -(PRECISION as int) <= v <= PRECISION {
      var n: nat := if v < 0 then -v else v;
      assert Scaled(n, 0) == n;
      NearestFloat(v, v);
    }
  }
}
