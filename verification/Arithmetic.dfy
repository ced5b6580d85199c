/** The arithmetic behind `big.Rat`: powers of ten, greatest common divisors and the uniqueness of
    a fraction in lowest terms. */
module Arithmetic {

  function Power10(n: nat): (p: nat)
    ensures p >= 1
  {
    if n == 0 then 1 else 10 * Power10(n - 1)
  }

  /** 10 to an integer power, negative ones included. */
  ghost function Power10Real(e: int): real {
    if e >= 0 then Power10(e) as real else 1.0 / Power10(-e) as real
  }

  lemma {:induction false} Power10Adds(a: nat, b: nat)
    ensures Power10(a + b) == Power10(a) * Power10(b)
  {
    if a > 0 {
      Power10Adds(a - 1, b);
      assert Power10(a + b) == 10 * (Power10(a - 1) * Power10(b));
    }
  }

  lemma {:induction false} Power10Exceeds(n: nat)
    ensures n > 0 ==> Power10(n) >= 10
  {
    if n > 1 {
      Power10Exceeds(n - 1);
    }
  }

  function Abs(x: int): nat {
    if x < 0 then -x else x
  }

  function Gcd(a: nat, b: nat): (g: nat)
    requires a > 0 || b > 0
    ensures g > 0
    decreases b
  {
    if b == 0 then a else Gcd(b, a % b)
  }

  /** `d` divides `x` with quotient `q`. */
  ghost predicate DividesBy(d: int, x: int, q: int) {
    x == d * q
  }

  ghost predicate Divides(d: int, x: int) {
    exists q :: DividesBy(d, x, q)
  }

  /** The greatest common divisor divides both numbers and is an integer combination of them. */
  lemma {:induction false} GcdBezout(a: nat, b: nat) returns (x: int, y: int)
    requires a > 0 || b > 0
    ensures Divides(Gcd(a, b), a) && Divides(Gcd(a, b), b)
    ensures x * a + y * b == Gcd(a, b)
    decreases b
  {
    if b == 0 {
      x, y := 1, 0;
      assert DividesBy(a, a, 1) && DividesBy(a, b, 0);
    } else {
      var q, r := a / b, a % b;
      var u, v := GcdBezout(b, r);
      var g := Gcd(b, r);
      var qb :| DividesBy(g, b, qb);
      var qr :| DividesBy(g, r, qr);
      DividesStep(g, b, r, q, qb, qr);
      assert DividesBy(g, a, qb * q + qr);
      x, y := v, u - q * v;
      BezoutStep(a, b, q, r, u, v);
    }
  }

  lemma DividesStep(g: int, b: int, r: int, q: int, qb: int, qr: int)
    requires b == g * qb && r == g * qr
    ensures b * q + r == g * (qb * q + qr)
  {
    assert (g * qb) * q == g * (qb * q);
  }

  lemma BezoutStep(a: int, b: int, q: int, r: int, u: int, v: int)
    requires a == b * q + r
    ensures v * a + (u - q * v) * b == u * b + v * r
  {
    assert v * (b * q) == (q * v) * b;
  }

  /** A fraction with positive denominator in lowest terms. */
  datatype Rat = Rat(num: int, den: int)

  ghost predicate LowestTerms(r: Rat) {
    r.den > 0 && Gcd(Abs(r.num), r.den) == 1
  }

  /** The two fractions are the same rational number. */
  ghost predicate SameRational(a: Rat, b: Rat) {
    a.num * b.den == b.num * a.den
  }

  /** `new(big.Rat).SetFrac(num, den)` for a positive denominator. */
  function SetFrac(num: int, den: int): (r: Rat)
    requires den > 0
  {
    var g := Gcd(Abs(num), den);
    Rat(num / g, den / g)
  }

  lemma MultipleIsLarge(d: int, q: int)
    requires d >= 0
    ensures q >= 1 ==> d * q >= d
    ensures q <= 0 ==> d * q <= 0
    ensures q <= -1 ==> d * q <= -d
  {
    if q >= 1 {
      assert d * q == d + d * (q - 1);
    } else if q <= -1 {
      assert d * q == -d + d * (q + 1);
    }
  }

  lemma FactorOut(g: int, a: int, b: int, x: int, y: int)
    ensures g * (x * a + y * b) == x * (g * a) + y * (g * b)
  {
    assert g * (x * a + y * b) == g * (x * a) + g * (y * b);
  }

  lemma DivideExactly(x: int, d: int, q: int)
    requires d > 0 && DividesBy(d, x, q)
    ensures x / d == q
  {
    assert x == d * q + 0;
    assert x == d * (x / d) + x % d;
    var e := x / d - q;
    assert d * e == -(x % d) by {
      assert d * e == d * (x / d) - d * q;
    }
    MultipleIsLarge(d, e);
  }

  lemma DividesIsBounded(d: nat, x: nat, q: int)
    requires x > 0 && DividesBy(d, x, q)
    ensures 1 <= q && d <= x
  {
    MultipleIsLarge(d, q);
  }

  /** Reduction keeps the number and reaches lowest terms. */
  lemma SetFracReduces(num: int, den: int)
    requires den > 0
    ensures LowestTerms(SetFrac(num, den))
    ensures SameRational(SetFrac(num, den), Rat(num, den))
  {
    var g := Gcd(Abs(num), den);
    var x, y := GcdBezout(Abs(num), den);
    var qa :| DividesBy(g, Abs(num), qa);
    var qd :| DividesBy(g, den, qd);
    var qn := if num < 0 then -qa else qa;
    assert DividesBy(g, num, qn);
    DivideExactly(num, g, qn);
    DivideExactly(den, g, qd);
    MultipleIsLarge(g, qa);
    MultipleIsLarge(g, qd);
    FactorOut(g, qa, qd, x, y);
    CancelFactor(g, x * qa + y * qd, 1);
    CombinationOfOne(qa, qd, x, y);
    CrossMultiply(g, qn, qd);
  }

  lemma CrossMultiply(g: int, a: int, b: int)
    ensures a * (g * b) == (g * a) * b
  {
  }

  lemma CancelFactor(g: int, a: int, b: int)
    requires g != 0 && g * a == g * b
    ensures a == b
  {
  }

  lemma CombinationOfOne(a: nat, b: nat, x: int, y: int)
    requires b > 0 && x * a + y * b == 1
    ensures Gcd(a, b) == 1
  {
    var g := Gcd(a, b);
    var _, _ := GcdBezout(a, b);
    var qa :| DividesBy(g, a, qa);
    var qb :| DividesBy(g, b, qb);
    FactorOut(g, qa, qb, x, y);
    DividesIsBounded(g, 1, x * qa + y * qb);
  }

  /** Euclid's lemma in the form needed: a denominator in lowest terms divides any denominator of
      the same number. */
  lemma DenominatorDivides(a: Rat, b: Rat) returns (q: int)
    requires LowestTerms(a) && b.den > 0 && SameRational(a, b)
    ensures DividesBy(a.den, b.den, q)
  {
    var x, y := GcdBezout(Abs(a.num), a.den);
    var sx := if a.num < 0 then -x else x;
    assert sx * a.num == x * Abs(a.num) by {
      if a.num < 0 { assert (-x) * a.num == x * (-a.num); }
    }
    q := sx * b.num + y * b.den;
    EuclidStep(a.num, a.den, b.num, b.den, sx, y);
  }

  lemma EuclidStep(an: int, ad: int, bn: int, bd: int, x: int, y: int)
    requires x * an + y * ad == 1 && an * bd == bn * ad
    ensures bd == ad * (x * bn + y * bd)
  {
    calc {
      bd;
      (x * an + y * ad) * bd;
      x * (an * bd) + y * (ad * bd);
      x * (bn * ad) + y * (ad * bd);
      ad * (x * bn) + ad * (y * bd);
    }
  }

  lemma EqualDenominators(an: int, bn: int, ad: int, bd: int)
    requires ad == bd > 0 && an * bd == bn * ad
    ensures an == bn
  {
    CancelFactor(ad, an, bn);
  }

  /** A rational number has one representation in lowest terms. */
  lemma LowestTermsUnique(a: Rat, b: Rat)
    requires LowestTerms(a) && LowestTerms(b) && SameRational(a, b)
    ensures a == b
  {
    var q := DenominatorDivides(a, b);
    var p := DenominatorDivides(b, a);
    DividesIsBounded(a.den, b.den, q);
    DividesIsBounded(b.den, a.den, p);
    EqualDenominators(a.num, b.num, a.den, b.den);
  }
}
