/** Python floats, opaque but for their equality with integers, which makes the two the same dict key. */
module Floats {
  import opened ByteStrings
  import opened Timestamps

  /** The 8-byte image of a float. */
  type Double = b: Bytes | |b| == 8 witness [0, 0, 0, 0, 0, 0, 0, 0]

  const FRACTION := 0x10_0000_0000_0000
  const SIGN := 0x8000_0000_0000_0000

  /** 2 to the power `k`. */
  function Pow2(k: nat): (p: nat)
    ensures p > 0
  {
    if k == 0 then 1 else 2 * Pow2(k - 1)
  }

  /** The exponent field, and the fraction without the hidden bit. */
  function Exponent(bits: Double): nat {
    Load(bits) / FRACTION % 0x800
  }

  function Fraction(bits: Double): nat {
    Load(bits) % FRACTION
  }

  predicate IsNaN(bits: Double) {
    Exponent(bits) == 0x7ff && Fraction(bits) != 0
  }

  function Sign(bits: Double): int {
    if Load(bits) >= SIGN then -1 else 1
  }

  /** The integer a float is equal to, if there is one: zero, or a significand shifted without losing a bit. */
  function IntegerOf(bits: Double): Option<int> {
    var e, m := Exponent(bits), FRACTION + Fraction(bits);
    if e == 0 then (if Fraction(bits) == 0 then Some(0) else None)
    else if e == 0x7ff then None
    else if e >= 1075 then Some(Sign(bits) * (m * Pow2(e - 1075)))
    else if m % Pow2(1075 - e) == 0 then Some(Sign(bits) * (m / Pow2(1075 - e)))
    else None
  }

  /** A finite float is this fraction (section 3.4 of IEEE 754-2019, binary64). */
  function Numerator(bits: Double): int {
    var e := Exponent(bits);
    var m := if e == 0 then Fraction(bits) else FRACTION + Fraction(bits);
    Sign(bits) * (m * if e >= 1075 then Pow2(e - 1075) else 1)
  }

  function Denominator(bits: Double): nat {
    var e := Exponent(bits);
    if e == 0 then Pow2(1074) else if e >= 1075 then 1 else Pow2(1075 - e)
  }

  lemma {:induction false} Pow2Adds(a: nat, b: nat)
    ensures Pow2(a + b) == Pow2(a) * Pow2(b)
  {
    if a == 0 {
    } else {
      Pow2Adds(a - 1, b);
      assert 2 * (Pow2(a - 1) * Pow2(b)) == (2 * Pow2(a - 1)) * Pow2(b);
    }
  }

  lemma FractionIsAPower()
    ensures Pow2(52) == FRACTION
  {
    Pow2Adds(26, 26);
    Pow2Adds(13, 13);
    Pow2Adds(10, 3);
    Pow2Adds(5, 5);
    assert Pow2(5) == 2 * Pow2(4) && Pow2(4) == 2 * Pow2(3) && Pow2(3) == 2 * Pow2(2) && Pow2(2) == 2 * Pow2(1);
  }

  lemma Times(k: int, d: nat, n: int)
    requires d > 0
    ensures k >= n ==> k * d >= n * d
    ensures k < n ==> k * d < n * d
  {
  }

  lemma PowersGrow(a: nat, b: nat)
    requires b > 0
    ensures Pow2(a) < Pow2(a + b)
  {
    Pow2Adds(a, b);
    Times(Pow2(b), Pow2(a), 2);
  }

  lemma FractionIsSmall()
    ensures FRACTION < Pow2(1074)
  {
    hide Pow2;
    FractionIsAPower();
    PowersGrow(52, 1022);
  }

  lemma Quotient(k: int, d: nat)
    requires d > 0
    ensures (k * d) % d == 0 && (k * d) / d == k
  {
    var q, r := (k * d) / d, (k * d) % d;
    assert k * d == q * d + r;
    Times(k, d, q);
    Times(k, d, q + 1);
    assert (q + 1) * d == q * d + d;
  }

  lemma Divides(m: nat, d: nat, sign: int, n: int)
    requires d > 0 && (sign == 1 || sign == -1)
    ensures sign * m == n * d <==> m % d == 0 && n == sign * (m / d)
  {
    if sign * m == n * d {
      var k := sign * n;
      assert m == k * d;
      Quotient(k, d);
    }
    if m % d == 0 {
      assert m == (m / d) * d;
      assert (sign * (m / d)) * d == sign * ((m / d) * d);
    }
  }

  /** `IntegerOf` finds the integer a finite float is equal to, exactly. */
  lemma IntegerOfIsTheValue(bits: Double, n: int)
    requires Exponent(bits) != 0x7ff
    ensures IntegerOf(bits) == Some(n) <==> Numerator(bits) == n * Denominator(bits)
  {
    var e, m := Exponent(bits), FRACTION + Fraction(bits);
    if e == 0 {
      FractionIsSmall();
      Divides(Fraction(bits), Pow2(1074), Sign(bits), n);
      SmallModulus(Fraction(bits), Pow2(1074));
    } else if e < 1075 {
      Divides(m, Pow2(1075 - e), Sign(bits), n);
    }
  }
}
