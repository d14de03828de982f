/**
 * The fixed-point form in which a K coefficient is stored on the ledger: the
 * coefficient times 2^64, with every fractional digit dropped (truncation
 * toward zero; all coefficients here are non-negative).
 */
module FixedPoint {
  import opened Decimals

  function Pow2(n: nat): (r: nat)
    ensures r > 0
  {
    if n == 0 then 1 else 2 * Pow2(n - 1)
  }

  function Pow5(n: nat): (r: nat)
    ensures r > 0
  {
    if n == 0 then 1 else 5 * Pow5(n - 1)
  }

  /** 2^64, the fixed-point number 1.0. */
  const ONE: nat := 0x1_0000_0000_0000_0000

  /** The number of decimal digits that r / 2^64 needs after the point: 64. */
  const EXACT_SCALE: nat := 64

  lemma {:induction false} Pow2Add(a: nat, b: nat)
    ensures Pow2(a + b) == Pow2(a) * Pow2(b)
  {
    if a > 0 {
      Pow2Add(a - 1, b);
      calc {
        Pow2(a + b);
        2 * Pow2(a - 1 + b);
        2 * (Pow2(a - 1) * Pow2(b));
        (2 * Pow2(a - 1)) * Pow2(b);
      }
    }
  }

  lemma OneIsPow2()
    ensures ONE == Pow2(64)
  {
    Pow2Of8();
    Pow2Add(8, 8);
    assert Pow2(16) == 65536;
    Pow2Add(16, 16);
    assert Pow2(32) == 4294967296;
    Pow2Add(32, 32);
  }

  lemma Pow2Of8()
    ensures Pow2(8) == 256
  {
    assert Pow2(2) == 4;
    assert Pow2(4) == 16;
  }

  lemma {:induction false} Pow2TimesPow5(n: nat)
    ensures Pow2(n) * Pow5(n) == Pow10(n)
  {
    if n > 0 {
      Pow2TimesPow5(n - 1);
      calc {
        Pow2(n) * Pow5(n);
        (2 * Pow2(n - 1)) * (5 * Pow5(n - 1));
        10 * (Pow2(n - 1) * Pow5(n - 1));
      }
    }
  }

  /**
   * The fixed-point encoding of a coefficient: the largest integer r with
   * r <= c * 2^64, that is floor(c * 2^64).
   */
  function Encode(c: Decimal): (r: nat)
    ensures r * Pow10(c.scale) <= c.mantissa * ONE < (r + 1) * Pow10(c.scale)
  {
    var x := c.mantissa * ONE;
    FloorDiv(x, Pow10(c.scale))
  }

  /** The bracket of Encode's contract has one solution only: the encoding is the floor. */
  lemma EncodeIsFloor(c: Decimal, r: nat)
    requires r * Pow10(c.scale) <= c.mantissa * ONE < (r + 1) * Pow10(c.scale)
    ensures Encode(c) == r
  {
    FloorUnique(c.mantissa * ONE, Pow10(c.scale), r);
  }

  /** 1.0 encodes to 2^64, however many zeros follow its point. */
  lemma EncodeOne()
    ensures Encode(Decimal(1, 0)) == 18446744073709551616
    ensures Encode(Decimal(10, 1)) == 18446744073709551616
  {
  }

  /** 0.5 encodes to 2^63. */
  lemma EncodeHalf()
    ensures Encode(Decimal(5, 1)) == 9223372036854775808
  {
  }

  /** Two spellings of the same decimal (0.5 and 0.50) encode alike. */
  lemma EncodeRescale(c: Decimal, k: nat)
    ensures Encode(Decimal(c.mantissa * Pow10(k), c.scale + k)) == Encode(c)
  {
    Pow10Add(c.scale, k);
    RescaledQuotient(c.mantissa, ONE, Pow10(c.scale), Pow10(k));
  }

  lemma RescaledQuotient(m: nat, u: nat, p: nat, q: nat)
    requires p > 0 && q > 0
    ensures ((m * q) * u) / (p * q) == (m * u) / p
  {
    assert (m * q) * u == (m * u) * q;
    DivScale(m * u, p, q);
  }

  /** A larger coefficient never encodes to a smaller integer. */
  lemma EncodeMonotone(a: Decimal, b: Decimal)
    requires a.mantissa * Pow10(b.scale) <= b.mantissa * Pow10(a.scale)
    ensures Encode(a) <= Encode(b)
  {
    var pa, pb := Pow10(a.scale), Pow10(b.scale);
    assert (a.mantissa * ONE) * pb <= (b.mantissa * ONE) * pa by {
      assert (a.mantissa * ONE) * pb == (a.mantissa * pb) * ONE;
      assert (b.mantissa * ONE) * pa == (b.mantissa * pa) * ONE;
    }
    DivMonotone(a.mantissa * ONE, pa, b.mantissa * ONE, pb);
  }

  /** The decimal r / 2^64 written with 64 fractional digits (r * 5^64 / 10^64). */
  function FixedToDecimal(r: nat): Decimal
  {
    Decimal(r * Pow5(EXACT_SCALE), EXACT_SCALE)
  }

  /** FixedToDecimal is exact: its value times 2^64 is r, with nothing dropped. */
  lemma FixedToDecimalExact(r: nat)
    ensures FixedToDecimal(r).mantissa * ONE == r * Pow10(FixedToDecimal(r).scale)
  {
    OneTimesPow5();
    Regroup(r, Pow5(EXACT_SCALE), ONE, Pow10(EXACT_SCALE));
  }

  /** 2^64 * 5^64 == 10^64 */
  lemma OneTimesPow5()
    ensures ONE * Pow5(EXACT_SCALE) == Pow10(EXACT_SCALE)
  {
    OneIsPow2();
    Pow2TimesPow5(EXACT_SCALE);
  }

  lemma Regroup(r: nat, a: nat, b: nat, c: nat)
    requires b * a == c
    ensures (r * a) * b == r * c
  {
  }

  /** Re-encoding the exact decimal of an encoded value gives the same integer back. */
  lemma EncodeFixedToDecimal(r: nat)
    ensures Encode(FixedToDecimal(r)) == r
  {
    var c := FixedToDecimal(r);
    var p := Pow10(c.scale);
    FixedToDecimalExact(r);
    assert c.mantissa * ONE == r * p;
    assert r * p <= c.mantissa * ONE < (r + 1) * p;
    EncodeIsFloor(c, r);
  }
}
