/**
 * Exact decimal numbers, as the loader reads and writes them with the
 * Decimal.js library: reading a column header ("0.0003") into a decimal and
 * rendering a sigma index back into a string ("2").
 *
 * Only positional notation is modelled: digits with at most one point,
 * optionally preceded by one sign character.
 */
module Decimals {

  datatype Option<+T> = None | Some(value: T)

  /** The unsigned decimal number mantissa / 10^scale: 0.05 is Decimal(5, 2), and also Decimal(50, 3). */
  datatype Decimal = Decimal(mantissa: nat, scale: nat)

  /** The signed decimal number num / 10^scale. */
  datatype Signed = Signed(num: int, scale: nat)

  function Pow10(n: nat): (r: nat)
    ensures r > 0
  {
    if n == 0 then 1 else 10 * Pow10(n - 1)
  }

  lemma {:induction false} Pow10Add(a: nat, b: nat)
    ensures Pow10(a + b) == Pow10(a) * Pow10(b)
  {
    if a > 0 {
      Pow10Add(a - 1, b);
      calc {
        Pow10(a + b);
        10 * Pow10(a - 1 + b);
        10 * (Pow10(a - 1) * Pow10(b));
        (10 * Pow10(a - 1)) * Pow10(b);
      }
    }
  }

  /** The unsigned decimal d stands for the natural number n. */
  predicate IsValue(d: Decimal, n: nat) {
    d.mantissa == n * Pow10(d.scale)
  }

  /** x and y stand for the same rational number. */
  predicate SameValue(x: Signed, y: Signed) {
    x.num * Pow10(y.scale) == y.num * Pow10(x.scale)
  }

  lemma SameValueSymmetric(x: Signed, y: Signed)
    requires SameValue(x, y)
    ensures SameValue(y, x)
  {
  }

  lemma SameValueTransitive(x: Signed, y: Signed, z: Signed)
    requires SameValue(x, y) && SameValue(y, z)
    ensures SameValue(x, z)
  {
    var px, py, pz := Pow10(x.scale), Pow10(y.scale), Pow10(z.scale);
    calc {
      (x.num * pz) * py;
      { MulSwap(x.num, pz, py); }
      (x.num * py) * pz;
      { MulBoth(x.num * py, y.num * px, pz); }
      (y.num * px) * pz;
      { MulSwap(y.num, px, pz); }
      (y.num * pz) * px;
      { MulBoth(y.num * pz, z.num * py, px); }
      (z.num * py) * px;
      { MulSwap(z.num, py, px); }
      (z.num * px) * py;
    }
    MulCancel(x.num * pz, z.num * px, py);
  }

  lemma MulSwap(a: int, b: int, c: int)
    ensures (a * b) * c == (a * c) * b
  {
  }

  lemma MulBoth(a: int, b: int, c: int)
    requires a == b
    ensures a * c == b * c
  {
  }

  lemma MulCancel(a: int, b: int, c: int)
    requires c > 0 && a * c == b * c
    ensures a == b
  {
    assert (a - b) * c == 0;
  }

  // ---------------------------------------------------------------------
  // Facts about natural-number division, stated on plain variables

  lemma MulLessCancel(a: int, b: int, p: int)
    requires p > 0 && a * p < b * p
    ensures a < b
  {
  }

  /** Natural-number division rounds down. */
  function FloorDiv(x: nat, p: nat): (r: nat)
    requires p > 0
    ensures r * p <= x
    ensures x < (r + 1) * p
  {
    x / p
  }

  lemma DivBracket(x: nat, p: nat)
    requires p > 0
    ensures (x / p) * p <= x < (x / p + 1) * p
  {
  }

  /** Natural-number division is the floor: the one r with r * p <= x < (r + 1) * p. */
  lemma FloorUnique(x: nat, p: nat, r: nat)
    requires p > 0 && r * p <= x < (r + 1) * p
    ensures x / p == r
  {
    DivBracket(x, p);
    MulLessCancel(x / p, r + 1, p);
    MulLessCancel(r, x / p + 1, p);
  }

  /** Scaling numerator and denominator alike does not change the quotient. */
  lemma DivScale(x: nat, p: nat, q: nat)
    requires p > 0 && q > 0
    ensures (x * q) / (p * q) == x / p
  {
    var r := x / p;
    DivBracket(x, p);
    assert r * p * q <= x * q;
    assert x * q < (r + 1) * p * q;
    assert r * (p * q) <= x * q < (r + 1) * (p * q);
    FloorUnique(x * q, p * q, r);
  }

  /** If x / pa <= y / pb as fractions, then also as floors. */
  lemma DivMonotone(x: nat, pa: nat, y: nat, pb: nat)
    requires pa > 0 && pb > 0 && x * pb <= y * pa
    ensures x / pa <= y / pb
  {
    var ra, rb := x / pa, y / pb;
    DivBracket(x, pa);
    DivBracket(y, pb);
    assert ra * pa * pb <= x * pb;
    assert y * pa < (rb + 1) * pb * pa;
    assert ra * (pa * pb) < (rb + 1) * (pa * pb);
    MulLessCancel(ra, rb + 1, pa * pb);
  }

  // ---------------------------------------------------------------------
  // Digit strings

  predicate IsDigit(c: char) {
    '0' <= c <= '9'
  }

  predicate AllDigits(s: string) {
    forall i :: 0 <= i < |s| ==> IsDigit(s[i])
  }

  function DigitValue(c: char): (d: nat)
    requires IsDigit(c)
    ensures d < 10
  {
    c as int - '0' as int
  }

  function DigitChar(d: nat): (c: char)
    requires d < 10
    ensures IsDigit(c) && DigitValue(c) == d
  {
    ('0' as int + d) as char
  }

  /** The number a string of decimal digits denotes, most significant digit first. */
  function DigitsValue(s: string): nat
    requires AllDigits(s)
  {
    if s == [] then 0 else 10 * DigitsValue(s[..|s| - 1]) + DigitValue(s[|s| - 1])
  }

  /** The shortest decimal digit string of n: "0" for zero, no leading zero otherwise. */
  function NatDigits(n: nat): (s: string)
    ensures s != [] && AllDigits(s) && DigitsValue(s) == n
    ensures s[0] == '0' <==> n == 0
  {
    if n < 10 then
      [DigitChar(n)]
    else
      var s := NatDigits(n / 10) + [DigitChar(n % 10)];
      assert s[..|s| - 1] == NatDigits(n / 10);
      s
  }

  function Zeros(k: nat): (s: string)
    ensures |s| == k && AllDigits(s)
  {
    seq(k, _ => '0')
  }

  lemma {:induction false} ZerosValue(k: nat)
    ensures DigitsValue(Zeros(k)) == 0
  {
    if k > 0 {
      assert Zeros(k)[..k - 1] == Zeros(k - 1);
      ZerosValue(k - 1);
    }
  }

  /** Zeros in front of a digit string do not change its value. */
  lemma {:induction false} LeadingZerosValue(k: nat, s: string)
    requires AllDigits(s)
    ensures AllDigits(Zeros(k) + s) && DigitsValue(Zeros(k) + s) == DigitsValue(s)
  {
    if s == [] {
      assert Zeros(k) + s == Zeros(k);
      ZerosValue(k);
    } else {
      var p := s[..|s| - 1];
      assert (Zeros(k) + s)[..|Zeros(k) + s| - 1] == Zeros(k) + p;
      LeadingZerosValue(k, p);
    }
  }

  // ---------------------------------------------------------------------
  // Reading a numeral (the Decimal.js constructor applied to a string)

  /** The index of the first occurrence of c in s. */
  function IndexOf(s: string, c: char): (k: nat)
    requires c in s
    ensures k < |s| && s[k] == c && c !in s[..k]
  {
    if s[0] == c then 0 else 1 + IndexOf(s[1..], c)
  }

  /**
   * A numeral in positional notation without a sign: digits and at most one
   * point, with at least one digit ("3", "3.", ".3" and "0.0003", not ".").
   */
  predicate PlainNumeral(s: string) {
    && s != [] && s != "."
    && (forall i :: 0 <= i < |s| ==> IsDigit(s[i]) || s[i] == '.')
    && (forall i, j :: 0 <= i < j < |s| && s[i] == '.' ==> s[j] != '.')
  }

  /**
   * Reads an unsigned numeral: the digits on both sides of the point make the
   * mantissa, the number of digits after the point is the scale. None is the
   * case in which Decimal.js throws.
   */
  function ParseUnsigned(s: string): (r: Option<Decimal>)
    ensures r.Some? ==> r.value.scale < |s|
    ensures r.Some? && '.' !in s ==> r.value.scale == 0
    ensures r.Some? && '.' in s ==> r.value.scale == |s| - 1 - IndexOf(s, '.')
  {
    if '.' in s then
      var k := IndexOf(s, '.');
      var whole, frac := s[..k], s[k + 1..];
      if AllDigits(whole) && AllDigits(frac) && whole + frac != [] then
        assert AllDigits(whole + frac) by {
          forall i | 0 <= i < |whole + frac| ensures IsDigit((whole + frac)[i]) {
            if i >= |whole| { assert (whole + frac)[i] == frac[i - |whole|]; }
          }
        }
        Some(Decimal(DigitsValue(whole + frac), |frac|))
      else
        None
    else if AllDigits(s) && s != [] then
      Some(Decimal(DigitsValue(s), 0))
    else
      None
  }

  /** IndexOf finds the first position holding c. */
  lemma {:induction false} IndexOfFirst(s: string, c: char, m: nat)
    requires m < |s| && s[m] == c
    requires forall i :: 0 <= i < m ==> s[i] != c
    ensures IndexOf(s, c) == m
  {
    if m > 0 {
      IndexOfFirst(s[1..], c, m - 1);
    }
  }

  /** ParseUnsigned accepts exactly the plain numerals. */
  lemma ParseUnsignedAccepts(s: string)
    ensures ParseUnsigned(s).Some? <==> PlainNumeral(s)
  {
    if ParseUnsigned(s).Some? {
      AcceptedIsPlain(s);
    }
    if PlainNumeral(s) {
      PlainIsAccepted(s);
    }
  }

  lemma AcceptedIsPlain(s: string)
    requires ParseUnsigned(s).Some?
    ensures PlainNumeral(s)
  {
    if '.' in s {
      var k := IndexOf(s, '.');
      var whole, frac := s[..k], s[k + 1..];
      assert AllDigits(whole) && AllDigits(frac);
      forall i | 0 <= i < |s| && i != k ensures IsDigit(s[i]) {
        if i < k {
          assert s[i] == whole[i];
        } else {
          assert s[i] == frac[i - k - 1];
        }
      }
      assert |s| == |whole| + |frac| + 1;
    } else {
      assert IsDigit(s[0]);
    }
  }

  lemma PlainIsAccepted(s: string)
    requires PlainNumeral(s)
    ensures ParseUnsigned(s).Some?
  {
    if '.' in s {
      var k := IndexOf(s, '.');
      var whole, frac := s[..k], s[k + 1..];
      forall i | 0 <= i < |whole| ensures IsDigit(whole[i]) {
        assert whole[i] == s[i] && s[i] != '.';
      }
      forall i | 0 <= i < |frac| ensures IsDigit(frac[i]) {
        assert frac[i] == s[k + 1 + i];
      }
      assert s == [s[0]] + s[1..];
      assert |whole + frac| == |s| - 1;
    }
  }

  /** Reads a numeral with an optional leading '-' or '+', as Decimal.js does. */
  function ParseSigned(s: string): (r: Option<Signed>)
    ensures r.Some? <==> PlainNumeral(if s != [] && (s[0] == '-' || s[0] == '+') then s[1..] else s)
    ensures r.Some? && r.value.num < 0 ==> s[0] == '-'
  {
    var negative := s != [] && s[0] == '-';
    var digits := if s != [] && (s[0] == '-' || s[0] == '+') then s[1..] else s;
    ParseUnsignedAccepts(digits);
    match ParseUnsigned(digits)
    case None => None
    case Some(d) => Some(Signed(if negative then -(d.mantissa as int) else d.mantissa as int, d.scale))
  }

  // ---------------------------------------------------------------------
  // Rendering a number (Decimal.js toString in positional notation)

  /** Decimal.js keeps no zeros at the end of a fraction: 2.50 is held as 2.5, and 20.0 as 20. */
  function Normalize(x: Signed): (y: Signed)
    ensures SameValue(x, y)
    ensures y.scale == 0 || y.num % 10 != 0
    decreases x.scale
  {
    if x.scale > 0 && x.num % 10 == 0 then
      var z := Signed(x.num / 10, x.scale - 1);
      var y := Normalize(z);
      assert SameValue(x, z) by {
        calc {
          x.num * Pow10(z.scale);
          (10 * z.num) * Pow10(x.scale - 1);
          z.num * (10 * Pow10(x.scale - 1));
          z.num * Pow10(x.scale);
        }
      }
      SameValueTransitive(x, z, y);
      y
    else
      x
  }

  function Abs(n: int): nat {
    if n < 0 then -n else n
  }

  /** The digits of the mantissa with a point before the last `scale` of them, padded with zeros to "0.05". */
  function RenderUnsigned(d: Decimal): (s: string)
    ensures s != [] && IsDigit(s[0])
  {
    if d.scale == 0 then
      NatDigits(d.mantissa)
    else
      var padded := Padded(d);
      assert IsDigit(padded[0]);
      padded[..|padded| - d.scale] + "." + padded[|padded| - d.scale..]
  }

  /** The string Decimal.js gives for x, in positional notation; zero never carries a sign. */
  function RenderSigned(x: Signed): (s: string)
    ensures s != []
    ensures s[0] == '-' <==> x.num < 0
  {
    var y := Normalize(x);
    SameSign(x, y);
    (if y.num < 0 then "-" else "") + RenderUnsigned(Decimal(Abs(y.num), y.scale))
  }

  /** Two numbers of the same value have the same sign. */
  lemma SameSign(x: Signed, y: Signed)
    requires SameValue(x, y)
    ensures x.num < 0 <==> y.num < 0
  {
    var px, py := Pow10(x.scale), Pow10(y.scale);
    assert x.num * py == y.num * px;
    if x.num < 0 { assert x.num * py < 0; }
    if y.num < 0 { assert y.num * px < 0; }
  }

  /** An integer renders as its digits. */
  lemma RenderInteger(n: nat)
    ensures RenderSigned(Signed(n, 0)) == NatDigits(n)
  {
    var y := Signed(n, 0);
    assert Normalize(y) == y;
    assert RenderUnsigned(Decimal(Abs(y.num), y.scale)) == NatDigits(n);
    assert "" + NatDigits(n) == NatDigits(n);
  }

  /** Zero-padded digits of a mantissa: at least scale + 1 of them, with the mantissa's value. */
  function Padded(d: Decimal): (p: string)
    ensures AllDigits(p) && |p| > d.scale && DigitsValue(p) == d.mantissa
  {
    var digits := NatDigits(d.mantissa);
    if |digits| <= d.scale then
      LeadingZerosValue(d.scale + 1 - |digits|, digits);
      Zeros(d.scale + 1 - |digits|) + digits
    else
      digits
  }

  /** Reading a rendered unsigned decimal gives back the same mantissa and scale. */
  lemma ParseRenderUnsigned(d: Decimal)
    ensures ParseUnsigned(RenderUnsigned(d)) == Some(d)
  {
    if d.scale == 0 {
      ParseRenderWhole(d);
    } else {
      ParseRenderFraction(d);
    }
  }

  lemma ParseRenderWhole(d: Decimal)
    requires d.scale == 0
    ensures ParseUnsigned(RenderUnsigned(d)) == Some(d)
  {
    var s := RenderUnsigned(d);
    assert s == NatDigits(d.mantissa);
    assert '.' !in s by {
      forall i | 0 <= i < |s| ensures s[i] != '.' { assert IsDigit(s[i]); }
    }
  }

  lemma ParseRenderFraction(d: Decimal)
    requires d.scale > 0
    ensures ParseUnsigned(RenderUnsigned(d)) == Some(d)
  {
    var padded := Padded(d);
    var m := |padded| - d.scale;
    var whole, frac := padded[..m], padded[m..];
    assert RenderUnsigned(d) == whole + "." + frac;
    assert whole + frac == padded;
    assert AllDigits(whole) by {
      forall i | 0 <= i < |whole| ensures IsDigit(whole[i]) { assert whole[i] == padded[i]; }
    }
    assert AllDigits(frac) by {
      forall i | 0 <= i < |frac| ensures IsDigit(frac[i]) { assert frac[i] == padded[m + i]; }
    }
    ParseWithPoint(whole, frac);
  }

  /** Digits, a point and digits are read with the digits after the point as the scale. */
  lemma ParseWithPoint(whole: string, frac: string)
    requires AllDigits(whole) && AllDigits(frac) && whole + frac != []
    ensures ParseUnsigned(whole + "." + frac) == Some(Decimal(DigitsValue(whole + frac), |frac|))
  {
    var s := whole + "." + frac;
    var m := |whole|;
    assert s[m] == '.';
    forall i | 0 <= i < m ensures s[i] != '.' {
      assert s[i] == whole[i];
    }
    IndexOfFirst(s, '.', m);
    assert s[..m] == whole && s[m + 1..] == frac;
  }

  /** Reading a rendered signed decimal gives back its normal form, which has the same value. */
  lemma ParseRenderSigned(x: Signed)
    ensures ParseSigned(RenderSigned(x)) == Some(Normalize(x))
  {
    var y := Normalize(x);
    var d := Decimal(Abs(y.num), y.scale);
    var u := RenderUnsigned(d);
    ParseRenderUnsigned(d);
    if y.num < 0 {
      assert RenderSigned(x) == "-" + u;
      ParseMinus(u, d);
    } else {
      assert RenderSigned(x) == u;
      ParseNoSign(u, d);
    }
  }

  lemma ParseMinus(u: string, d: Decimal)
    requires ParseUnsigned(u) == Some(d)
    ensures ParseSigned("-" + u) == Some(Signed(-(d.mantissa as int), d.scale))
  {
    assert ("-" + u)[1..] == u;
  }

  lemma ParseNoSign(u: string, d: Decimal)
    requires u != [] && IsDigit(u[0]) && ParseUnsigned(u) == Some(d)
    ensures ParseSigned(u) == Some(Signed(d.mantissa as int, d.scale))
  {
  }
}
