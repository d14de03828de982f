/**
 * The coordinates of a cell of the K-table: the row index tIdx, read from the
 * row's label, and the column index sigma, read from the column header.
 */
module IndexExpander {
  import opened Decimals

  /** tIdx = rowLabel / 10, as a whole number: t <= rowLabel / 10 < t + 1. */
  function TIndex(rowLabel: Decimal): (t: nat)
    ensures t * Pow10(rowLabel.scale + 1) <= rowLabel.mantissa < (t + 1) * Pow10(rowLabel.scale + 1)
  {
    var p := Pow10(rowLabel.scale + 1);
    FloorDiv(rowLabel.mantissa, p)
  }

  /** A row whose label is 10 * i gets tIdx i. */
  lemma TIndexOfLabel(rowLabel: Decimal, i: nat)
    requires IsValue(rowLabel, 10 * i)
    ensures TIndex(rowLabel) == i
  {
    var p := Pow10(rowLabel.scale + 1);
    assert rowLabel.mantissa == i * p;
    FloorUnique(rowLabel.mantissa, p, i);
  }

  /**
   * sigma = header / 0.0001 - 1, in exact decimal arithmetic: dividing by
   * 0.0001 moves the point four places to the right, then one is subtracted
   * at the resulting scale. Decimal.js rounds each of the two results to 20
   * significant digits, where this is exact.
   */
  function SigmaIndex(h: Signed): (r: Signed)
    ensures SameValue(r, Signed(h.num * 10000 - Pow10(h.scale), h.scale))
  {
    var shifted := if h.scale <= 4 then Signed(h.num * Pow10(4 - h.scale), 0) else Signed(h.num, h.scale - 4);
    var r := Signed(shifted.num - Pow10(shifted.scale), shifted.scale);
    SigmaIndexValue(h, shifted, r);
    r
  }

  lemma SigmaIndexValue(h: Signed, shifted: Signed, r: Signed)
    requires shifted == if h.scale <= 4 then Signed(h.num * Pow10(4 - h.scale), 0) else Signed(h.num, h.scale - 4)
    requires r == Signed(shifted.num - Pow10(shifted.scale), shifted.scale)
    ensures SameValue(r, Signed(h.num * 10000 - Pow10(h.scale), h.scale))
  {
    assert Pow10(4) == 10000;
    if h.scale <= 4 {
      Pow10Add(4 - h.scale, h.scale);
      calc {
        r.num * Pow10(h.scale);
        (h.num * Pow10(4 - h.scale) - 1) * Pow10(h.scale);
        h.num * (Pow10(4 - h.scale) * Pow10(h.scale)) - Pow10(h.scale);
        h.num * 10000 - Pow10(h.scale);
      }
    } else {
      Pow10Add(h.scale - 4, 4);
      calc {
        r.num * Pow10(h.scale);
        (h.num - Pow10(h.scale - 4)) * (Pow10(h.scale - 4) * 10000);
        (h.num * 10000 - Pow10(h.scale - 4) * 10000) * Pow10(h.scale - 4);
        (h.num * 10000 - Pow10(h.scale)) * Pow10(r.scale);
      }
    }
  }

  /**
   * The sigma index string of a column header, as pushed onto sigmaIdxs;
   * None when Decimal.js cannot read the header.
   */
  function SigmaString(key: string): (r: Option<string>)
    ensures r.Some? <==> ParseSigned(key).Some?
  {
    match ParseSigned(key)
    case None => None
    case Some(h) => Some(RenderSigned(SigmaIndex(h)))
  }

  /** A 17-digit header whose sigma index needs 21 digits, which the model keeps exactly. */
  lemma SigmaOfLargeHeader()
    ensures SigmaIndex(Signed(99999999999999999, 0)) == Signed(999999999999999989999, 0)
  {
  }

  /** The header "0.0003" gives the sigma index "2". */
  lemma SigmaOfExample()
    ensures SigmaString("0.0003") == Some("2")
  {
    ParseExample();
    GridSigma(3);
    assert NatDigits(2) == "2";
  }

  lemma ParseExample()
    ensures ParseSigned("0.0003") == Some(Signed(3, 4))
  {
    var s := "0.0003";
    assert '.' in s by { assert s[1] == '.'; }
    IndexOfFirst(s, '.', 1);
    assert s[..1] == "0" && s[2..] == "0003";
    assert "0" + "0003" == "00003";
    assert DigitsValue("00003") == 3 by {
      assert "00003"[..4] == "0000";
      assert "0000"[..3] == "000";
      assert "000"[..2] == "00";
      assert "00"[..1] == "0";
      assert "0"[..0] == "";
    }
    assert ParseUnsigned(s) == Some(Decimal(3, 4));
  }

  /** Column k of the grid, header 0.0001 * k, has sigma k - 1, rendered as k - 1's digits. */
  lemma GridSigma(k: nat)
    requires k >= 1
    ensures SigmaIndex(Signed(k, 4)) == Signed(k - 1, 0)
    ensures RenderSigned(SigmaIndex(Signed(k, 4))) == NatDigits(k - 1)
  {
    GridSigmaIndex(k);
    RenderInteger(k - 1);
  }

  lemma GridSigmaIndex(k: nat)
    requires k >= 1
    ensures SigmaIndex(Signed(k, 4)) == Signed(k - 1, 0)
  {
    assert Pow10(0) == 1;
  }

  /** The header for column k of the grid, 0.0001 * k, gives the sigma index k - 1. */
  lemma SigmaOfGridHeader(k: nat)
    requires k >= 1
    ensures SigmaString(RenderUnsigned(Decimal(k, 4))) == Some(NatDigits(k - 1))
  {
    var s := RenderUnsigned(Decimal(k, 4));
    ParseRenderUnsigned(Decimal(k, 4));
    assert s[0] != '-' && s[0] != '+';
    assert ParseSigned(s) == Some(Signed(k, 4));
    GridSigma(k);
  }

  /**
   * The string pushed for a header is exact: reading it back gives a decimal
   * equal to header * 10^4 - 1.
   */
  lemma SigmaStringExact(key: string, h: Signed)
    requires ParseSigned(key) == Some(h)
    ensures SigmaString(key).Some?
    ensures ParseSigned(SigmaString(key).value).Some?
    ensures SameValue(ParseSigned(SigmaString(key).value).value, Signed(h.num * 10000 - Pow10(h.scale), h.scale))
  {
    var x := SigmaIndex(h);
    assert SigmaString(key) == Some(RenderSigned(x));
    ParseRenderSigned(x);
    var n := Normalize(x);
    SameValueSymmetric(x, n);
    SameValueTransitive(n, x, Signed(h.num * 10000 - Pow10(h.scale), h.scale));
  }
}
