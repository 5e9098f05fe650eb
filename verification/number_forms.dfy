/**
 * Which form the minifier writes: scientific exactly when the exponent is
 * large or the value is small, a '.' exactly for the fixed-point forms with
 * a negative exponent, never a leading '0', an exponent written without '+'
 * or leading zeros, and one or two '0's appended for a small positive
 * exponent.
 */
module NumberForms {
  import opened Bytes
  import opened Decimal
  import opened Literal
  import opened Number
  import opened NumberProps

  /** The exponent calls for the scientific form: e > 2, or fewer than -2 places before the point. */
  predicate Scientific(n: nat, e: int) {
    e != 0 && (e + n < -2 || 2 < e)
  }

  /** The literal is rewritten: valid, non-zero, with a parsed exponent, and the form fits. */
  predicate Rewritten(s: seq<byte>) {
    Valid(s) && ExpValue(s).Some? && !IsZero(s) && Fits(s)
  }

  lemma {:induction false} NoMarkerInDigits(t: seq<byte>)
    requires AllDigits(t)
    ensures LOWER_E !in t && DOT !in t
  {
  }

  /** The marker 'e' appears in the digits' form exactly when the exponent calls for it. */
  lemma {:induction false} MarkerExactly(d: seq<byte>, e: int)
    requires |d| >= 1 && AllDigits(d)
    ensures LOWER_E in FormatDigits(d, e) <==> Scientific(|d|, e)
  {
    var rel := e + |d|;
    NoMarkerInDigits(d);
    if e == 0 {
    } else if rel < -2 || 2 < e {
      assert FormatDigits(d, e)[|d|] == LOWER_E;
    } else if e < 0 {
      if rel > 0 {
        NoMarkerInDigits(d[..rel]);
        NoMarkerInDigits(d[rel..]);
      } else {
        NoMarkerInDigits(Zeros(-rel));
      }
    } else {
      NoMarkerInDigits(Zeros(e));
    }
  }

  /** A '.' appears exactly in the fixed-point forms with a negative exponent. */
  lemma {:induction false} PointExactly(d: seq<byte>, e: int)
    requires |d| >= 1 && AllDigits(d)
    ensures DOT in FormatDigits(d, e) <==> e < 0 && -2 <= e + |d|
  {
    var rel := e + |d|;
    if 0 <= e || rel < -2 {
      NoPoint(d, e);
    } else if rel > 0 {
      assert FormatDigits(d, e)[rel] == DOT;
    } else {
      assert FormatDigits(d, e)[0] == DOT;
    }
  }

  lemma {:induction false} NoPoint(d: seq<byte>, e: int)
    requires |d| >= 1 && AllDigits(d) && (0 <= e || e + |d| < -2)
    ensures DOT !in FormatDigits(d, e)
  {
    NoMarkerInDigits(d);
    if e == 0 {
    } else if e + |d| < -2 || 2 < e {
      ReprInt(Abs(e));
      NoMarkerInDigits(Repr(Abs(e)));
    } else {
      NoMarkerInDigits(Zeros(e));
    }
  }

  /**
   * The form never starts with '0'. It starts with '.' exactly when the value
   * is below one (no more significant digits than places after the point)
   * and the form is not scientific.
   */
  lemma {:induction false} FirstByte(d: seq<byte>, e: int)
    requires |d| >= 1 && AllDigits(d) && d[0] != ZERO
    ensures FormatDigits(d, e)[0] != ZERO
    ensures FormatDigits(d, e)[0] == DOT <==> e < 0 && -2 <= e + |d| <= 0
  {
  }

  /**
   * The scientific form is the digits, 'e', a '-' only for a negative
   * exponent, and the exponent's magnitude without leading zeros, which
   * reads back as the exponent.
   */
  lemma {:induction false} ExponentWritten(d: seq<byte>, e: int)
    requires |d| >= 1 && AllDigits(d) && Scientific(|d|, e)
    ensures FormatDigits(d, e) == d + SciExp(e)
    ensures var x := SciExp(e)[1..];
      x[0] != PLUS && (x[0] == MINUS <==> e < 0)
      && x[SignLen(x)] != ZERO && AllDigits(x[SignLen(x)..])
    ensures ExpOf(SciExp(e)) == Some(e)
  {
    SciExpValue(e);
    ReprInt(Abs(e));
    SignedShape(SignPart(e < 0), Repr(Abs(e)));
    Regroup(d, [LOWER_E], SignPart(e < 0), Repr(Abs(e)));
  }

  lemma {:induction false} SignedShape(sg: seq<byte>, r: seq<byte>)
    requires sg == [] || sg == [MINUS]
    requires |r| >= 1 && AllDigits(r) && r[0] != ZERO
    ensures var x := ([LOWER_E] + sg + r)[1..];
      x[0] != PLUS && (x[0] == MINUS <==> sg != [])
      && x[SignLen(x)] != ZERO && AllDigits(x[SignLen(x)..])
  {
    DropHead([LOWER_E], sg, r);
    SignedDigits(sg, r);
    Suffix(sg, r);
  }

  lemma {:induction false} Regroup<T>(a: seq<T>, b: seq<T>, c: seq<T>, r: seq<T>)
    ensures a + b + c + r == a + (b + c + r)
  {
  }

  /** The result of a rewrite is the sign followed by the significand's form. */
  lemma {:induction false} RewrittenForm(s: seq<byte>)
    requires Rewritten(s)
    ensures var d, e := Significand(s), NetExp(s, ExpValue(s).value);
      AllDigits(d) && d[0] != ZERO && d[|d| - 1] != ZERO
      && Canonical(s) == SignPart(Negative(s)) + FormatDigits(d, e)
  {
    var x := ExpValue(s).value;
    SignificandDigits(s);
    assert Canonical(s) == Format(Negative(s), Significand(s), NetExp(s, x));
  }

  lemma {:induction false} SignificandDigits(s: seq<byte>)
    requires Valid(s) && !IsZero(s)
    ensures AllDigits(Significand(s)) && Significand(s)[0] != ZERO
  {
    MantissaDigits(s);
  }

  /**
   * The form choice, stated on the minifier's result: 'e' exactly when the
   * exponent calls for the scientific form, '.' exactly for a negative
   * exponent in fixed point, no '0' right after the sign, and a leading '.'
   * exactly for fixed-point values below one.
   */
  lemma {:induction false} FormChoice(s: seq<byte>)
    requires Rewritten(s)
    ensures var c, d, e := Canonical(s), Significand(s), NetExp(s, ExpValue(s).value);
      var k := |SignPart(Negative(s))|;
      k < |c|
      && (LOWER_E in c <==> Scientific(|d|, e))
      && (DOT in c <==> e < 0 && -2 <= e + |d|)
      && c[k] != ZERO
      && (c[k] == DOT <==> e < 0 && -2 <= e + |d| <= 0)
  {
    var d, e := Significand(s), NetExp(s, ExpValue(s).value);
    var sg := SignPart(Negative(s));
    RewrittenForm(s);
    MarkerExactly(d, e);
    PointExactly(d, e);
    FirstByte(d, e);
    SignThenForm(sg, FormatDigits(d, e));
  }

  lemma {:induction false} SignThenForm(sg: seq<byte>, t: seq<byte>)
    requires sg == [] || sg == [MINUS]
    requires |t| >= 1
    ensures (sg + t)[|sg|] == t[0]
    ensures LOWER_E in sg + t <==> LOWER_E in t
    ensures DOT in sg + t <==> DOT in t
  {
    Suffix(sg, t);
  }

  /**
   * A scientific result: the sign, the significant digits, then 'e', a '-'
   * only for a negative exponent and the exponent's digits with no leading
   * '0', reading back as the net exponent.
   */
  lemma {:induction false} ScientificResult(s: seq<byte>)
    requires Rewritten(s) && Scientific(|Significand(s)|, NetExp(s, ExpValue(s).value))
    ensures var d, e := Significand(s), NetExp(s, ExpValue(s).value);
      var x := SciExp(e)[1..];
      Canonical(s) == SignPart(Negative(s)) + d + SciExp(e)
      && x[0] != PLUS && (x[0] == MINUS <==> e < 0) && x[SignLen(x)] != ZERO
      && ExpOf(SciExp(e)) == Some(e)
  {
    var d, e := Significand(s), NetExp(s, ExpValue(s).value);
    RewrittenForm(s);
    ExponentWritten(d, e);
    Assoc(SignPart(Negative(s)), d, SciExp(e));
  }

  lemma {:induction false} Assoc<T>(a: seq<T>, b: seq<T>, c: seq<T>)
    ensures a + (b + c) == a + b + c
  {
  }

  /**
   * A result with net exponent 0, 1 or 2: the sign, the significant digits
   * (the last one not '0'), then exactly that many '0's and nothing else.
   */
  lemma {:induction false} WholeResult(s: seq<byte>)
    requires Rewritten(s) && 0 <= NetExp(s, ExpValue(s).value) <= 2
    ensures var d, e := Significand(s), NetExp(s, ExpValue(s).value);
      Canonical(s) == SignPart(Negative(s)) + d + Zeros(e) && d[|d| - 1] != ZERO
  {
    var d, e := Significand(s), NetExp(s, ExpValue(s).value);
    RewrittenForm(s);
    ZerosAfter(d, e);
    Assoc(SignPart(Negative(s)), d, Zeros(e));
  }

  lemma {:induction false} ZerosAfter(d: seq<byte>, e: int)
    requires |d| >= 1 && 0 <= e <= 2
    ensures FormatDigits(d, e) == d + Zeros(e)
  {
    if e == 0 {
      assert Zeros(0) == [];
      AppendEmpty(d);
    }
  }
}
