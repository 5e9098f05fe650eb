/**
 * The minifier's output on particular literals: trailing integer zeros
 * turn into an exponent only from three on, values below one lose their
 * leading "0", a fraction of zeros goes with its point, zero of any sign is
 * "0", a '+' is dropped, and a literal whose exponent does not parse comes
 * back as it was.
 */
module NumberExamples {
  import opened Bytes
  import opened Decimal
  import opened Literal
  import opened Number
  import opened NumberProps

  const ONE: byte := 49
  const THREE: byte := 51
  const FOUR: byte := 52
  const FIVE: byte := 53

  /** A valid, non-zero literal whose significand's form fits is rewritten to that form. */
  lemma {:induction false} Rewrites(s: seq<byte>, x: int, d: seq<byte>, e: int, out: seq<byte>)
    requires Valid(s) && ExpValue(s) == Some(x) && !IsZero(s)
    requires Significand(s) == d && NetExp(s, x) == e && |d| >= 1
    requires DigitsAt(s) + FormattedLength(|d|, e) <= |s|
    requires Format(Negative(s), d, e) == out
    ensures Canonical(s) == out
  {
  }

  /** "1000" becomes "1e3": three trailing zeros make the scientific form shorter. */
  lemma {:induction false} Thousand(s: seq<byte>)
    requires s == [ONE, ZERO, ZERO, ZERO]
    ensures Valid(s) && Canonical(s) == [ONE, LOWER_E, THREE]
  {
    ThousandFields(s);
    Rewrites(s, 0, [ONE], 3, [ONE, LOWER_E, THREE]);
  }

  lemma {:induction false} ThousandFields(s: seq<byte>)
    requires s == [ONE, ZERO, ZERO, ZERO]
    ensures Valid(s) && ExpValue(s) == Some(0) && !IsZero(s) && Significand(s) == [ONE]
    ensures NetExp(s, 0) == 3 && DigitsAt(s) == 0 && Negative(s) == false
  {
    ThousandParts(s);
    Evaluated([], [ONE, ZERO, ZERO, ZERO], false, [], [], 0, 0, 0, 3);
  }

  lemma {:induction false} ThousandParts(s: seq<byte>)
    requires s == [ONE, ZERO, ZERO, ZERO]
    ensures s == Lit([], [ONE, ZERO, ZERO, ZERO], false, [], [])
    ensures LeadZeros([ONE, ZERO, ZERO, ZERO]) == 0 && LeadZeros([ONE, ZERO, ZERO, ZERO] + []) == 0 && TrailZeros([ONE, ZERO, ZERO, ZERO] + []) == 3
  {
    assert [ONE, ZERO, ZERO, ZERO] + [] == [ONE, ZERO, ZERO, ZERO];
    assert LeadZeros([ONE, ZERO, ZERO, ZERO]) == 0 && TrailZeros([ONE, ZERO, ZERO, ZERO]) == 3;
  }

  /** "100" stays "100": two trailing zeros are kept. */
  lemma {:induction false} Hundred(s: seq<byte>)
    requires s == [ONE, ZERO, ZERO]
    ensures Valid(s) && Canonical(s) == [ONE, ZERO, ZERO]
  {
    HundredFields(s);
    Rewrites(s, 0, [ONE], 2, [ONE, ZERO, ZERO]);
  }

  lemma {:induction false} HundredFields(s: seq<byte>)
    requires s == [ONE, ZERO, ZERO]
    ensures Valid(s) && ExpValue(s) == Some(0) && !IsZero(s) && Significand(s) == [ONE]
    ensures NetExp(s, 0) == 2 && DigitsAt(s) == 0 && Negative(s) == false
  {
    HundredParts(s);
    Evaluated([], [ONE, ZERO, ZERO], false, [], [], 0, 0, 0, 2);
  }

  lemma {:induction false} HundredParts(s: seq<byte>)
    requires s == [ONE, ZERO, ZERO]
    ensures s == Lit([], [ONE, ZERO, ZERO], false, [], [])
    ensures LeadZeros([ONE, ZERO, ZERO]) == 0 && LeadZeros([ONE, ZERO, ZERO] + []) == 0 && TrailZeros([ONE, ZERO, ZERO] + []) == 2
  {
    assert [ONE, ZERO, ZERO] + [] == [ONE, ZERO, ZERO];
    assert LeadZeros([ONE, ZERO, ZERO]) == 0 && TrailZeros([ONE, ZERO, ZERO]) == 2;
  }

  /** "0.001" becomes ".001": the leading "0" goes. */
  lemma {:induction false} Thousandth(s: seq<byte>)
    requires s == [ZERO, DOT, ZERO, ZERO, ONE]
    ensures Valid(s) && Canonical(s) == [DOT, ZERO, ZERO, ONE]
  {
    ThousandthFields(s);
    Rewrites(s, 0, [ONE], -3, [DOT, ZERO, ZERO, ONE]);
  }

  lemma {:induction false} ThousandthFields(s: seq<byte>)
    requires s == [ZERO, DOT, ZERO, ZERO, ONE]
    ensures Valid(s) && ExpValue(s) == Some(0) && !IsZero(s) && Significand(s) == [ONE]
    ensures NetExp(s, 0) == -3 && DigitsAt(s) == 1 && Negative(s) == false
  {
    ThousandthParts(s);
    Evaluated([], [ZERO], true, [ZERO, ZERO, ONE], [], 0, 1, 3, 0);
  }

  lemma {:induction false} ThousandthParts(s: seq<byte>)
    requires s == [ZERO, DOT, ZERO, ZERO, ONE]
    ensures s == Lit([], [ZERO], true, [ZERO, ZERO, ONE], [])
    ensures LeadZeros([ZERO]) == 1 && LeadZeros([ZERO] + [ZERO, ZERO, ONE]) == 3 && TrailZeros([ZERO] + [ZERO, ZERO, ONE]) == 0
  {
    assert [ZERO] + [ZERO, ZERO, ONE] == [ZERO, ZERO, ZERO, ONE];
    LeadZerosIs([ZERO, ZERO, ZERO, ONE], 3);
    TrailZerosIs([ZERO, ZERO, ZERO, ONE], 0);
  }

  /** "0.0001" becomes "1e-4": from three zeros after the point on, the scientific form is shorter. */
  lemma {:induction false} TenThousandth(s: seq<byte>)
    requires s == [ZERO, DOT, ZERO, ZERO, ZERO, ONE]
    ensures Valid(s) && Canonical(s) == [ONE, LOWER_E, MINUS, FOUR]
  {
    TenThousandthFields(s);
    Rewrites(s, 0, [ONE], -4, [ONE, LOWER_E, MINUS, FOUR]);
  }

  lemma {:induction false} TenThousandthFields(s: seq<byte>)
    requires s == [ZERO, DOT, ZERO, ZERO, ZERO, ONE]
    ensures Valid(s) && ExpValue(s) == Some(0) && !IsZero(s) && Significand(s) == [ONE]
    ensures NetExp(s, 0) == -4 && DigitsAt(s) == 1 && Negative(s) == false
  {
    TenThousandthParts(s);
    Evaluated([], [ZERO], true, [ZERO, ZERO, ZERO, ONE], [], 0, 1, 4, 0);
  }

  lemma {:induction false} TenThousandthParts(s: seq<byte>)
    requires s == [ZERO, DOT, ZERO, ZERO, ZERO, ONE]
    ensures s == Lit([], [ZERO], true, [ZERO, ZERO, ZERO, ONE], [])
    ensures LeadZeros([ZERO]) == 1 && LeadZeros([ZERO] + [ZERO, ZERO, ZERO, ONE]) == 4 && TrailZeros([ZERO] + [ZERO, ZERO, ZERO, ONE]) == 0
  {
    assert [ZERO] + [ZERO, ZERO, ZERO, ONE] == [ZERO, ZERO, ZERO, ZERO, ONE];
    LeadZerosIs([ZERO, ZERO, ZERO, ZERO, ONE], 4);
    TrailZerosIs([ZERO, ZERO, ZERO, ZERO, ONE], 0);
  }

  /** "1e10" stays "1e10": the exponent is read and written back in the same form. */
  lemma {:induction false} TenBillion(s: seq<byte>)
    requires s == [ONE, LOWER_E, ONE, ZERO]
    ensures Valid(s) && Canonical(s) == [ONE, LOWER_E, ONE, ZERO]
  {
    TenWritten();
    TenBillionFields(s);
    Rewrites(s, 10, [ONE], 10, [ONE, LOWER_E, ONE, ZERO]);
  }

  lemma {:induction false} TenBillionFields(s: seq<byte>)
    requires s == [ONE, LOWER_E, ONE, ZERO]
    ensures Valid(s) && ExpValue(s) == Some(10) && !IsZero(s) && Significand(s) == [ONE]
    ensures NetExp(s, 10) == 10 && DigitsAt(s) == 0 && Negative(s) == false
  {
    TenExponent();
    TenBillionParts(s);
    Evaluated([], [ONE], false, [], [LOWER_E, ONE, ZERO], 10, 0, 0, 0);
  }

  lemma {:induction false} TenBillionParts(s: seq<byte>)
    requires s == [ONE, LOWER_E, ONE, ZERO]
    ensures s == Lit([], [ONE], false, [], [LOWER_E, ONE, ZERO])
    ensures LeadZeros([ONE]) == 0 && LeadZeros([ONE] + []) == 0 && TrailZeros([ONE] + []) == 0
  {
    assert [ONE] + [] == [ONE];
    assert LeadZeros([ONE]) == 0 && TrailZeros([ONE]) == 0;
  }

  /** "+1.5" becomes "1.5": the '+' is dropped. */
  lemma {:induction false} PlusOnePointFive(s: seq<byte>)
    requires s == [PLUS, ONE, DOT, FIVE]
    ensures Valid(s) && Canonical(s) == [ONE, DOT, FIVE]
  {
    PlusOnePointFiveFields(s);
    Rewrites(s, 0, [ONE, FIVE], -1, [ONE, DOT, FIVE]);
  }

  lemma {:induction false} PlusOnePointFiveFields(s: seq<byte>)
    requires s == [PLUS, ONE, DOT, FIVE]
    ensures Valid(s) && ExpValue(s) == Some(0) && !IsZero(s) && Significand(s) == [ONE, FIVE]
    ensures NetExp(s, 0) == -1 && DigitsAt(s) == 1 && Negative(s) == false
  {
    PlusOnePointFiveParts(s);
    Evaluated([PLUS], [ONE], true, [FIVE], [], 0, 0, 0, 0);
  }

  lemma {:induction false} PlusOnePointFiveParts(s: seq<byte>)
    requires s == [PLUS, ONE, DOT, FIVE]
    ensures s == Lit([PLUS], [ONE], true, [FIVE], [])
    ensures LeadZeros([ONE]) == 0 && LeadZeros([ONE] + [FIVE]) == 0 && TrailZeros([ONE] + [FIVE]) == 0
  {
    assert [ONE] + [FIVE] == [ONE, FIVE];
    assert LeadZeros([ONE, FIVE]) == 0 && TrailZeros([ONE, FIVE]) == 0;
  }

  /** "0.5" becomes ".5". */
  lemma {:induction false} Half(s: seq<byte>)
    requires s == [ZERO, DOT, FIVE]
    ensures Valid(s) && Canonical(s) == [DOT, FIVE]
  {
    HalfFields(s);
    Rewrites(s, 0, [FIVE], -1, [DOT, FIVE]);
  }

  lemma {:induction false} HalfFields(s: seq<byte>)
    requires s == [ZERO, DOT, FIVE]
    ensures Valid(s) && ExpValue(s) == Some(0) && !IsZero(s) && Significand(s) == [FIVE]
    ensures NetExp(s, 0) == -1 && DigitsAt(s) == 1 && Negative(s) == false
  {
    HalfParts(s);
    Evaluated([], [ZERO], true, [FIVE], [], 0, 1, 1, 0);
  }

  lemma {:induction false} HalfParts(s: seq<byte>)
    requires s == [ZERO, DOT, FIVE]
    ensures s == Lit([], [ZERO], true, [FIVE], [])
    ensures LeadZeros([ZERO]) == 1 && LeadZeros([ZERO] + [FIVE]) == 1 && TrailZeros([ZERO] + [FIVE]) == 0
  {
    assert [ZERO] + [FIVE] == [ZERO, FIVE];
    LeadZerosIs([ZERO, FIVE], 1);
    TrailZerosIs([ZERO, FIVE], 0);
  }

  /** "1.0" becomes "1": a fraction of zeros goes with its point. */
  lemma {:induction false} OnePointZero(s: seq<byte>)
    requires s == [ONE, DOT, ZERO]
    ensures Valid(s) && Canonical(s) == [ONE]
  {
    OnePointZeroFields(s);
    Rewrites(s, 0, [ONE], 0, [ONE]);
  }

  lemma {:induction false} OnePointZeroFields(s: seq<byte>)
    requires s == [ONE, DOT, ZERO]
    ensures Valid(s) && ExpValue(s) == Some(0) && !IsZero(s) && Significand(s) == [ONE]
    ensures NetExp(s, 0) == 0 && DigitsAt(s) == 0 && Negative(s) == false
  {
    OnePointZeroParts(s);
    Evaluated([], [ONE], true, [ZERO], [], 0, 0, 0, 1);
  }

  lemma {:induction false} OnePointZeroParts(s: seq<byte>)
    requires s == [ONE, DOT, ZERO]
    ensures s == Lit([], [ONE], true, [ZERO], [])
    ensures LeadZeros([ONE]) == 0 && LeadZeros([ONE] + [ZERO]) == 0 && TrailZeros([ONE] + [ZERO]) == 1
  {
    assert [ONE] + [ZERO] == [ONE, ZERO];
    assert LeadZeros([ONE, ZERO]) == 0 && TrailZeros([ONE, ZERO]) == 1;
  }

  /** "10.00" becomes "10": the fraction's zeros go, the integer's zero stays. */
  lemma {:induction false} TenPointZeroZero(s: seq<byte>)
    requires s == [ONE, ZERO, DOT, ZERO, ZERO]
    ensures Valid(s) && Canonical(s) == [ONE, ZERO]
  {
    TenPointZeroZeroFields(s);
    Rewrites(s, 0, [ONE], 1, [ONE, ZERO]);
  }

  lemma {:induction false} TenPointZeroZeroFields(s: seq<byte>)
    requires s == [ONE, ZERO, DOT, ZERO, ZERO]
    ensures Valid(s) && ExpValue(s) == Some(0) && !IsZero(s) && Significand(s) == [ONE]
    ensures NetExp(s, 0) == 1 && DigitsAt(s) == 0 && Negative(s) == false
  {
    TenPointZeroZeroParts(s);
    Evaluated([], [ONE, ZERO], true, [ZERO, ZERO], [], 0, 0, 0, 3);
  }

  lemma {:induction false} TenPointZeroZeroParts(s: seq<byte>)
    requires s == [ONE, ZERO, DOT, ZERO, ZERO]
    ensures s == Lit([], [ONE, ZERO], true, [ZERO, ZERO], [])
    ensures LeadZeros([ONE, ZERO]) == 0 && LeadZeros([ONE, ZERO] + [ZERO, ZERO]) == 0 && TrailZeros([ONE, ZERO] + [ZERO, ZERO]) == 3
  {
    assert [ONE, ZERO] + [ZERO, ZERO] == [ONE, ZERO, ZERO, ZERO];
    assert LeadZeros([ONE, ZERO, ZERO, ZERO]) == 0 && TrailZeros([ONE, ZERO, ZERO, ZERO]) == 3;
  }

  /** "e10" reads as exponent 10. */
  lemma {:induction false} TenExponent()
    ensures ExpOf([LOWER_E, ONE, ZERO]) == Some(10)
  {
    assert [LOWER_E, ONE, ZERO][1..] == [ONE, ZERO];
    assert [ONE, ZERO][..1] == [ONE];
    assert [ONE][..0] == [];
    assert SignLen([ONE, ZERO]) == 0 && [ONE, ZERO][0..] == [ONE, ZERO];
    assert Int([ONE]) == 1;
    assert Int([ONE, ZERO]) == 10;
    assert ExpNumber([ONE, ZERO]) == ParseInt([ONE, ZERO]) == Some(10);
  }

  /** Exponent 10 is written "e10". */
  lemma {:induction false} TenWritten()
    ensures FormattedLength(1, 10) == 4 && Format(false, [ONE], 10) == [ONE, LOWER_E, ONE, ZERO]
  {
    assert NumDigits(10) == 2;
    assert Repr(10) == [ONE, ZERO];
  }

  /** "-0.0" becomes "0": zero loses its sign. */
  lemma {:induction false} NegativeZero(s: seq<byte>)
    requires s == [MINUS, ZERO, DOT, ZERO]
    ensures Valid(s) && Canonical(s) == [ZERO]
  {
    assert [ZERO] + [ZERO] == [ZERO, ZERO];
    Evaluated([MINUS], [ZERO], true, [ZERO], [], 0, 1, 2, 2);
    assert Lit([MINUS], [ZERO], true, [ZERO], []) == s;
  }

  /** "+5e" becomes "5e": an exponent that does not parse leaves the literal alone but for the '+'. */
  lemma {:induction false} UnparsedExponent(s: seq<byte>)
    requires s == [PLUS, FIVE, LOWER_E]
    ensures Valid(s) && Canonical(s) == [FIVE, LOWER_E]
  {
    LitFields([PLUS], [FIVE], false, [], [LOWER_E]);
    assert Lit([PLUS], [FIVE], false, [], [LOWER_E]) == s;
    assert ExpText(s) == [];
  }
}
