/**
 * Room in the buffer. The minifier writes its result over the literal's own
 * bytes, from the first significant digit on. Every form but the scientific
 * form with a negative exponent is never longer than the bytes it replaces;
 * that one form can be, and the unchecked writes then run past the end.
 */
module NumberFits {
  import opened Bytes
  import opened Decimal
  import opened Literal
  import opened Number
  import opened NumberProps

  /** Bytes taken by the exponent part, marker included (0 when there is none). */
  function ExpLen(s: seq<byte>): nat {
    |s| - ExpStart(s)
  }

  /** A parsed integer needs at least one byte per decimal digit of its magnitude, after its sign. */
  lemma {:induction false} ParsedLength(y: seq<byte>)
    requires ParseInt(y).Some?
    ensures |y| >= SignLen(y) + NumDigits(Abs(ParseInt(y).value))
    ensures ParseInt(y).value < 0 ==> SignLen(y) == 1
  {
    NumDigitsOfInt(y[SignLen(y)..]);
  }

  /** No exponent part means exponent 0; otherwise the part holds the marker, a '-' when negative, and the digits. */
  lemma {:induction false} ExponentLength(s: seq<byte>)
    requires Valid(s) && ExpValue(s).Some?
    ensures ExpLen(s) == 0 ==> ExpValue(s).value == 0
    ensures ExpLen(s) > 0 ==>
      ExpLen(s) >= 1 + (if ExpValue(s).value < 0 then 1 else 0) + NumDigits(Abs(ExpValue(s).value))
  {
    if ExpStart(s) < |s| {
      var t := ExpText(s);
      var y := if |t| > 0 && t[0] == PLUS then t[1..] else t;
      ParsedLength(y);
    }
  }

  /**
   * The bytes from the first significant digit on: the integer digits after
   * its leading zeros, the point, the fraction and the exponent part. The
   * significand is no longer than those digits minus the trailing zeros.
   */
  lemma {:induction false} Room(s: seq<byte>)
    requires Valid(s) && !IsZero(s)
    ensures |s| - DigitsAt(s) == |IntDigits(s)| - LeadZeros(IntDigits(s))
      + (if DotAt(s) < ExpStart(s) then 1 else 0) + |FracDigits(s)| + ExpLen(s)
    ensures DotAt(s) == ExpStart(s) ==> FracDigits(s) == []
    ensures |Significand(s)| + TrailZeros(Mantissa(s)) + LeadZeros(IntDigits(s)) <= |IntDigits(s)| + |FracDigits(s)|
  {
    LeadZerosAppend(IntDigits(s), FracDigits(s));
  }

  /** Every form except the scientific form with a negative exponent fits where the literal was. */
  lemma {:induction false} FitsUnlessNegativeScientific(s: seq<byte>)
    requires Valid(s) && !IsZero(s) && ExpValue(s).Some?
    requires var e := NetExp(s, ExpValue(s).value); !(e < 0 && e + |Significand(s)| < -2)
    ensures Fits(s)
  {
    var x := ExpValue(s).value;
    var I, F := IntDigits(s), FracDigits(s);
    var pt := if DotAt(s) < ExpStart(s) then 1 else 0;
    FitFacts(s);
    FitCount(x, |Significand(s)|, TrailZeros(Mantissa(s)), LeadZeros(I), |I|, |F|, pt, ExpLen(s));
  }

  /** The counts FitCount works on, read off the literal. */
  lemma {:induction false} FitFacts(s: seq<byte>)
    requires Valid(s) && !IsZero(s) && ExpValue(s).Some?
    ensures var x, I, F := ExpValue(s).value, IntDigits(s), FracDigits(s);
      var n, pt, xl := |Significand(s)|, (if DotAt(s) < ExpStart(s) then 1 else 0), ExpLen(s);
      n >= 1 && LeadZeros(I) <= |I| && n + TrailZeros(Mantissa(s)) + LeadZeros(I) <= |I| + |F|
      && (pt == 0 ==> |F| == 0)
      && (xl == 0 ==> x == 0)
      && (xl > 0 ==> xl >= 1 + (if x < 0 then 1 else 0) + NumDigits(Abs(x)))
      && |s| - DigitsAt(s) == |I| - LeadZeros(I) + pt + |F| + xl
  {
    Room(s);
    ExponentLength(s);
  }

  /**
   * The counting behind FitsUnlessNegativeScientific: n significant digits
   * with tz trailing zeros folded into exponent x, from ni integer digits
   * (lz of them leading zeros), a point (pt), nf fraction digits and an
   * exponent part of xl bytes.
   */
  lemma {:induction false} FitCount(x: int, n: nat, tz: nat, lz: nat, ni: nat, nf: nat, pt: nat, xl: nat)
    requires n >= 1 && lz <= ni && n + tz + lz <= ni + nf
    requires pt <= 1 && (pt == 0 ==> nf == 0)
    requires xl == 0 ==> x == 0
    requires xl > 0 ==> xl >= 1 + (if x < 0 then 1 else 0) + NumDigits(Abs(x))
    requires var e := x - nf + tz; !(e < 0 && e + n < -2)
    ensures FormattedLength(n, x - nf + tz) <= ni - lz + pt + nf + xl
  {
    var e := x - nf + tz;
    if 2 < e {
      if 0 < x {
        NumDigitsMonotone(e, x + tz);
        NumDigitsAdd(x, tz);
      } else {
        NumDigitsMonotone(e, tz);
        NumDigitsBelow(tz);
      }
    }
  }

  /** The result is never longer than the literal, less a dropped '+'. */
  lemma {:induction false} CanonicalLength(s: seq<byte>)
    requires Valid(s)
    ensures |Canonical(s)| <= |s| - PlusLen(s)
  {
    match ExpValue(s)
    case None =>
    case Some(x) =>
      if IsZero(s) {
        assert |Mantissa(s)| <= |s| - SignLen(s);
      } else if Fits(s) {
        assert Negative(s) ==> SignLen(s) == 1 && PlusLen(s) == 0;
        assert |Format(Negative(s), Significand(s), NetExp(s, x))| == (if Negative(s) then 1 else 0)
          + FormattedLength(|Significand(s)|, NetExp(s, x));
      }
  }

  /** The end of what the code as written fills: the first significant digit's place plus the form's length. */
  function WrittenEnd(s: seq<byte>): nat
    requires Valid(s) && !IsZero(s) && ExpValue(s).Some?
  {
    DigitsAt(s) + FormattedLength(|Significand(s)|, NetExp(s, ExpValue(s).value))
  }

  /** `k` copies of '9'. */
  function Nines(k: nat): (t: seq<byte>)
    ensures |t| == k && AllDigits(t)
    ensures forall i :: 0 <= i < k ==> t[i] == NINE
  {
    if k == 0 then [] else Nines(k - 1) + [NINE]
  }

  /** "9." followed by k nines and "e-9". */
  function Overrun(k: nat): seq<byte> {
    Lit([], [NINE], true, Nines(k), [LOWER_E, MINUS, NINE])
  }

  /** A number of at least 100 has at least three digits. */
  lemma {:induction false} ThreeDigits(x: nat)
    requires x >= 100
    ensures NumDigits(x) >= 3
  {
    assert NumDigits(x) == 1 + NumDigits(x / 10);
    assert NumDigits(x / 10) == 1 + NumDigits(x / 100);
  }

  /**
   * From 91 nines after the point on, the scientific form of such a literal
   * (k + 1 digits, 'e', '-', and the digits of 9 + k) is one byte longer
   * than the literal, so the code as written writes past the buffer.
   */
  lemma {:induction false} OverrunWritesPastEnd(k: nat)
    requires k >= 91
    ensures Valid(Overrun(k)) && !IsZero(Overrun(k)) && ExpValue(Overrun(k)) == Some(-9)
    ensures |Overrun(k)| == k + 5
    ensures NetExp(Overrun(k), -9) == -9 - k && |Significand(Overrun(k))| == k + 1
    ensures WrittenEnd(Overrun(k)) > |Overrun(k)|
    ensures !Fits(Overrun(k)) && Canonical(Overrun(k)) == Overrun(k)
  {
    var s := Overrun(k);
    OverrunFields(k);
    ThreeDigits(9 + k);
  }

  lemma {:induction false} OverrunFields(k: nat)
    ensures Valid(Overrun(k)) && ExpValue(Overrun(k)) == Some(-9)
    ensures |Overrun(k)| == k + 5 && PlusLen(Overrun(k)) == 0 && DigitsAt(Overrun(k)) == 0
    ensures !IsZero(Overrun(k)) && NetExp(Overrun(k), -9) == -9 - k
    ensures |Significand(Overrun(k))| == k + 1
  {
    var s := Overrun(k);
    var m := [NINE] + Nines(k);
    LitFields([], [NINE], true, Nines(k), [LOWER_E, MINUS, NINE]);
    ExpValueOf(s, [LOWER_E, MINUS, NINE]);
    assert [LOWER_E, MINUS, NINE][1..] == [MINUS, NINE];
    assert [MINUS, NINE][1..] == [NINE];
    assert Int([NINE]) == 9 by {
      assert [NINE][..0] == [];
    }
    LeadZerosIs([NINE], 0);
    assert Mantissa(s) == m;
    LeadZerosIs(m, 0);
    TrailZerosIs(m, 0);
  }
}
