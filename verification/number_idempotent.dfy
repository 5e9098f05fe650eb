/**
 * Minifying a minified number literal changes nothing: the canonical form of
 * a literal is a fixed point of the rewriting.
 */
module NumberIdempotent {
  import opened Bytes
  import opened Decimal
  import opened Literal
  import opened Number
  import opened NumberProps

  /**
   * Minifying a minified literal changes nothing: a kept literal is kept
   * again, "0" stays "0", and a written form reads back as the same
   * significand and net exponent, which fill it exactly.
   */
  lemma {:induction false} CanonicalIdempotent(s: seq<byte>)
    requires Valid(s)
    ensures Valid(Canonical(s)) && Canonical(Canonical(s)) == Canonical(s)
  {
    match ExpValue(s)
    case None =>
      KeptStaysKept(s);
    case Some(x) =>
      if IsZero(s) {
        ZeroStaysZero();
      } else if Fits(s) {
        assert Canonical(s) == Format(Negative(s), Significand(s), NetExp(s, x));
        SignificandShape(s);
        FormStaysForm(Negative(s), Significand(s), NetExp(s, x));
      } else {
        assert Canonical(s) == s[PlusLen(s)..];
        KeptStaysKept(s);
      }
  }

  /** One or more digits that neither start nor end with '0'. */
  ghost predicate Trimmed(d: seq<byte>) {
    |d| >= 1 && AllDigits(d) && d[0] != ZERO && d[|d| - 1] != ZERO
  }

  /** The significand is one or more digits that neither start nor end with '0'. */
  lemma {:induction false} SignificandShape(s: seq<byte>)
    requires Valid(s) && !IsZero(s)
    ensures Trimmed(Significand(s))
  {
    MantissaDigits(s);
  }

  /** A literal kept because its exponent does not parse, or because its form would not fit, is kept again. */
  lemma {:induction false} KeptStaysKept(s: seq<byte>)
    requires Valid(s)
    requires ExpValue(s).None? || (!IsZero(s) && !Fits(s))
    ensures Valid(s[PlusLen(s)..]) && Canonical(s[PlusLen(s)..]) == s[PlusLen(s)..]
  {
    var t := s[PlusLen(s)..];
    PlusFields(s);
    assert t[PlusLen(t)..] == t;
    match ExpValue(s)
    case None =>
      assert Canonical(t) == t[PlusLen(t)..];
    case Some(x) =>
      SameReading(s, t, x);
      assert Canonical(t) == t[PlusLen(t)..];
  }

  /** Without its '+', a non-zero literal reads the same and fits exactly when it did. */
  lemma {:induction false} SameReading(s: seq<byte>, t: seq<byte>, x: int)
    requires Valid(s) && Valid(t) && ExpValue(s) == ExpValue(t) == Some(x) && !IsZero(s)
    requires |t| + PlusLen(s) == |s| && SignLen(t) + PlusLen(s) == SignLen(s)
    requires IntDigits(t) == IntDigits(s) && FracDigits(t) == FracDigits(s)
    ensures !IsZero(t) && (Fits(t) <==> Fits(s))
  {
    assert Mantissa(t) == Mantissa(s);
    assert !IsZero(t);
    assert Significand(t) == Significand(s) && NetExp(t, x) == NetExp(s, x);
    assert DigitsAt(t) + PlusLen(s) == DigitsAt(s);
  }

  /** Dropping a leading '+' leaves the digit parts and the exponent as they are. */
  lemma {:induction false} PlusFields(s: seq<byte>)
    requires Valid(s)
    ensures var t := s[PlusLen(s)..];
      Valid(t) && PlusLen(t) == 0 && |t| + PlusLen(s) == |s| && SignLen(t) + PlusLen(s) == SignLen(s)
      && IntDigits(t) == IntDigits(s) && FracDigits(t) == FracDigits(s) && ExpValue(t) == ExpValue(s)
  {
    if PlusLen(s) == 0 {
      assert s[0..] == s;
    } else {
      var ip, point, fp, ex := IntDigits(s), DotAt(s) < ExpStart(s), FracDigits(s), s[ExpStart(s)..];
      Parts(s);
      assert s[..SignLen(s)] == [PLUS];
      LitUnsigned(ip, point, fp, ex);
      LitFields([PLUS], ip, point, fp, ex);
      LitFields([], ip, point, fp, ex);
      ExpValueOf(s, ex);
      ExpValueOf(Lit([], ip, point, fp, ex), ex);
    }
  }

  /** "0" is its own minified form. */
  lemma {:induction false} ZeroStaysZero()
    ensures Valid(ZeroBytes) && Canonical(ZeroBytes) == ZeroBytes
  {
    assert ZeroBytes == Lit([], [ZERO], false, [], []);
    assert [ZERO] + [] == [ZERO];
    Evaluated([], [ZERO], false, [], [], 0, 1, 1, 1);
  }

  /** A written form is its own minified form: it reads back as its digits and exponent, and fits exactly. */
  lemma {:induction false} FormStaysForm(neg: bool, d: seq<byte>, e: int)
    requires Trimmed(d)
    ensures Valid(Format(neg, d, e)) && Canonical(Format(neg, d, e)) == Format(neg, d, e)
  {
    var t := Format(neg, d, e);
    FormFields(neg, d, e);
    assert |t| == |SignPart(neg)| + FormattedLength(|d|, e);
  }

  /** What the scanner reads off a written form: its sign, its digits and its exponent. */
  lemma {:induction false} FormFields(neg: bool, d: seq<byte>, e: int)
    requires Trimmed(d)
    ensures var t := Format(neg, d, e);
      Valid(t) && ExpValue(t).Some? && !IsZero(t) && Negative(t) == neg
      && Significand(t) == d && NetExp(t, ExpValue(t).value) == e && DigitsAt(t) == |SignPart(neg)|
  {
    var rel := e + |d|;
    if e == 0 {
      PlainFields(neg, d);
    } else if rel < -2 || 2 < e {
      SciFields(neg, d, e);
    } else if e < 0 && rel > 0 {
      PointFields(neg, d, e);
    } else if e < 0 {
      FractionFields(neg, d, e);
    } else {
      ZerosFields(neg, d, e);
    }
  }

  /** What the scanner reads off a literal in one of the forms, given its parts. */
  ghost predicate ReadsBack(t: seq<byte>, neg: bool, d: seq<byte>, e: int) {
    Valid(t) && ExpValue(t).Some? && !IsZero(t) && Negative(t) == neg
    && Significand(t) == d && NetExp(t, ExpValue(t).value) == e && DigitsAt(t) == |SignPart(neg)|
  }

  /** Dropping `lz` leading and `tz` trailing '0's from the digits `m` leaves `d`. */
  ghost predicate Strips(m: seq<byte>, lz: nat, tz: nat, d: seq<byte>) {
    LeadZeros(m) == lz < |m| && TrailZeros(m) == tz && m[lz..|m| - tz] == d
  }

  /** Digits with no leading and no trailing '0' strip to themselves. */
  lemma {:induction false} Unstripped(d: seq<byte>)
    requires Trimmed(d)
    ensures Strips(d, 0, 0, d)
  {
    LeadZerosIs(d, 0);
    TrailZerosIs(d, 0);
    assert d[0..|d| - 0] == d;
  }

  /** An assembled literal with no '+' and no leading '0' before its point reads back as its significand and net exponent. */
  lemma {:induction false} LitReadsBack(neg: bool, ip: seq<byte>, point: bool, fp: seq<byte>, ex: seq<byte>,
                                        x: int, m: seq<byte>, lz: nat, tz: nat, d: seq<byte>, e: int)
    requires LitShape(SignPart(neg), ip, point, fp, ex) && ExpOf(ex) == Some(x)
    requires m == ip + fp && LeadZeros(ip) == 0
    requires Strips(m, lz, tz, d) && x - |fp| + tz == e
    ensures ReadsBack(Lit(SignPart(neg), ip, point, fp, ex), neg, d, e)
  {
    var t := Lit(SignPart(neg), ip, point, fp, ex);
    assert LeadZeros(ip + fp) == lz < |ip + fp| && TrailZeros(ip + fp) == tz && (ip + fp)[lz..|ip + fp| - tz] == d;
    Evaluated(SignPart(neg), ip, point, fp, ex, x, 0, lz, tz);
    assert (SignPart(neg) == [MINUS]) == neg;
  }

  lemma {:induction false} PlainFields(neg: bool, d: seq<byte>)
    requires Trimmed(d)
    ensures ReadsBack(Format(neg, d, 0), neg, d, 0)
  {
    Unstripped(d);
    AppendEmpty(SignPart(neg) + d);
    AppendEmpty(d);
    LitReadsBack(neg, d, false, [], [], 0, d, 0, 0, d, 0);
  }

  lemma {:induction false} SciFields(neg: bool, d: seq<byte>, e: int)
    requires Trimmed(d)
    requires e != 0 && (e + |d| < -2 || 2 < e)
    ensures ReadsBack(Format(neg, d, e), neg, d, e)
  {
    Unstripped(d);
    SciIsLit(neg, d, e);
    SciExpValue(e);
    AppendEmpty(d);
    LitReadsBack(neg, d, false, [], SciExp(e), e, d, 0, 0, d, e);
  }

  lemma {:induction false} PointFields(neg: bool, d: seq<byte>, e: int)
    requires Trimmed(d)
    requires e < 0 && e + |d| > 0
    ensures ReadsBack(Format(neg, d, e), neg, d, e)
  {
    var rel := e + |d|;
    Unstripped(d);
    PointJoin(SignPart(neg), d, [DOT], rel);
    LeadZerosIs(d[..rel], 0);
    LitReadsBack(neg, d[..rel], true, d[rel..], [], 0, d, 0, 0, d, e);
  }

  lemma {:induction false} FractionFields(neg: bool, d: seq<byte>, e: int)
    requires Trimmed(d)
    requires e < 0 && -2 <= e + |d| <= 0
    ensures ReadsBack(Format(neg, d, e), neg, d, e)
  {
    FractionIsLit(neg, d, e);
    FractionLit(neg, d, e, Zeros(-(e + |d|)) + d);
  }

  lemma {:induction false} FractionLit(neg: bool, d: seq<byte>, e: int, z: seq<byte>)
    requires Trimmed(d)
    requires -2 <= e + |d| <= 0 && z == Zeros(-(e + |d|)) + d
    ensures ReadsBack(Lit(SignPart(neg), [], true, z, []), neg, d, e)
  {
    var k := -(e + |d|);
    FractionDigits(d, k, z);
    FractionShape(neg, z);
    LitReadsBack(neg, [], true, z, [], 0, z, k, 0, d, e);
  }

  /** A point and digits, with no integer digits and no exponent, make a well-shaped literal. */
  lemma {:induction false} FractionShape(neg: bool, z: seq<byte>)
    requires AllDigits(z) && |z| >= 1
    ensures LitShape(SignPart(neg), [], true, z, []) && ExpOf([]) == Some(0)
    ensures z == [] + z && LeadZeros([]) == 0
  {
    EmptyPrefix(z);
    LeadZerosIs([], 0);
  }

  lemma {:induction false} ZerosFields(neg: bool, d: seq<byte>, e: int)
    requires Trimmed(d)
    requires 0 < e <= 2
    ensures ReadsBack(Format(neg, d, e), neg, d, e)
  {
    AppendEmpty(SignPart(neg) + (d + Zeros(e)));
    AppendEmpty(d + Zeros(e));
    ZerosDigits(d, e);
    LitReadsBack(neg, d + Zeros(e), false, [], [], 0, d + Zeros(e), 0, e, d, e);
  }

  /** '0's put before the digits are leading zeros, and the digits follow them. */
  lemma {:induction false} FractionDigits(d: seq<byte>, k: nat, z: seq<byte>)
    requires Trimmed(d) && z == Zeros(k) + d
    ensures |z| == k + |d| && AllDigits(z) && |z| >= 1 && Strips(z, k, 0, d)
  {
    LeadZerosIs(d, 0);
    TrailZerosIs(d, 0);
    IntZerosPrefix(k, d);
    LeadZerosIs(Zeros(k), k);
    LeadZerosAppend(Zeros(k), d);
    TrailZerosAppend(Zeros(k), d);
    Suffix(Zeros(k), d);
  }

  /** '0's appended to the digits are trailing zeros, and the digits precede them. */
  lemma {:induction false} ZerosDigits(d: seq<byte>, k: nat)
    requires Trimmed(d)
    ensures AllDigits(d + Zeros(k)) && LeadZeros(d + Zeros(k)) == 0 && Strips(d + Zeros(k), 0, k, d)
  {
    LeadZerosIs(d, 0);
    TrailZerosIs(d, 0);
    LeadZerosAppend(d, Zeros(k));
    TrailZerosAppend(d, Zeros(k));
    TrailZerosIs(Zeros(k), k);
    assert forall i :: 0 <= i < |d + Zeros(k)| ==> IsDigit((d + Zeros(k))[i]);
  }
}
