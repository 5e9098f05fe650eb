/**
 * What the number minifier promises about its result: it is a valid literal
 * of the same value, never longer than the input, signed as the input, and
 * written in the form the exponent calls for.
 */
module NumberProps {
  import opened Bytes
  import opened Decimal
  import opened Literal
  import opened Number

  /** A literal assembled from its parts: sign, integer digits, point, fraction digits, exponent part. */
  function Lit(sg: seq<byte>, ip: seq<byte>, point: bool, fp: seq<byte>, ex: seq<byte>): seq<byte> {
    sg + ip + (if point then [DOT] else []) + fp + ex
  }

  /** After an optional sign, only digits. */
  predicate ExpDigits(xt: seq<byte>) {
    forall k :: SignLen(xt) <= k < |xt| ==> IsDigit(xt[k])
  }

  /** The parts make a lexically valid literal. */
  predicate LitShape(sg: seq<byte>, ip: seq<byte>, point: bool, fp: seq<byte>, ex: seq<byte>) {
    (sg == [] || sg == [MINUS] || sg == [PLUS])
    && AllDigits(ip) && AllDigits(fp) && (point || fp == []) && |ip| + |fp| >= 1
    && (ex == [] || (IsExpMarker(ex[0]) && ExpDigits(ex[1..])))
  }

  /** The scanner finds the parts a literal was assembled from. */
  lemma {:induction false} LitFields(sg: seq<byte>, ip: seq<byte>, point: bool, fp: seq<byte>, ex: seq<byte>)
    requires LitShape(sg, ip, point, fp, ex)
    ensures var t := Lit(sg, ip, point, fp, ex);
      SignLen(t) == |sg| && PlusLen(t) == (if sg == [PLUS] then 1 else 0)
      && Negative(t) == (sg == [MINUS])
      && DotAt(t) == |sg| + |ip| && ExpStart(t) == |t| - |ex|
      && IntDigits(t) == ip && FracDigits(t) == fp
      && ExpText(t) == (if ex == [] then [] else ex[1..])
      && Valid(t)
  {
    var t := Lit(sg, ip, point, fp, ex);
    var a, d, m := |sg|, |sg| + |ip|, |t| - |ex|;
    LitBytes(sg, ip, point, fp, ex);
    LitSign(sg, ip, point, fp, ex);
    FindExpIs(t, a, m);
    FindDotIs(t, a, m, d);
    LitSlices(sg, ip, point, fp, ex);
    assert Mantissa(t) == ip + fp;
  }

  /** Where the parts of an assembled literal sit, and which bytes are digits. */
  lemma {:induction false} LitBytes(sg: seq<byte>, ip: seq<byte>, point: bool, fp: seq<byte>, ex: seq<byte>)
    requires LitShape(sg, ip, point, fp, ex)
    ensures var t, a, d, m := Lit(sg, ip, point, fp, ex), |sg|, |sg| + |ip|, |Lit(sg, ip, point, fp, ex)| - |ex|;
      m == d + (if point then 1 else 0) + |fp|
      && (forall k :: a <= k < d ==> IsDigit(t[k]))
      && (point ==> t[d] == DOT)
      && (forall k :: d < k < m ==> IsDigit(t[k]))
      && (m < |t| ==> t[m] == ex[0])
  {
    var t := Lit(sg, ip, point, fp, ex);
    var a, d := |sg|, |sg| + |ip|;
    var pt: seq<byte> := if point then [DOT] else [];
    assert t == sg + ip + pt + fp + ex;
    forall k | a <= k < d
      ensures IsDigit(t[k])
    {
      assert t[k] == ip[k - a];
    }
    forall k | d < k < |t| - |ex|
      ensures IsDigit(t[k])
    {
      assert t[k] == fp[k - d - |pt|];
    }
  }

  /** An assembled literal starts with its sign, or with a digit or the point. */
  lemma {:induction false} LitSign(sg: seq<byte>, ip: seq<byte>, point: bool, fp: seq<byte>, ex: seq<byte>)
    requires LitShape(sg, ip, point, fp, ex)
    ensures var t := Lit(sg, ip, point, fp, ex);
      SignLen(t) == |sg| && PlusLen(t) == (if sg == [PLUS] then 1 else 0)
      && Negative(t) == (sg == [MINUS])
      && (sg == [] ==> IsDigit(t[0]) || t[0] == DOT)
  {
    var t := Lit(sg, ip, point, fp, ex);
    if sg == [] {
      if ip != [] {
        assert t[0] == ip[0];
      } else {
        assert t[0] == DOT;
      }
    } else {
      assert t[0] == sg[0];
    }
  }

  /** The scanner's slices of an assembled literal are its parts. */
  lemma {:induction false} LitSlices(sg: seq<byte>, ip: seq<byte>, point: bool, fp: seq<byte>, ex: seq<byte>)
    requires LitShape(sg, ip, point, fp, ex)
    ensures var t, a, d, m := Lit(sg, ip, point, fp, ex), |sg|, |sg| + |ip|, |Lit(sg, ip, point, fp, ex)| - |ex|;
      t[a..d] == ip && (point ==> t[d + 1..m] == fp) && t[m..] == ex
  {
    var t := Lit(sg, ip, point, fp, ex);
    var pt: seq<byte> := if point then [DOT] else [];
    assert t == (sg + ip) + (pt + fp + ex);
    assert t[..|sg| + |ip|] == sg + ip;
    assert t == (sg + ip + pt) + fp + ex;
    assert t == (sg + ip + pt + fp) + ex;
  }

  /** The exponent value an exponent part denotes: none is 0; otherwise the text after the marker. */
  function ExpOf(ex: seq<byte>): Option<int> {
    if ex == [] then Some(0) else ExpNumber(ex[1..])
  }

  /** The value of an assembled literal, read off its parts. */
  lemma {:induction false} LitDecode(sg: seq<byte>, ip: seq<byte>, point: bool, fp: seq<byte>, ex: seq<byte>)
    requires LitShape(sg, ip, point, fp, ex)
    ensures Valid(Lit(sg, ip, point, fp, ex))
    ensures Decode(Lit(sg, ip, point, fp, ex)) ==
      if ExpOf(ex).None? then None else Some(Num(sg == [MINUS], Int(ip + fp), ExpOf(ex).value - |fp|))
  {
    var t := Lit(sg, ip, point, fp, ex);
    LitFields(sg, ip, point, fp, ex);
    ExpValueOf(t, ex);
    DecodeOf(t, sg == [MINUS], ip + fp, |fp|);
  }

  /** The scanner's exponent value is that of the exponent part the literal ends with. */
  lemma {:induction false} ExpValueOf(t: seq<byte>, ex: seq<byte>)
    requires |ex| <= |t| && ExpStart(t) == |t| - |ex|
    requires ExpText(t) == if ex == [] then [] else ex[1..]
    ensures ExpValue(t) == ExpOf(ex)
  {
  }

  /** Decode read off the scanner's fields. */
  lemma {:induction false} DecodeOf(t: seq<byte>, neg: bool, mant: seq<byte>, nf: nat)
    requires Valid(t) && Negative(t) == neg && Mantissa(t) == mant && |FracDigits(t)| == nf
    ensures AllDigits(mant)
    ensures Decode(t) == if ExpValue(t).None? then None else Some(Num(neg, Int(mant), ExpValue(t).value - nf))
  {
    MantissaDigits(t);
    DecodeRead(t);
  }

  lemma {:induction false} DecodeRead(t: seq<byte>)
    requires Valid(t) && AllDigits(Mantissa(t))
    ensures Decode(t) == if ExpValue(t).None? then None else Some(Num(Negative(t), Int(Mantissa(t)), ExpValue(t).value - |FracDigits(t)|))
  {
  }

  /** Every valid literal is assembled from its own parts. */
  lemma {:induction false} Parts(s: seq<byte>)
    requires Valid(s)
    ensures LitShape(s[..SignLen(s)], IntDigits(s), DotAt(s) < ExpStart(s), FracDigits(s), s[ExpStart(s)..])
    ensures s == Lit(s[..SignLen(s)], IntDigits(s), DotAt(s) < ExpStart(s), FracDigits(s), s[ExpStart(s)..])
  {
    PartsShape(s);
    PartsJoin(s);
  }

  lemma {:induction false} PartsShape(s: seq<byte>)
    requires Valid(s)
    ensures LitShape(s[..SignLen(s)], IntDigits(s), DotAt(s) < ExpStart(s), FracDigits(s), s[ExpStart(s)..])
  {
    var m := ExpStart(s);
    MantissaDigits(s);
    if m < |s| {
      assert s[m..][1..] == ExpText(s);
    }
  }

  lemma {:induction false} PartsJoin(s: seq<byte>)
    requires Valid(s)
    ensures s == Lit(s[..SignLen(s)], IntDigits(s), DotAt(s) < ExpStart(s), FracDigits(s), s[ExpStart(s)..])
  {
    var a, d, m := SignLen(s), DotAt(s), ExpStart(s);
    var pt: seq<byte> := if d < m then [DOT] else [];
    assert s[..m] == s[..d] + pt + FracDigits(s) by {
      if d < m {
        assert s[..m] == s[..d + 1] + s[d + 1..m];
        assert s[..d + 1] == s[..d] + [DOT];
      }
    }
    assert s[..d] == s[..a] + IntDigits(s);
    assert s == s[..m] + s[m..];
  }

  /** Dropping a leading '+' changes neither validity nor the decoded value. */
  lemma {:induction false} PlusDropped(s: seq<byte>)
    requires Valid(s)
    ensures Valid(s[PlusLen(s)..]) && PlusLen(s[PlusLen(s)..]) == 0
    ensures Negative(s[PlusLen(s)..]) == Negative(s)
    ensures Decode(s[PlusLen(s)..]) == Decode(s)
  {
    if PlusLen(s) == 1 {
      Parts(s);
      assert s[..SignLen(s)] == [PLUS];
      LitUnsigned(IntDigits(s), DotAt(s) < ExpStart(s), FracDigits(s), s[ExpStart(s)..]);
    }
  }

  /** Dropping the '+' of an assembled literal keeps its value. */
  lemma {:induction false} LitUnsigned(ip: seq<byte>, point: bool, fp: seq<byte>, ex: seq<byte>)
    requires LitShape([PLUS], ip, point, fp, ex)
    ensures Lit([PLUS], ip, point, fp, ex)[1..] == Lit([], ip, point, fp, ex)
    ensures Valid(Lit([PLUS], ip, point, fp, ex))
    ensures Valid(Lit([], ip, point, fp, ex)) && PlusLen(Lit([], ip, point, fp, ex)) == 0
    ensures Negative(Lit([], ip, point, fp, ex)) == Negative(Lit([PLUS], ip, point, fp, ex)) == false
    ensures Decode(Lit([], ip, point, fp, ex)) == Decode(Lit([PLUS], ip, point, fp, ex))
  {
    DropSign([PLUS], ip, if point then [DOT] else [], fp, ex);
    LitDecode([PLUS], ip, point, fp, ex);
    LitDecode([], ip, point, fp, ex);
    LitSign([], ip, point, fp, ex);
    LitSign([PLUS], ip, point, fp, ex);
  }

  lemma {:induction false} DropSign<T>(h: seq<T>, ip: seq<T>, pt: seq<T>, fp: seq<T>, ex: seq<T>)
    requires |h| == 1
    ensures (h + ip + pt + fp + ex)[1..] == [] + ip + pt + fp + ex
  {
  }

  function SignPart(neg: bool): seq<byte> { if neg then [MINUS] else [] }

  /** The exponent part of the scientific form: 'e', a '-' for a negative exponent, and |e| in decimal. */
  function SciExp(e: int): seq<byte> {
    [LOWER_E] + SignPart(e < 0) + Repr(Abs(e))
  }

  /** The scientific exponent part parses back to e. */
  lemma {:induction false} SciExpValue(e: int)
    requires e != 0
    ensures IsExpMarker(SciExp(e)[0]) && ExpDigits(SciExp(e)[1..])
    ensures ExpOf(SciExp(e)) == Some(e)
  {
    ReprInt(Abs(e));
    SignedExp(e, Repr(Abs(e)));
  }

  lemma {:induction false} SignedExp(e: int, r: seq<byte>)
    requires e != 0 && |r| >= 1 && AllDigits(r) && Int(r) == Abs(e)
    ensures IsExpMarker(([LOWER_E] + SignPart(e < 0) + r)[0]) && ExpDigits(([LOWER_E] + SignPart(e < 0) + r)[1..])
    ensures ExpOf([LOWER_E] + SignPart(e < 0) + r) == Some(e)
  {
    MarkedValue(SignPart(e < 0), r, Abs(e));
  }

  /** An 'e', an optional '-' and digits of value v make an exponent part of value v or -v. */
  lemma {:induction false} MarkedValue(sg: seq<byte>, r: seq<byte>, v: nat)
    requires sg == [] || sg == [MINUS]
    requires |r| >= 1 && AllDigits(r) && Int(r) == v
    ensures IsExpMarker(([LOWER_E] + sg + r)[0]) && ExpDigits(([LOWER_E] + sg + r)[1..])
    ensures ExpOf([LOWER_E] + sg + r) == Some(if sg == [] then v else 0 - v)
  {
    DropHead([LOWER_E], sg, r);
    SignedDigits(sg, r);
    var x := ([LOWER_E] + sg + r)[1..];
    assert |x| > 0 && x[0] != PLUS;
  }

  /** An optional '-' followed by digits parses to the digits' value, negated after a '-'. */
  lemma {:induction false} SignedDigits(sg: seq<byte>, r: seq<byte>)
    requires sg == [] || sg == [MINUS]
    requires |r| >= 1 && AllDigits(r)
    ensures SignLen(sg + r) == |sg| && ExpDigits(sg + r) && (sg + r)[0] != PLUS
    ensures ParseInt(sg + r) == Some(if sg == [] then Int(r) else 0 - Int(r))
  {
    if sg == [] {
      EmptyPrefix(r);
      UnsignedDigits(r);
    } else {
      NegatedDigits(r);
    }
  }

  lemma {:induction false} UnsignedDigits(r: seq<byte>)
    requires |r| >= 1 && AllDigits(r)
    ensures SignLen(r) == 0 && ExpDigits(r) && r[0] != PLUS && ParseInt(r) == Some(Int(r))
  {
    assert IsDigit(r[0]);
    assert r[0..] == r;
  }

  lemma {:induction false} NegatedDigits(r: seq<byte>)
    requires |r| >= 1 && AllDigits(r)
    ensures SignLen([MINUS] + r) == 1 && ExpDigits([MINUS] + r)
    ensures ParseInt([MINUS] + r) == Some(0 - Int(r))
  {
    var xt := [MINUS] + r;
    Suffix([MINUS], r);
    forall k | 1 <= k < |xt|
      ensures IsDigit(xt[k])
    {
      assert xt[k] == r[k - 1];
    }
  }

  lemma {:induction false} Suffix<T>(a: seq<T>, b: seq<T>)
    ensures (a + b)[|a|..] == b
  {
  }

  lemma {:induction false} DropHead<T>(h: seq<T>, a: seq<T>, b: seq<T>)
    requires |h| == 1
    ensures (h + a + b)[1..] == a + b
  {
  }

  /** What a written form decodes to, with its sign and no '+'. */
  ghost predicate DecodesTo(t: seq<byte>, neg: bool, v: Num) {
    Valid(t) && PlusLen(t) == 0 && Negative(t) == neg && Decode(t) == Some(v)
  }

  /** Net exponent 0: the digits alone. */
  lemma {:induction false} PlainForm(neg: bool, d: seq<byte>)
    requires |d| >= 1 && AllDigits(d)
    ensures DecodesTo(Format(neg, d, 0), neg, Num(neg, Int(d), 0))
  {
    var sg := SignPart(neg);
    AppendEmpty(sg + d);
    AppendEmpty(d);
    LitDecodes(sg, d, false, [], [], neg, Num(neg, Int(d), 0));
  }

  lemma {:induction false} EmptyPrefix<T>(a: seq<T>)
    ensures [] + a == a
  {
  }

  lemma {:induction false} AppendEmpty<T>(a: seq<T>)
    ensures a + [] + [] + [] == a && a + [] == a
  {
  }

  /** The scientific form: the digits, then the exponent part. */
  lemma {:induction false} ScientificForm(neg: bool, d: seq<byte>, e: int)
    requires |d| >= 1 && AllDigits(d) && e != 0 && (e + |d| < -2 || 2 < e)
    ensures DecodesTo(Format(neg, d, e), neg, Num(neg, Int(d), e))
  {
    SciIsLit(neg, d, e);
    SciExpValue(e);
    AppendEmpty(d);
    LitDecodes(SignPart(neg), d, false, [], SciExp(e), neg, Num(neg, Int(d), e));
  }

  lemma {:induction false} SciIsLit(neg: bool, d: seq<byte>, e: int)
    requires |d| >= 1 && e != 0 && (e + |d| < -2 || 2 < e)
    ensures Format(neg, d, e) == Lit(SignPart(neg), d, false, [], SciExp(e))
  {
    SciJoin(SignPart(neg), d, [LOWER_E], SignPart(e < 0), Repr(Abs(e)));
  }

  lemma {:induction false} SciJoin<T>(sg: seq<T>, d: seq<T>, m: seq<T>, n: seq<T>, r: seq<T>)
    ensures sg + (d + m + n + r) == sg + d + [] + [] + (m + n + r)
  {
  }

  /** A negative exponent within the digits: a '.' inserted among them. */
  lemma {:induction false} PointForm(neg: bool, d: seq<byte>, e: int)
    requires |d| >= 1 && AllDigits(d) && e < 0 && e + |d| > 0
    ensures DecodesTo(Format(neg, d, e), neg, Num(neg, Int(d), e))
  {
    var sg, rel := SignPart(neg), e + |d|;
    PointJoin(sg, d, [DOT], rel);
    LitDecodes(sg, d[..rel], true, d[rel..], [], neg, Num(neg, Int(d), e));
  }

  lemma {:induction false} PointJoin<T>(sg: seq<T>, d: seq<T>, p: seq<T>, i: nat)
    requires i <= |d|
    ensures sg + (d[..i] + p + d[i..]) == sg + d[..i] + p + d[i..] + []
    ensures d[..i] + d[i..] == d
  {
  }

  /** A value below one, not too small: '.', up to two '0's, the digits. */
  lemma {:induction false} FractionForm(neg: bool, d: seq<byte>, e: int)
    requires |d| >= 1 && AllDigits(d) && e < 0 && -2 <= e + |d| <= 0
    ensures DecodesTo(Format(neg, d, e), neg, Num(neg, Int(d), e))
  {
    var z := Zeros(-(e + |d|));
    FractionIsLit(neg, d, e);
    IntZerosPrefix(|z|, d);
    EmptyPrefix(z + d);
    LitDecodes(SignPart(neg), [], true, z + d, [], neg, Num(neg, Int(d), e));
  }

  lemma {:induction false} FractionIsLit(neg: bool, d: seq<byte>, e: int)
    requires |d| >= 1 && e < 0 && -2 <= e + |d| <= 0
    ensures Format(neg, d, e) == Lit(SignPart(neg), [], true, Zeros(-(e + |d|)) + d, [])
  {
    FractionJoin(SignPart(neg), [DOT], Zeros(-(e + |d|)), d);
  }

  lemma {:induction false} FractionJoin<T>(sg: seq<T>, p: seq<T>, z: seq<T>, d: seq<T>)
    ensures sg + (p + z + d) == sg + [] + p + (z + d) + []
  {
  }

  /** An exponent of one or two: that many '0's appended. */
  lemma {:induction false} ZerosForm(neg: bool, d: seq<byte>, e: int)
    requires |d| >= 1 && AllDigits(d) && 0 < e <= 2
    ensures DecodesTo(Format(neg, d, e), neg, Num(neg, Shift(Int(d), e), 0))
  {
    var sg := SignPart(neg);
    AppendEmpty(sg + (d + Zeros(e)));
    AppendEmpty(d + Zeros(e));
    IntZerosSuffix(d, e);
    LitDecodes(sg, d + Zeros(e), false, [], [], neg, Num(neg, Shift(Int(d), e), 0));
  }

  /**
   * Every form the minifier writes is a valid literal, with no '+', the given
   * sign, and the value of the digits d with exponent e.
   */
  lemma {:induction false} FormatDecodes(neg: bool, d: seq<byte>, e: int)
    requires |d| >= 1 && AllDigits(d)
    ensures var t := Format(neg, d, e);
      Valid(t) && PlusLen(t) == 0 && Negative(t) == neg
      && Decode(t).Some? && SameValue(Decode(t).value, Num(neg, Int(d), e))
  {
    var rel := e + |d|;
    if e == 0 {
      PlainForm(neg, d);
      SameValueRefl(Num(neg, Int(d), e));
    } else if rel < -2 || 2 < e {
      ScientificForm(neg, d, e);
      SameValueRefl(Num(neg, Int(d), e));
    } else if e < 0 && rel > 0 {
      PointForm(neg, d, e);
      SameValueRefl(Num(neg, Int(d), e));
    } else if e < 0 {
      FractionForm(neg, d, e);
      SameValueRefl(Num(neg, Int(d), e));
    } else {
      ZerosForm(neg, d, e);
      assert SameValue(Num(neg, Shift(Int(d), e), 0), Num(neg, Int(d), e));
    }
  }

  lemma {:induction false} SameValueRefl(v: Num)
    ensures SameValue(v, v)
  {
  }

  /** An assembled literal with no '+' decodes to its parts' value. */
  lemma {:induction false} LitDecodes(sg: seq<byte>, ip: seq<byte>, point: bool, fp: seq<byte>, ex: seq<byte>, neg: bool, v: Num)
    requires LitShape(sg, ip, point, fp, ex) && sg == SignPart(neg) && ExpOf(ex).Some?
    requires v == Num(neg, Int(ip + fp), ExpOf(ex).value - |fp|)
    ensures DecodesTo(Lit(sg, ip, point, fp, ex), neg, v)
  {
    LitSign(sg, ip, point, fp, ex);
    LitDecode(sg, ip, point, fp, ex);
  }

  /** "0" reads back as zero. */
  lemma {:induction false} ZeroDecodes()
    ensures DecodesTo(ZeroBytes, false, Num(false, 0, 0))
  {
    PlainForm(false, [ZERO]);
    EmptyPrefix([ZERO]);
    assert [ZERO][..0] == [];
    assert Int([ZERO]) == 0;
    assert Format(false, [ZERO], 0) == [] + [ZERO];
  }

  /** A literal whose digits are all '0' is worth zero. */
  lemma {:induction false} ZeroValue(s: seq<byte>)
    requires Valid(s) && IsZero(s) && ExpValue(s).Some?
    ensures Decode(s).Some? && Decode(s).value.mantissa == 0
  {
    MantissaDigits(s);
    IntZeroIff(Mantissa(s));
  }

  /** The significand with the net exponent is worth what the literal is. */
  lemma {:induction false} SignificandValue(s: seq<byte>)
    requires Valid(s) && !IsZero(s) && ExpValue(s).Some?
    ensures AllDigits(Significand(s)) && Decode(s).Some?
    ensures SameValue(Num(Negative(s), Int(Significand(s)), NetExp(s, ExpValue(s).value)), Decode(s).value)
  {
    var x := ExpValue(s).value;
    var m, e := Mantissa(s), x - |FracDigits(s)|;
    MantissaDigits(s);
    DecodeOf(s, Negative(s), m, |FracDigits(s)|);
    assert Decode(s).value == Num(Negative(s), Int(m), e);
    assert Significand(s) == Stripped(m) && NetExp(s, x) == e + TrailZeros(m);
    NetValue(Negative(s), m, e);
  }

  /** Stripping a digit string and adding its trailing zeros to the exponent keeps the value. */
  lemma {:induction false} NetValue(neg: bool, m: seq<byte>, e: int)
    requires AllDigits(m) && LeadZeros(m) < |m|
    ensures SameValue(Num(neg, Int(Stripped(m)), e + TrailZeros(m)), Num(neg, Int(m), e))
  {
    StrippedValue(m);
    ShiftedSame(neg, Int(Stripped(m)), e, TrailZeros(m), Int(m));
  }

  /** What the minifier reads off a literal assembled from parts, given the zero counts of its digits. */
  lemma {:induction false} Evaluated(sg: seq<byte>, ip: seq<byte>, point: bool, fp: seq<byte>, ex: seq<byte>,
                                     x: int, lzi: nat, lz: nat, tz: nat)
    requires LitShape(sg, ip, point, fp, ex) && ExpOf(ex) == Some(x)
    requires LeadZeros(ip) == lzi && LeadZeros(ip + fp) == lz && TrailZeros(ip + fp) == tz
    ensures var s := Lit(sg, ip, point, fp, ex);
      Valid(s) && ExpValue(s) == Some(x) && Negative(s) == (sg == [MINUS])
      && (IsZero(s) <==> lz == |ip + fp|)
      && (lz < |ip + fp| ==>
            Significand(s) == (ip + fp)[lz..|ip + fp| - tz]
            && NetExp(s, x) == x - |fp| + tz && DigitsAt(s) == |sg| + lzi)
  {
    var s := Lit(sg, ip, point, fp, ex);
    LitFields(sg, ip, point, fp, ex);
    ExpValueOf(s, ex);
    ReadOff(s, ip, fp, x, lzi, lz, tz);
  }

  /** The zero test, significand, net exponent and first digit, read off the literal's digit parts. */
  lemma {:induction false} ReadOff(s: seq<byte>, ip: seq<byte>, fp: seq<byte>, x: int, lzi: nat, lz: nat, tz: nat)
    requires IntDigits(s) == ip && FracDigits(s) == fp
    requires LeadZeros(ip) == lzi && LeadZeros(ip + fp) == lz && TrailZeros(ip + fp) == tz
    ensures IsZero(s) <==> lz == |ip + fp|
    ensures lz < |ip + fp| ==>
      Significand(s) == (ip + fp)[lz..|ip + fp| - tz]
      && NetExp(s, x) == x - |fp| + tz && DigitsAt(s) == SignLen(s) + lzi
  {
    assert Mantissa(s) == ip + fp;
  }

  /**
   * The minifier's result is a valid literal without '+' that is worth what
   * the input is worth; it is negative exactly when the input is, except that
   * a negative zero loses its '-'. When the exponent does not parse, neither
   * literal has a value.
   */
  lemma {:induction false} CanonicalValue(s: seq<byte>)
    requires Valid(s)
    ensures Valid(Canonical(s)) && PlusLen(Canonical(s)) == 0
    ensures Decode(Canonical(s)).Some? == Decode(s).Some?
    ensures Decode(s).Some? ==> SameValue(Decode(Canonical(s)).value, Decode(s).value)
    ensures Negative(Canonical(s)) == (Negative(s) && !(ExpValue(s).Some? && IsZero(s)))
  {
    match ExpValue(s)
    case None =>
      PlusDropped(s);
    case Some(x) =>
      if IsZero(s) {
        ZeroDecodes();
        ZeroValue(s);
      } else if Fits(s) {
        var d, e := Significand(s), NetExp(s, x);
        SignificandValue(s);
        FormatDecodes(Negative(s), d, e);
        SameValueTransitive(Decode(Format(Negative(s), d, e)).value, Num(Negative(s), Int(d), e), Decode(s).value);
      } else {
        PlusDropped(s);
        SameValueRefl(Decode(s).value);
      }
  }
}
