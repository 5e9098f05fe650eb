/**
 * Decimal number literals as the lexer hands them over: an optional sign,
 * digits with at most one '.', and an optional exponent 'e'/'E' followed by an
 * optional sign and digits. Indices are absolute positions in the literal.
 */
module Literal {
  import opened Bytes
  import opened Decimal

  datatype Option<T> = None | Some(value: T)

  predicate IsExpMarker(c: byte) { c == LOWER_E || c == UPPER_E }

  /** 1 when the literal starts with a sign, 0 otherwise. */
  function SignLen(s: seq<byte>): (n: nat)
    ensures n <= |s|
  {
    if |s| > 0 && (s[0] == PLUS || s[0] == MINUS) then 1 else 0
  }

  /** 1 when the literal starts with '+', which the minifier drops. */
  function PlusLen(s: seq<byte>): (n: nat)
    ensures n <= SignLen(s)
  {
    if |s| > 0 && s[0] == PLUS then 1 else 0
  }

  predicate Negative(s: seq<byte>) { |s| > 0 && s[0] == MINUS }

  /** The first exponent marker at or after `i`, or |s| when there is none. */
  function FindExp(s: seq<byte>, i: nat): (m: nat)
    requires i <= |s|
    ensures i <= m <= |s|
    decreases |s| - i
  {
    if i == |s| || IsExpMarker(s[i]) then i else FindExp(s, i + 1)
  }

  lemma {:induction false} FindExpStops(s: seq<byte>, i: nat)
    requires i <= |s|
    ensures forall k :: i <= k < FindExp(s, i) ==> !IsExpMarker(s[k])
    ensures FindExp(s, i) < |s| ==> IsExpMarker(s[FindExp(s, i)])
    decreases |s| - i
  {
    if i < |s| && !IsExpMarker(s[i]) {
      FindExpStops(s, i + 1);
    }
  }

  /** The first '.' in s[i..m], or m when there is none. */
  function FindDot(s: seq<byte>, i: nat, m: nat): (d: nat)
    requires i <= m <= |s|
    ensures i <= d <= m
    decreases m - i
  {
    if i == m || s[i] == DOT then i else FindDot(s, i + 1, m)
  }

  lemma {:induction false} FindDotStops(s: seq<byte>, i: nat, m: nat)
    requires i <= m <= |s|
    ensures forall k :: i <= k < FindDot(s, i, m) ==> s[k] != DOT
    ensures FindDot(s, i, m) < m ==> s[FindDot(s, i, m)] == DOT
    decreases m - i
  {
    if i < m && s[i] != DOT {
      FindDotStops(s, i + 1, m);
    }
  }

  lemma {:induction false} FindExpIs(s: seq<byte>, i: nat, j: nat)
    requires i <= j <= |s|
    requires forall k :: i <= k < j ==> !IsExpMarker(s[k])
    requires j < |s| ==> IsExpMarker(s[j])
    ensures FindExp(s, i) == j
    decreases j - i
  {
    if i < j {
      FindExpIs(s, i + 1, j);
    }
  }

  lemma {:induction false} FindDotIs(s: seq<byte>, i: nat, m: nat, j: nat)
    requires i <= j <= m <= |s|
    requires forall k :: i <= k < j ==> s[k] != DOT
    requires j < m ==> s[j] == DOT
    ensures FindDot(s, i, m) == j
    decreases j - i
  {
    if i < j {
      FindDotIs(s, i + 1, m, j);
    }
  }

  /** Position of the exponent marker, or |s|: where the mantissa ends. */
  function ExpStart(s: seq<byte>): (m: nat)
    ensures SignLen(s) <= m <= |s|
    ensures forall k :: SignLen(s) <= k < m ==> !IsExpMarker(s[k])
    ensures m < |s| ==> IsExpMarker(s[m])
  {
    FindExpStops(s, SignLen(s));
    FindExp(s, SignLen(s))
  }

  /** Position of the decimal point, or ExpStart(s) when there is none. */
  function DotAt(s: seq<byte>): (d: nat)
    ensures SignLen(s) <= d <= ExpStart(s)
    ensures forall k :: SignLen(s) <= k < d ==> s[k] != DOT
    ensures d < ExpStart(s) ==> s[d] == DOT
  {
    FindDotStops(s, SignLen(s), ExpStart(s));
    FindDot(s, SignLen(s), ExpStart(s))
  }

  function IntDigits(s: seq<byte>): seq<byte> {
    s[SignLen(s)..DotAt(s)]
  }

  function FracDigits(s: seq<byte>): seq<byte> {
    if DotAt(s) < ExpStart(s) then s[DotAt(s) + 1..ExpStart(s)] else []
  }

  /** The text after the exponent marker. */
  function ExpText(s: seq<byte>): seq<byte> {
    if ExpStart(s) < |s| then s[ExpStart(s) + 1..] else []
  }

  /** All mantissa digits, integer part then fraction. */
  function Mantissa(s: seq<byte>): seq<byte> {
    IntDigits(s) + FracDigits(s)
  }

  /**
   * Lexical validity: sign, digits with at most one '.', at least one digit,
   * and after an exponent marker an optional sign and (possibly no) digits.
   */
  predicate Valid(s: seq<byte>) {
    (forall k :: SignLen(s) <= k < ExpStart(s) && k != DotAt(s) ==> IsDigit(s[k]))
    && |Mantissa(s)| >= 1
    && (forall k :: SignLen(ExpText(s)) <= k < |ExpText(s)| ==> IsDigit(ExpText(s)[k]))
  }

  lemma {:induction false} MantissaDigits(s: seq<byte>)
    requires Valid(s)
    ensures AllDigits(IntDigits(s)) && AllDigits(FracDigits(s)) && AllDigits(Mantissa(s))
  {
    var a, d, m := SignLen(s), DotAt(s), ExpStart(s);
    assert forall k :: 0 <= k < |IntDigits(s)| ==> IntDigits(s)[k] == s[a + k];
    assert forall k :: 0 <= k < |FracDigits(s)| ==> FracDigits(s)[k] == s[d + 1 + k];
  }

  /**
   * The signed decimal integer parser the minifier relies on: an optional
   * sign and one or more digits; anything else fails.
   */
  function ParseInt(x: seq<byte>): (r: Option<int>)
    ensures r.Some? ==> |x| > SignLen(x)
  {
    var digits := x[SignLen(x)..];
    if |digits| == 0 || !AllDigits(digits) then None
    else if x[0] == MINUS then Some(0 - Int(digits))
    else Some(Int(digits))
  }

  /** The exponent text after the marker: one '+' is skipped before parsing. */
  function ExpNumber(x: seq<byte>): Option<int> {
    ParseInt(if |x| > 0 && x[0] == PLUS then x[1..] else x)
  }

  /** The exponent of a literal; no marker means 0. */
  function ExpValue(s: seq<byte>): Option<int> {
    if ExpStart(s) == |s| then Some(0) else ExpNumber(ExpText(s))
  }

  /** A value sign * mantissa * 10^exponent. */
  datatype Num = Num(negative: bool, mantissa: nat, exponent: int)

  /** The value a valid literal denotes, or None when its exponent does not parse. */
  function Decode(s: seq<byte>): Option<Num>
    requires Valid(s)
  {
    MantissaDigits(s);
    match ExpValue(s)
    case None => None
    case Some(x) => Some(Num(Negative(s), Int(Mantissa(s)), x - |FracDigits(s)|))
  }

  function Scaled(n: Num, e: int): nat
    requires e <= n.exponent
  {
    Shift(n.mantissa, n.exponent - e)
  }

  /** Two values are equal: both zero (whatever their signs), or same sign and equal once brought to a common exponent. */
  predicate SameValue(x: Num, y: Num) {
    (x.mantissa == 0 && y.mantissa == 0) ||
    (x.negative == y.negative &&
     Scaled(x, Min(x.exponent, y.exponent)) == Scaled(y, Min(x.exponent, y.exponent)))
  }

  /** Lowering the common exponent scales by the difference. */
  lemma {:induction false} ScaledLower(n: Num, e: int, f: int)
    requires f <= e <= n.exponent
    ensures Scaled(n, f) == Shift(Scaled(n, e), e - f)
  {
    ShiftAdd(n.mantissa, n.exponent - e, e - f);
  }

  /** SameValue is transitive; with its symmetric definition it is an equivalence on values. */
  lemma {:induction false} SameValueTransitive(x: Num, y: Num, z: Num)
    requires SameValue(x, y) && SameValue(y, z)
    ensures SameValue(x, z)
  {
    var mxy, myz, mxz := Min(x.exponent, y.exponent), Min(y.exponent, z.exponent), Min(x.exponent, z.exponent);
    var m := Min(mxy, z.exponent);
    if x.mantissa == 0 && y.mantissa == 0 {
      if z.mantissa != 0 {
        ShiftInjective(y.mantissa, 0, y.exponent - myz);
        ShiftInjective(z.mantissa, 0, z.exponent - myz);
      }
    } else if y.mantissa == 0 && z.mantissa == 0 {
      ShiftInjective(x.mantissa, 0, x.exponent - mxy);
      ShiftInjective(y.mantissa, 0, y.exponent - mxy);
    } else {
      ScaledLower(x, mxy, m);
      ScaledLower(y, mxy, m);
      ScaledLower(y, myz, m);
      ScaledLower(z, myz, m);
      assert Scaled(x, m) == Scaled(z, m);
      ScaledLower(x, mxz, m);
      ScaledLower(z, mxz, m);
      ShiftInjective(Scaled(x, mxz), Scaled(z, mxz), mxz - m);
    }
  }

  /** Moving k trailing zeros from the mantissa into the exponent keeps the value. */
  lemma {:induction false} ShiftedSame(neg: bool, v: nat, e: int, k: nat, w: nat)
    requires w == Shift(v, k)
    ensures SameValue(Num(neg, v, e + k), Num(neg, w, e))
  {
  }
}
