/**
 * The number minifier: rewrites a decimal literal, in the caller's buffer,
 * into the shortest literal of the same value.
 */
module Number {
  import opened Bytes
  import opened Decimal
  import opened Literal

  /** The literal returned for every zero value. */
  const ZeroBytes: seq<byte> := [ZERO]

  function Abs(e: int): nat { if e < 0 then -e else e }

  /** Length of `FormatDigits(d, e)` for a significand of `n` digits. */
  function FormattedLength(n: nat, e: int): nat {
    var rel := e + n;
    if e == 0 then n
    else if rel < -2 || 2 < e then n + 1 + (if e < 0 then 1 else 0) + NumDigits(Abs(e))
    else if e < 0 then (if rel > 0 then n + 1 else 1 - e)
    else n + e
  }

  /**
   * The significant digits `d` with exponent `e`, written in the form the
   * minifier picks: scientific when e + |d| < -2 or e > 2, otherwise the
   * digits alone, with a '.' inserted, or with one or two '0's appended.
   */
  function FormatDigits(d: seq<byte>, e: int): (r: seq<byte>)
    requires |d| >= 1
    ensures |r| == FormattedLength(|d|, e) && |d| <= |r|
  {
    var rel := e + |d|;
    if e == 0 then d
    else if rel < -2 || 2 < e then
      d + [LOWER_E] + (if e < 0 then [MINUS] else []) + Repr(Abs(e))
    else if e < 0 then
      if rel > 0 then d[..rel] + [DOT] + d[rel..]
      else [DOT] + Zeros(-rel) + d
    else d + Zeros(e)
  }

  function Format(neg: bool, d: seq<byte>, e: int): seq<byte>
    requires |d| >= 1
  {
    (if neg then [MINUS] else []) + FormatDigits(d, e)
  }

  /** Every mantissa digit is '0'. */
  predicate IsZero(s: seq<byte>) {
    LeadZeros(Mantissa(s)) == |Mantissa(s)|
  }

  /** The mantissa digits without their leading and trailing zeros. */
  function Significand(s: seq<byte>): seq<byte>
    requires !IsZero(s)
  {
    Stripped(Mantissa(s))
  }

  /** The exponent of the significand once the point and trailing zeros are folded into it. */
  function NetExp(s: seq<byte>, x: int): int {
    x - |FracDigits(s)| + TrailZeros(Mantissa(s))
  }

  /** Where the first significant digit sits (the point's place when the integer part is all zeros). */
  function DigitsAt(s: seq<byte>): nat {
    SignLen(s) + LeadZeros(IntDigits(s))
  }

  /** Where the mantissa window ends once the fraction's trailing zeros (and a bare point) are trimmed. */
  function TrimmedEnd(s: seq<byte>): (t: nat)
    ensures DotAt(s) <= t <= ExpStart(s)
  {
    var f := FracDigits(s);
    if TrailZeros(f) < |f| then DotAt(s) + 1 + |f| - TrailZeros(f) else DotAt(s)
  }

  /** The rewritten literal fits in the buffer from `DigitsAt(s)` on. */
  predicate Fits(s: seq<byte>)
    requires Valid(s) && !IsZero(s) && ExpValue(s).Some?
  {
    DigitsAt(s) + FormattedLength(|Significand(s)|, NetExp(s, ExpValue(s).value)) <= |s|
  }

  /**
   * What the minifier returns for a valid literal: the literal minus a '+'
   * when its exponent does not parse, "0" for zero, and otherwise the
   * significand in the chosen form with the '-' kept. When that form would not
   * fit in the buffer the literal is returned as when the exponent fails.
   */
  function Canonical(s: seq<byte>): (r: seq<byte>)
    requires Valid(s)
    ensures |r| >= 1
  {
    match ExpValue(s)
    case None => s[PlusLen(s)..]
    case Some(x) =>
      if IsZero(s) then ZeroBytes
      else if Fits(s) then Format(Negative(s), Significand(s), NetExp(s, x))
      else s[PlusLen(s)..]
  }

  /** Go's int64 exponent arithmetic does not overflow. */
  predicate ExpInRange(s: seq<byte>) {
    ExpValue(s).Some? ==> Abs(ExpValue(s).value) + |s| < 0x8000_0000_0000_0000
  }

  /**
   * What the scan, trim and fold decide before any byte moves: keep the
   * literal from `base` on, answer "0", or write the significand
   * num[start..newEnd] (after the shift of Kept) with exponent `e`.
   */
  datatype Plan =
    | Keep(base: nat)
    | Zero
    | Place(neg: bool, start: nat, dot: nat, from: nat, end: nat, newEnd: nat, e: int)

  /** How the positions of a Place plan relate: the kept digits, the point, and the shifted fraction. */
  predicate Shape(p: Plan)
    requires p.Place?
  {
    p.start < p.newEnd && p.start <= p.dot && p.from <= p.end
    && (p.end == p.dot ==> p.from == p.newEnd && p.newEnd <= p.dot)
    && (p.end != p.dot ==> p.dot < p.from && p.newEnd == p.end - (p.from - p.dot))
  }

  /** The positions of a Place plan are those Rewrite can work with in a buffer of length n. */
  predicate Placeable(p: Plan, n: nat)
    requires p.Place?
  {
    Shape(p) && p.newEnd <= n && p.dot <= n && p.end <= n
    && (p.neg ==> p.start >= 1)
    && p.start + FormattedLength(p.newEnd - p.start, p.e) <= n
  }

  /** The plan yields Canonical(s): what Number returns once it carries the plan out. */
  ghost predicate Decides(s: seq<byte>, plan: Plan)
    requires Valid(s)
  {
    match plan
    case Keep(base) => base <= |s| && Canonical(s) == s[base..]
    case Zero => Canonical(s) == ZeroBytes
    case Place(neg, start, dot, from, end, newEnd, e) =>
      Placeable(plan, |s|) && Canonical(s) == Format(neg, Kept(s, start, dot, from, end, newEnd), e)
  }

  /**
   * common.go:77-205. The result is ZeroBytes or a window num[lo..hi] of the
   * caller's buffer; the model refuses a form that would not fit in the
   * buffer (see Canonical) where the Go code indexes past its end.
   */
  method Number(num: array<byte>) returns (r: seq<byte>, lo: nat, hi: nat)
    requires Valid(num[..]) && ExpInRange(num[..])
    modifies num
    ensures r == Canonical(old(num[..]))
    ensures lo <= hi <= num.Length
    ensures r == ZeroBytes || r == num[lo..hi]
  {
    var plan := Analyse(num);
    match plan
    case Keep(base) =>
      r, lo, hi := num[base..], base, num.Length;
    case Zero =>
      r, lo, hi := ZeroBytes, 0, 0;
    case Place(neg, start, dot, from, end, newEnd, e) =>
      ghost var d := Kept(num[..], start, dot, from, end, newEnd);
      lo, hi := Rewrite(num, neg, start, dot, from, end, newEnd, e, d);
      r := num[lo..hi];
  }

  /** Scan, trim and fold (common.go:79-155), with the fit of the chosen form decided up front. */
  method Analyse(num: array<byte>) returns (plan: Plan)
    requires Valid(num[..]) && ExpInRange(num[..])
    ensures Decides(num[..], plan)
  {
    ghost var s := num[..];
    var neg, base, start, dot, end, exp := Scan(num);
    if exp.None? {
      CanonicalLiteral(s);
      return Keep(base);
    }
    plan := AnalyseDigits(num, neg, base, start, dot, end, exp.value);
  }

  /** The part of Analyse after a successful exponent parse. */
  method AnalyseDigits(num: array<byte>, neg: bool, base: nat, start0: nat, dot: nat, end0: nat, x: int) returns (plan: Plan)
    requires Valid(num[..]) && ExpValue(num[..]) == Some(x)
    requires neg == Negative(num[..]) && base == PlusLen(num[..]) && start0 == SignLen(num[..])
    requires dot == DotAt(num[..]) && end0 == ExpStart(num[..])
    ensures Decides(num[..], plan)
  {
    var start, end := Trim(num, start0, dot, end0);
    if start == end {
      return Zero;
    }
    plan := AnalyseSignificand(num, neg, base, start, dot, end, x);
  }

  /** The fold of a non-zero literal and the fit of the form it leads to. */
  method AnalyseSignificand(num: array<byte>, neg: bool, base: nat, start: nat, dot: nat, end: nat, x: int) returns (plan: Plan)
    requires Valid(num[..]) && ExpValue(num[..]) == Some(x) && base == PlusLen(num[..])
    requires Window(num[..], neg, start, dot, end)
    ensures Decides(num[..], plan)
  {
    ghost var s := num[..];
    plan := FoldPlan(num, neg, start, dot, end, x);
    if num.Length < plan.start + FormattedLength(plan.newEnd - plan.start, plan.e) {
      // the chosen form would run past the buffer: decided before any byte moves
      CanonicalTooLong(s, x, plan);
      return Keep(base);
    }
    PlaceIsCanonical(s, x, plan);
  }

  /** Canonical(s) when the exponent does not parse. */
  lemma {:induction false} CanonicalLiteral(s: seq<byte>)
    requires Valid(s) && ExpValue(s).None?
    ensures Decides(s, Keep(PlusLen(s)))
  {
  }

  /** Canonical(s) when the chosen form would not fit. */
  lemma {:induction false} CanonicalTooLong(s: seq<byte>, x: int, plan: Plan)
    requires Valid(s) && ExpValue(s) == Some(x) && !IsZero(s) && Folded(s, x, plan)
    requires |s| < plan.start + FormattedLength(plan.newEnd - plan.start, plan.e)
    ensures Decides(s, Keep(PlusLen(s)))
  {
    CanonicalUnfit(s, plan.start, plan.newEnd - plan.start, plan.e);
  }

  lemma {:induction false} CanonicalUnfit(s: seq<byte>, start: nat, n: nat, e: int)
    requires Valid(s) && ExpValue(s).Some? && !IsZero(s)
    requires start == DigitsAt(s) && n == |Significand(s)| && e == NetExp(s, ExpValue(s).value)
    requires |s| < start + FormattedLength(n, e)
    ensures Decides(s, Keep(PlusLen(s)))
  {
  }

  /** A fitting fold plan leads to Canonical(s). */
  lemma {:induction false} PlaceIsCanonical(s: seq<byte>, x: int, plan: Plan)
    requires Valid(s) && ExpValue(s) == Some(x) && !IsZero(s) && Folded(s, x, plan)
    requires plan.start + FormattedLength(plan.newEnd - plan.start, plan.e) <= |s|
    ensures Decides(s, plan)
  {
    CanonicalFitting(s, plan.start, plan.newEnd - plan.start, plan.e);
    SignBeforeDigits(s);
  }

  /** Canonical(s) when the chosen form fits. */
  lemma {:induction false} CanonicalFitting(s: seq<byte>, start: nat, n: nat, e: int)
    requires Valid(s) && ExpValue(s).Some? && !IsZero(s)
    requires start == DigitsAt(s) && n == |Significand(s)| && e == NetExp(s, ExpValue(s).value)
    requires start + FormattedLength(n, e) <= |s|
    ensures Canonical(s) == Format(Negative(s), Significand(s), e)
  {
  }

  /**
   * The kept digits: num[start..newEnd] when no fraction is left, otherwise
   * the integer digits num[start..dot] followed by the fraction digits
   * num[from..end], which the fold shifts onto the point's place.
   */
  ghost function Kept(s: seq<byte>, start: nat, dot: nat, from: nat, end: nat, newEnd: nat): seq<byte>
    requires start <= newEnd <= |s| && start <= dot <= |s| && from <= end <= |s|
  {
    if end == dot then s[start..newEnd] else s[start..dot] + s[from..end]
  }

  /** The fold's byte moves and the chosen form written out (common.go:146-147, 152-153, 158-204). */
  method Rewrite(num: array<byte>, neg: bool, start: nat, dot: nat, from: nat, end: nat, newEnd: nat, e: int,
                 ghost d: seq<byte>)
    returns (lo: nat, hi: nat)
    requires Placeable(Place(neg, start, dot, from, end, newEnd, e), num.Length)
    requires d == Kept(num[..], start, dot, from, end, newEnd)
    modifies num
    ensures lo <= hi <= num.Length
    ensures num[lo..hi] == Format(neg, d, e)
  {
    if end != dot {
      Compact(num, start, dot, from, end);
    }
    assert num[start..newEnd] == d;
    lo, hi := Emit(num, neg, start, newEnd, e);
  }

  /** The digits after the point moved onto the point's place (common.go:146-147, 152-153). */
  method Compact(num: array<byte>, start: nat, dot: nat, from: nat, end: nat)
    requires start <= dot < from <= end <= num.Length
    modifies num
    ensures num[start..end - (from - dot)] == old(num[start..dot]) + old(num[from..end])
  {
    var _ := Copy(num, dot, from, end);
    assert num[start..end - (from - dot)] == num[start..dot] + num[dot..end - (from - dot)];
  }

  /** A '-' sits before the first significant digit. */
  lemma {:induction false} SignBeforeDigits(s: seq<byte>)
    ensures Negative(s) ==> DigitsAt(s) >= 1
  {
  }

  /** Sign handling and the scan for '.' and the exponent (common.go:79-111). */
  method Scan(num: array<byte>) returns (neg: bool, base: nat, start: nat, dot: nat, end: nat, exp: Option<int>)
    requires Valid(num[..])
    ensures neg == Negative(num[..]) && base == PlusLen(num[..]) && start == SignLen(num[..])
    ensures dot == DotAt(num[..]) && end == ExpStart(num[..]) && exp == ExpValue(num[..])
    ensures base <= start <= dot <= end <= num.Length
  {
    ghost var s := num[..];
    ghost var m := ExpStart(s);
    neg, base, start, end, exp := false, 0, 0, num.Length, Some(0);
    if 0 < num.Length && (num[0] == PLUS || num[0] == MINUS) {
      if num[0] == MINUS {
        neg := true;
        start := start + 1;
      } else {
        // Go drops the '+' by re-slicing; here the slice starts at `base`
        base, start := 1, 1;
      }
    }
    assert start == SignLen(s);
    var d := -1;
    var i := start;
    while i < num.Length
      invariant start <= i <= m
      invariant d == -1 ==> forall k :: start <= k < i ==> s[k] != DOT
      invariant d != -1 ==> d == DotAt(s) && d < i
      invariant end == num.Length && exp == Some(0)
    {
      if num[i] == DOT {
        ValidDot(s, i);
        d := i;
      } else if IsExpMarker(num[i]) {
        end := i;
        exp := ParseExponent(num, i);
        break;
      }
      i := i + 1;
    }
    assert end == m;
    if d == -1 {
      FindDotIs(s, start, m, m);
      dot := end;
    } else {
      dot := d;
    }
  }

  /** A '.' before the exponent is the literal's only point. */
  lemma {:induction false} ValidDot(s: seq<byte>, i: nat)
    requires Valid(s) && SignLen(s) <= i < |s| && i <= ExpStart(s) && s[i] == DOT
    ensures i == DotAt(s) && i < ExpStart(s)
  {
  }

  /** The exponent after the marker at `i`: one '+' skipped, then parsed (common.go:97-105). */
  method ParseExponent(num: array<byte>, i: nat) returns (exp: Option<int>)
    requires i < num.Length && i == ExpStart(num[..])
    ensures exp == ExpValue(num[..])
  {
    ghost var x := ExpText(num[..]);
    assert x == num[i + 1..];
    var j := i + 1;
    if j < num.Length && num[j] == PLUS {
      j := j + 1;
      assert x[1..] == num[j..];
    }
    assert num[j..] == if |x| > 0 && x[0] == PLUS then x[1..] else x;
    exp := ParseInt(num[j..]);
  }

  /** Trimming of leading zeros and of the fraction's trailing zeros (common.go:113-127). */
  method Trim(num: array<byte>, start0: nat, dot: nat, end0: nat) returns (start: nat, end: nat)
    requires Valid(num[..])
    requires start0 == SignLen(num[..]) && dot == DotAt(num[..]) && end0 == ExpStart(num[..])
    ensures start == DigitsAt(num[..]) && end == TrimmedEnd(num[..])
    ensures start <= dot <= end <= end0
    ensures start == end <==> IsZero(num[..])
  {
    ghost var s := num[..];
    ghost var f := FracDigits(s);
    start, end := start0, end0;
    while start < end && num[start] == ZERO
      invariant start0 <= start <= dot
      invariant forall k :: start0 <= k < start ==> s[k] == ZERO
    {
      start := start + 1;
    }
    LeadZerosIs(IntDigits(s), start - start0);
    var i := end - 1;
    while i > dot
      invariant dot <= end0 <= |s| && dot - 1 <= i < end0 && end == end0
      invariant forall k :: i < k < end0 ==> s[k] == ZERO
    {
      if num[i] != ZERO {
        end := i + 1;
        break;
      }
      i := i - 1;
    }
    if i == dot {
      end := dot;
    }
    if dot < end0 {
      if end == dot {
        TrailZerosIs(f, |f|);
      } else {
        TrailZerosIs(f, end0 - end);
      }
    }
    ghost var ip := IntDigits(s);
    LeadZerosAppend(ip, f);
    AllZerosBothEnds(f);
  }

  /** Integer-part trailing zeros folded into the exponent when no fraction is left (common.go:133-140). */
  lemma {:induction false} FoldIntegerZeros(s: seq<byte>, x: int, i: nat)
    requires TrimmedEnd(s) == DotAt(s)
    requires DigitsAt(s) <= i < DotAt(s) && s[i] != ZERO
    requires forall k :: i < k < DotAt(s) ==> s[k] == ZERO
    ensures !IsZero(s)
    ensures Significand(s) == s[DigitsAt(s)..i + 1]
    ensures NetExp(s, x) == x + (DotAt(s) - i - 1)
  {
    var a, d := SignLen(s), DotAt(s);
    var ip, f := IntDigits(s), FracDigits(s);
    AllZerosBothEnds(f);
    assert forall k :: i - a < k < |ip| ==> ip[k] == s[a + k];
    StrippedIntegerOnly(ip, f, i - a);
    SliceOfSlice(s, a, d, LeadZeros(ip), i - a + 1, DigitsAt(s), i + 1);
  }

  /** With a fraction left, the point is removed and its digits counted into the exponent (common.go:141-154). */
  lemma {:induction false} FoldFraction(s: seq<byte>, x: int)
    requires TrimmedEnd(s) != DotAt(s)
    ensures DotAt(s) < TrimmedEnd(s) <= ExpStart(s)
    ensures TrailZeros(FracDigits(s)) < |FracDigits(s)|
    ensures !IsZero(s) && TrailZeros(Mantissa(s)) == TrailZeros(FracDigits(s))
    ensures NetExp(s, x) == x - (TrimmedEnd(s) - DotAt(s) - 1)
    ensures DigitsAt(s) < DotAt(s) ==>
      Significand(s) == s[DigitsAt(s)..DotAt(s)] + s[DotAt(s) + 1..TrimmedEnd(s)]
  {
    FractionZeros(s);
    if DigitsAt(s) < DotAt(s) {
      SignificandBothParts(s);
    }
  }

  /** A fraction left: each of its digits moves the exponent down by one. */
  lemma {:induction false} FractionNetExp(s: seq<byte>, x: int)
    requires TrimmedEnd(s) != DotAt(s)
    ensures NetExp(s, x) == x - (TrimmedEnd(s) - DotAt(s) - 1)
  {
    FractionZeros(s);
  }

  /** A fraction left: it ends in a non-zero digit, which the mantissa ends with too. */
  lemma {:induction false} FractionZeros(s: seq<byte>)
    requires TrimmedEnd(s) != DotAt(s)
    ensures DotAt(s) < TrimmedEnd(s) <= ExpStart(s)
    ensures TrailZeros(FracDigits(s)) < |FracDigits(s)|
    ensures LeadZeros(Mantissa(s)) < |Mantissa(s)|
    ensures TrailZeros(Mantissa(s)) == TrailZeros(FracDigits(s))
  {
    var ip, f := IntDigits(s), FracDigits(s);
    LeadZerosAppend(ip, f);
    AllZerosBothEnds(f);
    TrailZerosAppend(ip, f);
  }

  /** Digits on both sides of the point: the significand joins the integer digits and the kept fraction digits. */
  lemma {:induction false} SignificandBothParts(s: seq<byte>)
    requires TrimmedEnd(s) != DotAt(s) && DigitsAt(s) < DotAt(s)
    ensures !IsZero(s)
    ensures Significand(s) == s[DigitsAt(s)..DotAt(s)] + s[DotAt(s) + 1..TrimmedEnd(s)]
  {
    var a, d, m := SignLen(s), DotAt(s), ExpStart(s);
    var ip, f := IntDigits(s), FracDigits(s);
    FractionZeros(s);
    var q := |f| - TrailZeros(f);
    StrippedBothParts(ip, f);
    SuffixOfSlice(s, a, d, LeadZeros(ip), DigitsAt(s));
    PrefixOfSlice(s, d + 1, m, q, TrimmedEnd(s));
  }

  /** When the integer part is all zeros, the significand starts at the fraction's first non-zero digit (common.go:143-150). */
  lemma {:induction false} FoldFractionZeros(s: seq<byte>, i: nat)
    requires TrimmedEnd(s) != DotAt(s) && DigitsAt(s) == DotAt(s)
    requires DotAt(s) < i < TrimmedEnd(s) && s[i] != ZERO
    requires forall k :: DotAt(s) < k < i ==> s[k] == ZERO
    ensures !IsZero(s) && Significand(s) == s[i..TrimmedEnd(s)]
  {
    SignificandInFraction(s, i);
    TrimmedFraction(s, i);
  }

  lemma {:induction false} TrimmedFraction(s: seq<byte>, i: nat)
    requires TrimmedEnd(s) != DotAt(s) && DotAt(s) < i < TrimmedEnd(s)
    ensures FracDigits(s)[i - DotAt(s) - 1..|FracDigits(s)| - TrailZeros(FracDigits(s))] == s[i..TrimmedEnd(s)]
  {
    var d, m, f := DotAt(s), ExpStart(s), FracDigits(s);
    var j, e := i - d - 1, |f| - TrailZeros(f);
    SliceOfSlice(s, d + 1, m, j, e, i, TrimmedEnd(s));
  }

  lemma {:induction false} SignificandInFraction(s: seq<byte>, i: nat)
    requires TrimmedEnd(s) != DotAt(s) && DigitsAt(s) == DotAt(s)
    requires DotAt(s) < i < TrimmedEnd(s) && s[i] != ZERO
    requires forall k :: DotAt(s) < k < i ==> s[k] == ZERO
    ensures !IsZero(s)
    ensures Significand(s) == FracDigits(s)[i - DotAt(s) - 1..|FracDigits(s)| - TrailZeros(FracDigits(s))]
  {
    var a, d, m := SignLen(s), DotAt(s), ExpStart(s);
    var ip, f := IntDigits(s), FracDigits(s);
    FoldFraction(s, 0);
    assert f == s[d + 1..m];
    var j := i - d - 1;
    assert j < |f| && f[j] != ZERO;
    assert forall k :: 0 <= k < j ==> f[k] == ZERO;
    StrippedFractionOnly(ip, f, j);
  }

  /** With no fraction left, the first significant digit lies before the point. */
  lemma {:induction false} FirstDigitBeforePoint(s: seq<byte>)
    requires !IsZero(s) && TrimmedEnd(s) == DotAt(s)
    ensures DigitsAt(s) < DotAt(s) && s[DigitsAt(s)] != ZERO
  {
    var ip, f := IntDigits(s), FracDigits(s);
    AllZerosBothEnds(f);
    LeadZerosAppend(ip, f);
    assert ip[LeadZeros(ip)] == s[DigitsAt(s)];
  }

  /** With a fraction left, its last kept digit is not '0'. */
  lemma {:induction false} LastDigitAfterPoint(s: seq<byte>)
    requires TrimmedEnd(s) != DotAt(s)
    ensures DotAt(s) + 1 < TrimmedEnd(s) && s[TrimmedEnd(s) - 1] != ZERO
  {
    var f := FracDigits(s);
    assert f[|f| - 1 - TrailZeros(f)] == s[TrimmedEnd(s) - 1];
  }

  /**
   * A Place plan made by the fold of a non-zero literal: its positions, its
   * exponent, and its kept digits, which are the significand.
   */
  ghost predicate Folded(s: seq<byte>, x: int, p: Plan)
    requires !IsZero(s)
  {
    p.Place? && Positioned(s, x, p) && KeepsSignificand(s, p)
  }

  /** The plan's sign, start and exponent are the literal's, and its positions fit in s. */
  ghost predicate Positioned(s: seq<byte>, x: int, p: Plan)
    requires p.Place?
  {
    p.neg == Negative(s) && p.start == DigitsAt(s) && p.e == NetExp(s, x)
    && Shape(p) && p.newEnd <= |s| && p.dot <= |s| && p.end <= |s|
  }

  /** The digits the plan keeps are the significand. */
  ghost predicate KeepsSignificand(s: seq<byte>, p: Plan)
    requires !IsZero(s) && p.Place? && Shape(p) && p.newEnd <= |s| && p.dot <= |s| && p.end <= |s|
  {
    p.newEnd - p.start == |Significand(s)|
    && Kept(s, p.start, p.dot, p.from, p.end, p.newEnd) == Significand(s)
  }

  /** The sign and the trimmed digit window of a non-zero literal, as the scan and trim leave them. */
  ghost predicate Window(s: seq<byte>, neg: bool, start: nat, dot: nat, end: nat) {
    !IsZero(s) && neg == Negative(s) && start == DigitsAt(s) && dot == DotAt(s) && end == TrimmedEnd(s)
  }

  /**
   * The cursor arithmetic of common.go:133-155: the new exponent, where the
   * significand ends once the point is removed, and from where the digits
   * after the point are shifted onto the point's place.
   */
  method FoldPlan(num: array<byte>, neg: bool, start: nat, dot: nat, end: nat, x: int) returns (plan: Plan)
    requires Window(num[..], neg, start, dot, end)
    ensures Folded(num[..], x, plan)
  {
    if end == dot {
      plan := FoldWhole(num, neg, start, dot, end, x);
    } else if start == dot {
      plan := FoldFractionOnly(num, neg, start, dot, end, x);
    } else {
      FoldedBothParts(num[..], neg, start, dot, end, x);
      plan := Place(neg, start, dot, dot + 1, end, end - 1, x - (end - dot - 1));
    }
  }

  /** No fraction left (common.go:133-140). */
  method FoldWhole(num: array<byte>, neg: bool, start: nat, dot: nat, end: nat, x: int) returns (plan: Plan)
    requires Window(num[..], neg, start, dot, end) && end == dot
    ensures Folded(num[..], x, plan)
  {
    WholeStart(num[..], neg, start, dot, end);
    var i := LastNonZero(num, start, dot);
    FoldedWhole(num[..], neg, start, dot, end, x, i);
    plan := Place(neg, start, dot, i + 1, dot, i + 1, x + (dot - i - 1));
  }

  /** A fraction left and an all-zero integer part (common.go:141-150). */
  method FoldFractionOnly(num: array<byte>, neg: bool, start: nat, dot: nat, end: nat, x: int) returns (plan: Plan)
    requires Window(num[..], neg, start, dot, end) && end != dot && start == dot
    ensures Folded(num[..], x, plan)
  {
    FractionEnd(num[..], neg, start, dot, end);
    var i := FirstNonZero(num, dot + 1, end);
    FoldedFractionOnly(num[..], neg, start, dot, end, x, i);
    plan := Place(neg, dot, dot, i, end, end - (i - dot), x - (end - dot - 1));
  }

  /** With no fraction left, the first significant digit lies before the point. */
  lemma {:induction false} WholeStart(s: seq<byte>, neg: bool, start: nat, dot: nat, end: nat)
    requires Window(s, neg, start, dot, end) && end == dot
    ensures start < dot <= |s| && s[start] != ZERO
  {
    FirstDigitBeforePoint(s);
  }

  /** With a fraction left, its last kept digit is not '0'. */
  lemma {:induction false} FractionEnd(s: seq<byte>, neg: bool, start: nat, dot: nat, end: nat)
    requires Window(s, neg, start, dot, end) && end != dot
    ensures dot + 1 < end <= |s| && s[end - 1] != ZERO
  {
    LastDigitAfterPoint(s);
  }

  /** No fraction left: the integer part's trailing zeros after position i go into the exponent. */
  lemma {:induction false} FoldedWhole(s: seq<byte>, neg: bool, start: nat, dot: nat, end: nat, x: int, i: nat)
    requires Window(s, neg, start, dot, end) && end == dot
    requires start <= i < dot && s[i] != ZERO
    requires forall k :: i < k < dot ==> s[k] == ZERO
    ensures Folded(s, x, Place(neg, start, dot, i + 1, dot, i + 1, x + (dot - i - 1)))
  {
    FoldIntegerZeros(s, x, i);
  }

  /** An all-zero integer part: the fraction's digits from its first non-zero digit i on are the significand. */
  lemma {:induction false} FoldedFractionOnly(s: seq<byte>, neg: bool, start: nat, dot: nat, end: nat, x: int, i: nat)
    requires Window(s, neg, start, dot, end) && end != dot && start == dot
    requires dot < i < end && s[i] != ZERO
    requires forall k :: dot < k < i ==> s[k] == ZERO
    ensures Folded(s, x, Place(neg, dot, dot, i, end, end - (i - dot), x - (end - dot - 1)))
  {
    var p := Place(neg, dot, dot, i, end, end - (i - dot), x - (end - dot - 1));
    FractionNetExp(s, x);
    assert Positioned(s, x, p);
    FractionOnlyKept(s, p);
  }

  lemma {:induction false} FractionOnlyKept(s: seq<byte>, p: Plan)
    requires p.Place? && Window(s, p.neg, p.dot, p.dot, p.end) && p.end != p.dot && p.start == p.dot
    requires p.dot < p.from < p.end && s[p.from] != ZERO && p.newEnd == p.end - (p.from - p.dot)
    requires forall k :: p.dot < k < p.from ==> s[k] == ZERO
    ensures Shape(p) && KeepsSignificand(s, p)
  {
    FoldFractionZeros(s, p.from);
    assert s[p.dot..p.dot] + s[p.from..p.end] == s[p.from..p.end];
  }

  /** Digits on both sides of the point: the point is dropped and the fraction's digits join the integer's. */
  lemma {:induction false} FoldedBothParts(s: seq<byte>, neg: bool, start: nat, dot: nat, end: nat, x: int)
    requires Window(s, neg, start, dot, end) && end != dot && start < dot
    ensures Folded(s, x, Place(neg, start, dot, dot + 1, end, end - 1, x - (end - dot - 1)))
  {
    FoldFraction(s, x);
    LastDigitAfterPoint(s);
  }

  /** The loop of common.go:134-140: the last non-'0' byte of num[lo..hi], which has one at lo. */
  method LastNonZero(num: array<byte>, lo: nat, hi: nat) returns (i: nat)
    requires lo < hi <= num.Length && num[lo] != ZERO
    ensures lo <= i < hi && num[i] != ZERO
    ensures forall k :: i < k < hi ==> num[k] == ZERO
  {
    var j := hi - 1;
    while j >= lo
      invariant lo - 1 <= j < hi
      invariant forall k :: j < k < hi ==> num[k] == ZERO
    {
      if num[j] != ZERO {
        return j;
      }
      j := j - 1;
    }
    assert false;
  }

  /** The loop of common.go:144-150: the first non-'0' byte of num[lo..hi], which has one at hi - 1. */
  method FirstNonZero(num: array<byte>, lo: nat, hi: nat) returns (i: nat)
    requires lo < hi <= num.Length && num[hi - 1] != ZERO
    ensures lo <= i < hi && num[i] != ZERO
    ensures forall k :: lo <= k < i ==> num[k] == ZERO
  {
    i := lo;
    while i < hi
      invariant lo <= i <= hi
      invariant forall k :: lo <= k < i ==> num[k] == ZERO
    {
      if num[i] != ZERO {
        return;
      }
      i := i + 1;
    }
    assert false;
  }

  /**
   * Writing the chosen form after the significand num[start..end] with
   * exponent e, then the '-' before it (common.go:158-204).
   */
  method Emit(num: array<byte>, neg: bool, start: nat, end: nat, e: int) returns (lo: nat, hi: nat)
    requires start < end <= num.Length
    requires neg ==> start >= 1
    requires start + FormattedLength(end - start, e) <= num.Length
    modifies num
    ensures lo <= hi <= num.Length
    ensures num[lo..hi] == Format(neg, old(num[start..end]), e)
  {
    hi := EmitDigits(num, start, end, e);
    lo := start;
    if neg {
      lo := start - 1;
      num[lo] := MINUS;
      assert num[lo..hi] == [MINUS] + num[start..hi];
    }
  }

  /** The form choice of common.go:158-198. */
  method EmitDigits(num: array<byte>, start: nat, end: nat, e: int) returns (hi: nat)
    requires start < end <= num.Length
    requires start + FormattedLength(end - start, e) <= num.Length
    modifies num
    ensures start <= hi <= num.Length
    ensures num[start..hi] == FormatDigits(old(num[start..end]), e)
    ensures num[..start] == old(num[..start])
  {
    ghost var d := num[start..end];
    var relExp := e + (end - start);
    hi := end;
    if e == 0 {
    } else if relExp < -2 || 2 < e {
      hi := WriteExponent(num, start, end, e);
    } else if e < 0 {
      if relExp > 0 {
        hi := InsertPoint(num, start, end, relExp);
      } else {
        hi := PadFraction(num, start, end, relExp);
      }
    } else {
      hi := AppendZeros(num, start, end, e);
    }
  }

  /** Scientific form: 'e', a '-' for a negative exponent, then its digits without leading zeros (common.go:166-178). */
  method WriteExponent(num: array<byte>, start: nat, end: nat, e: int) returns (hi: nat)
    requires start < end && e != 0
    requires end + 1 + (if e < 0 then 1 else 0) + NumDigits(Abs(e)) <= num.Length
    modifies num
    ensures start < hi <= num.Length
    ensures num[start..hi] == old(num[start..end]) + [LOWER_E] + (if e < 0 then [MINUS] else []) + Repr(Abs(e))
    ensures num[..start] == old(num[..start])
  {
    num[end] := LOWER_E;
    hi := end + 1;
    var exp: int := e;
    if exp < 0 {
      num[hi] := MINUS;
      hi := hi + 1;
      exp := -exp;
    }
    ghost var head := num[start..hi];
    assert head == old(num[start..end]) + [LOWER_E] + (if e < 0 then [MINUS] else []);
    var n := NumDigits(exp);
    WriteDigits(num, hi, n, exp);
    assert num[start..hi + n] == num[start..hi] + num[hi..hi + n];
    hi := hi + n;
  }

  /** The digit loop of common.go:174-177: the last n digits of x, written from the right. */
  method WriteDigits(num: array<byte>, p: nat, n: nat, x: nat)
    requires p + n <= num.Length
    modifies num
    ensures num[p..p + n] == DigitsN(x, n)
    ensures num[..p] == old(num[..p])
  {
    var exp: nat := x;
    var i := p + n - 1;
    while i >= p
      invariant p - 1 <= i < p + n
      invariant DigitsN(exp, i - p + 1) + num[i + 1..p + n] == DigitsN(x, n)
      invariant num[..p] == old(num[..p])
    {
      var digit := (exp % 10 + ZERO) as byte;
      assert DigitsN(exp, i - p + 1) == DigitsN(exp / 10, i - p) + [digit];
      num[i] := digit;
      assert num[i..p + n] == [digit] + num[i + 1..p + n];
      exp := exp / 10;
      i := i - 1;
    }
  }

  /** A '.' inserted relExp digits into the significand (common.go:180-183). */
  method InsertPoint(num: array<byte>, start: nat, end: nat, relExp: int) returns (hi: nat)
    requires 0 < relExp < end - start && end + 1 <= num.Length
    modifies num
    ensures hi == end + 1
    ensures num[start..hi] == old(num[start..start + relExp]) + [DOT] + old(num[start + relExp..end])
    ensures num[..start] == old(num[..start])
  {
    var p := start + relExp;
    ghost var before := num[..];
    var n := Copy(num, p + 1, p, end);
    assert n == end - p;
    ghost var moved := num[..];
    assert forall k :: p + 1 <= k < end + 1 ==> moved[k] == before[k - 1];
    assert forall k :: 0 <= k < p ==> moved[k] == before[k];
    num[p] := DOT;
    hi := end + 1;
    Inserted(before, num[..], start, p, end);
  }

  /** The bytes InsertPoint leaves, position by position, spell the significand with a '.' at p. */
  lemma {:induction false} Inserted(a: seq<byte>, b: seq<byte>, start: nat, p: nat, end: nat)
    requires |a| == |b| && start <= p < end < |b|
    requires b[p] == DOT
    requires forall k :: p + 1 <= k < end + 1 ==> b[k] == a[k - 1]
    requires forall k :: 0 <= k < p ==> b[k] == a[k]
    ensures b[start..end + 1] == a[start..p] + [DOT] + a[p..end]
    ensures b[..start] == a[..start]
  {
    assert b[p + 1..end + 1] == a[p..end];
    assert b[start..p] == a[start..p];
    assert b[start..end + 1] == b[start..p] + [b[p]] + b[p + 1..end + 1];
  }

  /** A value below one: '.', -relExp zeros, then the significand (common.go:184-191). */
  method PadFraction(num: array<byte>, start: nat, end: nat, relExp: int) returns (hi: nat)
    requires start < end && relExp <= 0 && end + 1 - relExp <= num.Length
    modifies num
    ensures hi == end + 1 - relExp
    ensures num[start..hi] == [DOT] + Zeros(-relExp) + old(num[start..end])
    ensures num[..start] == old(num[..start])
  {
    var z := -relExp;
    ghost var before := num[..];
    var n := Copy(num, start + z + 1, start, end);
    assert n == end - start;
    ghost var moved := num[..];
    assert forall k :: start + z + 1 <= k < end + z + 1 ==> moved[k] == before[k - z - 1];
    assert forall k :: 0 <= k < start ==> moved[k] == before[k];
    num[start] := DOT;
    ghost var dotted := num[..];
    FillZeros(num, start + 1, z);
    hi := end + z + 1;
    assert forall k :: start + z + 1 <= k < end + z + 1 ==> num[k] == dotted[k] == moved[k];
    assert forall k :: 0 <= k < start ==> num[k] == dotted[k] == moved[k];
    Padded(before, num[..], start, end, z);
  }

  /** The zero loop of common.go:187-189: n '0's from lo on, nothing else touched. */
  method FillZeros(num: array<byte>, lo: nat, n: nat)
    requires lo + n <= num.Length
    modifies num
    ensures forall k :: lo <= k < lo + n ==> num[k] == ZERO
    ensures forall k :: 0 <= k < num.Length && !(lo <= k < lo + n) ==> num[k] == old(num[k])
  {
    var i := 0;
    while i < n
      invariant 0 <= i <= n
      invariant forall k :: lo <= k < lo + i ==> num[k] == ZERO
      invariant forall k :: 0 <= k < num.Length && !(lo <= k < lo + i) ==> num[k] == old(num[k])
    {
      num[lo + i] := ZERO;
      i := i + 1;
    }
  }

  /** The bytes PadFraction leaves, position by position, spell '.', z zeros and the significand. */
  lemma {:induction false} Padded(a: seq<byte>, b: seq<byte>, start: nat, end: nat, z: nat)
    requires |a| == |b| && start < end && end + z + 1 <= |b|
    requires b[start] == DOT
    requires forall k :: start + 1 <= k < start + 1 + z ==> b[k] == ZERO
    requires forall k :: start + z + 1 <= k < end + z + 1 ==> b[k] == a[k - z - 1]
    requires forall k :: 0 <= k < start ==> b[k] == a[k]
    ensures b[start..end + z + 1] == [DOT] + Zeros(z) + a[start..end]
    ensures b[..start] == a[..start]
  {
    assert b[start + 1..start + 1 + z] == Zeros(z);
    assert b[start + z + 1..end + z + 1] == a[start..end];
    assert b[start..end + z + 1] == [b[start]] + b[start + 1..start + 1 + z] + b[start + z + 1..end + z + 1];
  }

  /** A positive exponent of one or two becomes that many '0's (common.go:193-197). */
  method AppendZeros(num: array<byte>, start: nat, end: nat, e: int) returns (hi: nat)
    requires start <= end && 1 <= e <= 2 && end + e <= num.Length
    modifies num
    ensures hi == end + e
    ensures num[start..hi] == old(num[start..end]) + Zeros(e)
    ensures num[..start] == old(num[..start])
  {
    num[end] := ZERO;
    if e == 2 {
      num[end + 1] := ZERO;
    }
    hi := end + e;
    assert num[start..hi] == num[start..end] + num[end..hi];
  }
}
