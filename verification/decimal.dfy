/** Decimal digit strings, their values and the decimal writing of a natural number. */
module Decimal {
  import opened Bytes

  predicate AllDigits(t: seq<byte>) {
    forall k :: 0 <= k < |t| ==> IsDigit(t[k])
  }

  function Pow10(k: nat): (p: nat)
    ensures p >= 1
  {
    if k == 0 then 1 else 10 * Pow10(k - 1)
  }

  /** `v` with `k` zero digits appended, that is v * 10^k (see ShiftIsProduct). */
  function Shift(v: nat, k: nat): nat {
    if k == 0 then v else 10 * Shift(v, k - 1)
  }

  lemma {:induction false} ShiftIsProduct(v: nat, k: nat)
    ensures Shift(v, k) == v * Pow10(k)
  {
    if k > 0 {
      ShiftIsProduct(v, k - 1);
      assert v * Pow10(k) == 10 * (v * Pow10(k - 1));
    }
  }

  /** The value of a digit string, most significant digit first; the empty string is 0. */
  function Int(t: seq<byte>): nat
    requires AllDigits(t)
  {
    if t == [] then 0 else Int(t[..|t| - 1]) * 10 + (t[|t| - 1] - ZERO)
  }

  /** `k` zero digits. */
  function Zeros(k: nat): (z: seq<byte>)
    ensures |z| == k && AllDigits(z)
    ensures forall i :: 0 <= i < k ==> z[i] == ZERO
  {
    seq(k, _ => ZERO)
  }

  /** Number of '0' digits at the front of `t`. */
  function LeadZeros(t: seq<byte>): (n: nat)
    ensures n <= |t|
    ensures forall i :: 0 <= i < n ==> t[i] == ZERO
    ensures n < |t| ==> t[n] != ZERO
  {
    ZerosFromStops(t, 0);
    ZerosFrom(t, 0)
  }

  /** The first position at or after `i` that does not hold '0' (or |t|). */
  function ZerosFrom(t: seq<byte>, i: nat): (n: nat)
    requires i <= |t|
    ensures i <= n <= |t|
    decreases |t| - i
  {
    if i < |t| && t[i] == ZERO then ZerosFrom(t, i + 1) else i
  }

  lemma {:induction false} ZerosFromStops(t: seq<byte>, i: nat)
    requires i <= |t|
    ensures forall k :: i <= k < ZerosFrom(t, i) ==> t[k] == ZERO
    ensures ZerosFrom(t, i) < |t| ==> t[ZerosFrom(t, i)] != ZERO
    decreases |t| - i
  {
    if i < |t| && t[i] == ZERO {
      ZerosFromStops(t, i + 1);
    }
  }

  /** Number of '0' digits at the back of `t`. */
  function TrailZeros(t: seq<byte>): (n: nat)
    ensures n <= |t|
    ensures forall i :: |t| - n <= i < |t| ==> t[i] == ZERO
    ensures n < |t| ==> t[|t| - 1 - n] != ZERO
  {
    ZerosBeforeStops(t, |t|);
    |t| - ZerosBefore(t, |t|)
  }

  /** The end of `t[..j]` once its trailing '0's are dropped. */
  function ZerosBefore(t: seq<byte>, j: nat): (n: nat)
    requires j <= |t|
    ensures n <= j
  {
    if j > 0 && t[j - 1] == ZERO then ZerosBefore(t, j - 1) else j
  }

  lemma {:induction false} ZerosBeforeStops(t: seq<byte>, j: nat)
    requires j <= |t|
    ensures forall k :: ZerosBefore(t, j) <= k < j ==> t[k] == ZERO
    ensures ZerosBefore(t, j) > 0 ==> t[ZerosBefore(t, j) - 1] != ZERO
  {
    if j > 0 && t[j - 1] == ZERO {
      ZerosBeforeStops(t, j - 1);
    }
  }

  /** Number of decimal digits needed to write `x` (1 for 0). */
  function NumDigits(x: nat): (n: nat)
    ensures n >= 1
  {
    if x < 10 then 1 else 1 + NumDigits(x / 10)
  }

  /** The last `k` decimal digits of `x`, most significant first, padded with zeros. */
  function DigitsN(x: nat, k: nat): (t: seq<byte>)
    ensures |t| == k && AllDigits(t)
  {
    if k == 0 then [] else DigitsN(x / 10, k - 1) + [(x % 10 + ZERO) as byte]
  }

  /** `x` written in decimal without leading zeros. */
  function Repr(x: nat): seq<byte> {
    DigitsN(x, NumDigits(x))
  }

  lemma {:induction false} IntAppend(a: seq<byte>, b: seq<byte>)
    requires AllDigits(a) && AllDigits(b)
    ensures AllDigits(a + b) && Int(a + b) == Shift(Int(a), |b|) + Int(b)
    decreases |b|
  {
    if b != [] {
      var b', c := b[..|b| - 1], b[|b| - 1];
      assert b == b' + [c];
      assert a + b == (a + b') + [c];
      IntAppend(a, b');
      IntPush(a + b', c);
      IntPush(b', c);
    } else {
      assert a + b == a;
    }
  }

  /** One more digit at the end: ten times the value plus that digit. */
  lemma {:induction false} IntPush(t: seq<byte>, c: byte)
    requires AllDigits(t) && IsDigit(c)
    ensures AllDigits(t + [c]) && Int(t + [c]) == Int(t) * 10 + (c - ZERO)
  {
    assert (t + [c])[..|t|] == t;
  }

  lemma {:induction false} IntOfZeros(k: nat)
    ensures Int(Zeros(k)) == 0
  {
    if k > 0 {
      assert Zeros(k)[..k - 1] == Zeros(k - 1);
      IntOfZeros(k - 1);
    }
  }

  /** Leading zeros do not change the value. */
  lemma {:induction false} IntZerosPrefix(k: nat, t: seq<byte>)
    requires AllDigits(t)
    ensures AllDigits(Zeros(k) + t) && Int(Zeros(k) + t) == Int(t)
  {
    IntAppend(Zeros(k), t);
    IntOfZeros(k);
    ShiftOfZero(|t|);
  }

  lemma {:induction false} ShiftOfZero(k: nat)
    ensures Shift(0, k) == 0
  {
    if k > 0 {
      ShiftOfZero(k - 1);
    }
  }

  /** Shifting twice shifts by the sum. */
  lemma {:induction false} ShiftAdd(v: nat, a: nat, b: nat)
    ensures Shift(Shift(v, a), b) == Shift(v, a + b)
  {
    if b > 0 {
      ShiftAdd(v, a, b - 1);
    }
  }

  /** Shifting is one-to-one, and only 0 shifts to 0. */
  lemma {:induction false} ShiftInjective(v: nat, w: nat, k: nat)
    ensures Shift(v, k) == Shift(w, k) <==> v == w
    ensures Shift(v, k) == 0 <==> v == 0
  {
    if k > 0 {
      ShiftInjective(v, w, k - 1);
    }
  }

  /** Trailing zeros scale the value by a power of ten. */
  lemma {:induction false} IntZerosSuffix(t: seq<byte>, k: nat)
    requires AllDigits(t)
    ensures AllDigits(t + Zeros(k)) && Int(t + Zeros(k)) == Shift(Int(t), k)
  {
    IntAppend(t, Zeros(k));
    IntOfZeros(k);
  }

  /** A digit string is worth 0 exactly when all its digits are '0'. */
  lemma {:induction false} IntZeroIff(t: seq<byte>)
    requires AllDigits(t)
    ensures Int(t) == 0 <==> forall i :: 0 <= i < |t| ==> t[i] == ZERO
  {
    if t != [] {
      var t' := t[..|t| - 1];
      IntZeroIff(t');
      assert forall i :: 0 <= i < |t'| ==> t'[i] == t[i];
    }
  }

  /** Stripping the zeros at both ends of a non-zero digit string keeps its value up to the trailing power of ten. */
  lemma {:induction false} StrippedValue(t: seq<byte>)
    requires AllDigits(t) && LeadZeros(t) < |t|
    ensures Int(t) == Shift(Int(Stripped(t)), TrailZeros(t))
  {
    StripValue(t, LeadZeros(t), TrailZeros(t), Stripped(t));
  }

  lemma {:induction false} StripValue(t: seq<byte>, lz: nat, tz: nat, d: seq<byte>)
    requires AllDigits(t) && lz + tz <= |t| && d == t[lz..|t| - tz]
    requires forall i :: 0 <= i < lz ==> t[i] == ZERO
    requires forall i :: |t| - tz <= i < |t| ==> t[i] == ZERO
    ensures AllDigits(d) && Int(t) == Shift(Int(d), tz)
  {
    var dz := d + Zeros(tz);
    assert t[..lz] == Zeros(lz);
    assert t[|t| - tz..] == Zeros(tz);
    assert t == t[..lz] + (d + t[|t| - tz..]);
    assert t == Zeros(lz) + dz;
    IntZerosPrefix(lz, dz);
    IntZerosSuffix(d, tz);
  }

  lemma {:induction false} NumDigitsBound(x: nat)
    ensures x < Pow10(NumDigits(x))
  {
    if x >= 10 {
      NumDigitsBound(x / 10);
    }
  }

  /** A number below 10^k needs at most k digits. */
  lemma {:induction false} NumDigitsAtMost(x: nat, k: nat)
    requires 1 <= k && x < Pow10(k)
    ensures NumDigits(x) <= k
  {
    if x >= 10 {
      NumDigitsAtMost(x / 10, k - 1);
    }
  }

  lemma {:induction false} NumDigitsMonotone(x: nat, y: nat)
    requires x <= y
    ensures NumDigits(x) <= NumDigits(y)
  {
    if x >= 10 {
      NumDigitsMonotone(x / 10, y / 10);
    }
  }

  /** Adding y to a number adds at most y digits. */
  lemma {:induction false} NumDigitsAdd(x: nat, y: nat)
    ensures NumDigits(x + y) <= NumDigits(x) + y
  {
    if y > 0 {
      NumDigitsAdd(x, y - 1);
      NumDigitsSucc(x + y - 1);
    }
  }

  lemma {:induction false} NumDigitsSucc(x: nat)
    ensures NumDigits(x + 1) <= NumDigits(x) + 1
  {
    if x >= 10 {
      NumDigitsSucc(x / 10);
      NumDigitsMonotone((x + 1) / 10, x / 10 + 1);
    }
  }

  /** From 2 on, a number is longer than its number of digits. */
  lemma {:induction false} NumDigitsBelow(x: nat)
    requires x >= 2
    ensures NumDigits(x) < x
  {
    if x / 10 >= 2 {
      NumDigitsBelow(x / 10);
    }
  }

  /** The digits of a digit string are at least as many as its value needs. */
  lemma {:induction false} IntBound(t: seq<byte>)
    requires AllDigits(t)
    ensures Int(t) < Pow10(|t|)
  {
    if t != [] {
      IntBound(t[..|t| - 1]);
    }
  }

  lemma {:induction false} NumDigitsOfInt(t: seq<byte>)
    requires AllDigits(t) && |t| >= 1
    ensures NumDigits(Int(t)) <= |t|
  {
    IntBound(t);
    NumDigitsAtMost(Int(t), |t|);
  }

  /** `Repr` writes the value back: a round trip through decimal text. */
  lemma {:induction false} ReprInt(x: nat)
    ensures AllDigits(Repr(x)) && Int(Repr(x)) == x
    ensures x > 0 ==> Repr(x)[0] != ZERO
    ensures |Repr(x)| == NumDigits(x)
  {
    ReprValue(x);
    ReprHead(x);
  }

  lemma {:induction false} ReprValue(x: nat)
    ensures Int(Repr(x)) == x
  {
    if x >= 10 {
      ReprValue(x / 10);
      ReprStep(x);
      IntPush(Repr(x / 10), (x % 10 + ZERO) as byte);
    } else {
      assert Repr(x) == [(x + ZERO) as byte];
    }
  }

  lemma {:induction false} ReprHead(x: nat)
    ensures x > 0 ==> Repr(x)[0] != ZERO
  {
    if x >= 10 {
      ReprHead(x / 10);
      ReprStep(x);
    } else {
      assert Repr(x) == [(x + ZERO) as byte];
    }
  }

  /** The writing of x is that of x / 10 followed by x's last digit. */
  lemma {:induction false} ReprStep(x: nat)
    requires x >= 10
    ensures Repr(x) == Repr(x / 10) + [(x % 10 + ZERO) as byte]
  {
    assert NumDigits(x) == NumDigits(x / 10) + 1;
  }

  lemma {:induction false} LeadZerosIs(t: seq<byte>, n: nat)
    requires n <= |t|
    requires forall i :: 0 <= i < n ==> t[i] == ZERO
    requires n < |t| ==> t[n] != ZERO
    ensures LeadZeros(t) == n
  {
  }

  lemma {:induction false} TrailZerosIs(t: seq<byte>, n: nat)
    requires n <= |t|
    requires forall i :: |t| - n <= i < |t| ==> t[i] == ZERO
    requires n < |t| ==> t[|t| - 1 - n] != ZERO
    ensures TrailZeros(t) == n
  {
  }

  /** A string is all zeros when counted from either end. */
  lemma {:induction false} AllZerosBothEnds(t: seq<byte>)
    ensures LeadZeros(t) == |t| <==> TrailZeros(t) == |t|
  {
  }

  lemma {:induction false} LeadZerosAppend(a: seq<byte>, b: seq<byte>)
    ensures LeadZeros(a + b) == if LeadZeros(a) < |a| then LeadZeros(a) else |a| + LeadZeros(b)
  {
    var ab := a + b;
    if LeadZeros(a) < |a| {
      LeadZerosIs(ab, LeadZeros(a));
    } else {
      LeadZerosIs(ab, |a| + LeadZeros(b));
    }
  }

  lemma {:induction false} TrailZerosAppend(a: seq<byte>, b: seq<byte>)
    ensures TrailZeros(a + b) == if TrailZeros(b) < |b| then TrailZeros(b) else |b| + TrailZeros(a)
  {
    var ab := a + b;
    if TrailZeros(b) < |b| {
      TrailZerosIs(ab, TrailZeros(b));
    } else {
      TrailZerosIs(ab, |b| + TrailZeros(a));
    }
  }

  /** A digit string without its leading and trailing zeros. */
  function Stripped(t: seq<byte>): (d: seq<byte>)
    requires LeadZeros(t) < |t|
    ensures LeadZeros(t) + TrailZeros(t) < |t|
    ensures d == t[LeadZeros(t)..|t| - TrailZeros(t)]
    ensures |d| >= 1 && d[0] != ZERO && d[|d| - 1] != ZERO
    ensures AllDigits(t) ==> AllDigits(d)
  {
    t[LeadZeros(t)..|t| - TrailZeros(t)]
  }

  /** A fraction of zeros adds to the trailing zeros of the integer part (the integer part holds a non-zero digit at j). */
  lemma {:induction false} StrippedIntegerOnly(ip: seq<byte>, f: seq<byte>, j: nat)
    requires j < |ip| && ip[j] != ZERO
    requires forall k :: j < k < |ip| ==> ip[k] == ZERO
    requires TrailZeros(f) == |f|
    ensures LeadZeros(ip + f) < |ip + f|
    ensures TrailZeros(ip + f) == |f| + (|ip| - 1 - j)
    ensures Stripped(ip + f) == ip[LeadZeros(ip)..j + 1]
  {
    ZerosOfIntegerOnly(ip, f, j);
    var m := ip + f;
    assert m[LeadZeros(ip)..|m| - TrailZeros(m)] == ip[LeadZeros(ip)..j + 1];
  }

  lemma {:induction false} ZerosOfIntegerOnly(ip: seq<byte>, f: seq<byte>, j: nat)
    requires j < |ip| && ip[j] != ZERO
    requires forall k :: j < k < |ip| ==> ip[k] == ZERO
    requires TrailZeros(f) == |f|
    ensures LeadZeros(ip) <= j
    ensures LeadZeros(ip + f) == LeadZeros(ip)
    ensures TrailZeros(ip + f) == |f| + (|ip| - 1 - j)
  {
    LeadZerosAppend(ip, f);
    TrailZerosAppend(ip, f);
    TrailZerosIs(ip, |ip| - 1 - j);
  }

  /** Significant digits on both sides of the point. */
  lemma {:induction false} StrippedBothParts(ip: seq<byte>, f: seq<byte>)
    requires LeadZeros(ip) < |ip| && TrailZeros(f) < |f|
    ensures LeadZeros(ip + f) < |ip + f|
    ensures TrailZeros(ip + f) == TrailZeros(f)
    ensures Stripped(ip + f) == ip[LeadZeros(ip)..] + f[..|f| - TrailZeros(f)]
  {
    var t, p, q := ip + f, LeadZeros(ip), |ip| + |f| - TrailZeros(f);
    ZerosOfBothParts(ip, f);
    assert Stripped(t) == t[p..q];
    SliceAcross(ip, f, p, q);
  }

  lemma {:induction false} ZerosOfBothParts(ip: seq<byte>, f: seq<byte>)
    requires LeadZeros(ip) < |ip| && TrailZeros(f) < |f|
    ensures LeadZeros(ip + f) == LeadZeros(ip)
    ensures TrailZeros(ip + f) == TrailZeros(f)
  {
    LeadZerosAppend(ip, f);
    TrailZerosAppend(ip, f);
  }

  /** A slice of a slice, with its ends c and e given in the outer sequence's positions. */
  lemma {:induction false} SliceOfSlice<T>(s: seq<T>, a: nat, b: nat, p: nat, q: nat, c: nat, e: nat)
    requires a <= b <= |s| && p <= q <= b - a && c == a + p && e == a + q
    ensures s[a..b][p..q] == s[c..e]
  {
    var t := s[a..b];
    forall k | 0 <= k < q - p
      ensures t[p..q][k] == s[c..e][k]
    {
      assert t[p..q][k] == t[p + k] == s[a + p + k];
    }
  }

  lemma {:induction false} SuffixOfSlice<T>(s: seq<T>, a: nat, b: nat, p: nat, c: nat)
    requires a <= b <= |s| && p <= b - a && c == a + p
    ensures s[a..b][p..] == s[c..b]
  {
    assert s[a..b][p..] == s[a..b][p..b - a];
    SliceOfSlice(s, a, b, p, b - a, c, b);
  }

  lemma {:induction false} PrefixOfSlice<T>(s: seq<T>, a: nat, b: nat, q: nat, c: nat)
    requires a <= b <= |s| && q <= b - a && c == a + q
    ensures s[a..b][..q] == s[a..c]
  {
    assert s[a..b][..q] == s[a..b][0..q];
    SliceOfSlice(s, a, b, 0, q, a, c);
  }

  lemma {:induction false} SliceAcross<T>(a: seq<T>, b: seq<T>, p: nat, q: nat)
    requires p <= |a| <= q <= |a| + |b|
    ensures (a + b)[p..q] == a[p..] + b[..q - |a|]
  {
  }

  /** An all-zero integer part: the significant digits start at the fraction's first non-zero digit j. */
  lemma {:induction false} StrippedFractionOnly(ip: seq<byte>, f: seq<byte>, j: nat)
    requires LeadZeros(ip) == |ip|
    requires j < |f| && f[j] != ZERO && forall k :: 0 <= k < j ==> f[k] == ZERO
    ensures LeadZeros(ip + f) < |ip + f|
    ensures TrailZeros(ip + f) == TrailZeros(f) < |f|
    ensures Stripped(ip + f) == f[j..|f| - TrailZeros(f)]
  {
    ZerosOfFractionOnly(ip, f, j);
    SliceRight(ip, f, j, |f| - TrailZeros(f));
  }

  lemma {:induction false} ZerosOfFractionOnly(ip: seq<byte>, f: seq<byte>, j: nat)
    requires LeadZeros(ip) == |ip|
    requires j < |f| && f[j] != ZERO && forall k :: 0 <= k < j ==> f[k] == ZERO
    ensures LeadZeros(ip + f) == |ip| + j
    ensures TrailZeros(ip + f) == TrailZeros(f) < |f|
  {
    LeadZerosAppend(ip, f);
    LeadZerosIs(f, j);
    AllZerosBothEnds(f);
    TrailZerosAppend(ip, f);
  }

  lemma {:induction false} SliceRight<T>(a: seq<T>, b: seq<T>, p: nat, q: nat)
    requires p <= q <= |b|
    ensures (a + b)[|a| + p..|a| + q] == b[p..q]
  {
  }
}
