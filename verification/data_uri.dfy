/**
 * Minifying a data URI, `data:[<mediatype>][;base64],<data>` (section 3 of
 * RFC 2397): the payload is minified by its mediatype, then written either
 * base64-encoded (section 4 of RFC 4648) or percent-escaped as a query
 * component, whichever a size estimate says is shorter, and the URI is
 * reassembled with a `text/plain` mediatype dropped, since it is the default.
 */
module DataUri {
  import opened Bytes
  import Literal

  const COMMA: byte := 44
  const UNDERSCORE: byte := 95
  const TILDE: byte := 126
  const BACKSLASH: byte := 92

  /** "data:" */
  const DATA_SCHEME: seq<byte> := [100, 97, 116, 97, 58]
  /** ";base64" */
  const BASE64_MARK: seq<byte> := [59, 98, 97, 115, 101, 54, 52]
  /** "text/plain" */
  const TEXT_PLAIN: seq<byte> := [116, 101, 120, 116, 47, 112, 108, 97, 105, 110]

  /**
   * The library calls the minifier makes, whose code is not part of this
   * model: the data URI parser (mediatype and data, or an error), the
   * minifier dispatch by mediatype (whose error is ignored), the base64
   * encoder and the query escaper.
   */
  datatype Library = Library(
    parse: seq<byte> -> Literal.Option<(seq<byte>, seq<byte>)>,
    minify: (seq<byte>, seq<byte>) -> seq<byte>,
    base64: seq<byte> -> seq<byte>,
    escape: seq<byte> -> seq<byte>)

  /** Bytes a query escape writes as one byte: letters, digits, "-_.~", and the space (as '+'). */
  predicate Unreserved(c: byte) {
    UPPER_A <= c <= UPPER_Z || LOWER_A <= c <= LOWER_Z || ZERO <= c <= NINE
    || c == MINUS || c == UNDERSCORE || c == DOT || c == TILDE || c == SPACE
  }

  /** Padded base64 length of n bytes: 4 bytes per started group of 3. */
  function EncodedLen(n: nat): nat {
    (n + 2) / 3 * 4
  }

  /** What the base64 form costs: ";base64" and the encoded bytes. */
  function Base64Len(n: nat): nat {
    |BASE64_MARK| + EncodedLen(n)
  }

  /** The number of bytes of `t` that are not unreserved. */
  function ReservedCount(t: seq<byte>): (k: nat)
    ensures k <= |t|
  {
    if t == [] then 0 else ReservedCount(t[..|t| - 1]) + (if Unreserved(t[|t| - 1]) then 0 else 1)
  }

  /** The length of `t` percent-escaped: one byte per unreserved byte, three ("%XY") per other byte. */
  function EscapedLen(t: seq<byte>): nat {
    |t| + 2 * ReservedCount(t)
  }

  /** The estimate as the code accumulates it: `len(t)`, then 1 per unreserved byte and 2 per other byte. */
  function WrittenEstimate(t: seq<byte>): nat {
    if t == [] then 0
    else WrittenEstimate(t[..|t| - 1]) + (if Unreserved(t[|t| - 1]) then 1 else 2)
  }

  /** The choice as written: base64 when `len(t)` plus the accumulated estimate exceeds the base64 cost. */
  predicate ChoosesBase64AsWritten(t: seq<byte>) {
    |t| + WrittenEstimate(t) > Base64Len(|t|)
  }

  /** The intended choice: base64 exactly when the percent-escaped form would be longer. */
  predicate ChoosesBase64(t: seq<byte>) {
    EscapedLen(t) > Base64Len(|t|)
  }

  /**
   * The size decision as written, with its early exit once the estimate
   * passes the base64 cost; the exit never changes the outcome of the full
   * scan.
   */
  method DecideAsWritten(t: seq<byte>) returns (useBase64: bool)
    ensures useBase64 == ChoosesBase64AsWritten(t)
  {
    var base64Len := Base64Len(|t|);
    var asciiLen := |t|;
    var i := 0;
    while i < |t|
      invariant i <= |t| && asciiLen == |t| + WrittenEstimate(t[..i])
    {
      assert t[..i + 1][..i] == t[..i];
      if Unreserved(t[i]) {
        asciiLen := asciiLen + 1;
      } else {
        asciiLen := asciiLen + 2;
      }
      if asciiLen > base64Len {
        WrittenEstimatePrefix(t, i + 1);
        break;
      }
      i := i + 1;
    }
    if i == |t| {
      assert t[..i] == t;
    }
    useBase64 := asciiLen > base64Len;
  }

  /**
   * The corrected size decision, with the estimate the percent escape
   * actually costs: `len(t)` and 2 more per byte that needs escaping, with
   * the same early exit, which again never changes the outcome. The
   * minifier as written decides by `DecideAsWritten`.
   */
  method Decide(t: seq<byte>) returns (useBase64: bool)
    ensures useBase64 == ChoosesBase64(t)
  {
    var base64Len := Base64Len(|t|);
    var asciiLen := |t|;
    var i := 0;
    while i < |t|
      invariant i <= |t| && asciiLen == EscapedLen(t[..i]) + (|t| - i)
    {
      assert t[..i + 1][..i] == t[..i];
      if !Unreserved(t[i]) {
        asciiLen := asciiLen + 2;
      }
      if asciiLen > base64Len {
        ReservedCountPrefix(t, i + 1);
        break;
      }
      i := i + 1;
    }
    if i == |t| {
      assert t[..i] == t;
    }
    useBase64 := asciiLen > base64Len;
  }

  /** The estimate of a prefix is no more than that of the whole. */
  lemma {:induction false} WrittenEstimatePrefix(t: seq<byte>, n: nat)
    requires n <= |t|
    ensures WrittenEstimate(t[..n]) <= WrittenEstimate(t)
    decreases |t| - n
  {
    if n < |t| {
      assert t[..n + 1][..n] == t[..n];
      WrittenEstimatePrefix(t, n + 1);
    } else {
      assert t[..n] == t;
    }
  }

  /** A prefix has no more bytes to escape than the whole. */
  lemma {:induction false} ReservedCountPrefix(t: seq<byte>, n: nat)
    requires n <= |t|
    ensures ReservedCount(t[..n]) <= ReservedCount(t)
    decreases |t| - n
  {
    if n < |t| {
      assert t[..n + 1][..n] == t[..n];
      ReservedCountPrefix(t, n + 1);
    } else {
      assert t[..n] == t;
    }
  }

  /** The written estimate is the escaped length plus one for every unreserved byte. */
  lemma {:induction false} EstimateOvercounts(t: seq<byte>)
    ensures |t| + WrittenEstimate(t) == EscapedLen(t) + (|t| - ReservedCount(t))
    decreases |t|
  {
    if t != [] {
      EstimateOvercounts(t[..|t| - 1]);
    }
  }

  /**
   * A payload of unreserved bytes only is base64-encoded as written exactly
   * when it has 12 or at least 14 bytes, although its percent-escaped form is
   * always shorter than the base64 form; the intended choice keeps it escaped.
   */
  lemma {:induction false} PlainTextEncoded(t: seq<byte>)
    requires forall i :: 0 <= i < |t| ==> Unreserved(t[i])
    ensures ReservedCount(t) == 0 && EscapedLen(t) == |t| < Base64Len(|t|)
    ensures ChoosesBase64AsWritten(t) <==> |t| == 12 || |t| >= 14
    ensures !ChoosesBase64(t)
  {
    NoneReserved(t);
    EstimateOvercounts(t);
    DoubleExceeds(|t|);
  }

  /** Twice n exceeds the base64 cost of n bytes exactly for n = 12 and n >= 14. */
  lemma {:induction false} DoubleExceeds(n: nat)
    ensures 2 * n > Base64Len(n) <==> n == 12 || n >= 14
  {
    var q, r := n / 3, n % 3;
    assert n == 3 * q + r;
    assert (n + 2) / 3 == if r == 0 then q else q + 1;
  }

  lemma {:induction false} NoneReserved(t: seq<byte>)
    requires forall i :: 0 <= i < |t| ==> Unreserved(t[i])
    ensures ReservedCount(t) == 0
    decreases |t|
  {
    if t != [] {
      NoneReserved(t[..|t| - 1]);
    }
  }

  /** With the intended estimate, a payload of unreserved bytes only is never base64-encoded, whatever its length. */
  lemma {:induction false} PlainTextStaysEscaped(t: seq<byte>)
    requires forall i :: 0 <= i < |t| ==> Unreserved(t[i])
    ensures EscapedLen(t) == |t| && !ChoosesBase64(t)
  {
    NoneReserved(t);
  }

  /** With the intended estimate, a payload of 6 or more bytes that all need escaping is base64-encoded. */
  lemma {:induction false} BinaryEncoded(t: seq<byte>)
    requires |t| >= 6 && forall i :: 0 <= i < |t| ==> !Unreserved(t[i])
    ensures EscapedLen(t) == 3 * |t| && ChoosesBase64(t)
  {
    AllReserved(t);
  }

  lemma {:induction false} AllReserved(t: seq<byte>)
    requires forall i :: 0 <= i < |t| ==> !Unreserved(t[i])
    ensures ReservedCount(t) == |t|
    decreases |t|
  {
    if t != [] {
      AllReserved(t[..|t| - 1]);
    }
  }

  /**
   * The padded base64 length is the least multiple of 4 that holds 4 bytes
   * for every 3 input bytes (section 4 of RFC 4648).
   */
  lemma {:induction false} EncodedLenPadded(n: nat)
    ensures EncodedLen(n) % 4 == 0 && 3 * EncodedLen(n) >= 4 * n
    ensures EncodedLen(n) < 4 || 3 * (EncodedLen(n) - 4) < 4 * n
  {
  }

  /**
   * `bytes.Replace(t, "\"", "\\\"", -1)`: every '"' gets a '\' in front of
   * it, so the result grows by one byte per '"' and a payload without '"'
   * is left as it is.
   */
  function EscapeQuotes(t: seq<byte>): (r: seq<byte>)
    ensures |t| <= |r| <= 2 * |t|
    ensures (forall i :: 0 <= i < |t| ==> t[i] != QUOTE) ==> r == t
  {
    if t == [] then []
    else (if t[0] == QUOTE then [BACKSLASH, QUOTE] else [t[0]]) + EscapeQuotes(t[1..])
  }

  /** Reading back `\"` as '"' and every other byte as itself. */
  function UnescapeQuotes(u: seq<byte>): seq<byte> {
    if u == [] then []
    else if |u| >= 2 && u[0] == BACKSLASH && u[1] == QUOTE then [QUOTE] + UnescapeQuotes(u[2..])
    else [u[0]] + UnescapeQuotes(u[1..])
  }

  /** The escaped bytes never start with a bare '"'. */
  lemma {:induction false} EscapedHead(t: seq<byte>)
    requires t != []
    ensures EscapeQuotes(t) != [] && EscapeQuotes(t)[0] != QUOTE
  {
  }

  /** Escaping the quotes loses nothing: reading the result back gives the bytes escaped. */
  lemma {:induction false} EscapeQuotesRoundTrip(t: seq<byte>)
    ensures UnescapeQuotes(EscapeQuotes(t)) == t
    decreases |t|
  {
    if t != [] {
      EscapeQuotesRoundTrip(t[1..]);
      var rest := EscapeQuotes(t[1..]);
      if t[0] == QUOTE {
        assert ([BACKSLASH, QUOTE] + rest)[2..] == rest;
      } else {
        if t[1..] != [] {
          EscapedHead(t[1..]);
        }
        assert ([t[0]] + rest)[1..] == rest;
      }
    }
  }

  /** Drops a leading "text/plain", the default mediatype: exactly that prefix goes when present, else nothing. */
  function StripTextPlain(m: seq<byte>): (r: seq<byte>)
    ensures r == m || m == TEXT_PLAIN + r
    ensures m == TEXT_PLAIN + r <==> |m| >= |TEXT_PLAIN| && m[..|TEXT_PLAIN|] == TEXT_PLAIN
  {
    if |m| >= |TEXT_PLAIN| && m[..|TEXT_PLAIN|] == TEXT_PLAIN then m[|TEXT_PLAIN|..] else m
  }

  /** The mediatype written back: ";base64" appended when base64 is chosen, then "text/plain" stripped. */
  function MediaTypeOut(m: seq<byte>, useBase64: bool): seq<byte> {
    StripTextPlain(if useBase64 then m + BASE64_MARK else m)
  }

  /** The payload written back: base64-encoded, or query-escaped with its quotes escaped. */
  function PayloadOut(lib: Library, d: seq<byte>, useBase64: bool): seq<byte> {
    if useBase64 then lib.base64(d) else EscapeQuotes(lib.escape(d))
  }

  /**
   * What the minifier returns for a data URI: a URI the parser rejects comes
   * back as it is; any other starts with "data:".
   */
  function Minified(lib: Library, uri: seq<byte>): (r: seq<byte>)
    ensures lib.parse(uri).None? ==> r == uri
    ensures lib.parse(uri).Some? ==> |r| > |DATA_SCHEME| && r[..|DATA_SCHEME|] == DATA_SCHEME
  {
    match lib.parse(uri)
    case None => uri
    case Some(parts) =>
      var d := lib.minify(parts.0, parts.1);
      var b := ChoosesBase64AsWritten(d);
      DATA_SCHEME + MediaTypeOut(parts.0, b) + [COMMA] + PayloadOut(lib, d, b)
  }

  /**
   * DataURI: parses the URI, minifies its data by its mediatype, chooses the
   * encoding, and writes `data:`, the mediatype, ',' and the payload; a URI
   * that does not parse comes back unchanged.
   */
  method DataURI(lib: Library, uri: seq<byte>) returns (r: seq<byte>)
    ensures r == Minified(lib, uri)
  {
    var parsed := lib.parse(uri);
    if parsed.None? {
      return uri;
    }
    var mediatype, data := parsed.value.0, parsed.value.1;
    var d := lib.minify(mediatype, data);
    var useBase64 := DecideAsWritten(d);
    var payload;
    if useBase64 {
      payload := lib.base64(d);
      mediatype := mediatype + BASE64_MARK;
    } else {
      payload := EscapeQuotes(lib.escape(d));
    }
    if |mediatype| >= |TEXT_PLAIN| && mediatype[..|TEXT_PLAIN|] == TEXT_PLAIN {
      mediatype := mediatype[|TEXT_PLAIN|..];
    }
    r := DATA_SCHEME + mediatype + [COMMA] + payload;
  }

  /**
   * A parsed URI is written as "data:", the mediatype, ',' and the payload,
   * and the mediatype ends in ";base64" whenever the payload is base64.
   */
  lemma {:induction false} Assembled(lib: Library, uri: seq<byte>)
    requires lib.parse(uri).Some?
    ensures var (m, data) := lib.parse(uri).value;
      var d := lib.minify(m, data);
      var mt := MediaTypeOut(m, ChoosesBase64AsWritten(d));
      var r := Minified(lib, uri);
      r[..|DATA_SCHEME|] == DATA_SCHEME
      && r[|DATA_SCHEME| + |mt|] == COMMA
      && r[|DATA_SCHEME| + |mt| + 1..] == PayloadOut(lib, d, ChoosesBase64AsWritten(d))
      && (ChoosesBase64AsWritten(d) ==> |mt| >= |BASE64_MARK| && mt[|mt| - |BASE64_MARK|..] == BASE64_MARK)
  {
    var (m, data) := lib.parse(uri).value;
    var d := lib.minify(m, data);
    var b := ChoosesBase64AsWritten(d);
    var mt := MediaTypeOut(m, b);
    var p := PayloadOut(lib, d, b);
    Parts(DATA_SCHEME, mt, [COMMA], p);
    if b {
      MarkKept(m);
    }
  }

  lemma {:induction false} Parts<T>(a: seq<T>, b: seq<T>, c: seq<T>, d: seq<T>)
    requires |c| == 1
    ensures (a + b + c + d)[..|a|] == a
    ensures (a + b + c + d)[|a| + |b|] == c[0]
    ensures (a + b + c + d)[|a| + |b| + 1..] == d
  {
  }

  /** Stripping "text/plain" never touches an appended ";base64". */
  lemma {:induction false} MarkKept(m: seq<byte>)
    ensures var mt := StripTextPlain(m + BASE64_MARK);
      |mt| >= |BASE64_MARK| && mt[|mt| - |BASE64_MARK|..] == BASE64_MARK
  {
    var t := m + BASE64_MARK;
    if |m| < |TEXT_PLAIN| {
      NotTextPlain(m);
    } else if t[..|TEXT_PLAIN|] == TEXT_PLAIN {
      assert t[|TEXT_PLAIN|..] == m[|TEXT_PLAIN|..] + BASE64_MARK;
    }
  }

  /** A mediatype shorter than "text/plain" does not start with it once ";base64" is appended. */
  lemma {:induction false} NotTextPlain(m: seq<byte>)
    requires |m| < |TEXT_PLAIN|
    ensures StripTextPlain(m + BASE64_MARK) == m + BASE64_MARK
  {
    var t := m + BASE64_MARK;
    if |t| >= |TEXT_PLAIN| {
      // the last byte of "text/plain", 'n', would fall inside ";base64"
      assert t[|TEXT_PLAIN| - 1] == BASE64_MARK[|TEXT_PLAIN| - 1 - |m|];
    }
  }

  /**
   * A mediatype starting with "text/plain" loses exactly that prefix; any
   * other mediatype is kept whole.
   */
  lemma {:induction false} TextPlainDropped(m: seq<byte>, useBase64: bool)
    ensures |m| >= |TEXT_PLAIN| && m[..|TEXT_PLAIN|] == TEXT_PLAIN ==>
      MediaTypeOut(m, useBase64) == m[|TEXT_PLAIN|..] + (if useBase64 then BASE64_MARK else [])
    ensures !(|m| >= |TEXT_PLAIN| && m[..|TEXT_PLAIN|] == TEXT_PLAIN) ==>
      MediaTypeOut(m, useBase64) == m + (if useBase64 then BASE64_MARK else [])
  {
    var t := if useBase64 then m + BASE64_MARK else m;
    assert t == m + (if useBase64 then BASE64_MARK else []);
    if |m| >= |TEXT_PLAIN| {
      assert t[..|TEXT_PLAIN|] == m[..|TEXT_PLAIN|];
      assert t[|TEXT_PLAIN|..] == m[|TEXT_PLAIN|..] + (if useBase64 then BASE64_MARK else []);
    } else if useBase64 {
      NotTextPlain(m);
    }
  }
}
