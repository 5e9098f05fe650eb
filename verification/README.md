# Minify: number, mediatype and data URI rewriting

A Dafny model of three byte-rewriting routines of the minifier's
`common.go`, with proofs of what each one promises.

- `Number` rewrites a decimal literal into its shortest equal form. It works
  in place in the caller's buffer:
  - it drops a leading `+` and keeps a `-`;
  - it trims leading zeros and the fraction's trailing zeros;
  - it folds the point and any integer trailing zeros into an exponent;
  - it writes one of three forms: scientific (`1e3`, `1e-4`), fixed point
    with a `.` (`1.5`, `.001`), or the digits with up to two `0`s appended
    (`100`).

  The model is a method over `array<byte>`, split into the scan, the trim,
  the fold and the writes, as the Go code does them. It is proved against a
  pure specification, `Number.Canonical`, which is built from the literal's
  parts: the sign, the significant digits and the net exponent. Lemmas about
  `Canonical` show five things:
  - the result denotes the same value as the input, taken as
    sign × mantissa × 10^exponent;
  - it is never longer than the input;
  - it starts with `-` exactly when the input is negative and non-zero;
  - it is in the form the exponent calls for;
  - minifying it again changes nothing.

  Every index and every `copy` in the `Number` method is checked against the
  buffer's bounds. They stay inside only because the model keeps the literal
  when its form would not fit, which the Go code does not do (see
  "## Findings").
- `ContentType` removes whitespace outside `"…"` from a mediatype with an
  in-place compaction loop, then ASCII-lowercases the result. The model is a
  method over `array<byte>`, proved against `MediaType.Minified`, which is the
  lowercasing of `Compacted`. Lemmas about `Minified` show that:
  - what is dropped is exactly the whitespace outside quotes;
  - the kept bytes stay in order;
  - the length falls by the number of dropped bytes;
  - the operation is idempotent.
- `DataURI` rewrites `data:[<mediatype>][;base64],<data>` (section 3 of RFC
  2397). The model covers the size decision that picks base64 (section 4 of
  RFC 4648) or percent-escaping, as the code makes it, and the reassembly of
  the URI. The decision as written miscounts (see "## Findings"); the
  corrected decision is `DataUri.Decide`, which `DataURI` does not use. The parser,
  the minifier dispatch, the base64 encoder and the query escaper are
  parameters of type `DataUri.Library`.

Bytes are modelled as `byte`, an `int` subtype in 0..255. Go's built-in
`copy` on one buffer is `Bytes.Copy`, which behaves like memmove.

## Model

| member | source | states |
|---|---|---|
| Number.Canonical | common.go:77-205 | The answer for a valid literal, as the code computes it: the literal less a `+` when the exponent does not parse or the form would not fit, `"0"` for zero, otherwise the sign and the form of the significand. It is never empty. |
| Number.FormatDigits | common.go:158-198 | The form chosen for the significant digits and net exponent. Its length is `FormattedLength`, and no digit is lost. |
| Number.Number | common.go:77-205 | For a valid literal, the result is `Canonical` of the input. It is either `"0"` or the window `num[lo..hi]` of the same buffer, and every array access and `copy` on the way stays inside the buffer. |
| Number.Analyse | common.go:79-155 | The scan, trim and fold settle what is written before any byte moves. Either the literal is kept from past a dropped `+` (the exponent does not parse, or the form would not fit), or the answer is `"0"`, or the significand is written with its net exponent. |
| Number.AnalyseDigits | common.go:113-130 | Once the exponent has parsed, trimming settles the answer: `"0"` when every digit is `0`, otherwise the folded significand or the kept literal. |
| Number.Scan | common.go:79-111 | Finds the literal's sign flag, the skipped `+`, the first digit, the point (the exponent's start when there is no point), the exponent's start, and the parsed exponent or its failure. |
| Number.ParseExponent | common.go:97-105 | Skips one `+` after the marker, then parses the rest as a signed integer; the parse fails on an empty or non-digit remainder. |
| Number.Trim | common.go:113-127 | `start` lands on the first significant digit. `end` lands after the fraction's last non-`0` digit, or on the point when the fraction is all zeros. `start == end` exactly when every digit is `0`. |
| Number.FoldPlan | common.go:133-155 | Gives the new exponent and the positions of the significand once integer trailing zeros and the point are folded away; the kept bytes are exactly the significant digits. |
| Number.FoldWhole | common.go:133-140 | With no fraction left, integer trailing zeros move into the exponent. |
| Number.FoldFractionOnly | common.go:141-150 | With an all-zero integer part, the fraction's leading zeros are skipped and its digits count against the exponent. |
| Number.FoldedBothParts | common.go:141-154 | With digits on both sides of the point, the point goes and the fraction digits lower the exponent by their count. |
| Number.FoldIntegerZeros | common.go:133-140 | The significand ends at the last non-`0` integer digit, and the exponent grows by the zeros after it. |
| Number.SignificandInFraction | common.go:143-150 | When the integer part is all zeros, the significand starts at the fraction's first non-`0` digit. |
| Number.AnalyseSignificand | common.go:133-155 | For a non-zero literal with a parsed exponent, the plan either keeps the literal (the form would not fit) or places exactly the significant digits with the net exponent. |
| Number.CanonicalLiteral | common.go:103-104 | An exponent that does not parse leaves the literal as it is, less a leading `+`. |
| Number.CanonicalUnfit | common.go:165-178 | A form that would run past the buffer is refused, and the literal is kept less a leading `+`. |
| Number.CanonicalFitting | common.go:158-204 | When the form fits, the answer is the sign followed by the form of the significand and its net exponent. |
| Number.FoldFraction | common.go:141-154 | A fraction with a non-`0` digit keeps its trailing zeros out. The net exponent falls by the number of kept fraction digits. |
| Number.FoldFractionZeros | common.go:143-150 | With an all-zero integer part, the significand starts at the first non-`0` fraction digit. |
| Number.FractionOnlyKept | common.go:143-150 | The fraction-only plan keeps exactly the significant digits. |
| Number.SignificandBothParts | common.go:151-154 | With digits on both sides of the point, the significand is the integer digits followed by the kept fraction digits. |
| Number.LastNonZero | common.go:134-140 | Returns the last non-`0` byte of the range; every byte after it is `0`. |
| Number.FirstNonZero | common.go:144-150 | Returns the first non-`0` byte of the range; every byte before it is `0`. |
| Number.Rewrite | common.go:158-204 | The buffer window `num[lo..hi]` becomes the sign followed by the chosen form of the kept digits. |
| Number.Compact | common.go:152-153 | After the overlapping copy, the integer digits are directly followed by the fraction digits. |
| Number.Emit | common.go:158-204 | Writes the chosen form of `num[start..end]`, then a `-` in front of it when negative. |
| Number.EmitDigits | common.go:158-198 | Writes `FormatDigits` of the significand from `start` on and leaves the bytes before `start` alone. |
| Number.WriteExponent | common.go:166-178 | After the digits come `e`, a `-` only for a negative exponent, and the magnitude's decimal digits. |
| Number.WriteDigits | common.go:173-177 | Writes the last `n` decimal digits of `x`, filling from the right. |
| Number.InsertPoint | common.go:180-183 | Inserts a `.` `relExp` digits into the significand; the other digits shift right by one. |
| Number.PadFraction | common.go:184-191 | Writes a `.`, then `-relExp` zeros, then the significand. |
| Number.FillZeros | common.go:187-189 | Writes `n` `0`s and nothing else. |
| Number.AppendZeros | common.go:193-197 | Appends exactly `e` `0`s, for `e` of 1 or 2. |
| NumberIdempotent.CanonicalIdempotent | common.go:77-205 | Minifying a minified literal changes nothing. The result is valid, and its canonical form is itself. |
| Literal.ParseInt | common.go:103 | The integer parse succeeds only with at least one digit after the optional sign. |
| Bytes.Copy | common.go:146 | Go's `copy` within one buffer: it copies min(room, length) bytes as if through a temporary, and nothing else changes. |
| NumberProps.CanonicalValue | common.go:77-205 | The result is a valid literal with no `+`. It decodes exactly when the input does, and then to the same value. It starts with `-` exactly when the input was negative and not a zero with a parsed exponent. |
| NumberProps.SignificandValue | common.go:113-155 | The significand and the net exponent left after trimming and folding denote the input's value. |
| NumberProps.ZeroValue | common.go:113-130 | A literal whose digits are all `0` decodes to zero, whatever its sign, point or exponent. |
| NumberProps.PlusDropped | common.go:84-92 | Dropping a leading `+` keeps the literal valid, unsigned and of the same value. |
| NumberProps.FormatDecodes | common.go:158-198 | Every output form decodes to sign × digits × 10^e. |
| NumberProps.PlainForm | common.go:159-164 | With net exponent 0, the bare digits decode to the digits' value. |
| NumberProps.ScientificForm | common.go:165-178 | The scientific form decodes to digits × 10^e. |
| NumberProps.PointForm | common.go:180-183 | A `.` inside the digits decodes to digits × 10^e. |
| NumberProps.FractionForm | common.go:184-191 | `.`, zeros and the digits decode to digits × 10^e. |
| NumberProps.ZerosForm | common.go:193-197 | Digits with one or two appended `0`s decode to digits × 10^e. |
| NumberProps.SciExpValue | common.go:166-178 | The written exponent part is a marker and digits, and it parses back to the exponent. |
| NumberFits.CanonicalLength | common.go:77-205 | The result is never longer than the input less a dropped `+`. |
| NumberFits.FitsUnlessNegativeScientific | common.go:158-198 | Every form except the scientific form with a negative exponent fits in the buffer from the first significant digit on. |
| NumberFits.OverrunWritesPastEnd | common.go:166-177 | `"9."`, k ≥ 91 nines and `"e-9"` (k + 5 bytes) need k + 6 bytes from the first digit on. As written, the code writes past the buffer; the model keeps the literal. |
| NumberForms.MarkerExactly | common.go:165-178 | An `e` appears exactly when `e + digits < -2` or `e > 2` (with `e != 0`). |
| NumberForms.PointExactly | common.go:179-191 | A `.` appears exactly when the exponent is negative and `e + digits >= -2`. |
| NumberForms.FirstByte | common.go:179-191 | The form never starts with `0`. It starts with `.` exactly for fixed-point values below one. |
| NumberForms.ExponentWritten | common.go:166-178 | The written exponent has no `+`, has a `-` exactly when negative, has no leading `0`, and reads back as the exponent. |
| NumberForms.RewrittenForm | common.go:158-204 | A rewritten literal is the sign followed by the form of its significand, whose first and last digits are not `0`. |
| NumberForms.FormChoice | common.go:158-198 | On the result itself: `e` exactly for the scientific case, `.` exactly for a fixed-point negative exponent, no `0` after the sign, and a leading `.` exactly below one. |
| NumberForms.ScientificResult | common.go:165-178 | A scientific result is the sign, the significant digits, `e`, an optional `-`, and the exponent's digits without a leading `0`. |
| NumberForms.WholeResult | common.go:192-198 | With net exponent 0, 1 or 2, the result is the sign, the significant digits (last one not `0`) and exactly that many `0`s. |
| NumberExamples.Thousand | common.go:165-178 | `"1000"` becomes `"1e3"`. |
| NumberExamples.Hundred | common.go:192-198 | `"100"` stays `"100"`. |
| NumberExamples.Thousandth | common.go:184-191 | `"0.001"` becomes `".001"`. |
| NumberExamples.TenThousandth | common.go:165-178 | `"0.0001"` becomes `"1e-4"`. |
| NumberExamples.TenBillion | common.go:165-178 | `"1e10"` stays `"1e10"`. |
| NumberExamples.PlusOnePointFive | common.go:180-183 | `"+1.5"` becomes `"1.5"`. |
| NumberExamples.Half | common.go:184-191 | `"0.5"` becomes `".5"`. |
| NumberExamples.OnePointZero | common.go:117-127 | `"1.0"` becomes `"1"`. |
| NumberExamples.TenPointZeroZero | common.go:117-127 | `"10.00"` becomes `"10"`. |
| NumberExamples.NegativeZero | common.go:113-130 | `"-0.0"` becomes `"0"`. |
| NumberExamples.UnparsedExponent | common.go:103-104 | `"+5e"` becomes `"5e"`: the exponent does not parse, so only the `+` goes. |
| MediaType.Compacted | common.go:24-37 | The bytes kept by the whitespace removal; never longer than the input. |
| MediaType.Minified | common.go:20-41 | The mediatype's minified form: never longer than the input, and with no upper-case letter. |
| MediaType.ContentType | common.go:20-41 | The result is the input with unquoted whitespace removed, then lowercased. It is the buffer's first `|r|` bytes, and the bytes after it are unchanged. |
| MediaType.Compact | common.go:21-37 | The buffer's prefix becomes the compacted input; the bytes after it are unchanged. |
| MediaType.Advance | common.go:24-35 | One iteration keeps the loop invariant. The written prefix plus the pending run is the compaction of what has been scanned, and the quote state is the parity of `"` so far. |
| MediaType.Flush | common.go:26-27 | The copy moves the pending run to the write cursor, and nothing after it changes. |
| MediaType.ToLower | common.go:38-40 | The prefix is ASCII-lowercased in place, and the rest of the buffer is untouched. |
| MediaType.Lower | common.go:38-40 | No upper-case letter is left, and every other byte stays. |
| MediaType.Step | common.go:24-34 | One input byte flips the quote state exactly when it is `"`. It is appended either to the kept bytes or, when it is unquoted whitespace, to the dropped ones. |
| MediaType.Split | common.go:24-37 | The kept and the dropped bytes have the input's length and its multiset of bytes. |
| MediaType.NothingToDrop | common.go:24-37 | With no whitespace outside quotes, compaction keeps every byte. |
| MediaType.CompactedClean | common.go:24-31 | No whitespace outside quotes is left. |
| MediaType.Partition | common.go:24-37 | The kept and the dropped bytes together are the input, as a multiset and in total length, and only whitespace is dropped. |
| MediaType.KeptInOrder | common.go:24-37 | Every byte that is not whitespace, or that is quoted, is kept, and kept bytes keep their relative order. |
| MediaType.QuotedCompacted | common.go:32-33 | Dropping keeps the quote state: every `"` is kept, and the state flips on each one. |
| MediaType.QuotedLower | common.go:38-40 | Lowercasing changes no `"`. |
| MediaType.NothingDropped | common.go:24-37 | Compaction leaves the input as it is exactly when there is no whitespace outside quotes. |
| MediaType.MinifiedLength | common.go:20-41 | The result's length is the input's length less the number of dropped bytes. |
| MediaType.MinifiedPlain | common.go:40 | With no whitespace outside quotes, the result is the lowercased input. |
| MediaType.MinifiedIdempotent | common.go:20-41 | Minifying a minified mediatype changes nothing. |
| DataUri.Minified | common.go:44-74 | A URI the parser rejects is returned unchanged; any other result starts with `data:`. The encoding is chosen by the estimate as written. |
| DataUri.DataURI | common.go:44-74 | The result is `Minified`: `data:`, the mediatype (with `;base64` when encoded, less a leading `text/plain`), `,`, and the payload. The choice is the code's own estimate. A URI that does not parse is returned unchanged. |
| DataUri.DecideAsWritten | common.go:47-59 | The loop as written picks base64 exactly when `len + Σ(1 per unreserved byte, 2 per other byte)` exceeds `7 + EncodedLen(len)`; the early `break` never changes the outcome. |
| DataUri.Decide | common.go:47-59 | Not used by `DataURI`. The corrected loop picks base64 exactly when the percent-escaped length exceeds the base64 length, again with an early exit that never changes the outcome. |
| DataUri.EstimateOvercounts | common.go:48-54 | The estimate as written is the percent-escaped length plus one for each unreserved byte. |
| DataUri.PlainTextEncoded | common.go:47-59 | As written, an all-unreserved payload is base64-encoded exactly when it has 12 or at least 14 bytes, although its escaped form is always shorter. The corrected choice keeps it escaped. |
| DataUri.PlainTextStaysEscaped | common.go:47-59 | Under the corrected choice, an all-unreserved payload is never base64-encoded. |
| DataUri.BinaryEncoded | common.go:47-59 | Under the corrected choice, a payload of 6 or more bytes that all need escaping is base64-encoded. |
| DataUri.EncodedLenPadded | common.go:47 | `EncodedLen(n)` is the least multiple of 4 that is at least 4n/3. |
| DataUri.EscapeQuotes | common.go:66 | Every `"` gets a `\` in front. The length grows to at most twice the input, and a payload without `"` is unchanged. |
| DataUri.EscapeQuotesRoundTrip | common.go:66 | Escaping `"` as `\"` loses nothing: reading `\"` back as `"` restores the payload. |
| DataUri.Assembled | common.go:59-71 | A parsed URI begins with `data:`, has `,` right after the mediatype, then the payload, and the mediatype ends in `;base64` whenever the estimate as written chooses base64. |
| DataUri.StripTextPlain | common.go:68-70 | A leading `text/plain` is removed exactly when present; otherwise the mediatype is kept whole. |
| DataUri.MarkKept | common.go:63-70 | Stripping `text/plain` never removes an appended `;base64`. |
| DataUri.TextPlainDropped | common.go:68-70 | A mediatype starting with `text/plain` loses exactly that prefix; any other mediatype is kept whole. |

## Left out

- Number.Number: requires a lexically valid literal: an optional sign, digits with at most one `.` and at least one digit, and an optional `e`/`E` with an optional sign and digits. The lexer that guarantees this is not part of this model. An exponent with no digits is allowed, so the parse-failure path is reachable.
- Number.Number: requires `|exponent| + length < 2^63`, so that Go's `int64` exponent arithmetic does not overflow; the wrap-around is not modelled.
- Number.Number: models the corrected behaviour of the overrun in "## Findings". A form that would not fit is refused before any byte moves, and the literal is returned less a dropped `+`; as written, the Go code indexes past the slice.
- `math.Log10` (common.go:173) is replaced by an exact integer digit count (`Decimal.NumDigits`). Its floating-point rounding is not modelled.
- `parse.Int`, `parse.IsWhitespace` and `parse.ToLower` are not part of this model:
  - `parse.Int` becomes `Literal.ParseInt`: an optional sign and one or more digits, or failure.
  - `parse.IsWhitespace` becomes `MediaType.IsWhitespace`: space, tab, line feed, form feed, carriage return.
  - `parse.ToLower` becomes `MediaType.Lower`: ASCII A–Z to a–z.
- The shared `zeroBytes` slice is returned as the value `"0"`; aliasing of that global is not modelled.
- DataUri.DataURI: the data URI parser, the minifier dispatch `Bytes`, the base64 encoder and `url.QueryEscape` are uninterpreted parameters (`DataUri.Library`). So the model does not tie the encoded or escaped payload to `EncodedLen` or `EscapedLen`. The error from `Bytes` is ignored, as in the source.
- `Epsilon` (common.go:13) is an unused floating-point global.

## Findings

| source | as written | input that shows it | evidently intended | confidence | as-written member | corrected member |
|---|---|---|---|---|---|---|
| common.go:166-177 | The scientific form with a negative exponent is written from the first significant digit with no check against the buffer's length. | `"9."` followed by 91 `9`s and `"e-9"` (96 bytes) needs 97 bytes as `9…9e-100`, so `num[end]` runs past the slice. | A rewrite is never longer than the literal; keep the literal when the form does not fit. | not executed; the overrun is proved for every such input from 91 nines on | NumberFits.OverrunWritesPastEnd | NumberFits.CanonicalLength |
| common.go:48-54 | The escape estimate starts at `len(data)` and adds 1 per unreserved byte and 2 per other byte, so every unreserved byte is counted twice. | A payload of exactly 12, or of 14 or more, unreserved bytes, e.g. 12 × `a`: the estimate is 24 > 23, so base64 (23 bytes) is chosen over the 12-byte escaped form. | Start at `len(data)` and add 2 only per byte that needs escaping, which is the escaped length. | not executed; the choice is proved for every all-unreserved payload, with the exact set of lengths | DataUri.PlainTextEncoded | DataUri.Decide |
