# interpolateParams in Dafny

A model of xorm's client-side parameter interpolator, `interpolateParams.go`. The interpolator
takes a query with `?` placeholders and a list of arguments. It returns one SQL statement in
which every `?` is replaced by the literal of the matching argument:

- `NULL` for nil;
- decimal text for integers;
- `1`/`0` for booleans;
- `'YYYY-MM-DD[ HH:MM:SS[.ffffff]]'` for times;
- quoted text with every `'` doubled for strings, `json.RawMessage` and `[]byte`. A `[]byte`
  literal is written as `_binary'…'`.

The model keeps the source's imperative shape:

- The output buffer is a class, `Buffer.ByteBuf`, with a backing `array` and a length.
  `reserveBuffer` and Go's `append` are its methods.
- `escapeBytesQuotes`, `escapeStringQuotes` and `appendDateTime` are loops and array writes over
  that buffer.
- `interpolateParams` is a method whose loop finds each `?` with `IndexByte`.

Each method is proved against a pure specification function:

- `Escape.Escape`;
- `Timestamp.DateTimeText`;
- `Interpolate.EncodeArg`;
- `Interpolate.Render`, the statement byte by byte.

The lemmas state what the source promises of those functions:

- The quote-doubling round-trips.
- An escaped literal closes exactly at its closing quote when the placeholder stands outside any
  quoted text of the query and the text after that quote does not start with a quote. This is the
  injection-safety argument under the standard SQL quoting rule
  (see "Left out" for MySQL's backslash escapes). Two literals written back to back read as one
  literal, which still closes at the last closing quote.
- The rounding's carry out of the second is the immediately next second.
- The date-time text has 10, 19 or 26 bytes and reads back as the rounded time.
- The statement succeeds exactly when the placeholder count matches and every argument encodes.
  It is then the query's pieces between placeholders with the literals in between. Putting the
  `?` bytes back between those pieces gives the query itself.
- The failures are exactly the three reachable errors.

Modules, one per file:

- `Bytes`: bytes, `strings.Count` and `strings.IndexByte`.
- `Errors`: error values, `Option` and `Result`.
- `Decimal`: the digit tables and decimal text.
- `Buffer`: the output buffer.
- `Escape`: the quote escaper.
- `Timestamp`: `appendDateTime`.
- `Interpolate`: the argument encoder and `interpolateParams`.

An `interface{}` argument is the datatype `Interpolate.Arg`. It has one variant per case of the
type switch, and `Other` for `default`. A `time.Time` is given by its fields in UTC.

Four consequences of the code that a caller may not expect:

- **Success.** A call whose placeholder count matches can still fail, on an argument of unknown
  type or on a time whose rounded year is out of range. `Interpolate.InterpolateOk` states the
  exact condition.
- **Year range.** The year is checked after the half-microsecond rounding. So the last half
  microsecond of year 9999 fails and the last half microsecond of year 0 succeeds.
  `Timestamp.YearRange` states this.
- **Adjacent placeholders.** A query with `??` (or `?'`) puts a quote right after a literal's
  closing quote. SQL then reads the two quoted literals as one: `'a''b'` is the single text
  `a'b`. When the placeholders stand outside quoted text of the query, no argument byte leaves
  the quotes, but the two arguments are no longer separate.
  `Escape.AdjacentLiteralsMerge` states this.
- **Quote before a placeholder.** A placeholder inside a quoted literal of the query, as in
  `name = '?'`, is not protected by the escaping. The query `'?'` with a string argument becomes
  `''` + escaped payload + `''`. The argument's opening quote closes the query's literal, so the
  escaped payload is read as SQL text. `Interpolate.QuotedPlaceholder` and
  `Escape.QuoteBeforePlaceholder` state this.

## Model

| member | source | states |
|---|---|---|
| Errors.Error | interpolateParams.go:17-24 | defines the interpolator's errors: ErrInvalidArgs, ErrInvalidParseArgs, the year error of appendDateTime (:89) and the unknown-type error of the `default` branch (:199), which keeps only the 1-based argument position |
| Decimal.DigitTables | interpolateParams.go:12-15 | entry n of digits10 and of digits01 are the tens and the units digit of n, so the two lookups give n's two-digit zero-padded text |
| Decimal.PadDecimalRoundTrip | interpolateParams.go:95-121 | a zero-padded field of `width` digits is `width` decimal digits that read back as the value written |
| Decimal.FormatUintCanonical | interpolateParams.go:158-160 | the uint64 text is non-empty, all digits, has no leading zero unless it is "0", and reads back as the value |
| Decimal.FormatUint | interpolateParams.go:158-160 | defines strconv.AppendUint in base 10: the digits of n, most significant first, with no leading zero |
| Decimal.FormatInt | interpolateParams.go:154-157 | defines strconv.AppendInt in base 10: a `-` for negative values, then the digits of the magnitude |
| Decimal.FormatIntSign | interpolateParams.go:154-157 | the int/int64 text starts with '-' exactly for negative values, and its digits read back as the magnitude |
| Buffer.ByteBuf | interpolateParams.go:26-37 | the `[]byte` output slice: a backing array whose length is the capacity, and a length that never exceeds it |
| Buffer.ByteBuf.constructor | interpolateParams.go:132 | `var buf []byte`: the nil slice, with no bytes and capacity 0 |
| Buffer.ByteBuf.Reserve | interpolateParams.go:26-37 | the length grows by appendSize and the written bytes are kept; when the capacity is too small the array is a fresh one of capacity 2*len+appendSize, otherwise it is the same array |
| Buffer.ByteBuf.Append | interpolateParams.go:139 | Go's append: the contents become the old contents followed by exactly the appended bytes |
| Bytes.CountByte | interpolateParams.go:128 | defines strings.Count for the one-byte separator `?`: the number of its occurrences, never more than the length |
| Bytes.CountByteZero | interpolateParams.go:128 | strings.Count of a byte is zero exactly when the byte does not occur |
| Bytes.CountByteAppend | interpolateParams.go:128 | strings.Count is additive over concatenation |
| Bytes.IndexByte | interpolateParams.go:137 | strings.IndexByte is -1 exactly when the byte is absent; otherwise the byte is at the result and not before it |
| Escape.Escape | interpolateParams.go:43-52 | defines what both escape loops write: each byte of the payload in order, a `'` written as `''` |
| Escape.PutEscaped | interpolateParams.go:44-51 | one turn of the escape loop writes the escaping of one byte at the cursor (two quotes for a quote, the byte otherwise) and advances the cursor by its length |
| Escape.EscapeBytesQuotes | interpolateParams.go:39-55 | the buffer becomes its old contents followed by the payload with every quote doubled |
| Escape.EscapeStringQuotes | interpolateParams.go:57-75 | the same for a string indexed byte by byte |
| Escape.EscapeLength | interpolateParams.go:39-55 | the escaped payload is the payload's length plus one byte per quote, so it fits the 2*len(v) reserved |
| Escape.EscapeDoublesQuotes | interpolateParams.go:39-55 | escaping exactly doubles the number of quotes |
| Escape.UnescapeEscape | interpolateParams.go:39-55 | collapsing the doubled quotes of an escaped payload gives the payload back |
| Escape.EscapeUnescape | interpolateParams.go:39-55 | every text that collapses to v without error is exactly the escaping of v |
| Escape.EscapedLiteralCloses | interpolateParams.go:181-197 | when the text after the closing quote does not start with a quote, an escaped payload followed by the closing quote is read by SQL's quoted-literal rule as exactly that payload, and reading resumes right after the closing quote |
| Escape.ReadAfterEscape | interpolateParams.go:43-52 | reading an escaped payload followed by any text gives the payload, then whatever that text reads as |
| Escape.QuoteBeforePlaceholder | interpolateParams.go:137-146 | when the query has a quote right before the placeholder and the payload starts with a non-quote byte, the quoted text ends at the argument's opening quote and the escaped payload follows as SQL text |
| Escape.AdjacentLiteralsMerge | interpolateParams.go:195-197 | two escaped literals written back to back, as a query with `??` makes them, read as one literal holding v, a quote and w, closing at the last quote when the next byte is not a quote |
| Timestamp.DateTime | interpolateParams.go:78-85 | a time.Time taken apart in UTC into the fields t.Date(), t.Clock() and t.Nanosecond() give |
| Timestamp.UtcTime | interpolateParams.go:78-85 | the field ranges of a normalized time: month 1-12, a day within its month (leap years counted), hour, minute, second and nanosecond in range |
| Timestamp.IsZero | interpolateParams.go:170 | defines time.Time.IsZero on the UTC fields: the instant 0001-01-01 00:00:00.000000000 |
| Timestamp.NextSecond | interpolateParams.go:81 | defines the carry of t.Add out of the second: the same nanosecond one second later, carrying into minutes, hours, days (by month length and leap year), months and years |
| Timestamp.AddHalfMicrosecond | interpolateParams.go:81-82 | defines t.Add(500ns): the nanoseconds plus 500, carrying into NextSecond on overflow |
| Timestamp.RoundToMicro | interpolateParams.go:78-83 | defines the rounding: add 500ns exactly when the sub-microsecond part is at least 500ns |
| Timestamp.DateTimeText | interpolateParams.go:77-124 | defines what appendDateTime appends: the layout of the rounded time, or the year error when its year is outside [1, 9999] |
| Timestamp.Layout | interpolateParams.go:91-123 | defines the text of a rounded time: YYYY-MM-DD, then " HH:MM:SS" unless it is midnight, then ".ffffff" unless the microseconds are 0 |
| Timestamp.RoundHalfUp | interpolateParams.go:78-86 | the +500ns rounding is half-up to the microsecond: away from the end of a second only the nanoseconds change and the microseconds are within half a microsecond; at the end of a second it carries into the next second with zero microseconds |
| Timestamp.NextSecondIsLater | interpolateParams.go:81 | the carry of t.Add moves to a strictly later second and keeps the nanoseconds |
| Timestamp.NextSecondImmediate | interpolateParams.go:81 | no well-formed time lies strictly between t and NextSecond(t): the carry is the immediately next second and skips no valid minute, hour, day or month |
| Timestamp.AddHalfMicrosecondCarry | interpolateParams.go:81-82 | when adding 500ns overflows the second, the result is later than t, carries the overflow nanoseconds, and is the immediately next second |
| Timestamp.RoundingKeepsYear | interpolateParams.go:78-84 | the rounding changes the year only in a year's last half microsecond, and then to January 1 of the next year |
| Timestamp.YearRange | interpolateParams.go:88-90 | appendDateTime fails exactly when the rounded year is outside [1, 9999], with that year; in terms of the input year, [1, 9999] except in a year's last half microsecond, where it is [0, 9998] |
| Timestamp.DateTimeTextLength | interpolateParams.go:101-123 | the text is 10 bytes exactly at a rounded midnight, 19 exactly when only the microseconds are 0, and 26 otherwise, ending in '.' and six digits |
| Timestamp.DateTimeTextRoundTrip | interpolateParams.go:77-124 | the text reads back as the rounded time truncated to whole microseconds |
| Timestamp.DateOnlyReads | interpolateParams.go:101-103 | the 10-byte form reads back as the date at midnight |
| Timestamp.DateClockReads | interpolateParams.go:105-113 | the 19-byte form reads back as the time with no fraction |
| Timestamp.DateClockFractionReads | interpolateParams.go:116-123 | the 26-byte form reads back as the time with its microseconds |
| Timestamp.DatePartReads | interpolateParams.go:95-99 | bytes 0-9 are YYYY-MM-DD: separators at 4 and 7, and the fields read back as year, month and day |
| Timestamp.ClockPartReads | interpolateParams.go:105-110 | bytes 10-18 are " HH:MM:SS": separators at 0, 3 and 6, and the fields read back as hour, minute and second |
| Timestamp.DateTimeTextNoQuote | interpolateParams.go:91-123 | the date-time text holds no quote, so it can sit between the quotes added at lines 173 and 179 |
| Timestamp.DatePartBytes | interpolateParams.go:91-99 | the digit-table lookups for year/100, year%100, month and day spell the zero-padded date |
| Timestamp.ClockPartBytes | interpolateParams.go:105-110 | the digit-table lookups for hour, minute and second spell the zero-padded clock |
| Timestamp.FractionPartBytes | interpolateParams.go:116-121 | the lookups for micro/10000, micro/100%100 and micro%100 spell '.' and the six-digit microseconds |
| Timestamp.SixDigits | interpolateParams.go:116-118 | six zero-padded digits are the three two-digit groups micro/10000, micro/100%100 and micro%100 |
| Timestamp.PutDate | interpolateParams.go:91-99 | writes the date into bytes 0-9 of the local array and leaves the rest unchanged |
| Timestamp.PutClock | interpolateParams.go:105-110 | writes the clock into bytes 10-18 and leaves the rest unchanged |
| Timestamp.PutFraction | interpolateParams.go:116-121 | writes the fraction into bytes 19-25 and leaves the rest unchanged |
| Timestamp.AppendDateTime | interpolateParams.go:77-124 | on success appends exactly the date-time text; on a year out of range returns that error and leaves the buffer unchanged |
| Timestamp.AppendLayout | interpolateParams.go:91-123 | writes the date, clock and fraction fields into a 26-byte local array and appends 10 bytes at midnight, 19 when the microseconds are 0 and all 26 otherwise: exactly the layout of the rounded time |
| Interpolate.Arg | interpolateParams.go:148-198 | the `interface{}` argument: one variant per case of the type switch (nil, int, int64, uint64, float64, bool, time.Time, json.RawMessage, nil and non-nil []byte, string) and Other for `default` |
| Interpolate.EncodeArg | interpolateParams.go:148-201 | defines the literal of one argument per case of the type switch, or the year error of a time, or UnknownType at its 1-based position for any other type |
| Interpolate.Render | interpolateParams.go:136-202 | defines the statement byte by byte: query bytes copied, each `?` replaced by the next argument's literal, the first encoding error ending it |
| Interpolate.Interpolate | interpolateParams.go:126-207 | defines interpolateParams: ErrInvalidArgs when the `?` count differs from the number of arguments, else Render |
| Interpolate.EncodeArgErrors | interpolateParams.go:148-201 | an argument fails to encode exactly when it has an unknown type (error carries its 1-based position) or is a non-zero time whose rounded year is out of range (error carries that year) |
| Interpolate.FixedLiterals | interpolateParams.go:148-171 | nil and a nil []byte are NULL, a zero time is '0000-00-00', true is 1 and false is 0 |
| Interpolate.QuotedPlaceholder | interpolateParams.go:137-146 | the query `'?'` with a string argument gives the statement `''` + escaped payload + `''`: the query's quotes are copied verbatim around the argument's own quotes |
| Interpolate.QuotedTextReadsBack | interpolateParams.go:181-197 | a string or json.RawMessage literal opens with a quote and reads back as exactly its payload when the text after it does not start with a quote |
| Interpolate.BinaryReadsBack | interpolateParams.go:185-193 | a non-nil []byte literal starts with `_binary'` and reads back as exactly its bytes when the text after it does not start with a quote |
| Interpolate.PrefixedLiteralReadsBack | interpolateParams.go:181-197 | after its prefix, a prefix + escaped payload + quote literal reads back as the payload when the text after it does not start with a quote |
| Interpolate.TimeLiteral | interpolateParams.go:169-180 | a non-zero time is its date-time text between quotes and reads back as that text when the text after it does not start with a quote |
| Interpolate.Arity | interpolateParams.go:127-130 | ErrInvalidArgs exactly when the count of `?` differs from len(args); ErrInvalidParseArgs is never returned |
| Interpolate.InterpolateOk | interpolateParams.go:126-207 | success exactly when the counts agree and every argument encodes; the statement is then the query's `?`-free pieces, verbatim and in order, with the k-th argument's literal in the k-th gap |
| Interpolate.RenderOk | interpolateParams.go:136-202 | the same, for the byte-by-byte statement with any encoder |
| Interpolate.InterpolateFirstError | interpolateParams.go:175-200 | any other failure is the error of the first argument, in order, that cannot be encoded |
| Interpolate.EncodeAllOk | interpolateParams.go:145-201 | encoding all arguments succeeds exactly when each one does, and then lists their literals in order |
| Interpolate.EncodeAllFirstError | interpolateParams.go:175-200 | a failure of encoding all arguments is the failure of the first one that fails |
| Interpolate.RenderIsInterleave | interpolateParams.go:136-202 | the byte-by-byte statement equals the pieces between placeholders interleaved with the literals, or the first encoding error |
| Interpolate.RenderErrors | interpolateParams.go:175-200 | when every error the encoder gives is an UnknownType or a YearOutOfRange, every error of the statement is one of those two as well |
| Interpolate.SplitJoin | interpolateParams.go:136-143 | putting a `?` back between consecutive pieces of Split gives the query itself, so the pieces are the query's own bytes, verbatim and in order |
| Interpolate.SplitCount | interpolateParams.go:128-143 | cutting the query at its `?`s gives one more piece than placeholders, none holding a `?` |
| Interpolate.RenderStep | interpolateParams.go:137-146 | the text up to the first `?` is copied, then the next argument's literal follows, or its error ends the statement |
| Interpolate.AppendArg | interpolateParams.go:145-201 | appends exactly the argument's literal, or returns the argument's error |
| Interpolate.AppendTime | interpolateParams.go:169-180 | '0000-00-00' for the zero time, else the date-time text between quotes, or the year error |
| Interpolate.AppendQuotedBytes | interpolateParams.go:181-193 | appends the prefix, the escaped bytes and a closing quote |
| Interpolate.AppendQuotedString | interpolateParams.go:194-197 | appends the escaped string between quotes |
| Interpolate.SubstituteAll | interpolateParams.go:132-206 | the loop's result is the byte-by-byte statement of the whole query |
| Interpolate.LoopTurn | interpolateParams.go:137-146 | one turn moves the text before the next `?` and that argument's literal into the output, keeping the loop invariant |
| Interpolate.LoopFail | interpolateParams.go:175-200 | a turn whose argument fails makes the whole statement that failure |
| Interpolate.LoopExit | interpolateParams.go:137-141 | with no `?` left, every argument has been consumed and the rest of the query is copied |
| Interpolate.InterpolateParams | interpolateParams.go:126-207 | interpolateParams returns exactly the specified result: ErrInvalidArgs on a count mismatch, else the statement or the first argument error |

## Left out

- Floating point: `strconv.AppendFloat(buf, v, 'g', -1, 64)` is passed in as the function `formatFloat` from the bit pattern to text. Shortest round-trip formatting is library code and is not modelled.
- Time zones and the calendar: `v.In(time.UTC)` and `t.Date()`/`t.Clock()` are not modelled. A time is given directly by its UTC fields. `IsZero` is checked on those fields, which agrees with Go because `IsZero` does not depend on the location. `t.Add(500ns)` is modelled as a carry through seconds, minutes, hours, days (Gregorian month lengths), months and years.
- The unknown-type error message, which `fmt.Sprintf` builds from the position and the value: only the position is kept, as `UnknownType(argPos)`. Printing the value is not modelled. The year error keeps the year but not its message text.
- `ErrInvalidType` is declared in the source but never returned, so it has no counterpart.
- `int` is taken to be 64 bits wide. Where Go's `int` is 32 bits, `int64(v)` widens it without loss and the text is the same, so nothing is lost.
- The untyped `arg == nil` check is the `Nil` variant. A nil `[]byte` is the `NilByteSlice` variant. A nil `json.RawMessage` is `RawJson([])`, which the code also writes as `''`.
- Digit tables: the two 100-byte string constants are written by their rule (byte n is the tens, resp. units, digit of n) rather than as literals.
- `Buffer.ByteBuf.Append`: Go's built-in `append` grows the backing array by the runtime's own policy. Here it grows through `Reserve`. The capacity never shows in the output.
- `string(buf)` and `buf = buf[:0]` are not modelled. Both are conversions with no effect on the bytes.
- Loop variable: the substitution loop walks the unread suffix `query[i:]` instead of the index `i`. After an error the partly written buffer is not returned, as in the source.
- MySQL's backslash escapes are not handled, by the source or by the model. Quote doubling is the only escaping, and the injection-safety lemmas read literals by the standard SQL rule.
- `err_writer.go` and `err_logger.go`, the failed-query logger, are not part of this model.
