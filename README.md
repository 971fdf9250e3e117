# SasatoRes in Dafny

A model of `sasato.lib.SasatoRes`, a small Java library for API response
envelopes, with proofs about that model. The library has three parts, and the
model follows the same split:

- **Request-detail sanitiser** (`sanitizer.dfy`, module `Sanitizer`).
  `ErrorDetails.sanitize` applies the fixed pattern
  `(?i)(password|token|secret|apiKey|auth|credential|card_no)=[^&\s,]*` with
  `replaceAll("$1=********")`. The model writes this out by hand as a
  left-to-right scanner over `seq<char>`:
  - at an index where a key is followed by `=`, it emits the key as written,
    then `=********`, and skips the value;
  - otherwise it copies one character.
- **Debug gating** (`error_details.dfy`, module `ErrorDetail`).
  - The static `isDebugMode` flag is a class `DebugFlag` with a mutable field.
  - `ErrorDetails` is an immutable datatype holding the captured fields.
  - Its three gated getters read the flag on every call.
  - The stack trace is the frames joined with `"\n"`.
- **Envelope** (`envelope.dfy`, module `Envelope`).
  - `MetaInfo` is a class: `build()` assigns `processingTimeMs`, and the
    paginated `success` assigns `pagination`, after construction.
  - `SasatoRes<T>` is a class with the private constructor, `build()`, and the
    four static factories.
- `wrappers.dfy` (module `Wrappers`) holds `Option` (Java's null) and Java's
  `long`/`int` with the wrap-around subtraction and truncating division that
  `build()` uses.

Main results:
- Every value left in the sanitiser's output is the mask. This holds because
  the value pattern `[^&\s,]*` is greedy and the mask `********` has no
  delimiter in it.
- Hence `sanitize` is idempotent. Its fixpoints are exactly the redacted
  strings.
- It is the identity on strings with no `key=` in them.
- The key of every match is emitted as written. The text up to the first `=`
  is kept verbatim. Text inside a masked value is dropped, keys included:
  `password=token=abc` becomes `password=********`.
- Pairs separated by `&`, `,` or whitespace are sanitised independently. The
  test input `token=abc-123, password=my_password, user=sasato` becomes
  `token=********, password=********, user=sasato`.
- While debug mode is off, the gated getters return their placeholders.
- While debug mode is on, they return the captured values.
- Whatever the flag, `getRequestDetails` never returns an unmasked sensitive
  value.

The pattern has no word boundary. A key at the end of a longer word is
therefore matched and masked: `user_password=x` becomes
`user_password=********`. `Sanitizer.SanitizeEmbeddedKey` and
`Sanitizer.SanitizeUserPassword` state this.

Inputs the model takes as parameters:
- the random request id and the formatted timestamp, passed to the factories
  as `requestId` and `timestamp`;
- the two `System.nanoTime()` readings, passed as `startNanos` and `endNanos`;
- a throwable, given as its class name and the `toString()` of each frame.

## Model

| member | source | states |
|---|---|---|
| Sanitizer.MatchKeyAmong | src/main/java/sasato/lib/SasatoRes.java:75-76 | group 1 followed by `=`, tried at one index: the first alternative, in pattern order, whose ASCII-case-folded text is followed by `=`, giving the length of the key text, which is always shorter than the input; properties in Sanitizer.MatchKeyIsKeyBeforeEquals |
| Sanitizer.MatchKey | src/main/java/sasato/lib/SasatoRes.java:75-76 | MatchKeyAmong over the seven keys; the match index is inside the input |
| Sanitizer.MatchKeyIsKeyBeforeEquals | src/main/java/sasato/lib/SasatoRes.java:75-76 | the pattern's alternation matches at the start of x exactly when the text before the first `=` is one of the seven keys under ASCII case folding; the match length is that text's length |
| Sanitizer.NoProperSuffixIsKey | src/main/java/sasato/lib/SasatoRes.java:76 | no key is a proper suffix of another key, so at most one of the seven alternatives can end at a given `=` |
| Sanitizer.ValueLength | src/main/java/sasato/lib/SasatoRes.java:76 | `[^&\s,]*` consumes the longest run of non-delimiters, which may be empty; it stops at `&`, `,`, space, tab, newline, VT, FF or CR |
| Sanitizer.AfterValue | src/main/java/sasato/lib/SasatoRes.java:76 | skips the `=` and the greedy value, leaving a strictly shorter rest that is empty or starts with a delimiter |
| Sanitizer.Sanitize | src/main/java/sasato/lib/SasatoRes.java:91 | the scan of `replaceAll("$1=********")`, left to right: at a match, emit the key as written, then `=********`, and resume after the value; otherwise copy one character; no ensures of its own, its properties are the rows below |
| Sanitizer.SanitizeOption | src/main/java/sasato/lib/SasatoRes.java:89-92 | a null string stays null; any other string is replaced by its sanitised form, which is redacted |
| Sanitizer.SanitizeRedacts | src/main/java/sasato/lib/SasatoRes.java:91 | after replaceAll, every key followed by `=` is followed by exactly `********` and then a delimiter or the end |
| Sanitizer.SanitizeFixpoints | src/main/java/sasato/lib/SasatoRes.java:91 | sanitize leaves a string unchanged if and only if the string is already redacted |
| Sanitizer.SanitizeIdempotent | src/main/java/sasato/lib/SasatoRes.java:91 | sanitising twice gives the same result as sanitising once |
| Sanitizer.SanitizeIdentityOnClean | src/main/java/sasato/lib/SasatoRes.java:91 | a string in which no index starts a key followed by `=` is returned unchanged |
| Sanitizer.SanitizeKeepsKeyField | src/main/java/sasato/lib/SasatoRes.java:91 | the output equals the input up to and including the first `=` (the whole input when there is none), so the first key is never rewritten |
| Sanitizer.SanitizeCopiesPrefix | src/main/java/sasato/lib/SasatoRes.java:91 | text in which no match starts is copied verbatim, and scanning resumes after it |
| Sanitizer.SanitizeSplitsAtDelimiter | src/main/java/sasato/lib/SasatoRes.java:76 | for any delimiter d, sanitize(p + d + q) == sanitize(p) + d + sanitize(q): no match reaches across a delimiter |
| Sanitizer.SanitizeSplitsAtTwoDelimiters | src/main/java/sasato/lib/SasatoRes.java:76 | the same for a two-character separator such as `", "` |
| Sanitizer.SanitizeThreeItems | src/main/java/sasato/lib/SasatoRes.java:76 | three items separated by `", "` are sanitised one by one |
| Sanitizer.SanitizePair | src/main/java/sasato/lib/SasatoRes.java:75-91 | `key=value` with a sensitive key and a delimiter-free value becomes the key as written (original casing) followed by `=********` |
| Sanitizer.SanitizePlainPair | src/main/java/sasato/lib/SasatoRes.java:75-91 | `key=value` where no suffix of the key is a sensitive key and neither part holds `=` is left unchanged |
| Sanitizer.SanitizeEmbeddedKey | src/main/java/sasato/lib/SasatoRes.java:76 | there is no word boundary: in w + key + `=` + value, the key is still matched and the value masked, while w is kept |
| Sanitizer.SanitizeThreePairs | src/main/java/sasato/lib/SasatoRes.java:75-91 | in three `", "`-separated pairs, the two sensitive values are masked and the plain pair is kept |
| Sanitizer.SanitizeTestCase | src/test/java/sasato.lib/SasatoResTest.java:71-77 | `token=abc-123, password=my_password, user=sasato` sanitises to `token=********, password=********, user=sasato` |
| Sanitizer.SanitizeUserPassword | src/main/java/sasato/lib/SasatoRes.java:76 | `user_password=x` sanitises to `user_password=********` |
| Sanitizer.SanitizeKeepsKeyCase | src/main/java/sasato/lib/SasatoRes.java:76 | `ApiKey=k1` sanitises to `ApiKey=********`: matching ignores case, and the emitted key keeps its casing |
| Sanitizer.SanitizeDropsKeyInValue | src/main/java/sasato/lib/SasatoRes.java:76 | `password=token=abc` sanitises to `password=********`: the masked value swallows the second key and its `=` |
| ErrorDetail.DebugFlag.constructor | src/main/java/sasato/lib/SasatoRes.java:23 | the flag starts false |
| ErrorDetail.DebugFlag.SetDebugMode | src/main/java/sasato/lib/SasatoRes.java:25-27 | after the call the flag holds the given value |
| ErrorDetail.JoinLines | src/main/java/sasato/lib/SasatoRes.java:97 | `Collectors.joining("\n")`: the lines with one `\n` between neighbours and `""` for none; no ensures of its own, its properties are ErrorDetail.SplitJoinLines and ErrorDetail.JoinLinesLength |
| ErrorDetail.SplitJoinLines | src/main/java/sasato/lib/SasatoRes.java:94-98 | joining at least one single-line frame with `"\n"` and splitting at `"\n"` gives back the frames |
| ErrorDetail.JoinLinesLength | src/main/java/sasato/lib/SasatoRes.java:94-98 | the joined trace is as long as the frames together plus one separator between each pair of neighbours |
| ErrorDetail.StackTraceAsString | src/main/java/sasato/lib/SasatoRes.java:94-98 | when the throwable has at least one frame and no frame contains `"\n"`, the trace splits back into its frames; no frames give the empty string |
| ErrorDetail.NewErrorDetails | src/main/java/sasato/lib/SasatoRes.java:78-84 | code and message are stored as given; exception type and trace are present exactly when a throwable is; the request details are null exactly when given null, and are otherwise sanitised and redacted |
| ErrorDetail.ErrorDetails.GetExceptionType | src/main/java/sasato/lib/SasatoRes.java:104-106 | with the flag true, the stored type name (possibly null); with it false, `"Hidden"` |
| ErrorDetail.ErrorDetails.GetStackTrace | src/main/java/sasato/lib/SasatoRes.java:108-110 | with the flag true, the stored trace; with it false, the access-denied sentence |
| ErrorDetail.ErrorDetails.GetRequestDetails | src/main/java/sasato/lib/SasatoRes.java:112-114 | with the flag true, the stored sanitised details; with it false, `"Hidden"` |
| ErrorDetail.DebugOffHidesDetails | src/main/java/sasato/lib/SasatoRes.java:104-114 | for any details and with the flag off: `"Hidden"`, `"Hidden"` and `"Access Denied: Set debug mode to true to see details."` |
| ErrorDetail.DebugOnShowsDetails | src/main/java/sasato/lib/SasatoRes.java:78-114 | with the flag on, the getters give the throwable's class name, its frames joined by `"\n"`, and the sanitised request details |
| ErrorDetail.DebugOnKeepsNulls | src/main/java/sasato/lib/SasatoRes.java:81-83 | with no throwable and no details, the three getters return null in debug mode |
| ErrorDetail.RequestDetailsNeverLeak | src/main/java/sasato/lib/SasatoRes.java:83-114 | for either flag value, a non-null getRequestDetails result is redacted and a fixpoint of sanitize |
| ErrorDetail.ReadAcrossToggle | src/main/java/sasato/lib/SasatoRes.java:23-114 | the flag is read at access time: the same details give `"Hidden"` before setDebugMode(true) and the stored type afterwards, and the code is the same both times |
| Envelope.Status.Name | src/main/java/sasato/lib/SasatoRes.java:133-172 | the status literal each factory stores and getStatusCode returns: `"SUCCESS"` at lines 133 and 146, `"FAILURE"` at 159, `"ERROR"` at 172; no ensures of its own, its property is Envelope.StatusNameInjective |
| Envelope.StatusNameInjective | src/main/java/sasato/lib/SasatoRes.java:132-173 | the strings `"SUCCESS"`, `"FAILURE"` and `"ERROR"` are pairwise distinct, so the status string tells the factories apart |
| Envelope.ElapsedMillis | src/main/java/sasato/lib/SasatoRes.java:176 | when the readings differ by a non-negative amount that fits in a long, the recorded milliseconds lie between 0 and that amount |
| Envelope.ElapsedMillisOfAdvance | src/main/java/sasato/lib/SasatoRes.java:176 | after the clock advances by e nanoseconds (0 <= e <= Long.MAX_VALUE, even across wrap-around), build() records the whole milliseconds of e |
| Envelope.MetaInfo.constructor | src/main/java/sasato/lib/SasatoRes.java:38-42 | the given version, id and timestamp are stored; processing time is 0 and pagination is null |
| Envelope.SasatoRes.constructor | src/main/java/sasato/lib/SasatoRes.java:118-124 | status, data, error and start time are stored; the metadata is fresh, with version `"1.0.0"` |
| Envelope.SasatoRes.Build | src/main/java/sasato/lib/SasatoRes.java:175-178 | processingTimeMs becomes (end - start) / 1_000_000 on longs; pagination is untouched |
| Envelope.SasatoRes.Success | src/main/java/sasato/lib/SasatoRes.java:132-134 | status SUCCESS, data passed through (null included), no error, no pagination, version `"1.0.0"`, elapsed time recorded |
| Envelope.SasatoRes.SuccessPaged | src/main/java/sasato/lib/SasatoRes.java:145-149 | as Success, plus pagination holding total, limit and offset verbatim (negatives included) |
| Envelope.SasatoRes.Failure | src/main/java/sasato/lib/SasatoRes.java:158-160 | status FAILURE, no data, error built with no throwable and null details, no pagination |
| Envelope.SasatoRes.Error | src/main/java/sasato/lib/SasatoRes.java:171-173 | status ERROR, no data, error built from the (nullable) throwable and details, no pagination |
| Wrappers.LongSub | src/main/java/sasato/lib/SasatoRes.java:176 | Java `long` subtraction: the exact difference modulo 2^64, which equals the exact difference when it fits |
| Wrappers.LongSubAfterWrap | src/main/java/sasato/lib/SasatoRes.java:176 | subtracting a start reading from a reading e later gives e, even once the later reading has wrapped |
| Wrappers.LongDiv | src/main/java/sasato/lib/SasatoRes.java:176 | Java `long` division by a positive divisor: the quotient lies between 0 and the dividend |
| Wrappers.LongDivTruncates | src/main/java/sasato/lib/SasatoRes.java:176 | that quotient is truncated toward zero |
| Wrappers.Option.Map | src/main/java/sasato/lib/SasatoRes.java:81-82 | `Optional.map` with a mapper that never returns null, as at both call sites: present exactly when the input is, holding f of its value |

## Left out

- Request id and timestamp: `UUID.randomUUID()` and `ZonedDateTime.now()` formatting are randomness and the clock. They are parameters of the factories.
- `System.nanoTime()`: both readings are parameters. The model does not constrain them. `Envelope.ElapsedMillisOfAdvance` states the result for a clock that moves forward.
- Reflection: `getClass().getName()` and `StackTraceElement.toString()` are not modelled. A throwable is its type name and its frame strings.
- General regular expressions: only the one fixed pattern is modelled.
- Characters are Dafny `char` values (Unicode scalar values), not UTF-16 code units. Every character the pattern tells apart is ASCII: the key letters, `_`, `=`, `&`, `,` and the six `\s` characters, and any other character simply continues a value. A Java `String` may hold unpaired surrogate code units, which a Dafny `string` cannot, so such strings are outside the model.
- Concurrency: the unsynchronised static flag is modelled for sequential use only.
- Null `code` and `message`: the model uses plain strings. Java passes null through unchanged, and nothing else depends on these two fields.
- Null payload: `success` takes an `Option<T>`, with None for Java's `null`. Java's `getData`, `getError` and `getCode` getters (lines 101-102 and 180-183) return fields, so they are the fields of `ErrorDetails` and `SasatoRes` and have no members of their own.
- Envelope.ElapsedMillis: its contract gives only the bounds 0 and d for a difference d that fits in a long. The exact quotient is stated by `Envelope.ElapsedMillisOfAdvance` and `Wrappers.LongDivTruncates`.
- Envelope.SasatoRes.Success, Envelope.SasatoRes.SuccessPaged, Envelope.SasatoRes.Failure, Envelope.SasatoRes.Error: `build()` is called once inside each factory. The start reading that the constructor takes is an input, not a clock call.
