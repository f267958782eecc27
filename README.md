# read_csv_robust: a verified model of the CSV ingestion fallback chain

`read_csv_robust(content)` turns an uploaded byte buffer into a table. It tries
four text codecs in a fixed order: `utf-8`, `utf-8-sig`, `cp1252`, `latin-1`.
A codec that raises while decoding is skipped, and no parse is attempted under
it. For a text that decodes, it wraps the text in an `io.StringIO` stream.
It first asks `pd.read_csv` to sniff the delimiter (`sep=None`). If that
raises, it rewinds the stream and tries the explicit delimiters `,` `;` `\t`
`|` in that order. It returns the first table that parses. It moves to the
next codec only after all five parse attempts under the current one have
raised. If every attempt fails, it raises a `RuntimeError` carrying the last
error it recorded.

The model has two modules.

- `FallbackChain` (fallback_chain.dfy) is the specification. It defines the
  20 (codec, delimiter) attempts in priority order and the outcome of one
  attempt on its own. `ReadSpec` is the declarative result: the table of the
  first attempt whose decode and parse both succeed, otherwise the error of
  the last attempt. It also defines `Schedule`, the sequence of oracle calls
  a run makes when nothing succeeds. Lemmas characterise both.
- `Ingest` (read_csv_robust.dfy) is the imperative orchestrator. It has a
  `StringStream` class with a cursor and a `CallLog` class that records
  every oracle call of a run in order. One decode (`Decode`) and one
  `pd.read_csv` call (`ReadCsv`) each append their call to the log. The
  per-text chain (`ParseDecoded`) holds the inner loop and `seek(0)`. One
  turn of the outer loop (`TryEncoding`) is a decode followed by that chain.
  `ReadCsvRobust` holds the outer loop, the mutable `lastErr` and the early
  returns. `ReadCsvRobust` is proved equal to `ReadSpec`. The calls it
  appends to the log are proved to be a prefix of `Schedule` in which no
  call but the last returns, and the last returns exactly when the run
  returns.

Decoding and parsing are foreign code. They are parameters of the model, total
functions that either succeed or fail with an error value:
`decode(enc, content)` and `parse(text, sep)`. A third parameter,
`advance(text, sep)`, says how far a `pd.read_csv` call moves the stream
cursor, whether it returns or raises. The result is proved not to depend on
it: every explicit attempt rewinds the stream first, and the auto attempt
runs on a fresh stream. Because the oracles are functions, identical bytes
always give an identical outcome. The memoisation decorator relies on that.

## Model

| member | source | states |
|---|---|---|
| `FallbackChain.SourceArguments` | app.py:6-28 | the codec names passed to `decode`, in order: utf-8, utf-8-sig, cp1252, latin-1; the `sep` arguments in order: None, `,`, `;`, `\t`, pipe |
| `FallbackChain.Product` | app.py:8-28 | each codec contributes exactly five attempts: auto plus the four explicit delimiters |
| `FallbackChain.ProductAt` | app.py:8-28 | in the attempt list of any codec sequence, attempt 5·i + j is codec i under delimiter j |
| `FallbackChain.PriorityOrder` | app.py:6-28 | there are exactly 4 × 5 = 20 attempts, ordered by (codec, delimiter): codec-major, auto first |
| `FallbackChain.FirstOkAt` | app.py:16-37 | if result k succeeds and every earlier one failed, the first-success result is result k's value |
| `FallbackChain.FirstOkReturned` | app.py:16-37 | a returned value is that of some result k that succeeded, with every earlier result failed |
| `FallbackChain.FirstOkRaised` | app.py:7-42 | the first-success result is a failure iff every result failed, and it then carries the last result's error, not the first |
| `FallbackChain.FirstSuccessWins` | app.py:8-40 | if attempt (i, j) succeeds and every attempt before it in priority order failed, the run returns the parse of codec i's text under delimiter j |
| `FallbackChain.ReturnedIsFirstSuccess` | app.py:8-40 | conversely, a returned table comes from some attempt (i, j) that succeeded, with every earlier attempt failed |
| `FallbackChain.AllAttemptsFail` | app.py:8-40 | "all 20 results failed" and "every (codec, delimiter) attempt failed" are the same condition |
| `FallbackChain.RaisedIffAllFail` | app.py:7-42 | the run raises iff every attempt failed; the error raised is latin-1's decode error, or, if latin-1 decoded, its error under the pipe delimiter |
| `FallbackChain.NoEncodingDecodes` | app.py:9-13 | a buffer that no codec decodes raises with latin-1's decode error |
| `FallbackChain.LastErrorIsReported` | app.py:11-42 | when each codec fails with an error naming itself, the error raised is latin-1's, the last one recorded |
| `FallbackChain.TurnDecodeFails` | app.py:9-13 | a codec that does not decode adds only its decode call, fails all five of its attempts, and sets the last error to its decode error |
| `FallbackChain.TurnExhausted` | app.py:25-40 | a decoded codec whose five parses all fail adds its decode call and five parse calls, none of which returns |
| `FallbackChain.TurnReturnsTable` | app.py:16-37 | a decoded codec whose n-th parse is the first to succeed gives exactly the declarative result |
| `FallbackChain.TurnReturnsCalls` | app.py:16-37 | the calls of a run that returns at that parse follow the schedule, and only the last call returns |
| `FallbackChain.RunExhausted` | app.py:42 | after all four codecs are exhausted, the run raises the declarative error and has made the whole schedule |
| `FallbackChain.ScheduleMembers` | app.py:8-40 | the schedule holds a decode call for each codec tried, and a parse call (e, s) iff e was tried, s is one of the five delimiters and e decoded |
| `FallbackChain.DecodeFailureSkips` | app.py:9-13 | a codec that fails to decode is tried, but no parse is ever scheduled under it |
| `FallbackChain.ReachedNext` | app.py:8 | a run that has reached the decode of codec i + 1 has made every call scheduled for codecs 0..i |
| `FallbackChain.BlockLayout` | app.py:15-37 | the five parses of a decoded codec directly follow its decode call in the schedule, in delimiter order |
| `FallbackChain.ExhaustedBeforeNext` | app.py:25-40 | a run that has reached codec i + 1 has made all five parses of a decoded codec i, and all of them failed |
| `FallbackChain.ScheduleCounts` | app.py:6-28 | the schedule for n codecs holds exactly n decode calls and at most 5·n parse calls |
| `FallbackChain.BoundedWork` | app.py:6-28 | any run makes at most 4 decode calls, at most 20 parse calls and at most 24 calls in all, so it always terminates |
| `Ingest.Unread` | app.py:29 | a reader at cursor position 0 sees the whole text |
| `Ingest.StringStream.constructor` | app.py:15 | a new stream holds the decoded text with its cursor at the start |
| `Ingest.StringStream.Seek` | app.py:29 | `seek(0)` puts the cursor back at the start |
| `Ingest.CallLog.constructor` | app.py:2 | a run's call log starts empty |
| `Ingest.Decode` | app.py:11-13 | one `content.decode(enc)` returns the decode oracle's result and is appended to the call log |
| `Ingest.ReadCsv` | app.py:18-36 | one `pd.read_csv` call parses the unread part of the stream, moves the cursor forward (at most to the end) and is appended to the call log |
| `Ingest.ParseDecoded` | app.py:15-40 | on one decoded text, the `pd.read_csv` calls appended to the log are the first n delimiters in order (auto first) and stop at the first success; the result is that success, or the error of the pipe parse after all five failed; rewinding makes every attempt see the whole text |
| `Ingest.TryEncoding` | app.py:9-40 | one codec's turn: a table is the declarative result and the logged calls stop at that parse; an error is the codec's decode error or its pipe parse error, the calls logged are the codec's whole schedule block and all its attempts failed |
| `Ingest.ReadCsvRobust` | app.py:2-42 | the outcome equals the declarative first success in priority order / last error; the calls it appends to the shared log are a prefix of the schedule in which no call but the last returns, and the last returns exactly when the run returns; on failure the whole schedule was made |
| `Ingest.ReadTwice` | app.py:1-2 | two runs on the same bytes give the same outcome, even when the parser moves the cursor differently; memoising on the bytes is sound |

## Left out

- Type inference (date, integer, float) and OHLC header normalisation: the files that implement them are not part of this model.
- The internals of `pd.read_csv`: delimiter sniffing, quoting and the `on_bad_lines="skip"` policy. It is foreign library code, modelled as the `parse` oracle.
- The `utf-8`, `utf-8-sig`, `cp1252` and `latin-1` codecs: these are Python built-ins, modelled as the `decode` oracle. The oracles take the `Encoding` and `Sep` values. `SourceArguments` ties those values to the literal codec names and `sep` arguments.
- The `pandas.DataFrame` value: it is the opaque type parameter `T`.
- The `st.cache_data` decorator is framework memoisation. Only the property it relies on is stated (`Ingest.ReadTwice`).
- Exceptions that `except Exception` does not catch, such as `KeyboardInterrupt`. The model treats every oracle failure as caught.
- The text of the `RuntimeError` message is string formatting. A failure is `Raised(lastError)`.
- A "non-empty, at least one column" success test: the code has none. Success means `pd.read_csv` did not raise. An empty DataFrame counts as a success.
- The outer loop's body is factored out as the method `TryEncoding`, and the part of it from the stream's creation to the end of the delimiter loop as `ParseDecoded`. The `last_err` updates inside the body become the error `TryEncoding` returns; `ReadCsvRobust` stores that error in `lastErr`.
- Facts about the real codecs: the `decode` oracle may be any function, so two properties of Python's codecs are not assumed. First, `latin-1` decodes every byte string. With the real codecs the premise of `NoEncodingDecodes` never holds, and a total failure always reports latin-1's error under the pipe delimiter. Second, `utf-8-sig` accepts only what strict `utf-8` accepts. Once `utf-8` has failed, the `utf-8-sig` attempt cannot succeed.
- Ingest.ReadCsvRobust: the call trace covers the calls made through `Decode` and `ReadCsv` on the log the caller passes in. An oracle applied directly, or through a `CallLog` the method allocated itself, would not be recorded; the model has no single global log that could forbid it.
