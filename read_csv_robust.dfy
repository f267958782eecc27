/** The orchestrator `read_csv_robust` as the source writes it, with its
    mutable state: an outer loop over the codecs with a mutable `lastErr`
    (`ReadCsvRobust`, one turn of which is `TryEncoding`), and, for a text
    that decoded, a text stream, the
    auto-delimiter parse and an inner loop over the explicit delimiters that
    rewinds the stream before each attempt (`ParseDecoded`). Both return
    early on the first success. `ReadCsvRobust` is proved to agree with the
    declarative `FallbackChain.ReadSpec`. Every decode and every
    `pd.read_csv` call goes through `Decode` or `ReadCsv`, which append it
    to a shared `CallLog`; the calls a run appends are proved to be a prefix
    of `FallbackChain.Schedule` that stops at the first success. */
module Ingest {
  import opened FallbackChain

  /** What a reader of `text` sees from cursor position `pos` on; nothing
      once the cursor is past the end. */
  function Unread(text: string, pos: nat): (rest: string)
    ensures pos == 0 ==> rest == text
  {
    if pos <= |text| then text[pos..] else []
  }

  /** The record of the oracle calls made so far, in order, shared by
      every decode and every `pd.read_csv` call of a run. */
  class CallLog {
    ghost var calls: seq<Call>

    constructor ()
      ensures calls == []
    {
      calls := [];
    }
  }

  /** An in-memory text stream (`io.StringIO`): fixed text and a cursor. */
  class StringStream {
    const text: string
    var pos: nat

    constructor (text: string)
      ensures this.text == text && pos == 0
    {
      this.text := text;
      pos := 0;
    }

    /** `seek(offset)`: move the cursor; the text is unchanged. */
    method Seek(offset: nat)
      modifies this
      ensures pos == offset
    {
      pos := offset;
    }
  }

  /** `content.decode(enc)`, recorded in the log. */
  method Decode<E>(enc: Encoding, content: seq<byte>,
                   decode: (Encoding, seq<byte>) -> Result<string, E>,
                   log: CallLog) returns (r: Result<string, E>)
    modifies log
    ensures r == decode(enc, content)
    ensures log.calls == old(log.calls) + [DecodeCall(enc)]
  {
    r := decode(enc, content);
    log.calls := log.calls + [DecodeCall(enc)];
  }

  /** One `pd.read_csv(s, sep=…)` call on a stream over the text decoded
      with `enc`: the parser sees the text from the cursor on and moves the
      cursor forward by `advance(...)` characters, at most to the end,
      whether it succeeds or raises. The call is recorded in the log. */
  method ReadCsv<T, E>(s: StringStream, ghost enc: Encoding, sep: Sep,
                       parse: (string, Sep) -> Result<T, E>,
                       advance: (string, Sep) -> nat,
                       log: CallLog) returns (r: Result<T, E>)
    modifies s, log
    ensures r == parse(Unread(s.text, old(s.pos)), sep)
    ensures var rest := Unread(s.text, old(s.pos));
            s.pos == old(s.pos) + (if advance(rest, sep) <= |rest| then advance(rest, sep) else |rest|)
    ensures log.calls == old(log.calls) + [ParseCall(enc, sep)]
  {
    var rest := Unread(s.text, s.pos);
    r := parse(rest, sep);
    var moved := if advance(rest, sep) <= |rest| then advance(rest, sep) else |rest|;
    s.pos := s.pos + moved;
    log.calls := log.calls + [ParseCall(enc, sep)];
  }

  /** The part of `read_csv_robust` that runs on one text decoded with
      `enc`: a stream over it, the auto-delimiter parse, then the explicit
      delimiters in order, each after rewinding the stream. It returns the
      first parse that succeeds, or the error of the last one (the value the
      source leaves in `last_err`); the log gains exactly the parses of the
      first n delimiters of `Seps`, stopping at the first success. */
  method ParseDecoded<T, E>(text: string, ghost enc: Encoding,
                            parse: (string, Sep) -> Result<T, E>,
                            advance: (string, Sep) -> nat,
                            log: CallLog)
    returns (res: Result<T, E>, ghost n: nat)
    modifies log
    ensures 0 < n <= |Seps|
    ensures log.calls == old(log.calls) + ParseCalls(enc, Seps[..n])
    ensures forall j :: 0 <= j < n - 1 ==> parse(text, Seps[j]).Failure?
    ensures res == parse(text, Seps[n - 1])
    ensures res.Failure? ==> n == |Seps|
  {
    var s := new StringStream(text);
    ghost var before := log.calls;
    res := ReadCsv(s, enc, Auto, parse, advance, log);
    n := 1;
    ParseCallsSnoc(enc, 0);
    if res.Success? {
      return;
    }
    // the explicit delimiters Seps[1..], in order
    for j := 1 to |Seps|
      invariant n == j
      invariant forall j' :: 0 <= j' < j ==> parse(text, Seps[j']).Failure?
      invariant res == parse(text, Seps[j - 1])
      invariant log.calls == before + ParseCalls(enc, Seps[..j])
    {
      s.Seek(0);
      res := ReadCsv(s, enc, Seps[j], parse, advance, log);
      n := n + 1;
      ParseCallsSnoc(enc, j);
      if res.Success? {
        return;
      }
    }
  }

  /** One turn of the outer loop of `read_csv_robust`: decode `content`
      with codec i and, if that succeeds, run the delimiter chain on the
      text. It returns the turn's table, or the error the source leaves in
      `last_err` (the decode error, or the pipe parse error), and, as ghost,
      the calls it appended to the log. From a state where the first i
      codecs made their scheduled calls and all their attempts failed, a
      table is the declarative result and the calls stop at the first
      success; an error leaves the state of i + 1 exhausted codecs. */
  method TryEncoding<T, E>(content: seq<byte>, i: nat,
                           decode: (Encoding, seq<byte>) -> Result<string, E>,
                           parse: (string, Sep) -> Result<T, E>,
                           advance: (string, Sep) -> nat,
                           log: CallLog, ghost before: seq<Call>)
    returns (res: Result<T, E>, ghost added: seq<Call>)
    requires i < |Encodings|
    requires before == Schedule(decode, content, Encodings[..i])
    requires NoneReturn(decode, parse, content, before)
    requires FailedBefore(decode, parse, content, i, 0)
    modifies log
    ensures log.calls == old(log.calls) + added
    ensures res.Success? ==>
              var calls := before + added;
              ReadSpec(decode, parse, content) == Returned(res.value) &&
              calls <= Schedule(decode, content, Encodings) && |calls| > 0 &&
              NoneReturn(decode, parse, content, calls[..|calls| - 1]) &&
              Returns(decode, parse, content, calls[|calls| - 1])
    ensures res.Failure? ==>
              before + added == Schedule(decode, content, Encodings[..i + 1]) &&
              NoneReturn(decode, parse, content, before + added) &&
              FailedBefore(decode, parse, content, i + 1, 0) &&
              Attempt(decode, parse, content, Pair(Encodings[i], Pipe)) == Failure(res.error)
  {
    var enc := Encodings[i];
    var decoded := Decode(enc, content, decode, log);
    if decoded.Failure? {
      res := Failure(decoded.error);
      added := [DecodeCall(enc)];
      TurnDecodeFails(decode, parse, content, i, before);
      return;
    }
    var text := decoded.value;
    ghost var n;
    res, n := ParseDecoded(text, enc, parse, advance, log);
    ghost var tried := ParseCalls(enc, Seps[..n]);
    added := [DecodeCall(enc)] + tried;
    assert before + added == before + [DecodeCall(enc)] + tried;
    if res.Success? {
      TurnReturnsTable(decode, parse, content, i, n);
      TurnReturnsCalls(decode, parse, content, i, before, tried);
    } else {
      assert Seps[..n] == Seps;
      TurnExhausted(decode, parse, content, i, before, tried);
    }
  }

  /** `read_csv_robust(content)`. Besides its outcome it returns, as ghost,
      the calls it appended to the log, in order. */
  method ReadCsvRobust<T, E>(content: seq<byte>,
                             decode: (Encoding, seq<byte>) -> Result<string, E>,
                             parse: (string, Sep) -> Result<T, E>,
                             advance: (string, Sep) -> nat,
                             log: CallLog)
    returns (r: Outcome<T, E>, ghost calls: seq<Call>)
    modifies log
    ensures r == ReadSpec(decode, parse, content)
    ensures log.calls == old(log.calls) + calls
    ensures calls <= Schedule(decode, content, Encodings)
    ensures |calls| > 0
    ensures NoneReturn(decode, parse, content, calls[..|calls| - 1])
    ensures r.Returned? <==> Returns(decode, parse, content, calls[|calls| - 1])
    ensures r.Raised? ==> calls == Schedule(decode, content, Encodings)
  {
    var lastErr: Option<E> := None;
    calls := [];
    for i := 0 to |Encodings|
      invariant calls == Schedule(decode, content, Encodings[..i])
      invariant log.calls == old(log.calls) + calls
      invariant NoneReturn(decode, parse, content, calls)
      invariant FailedBefore(decode, parse, content, i, 0)
      invariant i == 0 ==> lastErr == None
      invariant i > 0 ==> (lastErr.Some? &&
                  Attempt(decode, parse, content, Pair(Encodings[i - 1], Pipe)) == Failure(lastErr.value))
    {
      var res;
      ghost var added;
      res, added := TryEncoding(content, i, decode, parse, advance, log, calls);
      calls := calls + added;
      if res.Success? {
        r := Returned(res.value);
        return;
      }
      lastErr := Some(res.error);
    }
    RunExhausted(decode, parse, content, calls, lastErr.value);
    r := Raised(lastErr.value);
  }

  /** Identical bytes give an identical outcome, whatever the parser does to
      the stream cursor: the property the `st.cache_data` memoisation of
      `read_csv_robust` relies on. */
  method ReadTwice<T, E>(content: seq<byte>,
                         decode: (Encoding, seq<byte>) -> Result<string, E>,
                         parse: (string, Sep) -> Result<T, E>,
                         advance1: (string, Sep) -> nat,
                         advance2: (string, Sep) -> nat)
    returns (first: Outcome<T, E>, second: Outcome<T, E>)
    ensures first == second
  {
    var log1 := new CallLog();
    var log2 := new CallLog();
    ghost var calls1, calls2;
    first, calls1 := ReadCsvRobust(content, decode, parse, advance1, log1);
    second, calls2 := ReadCsvRobust(content, decode, parse, advance2, log2);
  }
}
